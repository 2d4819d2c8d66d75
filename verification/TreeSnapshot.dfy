/** The semantic tree snapshot: a depth-first walk with a seen-set over any store, cyclic,
    shared or dangling, and the index built over its result. */
module TreeSnapshot {

  type Id = int

  datatype Option<+T> = None | Some(value: T)

  /** A node of the store; `role` and `name` (its label) are what queries look at. */
  datatype StoreNode = StoreNode(parent: Option<Id>, children: seq<Id>, role: int, name: Option<string>)

  datatype Store = Store(nodes: map<Id, StoreNode>, roots: seq<Id>)

  /** `SemanticNodeSnapshot` */
  datatype Snap = Snap(
    id: Id, parent: Option<Id>, children: seq<Id>, role: int, name: Option<string>, index: nat, depth: nat)

  function SnapOf(store: Store, id: Id, index: nat, depth: nat): Snap
    requires id in store.nodes
  {
    var n := store.nodes[id];
    Snap(id, n.parent, n.children, n.role, n.name, index, depth)
  }

  // ---- The walk as a function ----

  /** What a visit emits and what has been seen after it. */
  datatype Visit = Visit(emitted: seq<Snap>, seen: set<Id>)

  function Unseen(store: Store, seen: set<Id>): set<Id> { store.nodes.Keys - seen }

  lemma UnseenShrinks(store: Store, a: set<Id>, b: set<Id>)
    requires a <= b
    ensures |Unseen(store, b)| <= |Unseen(store, a)|
    ensures forall id :: id in store.nodes && id !in a && id in b ==> |Unseen(store, b)| < |Unseen(store, a)|
  {
    var ua, ub := Unseen(store, a), Unseen(store, b);
    assert ua == ub + (ua - ub);
    forall id | id in store.nodes && id !in a && id in b ensures |ub| < |ua| {
      assert id in ua - ub;
    }
  }

  function VisitOne(store: Store, id: Id, index: nat, depth: nat, seen: set<Id>): (v: Visit)
    ensures seen <= v.seen
    decreases |Unseen(store, seen)|, 0, 0
  {
    if id in seen then Visit([], seen)
    else if id !in store.nodes then Visit([], seen + {id})
    else
      UnseenShrinks(store, seen, seen + {id});
      var below := VisitAll(store, store.nodes[id].children, 0, depth + 1, seen + {id});
      Visit([SnapOf(store, id, index, depth)] + below.emitted, below.seen)
  }

  /** Visit `ids[k..]` in order, each with its own position as its index. */
  function VisitAll(store: Store, ids: seq<Id>, k: nat, depth: nat, seen: set<Id>): (v: Visit)
    requires k <= |ids|
    ensures seen <= v.seen
    decreases |Unseen(store, seen)|, 1, |ids| - k
  {
    if k == |ids| then Visit([], seen)
    else
      var first := VisitOne(store, ids[k], k, depth, seen);
      UnseenShrinks(store, seen, first.seen);
      var rest := VisitAll(store, ids, k + 1, depth, first.seen);
      Visit(first.emitted + rest.emitted, rest.seen)
  }

  /** The nodes of `makeTreeSnapshot`. */
  function Snapshot(store: Store): seq<Snap> {
    VisitAll(store, store.roots, 0, 1, {}).emitted
  }

  // ---- The walk as the source runs it ----

  class SnapshotBuilder {
    const store: Store
    var nodes: seq<Snap>
    var seen: set<Id>

    constructor (store: Store)
      ensures this.store == store && nodes == [] && seen == {}
    {
      this.store, nodes, seen := store, [], {};
    }

    /** `appendNode` */
    method AppendNode(id: Id, index: nat, depth: nat)
      modifies this
      ensures var v := VisitOne(store, id, index, depth, old(seen));
              nodes == old(nodes) + v.emitted && seen == v.seen
      decreases |Unseen(store, seen)|, 0
    {
      if id in seen { return; }
      ghost var before := seen;
      seen := seen + {id};
      if id !in store.nodes { return; }
      UnseenShrinks(store, before, seen);
      nodes := nodes + [SnapOf(store, id, index, depth)];
      AppendAll(store.nodes[id].children, depth + 1);
    }

    /** The loop over children, and over roots. */
    method AppendAll(ids: seq<Id>, depth: nat)
      modifies this
      ensures var v := VisitAll(store, ids, 0, depth, old(seen));
              nodes == old(nodes) + v.emitted && seen == v.seen
      decreases |Unseen(store, seen)|, 1
    {
      ghost var whole := VisitAll(store, ids, 0, depth, seen);
      for k := 0 to |ids|
        invariant old(seen) <= seen
        invariant var rest := VisitAll(store, ids, k, depth, seen);
                  whole.seen == rest.seen && old(nodes) + whole.emitted == nodes + rest.emitted
      {
        UnseenShrinks(store, old(seen), seen);
        AppendNode(ids[k], k, depth);
      }
    }

    /** `makeTreeSnapshot` */
    method MakeTreeSnapshot()
      requires nodes == [] && seen == {}
      modifies this
      ensures nodes == Snapshot(store)
    {
      AppendAll(store.roots, 1);
    }
  }
}
