/** What every tree snapshot is, whatever the store, and what it is on a forest. */
module SnapshotTheorems {
  import opened TreeSnapshot

  // ---- Reachability ----

  predicate IsChildOf(store: Store, parent: Id, child: Id) {
    parent in store.nodes && child in store.nodes[parent].children
  }

  /** A chain of child links, every node but the last being present by definition. */
  predicate IsChain(store: Store, path: seq<Id>) {
    path != [] && forall i :: 0 <= i < |path| - 1 ==> IsChildOf(store, path[i], path[i + 1])
  }

  ghost predicate Reaches(store: Store, a: Id, b: Id) {
    exists path :: IsChain(store, path) && path[0] == a && path[|path| - 1] == b
  }

  ghost predicate Reachable(store: Store, id: Id) {
    exists r :: r in store.roots && Reaches(store, r, id)
  }

  lemma ReachesSelf(store: Store, a: Id)
    ensures Reaches(store, a, a)
  {
    assert IsChain(store, [a]);
  }

  lemma ReachesThroughChild(store: Store, a: Id, b: Id, c: Id)
    requires IsChildOf(store, a, b) && Reaches(store, b, c)
    ensures Reaches(store, a, c)
  {
    var path :| IsChain(store, path) && path[0] == b && path[|path| - 1] == c;
    var longer := [a] + path;
    forall i | 0 <= i < |longer| - 1 ensures IsChildOf(store, longer[i], longer[i + 1]) {
      if i > 0 { assert IsChildOf(store, path[i - 1], path[i]); }
    }
    assert IsChain(store, longer);
  }

  /** A set closed under children of its present members holds whatever its members reach. */
  lemma {:induction false} ClosedHoldsChain(store: Store, seen: set<Id>, path: seq<Id>)
    requires IsChain(store, path) && path[0] in seen
    requires forall x :: x in seen && x in store.nodes ==> forall c :: c in store.nodes[x].children ==> c in seen
    ensures path[|path| - 1] in seen
    decreases |path|
  {
    if |path| > 1 {
      assert IsChildOf(store, path[0], path[1]);
      forall i | 0 <= i < |path[1..]| - 1 ensures IsChildOf(store, path[1..][i], path[1..][i + 1]) {
        assert IsChildOf(store, path[i + 1], path[i + 2]);
      }
      ClosedHoldsChain(store, seen, path[1..]);
    }
  }

  // ---- What one visit adds ----

  predicate Emits(emitted: seq<Snap>, id: Id) {
    exists i :: 0 <= i < |emitted| && emitted[i].id == id
  }

  lemma EmitsAppend(a: seq<Snap>, b: seq<Snap>, id: Id)
    ensures Emits(a + b, id) <==> Emits(a, id) || Emits(b, id)
  {
    if Emits(a, id) {
      var i :| 0 <= i < |a| && a[i].id == id;
      assert (a + b)[i].id == id;
    }
    if Emits(b, id) {
      var i :| 0 <= i < |b| && b[i].id == id;
      assert (a + b)[|a| + i].id == id;
    }
    if Emits(a + b, id) {
      var i :| 0 <= i < |a + b| && (a + b)[i].id == id;
      if i >= |a| { assert b[i - |a|].id == id; }
    }
  }

  predicate Distinct(emitted: seq<Snap>) {
    forall i, j :: 0 <= i < j < |emitted| ==> emitted[i].id != emitted[j].id
  }

  /** A visit emits exactly the present nodes it newly sees, each once. */
  ghost predicate Accounts(store: Store, seen: set<Id>, v: Visit) {
    && seen <= v.seen
    && Distinct(v.emitted)
    && forall id :: Emits(v.emitted, id) <==> id in store.nodes && id in v.seen && id !in seen
  }

  /** Every present node newly seen has had all its children seen. */
  ghost predicate ClosesOver(store: Store, seen: set<Id>, v: Visit) {
    forall x :: x in store.nodes && x in v.seen && x !in seen ==>
      forall c :: c in store.nodes[x].children ==> c in v.seen
  }

  lemma AccountsSeq(store: Store, seen: set<Id>, a: Visit, b: Visit)
    requires Accounts(store, seen, a) && Accounts(store, a.seen, b)
    ensures Accounts(store, seen, Visit(a.emitted + b.emitted, b.seen))
  {
    var e := a.emitted + b.emitted;
    forall id ensures Emits(e, id) <==> id in store.nodes && id in b.seen && id !in seen {
      EmitsAppend(a.emitted, b.emitted, id);
    }
    forall i, j | 0 <= i < j < |e| ensures e[i].id != e[j].id {
      if i < |a.emitted| <= j {
        assert a.emitted[i].id == e[i].id && b.emitted[j - |a.emitted|].id == e[j].id;
        assert Emits(a.emitted, e[i].id) && Emits(b.emitted, e[j].id);
      }
    }
  }

  lemma ClosesSeq(store: Store, seen: set<Id>, a: Visit, b: Visit)
    requires ClosesOver(store, seen, a) && ClosesOver(store, a.seen, b) && a.seen <= b.seen
    ensures ClosesOver(store, seen, Visit(a.emitted + b.emitted, b.seen))
  {
    forall x | x in store.nodes && x in b.seen && x !in seen
      ensures forall c :: c in store.nodes[x].children ==> c in b.seen
    {
      if x in a.seen { assert forall c :: c in store.nodes[x].children ==> c in a.seen; }
    }
  }

  lemma NothingAccounts(store: Store, seen: set<Id>, v: Visit)
    requires v.emitted == [] && seen <= v.seen
    requires forall id :: id in v.seen && id !in seen ==> id !in store.nodes
    ensures Accounts(store, seen, v) && ClosesOver(store, seen, v)
  {}

  lemma {:induction false} VisitOneAccounts(store: Store, id: Id, index: nat, depth: nat, seen: set<Id>)
    ensures var v := VisitOne(store, id, index, depth, seen);
            Accounts(store, seen, v) && ClosesOver(store, seen, v) && id in v.seen
    decreases |Unseen(store, seen)|, 0, 0
  {
    var v := VisitOne(store, id, index, depth, seen);
    if id in seen || id !in store.nodes {
      NothingAccounts(store, seen, v);
    } else {
      UnseenShrinks(store, seen, seen + {id});
      VisitAllAccounts(store, store.nodes[id].children, 0, depth + 1, seen + {id});
      var head := Visit([SnapOf(store, id, index, depth)], seen + {id});
      assert head.emitted[0].id == id;
      assert Accounts(store, seen, head);
      AccountsSeq(store, seen, head, VisitAll(store, store.nodes[id].children, 0, depth + 1, seen + {id}));
    }
  }

  ghost predicate SeesFrom(ids: seq<Id>, k: nat, seen: set<Id>) {
    forall i :: k <= i < |ids| ==> ids[i] in seen
  }

  lemma {:induction false} VisitAllAccounts(store: Store, ids: seq<Id>, k: nat, depth: nat, seen: set<Id>)
    requires k <= |ids|
    ensures var v := VisitAll(store, ids, k, depth, seen);
            Accounts(store, seen, v) && ClosesOver(store, seen, v) && SeesFrom(ids, k, v.seen)
    decreases |Unseen(store, seen)|, 1, |ids| - k
  {
    var v := VisitAll(store, ids, k, depth, seen);
    if k == |ids| {
      NothingAccounts(store, seen, v);
    } else {
      var first := VisitOne(store, ids[k], k, depth, seen);
      var rest := VisitAll(store, ids, k + 1, depth, first.seen);
      VisitOneAccounts(store, ids[k], k, depth, seen);
      UnseenShrinks(store, seen, first.seen);
      VisitAllAccounts(store, ids, k + 1, depth, first.seen);
      assert v == Visit(first.emitted + rest.emitted, rest.seen);
      VisitsInTurn(store, ids, k, seen, first, rest);
    }
  }

  lemma VisitsInTurn(store: Store, ids: seq<Id>, k: nat, seen: set<Id>, a: Visit, b: Visit)
    requires k < |ids| && ids[k] in a.seen
    requires Accounts(store, seen, a) && ClosesOver(store, seen, a)
    requires Accounts(store, a.seen, b) && ClosesOver(store, a.seen, b) && SeesFrom(ids, k + 1, b.seen)
    ensures var v := Visit(a.emitted + b.emitted, b.seen);
            Accounts(store, seen, v) && ClosesOver(store, seen, v) && SeesFrom(ids, k, v.seen)
  {
    AccountsSeq(store, seen, a, b);
    ClosesSeq(store, seen, a, b);
  }

  // ---- How each node was found ----

  /** The snapshot at `i` records its position: among `ids` at depth `depth`, or among the
      children of a snapshot emitted before it. */
  ghost predicate Placed(ids: seq<Id>, depth: nat, emitted: seq<Snap>, i: int)
    requires 0 <= i < |emitted|
  {
    var s := emitted[i];
    || (s.depth == depth && s.index < |ids| && ids[s.index] == s.id)
    || exists j :: 0 <= j < i && IsSlotOf(emitted[j], s)
  }

  predicate IsSlotOf(p: Snap, s: Snap) {
    s.depth == p.depth + 1 && s.index < |p.children| && p.children[s.index] == s.id
  }

  predicate Copies(n: StoreNode, s: Snap) {
    s.parent == n.parent && s.children == n.children && s.role == n.role && s.name == n.name
  }

  /** Each snapshot copies its node, is reachable from `ids` and records its position. */
  ghost predicate Records(store: Store, ids: seq<Id>, depth: nat, emitted: seq<Snap>) {
    forall i :: 0 <= i < |emitted| ==> RecordsAt(store, ids, depth, emitted, i)
  }

  ghost predicate RecordsAt(store: Store, ids: seq<Id>, depth: nat, emitted: seq<Snap>, i: int)
    requires 0 <= i < |emitted|
  {
    && emitted[i].id in store.nodes
    && Copies(store.nodes[emitted[i].id], emitted[i])
    && (exists a :: a in ids && Reaches(store, a, emitted[i].id))
    && Placed(ids, depth, emitted, i)
  }

  lemma RecordsSeq(store: Store, ids: seq<Id>, depth: nat, a: seq<Snap>, b: seq<Snap>)
    requires Records(store, ids, depth, a) && Records(store, ids, depth, b)
    ensures Records(store, ids, depth, a + b)
  {
    forall i | 0 <= i < |a + b| ensures RecordsAt(store, ids, depth, a + b, i) {
      if i < |a| {
        assert RecordsAt(store, ids, depth, a, i);
        if j :| 0 <= j < i && IsSlotOf(a[j], a[i]) { assert IsSlotOf((a + b)[j], (a + b)[i]); }
      } else {
        assert RecordsAt(store, ids, depth, b, i - |a|);
        if j :| 0 <= j < i - |a| && IsSlotOf(b[j], b[i - |a|]) {
          assert IsSlotOf((a + b)[j + |a|], (a + b)[i]);
        }
      }
    }
  }

  /** Below a node: positions among its children become positions under its snapshot. */
  lemma RecordsBelow(store: Store, ids: seq<Id>, k: nat, depth: nat, below: seq<Snap>)
    requires k < |ids| && ids[k] in store.nodes
    requires Records(store, store.nodes[ids[k]].children, depth + 1, below)
    ensures Records(store, ids, depth, [SnapOf(store, ids[k], k, depth)] + below)
  {
    var id := ids[k];
    var kids := store.nodes[id].children;
    var head := SnapOf(store, id, k, depth);
    var all := [head] + below;
    forall i | 0 <= i < |all| ensures RecordsAt(store, ids, depth, all, i) {
      if i == 0 {
        ReachesSelf(store, id);
      } else {
        var s := below[i - 1];
        assert RecordsAt(store, kids, depth + 1, below, i - 1);
        var a :| a in kids && Reaches(store, a, s.id);
        ReachesThroughChild(store, id, a, s.id);
        if j :| 0 <= j < i - 1 && IsSlotOf(below[j], s) {
          assert IsSlotOf(all[j + 1], all[i]);
        } else {
          assert IsSlotOf(all[0], all[i]);
        }
      }
    }
  }

  lemma {:induction false} VisitOneRecords(store: Store, ids: seq<Id>, k: nat, depth: nat, seen: set<Id>)
    requires k < |ids|
    ensures Records(store, ids, depth, VisitOne(store, ids[k], k, depth, seen).emitted)
    decreases |Unseen(store, seen)|, 0, 0
  {
    var id := ids[k];
    if id !in seen && id in store.nodes {
      UnseenShrinks(store, seen, seen + {id});
      var kids := store.nodes[id].children;
      VisitAllRecords(store, kids, 0, depth + 1, seen + {id});
      RecordsBelow(store, ids, k, depth, VisitAll(store, kids, 0, depth + 1, seen + {id}).emitted);
    }
  }

  lemma {:induction false} VisitAllRecords(store: Store, ids: seq<Id>, k: nat, depth: nat, seen: set<Id>)
    requires k <= |ids|
    ensures Records(store, ids, depth, VisitAll(store, ids, k, depth, seen).emitted)
    decreases |Unseen(store, seen)|, 1, |ids| - k
  {
    if k < |ids| {
      var first := VisitOne(store, ids[k], k, depth, seen);
      VisitOneRecords(store, ids, k, depth, seen);
      UnseenShrinks(store, seen, first.seen);
      VisitAllRecords(store, ids, k + 1, depth, first.seen);
      RecordsSeq(store, ids, depth, first.emitted, VisitAll(store, ids, k + 1, depth, first.seen).emitted);
    }
  }

  // ---- Every store ----

  /** On every finite store, the snapshot holds exactly the present nodes reachable from the
      roots, each once; each copies its node and records the position it was found at, under
      a snapshot that comes before it. */
  lemma SnapshotIsExact(store: Store)
    ensures forall id :: Emits(Snapshot(store), id) <==> id in store.nodes && Reachable(store, id)
    ensures Distinct(Snapshot(store))
    ensures Records(store, store.roots, 1, Snapshot(store))
  {
    var v := VisitAll(store, store.roots, 0, 1, {});
    VisitAllAccounts(store, store.roots, 0, 1, {});
    VisitAllRecords(store, store.roots, 0, 1, {});
    forall id | id in store.nodes && Reachable(store, id) ensures Emits(v.emitted, id) {
      var r :| r in store.roots && Reaches(store, r, id);
      var i :| 0 <= i < |store.roots| && store.roots[i] == r;
      assert store.roots[i] in v.seen;
      var path :| IsChain(store, path) && path[0] == r && path[|path| - 1] == id;
      ClosedHoldsChain(store, v.seen, path);
    }
    forall id | Emits(v.emitted, id) ensures Reachable(store, id) {
      var i :| 0 <= i < |v.emitted| && v.emitted[i].id == id;
      assert RecordsAt(store, store.roots, 1, v.emitted, i);
    }
  }

  // ---- Parent links ----

  /** Parent links agree with children lists, and roots have no parent. */
  ghost predicate ParentsAgree(store: Store) {
    && (forall x, c :: IsChildOf(store, x, c) && c in store.nodes ==> store.nodes[c].parent == Some(x))
    && (forall r :: r in store.roots && r in store.nodes ==> store.nodes[r].parent == None)
  }

  /** `chain` lists the ancestors of `id`, parent first, up to a node without a parent. */
  predicate IsAncestry(store: Store, id: Id, chain: seq<Id>)
    decreases |chain|
  {
    && id in store.nodes
    && if chain == [] then store.nodes[id].parent == None
       else store.nodes[id].parent == Some(chain[0]) && IsAncestry(store, chain[0], chain[1..])
  }

  /** Where parent links agree, a snapshot's depth is its number of ancestors plus one and
      its index is its place among its parent's children. */
  lemma {:induction false} DepthCountsAncestors(store: Store, i: nat) returns (chain: seq<Id>)
    requires ParentsAgree(store) && i < |Snapshot(store)|
    ensures var s := Snapshot(store)[i];
            && IsAncestry(store, s.id, chain)
            && s.depth == |chain| + 1
            && (chain == [] ==> s.index < |store.roots| && store.roots[s.index] == s.id)
            && (chain != [] ==>
                  && chain[0] in store.nodes
                  && s.index < |store.nodes[chain[0]].children|
                  && store.nodes[chain[0]].children[s.index] == s.id)
    decreases i
  {
    var nodes := Snapshot(store);
    VisitAllRecords(store, store.roots, 0, 1, {});
    assert RecordsAt(store, store.roots, 1, nodes, i);
    var s := nodes[i];
    if s.depth == 1 && s.index < |store.roots| && store.roots[s.index] == s.id {
      chain := [];
    } else {
      var j :| 0 <= j < i && IsSlotOf(nodes[j], s);
      assert RecordsAt(store, store.roots, 1, nodes, j);
      var above := DepthCountsAncestors(store, j);
      chain := [nodes[j].id] + above;
      assert chain[1..] == above;
      assert IsChildOf(store, nodes[j].id, s.id);
    }
  }

  // ---- Forests ----

  /** An ordered tree of identifiers. */
  datatype Tree = Branch(id: Id, kids: seq<Tree>)

  /** The store holds `t` below its root: each node present, its children in order. */
  predicate Holds(store: Store, t: Tree)
    decreases t, 1
  {
    t.id in store.nodes && HoldsAll(store, t.kids, store.nodes[t.id].children)
  }

  predicate HoldsAll(store: Store, ts: seq<Tree>, ids: seq<Id>)
    decreases ts, 0
  {
    && |ts| == |ids|
    && (ts != [] ==> ts[0].id == ids[0] && Holds(store, ts[0]) && HoldsAll(store, ts[1..], ids[1..]))
  }

  /** The identifiers of a tree in pre-order. */
  function Ids(t: Tree): seq<Id>
    decreases t, 1
  {
    [t.id] + AllIds(t.kids)
  }

  function AllIds(ts: seq<Tree>): seq<Id>
    decreases ts, 0
  {
    if ts == [] then [] else Ids(ts[0]) + AllIds(ts[1..])
  }

  /** Reference pre-order listing of a tree found at `index` and `depth`. */
  function PreOrder(store: Store, t: Tree, index: nat, depth: nat): seq<Snap>
    requires Holds(store, t)
    decreases t, 1
  {
    [SnapOf(store, t.id, index, depth)] + PreOrderAll(store, t.kids, store.nodes[t.id].children, 0, depth + 1)
  }

  function PreOrderAll(store: Store, ts: seq<Tree>, ids: seq<Id>, index: nat, depth: nat): seq<Snap>
    requires HoldsAll(store, ts, ids)
    decreases ts, 0
  {
    if ts == [] then []
    else PreOrder(store, ts[0], index, depth) + PreOrderAll(store, ts[1..], ids[1..], index + 1, depth)
  }

  function Elements(s: seq<Id>): set<Id> { set x | x in s }

  ghost predicate Fresh(ids: seq<Id>, seen: set<Id>) {
    && (forall i :: 0 <= i < |ids| ==> ids[i] !in seen)
    && (forall i, j :: 0 <= i < j < |ids| ==> ids[i] != ids[j])
  }

  lemma FreshSplit(a: seq<Id>, b: seq<Id>, seen: set<Id>)
    requires Fresh(a + b, seen)
    ensures Fresh(a, seen) && Fresh(b, seen + Elements(a))
    ensures Elements(a + b) == Elements(a) + Elements(b)
  {
    var c := a + b;
    forall i | 0 <= i < |a| ensures a[i] !in seen { assert c[i] == a[i]; }
    forall i, j | 0 <= i < j < |a| ensures a[i] != a[j] { assert c[i] == a[i] && c[j] == a[j]; }
    forall i | 0 <= i < |b| ensures b[i] !in seen + Elements(a) {
      assert c[|a| + i] == b[i];
      assert forall j :: 0 <= j < |a| ==> c[j] == a[j];
    }
    forall i, j | 0 <= i < j < |b| ensures b[i] != b[j] { assert c[|a| + i] == b[i] && c[|a| + j] == b[j]; }
  }

  /** On a forest - no identifier twice, none seen before - the seen-set never cuts the walk
      short, and the walk is the pre-order listing. */
  lemma {:induction false} VisitOneIsPreOrder(store: Store, t: Tree, index: nat, depth: nat, seen: set<Id>)
    requires Holds(store, t) && Fresh(Ids(t), seen)
    ensures VisitOne(store, t.id, index, depth, seen) ==
              Visit(PreOrder(store, t, index, depth), seen + Elements(Ids(t)))
    decreases t, 1
  {
    assert Ids(t)[0] == t.id;
    FreshSplit([t.id], AllIds(t.kids), seen);
    assert Elements([t.id]) == {t.id};
    VisitAllIsPreOrder(store, t.kids, store.nodes[t.id].children, 0, depth + 1, seen + {t.id});
    assert seen + {t.id} + Elements(AllIds(t.kids)) == seen + Elements(Ids(t));
  }

  lemma {:induction false} VisitAllIsPreOrder(store: Store, ts: seq<Tree>, ids: seq<Id>, k: nat, depth: nat, seen: set<Id>)
    requires k <= |ids| && HoldsAll(store, ts, ids[k..]) && Fresh(AllIds(ts), seen)
    ensures VisitAll(store, ids, k, depth, seen) ==
              Visit(PreOrderAll(store, ts, ids[k..], k, depth), seen + Elements(AllIds(ts)))
    decreases ts, 0
  {
    if ts == [] {
      assert seen + Elements(AllIds(ts)) == seen;
    } else {
      FreshSplit(Ids(ts[0]), AllIds(ts[1..]), seen);
      VisitOneIsPreOrder(store, ts[0], k, depth, seen);
      assert ids[k..][1..] == ids[k + 1..];
      VisitAllIsPreOrder(store, ts[1..], ids, k + 1, depth, seen + Elements(Ids(ts[0])));
      assert seen + Elements(Ids(ts[0])) + Elements(AllIds(ts[1..])) == seen + Elements(AllIds(ts));
    }
  }

  lemma SnapshotIsPreOrder(store: Store, forest: seq<Tree>)
    requires HoldsAll(store, forest, store.roots) && Fresh(AllIds(forest), {})
    ensures Snapshot(store) == PreOrderAll(store, forest, store.roots, 0, 1)
  {
    assert store.roots[0..] == store.roots;
    VisitAllIsPreOrder(store, forest, store.roots, 0, 1, {});
  }

  // ---- The index ----

  /** `SemanticTreeSnapshot.init`: the lookup dictionary, a later entry replacing an earlier. */
  method BuildIndex(nodes: seq<Snap>) returns (lookup: map<Id, nat>)
    ensures forall id :: id in lookup <==> Emits(nodes, id)
    ensures forall id :: id in lookup ==>
              && lookup[id] < |nodes| && nodes[lookup[id]].id == id
              && forall j :: lookup[id] < j < |nodes| ==> nodes[j].id != id
  {
    lookup := map[];
    for k := 0 to |nodes|
      invariant forall id :: id in lookup <==> Emits(nodes[..k], id)
      invariant forall id :: id in lookup ==>
        && lookup[id] < k && nodes[lookup[id]].id == id
        && forall j :: lookup[id] < j < k ==> nodes[j].id != id
    {
      assert nodes[..k + 1] == nodes[..k] + [nodes[k]];
      forall id ensures Emits(nodes[..k + 1], id) <==> Emits(nodes[..k], id) || nodes[k].id == id {
        EmitsAppend(nodes[..k], [nodes[k]], id);
        assert [nodes[k]][0].id == nodes[k].id;
      }
      lookup := lookup[nodes[k].id := k];
    }
    assert nodes[..|nodes|] == nodes;
  }

  /** Linear search in snapshot order. */
  function FindId(nodes: seq<Snap>, id: Id): Option<Snap> {
    if nodes == [] then None
    else if nodes[0].id == id then Some(nodes[0])
    else FindId(nodes[1..], id)
  }

  lemma {:induction false} FindIdFinds(nodes: seq<Snap>, id: Id)
    ensures FindId(nodes, id).None? <==> !Emits(nodes, id)
    ensures FindId(nodes, id).Some? ==> exists i :: 0 <= i < |nodes| && nodes[i] == FindId(nodes, id).value && nodes[i].id == id
    decreases |nodes|
  {
    if nodes != [] {
      FindIdFinds(nodes[1..], id);
      EmitsAppend([nodes[0]], nodes[1..], id);
      assert nodes == [nodes[0]] + nodes[1..];
      if nodes[0].id == id { assert [nodes[0]][0].id == id; }
    }
  }

  /** `node(_:)` on the snapshot of any store agrees with linear search. */
  method LookUp(store: Store, id: Id) returns (found: Option<Snap>)
    ensures found == FindId(Snapshot(store), id)
    ensures found.Some? <==> id in store.nodes && Reachable(store, id)
  {
    var nodes := Snapshot(store);
    var lookup := BuildIndex(nodes);
    SnapshotIsExact(store);
    FindIdFinds(nodes, id);
    if id !in lookup { return None; }
    return Some(nodes[lookup[id]]);
  }

  // ---- Queries ----

  /** What `find` and `findAll` ask of a node; an absent argument asks nothing. */
  predicate Matches(role: int, name: Option<string>, wantedRole: Option<int>, wantedName: Option<string>) {
    && (wantedRole.None? || role == wantedRole.value)
    && (wantedName.None? || name == wantedName)
  }

  function Wanted(role: Option<int>, name: Option<string>): Snap -> bool {
    (s: Snap) => Matches(s.role, s.name, role, name)
  }

  /** `findAll`: the nodes from position `k` on that are wanted. */
  function FindAll(nodes: seq<Snap>, k: nat, wanted: Snap -> bool): seq<Snap>
    requires k <= |nodes|
    decreases |nodes| - k
  {
    if k == |nodes| then []
    else (if wanted(nodes[k]) then [nodes[k]] else []) + FindAll(nodes, k + 1, wanted)
  }

  /** `find`: the first of them. */
  function Find(nodes: seq<Snap>, k: nat, wanted: Snap -> bool): Option<Snap>
    requires k <= |nodes|
    decreases |nodes| - k
  {
    if k == |nodes| then None
    else if wanted(nodes[k]) then Some(nodes[k])
    else Find(nodes, k + 1, wanted)
  }

  /** `found` is read off `nodes` at the positions `at`, which ascend from `k` on. */
  ghost predicate ReadsOff(nodes: seq<Snap>, k: nat, found: seq<Snap>, at: seq<nat>) {
    && |at| == |found|
    && (forall j :: 0 <= j < |at| ==> k <= at[j] < |nodes| && found[j] == nodes[at[j]])
    && (forall j, j' :: 0 <= j < j' < |at| ==> at[j] < at[j'])
  }

  lemma {:induction false} FindAllReadsOff(nodes: seq<Snap>, k: nat, wanted: Snap -> bool) returns (at: seq<nat>)
    requires k <= |nodes|
    ensures ReadsOff(nodes, k, FindAll(nodes, k, wanted), at)
    decreases |nodes| - k
  {
    at := [];
    if k < |nodes| {
      var rest := FindAllReadsOff(nodes, k + 1, wanted);
      var found := FindAll(nodes, k + 1, wanted);
      if wanted(nodes[k]) {
        at := [k] + rest;
        ReadsOffMore(nodes, k, found, rest);
        assert FindAll(nodes, k, wanted) == [nodes[k]] + found;
      } else {
        at := rest;
        assert FindAll(nodes, k, wanted) == found;
      }
    }
  }

  lemma ReadsOffMore(nodes: seq<Snap>, k: nat, found: seq<Snap>, at: seq<nat>)
    requires k < |nodes| && ReadsOff(nodes, k + 1, found, at)
    ensures ReadsOff(nodes, k, [nodes[k]] + found, [k] + at)
  {
    var more, all := [k] + at, [nodes[k]] + found;
    forall j | 0 < j < |more| ensures more[j] == at[j - 1] && all[j] == found[j - 1] {}
    assert more[0] == k && all[0] == nodes[k];
  }

  lemma {:induction false} FindAllIsExact(nodes: seq<Snap>, k: nat, wanted: Snap -> bool, s: Snap)
    requires k <= |nodes|
    ensures s in FindAll(nodes, k, wanted) <==> wanted(s) && s in nodes[k..]
    decreases |nodes| - k
  {
    if k < |nodes| {
      FindAllIsExact(nodes, k + 1, wanted, s);
      assert nodes[k..] == [nodes[k]] + nodes[k + 1..];
    }
  }

  lemma {:induction false} FindIsFirst(nodes: seq<Snap>, k: nat, wanted: Snap -> bool)
    requires k <= |nodes|
    ensures var found := FindAll(nodes, k, wanted);
            Find(nodes, k, wanted) == if found == [] then None else Some(found[0])
    decreases |nodes| - k
  {
    if k < |nodes| { FindIsFirst(nodes, k + 1, wanted); }
  }

  lemma SnapOfId(store: Store, id: Id) returns (s: Snap)
    requires id in store.nodes && Reachable(store, id)
    ensures s in Snapshot(store) && s.id == id
  {
    SnapshotIsExact(store);
    var i :| 0 <= i < |Snapshot(store)| && Snapshot(store)[i].id == id;
    s := Snapshot(store)[i];
  }

  /** A snapshot entry copies the role and name of its node, which is present and reachable. */
  lemma SnapCopies(store: Store, s: Snap)
    requires s in Snapshot(store)
    ensures s.id in store.nodes && Reachable(store, s.id)
    ensures s.role == store.nodes[s.id].role && s.name == store.nodes[s.id].name
  {
    SnapshotIsExact(store);
    var i :| 0 <= i < |Snapshot(store)| && Snapshot(store)[i] == s;
    assert RecordsAt(store, store.roots, 1, Snapshot(store), i);
  }

  /** On every store `findAll` returns exactly the matching nodes that are reachable, in
      snapshot order and so each once, and `find` returns the first of them. */
  lemma QueriesAreExact(store: Store, role: Option<int>, name: Option<string>) returns (at: seq<nat>)
    ensures ReadsOff(Snapshot(store), 0, FindAll(Snapshot(store), 0, Wanted(role, name)), at)
    ensures forall id :: Emits(FindAll(Snapshot(store), 0, Wanted(role, name)), id) <==>
              && id in store.nodes && Reachable(store, id)
              && (role.Some? ==> store.nodes[id].role == role.value)
              && (name.Some? ==> store.nodes[id].name == name)
    ensures var found := FindAll(Snapshot(store), 0, Wanted(role, name));
            Find(Snapshot(store), 0, Wanted(role, name)) == if found == [] then None else Some(found[0])
  {
    var nodes, wanted := Snapshot(store), Wanted(role, name);
    var found := FindAll(nodes, 0, wanted);
    at := FindAllReadsOff(nodes, 0, wanted);
    FindIsFirst(nodes, 0, wanted);
    assert nodes[0..] == nodes;
    forall id | Emits(found, id)
      ensures id in store.nodes && Reachable(store, id)
              && Matches(store.nodes[id].role, store.nodes[id].name, role, name)
    {
      var k :| 0 <= k < |found| && found[k].id == id;
      FindAllIsExact(nodes, 0, wanted, found[k]);
      SnapCopies(store, found[k]);
    }
    forall id | id in store.nodes && Reachable(store, id)
                && Matches(store.nodes[id].role, store.nodes[id].name, role, name)
      ensures Emits(found, id)
    {
      var s := SnapOfId(store, id);
      SnapCopies(store, s);
      FindAllIsExact(nodes, 0, wanted, s);
      var k :| 0 <= k < |found| && found[k] == s;
      assert found[k].id == id;
    }
  }
}
