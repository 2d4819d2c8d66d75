/** What the pre-push hook reads from the process table: the tree a check is responsible
    for, and which of its groups and sessions still have live members. */
module ProcessTable {

  type Pid = int

  datatype Option<+T> = None | Some(value: T)

  /** The kernel's answer to `getsid`. */
  datatype SidAnswer = Sid(sid: Pid) | Exited | Refused

  /** One line of a process listing, with what `getsid` says of that pid. */
  datatype Row = Row(pid: Pid, ppid: Pid, pgid: Pid, zombie: bool, session: SidAnswer)

  // ---- The descendants of a process ----

  predicate IsChild(rows: seq<Row>, parent: Pid, child: Pid) {
    exists r :: r in rows && r.ppid == parent && r.pid == child
  }

  predicate IsLineage(rows: seq<Row>, path: seq<Pid>) {
    forall i :: 0 <= i < |path| - 1 ==> IsChild(rows, path[i], path[i + 1])
  }

  /** A chain of one or more parent links leads from `ancestor` to `pid`. */
  ghost predicate Descends(rows: seq<Row>, ancestor: Pid, pid: Pid) {
    exists path :: |path| >= 2 && path[0] == ancestor && path[|path| - 1] == pid && IsLineage(rows, path)
  }

  lemma DescendsDirectly(rows: seq<Row>, a: Pid, b: Pid)
    requires IsChild(rows, a, b)
    ensures Descends(rows, a, b)
  {
    assert IsLineage(rows, [a, b]);
  }

  lemma DescendsFurther(rows: seq<Row>, a: Pid, b: Pid, c: Pid)
    requires Descends(rows, a, b) && IsChild(rows, b, c)
    ensures Descends(rows, a, c)
  {
    var path :| |path| >= 2 && path[0] == a && path[|path| - 1] == b && IsLineage(rows, path);
    var longer := path + [c];
    forall i | 0 <= i < |longer| - 1 ensures IsChild(rows, longer[i], longer[i + 1]) {
      if i < |path| - 1 { assert IsChild(rows, path[i], path[i + 1]); }
    }
    assert IsLineage(rows, longer);
  }

  /** Every set that holds the children of `root` and of its own members holds every
      descendant of `root`. */
  lemma {:induction false} ClosedHoldsLineage(rows: seq<Row>, root: Pid, tree: set<Pid>, path: seq<Pid>)
    requires |path| >= 2 && path[0] == root && IsLineage(rows, path)
    requires forall a, b :: (a == root || a in tree) && IsChild(rows, a, b) ==> b in tree
    ensures path[|path| - 1] in tree
    decreases |path|
  {
    var n := |path| - 1;
    assert IsChild(rows, path[n - 1], path[n]);
    if n > 1 {
      ClosedHoldsLineage(rows, root, tree, path[..n]);
    }
  }

  // ---- `check_process_tree` ----

  /** The listing places `p` in group `g`: its last line for `p` says so. */
  ghost predicate PlacedIn(rows: seq<Row>, p: Pid, g: Pid) {
    exists k :: 0 <= k < |rows| && rows[k].pid == p && rows[k].pgid == g && NotAfter(rows, k, p)
  }

  predicate NotAfter(rows: seq<Row>, k: int, p: Pid)
    requires 0 <= k < |rows|
  {
    forall j :: k < j < |rows| ==> rows[j].pid != p
  }

  ghost predicate IsGroupOf(rows: seq<Row>, groupOf: map<Pid, Pid>) {
    && (forall r :: r in rows ==> r.pid in groupOf)
    && (forall p :: p in groupOf ==> PlacedIn(rows, p, groupOf[p]))
  }

  lemma GroupOfGrows(rows: seq<Row>, r: Row, groupOf: map<Pid, Pid>)
    requires IsGroupOf(rows, groupOf)
    ensures IsGroupOf(rows + [r], groupOf[r.pid := r.pgid])
  {
    var more, updated := rows + [r], groupOf[r.pid := r.pgid];
    forall p | p in updated ensures PlacedIn(more, p, updated[p]) {
      if p == r.pid {
        assert more[|rows|].pid == p && NotAfter(more, |rows|, p);
      } else {
        var k :| 0 <= k < |rows| && rows[k].pid == p && rows[k].pgid == groupOf[p] && NotAfter(rows, k, p);
        assert more[k].pid == p && NotAfter(more, k, p);
      }
    }
  }

  lemma ListedIsMapped(rows: seq<Row>, groupOf: map<Pid, Pid>, p: Pid)
    requires IsGroupOf(rows, groupOf)
    ensures p in groupOf <==> exists r :: r in rows && r.pid == p
  {
    if p in groupOf {
      assert PlacedIn(rows, p, groupOf[p]);
      var k :| 0 <= k < |rows| && rows[k].pid == p;
      assert rows[k] in rows;
    }
  }

  /** Only one group, and only if the pid is listed. */
  lemma PlacedIsListed(rows: seq<Row>, groupOf: map<Pid, Pid>, p: Pid, g: Pid)
    requires IsGroupOf(rows, groupOf)
    ensures PlacedIn(rows, p, g) <==> p in groupOf && groupOf[p] == g
  {
    if PlacedIn(rows, p, g) {
      var k :| 0 <= k < |rows| && rows[k].pid == p && rows[k].pgid == g && NotAfter(rows, k, p);
      assert rows[k] in rows;
      var j :| 0 <= j < |rows| && rows[j].pid == p && rows[j].pgid == groupOf[p] && NotAfter(rows, j, p);
      assert j == k;
    }
  }

  datatype Tree = Tree(pids: set<Pid>, groups: set<Pid>)

  /** The check's own processes: its descendants, and its root while it is listed. */
  ghost predicate OfCheck(rows: seq<Row>, root: Pid, p: Pid) {
    Descends(rows, root, p) || (p == root && exists r :: r in rows && r.pid == root)
  }

  /** The listing indexed: children by parent and group by pid. */
  method IndexListing(rows: seq<Row>) returns (children: map<Pid, seq<Pid>>, groupOf: map<Pid, Pid>)
    ensures IsGroupOf(rows, groupOf)
    ensures forall a, b :: IsChild(rows, a, b) <==> a in children && b in children[a]
  {
    children, groupOf := map[], map[];
    for k := 0 to |rows|
      invariant IsGroupOf(rows[..k], groupOf)
      invariant forall a, b :: IsChild(rows[..k], a, b) <==> a in children && b in children[a]
    {
      var r := rows[k];
      assert rows[..k + 1] == rows[..k] + [r];
      ghost var earlier := children;
      var siblings := if r.ppid in children then children[r.ppid] else [];
      children := children[r.ppid := siblings + [r.pid]];
      GroupOfGrows(rows[..k], r, groupOf);
      groupOf := groupOf[r.pid := r.pgid];
      forall a, b
        ensures IsChild(rows[..k] + [r], a, b) <==> a in children && b in children[a]
      {
        ChildAppend(rows[..k], r, a, b);
        assert a in earlier && b in earlier[a] <==> IsChild(rows[..k], a, b);
      }
    }
    assert rows[..|rows|] == rows;
  }

  lemma ChildAppend(rows: seq<Row>, r: Row, a: Pid, b: Pid)
    ensures IsChild(rows + [r], a, b) <==> IsChild(rows, a, b) || (r.ppid == a && r.pid == b)
  {
    assert r in rows + [r];
    assert forall x :: x in rows ==> x in rows + [r];
  }

  /** The walk over the children index, from `root`. It ends on any parent relation,
      cyclic ones included. */
  method Walk(rows: seq<Row>, children: map<Pid, seq<Pid>>, root: Pid) returns (tree: set<Pid>)
    requires forall a, b :: IsChild(rows, a, b) <==> a in children && b in children[a]
    ensures forall p :: p in tree <==> Descends(rows, root, p)
  {
    tree := {};
    var queue := [root];
    ghost var listed := set r | r in rows :: r.pid;
    while queue != []
      invariant tree <= listed
      invariant forall p :: p in tree ==> Descends(rows, root, p)
      invariant forall p :: p in queue ==> p == root || p in tree
      invariant Settled(rows, root, tree, queue)
      decreases |listed - tree|, |queue|
    {
      var parent := queue[|queue| - 1];
      var found := if parent in children then children[parent] else [];
      var rest := queue[..|queue| - 1];
      assert queue == rest + [parent];
      ghost var before := tree;
      tree, queue := Adopt(rows, root, parent, found, tree, rest, listed);
      AdoptSettles(rows, root, parent, before, rest, tree, queue);
    }
    forall p | Descends(rows, root, p) ensures p in tree {
      var path :| |path| >= 2 && path[0] == root && path[|path| - 1] == p && IsLineage(rows, path);
      ClosedHoldsLineage(rows, root, tree, path);
    }
  }

  /** Only processes still queued may have children outside the tree. */
  ghost predicate Settled(rows: seq<Row>, root: Pid, tree: set<Pid>, queue: seq<Pid>) {
    forall a, b :: (a == root || a in tree) && a !in queue && IsChild(rows, a, b) ==> b in tree
  }

  lemma AdoptSettles(rows: seq<Row>, root: Pid, parent: Pid, before: set<Pid>, rest: seq<Pid>,
      tree: set<Pid>, queue: seq<Pid>)
    requires Settled(rows, root, before, rest + [parent]) && before <= tree
    requires forall b :: IsChild(rows, parent, b) ==> b in tree
    requires forall p :: p in queue <==> p in rest || p in tree - before
    ensures Settled(rows, root, tree, queue)
  {
    assert forall p :: p in rest + [parent] <==> p in rest || p == parent;
  }

  /** The inner loop of the walk: the children of `parent` join the tree and the queue. */
  method Adopt(rows: seq<Row>, root: Pid, parent: Pid, found: seq<Pid>, before: set<Pid>, rest: seq<Pid>,
      ghost listed: set<Pid>)
    returns (tree: set<Pid>, queue: seq<Pid>)
    requires listed == set r | r in rows :: r.pid
    requires before <= listed
    requires forall b :: b in found <==> IsChild(rows, parent, b)
    requires parent == root || Descends(rows, root, parent)
    requires forall p :: p in before ==> Descends(rows, root, p)
    ensures before <= tree <= listed
    ensures forall p :: p in tree ==> Descends(rows, root, p)
    ensures forall b :: IsChild(rows, parent, b) ==> b in tree
    ensures forall p :: p in queue <==> p in rest || p in tree - before
    ensures tree == before ==> queue == rest
    ensures tree != before ==> |listed - tree| < |listed - before|
  {
    tree, queue := before, rest;
    for k := 0 to |found|
      invariant before <= tree <= listed
      invariant forall p :: p in tree ==> Descends(rows, root, p)
      invariant forall b :: b in found[..k] ==> b in tree
      invariant forall p :: p in queue <==> p in rest || p in tree - before
      invariant tree == before ==> queue == rest
    {
      var child := found[k];
      assert IsChild(rows, parent, child);
      if child !in tree {
        if parent == root { DescendsDirectly(rows, root, child); }
        else { DescendsFurther(rows, root, parent, child); }
        tree := tree + {child};
        queue := queue + [child];
      }
    }
    if tree != before {
      assert listed - tree < listed - before;
      SmallerSet(listed - tree, listed - before);
    }
  }

  lemma SmallerSet(a: set<Pid>, b: set<Pid>)
    requires a < b
    ensures |a| < |b|
  {
    assert b == a + (b - a);
  }

  /** A group that one of the check's processes is in, less the protected ones. */
  ghost predicate TreeGroup(rows: seq<Row>, root: Pid, mine: set<Pid>, ownGroup: Pid, g: Pid) {
    && g !in {0, 1, ownGroup} + mine
    && exists p :: PlacedIn(rows, p, g) && OfCheck(rows, root, p)
  }

  /** One of the check's processes, or one sharing a group with one, less this push's. */
  ghost predicate TreePid(rows: seq<Row>, root: Pid, mine: set<Pid>, ownGroup: Pid, p: Pid) {
    && p !in mine
    && (OfCheck(rows, root, p)
        || exists g :: PlacedIn(rows, p, g) && TreeGroup(rows, root, mine, ownGroup, g))
  }

  /** `check_process_tree`, on a listing that could be read. `mine` is this hook's pid and
      its parent's, `ownGroup` this hook's group. */
  method CheckProcessTree(rows: seq<Row>, root: Pid, mine: set<Pid>, ownGroup: Pid) returns (tree: Tree)
    // exactly the groups the check's processes are in, less the protected ones
    ensures forall g :: g in tree.groups <==> TreeGroup(rows, root, mine, ownGroup, g)
    // exactly the check's processes and everything sharing a group with one, less this push
    ensures forall p :: p in tree.pids <==> TreePid(rows, root, mine, ownGroup, p)
  {
    var children, groupOf := IndexListing(rows);
    var walked := Walk(rows, children, root);
    if root in groupOf {
      walked := walked + {root};
    }
    ListedIsMapped(rows, groupOf, root);
    assert forall p :: p in walked <==> OfCheck(rows, root, p);
    forall p, g ensures PlacedIn(rows, p, g) <==> p in groupOf && groupOf[p] == g {
      PlacedIsListed(rows, groupOf, p, g);
    }
    var forbidden := {0, 1, ownGroup} + mine;
    var groups := (set p | p in walked && p in groupOf :: groupOf[p]) - forbidden;
    var members := set p | p in groupOf && groupOf[p] in groups;
    return Tree((walked + members) - mine, groups);
  }

  // ---- `live_groups` and `live_session_members` ----

  datatype Scope = Anywhere | OneSession(sid: Pid) | PerGroup(sessionOf: map<Pid, Pid>)

  /** The session a group must be in to count, if the group can count at all. */
  predicate HasExpectation(scope: Scope, pgid: Pid) {
    scope.OneSession? || (scope.PerGroup? && pgid in scope.sessionOf)
  }

  function Expected(scope: Scope, pgid: Pid): Pid
    requires HasExpectation(scope, pgid)
  {
    if scope.OneSession? then scope.sid else scope.sessionOf[pgid]
  }

  predicate Candidate(r: Row, groups: set<Pid>, mine: set<Pid>) {
    !r.zombie && r.pid !in mine && r.pgid in groups
  }

  /** The line is a live member of one of `groups`, in the session expected of that group. */
  predicate Counts(r: Row, groups: set<Pid>, scope: Scope, mine: set<Pid>) {
    && Candidate(r, groups, mine)
    && (scope.Anywhere?
        || (HasExpectation(scope, r.pgid) && r.session == Sid(Expected(scope, r.pgid))))
  }

  /** The kernel would not say which session the line belongs to, and it matters. */
  predicate Unanswerable(r: Row, groups: set<Pid>, scope: Scope, mine: set<Pid>) {
    Candidate(r, groups, mine) && !scope.Anywhere? && HasExpectation(scope, r.pgid) && r.session.Refused?
  }

  /** `answer` lists exactly the counting members of `rows`, by group. */
  ghost predicate ListsLive(rows: seq<Row>, groups: set<Pid>, scope: Scope, mine: set<Pid>,
      answer: map<Pid, set<Pid>>) {
    && (forall g :: g in answer ==> exists r :: r in rows && Counts(r, groups, scope, mine) && r.pgid == g)
    && (forall g, p :: g in answer && p in answer[g] ==>
          exists r :: r in rows && Counts(r, groups, scope, mine) && r.pgid == g && r.pid == p)
    && (forall r :: r in rows && Counts(r, groups, scope, mine) ==> r.pgid in answer && r.pid in answer[r.pgid])
  }

  /** `live_groups`: `None` is "cannot tell" and is never confused with "nothing there". */
  method LiveGroups(listing: Option<seq<Row>>, groups: set<Pid>, scope: Scope, mine: set<Pid>)
    returns (answer: Option<map<Pid, set<Pid>>>)
    ensures answer.None? <==>
              groups != {} && (listing.None? || exists r :: r in listing.value && Unanswerable(r, groups, scope, mine))
    ensures answer.Some? && groups == {} ==> answer.value == map[]
    ensures answer.Some? && groups != {} ==> ListsLive(listing.value, groups, scope, mine, answer.value)
  {
    if groups == {} { return Some(map[]); }
    if listing.None? { return None; }
    var rows := listing.value;
    var byGroup: map<Pid, set<Pid>> := map[];
    for k := 0 to |rows|
      invariant forall r :: r in rows[..k] ==> !Unanswerable(r, groups, scope, mine)
      invariant ListsLive(rows[..k], groups, scope, mine, byGroup)
    {
      var r := rows[k];
      assert rows[..k + 1] == rows[..k] + [r];
      assert r in rows;
      if r.zombie || r.pid in mine || r.pgid !in groups { continue; }
      if !scope.Anywhere? {
        if !HasExpectation(scope, r.pgid) { continue; }
        if r.session.Refused? { return None; }
        if r.session != Sid(Expected(scope, r.pgid)) { continue; }
      }
      ListMore(rows[..k], r, groups, scope, mine, byGroup);
      byGroup := byGroup[r.pgid := (if r.pgid in byGroup then byGroup[r.pgid] else {}) + {r.pid}];
    }
    assert rows[..|rows|] == rows;
    return Some(byGroup);
  }

  lemma ListMore(rows: seq<Row>, r: Row, groups: set<Pid>, scope: Scope, mine: set<Pid>, answer: map<Pid, set<Pid>>)
    requires ListsLive(rows, groups, scope, mine, answer) && Counts(r, groups, scope, mine)
    ensures ListsLive(rows + [r], groups, scope, mine,
              answer[r.pgid := (if r.pgid in answer then answer[r.pgid] else {}) + {r.pid}])
  {
    var more := answer[r.pgid := (if r.pgid in answer then answer[r.pgid] else {}) + {r.pid}];
    assert forall x :: x in rows + [r] <==> x in rows || x == r;
    forall g, p | g in more && p in more[g]
      ensures exists x :: x in rows + [r] && Counts(x, groups, scope, mine) && x.pgid == g && x.pid == p
    {
      if g == r.pgid && p == r.pid {
        assert r in rows + [r];
      } else {
        var x :| x in rows && Counts(x, groups, scope, mine) && x.pgid == g && x.pid == p;
        assert x in rows + [r];
      }
    }
    forall g | g in more ensures exists x :: x in rows + [r] && Counts(x, groups, scope, mine) && x.pgid == g {
      if g == r.pgid {
        assert r in rows + [r];
      } else {
        var x :| x in rows && Counts(x, groups, scope, mine) && x.pgid == g;
        assert x in rows + [r];
      }
    }
  }

  /** `live_session_members` */
  method LiveSessionMembers(listing: Option<seq<Row>>, session: Pid, mine: set<Pid>) returns (live: Option<set<Pid>>)
    ensures live.None? <==>
              session != 0 && (listing.None?
                || exists r :: r in listing.value && !r.zombie && r.pid !in mine && r.session.Refused?)
    ensures live.Some? ==> forall p :: p in live.value <==>
              session != 0 && exists r :: (r in listing.value && r.pid == p
                && !r.zombie && p !in mine && r.session == Sid(session))
  {
    if session == 0 { return Some({}); }
    if listing.None? { return None; }
    var rows := listing.value;
    var members: set<Pid> := {};
    for k := 0 to |rows|
      invariant forall r :: r in rows[..k] && !r.zombie && r.pid !in mine ==> !r.session.Refused?
      invariant forall p :: p in members <==>
        exists r :: r in rows[..k] && r.pid == p && !r.zombie && p !in mine && r.session == Sid(session)
    {
      var r := rows[k];
      assert rows[..k + 1] == rows[..k] + [r];
      assert r in rows && r in rows[..k + 1];
      if r.zombie || r.pid in mine { continue; }
      if r.session.Refused? { return None; }
      if r.session == Sid(session) {
        members := members + {r.pid};
      }
    }
    assert rows[..|rows|] == rows;
    return Some(members);
  }

  // ---- Sorting ----

  ghost predicate Ascending(s: seq<Pid>) {
    forall i, j :: 0 <= i < j < |s| ==> s[i] < s[j]
  }

  /** `sorted` on a set of numbers. */
  method SortedPids(s: set<Pid>) returns (sorted: seq<Pid>)
    ensures Ascending(sorted)
    ensures forall p :: p in sorted <==> p in s
  {
    sorted := [];
    var remaining := s;
    while remaining != {}
      invariant remaining <= s
      invariant Ascending(sorted)
      invariant forall p :: p in sorted <==> p in s && p !in remaining
      decreases remaining
    {
      ghost var present := SomeElement(remaining);
      var p :| p in remaining;
      remaining := remaining - {p};
      sorted := InsertPid(sorted, p);
    }
  }

  lemma SomeElement<T>(s: set<T>) returns (x: T)
    requires s != {}
    ensures x in s
  {
    x :| x in s;
  }

  function InsertPid(sorted: seq<Pid>, p: Pid): (r: seq<Pid>)
    requires Ascending(sorted) && p !in sorted
    ensures Ascending(r)
    ensures forall x :: x in r <==> x in sorted || x == p
  {
    if sorted == [] || p < sorted[0] then [p] + sorted
    else
      var rest := InsertPid(sorted[1..], p);
      assert sorted[0] in sorted;
      assert forall k :: 0 <= k < |rest| ==> rest[k] in rest;
      [sorted[0]] + rest
  }
}
