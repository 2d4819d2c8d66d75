/** Exceptions that may nest in groups, and the termination requests inside them. */
module ExceptionTree {

  datatype Option<+T> = None | Some(value: T)

  /** A termination request is a `BaseException` that is not an `Exception`. */
  datatype Exc =
    | Failure(what: string)
    | RetainedHandle  // the failure that hands the caller the process to retry with
    | Termination(request: int)
    | Group(nested: seq<Exc>)

  /** The exceptions of a tree that are not groups, left to right. */
  function Leaves(e: Exc): seq<Exc>
    decreases e, 1
  {
    if e.Group? then AllLeaves(e.nested) else [e]
  }

  function AllLeaves(es: seq<Exc>): seq<Exc>
    decreases es, 0
  {
    if es == [] then [] else Leaves(es[0]) + AllLeaves(es[1..])
  }

  /** `termination_exceptions` */
  function Terminations(e: Exc): seq<Exc>
    decreases e, 1
  {
    if e.Group? then AllTerminations(e.nested)
    else if e.Termination? then [e] else []
  }

  function AllTerminations(es: seq<Exc>): seq<Exc>
    decreases es, 0
  {
    if es == [] then [] else Terminations(es[0]) + AllTerminations(es[1..])
  }

  /** `non_termination_exceptions` */
  function Ordinaries(e: Exc): seq<Exc>
    decreases e, 1
  {
    if e.Group? then AllOrdinaries(e.nested)
    else if e.Termination? then [] else [e]
  }

  function AllOrdinaries(es: seq<Exc>): seq<Exc>
    decreases es, 0
  {
    if es == [] then [] else Ordinaries(es[0]) + AllOrdinaries(es[1..])
  }

  function Select(leaves: seq<Exc>, terminations: bool): seq<Exc> {
    if leaves == [] then []
    else (if leaves[0].Termination? == terminations then [leaves[0]] else []) + Select(leaves[1..], terminations)
  }

  lemma {:induction false} SelectAppend(a: seq<Exc>, b: seq<Exc>, terminations: bool)
    ensures Select(a + b, terminations) == Select(a, terminations) + Select(b, terminations)
    decreases |a|
  {
    if a == [] {
      assert a + b == b;
    } else {
      SelectAppend(a[1..], b, terminations);
      var head := if a[0].Termination? == terminations then [a[0]] else [];
      assert (a + b)[0] == a[0] && (a + b)[1..] == a[1..] + b;
      assert Select(a + b, terminations) == head + Select(a[1..] + b, terminations);
      assert Select(a, terminations) == head + Select(a[1..], terminations);
    }
  }

  /** The two functions split the leaves of every tree between them, in order: every leaf
      that is a termination request is found, however deep, and nothing else is. */
  lemma {:induction false} LeavesAreSplit(e: Exc)
    ensures Terminations(e) == Select(Leaves(e), true)
    ensures Ordinaries(e) == Select(Leaves(e), false)
    decreases e, 1
  {
    if e.Group? {
      AllLeavesAreSplit(e.nested);
    } else {
      assert Leaves(e)[1..] == [];
    }
  }

  lemma {:induction false} AllLeavesAreSplit(es: seq<Exc>)
    ensures AllTerminations(es) == Select(AllLeaves(es), true)
    ensures AllOrdinaries(es) == Select(AllLeaves(es), false)
    decreases es, 0
  {
    if es != [] {
      LeavesAreSplit(es[0]);
      AllLeavesAreSplit(es[1..]);
      SelectAppend(Leaves(es[0]), AllLeaves(es[1..]), true);
      SelectAppend(Leaves(es[0]), AllLeaves(es[1..]), false);
    }
  }

  lemma {:induction false} SelectOnly(leaves: seq<Exc>, terminations: bool)
    ensures forall x :: x in Select(leaves, terminations) <==> x in leaves && x.Termination? == terminations
    decreases |leaves|
  {
    if leaves != [] {
      SelectOnly(leaves[1..], terminations);
      assert leaves == [leaves[0]] + leaves[1..];
    }
  }

  lemma {:induction false} AllTerminationsAppend(a: seq<Exc>, b: seq<Exc>)
    ensures AllTerminations(a + b) == AllTerminations(a) + AllTerminations(b)
    decreases |a|
  {
    if a == [] {
      assert a + b == b;
    } else {
      AllTerminationsAppend(a[1..], b);
      assert (a + b)[1..] == a[1..] + b;
    }
  }

  lemma AllTerminationsOne(e: Exc)
    ensures AllTerminations([e]) == Terminations(e)
  {
    assert [e][1..] == [];
  }

  lemma {:induction false} AllLeavesAppend(a: seq<Exc>, b: seq<Exc>)
    ensures AllLeaves(a + b) == AllLeaves(a) + AllLeaves(b)
    decreases |a|
  {
    if a == [] {
      assert a + b == b;
    } else {
      AllLeavesAppend(a[1..], b);
      assert (a + b)[1..] == a[1..] + b;
    }
  }

  predicate OnlyTerminations(es: seq<Exc>) { forall i :: 0 <= i < |es| ==> es[i].Termination? }

  /** A list of bare termination requests is its own list of termination requests. */
  lemma {:induction false} TerminationsOfTerminations(es: seq<Exc>)
    requires OnlyTerminations(es)
    ensures AllTerminations(es) == es && AllLeaves(es) == es
    decreases |es|
  {
    if es != [] {
      TerminationsOfTerminations(es[1..]);
    }
  }

  lemma TerminationsAreBare(e: Exc)
    ensures OnlyTerminations(Terminations(e))
  {
    LeavesAreSplit(e);
    SelectOnly(Leaves(e), true);
    forall i | 0 <= i < |Terminations(e)| ensures Terminations(e)[i].Termination? {
      assert Terminations(e)[i] in Terminations(e);
    }
  }

  lemma AllTerminationsAreBare(es: seq<Exc>)
    ensures OnlyTerminations(AllTerminations(es))
  {
    TerminationsAreBare(Group(es));
  }

  /** `raise_termination_exceptions`: what it raises, if anything. */
  function RaiseTerminations(errors: seq<Exc>): Option<Exc> {
    var found := AllTerminations(errors);
    if |found| == 1 then Some(found[0])
    else if found != [] then Some(Group(found))
    else None
  }

  /** It raises exactly the termination requests of `errors`, all of them and nothing else, a
      single one bare and several in one flat group, and returns only when there are none. */
  lemma RaiseTerminationsIsExact(errors: seq<Exc>)
    ensures match RaiseTerminations(errors)
            case None => AllTerminations(errors) == []
            case Some(e) =>
              && Leaves(e) == Terminations(e) == AllTerminations(errors) != []
              && (|AllTerminations(errors)| == 1 ==> e.Termination?)
              && (|AllTerminations(errors)| > 1 ==> e.Group? && e.nested == AllTerminations(errors))
  {
    var found := AllTerminations(errors);
    AllTerminationsAreBare(errors);
    TerminationsOfTerminations(found);
  }

  /** A failure raised next to the termination requests that came before it: alone when
      there are none, grouped after them otherwise. */
  function WithTerminations(errors: seq<Exc>, failure: Exc): Exc {
    if AllTerminations(errors) == [] then failure else Group(AllTerminations(errors) + [failure])
  }

  lemma WithTerminationsIsExact(errors: seq<Exc>, failure: Exc)
    requires failure.Failure? || failure.RetainedHandle?
    ensures Terminations(WithTerminations(errors, failure)) == AllTerminations(errors)
    ensures Leaves(WithTerminations(errors, failure)) == AllTerminations(errors) + [failure]
    ensures WithTerminations(errors, failure).Group? <==> AllTerminations(errors) != []
  {
    var found := AllTerminations(errors);
    AllTerminationsAreBare(errors);
    TerminationsOfTerminations(found);
    AllTerminationsAppend(found, [failure]);
    AllLeavesAppend(found, [failure]);
    AllTerminationsOne(failure);
    assert [failure][1..] == [];
    assert AllLeaves([failure]) == [failure];
  }
}
