/** The boundary between baseline, measured action and accepted frame of a screen capture.
    Every operation holds the lock, so a run is any sequence of whole operations. */
module CaptureBoundary {
  import opened Machine

  datatype State = NeedsBaseline | WaitingForArm | Armed(cutoff: UInt64) | Accepted

  datatype Disposition = Baseline | Drop | PostArmCandidate

  datatype Call =
    | Frame(displayTime: UInt64)   // `disposition(for:)`
    | Arm(cutoffTime: UInt64)      // `arm(afterDisplayTime:)`
    | Accept(acceptTime: UInt64)   // `accept(displayTime:...)`

  datatype Answer = Disposed(disposition: Disposition) | Done | Verdict(accepted: bool)

  function NextState(s: State, call: Call): State {
    match call
    case Frame(_) => if s.NeedsBaseline? then WaitingForArm else s
    case Arm(cutoff) => if s.WaitingForArm? then Armed(cutoff) else s
    case Accept(t) => if s.Armed? && t > s.cutoff then Accepted else s
  }

  function AnswerTo(s: State, call: Call): Answer {
    match call
    case Frame(t) =>
      Disposed(if s.NeedsBaseline? then Baseline
               else if s.Armed? && t > s.cutoff then PostArmCandidate else Drop)
    case Arm(_) => Done
    case Accept(t) => Verdict(s.Armed? && t > s.cutoff)
  }

  /** `BenchmarkScreenCaptureBoundary`; `presented` counts calls of `onPresented`. */
  class Boundary {
    var state: State
    var presented: nat

    constructor ()
      ensures state == NeedsBaseline && presented == 0
    {
      state, presented := NeedsBaseline, 0;
    }

    method ArmAfter(cutoff: UInt64)
      modifies this
      ensures state == NextState(old(state), Arm(cutoff)) && presented == old(presented)
    {
      if !state.WaitingForArm? { return; }
      state := Armed(cutoff);
    }

    method DispositionFor(displayTime: UInt64) returns (d: Disposition)
      modifies this
      ensures state == NextState(old(state), Frame(displayTime)) && presented == old(presented)
      ensures Disposed(d) == AnswerTo(old(state), Frame(displayTime))
    {
      match state
      case NeedsBaseline =>
        state := WaitingForArm;
        return Baseline;
      case WaitingForArm => return Drop;
      case Armed(cutoff) =>
        if displayTime <= cutoff { return Drop; }
        return PostArmCandidate;
      case Accepted => return Drop;
    }

    method AcceptFrame(displayTime: UInt64) returns (ok: bool)
      modifies this
      ensures state == NextState(old(state), Accept(displayTime))
      ensures Verdict(ok) == AnswerTo(old(state), Accept(displayTime))
      ensures presented == old(presented) + if ok then 1 else 0
    {
      if !(state.Armed? && displayTime > state.cutoff) { return false; }
      state := Accepted;
      presented := presented + 1;
      return true;
    }
  }

  // ---- Runs ----

  function StateAfter(calls: seq<Call>, k: nat): State
    requires k <= |calls|
  {
    if k == 0 then NeedsBaseline else NextState(StateAfter(calls, k - 1), calls[k - 1])
  }

  function AnswerAt(calls: seq<Call>, k: nat): Answer
    requires k < |calls|
  {
    AnswerTo(StateAfter(calls, k), calls[k])
  }

  /** The first frame, the first arm after it and the first acceptance past its cutoff after
      that; `|calls|` for one that never comes. */
  function FirstFrame(calls: seq<Call>, k: nat): (i: nat)
    requires k <= |calls|
    ensures k <= i <= |calls| && (i < |calls| ==> calls[i].Frame?)
    ensures forall j :: k <= j < i ==> !calls[j].Frame?
    decreases |calls| - k
  {
    if k == |calls| || calls[k].Frame? then k else FirstFrame(calls, k + 1)
  }

  function FirstArm(calls: seq<Call>, k: nat): (i: nat)
    requires k <= |calls|
    ensures k <= i <= |calls| && (i < |calls| ==> calls[i].Arm?)
    ensures forall j :: k <= j < i ==> !calls[j].Arm?
    decreases |calls| - k
  {
    if k == |calls| || calls[k].Arm? then k else FirstArm(calls, k + 1)
  }

  predicate AcceptsPast(call: Call, cutoff: UInt64) { call.Accept? && call.acceptTime > cutoff }

  function FirstAccept(calls: seq<Call>, k: nat, cutoff: UInt64): (i: nat)
    requires k <= |calls|
    ensures k <= i <= |calls| && (i < |calls| ==> AcceptsPast(calls[i], cutoff))
    ensures forall j :: k <= j < i ==> !AcceptsPast(calls[j], cutoff)
    decreases |calls| - k
  {
    if k == |calls| || AcceptsPast(calls[k], cutoff) then k else FirstAccept(calls, k + 1, cutoff)
  }

  function BaselineAt(calls: seq<Call>): nat { FirstFrame(calls, 0) }

  function ArmedAt(calls: seq<Call>): (i: nat)
    ensures i <= |calls|
  {
    if BaselineAt(calls) == |calls| then |calls| else FirstArm(calls, BaselineAt(calls) + 1)
  }

  function AcceptedAt(calls: seq<Call>): (i: nat)
    ensures i <= |calls|
  {
    if ArmedAt(calls) == |calls| then |calls|
    else FirstAccept(calls, ArmedAt(calls) + 1, calls[ArmedAt(calls)].cutoffTime)
  }

  /** The state at any point is told by which of the three moments have passed. */
  lemma {:induction false} StateIsHistory(calls: seq<Call>, k: nat)
    requires k <= |calls|
    ensures StateAfter(calls, k) ==
              if k <= BaselineAt(calls) then NeedsBaseline
              else if k <= ArmedAt(calls) then WaitingForArm
              else if k <= AcceptedAt(calls) then Armed(calls[ArmedAt(calls)].cutoffTime)
              else Accepted
    decreases k
  {
    if k > 0 {
      StateIsHistory(calls, k - 1);
    }
  }

  /** For every interleaving: the one baseline is the first frame; a candidate is exactly a
      frame past the cutoff of the first arm after the baseline, before the acceptance; and
      the one acceptance, the only time `onPresented` fires, is the first past that cutoff. */
  lemma AnswersAreExact(calls: seq<Call>, k: nat)
    requires k < |calls|
    ensures AnswerAt(calls, k) == Disposed(Baseline) <==> k == BaselineAt(calls)
    ensures AnswerAt(calls, k) == Disposed(PostArmCandidate) <==>
              && ArmedAt(calls) < k < AcceptedAt(calls)
              && calls[k].Frame? && calls[k].displayTime > calls[ArmedAt(calls)].cutoffTime
    ensures AnswerAt(calls, k) == Verdict(true) <==> k == AcceptedAt(calls)
  {
    StateIsHistory(calls, k);
  }

  /** Nothing is passed on between the baseline and the arm. */
  lemma NothingPassesBeforeArm(calls: seq<Call>, k: nat)
    requires BaselineAt(calls) < k < ArmedAt(calls) && calls[k].Frame?
    ensures AnswerAt(calls, k) == Disposed(Drop)
  {
    AnswersAreExact(calls, k);
  }
}
