/** The domain capture lifecycle and its one-way barriers. */
module CapturePhase {

  /** `Other` is the unset phase (the empty string) and any string outside the four named phases. */
  datatype Phase = Other(name: string) | Planning | Planned | Finished | Failed

  function PhaseRank(p: Phase): nat {
    match p
    case Planning => 1
    case Planned => 2
    case Finished => 3
    case _ => 0
  }

  predicate CanAdvance(from: Phase, to: Phase) {
    if from.Failed? then to.Failed?
    else if to.Failed? then true
    else PhaseRank(to) >= PhaseRank(from)
  }

  /** Membership of the node is frozen: barrier 1 and later, and the terminal failure. */
  predicate Frozen(p: Phase) {
    p.Failed? || PhaseRank(p) >= PhaseRank(Planned)
  }

  predicate IsBarrier(p: Phase) {
    p.Planned? || p.Finished?
  }

  /** The whole table: a failed node stays failed, the three phases of a capture only go forwards, and an
      unknown phase never replaces one of them. */
  lemma AdvanceExactly(from: Phase, to: Phase)
    ensures CanAdvance(from, to) <==> match from
      case Failed => to == Failed
      case Finished => to == Finished || to == Failed
      case Planned => to == Planned || to == Finished || to == Failed
      case Planning => to == Planning || to == Planned || to == Finished || to == Failed
      case Other(_) => true
    ensures Frozen(from) <==> from == Planned || from == Finished || from == Failed
  {
  }

  /** Advancement is a preorder in which Failed is the top and every named phase stands alone. */
  lemma AdvanceIsPreorder(a: Phase, b: Phase, c: Phase)
    ensures CanAdvance(a, a)
    ensures CanAdvance(a, b) && CanAdvance(b, c) ==> CanAdvance(a, c)
    ensures CanAdvance(a, b) && CanAdvance(b, a) ==> a == b || (a.Other? && b.Other?)
    ensures Frozen(a) && CanAdvance(a, b) ==> Frozen(b)
  {
  }
}
