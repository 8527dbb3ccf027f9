// src/audit_pipeline/lifecycle.py: the status of a finding and its legal changes.
module Lifecycle {
  import opened Bytes

  datatype Status =
    | New
    | Triaged
    | Confirmed
    | Disclosed
    | Fixed
    | Verified
    | Rejected
    | ClosedNotPlanned

  /** Status.value */
  function ValueOf(s: Status): string {
    match s
    case New => "new"
    case Triaged => "triaged"
    case Confirmed => "confirmed"
    case Disclosed => "disclosed"
    case Fixed => "fixed"
    case Verified => "verified"
    case Rejected => "rejected"
    case ClosedNotPlanned => "closed_not_planned"
  }

  const MEMBERS: seq<Status> :=
    [New, Triaged, Confirmed, Disclosed, Fixed, Verified, Rejected, ClosedNotPlanned]

  /** The first member with this value. */
  function Lookup(members: seq<Status>, text: string): (r: Option<Status>)
    ensures r.Some? ==> ValueOf(r.value) == text
  {
    if members == [] then None
    else if ValueOf(members[0]) == text then Some(members[0])
    else Lookup(members[1..], text)
  }

  /** Status(text); None where Python raises ValueError. */
  function ParseStatus(text: string): (r: Option<Status>)
    ensures r.Some? ==> ValueOf(r.value) == text
  {
    Lookup(MEMBERS, text)
  }

  /** VALID_TRANSITIONS */
  function ValidTransitions(from: Status): set<Status> {
    match from
    case New => {Triaged, Confirmed, Rejected}
    case Triaged => {Confirmed, Rejected}
    case Confirmed => {Disclosed, Rejected}
    case Disclosed => {Fixed, Rejected, ClosedNotPlanned}
    case Fixed => {Verified, Rejected}
    case Verified => {}
    case Rejected => {}
    case ClosedNotPlanned => {}
  }

  /** validate_transition */
  predicate CanMove(from: Status, to: Status) {
    to in ValidTransitions(from)
  }

  predicate Terminal(s: Status) {
    s == Verified || s == Rejected || s == ClosedNotPlanned
  }

  /** How far along a status is; the last step of every path is terminal. */
  function Rank(s: Status): (r: nat)
    ensures r <= 5
  {
    match s
    case New => 0
    case Triaged => 1
    case Confirmed => 2
    case Disclosed => 3
    case Fixed => 4
    case _ => 5
  }

  lemma ValuesDiffer(s: Status, t: Status)
    requires ValueOf(s) == ValueOf(t)
    ensures s == t
  {
    assert |ValueOf(s)| == match s
      case New => 3 case Triaged => 7 case Confirmed => 9 case Disclosed => 9
      case Fixed => 5 case Verified => 8 case Rejected => 8 case ClosedNotPlanned => 18;
    assert ValueOf(s)[0] == match s
      case New => 'n' case Triaged => 't' case Confirmed => 'c' case Disclosed => 'd'
      case Fixed => 'f' case Verified => 'v' case Rejected => 'r' case ClosedNotPlanned => 'c';
  }

  lemma {:induction false} LookupFinds(members: seq<Status>, s: Status)
    requires s in members
    ensures Lookup(members, ValueOf(s)) == Some(s)
  {
    if ValueOf(members[0]) == ValueOf(s) {
      ValuesDiffer(members[0], s);
    } else {
      LookupFinds(members[1..], s);
    }
  }

  lemma ParseOfValue(s: Status)
    ensures ParseStatus(ValueOf(s)) == Some(s)
  {
    assert s == MEMBERS[match s
      case New => 0 case Triaged => 1 case Confirmed => 2 case Disclosed => 3
      case Fixed => 4 case Verified => 5 case Rejected => 6 case ClosedNotPlanned => 7];
    LookupFinds(MEMBERS, s);
  }

  /** Every legal change moves forward, and the terminal statuses are those without one. */
  lemma ChangesMoveForward(from: Status, to: Status)
    ensures CanMove(from, to) ==> Rank(from) < Rank(to)
    ensures Terminal(from) <==> ValidTransitions(from) == {}
    ensures Terminal(from) ==> !CanMove(from, to)
  {
    match from
    case New => assert Triaged in ValidTransitions(from);
    case Triaged => assert Rejected in ValidTransitions(from);
    case Confirmed => assert Rejected in ValidTransitions(from);
    case Disclosed => assert Rejected in ValidTransitions(from);
    case Fixed => assert Rejected in ValidTransitions(from);
    case _ =>
  }

  /** The eight values, read and written. */
  lemma ValuesSpelled()
    ensures ParseStatus("new") == Some(New) && ParseStatus("triaged") == Some(Triaged)
    ensures ParseStatus("confirmed") == Some(Confirmed) && ParseStatus("disclosed") == Some(Disclosed)
    ensures ParseStatus("fixed") == Some(Fixed) && ParseStatus("verified") == Some(Verified)
    ensures ParseStatus("rejected") == Some(Rejected) && ParseStatus("closed_not_planned") == Some(ClosedNotPlanned)
  {
    ParseOfValue(New);
    ParseOfValue(Triaged);
    ParseOfValue(Confirmed);
    ParseOfValue(Disclosed);
    ParseOfValue(Fixed);
    ParseOfValue(Verified);
    ParseOfValue(Rejected);
    ParseOfValue(ClosedNotPlanned);
  }

  /** Every finding can be rejected until it is done; apart from that there are six changes and one shortcut. */
  lemma ChangesSpelled(from: Status, to: Status)
    ensures CanMove(from, to) <==>
            (to.Rejected? && !from.Verified? && !from.Rejected? && !from.ClosedNotPlanned?) ||
            (from.New? && (to.Triaged? || to.Confirmed?)) || (from.Triaged? && to.Confirmed?) ||
            (from.Confirmed? && to.Disclosed?) || (from.Disclosed? && (to.Fixed? || to.ClosedNotPlanned?)) ||
            (from.Fixed? && to.Verified?)
  {
  }
}
