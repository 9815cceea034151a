/**
 * The due-date and status expressions of the listing page (the `next_d`
 * and `st` expressions, written twice: once for trainings, once for
 * hazards). Dates are day numbers; a periodicity of P months is P * 30 days.
 */
module Compliance {
  import opened Common

  /** `timedelta(days=periodicity_months * 30)`: a month is counted as 30 days. */
  const DaysPerMonth: int := 30
  /** `today + timedelta(days=30)`: how far ahead a check counts as due soon. */
  const LookaheadDays: int := 30

  datatype Status = Never | Overdue | Soon | Ok

  /** The status strings the page shows and the status filter compares with. */
  function StatusName(st: Status): string
  {
    match st
    case Never => "never"
    case Overdue => "overdue"
    case Soon => "soon"
    case Ok => "ok"
  }

  datatype Evaluation = Evaluation(next: Option<int>, status: Status)

  /**
   * Next due date and status of one check last completed on `last`
   * (None: never completed), evaluated on day `today`.
   */
  function Evaluate(last: Option<int>, periodicity: int, today: int): (e: Evaluation)
    ensures e.status == Never <==> last == None
    ensures last == None ==> e.next == None
    ensures last != None ==> e.next == Some(last.value + DaysPerMonth * periodicity)
    ensures e.status == Overdue <==> e.next != None && e.next.value <= today
    ensures e.status == Soon <==> e.next != None && today < e.next.value <= today + LookaheadDays
    ensures e.status == Ok <==> e.next != None && today + LookaheadDays < e.next.value
  {
    match last
    case None => Evaluation(None, Never)
    case Some(day) =>
      var next := day + DaysPerMonth * periodicity;
      Evaluation(Some(next),
                 if next <= today then Overdue
                 else if next <= today + LookaheadDays then Soon
                 else Ok)
  }

  /** How urgent a completed check is: ok < soon < overdue. */
  function Urgency(st: Status): nat
  {
    match st
    case Never => 0
    case Ok => 0
    case Soon => 1
    case Overdue => 2
  }

  /** Status names tell statuses apart, so filtering by name is filtering by status. */
  lemma StatusNameInjective(s: Status, t: Status)
    requires StatusName(s) == StatusName(t)
    ensures s == t
  {
  }

  /** As time passes, a completed check only moves from ok to soon to overdue. */
  lemma UrgencyGrowsWithTime(last: int, periodicity: int, today: int, later: int)
    requires today <= later
    ensures Urgency(Evaluate(Some(last), periodicity, today).status)
         <= Urgency(Evaluate(Some(last), periodicity, later).status)
  {
  }

  /** Recording a later completion date never makes a check more urgent. */
  lemma LaterCompletionNotMoreUrgent(earlier: int, later: int, periodicity: int, today: int)
    requires earlier <= later
    ensures Urgency(Evaluate(Some(later), periodicity, today).status)
         <= Urgency(Evaluate(Some(earlier), periodicity, today).status)
  {
  }

  /**
   * A check completed on `last` stays ok until 30 days before it is due,
   * is due soon for the last 30 days, and is overdue from its due date on.
   */
  lemma StatusTimeline(last: int, periodicity: int, today: int)
    ensures var due := last + DaysPerMonth * periodicity;
            var st := Evaluate(Some(last), periodicity, today).status;
            (today < due - LookaheadDays ==> st == Ok)
            && (due - LookaheadDays <= today < due ==> st == Soon)
            && (due <= today ==> st == Overdue)
  {
  }
}
