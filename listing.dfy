/**
 * The listing page (`index`): for each queried employee, the evaluated
 * checks (trainings first, then hazards), filtered by the optional status
 * filter, and whether the employee's row is shown at all.
 */
module Listing {
  import opened Common
  import opened Compliance
  import opened Ledger

  datatype Kind = Training | Hazard

  /** The `kind` string stored in ledger keys. */
  function KindName(kind: Kind): string
  {
    match kind
    case Training => "training"
    case Hazard => "hazard"
  }

  /** An `EmployeeTraining` or `EmployeeHazard` row joined with the name of its catalog entry. */
  datatype Assignment = Assignment(id: int, name: string, periodicity: int)

  /** A queried employee with its assignments in the order the relationships load them. */
  datatype EmployeeEntry = EmployeeEntry(employeeId: int, trainings: seq<Assignment>, hazards: seq<Assignment>)

  /** One entry of `checks`. */
  datatype CheckLine = CheckLine(
    name: string, category: string, period: int,
    last: Option<int>, next: Option<int>, document: Option<string>,
    status: Status, kind: string, kindId: int)

  /** One entry of `data`: the employee and its displayed checks. */
  datatype ListingRow = ListingRow(employeeId: int, checks: seq<CheckLine>)

  /** The check line of one assignment, evaluated against the ledger on day `today`. */
  function Line(employeeId: int, kind: Kind, a: Assignment, ledger: map<CheckKey, Entry>, today: int): (line: CheckLine)
    ensures line.kind == KindName(kind) && line.kindId == a.id && line.period == a.periodicity
    ensures var key := CheckKey(employeeId, KindName(kind), a.id);
            key !in ledger ==> line.last == None && line.document == None && line.next == None && line.status == Never
    ensures var key := CheckKey(employeeId, KindName(kind), a.id);
            key in ledger ==> line.last == ledger[key].lastDate && line.document == ledger[key].document
    ensures var e := Evaluate(line.last, a.periodicity, today);
            line.next == e.next && line.status == e.status
    ensures kind == Training ==> line.name == a.name && line.category == "Обучение"
    ensures kind == Hazard ==> line.name == "Медосмотр: " + a.name && line.category == "Медосмотр"
  {
    var key := CheckKey(employeeId, KindName(kind), a.id);
    var last := if key in ledger then ledger[key].lastDate else None;
    var document := if key in ledger then ledger[key].document else None;
    var e := Evaluate(last, a.periodicity, today);
    match kind
    case Training =>
      CheckLine(a.name, "Обучение", a.periodicity, last, e.next, document, e.status, KindName(kind), a.id)
    case Hazard =>
      CheckLine("Медосмотр: " + a.name, "Медосмотр", a.periodicity, last, e.next, document, e.status, KindName(kind), a.id)
  }

  /** Whether a check survives the status filter (the empty filter keeps everything). */
  function Kept(st: Status, filter: string): (kept: bool)
    ensures filter == "" ==> kept
    ensures filter != "" ==> (kept <==> st == Never || StatusName(st) == filter)
  {
    filter == "" || StatusName(st) in [filter, "never"]
  }

  /** The lines of `assignments` that survive the filter, in order. */
  function KeptLines(employeeId: int, kind: Kind, assignments: seq<Assignment>,
                     ledger: map<CheckKey, Entry>, filter: string, today: int): seq<CheckLine>
  {
    if assignments == [] then []
    else
      var line := Line(employeeId, kind, assignments[|assignments| - 1], ledger, today);
      KeptLines(employeeId, kind, assignments[..|assignments| - 1], ledger, filter, today)
        + (if Kept(line.status, filter) then [line] else [])
  }

  /** The displayed checks of one employee: surviving trainings, then surviving hazards. */
  function EmployeeLines(e: EmployeeEntry, ledger: map<CheckKey, Entry>, filter: string, today: int): seq<CheckLine>
  {
    KeptLines(e.employeeId, Training, e.trainings, ledger, filter, today)
      + KeptLines(e.employeeId, Hazard, e.hazards, ledger, filter, today)
  }

  /** `show_employee or not status`. */
  function Shown(lines: seq<CheckLine>, filter: string): (shown: bool)
    ensures filter == "" ==> shown
    ensures filter != "" ==> (shown <==> lines != [])
  {
    |lines| > 0 || filter == ""
  }

  /** The rows of the page for the queried `employees`. */
  function Listing(employees: seq<EmployeeEntry>, ledger: map<CheckKey, Entry>, filter: string, today: int)
    : (rows: seq<ListingRow>)
  {
    if employees == [] then []
    else
      var e := employees[|employees| - 1];
      var lines := EmployeeLines(e, ledger, filter, today);
      Listing(employees[..|employees| - 1], ledger, filter, today)
        + (if Shown(lines, filter) then [ListingRow(e.employeeId, lines)] else [])
  }

  /** The page has at most one row per queried employee, and exactly one each when no filter is set. */
  lemma {:induction false} ListingLength(employees: seq<EmployeeEntry>, ledger: map<CheckKey, Entry>,
                                         filter: string, today: int)
    ensures |Listing(employees, ledger, filter, today)| <= |employees|
    ensures filter == "" ==> |Listing(employees, ledger, filter, today)| == |employees|
  {
    if employees != [] {
      ListingLength(employees[..|employees| - 1], ledger, filter, today);
    }
  }

  /** Every assignment's line, in order: what the page shows when no filter is set. */
  function AllLines(employeeId: int, kind: Kind, assignments: seq<Assignment>,
                    ledger: map<CheckKey, Entry>, today: int): seq<CheckLine>
  {
    seq(|assignments|, i requires 0 <= i < |assignments| => Line(employeeId, kind, assignments[i], ledger, today))
  }

  /**
   * A line survives the filter exactly when it is the line of one of the
   * assignments and its status passes: nothing else is shown, nothing that
   * passes is dropped.
   */
  lemma {:induction false} KeptLinesMembership(employeeId: int, kind: Kind, assignments: seq<Assignment>,
                                               ledger: map<CheckKey, Entry>, filter: string, today: int, c: CheckLine)
    ensures c in KeptLines(employeeId, kind, assignments, ledger, filter, today)
            <==> (exists i :: 0 <= i < |assignments| && c == Line(employeeId, kind, assignments[i], ledger, today))
                 && Kept(c.status, filter)
  {
    if assignments != [] {
      var init := assignments[..|assignments| - 1];
      var last := Line(employeeId, kind, assignments[|assignments| - 1], ledger, today);
      var tail := if Kept(last.status, filter) then [last] else [];
      KeptLinesMembership(employeeId, kind, init, ledger, filter, today, c);
      assert KeptLines(employeeId, kind, assignments, ledger, filter, today)
          == KeptLines(employeeId, kind, init, ledger, filter, today) + tail;
      forall i | 0 <= i < |init|
        ensures init[i] == assignments[i]
      {
      }
      if exists i :: 0 <= i < |assignments| && c == Line(employeeId, kind, assignments[i], ledger, today) {
        var i :| 0 <= i < |assignments| && c == Line(employeeId, kind, assignments[i], ledger, today);
        if i == |init| {
          assert c == last;
        }
      }
    }
  }

  /** Without a filter every assignment's line is kept, in order. */
  lemma {:induction false} KeptLinesUnfiltered(employeeId: int, kind: Kind, assignments: seq<Assignment>,
                                               ledger: map<CheckKey, Entry>, today: int)
    ensures KeptLines(employeeId, kind, assignments, ledger, "", today)
            == AllLines(employeeId, kind, assignments, ledger, today)
  {
    if assignments != [] {
      var init := assignments[..|assignments| - 1];
      KeptLinesUnfiltered(employeeId, kind, init, ledger, today);
      assert AllLines(employeeId, kind, assignments, ledger, today)
          == AllLines(employeeId, kind, init, ledger, today)
             + [Line(employeeId, kind, assignments[|assignments| - 1], ledger, today)];
    }
  }

  /** Some assignment's line passes the filter. */
  predicate AnyKept(employeeId: int, kind: Kind, assignments: seq<Assignment>,
                    ledger: map<CheckKey, Entry>, filter: string, today: int)
  {
    exists i :: 0 <= i < |assignments| && Kept(Line(employeeId, kind, assignments[i], ledger, today).status, filter)
  }

  lemma KeptLinesNonEmpty(employeeId: int, kind: Kind, assignments: seq<Assignment>,
                          ledger: map<CheckKey, Entry>, filter: string, today: int)
    ensures |KeptLines(employeeId, kind, assignments, ledger, filter, today)| > 0
            <==> AnyKept(employeeId, kind, assignments, ledger, filter, today)
  {
    var kept := KeptLines(employeeId, kind, assignments, ledger, filter, today);
    if |kept| > 0 {
      KeptLinesMembership(employeeId, kind, assignments, ledger, filter, today, kept[0]);
    }
    if AnyKept(employeeId, kind, assignments, ledger, filter, today) {
      var i :| 0 <= i < |assignments| && Kept(Line(employeeId, kind, assignments[i], ledger, today).status, filter);
      KeptLinesMembership(employeeId, kind, assignments, ledger, filter, today,
                          Line(employeeId, kind, assignments[i], ledger, today));
    }
  }

  /**
   * With a status filter, an employee's row is shown exactly when one of its
   * trainings or hazards has the requested status or has never been done.
   */
  lemma EmployeeShown(e: EmployeeEntry, ledger: map<CheckKey, Entry>, filter: string, today: int)
    requires filter != ""
    ensures Shown(EmployeeLines(e, ledger, filter, today), filter)
            <==> AnyKept(e.employeeId, Training, e.trainings, ledger, filter, today)
                 || AnyKept(e.employeeId, Hazard, e.hazards, ledger, filter, today)
  {
    KeptLinesNonEmpty(e.employeeId, Training, e.trainings, ledger, filter, today);
    KeptLinesNonEmpty(e.employeeId, Hazard, e.hazards, ledger, filter, today);
  }

  /**
   * The rows are exactly those of the queried employees that are shown,
   * each carrying that employee's surviving checks.
   */
  lemma {:induction false} ListingRows(employees: seq<EmployeeEntry>, ledger: map<CheckKey, Entry>,
                                       filter: string, today: int, r: ListingRow)
    ensures r in Listing(employees, ledger, filter, today)
            <==> exists e :: e in employees
                   && r == ListingRow(e.employeeId, EmployeeLines(e, ledger, filter, today))
                   && Shown(EmployeeLines(e, ledger, filter, today), filter)
  {
    if employees != [] {
      var init := employees[..|employees| - 1];
      ListingRows(init, ledger, filter, today, r);
      assert employees == init + [employees[|employees| - 1]];
    }
  }

  /**
   * With a status filter, every shown check has the requested status or has
   * never been done.
   */
  lemma ListingRespectsFilter(employees: seq<EmployeeEntry>, ledger: map<CheckKey, Entry>,
                              filter: string, today: int, r: ListingRow, c: CheckLine)
    requires filter != ""
    requires r in Listing(employees, ledger, filter, today) && c in r.checks
    ensures StatusName(c.status) == filter || c.status == Never
  {
    ListingRows(employees, ledger, filter, today, r);
    var e :| e in employees
             && r == ListingRow(e.employeeId, EmployeeLines(e, ledger, filter, today))
             && Shown(EmployeeLines(e, ledger, filter, today), filter);
    if c in KeptLines(e.employeeId, Training, e.trainings, ledger, filter, today) {
      KeptLinesMembership(e.employeeId, Training, e.trainings, ledger, filter, today, c);
    } else {
      KeptLinesMembership(e.employeeId, Hazard, e.hazards, ledger, filter, today, c);
    }
  }

  /**
   * Without a filter every queried employee gets a row, in query order, with
   * every training line followed by every hazard line.
   */
  lemma {:induction false} ListingUnfiltered(employees: seq<EmployeeEntry>, ledger: map<CheckKey, Entry>, today: int)
    ensures |Listing(employees, ledger, "", today)| == |employees|
    ensures forall n :: 0 <= n < |employees| ==>
              Listing(employees, ledger, "", today)[n]
              == ListingRow(employees[n].employeeId,
                            AllLines(employees[n].employeeId, Training, employees[n].trainings, ledger, today)
                            + AllLines(employees[n].employeeId, Hazard, employees[n].hazards, ledger, today))
  {
    if employees != [] {
      var init := employees[..|employees| - 1];
      var e := employees[|employees| - 1];
      ListingUnfiltered(init, ledger, today);
      KeptLinesUnfiltered(e.employeeId, Training, e.trainings, ledger, today);
      KeptLinesUnfiltered(e.employeeId, Hazard, e.hazards, ledger, today);
      var lines := EmployeeLines(e, ledger, "", today);
      assert Shown(lines, "");
      var page := Listing(employees, ledger, "", today);
      assert page == Listing(init, ledger, "", today) + [ListingRow(e.employeeId, lines)];
      forall n | 0 <= n < |employees|
        ensures page[n] == ListingRow(employees[n].employeeId,
                                      AllLines(employees[n].employeeId, Training, employees[n].trainings, ledger, today)
                                      + AllLines(employees[n].employeeId, Hazard, employees[n].hazards, ledger, today))
      {
        if n < |init| {
          assert init[n] == employees[n];
        }
      }
    }
  }

  lemma ListingStep(employees: seq<EmployeeEntry>, n: nat, ledger: map<CheckKey, Entry>, filter: string, today: int)
    requires n < |employees|
    ensures var lines := EmployeeLines(employees[n], ledger, filter, today);
            Listing(employees[..n + 1], ledger, filter, today)
            == Listing(employees[..n], ledger, filter, today)
               + (if Shown(lines, filter) then [ListingRow(employees[n].employeeId, lines)] else [])
  {
    assert employees[..n + 1][..n] == employees[..n];
  }

  lemma KeptLinesStep(employeeId: int, kind: Kind, assignments: seq<Assignment>, i: nat,
                      ledger: map<CheckKey, Entry>, filter: string, today: int)
    requires i < |assignments|
    ensures var line := Line(employeeId, kind, assignments[i], ledger, today);
            KeptLines(employeeId, kind, assignments[..i + 1], ledger, filter, today)
            == KeptLines(employeeId, kind, assignments[..i], ledger, filter, today)
               + (if Kept(line.status, filter) then [line] else [])
  {
    assert assignments[..i + 1][..i] == assignments[..i];
  }

  /**
   * One of the two inner loops of `index`: evaluates each assignment of one
   * kind, skips the lines the filter rejects, appends the others to
   * `checks` and raises `showEmployee` for each line appended.
   */
  method AppendChecks(employeeId: int, kind: Kind, assignments: seq<Assignment>,
                      ledger: map<CheckKey, Entry>, filter: string, today: int,
                      checks0: seq<CheckLine>, show0: bool)
    returns (checks: seq<CheckLine>, showEmployee: bool)
    ensures checks == checks0 + KeptLines(employeeId, kind, assignments, ledger, filter, today)
    ensures showEmployee <==> show0 || |checks| > |checks0|
  {
    checks, showEmployee := checks0, show0;
    for i := 0 to |assignments|
      invariant checks == checks0 + KeptLines(employeeId, kind, assignments[..i], ledger, filter, today)
      invariant showEmployee <==> show0 || |checks| > |checks0|
    {
      KeptLinesStep(employeeId, kind, assignments, i, ledger, filter, today);
      var line := Line(employeeId, kind, assignments[i], ledger, today);
      if !Kept(line.status, filter) {
        continue;
      }
      showEmployee := true;
      checks := checks + [line];
      assert checks == checks0 + (KeptLines(employeeId, kind, assignments[..i], ledger, filter, today) + [line]);
    }
    assert assignments[..|assignments|] == assignments;
  }

  /** The loop of `index` over the queried employees, appending a row per shown employee. */
  method BuildListing(employees: seq<EmployeeEntry>, ledger: map<CheckKey, Entry>, filter: string, today: int)
    returns (data: seq<ListingRow>)
    ensures data == Listing(employees, ledger, filter, today)
  {
    data := [];
    for n := 0 to |employees|
      invariant data == Listing(employees[..n], ledger, filter, today)
    {
      var emp := employees[n];
      var checks, showEmployee := AppendChecks(emp.employeeId, Training, emp.trainings, ledger, filter, today, [], false);
      ghost var trainingLines := checks;
      assert trainingLines == KeptLines(emp.employeeId, Training, emp.trainings, ledger, filter, today);
      checks, showEmployee := AppendChecks(emp.employeeId, Hazard, emp.hazards, ledger, filter, today, checks, showEmployee);
      assert checks == EmployeeLines(emp, ledger, filter, today);
      ListingStep(employees, n, ledger, filter, today);
      assert Shown(checks, filter) <==> showEmployee || filter == "";
      if showEmployee || filter == "" {
        data := data + [ListingRow(emp.employeeId, checks)];
      }
    }
    assert employees[..|employees|] == employees;
  }
}
