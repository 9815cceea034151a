/**
 * The application's tables and the operations that change them: saving an
 * employee (seeding its assignments when it is new), the hazard catalog
 * (add, edit, guarded delete), setting a completion date in the ledger,
 * and reading the listing page.
 */
module Store {
  import opened Common
  import opened Ledger
  import Listing

  datatype Employee = Employee(id: int, fullName: string, position: string)
  datatype Hazard = Hazard(id: int, name: string, periodicity: int)
  datatype TrainingType = TrainingType(id: int, name: string, defaultPeriodicity: int)
  datatype EmployeeHazard = EmployeeHazard(id: int, employeeId: int, hazardId: int, periodicity: int)
  datatype EmployeeTraining = EmployeeTraining(id: int, employeeId: int, trainingTypeId: int, periodicity: int)

  datatype SaveResult = Created(id: int) | Updated(id: int) | UnknownHazard(hazardId: int)
  datatype DeleteResult = Deleted | InUse | NotFound

  /** `query.get(id)` on a table whose primary key is `key`: the position of the row with key `id`. */
  function IndexOf<T>(rows: seq<T>, key: T -> int, id: int): (r: Option<nat>)
    ensures r == None <==> forall i :: 0 <= i < |rows| ==> key(rows[i]) != id
    ensures r != None ==> r.value < |rows| && key(rows[r.value]) == id
  {
    if rows == [] then None
    else if key(rows[0]) == id then Some(0)
    else match IndexOf(rows[1..], key, id)
      case None => None
      case Some(i) => Some(i + 1)
  }

  function EmployeeId(e: Employee): int { e.id }
  function HazardId(h: Hazard): int { h.id }
  function TrainingTypeId(t: TrainingType): int { t.id }

  /** `Employee.query.get(id)`: the position of the employee with primary key `id`. */
  function EmployeeIndex(employees: seq<Employee>, id: int): (r: Option<nat>)
    ensures r == None <==> forall i :: 0 <= i < |employees| ==> employees[i].id != id
    ensures r != None ==> r.value < |employees| && employees[r.value].id == id
  {
    IndexOf(employees, EmployeeId, id)
  }

  /** `Hazard.query.get(id)`: the position of the hazard with primary key `id`. */
  function HazardIndex(hazards: seq<Hazard>, id: int): (r: Option<nat>)
    ensures r == None <==> forall i :: 0 <= i < |hazards| ==> hazards[i].id != id
    ensures r != None ==> r.value < |hazards| && hazards[r.value].id == id
  {
    IndexOf(hazards, HazardId, id)
  }

  /** The position of the training type with primary key `id`. */
  function TrainingTypeIndex(types: seq<TrainingType>, id: int): (r: Option<nat>)
    ensures r == None <==> forall i :: 0 <= i < |types| ==> types[i].id != id
    ensures r != None ==> r.value < |types| && types[r.value].id == id
  {
    IndexOf(types, TrainingTypeId, id)
  }

  /** `Employee.query.get(id) if id else None`: the employee to edit, if any. */
  function ExistingEmployee(employees: seq<Employee>, id: Option<int>): (r: Option<nat>)
    ensures id == None || id.value == 0 ==> r == None
    ensures id != None && id.value != 0 ==>
              (r == None <==> forall i :: 0 <= i < |employees| ==> employees[i].id != id.value)
    ensures r != None ==> r.value < |employees| && employees[r.value].id == id.value
  {
    if id != None && id.value != 0 then EmployeeIndex(employees, id.value) else None
  }

  /** Some assignment references the hazard. */
  predicate Referenced(assignments: seq<EmployeeHazard>, hazardId: int)
  {
    exists i :: 0 <= i < |assignments| && assignments[i].hazardId == hazardId
  }

  /** `EmployeeHazard.query.filter_by(hazard_id=id).first()`: the first assignment of the hazard. */
  function FirstReference(assignments: seq<EmployeeHazard>, hazardId: int): (r: Option<nat>)
    ensures r == None <==> !Referenced(assignments, hazardId)
    ensures r != None ==>
              && r.value < |assignments| && assignments[r.value].hazardId == hazardId
              && forall i :: 0 <= i < r.value ==> assignments[i].hazardId != hazardId
  {
    if assignments == [] then None
    else if assignments[0].hazardId == hazardId then Some(0)
    else match FirstReference(assignments[1..], hazardId)
      case None => None
      case Some(i) => Some(i + 1)
  }

  /** Every selected hazard id names a hazard of the catalog. */
  predicate AllKnown(hazards: seq<Hazard>, selected: seq<int>)
  {
    forall i :: 0 <= i < |selected| ==> HazardIndex(hazards, selected[i]) != None
  }

  /** `int(request.form.get(f'training_{tr.id}', tr.default_periodicity))`. */
  function SubmittedOrDefault(t: TrainingType, submitted: map<int, int>): (period: int)
    ensures t.id in submitted ==> period == submitted[t.id]
    ensures t.id !in submitted ==> period == t.defaultPeriodicity
  {
    if t.id in submitted then submitted[t.id] else t.defaultPeriodicity
  }

  /**
   * The training assignments created for a new employee: one per training
   * type of the catalog, in catalog order, with consecutive row ids from
   * `firstId`.
   */
  function SeedTrainings(types: seq<TrainingType>, employeeId: int, submitted: map<int, int>, firstId: int)
    : (rows: seq<EmployeeTraining>)
    ensures |rows| == |types|
    ensures forall i :: 0 <= i < |rows| ==>
              rows[i].id == firstId + i && rows[i].employeeId == employeeId
              && rows[i].trainingTypeId == types[i].id
              && rows[i].periodicity == SubmittedOrDefault(types[i], submitted)
  {
    if types == [] then []
    else
      var t := types[|types| - 1];
      SeedTrainings(types[..|types| - 1], employeeId, submitted, firstId)
        + [EmployeeTraining(firstId + |types| - 1, employeeId, t.id, SubmittedOrDefault(t, submitted))]
  }

  /**
   * The hazard assignments created for a new employee: one per selected
   * hazard id, in the order submitted, each copying the catalog periodicity
   * the hazard has at that moment.
   */
  function SeedHazards(hazards: seq<Hazard>, selected: seq<int>, employeeId: int, firstId: int)
    : (rows: seq<EmployeeHazard>)
    requires AllKnown(hazards, selected)
    ensures |rows| == |selected|
    ensures forall i :: 0 <= i < |rows| ==>
              rows[i].id == firstId + i && rows[i].employeeId == employeeId
              && rows[i].hazardId == selected[i]
              && rows[i].periodicity == hazards[HazardIndex(hazards, selected[i]).value].periodicity
  {
    if selected == [] then []
    else
      var h := hazards[HazardIndex(hazards, selected[|selected| - 1]).value];
      SeedHazards(hazards, selected[..|selected| - 1], employeeId, firstId)
        + [EmployeeHazard(firstId + |selected| - 1, employeeId, h.id, h.periodicity)]
  }

  /** A new employee gets exactly one assignment for each training type of the catalog. */
  lemma SeedTrainingsOnePerType(types: seq<TrainingType>, employeeId: int, submitted: map<int, int>, firstId: int)
    requires forall i, j :: 0 <= i < j < |types| ==> types[i].id < types[j].id
    ensures var rows := SeedTrainings(types, employeeId, submitted, firstId);
            forall i, j :: 0 <= i < |types| && 0 <= j < |rows| ==>
              (rows[j].trainingTypeId == types[i].id <==> i == j)
  {
  }

  /** Every training assignment names a training type of the catalog. */
  predicate TrainingTypesKnown(rows: seq<EmployeeTraining>, types: seq<TrainingType>)
  {
    forall i :: 0 <= i < |rows| ==> TrainingTypeIndex(types, rows[i].trainingTypeId) != None
  }

  /** Every hazard assignment names a hazard of the catalog. */
  predicate HazardsKnown(rows: seq<EmployeeHazard>, hazards: seq<Hazard>)
  {
    forall i :: 0 <= i < |rows| ==> HazardIndex(hazards, rows[i].hazardId) != None
  }

  /** `emp.employee_trainings` in table order, each joined with its training type's name. */
  function TrainingsOf(rows: seq<EmployeeTraining>, types: seq<TrainingType>, employeeId: int)
    : (loaded: seq<Listing.Assignment>)
    requires TrainingTypesKnown(rows, types)
    ensures |loaded| <= |rows|
  {
    if rows == [] then []
    else
      var et := rows[|rows| - 1];
      TrainingsOf(rows[..|rows| - 1], types, employeeId)
        + if et.employeeId == employeeId
          then [JoinTraining(et, types)]
          else []
  }

  /** One `employee_trainings` row as the listing sees it: its id, its type's name and its own periodicity. */
  function JoinTraining(et: EmployeeTraining, types: seq<TrainingType>): Listing.Assignment
    requires TrainingTypeIndex(types, et.trainingTypeId) != None
  {
    Listing.Assignment(et.id, types[TrainingTypeIndex(types, et.trainingTypeId).value].name, et.periodicity)
  }

  /** The loaded trainings are exactly the employee's own rows, joined. */
  lemma {:induction false} TrainingsOfMembership(rows: seq<EmployeeTraining>, types: seq<TrainingType>,
                                                 employeeId: int, a: Listing.Assignment)
    requires TrainingTypesKnown(rows, types)
    ensures a in TrainingsOf(rows, types, employeeId) <==>
      exists i :: 0 <= i < |rows| && rows[i].employeeId == employeeId && a == JoinTraining(rows[i], types)
  {
    if rows != [] {
      var prefix := rows[..|rows| - 1];
      var last := rows[|rows| - 1];
      TrainingsOfMembership(prefix, types, employeeId, a);
      assert TrainingsOf(rows, types, employeeId)
          == TrainingsOf(prefix, types, employeeId) + if last.employeeId == employeeId then [JoinTraining(last, types)] else [];
      forall i | 0 <= i < |prefix|
        ensures prefix[i] == rows[i]
      {
      }
      if exists i :: 0 <= i < |rows| && rows[i].employeeId == employeeId && a == JoinTraining(rows[i], types) {
        var i :| 0 <= i < |rows| && rows[i].employeeId == employeeId && a == JoinTraining(rows[i], types);
        if i == |prefix| {
          assert rows[i] == last;
        }
      }
    }
  }

  /** `emp.employee_hazards` in table order, each joined with its hazard's name. */
  function HazardsOf(rows: seq<EmployeeHazard>, hazards: seq<Hazard>, employeeId: int)
    : (loaded: seq<Listing.Assignment>)
    requires HazardsKnown(rows, hazards)
    ensures |loaded| <= |rows|
  {
    if rows == [] then []
    else
      var eh := rows[|rows| - 1];
      HazardsOf(rows[..|rows| - 1], hazards, employeeId)
        + if eh.employeeId == employeeId
          then [JoinHazard(eh, hazards)]
          else []
  }

  /** One `employee_hazards` row as the listing sees it: its id, its hazard's name and its own periodicity. */
  function JoinHazard(eh: EmployeeHazard, hazards: seq<Hazard>): Listing.Assignment
    requires HazardIndex(hazards, eh.hazardId) != None
  {
    Listing.Assignment(eh.id, hazards[HazardIndex(hazards, eh.hazardId).value].name, eh.periodicity)
  }

  /** The loaded hazards are exactly the employee's own rows, joined. */
  lemma {:induction false} HazardsOfMembership(rows: seq<EmployeeHazard>, hazards: seq<Hazard>,
                                               employeeId: int, a: Listing.Assignment)
    requires HazardsKnown(rows, hazards)
    ensures a in HazardsOf(rows, hazards, employeeId) <==>
      exists i :: 0 <= i < |rows| && rows[i].employeeId == employeeId && a == JoinHazard(rows[i], hazards)
  {
    if rows != [] {
      var prefix := rows[..|rows| - 1];
      var last := rows[|rows| - 1];
      HazardsOfMembership(prefix, hazards, employeeId, a);
      assert HazardsOf(rows, hazards, employeeId)
          == HazardsOf(prefix, hazards, employeeId) + if last.employeeId == employeeId then [JoinHazard(last, hazards)] else [];
      forall i | 0 <= i < |prefix|
        ensures prefix[i] == rows[i]
      {
      }
      if exists i :: 0 <= i < |rows| && rows[i].employeeId == employeeId && a == JoinHazard(rows[i], hazards) {
        var i :| 0 <= i < |rows| && rows[i].employeeId == employeeId && a == JoinHazard(rows[i], hazards);
        if i == |prefix| {
          assert rows[i] == last;
        }
      }
    }
  }

  ghost predicate EmployeesValid(employees: seq<Employee>, nextId: int)
  {
    && (forall i, j :: 0 <= i < j < |employees| ==> employees[i].id < employees[j].id)
    && (forall i :: 0 <= i < |employees| ==> employees[i].id < nextId)
  }

  ghost predicate HazardsValid(hazards: seq<Hazard>, nextId: int)
  {
    && (forall i, j :: 0 <= i < j < |hazards| ==> hazards[i].id < hazards[j].id)
    && (forall i :: 0 <= i < |hazards| ==> hazards[i].id < nextId)
  }

  ghost predicate TrainingTypesValid(types: seq<TrainingType>)
  {
    forall i, j :: 0 <= i < j < |types| ==> types[i].id < types[j].id
  }

  ghost predicate HazardRowsValid(rows: seq<EmployeeHazard>, employees: seq<Employee>, hazards: seq<Hazard>, nextId: int)
  {
    && nextId == |rows| + 1
    && (forall i :: 0 <= i < |rows| ==> rows[i].id == i + 1 && EmployeeIndex(employees, rows[i].employeeId) != None)
    && HazardsKnown(rows, hazards)
  }

  ghost predicate TrainingRowsValid(rows: seq<EmployeeTraining>, employees: seq<Employee>, types: seq<TrainingType>, nextId: int)
  {
    && nextId == |rows| + 1
    && (forall i :: 0 <= i < |rows| ==> rows[i].id == i + 1 && EmployeeIndex(employees, rows[i].employeeId) != None)
    && TrainingTypesKnown(rows, types)
  }

  /** Replacing an employee row by one with the same id keeps the set of ids that can be found. */
  lemma EmployeeReplaceKeepsIds(employees: seq<Employee>, i: nat, e: Employee)
    requires i < |employees| && e.id == employees[i].id
    ensures forall x :: EmployeeIndex(employees[i := e], x) == EmployeeIndex(employees, x)
  {
    forall x ensures EmployeeIndex(employees[i := e], x) == EmployeeIndex(employees, x) {
      EmployeeReplaceKeepsId(employees, i, e, x);
    }
  }

  lemma {:induction false} EmployeeReplaceKeepsId(employees: seq<Employee>, i: nat, e: Employee, x: int)
    requires i < |employees| && e.id == employees[i].id
    ensures EmployeeIndex(employees[i := e], x) == EmployeeIndex(employees, x)
  {
    if i > 0 {
      assert employees[i := e][1..] == employees[1..][i - 1 := e];
      EmployeeReplaceKeepsId(employees[1..], i - 1, e, x);
    } else {
      assert employees[i := e][1..] == employees[1..];
    }
  }

  /** Appending an employee row keeps every id that could be found, and makes the new one findable. */
  lemma EmployeeAppendKeepsIds(employees: seq<Employee>, e: Employee)
    ensures EmployeeIndex(employees + [e], e.id) != None
    ensures forall x :: EmployeeIndex(employees, x) != None ==> EmployeeIndex(employees + [e], x) != None
  {
    assert (employees + [e])[|employees|].id == e.id;
    forall x | EmployeeIndex(employees, x) != None
      ensures EmployeeIndex(employees + [e], x) != None
    {
      assert (employees + [e])[EmployeeIndex(employees, x).value].id == x;
    }
  }

  /**
   * Removing the hazard at position `i` (ids increasing) makes its id
   * unfindable and keeps every other id findable exactly as before.
   */
  lemma HazardRemoval(hazards: seq<Hazard>, i: nat)
    requires i < |hazards|
    requires forall j, k :: 0 <= j < k < |hazards| ==> hazards[j].id < hazards[k].id
    ensures var rest := hazards[..i] + hazards[i + 1..];
            && (forall j, k :: 0 <= j < k < |rest| ==> rest[j].id < rest[k].id)
            && HazardIndex(rest, hazards[i].id) == None
            && forall x :: x != hazards[i].id ==> (HazardIndex(rest, x) != None <==> HazardIndex(hazards, x) != None)
  {
    var rest := hazards[..i] + hazards[i + 1..];
    assert forall j :: 0 <= j < |rest| ==> rest[j] == if j < i then hazards[j] else hazards[j + 1];
    forall x | x != hazards[i].id
      ensures HazardIndex(rest, x) != None <==> HazardIndex(hazards, x) != None
    {
      if HazardIndex(hazards, x) != None {
        var j := HazardIndex(hazards, x).value;
        if j < i {
          assert rest[j].id == x;
        } else {
          assert rest[j - 1].id == x;
        }
      }
    }
  }

  /** Removing a hazard that no assignment references keeps the catalog and the assignments consistent. */
  lemma HazardRowsAfterRemoval(rows: seq<EmployeeHazard>, employees: seq<Employee>, hazards: seq<Hazard>,
                               nextRowId: int, nextHazardId: int, i: nat)
    requires i < |hazards| && !Referenced(rows, hazards[i].id)
    requires HazardsValid(hazards, nextHazardId) && HazardRowsValid(rows, employees, hazards, nextRowId)
    ensures var rest := hazards[..i] + hazards[i + 1..];
            HazardsValid(rest, nextHazardId) && HazardRowsValid(rows, employees, rest, nextRowId)
  {
    HazardRemoval(hazards, i);
    var rest := hazards[..i] + hazards[i + 1..];
    assert forall j :: 0 <= j < |rest| ==> rest[j] == if j < i then hazards[j] else hazards[j + 1];
    forall k | 0 <= k < |rows|
      ensures HazardIndex(rest, rows[k].hazardId) != None
    {
      assert rows[k].hazardId != hazards[i].id;
    }
  }

  /** An employee added with the next primary key keeps the employee table consistent. */
  lemma EmployeesAfterAppend(employees: seq<Employee>, nextId: int, e: Employee)
    requires EmployeesValid(employees, nextId) && e.id == nextId
    ensures EmployeesValid(employees + [e], nextId + 1)
  {
  }

  /** Adding an employee row keeps every assignment pointing at a live employee. */
  lemma RowsAfterEmployeeAppend(hazardRows: seq<EmployeeHazard>, trainingRows: seq<EmployeeTraining>,
                                employees: seq<Employee>, hazards: seq<Hazard>, types: seq<TrainingType>,
                                nextHazardRowId: int, nextTrainingRowId: int, e: Employee)
    requires HazardRowsValid(hazardRows, employees, hazards, nextHazardRowId)
    requires TrainingRowsValid(trainingRows, employees, types, nextTrainingRowId)
    ensures HazardRowsValid(hazardRows, employees + [e], hazards, nextHazardRowId)
    ensures TrainingRowsValid(trainingRows, employees + [e], types, nextTrainingRowId)
  {
    EmployeeAppendKeepsIds(employees, e);
  }

  /** The seeded training rows of an existing employee keep the assignment table consistent. */
  lemma TrainingRowsAfterSeed(rows: seq<EmployeeTraining>, employees: seq<Employee>, types: seq<TrainingType>,
                              nextId: int, employeeId: int, submitted: map<int, int>)
    requires TrainingRowsValid(rows, employees, types, nextId) && EmployeeIndex(employees, employeeId) != None
    ensures TrainingRowsValid(rows + SeedTrainings(types, employeeId, submitted, nextId), employees, types,
                              nextId + |types|)
  {
    var seeded := SeedTrainings(types, employeeId, submitted, nextId);
    forall k | 0 <= k < |seeded|
      ensures TrainingTypeIndex(types, seeded[k].trainingTypeId) != None
    {
      assert types[k].id == seeded[k].trainingTypeId;
    }
  }

  /** The seeded hazard rows of an existing employee keep the assignment table consistent. */
  lemma HazardRowsAfterSeed(rows: seq<EmployeeHazard>, employees: seq<Employee>, hazards: seq<Hazard>,
                            nextId: int, employeeId: int, selected: seq<int>)
    requires HazardRowsValid(rows, employees, hazards, nextId) && AllKnown(hazards, selected)
    requires EmployeeIndex(employees, employeeId) != None
    ensures HazardRowsValid(rows + SeedHazards(hazards, selected, employeeId, nextId), employees, hazards,
                            nextId + |selected|)
  {
  }

  /**
   * The loop over `TrainingType.query.all()` in `edit_employee`: one
   * pending assignment per training type.
   */
  method CollectTrainings(types: seq<TrainingType>, employeeId: int, submitted: map<int, int>, firstId: int)
    returns (rows: seq<EmployeeTraining>)
    ensures rows == SeedTrainings(types, employeeId, submitted, firstId)
  {
    rows := [];
    var rowId := firstId;
    for k := 0 to |types|
      invariant rows == SeedTrainings(types[..k], employeeId, submitted, firstId)
      invariant rowId == firstId + k
    {
      assert types[..k + 1][..k] == types[..k];
      var tr := types[k];
      var period := if tr.id in submitted then submitted[tr.id] else tr.defaultPeriodicity;
      rows := rows + [EmployeeTraining(rowId, employeeId, tr.id, period)];
      rowId := rowId + 1;
    }
    assert types[..|types|] == types;
  }

  /**
   * The loop over `request.form.getlist('hazards')` in `edit_employee`: one
   * pending assignment per selected hazard id, copying the hazard's current
   * periodicity; stops at the first id with no hazard and reports it.
   */
  method CollectHazards(hazards: seq<Hazard>, selected: seq<int>, employeeId: int, firstId: int)
    returns (rows: seq<EmployeeHazard>, missing: Option<int>)
    ensures missing == None <==> AllKnown(hazards, selected)
    ensures missing == None ==> rows == SeedHazards(hazards, selected, employeeId, firstId)
    ensures missing != None ==>
              exists k :: 0 <= k < |selected| && selected[k] == missing.value
                && HazardIndex(hazards, missing.value) == None && AllKnown(hazards, selected[..k])
  {
    rows := [];
    var rowId := firstId;
    for k := 0 to |selected|
      invariant AllKnown(hazards, selected[..k])
      invariant rows == SeedHazards(hazards, selected[..k], employeeId, firstId)
      invariant rowId == firstId + k
    {
      assert selected[..k + 1][..k] == selected[..k];
      var found := HazardIndex(hazards, selected[k]);
      if found == None {
        return rows, Some(selected[k]);
      }
      var h := hazards[found.value];
      rows := rows + [EmployeeHazard(rowId, employeeId, h.id, h.periodicity)];
      rowId := rowId + 1;
    }
    assert selected[..|selected|] == selected;
    missing := None;
  }

  class Database {
    var employees: seq<Employee>
    var hazards: seq<Hazard>
    var trainingTypes: seq<TrainingType>
    var employeeHazards: seq<EmployeeHazard>
    var employeeTrainings: seq<EmployeeTraining>
    var checks: seq<CheckRow>
    // The next primary key of each table that gains rows.
    var nextEmployeeId: int
    var nextHazardId: int
    var nextEmployeeHazardId: int
    var nextEmployeeTrainingId: int

    /**
     * Primary keys grow with insertion order and stay below the next key;
     * every assignment points at a live employee and a live catalog entry;
     * the ledger has at most one row per key.
     */
    ghost predicate Valid()
      reads this
    {
      && EmployeesValid(employees, nextEmployeeId)
      && HazardsValid(hazards, nextHazardId)
      && TrainingTypesValid(trainingTypes)
      && HazardRowsValid(employeeHazards, employees, hazards, nextEmployeeHazardId)
      && TrainingRowsValid(employeeTrainings, employees, trainingTypes, nextEmployeeTrainingId)
      && UniqueKeys(checks)
    }

    /** A database holding the given catalogs and nothing else (the seed data itself is not modelled). */
    constructor (trainingTypes: seq<TrainingType>, hazards: seq<Hazard>)
      requires forall i, j :: 0 <= i < j < |trainingTypes| ==> trainingTypes[i].id < trainingTypes[j].id
      requires forall i, j :: 0 <= i < j < |hazards| ==> hazards[i].id < hazards[j].id
      ensures Valid()
      ensures this.trainingTypes == trainingTypes && this.hazards == hazards
      ensures employees == [] && employeeHazards == [] && employeeTrainings == [] && checks == []
    {
      this.trainingTypes := trainingTypes;
      this.hazards := hazards;
      employees, employeeHazards, employeeTrainings, checks := [], [], [], [];
      nextEmployeeId, nextEmployeeHazardId, nextEmployeeTrainingId := 1, 1, 1;
      nextHazardId := if hazards == [] then 1 else hazards[|hazards| - 1].id + 1;
    }

    /**
     * `set_date`: with a date, overwrite the first row of the key or add
     * one; without a date, delete the key's row if there is one.
     */
    method SetDate(employeeId: int, kind: string, kindId: int, date: Option<int>, document: string)
      requires Valid()
      modifies this`checks
      ensures Valid()
      ensures var key := CheckKey(employeeId, kind, kindId);
              date != None ==> View(checks) == old(View(checks))[key := Entry(date, StoredDocument(document))]
      ensures var key := CheckKey(employeeId, kind, kindId);
              date == None ==> View(checks) == old(View(checks)) - {key}
      ensures var key := CheckKey(employeeId, kind, kindId);
              date == None && key !in old(View(checks)) ==> checks == old(checks)
    {
      var key := CheckKey(employeeId, kind, kindId);
      ViewLookup(checks, key);
      var found := FirstIndex(checks, key);
      if date != None {
        var entry := Entry(date, StoredDocument(document));
        match found
        case Some(i) =>
          ViewOverwrite(checks, i, entry);
          checks := checks[i := CheckRow(key, entry)];
        case None =>
          ViewAppend(checks, CheckRow(key, entry));
          checks := checks + [CheckRow(key, entry)];
      } else {
        match found
        case Some(i) =>
          ViewRemove(checks, i);
          checks := checks[..i] + checks[i + 1..];
        case None =>
      }
    }

    /**
     * `edit_employee` on POST. An existing employee (a non-zero id that is
     * found) only gets its name and position changed. Otherwise a new
     * employee is created with one training assignment per training type
     * and one hazard assignment per selected hazard id; the rows are
     * pending session additions committed together, so an unknown hazard
     * id (the code dereferences None there) leaves nothing behind.
     */
    method SaveEmployee(id: Option<int>, fullName: string, position: string,
                        submittedPeriods: map<int, int>, selectedHazards: seq<int>)
      returns (result: SaveResult)
      requires Valid()
      modifies this
      ensures Valid()
      ensures hazards == old(hazards) && trainingTypes == old(trainingTypes) && checks == old(checks)
      ensures nextHazardId == old(nextHazardId)
      ensures !result.Created? ==>
                && nextEmployeeId == old(nextEmployeeId)
                && nextEmployeeTrainingId == old(nextEmployeeTrainingId)
                && nextEmployeeHazardId == old(nextEmployeeHazardId)
      ensures var found := ExistingEmployee(old(employees), id);
              found != None ==>
                && result == Updated(id.value)
                && employees == old(employees)[found.value := Employee(id.value, fullName, position)]
                && employeeHazards == old(employeeHazards)
                && employeeTrainings == old(employeeTrainings)
      ensures ExistingEmployee(old(employees), id) == None && !AllKnown(hazards, selectedHazards) ==>
                && result.UnknownHazard?
                && (exists k :: 0 <= k < |selectedHazards| && selectedHazards[k] == result.hazardId
                      && HazardIndex(hazards, result.hazardId) == None
                      && AllKnown(hazards, selectedHazards[..k]))
                && employees == old(employees)
                && employeeHazards == old(employeeHazards)
                && employeeTrainings == old(employeeTrainings)
      ensures ExistingEmployee(old(employees), id) == None && AllKnown(hazards, selectedHazards) ==>
                var newId := old(nextEmployeeId);
                && result == Created(newId)
                && employees == old(employees) + [Employee(newId, fullName, position)]
                && employeeTrainings
                   == old(employeeTrainings)
                      + SeedTrainings(trainingTypes, newId, submittedPeriods, old(nextEmployeeTrainingId))
                && employeeHazards
                   == old(employeeHazards)
                      + SeedHazards(hazards, selectedHazards, newId, old(nextEmployeeHazardId))
                && nextEmployeeId == newId + 1
                && nextEmployeeTrainingId == old(nextEmployeeTrainingId) + |trainingTypes|
                && nextEmployeeHazardId == old(nextEmployeeHazardId) + |selectedHazards|
    {
      var found := ExistingEmployee(employees, id);
      if found != None {
        Rename(found.value, fullName, position);
        return Updated(id.value);
      }
      var employeeId := nextEmployeeId;
      var trainingRows := CollectTrainings(trainingTypes, employeeId, submittedPeriods, nextEmployeeTrainingId);
      var hazardRows, missing := CollectHazards(hazards, selectedHazards, employeeId, nextEmployeeHazardId);
      if missing != None {
        return UnknownHazard(missing.value);
      }
      Commit(Employee(employeeId, fullName, position), submittedPeriods, selectedHazards, trainingRows, hazardRows);
      result := Created(employeeId);
    }

    /** The existing employee at position `i` takes a new name and position; nothing else changes. */
    method Rename(i: nat, fullName: string, position: string)
      requires Valid() && i < |employees|
      modifies this`employees
      ensures Valid()
      ensures employees == old(employees)[i := Employee(old(employees)[i].id, fullName, position)]
    {
      var e := Employee(employees[i].id, fullName, position);
      EmployeeReplaceKeepsIds(employees, i, e);
      employees := employees[i := e];
    }

    /** The commit of a new employee: the employee row and its pending assignment rows. */
    method Commit(e: Employee, submitted: map<int, int>, selected: seq<int>,
                  trainingRows: seq<EmployeeTraining>, hazardRows: seq<EmployeeHazard>)
      requires Valid() && e.id == nextEmployeeId && AllKnown(hazards, selected)
      requires trainingRows == SeedTrainings(trainingTypes, e.id, submitted, nextEmployeeTrainingId)
      requires hazardRows == SeedHazards(hazards, selected, e.id, nextEmployeeHazardId)
      modifies this`employees, this`employeeTrainings, this`employeeHazards,
               this`nextEmployeeId, this`nextEmployeeTrainingId, this`nextEmployeeHazardId
      ensures Valid()
      ensures employees == old(employees) + [e]
      ensures employeeTrainings == old(employeeTrainings) + trainingRows
      ensures employeeHazards == old(employeeHazards) + hazardRows
      ensures nextEmployeeId == e.id + 1
      ensures nextEmployeeTrainingId == old(nextEmployeeTrainingId) + |trainingRows|
      ensures nextEmployeeHazardId == old(nextEmployeeHazardId) + |hazardRows|
    {
      AppendEmployee(e);
      AppendTrainingRows(e.id, submitted, trainingRows);
      AppendHazardRows(e.id, selected, hazardRows);
    }

    /** The new employee row, with the next employee key. */
    method AppendEmployee(e: Employee)
      requires Valid() && e.id == nextEmployeeId
      modifies this`employees, this`nextEmployeeId
      ensures Valid()
      ensures employees == old(employees) + [e] && nextEmployeeId == e.id + 1
      ensures EmployeeIndex(employees, e.id) != None
    {
      EmployeesAfterAppend(employees, nextEmployeeId, e);
      RowsAfterEmployeeAppend(employeeHazards, employeeTrainings, employees, hazards, trainingTypes,
                              nextEmployeeHazardId, nextEmployeeTrainingId, e);
      EmployeeAppendKeepsIds(employees, e);
      employees := employees + [e];
      nextEmployeeId := e.id + 1;
    }

    /** The seeded training rows of a stored employee, with consecutive keys. */
    method AppendTrainingRows(employeeId: int, submitted: map<int, int>, rows: seq<EmployeeTraining>)
      requires Valid() && EmployeeIndex(employees, employeeId) != None
      requires rows == SeedTrainings(trainingTypes, employeeId, submitted, nextEmployeeTrainingId)
      modifies this`employeeTrainings, this`nextEmployeeTrainingId
      ensures Valid()
      ensures employeeTrainings == old(employeeTrainings) + rows
      ensures nextEmployeeTrainingId == old(nextEmployeeTrainingId) + |rows|
    {
      TrainingRowsAfterSeed(employeeTrainings, employees, trainingTypes, nextEmployeeTrainingId, employeeId, submitted);
      employeeTrainings := employeeTrainings + rows;
      nextEmployeeTrainingId := nextEmployeeTrainingId + |rows|;
    }

    /** The seeded hazard rows of a stored employee, with consecutive keys. */
    method AppendHazardRows(employeeId: int, selected: seq<int>, rows: seq<EmployeeHazard>)
      requires Valid() && EmployeeIndex(employees, employeeId) != None && AllKnown(hazards, selected)
      requires rows == SeedHazards(hazards, selected, employeeId, nextEmployeeHazardId)
      modifies this`employeeHazards, this`nextEmployeeHazardId
      ensures Valid()
      ensures employeeHazards == old(employeeHazards) + rows
      ensures nextEmployeeHazardId == old(nextEmployeeHazardId) + |rows|
    {
      HazardRowsAfterSeed(employeeHazards, employees, hazards, nextEmployeeHazardId, employeeId, selected);
      employeeHazards := employeeHazards + rows;
      nextEmployeeHazardId := nextEmployeeHazardId + |rows|;
    }

    /** `add_hazard`: a new catalog row with the next primary key. */
    method AddHazard(name: string, periodicity: int) returns (id: int)
      requires Valid()
      modifies this`hazards, this`nextHazardId
      ensures Valid()
      ensures id == old(nextHazardId) && HazardIndex(old(hazards), id) == None
      ensures hazards == old(hazards) + [Hazard(id, name, periodicity)]
      ensures nextHazardId == id + 1
    {
      id := nextHazardId;
      hazards := hazards + [Hazard(id, name, periodicity)];
      nextHazardId := id + 1;
      forall x | HazardIndex(old(hazards), x) != None
        ensures HazardIndex(hazards, x) != None
      {
        assert hazards[HazardIndex(old(hazards), x).value].id == x;
      }
    }

    /**
     * `edit_hazard`: the catalog row alone takes the new name and
     * periodicity; assignments keep the periodicity they were created with.
     */
    method EditHazard(id: int, name: string, periodicity: int) returns (found: bool)
      requires Valid()
      modifies this`hazards
      ensures Valid()
      ensures found <==> HazardIndex(old(hazards), id) != None
      ensures found ==> hazards == old(hazards)[HazardIndex(old(hazards), id).value := Hazard(id, name, periodicity)]
      ensures !found ==> hazards == old(hazards)
      ensures employeeHazards == old(employeeHazards)
    {
      var i := HazardIndex(hazards, id);
      found := i != None;
      if found {
        hazards := hazards[i.value := Hazard(id, name, periodicity)];
        forall x | HazardIndex(old(hazards), x) != None
          ensures HazardIndex(hazards, x) != None
        {
          assert hazards[HazardIndex(old(hazards), x).value].id == x;
        }
      }
    }

    /**
     * `delete_hazard`: a hazard that is found is removed only when no
     * assignment references it; otherwise nothing changes.
     */
    method DeleteHazard(id: int) returns (result: DeleteResult)
      requires Valid()
      modifies this`hazards
      ensures Valid()
      ensures HazardIndex(old(hazards), id) == None ==> result == NotFound && hazards == old(hazards)
      ensures HazardIndex(old(hazards), id) != None && Referenced(employeeHazards, id) ==>
                result == InUse && hazards == old(hazards)
      ensures HazardIndex(old(hazards), id) != None && !Referenced(employeeHazards, id) ==>
                var i := HazardIndex(old(hazards), id).value;
                result == Deleted && hazards == old(hazards)[..i] + old(hazards)[i + 1..]
      ensures result == Deleted ==>
                && HazardIndex(hazards, id) == None
                && forall x :: x != id ==> (HazardIndex(hazards, x) != None <==> HazardIndex(old(hazards), x) != None)
    {
      var found := HazardIndex(hazards, id);
      if found == None {
        return NotFound;
      }
      if FirstReference(employeeHazards, id) != None {
        return InUse;
      }
      var i := found.value;
      HazardRemoval(hazards, i);
      HazardRowsAfterRemoval(employeeHazards, employees, hazards, nextEmployeeHazardId, nextHazardId, i);
      hazards := hazards[..i] + hazards[i + 1..];
      result := Deleted;
    }

    /** The queried employees with their assignments, as the relationships load them. */
    function Entries(queried: seq<Employee>): (entries: seq<Listing.EmployeeEntry>)
      reads this
      requires TrainingTypesKnown(employeeTrainings, trainingTypes) && HazardsKnown(employeeHazards, hazards)
      ensures |entries| == |queried|
      ensures forall i :: 0 <= i < |queried| ==>
                && entries[i].employeeId == queried[i].id
                && entries[i].trainings == TrainingsOf(employeeTrainings, trainingTypes, queried[i].id)
                && entries[i].hazards == HazardsOf(employeeHazards, hazards, queried[i].id)
    {
      if queried == [] then []
      else
        var e := queried[|queried| - 1];
        Entries(queried[..|queried| - 1])
          + [Listing.EmployeeEntry(e.id, TrainingsOf(employeeTrainings, trainingTypes, e.id),
                                   HazardsOf(employeeHazards, hazards, e.id))]
    }

    /** `index`: the listing page for the employees the name and position filters selected. */
    method Index(queried: seq<Employee>, filter: string, today: int) returns (data: seq<Listing.ListingRow>)
      requires Valid()
      ensures data == Listing.Listing(Entries(queried), View(checks), filter, today)
    {
      data := Listing.BuildListing(Entries(queried), View(checks), filter, today);
    }
  }
}
