# CheckControl compliance core, in Dafny

CheckControl is a small Flask application. It tracks the periodic trainings
and medical examinations ("hazard checks") that an organisation's employees
must undergo. This project models the compliance logic of `app.py` without
Flask or SQLAlchemy, and proves properties of that model.

- **Status evaluator** (`Compliance`). Given the day a check was last done
  and its periodicity in months, it computes the next due day as
  `last + 30 * periodicity` days. The status is `never`, `overdue`, `soon`
  (due within 30 days) or `ok`.
- **Listing page** (`Listing`). For each queried employee it builds the
  evaluated checks, trainings first and then hazards. It drops checks that
  fail the status filter and decides whether the employee's row is shown.
  The spec is the function `Listing`; the method `BuildListing` is the
  loop of `index`, proved equal to it.
- **Compliance ledger** (`Ledger`, `Store.Database.SetDate`). This is the
  `EmployeeCheck` table, a sequence of rows looked up by
  (employee id, kind, assignment id). A lookup takes the first matching row,
  as `.first()` does. `View` is the key-to-entry map the application sees.
  `SetDate` overwrites, appends or deletes a row in place. It keeps at most
  one row per key and changes no other key.
- **Period labels** (`Period`, `Text`). `format_period` with its Russian
  unit words, plus a reader that inverts it.
- **Catalog and assignments** (`Store.Database`). A class holds the tables
  as sequence fields. Employees, hazards and the two assignment tables
  each have a primary-key counter; training types are a fixed catalog, and
  ledger rows carry no primary key. Saving a new employee seeds its
  assignments. Hazards can be added, edited and deleted; deletion is
  guarded. The object invariant `Valid` says that primary keys grow with
  insertion order in the employee, hazard, training type and assignment
  tables. For the two assignment tables the keys are exactly 1, 2, … in
  row order, because assignment rows are never deleted here
  (`delete_employee` is left out). So two assignments never share the id
  that keys their ledger record. It also says that every assignment points
  at a live employee and a live catalog entry.

Dates are whole day numbers. The code only adds whole days to dates, so no
calendar arithmetic is needed. The current day, the parsed date of
`set_date` and the stripped form fields are parameters.

Some behaviour of `app.py` worth knowing when reading the model:

- The due date is `last + 30 * P` days (app.py:117, 134), not calendar-month
  arithmetic.
- The look-ahead window is the same 30 days for trainings and hazards
  (app.py:118, 135).
- Editing a hazard changes only the catalog row (app.py:246-249). Its new
  periodicity is not copied to existing assignments; `EditHazard` states
  that `employeeHazards` is unchanged.
- Editing an existing employee changes only the name and position
  (app.py:194-197). No assignments are reconciled and no ledger rows are
  dropped.
- Employees have only a name and a position (app.py:12-15).
- The status filter is any string. A filter that names no status keeps only
  `never` checks.

Python's `months % 12` and `months // 12` round toward minus infinity.
For the positive divisor 12 they agree with Dafny's `%` and `/`, so negative
periods are rendered as Python renders them (`-24` gives `"-2 лет"`).

## Model

| member | source | states |
|---|---|---|
| `Compliance.Evaluate` | app.py:117-118 | No last date gives status `never` and no due date, and only that case does. Otherwise the due date is last + 30 × periodicity. The status is `overdue` iff due ≤ today, `soon` iff today < due ≤ today + 30, and `ok` iff due > today + 30, so exactly one applies. |
| `Compliance.StatusTimeline` | app.py:134-135 | A completed check is `ok` until 30 days before its due day, `soon` for the last 30 days, and `overdue` from the due day on. |
| `Compliance.UrgencyGrowsWithTime` | app.py:118 | For a fixed completion date, a later `today` never gives a less urgent status (ok < soon < overdue). |
| `Compliance.LaterCompletionNotMoreUrgent` | app.py:117-118 | Recording a later completion date never gives a more urgent status. |
| `Compliance.StatusNameInjective` | app.py:119 | Distinct statuses have distinct names, so comparing names with the filter compares statuses. |
| `Ledger.FirstIndex` | app.py:160 | The query `.first()` returns the position of the first row with the key. It returns None iff no row has the key. |
| `Ledger.ViewLookup` | app.py:114-116 | A key has an entry iff some row has that key, and the entry is the first such row's date and document. |
| `Ledger.StoredDocument` | app.py:158 | A blank document number is stored as NULL; any other is stored unchanged. |
| `Ledger.ViewOverwrite` | app.py:164-166 | Overwriting the first row of a key gives that key the new entry and leaves every other key's entry unchanged. |
| `Ledger.ViewAppend` | app.py:167-170 | Appending a row for a key with no row adds exactly that key. |
| `Ledger.ViewRemove` | app.py:171-173 | With one row per key, deleting a key's row removes exactly that key. |
| `Store.Database.SetDate` | app.py:160-173 | With a date, the key maps to exactly that date and the stored document, and no other key changes. Without a date, the key is removed and nothing else changes; with no row for the key, the table is unchanged. At most one row per key is preserved. |
| `Listing.Line` | app.py:113-126 | The line carries the assignment's kind, id and periodicity. With no ledger row for (employee, kind, assignment id), last date, document and due date are None and the status is `never`. Otherwise last date and document are the row's. Due date and status are those `Evaluate` gives. A training line is named after its type in category `Обучение`. A hazard line is `Медосмотр: ` plus the hazard's name in category `Медосмотр`. |
| `Listing.Kept` | app.py:119 | Without a filter every check is kept. With a filter, a check is kept iff its status is `never` or is named by the filter. |
| `Listing.Shown` | app.py:145 | Without a filter every employee is shown. With a filter, an employee is shown iff at least one of its checks survived. |
| `Listing.ListingLength` | app.py:145-146 | The page has at most one row per queried employee, and exactly one each without a filter. |
| `Ledger.View` | app.py:114-116 | A non-empty table's first row always determines its key's entry. `Ledger.ViewLookup` covers every key. |
| `Listing.AppendChecks` | app.py:112-126 | The inner loop appends, in order, exactly the lines that pass the filter. It raises `show_employee` iff it appended one. |
| `Listing.BuildListing` | app.py:107-146 | The loop of `index` produces exactly the rows of the `Listing` function. |
| `Listing.KeptLinesMembership` | app.py:119-126 | A line is shown iff it is the evaluated line of one of the assignments and its status equals the filter or is `never` (or no filter is set). |
| `Listing.KeptLinesUnfiltered` | app.py:112-143 | Without a filter, every assignment's line is shown, in order. |
| `Listing.KeptLinesNonEmpty` | app.py:121 | Some line survives iff some assignment's status passes the filter. |
| `Listing.EmployeeShown` | app.py:145-146 | With a filter, an employee's row appears iff one of its trainings or hazards has the requested status or `never`. |
| `Listing.ListingRows` | app.py:145-146 | The page's rows are exactly the rows of the queried employees that are shown, each with that employee's surviving checks. |
| `Listing.ListingRespectsFilter` | app.py:119-120 | With a filter, every shown check has the requested status or `never`. |
| `Listing.ListingUnfiltered` | app.py:107-146 | Without a filter, every queried employee gets a row, in query order. Each row has every training line followed by every hazard line. |
| `Period.FormatPeriod` | app.py:55-65 | The label is the count as `str` writes it, followed by a unit word. The count is in years for a multiple of 12 and in months otherwise. The unit word is ` мес.` iff months is not a multiple of 12, and ` год` iff months is 12. It is ` года` iff months is 24, 36 or 48. It is ` лет` for every other multiple of 12, including 0 and negative values. |
| `Period.FormatPeriodUnpadded` | app.py:58-65 | A label starts with the digit 0 only for the zero period, so counts are never zero-padded. |
| `Period.FormatPeriodRoundTrip` | app.py:55-65 | Reading a label back gives exactly the months it was made from. |
| `Period.FormatPeriodInjective` | app.py:55-65 | Different periodicities never share a label. |
| `Text.IntToString` | app.py:61-65 | The number in an f-string starts with a minus sign iff it is negative. The rest is a non-empty run of digits with no leading zero, except `"0"` itself. Together with the round trip this pins the exact text of Python's `str(n)`. |
| `Text.IntToStringRoundTrip` | app.py:61-65 | `int(str(n)) == n` for every integer n. |
| `Text.IntToStringInjective` | app.py:61-65 | Different integers render differently. |
| `Store.IndexOf` | app.py:183 | `query.get(id)` on any table finds the row whose primary key is `id`, and returns None iff there is none. |
| `Store.EmployeeIndex` | app.py:183 | `Employee.query.get(id)` finds the employee with that id, and returns None iff there is none. |
| `Store.HazardIndex` | app.py:207 | `Hazard.query.get(id)` finds the hazard with that id, and returns None iff there is none. |
| `Store.TrainingTypeIndex` | app.py:113 | `et.training_type` finds the training type with that id, and returns None iff there is none. |
| `Store.ExistingEmployee` | app.py:183 | A missing or zero id never names an existing employee. Any other id gives the employee with that primary key, or None iff there is none. |
| `Store.SubmittedOrDefault` | app.py:202 | A submitted period for the training type wins; without one the type's default periodicity is used. |
| `Store.FirstReference` | app.py:256 | `EmployeeHazard.query.filter_by(hazard_id=id).first()` gives the first assignment of the hazard. It returns None iff no assignment references it. |
| `Store.TrainingsOf` | app.py:112-113 | An employee never has more loaded trainings than the table has rows; `Store.TrainingsOfMembership` pins which rows. |
| `Store.HazardsOf` | app.py:129-130 | An employee never has more loaded hazards than the table has rows; `Store.HazardsOfMembership` pins which rows. |
| `Store.SeedTrainings` | app.py:201-204 | A new employee gets one training assignment per catalog training type, in catalog order. Each uses the submitted period or else the catalog default. |
| `Store.SeedTrainingsOnePerType` | app.py:199-204 | With distinct type ids, each training type gets exactly one seeded assignment. |
| `Store.SeedHazards` | app.py:206-209 | Each selected hazard id gets one assignment, in submission order. It copies the hazard's current catalog periodicity. |
| `Store.CollectTrainings` | app.py:201-204 | The training loop produces exactly the seeded training rows. |
| `Store.CollectHazards` | app.py:206-209 | The hazard loop produces the seeded hazard rows when every id is known. Otherwise it reports the first unknown id. |
| `Store.HazardRemoval` | app.py:256-258 | Removing a hazard row makes its id unfindable and keeps every other id findable as before. |
| `Store.Database.constructor` | app.py:68-87 | Given catalogs with increasing ids, the database holds them and has no employees, assignments or ledger rows. |
| `Store.Database.SaveEmployee` | app.py:185-212 | An existing employee (non-zero id, found) gets only a new name and position. Otherwise an unknown selected hazard id leaves every table and every key counter unchanged. When all ids are known, it creates the employee with the next id plus the seeded training and hazard assignments. The counters then advance by one employee, one training row per training type and one hazard row per selected id. |
| `Store.Database.Rename` | app.py:194-197 | Only the name and position of that employee change. |
| `Store.Database.Commit` | app.py:189-211 | The new employee and its pending rows are appended, and the invariant is kept. Each key counter moves past the rows added. |
| `Store.Database.AppendEmployee` | app.py:189-192 | The new employee row is appended under the next employee key, is then findable by that key, and the invariant is kept. |
| `Store.Database.AppendTrainingRows` | app.py:199-204 | The seeded training rows of a stored employee are appended with consecutive keys after the existing ones, so assignment keys keep growing in insertion order. |
| `Store.Database.AppendHazardRows` | app.py:206-209 | The seeded hazard rows of a stored employee are appended with consecutive keys after the existing ones, so assignment keys keep growing in insertion order. |
| `Store.TrainingRowsAfterSeed` | app.py:199-204 | Seeding the trainings of an existing employee keeps every training assignment pointing at a live employee and a live training type, with keys 1, 2, … in row order. |
| `Store.HazardRowsAfterSeed` | app.py:206-209 | Seeding the selected hazards of an existing employee keeps every hazard assignment pointing at a live employee and a live hazard, with keys 1, 2, … in row order. |
| `Store.Database.AddHazard` | app.py:235-241 | The new hazard row gets a fresh id and is appended. The next hazard gets the id after it. |
| `Store.Database.EditHazard` | app.py:243-251 | A found hazard takes the new name and periodicity, and assignments are untouched. An unknown id changes nothing. |
| `Store.Database.DeleteHazard` | app.py:253-259 | An unknown id gives not-found. A hazard referenced by an assignment is kept. An unreferenced hazard is removed, and every other hazard is unaffected. Referential integrity is preserved. |
| `Store.Database.Entries` | app.py:107-130 | There is one listing entry per queried employee, in query order. Each carries the employee's id and the employee's own trainings and hazards as the relationships load them (`TrainingsOf`, `HazardsOf`). |
| `Store.TrainingsOfMembership` | app.py:112-113 | `emp.employee_trainings` holds exactly the training rows whose employee id is the employee's. Each row appears with its own id and periodicity and its training type's name. |
| `Store.HazardsOfMembership` | app.py:129-130 | `emp.employee_hazards` holds exactly the hazard rows whose employee id is the employee's. Each row appears with its own id and periodicity and its hazard's name. |
| `Store.Database.Index` | app.py:107-146 | The page equals the `Listing` of the queried employees' assignments against the ledger's view. |

## Left out

- Web plumbing is not modelled: routing, templates, `redirect`, `flash`, `url_for`, `request.referrer`, and the GET branches of `edit_employee` and `edit_hazard`.
- Form parsing is not modelled. `int()` conversions and their errors, `.strip()`, and `strptime` are left out: ids, periods, the date and the document number arrive already parsed and stripped.
- `datetime.today()` is not modelled; `today` is a parameter.
- The SQL name search (`ilike`), the position filter and the sorted position list (app.py:97-105) are database queries and are not modelled. `Index` takes the queried employees as given.
- `init_db` seed data and `SECRET_KEY` are configuration. The constructor takes the catalogs as parameters instead.
- `delete_employee` (app.py:223-228) is not modelled. Its effect is the ORM's `cascade="all, delete-orphan"`, which is library behaviour.
- The `admin` page (app.py:231-233) is a read-only rendering and is not modelled.
- The session and transactions are modelled only as atomic assignment of the new tables at commit; `flush` is not modelled. Primary keys come from per-table counters, not SQLite's reuse of the largest id plus one.
- Concurrent requests are not modelled.
- `EmployeeCheck.id`, the ledger table's primary key, is not modelled, because app.py never reads it. Ledger rows are found only by (employee id, kind, kind id).
- `Compliance.Evaluate` does not model Python's date range. `date` covers only years 1 to 9999, and `timedelta` is capped at 999,999,999 days. A due date outside that range makes `last + timedelta(...)` (app.py:117, 134) raise OverflowError, and the whole listing page fails. The model returns a status for every integer day instead.
- `Store.Database.Index`: assignments are listed in table order. The ORM relationships have no `order_by`, so the real order is whatever the database returns.
