/**
 * The compliance ledger: the `EmployeeCheck` table, one row per completed
 * check, looked up by (employee_id, kind, kind_id). The table itself has
 * no unique constraint; a lookup takes the first matching row, and the
 * set-date operation keeps at most one row per key.
 */
module Ledger {
  import opened Common

  datatype CheckKey = CheckKey(employeeId: int, kind: string, kindId: int)

  /** `last_date` and `document_number`; both columns are nullable. */
  datatype Entry = Entry(lastDate: Option<int>, document: Option<string>)

  datatype CheckRow = CheckRow(key: CheckKey, entry: Entry)

  /** `filter_by(employee_id=…, kind=…, kind_id=…).first()`: the position of the first row with `key`. */
  function FirstIndex(rows: seq<CheckRow>, key: CheckKey): (r: Option<nat>)
    ensures r == None <==> forall i :: 0 <= i < |rows| ==> rows[i].key != key
    ensures r != None ==> r.value < |rows| && rows[r.value].key == key
    ensures r != None ==> forall i :: 0 <= i < r.value ==> rows[i].key != key
  {
    if rows == [] then None
    else if rows[0].key == key then Some(0)
    else match FirstIndex(rows[1..], key)
      case None => None
      case Some(i) => Some(i + 1)
  }

  /** The ledger as the application sees it: each key mapped to the entry of its first row. */
  function View(rows: seq<CheckRow>): (view: map<CheckKey, Entry>)
    ensures rows != [] ==> rows[0].key in view && view[rows[0].key] == rows[0].entry
  {
    if rows == [] then map[] else View(rows[1..])[rows[0].key := rows[0].entry]
  }

  /** A key is in the view exactly when some row has it, and it maps to its first row's entry. */
  lemma {:induction false} ViewLookup(rows: seq<CheckRow>, key: CheckKey)
    ensures key in View(rows) <==> FirstIndex(rows, key) != None
    ensures key in View(rows) ==> View(rows)[key] == rows[FirstIndex(rows, key).value].entry
  {
    if rows != [] && rows[0].key != key {
      ViewLookup(rows[1..], key);
    }
  }

  /** At most one row per key. */
  predicate UniqueKeys(rows: seq<CheckRow>)
  {
    forall i, j :: 0 <= i < j < |rows| ==> rows[i].key != rows[j].key
  }

  /** `request.form.get('doc_number', '').strip() or None`: a blank document number is stored as NULL. */
  function StoredDocument(document: string): (d: Option<string>)
    ensures d == None <==> document == ""
    ensures d != None ==> d.value == document
  {
    if document == "" then None else Some(document)
  }

  /** Overwriting the first row of a key changes that key's entry and no other. */
  lemma {:induction false} ViewOverwrite(rows: seq<CheckRow>, i: nat, e: Entry)
    requires i < |rows| && FirstIndex(rows, rows[i].key) == Some(i)
    ensures View(rows[i := CheckRow(rows[i].key, e)]) == View(rows)[rows[i].key := e]
  {
    var key := rows[i].key;
    var rows' := rows[i := CheckRow(key, e)];
    if i == 0 {
      assert rows'[1..] == rows[1..];
    } else {
      var tail := rows[1..];
      assert rows'[0] == rows[0] && rows[0].key != key;
      assert rows'[1..] == tail[i - 1 := CheckRow(key, e)];
      assert FirstIndex(tail, key) == Some(i - 1);
      ViewOverwrite(tail, i - 1, e);
      calc {
        View(rows');
        View(tail[i - 1 := CheckRow(key, e)])[rows[0].key := rows[0].entry];
        View(tail)[key := e][rows[0].key := rows[0].entry];
        View(tail)[rows[0].key := rows[0].entry][key := e];
      }
    }
  }

  /** Appending a row for a key that has none adds exactly that key. */
  lemma {:induction false} ViewAppend(rows: seq<CheckRow>, row: CheckRow)
    requires FirstIndex(rows, row.key) == None
    ensures View(rows + [row]) == View(rows)[row.key := row.entry]
  {
    if rows != [] {
      assert (rows + [row])[1..] == rows[1..] + [row];
      ViewAppend(rows[1..], row);
    }
  }

  /** Removing the only row of a key removes exactly that key. */
  lemma {:induction false} ViewRemove(rows: seq<CheckRow>, i: nat)
    requires i < |rows| && UniqueKeys(rows)
    ensures View(rows[..i] + rows[i + 1..]) == View(rows) - {rows[i].key}
  {
    var rows' := rows[..i] + rows[i + 1..];
    if i == 0 {
      assert rows' == rows[1..];
      assert FirstIndex(rows[1..], rows[0].key) == None;
      ViewLookup(rows[1..], rows[0].key);
    } else {
      assert rows'[0] == rows[0];
      assert rows'[1..] == rows[1..][..i - 1] + rows[1..][i..];
      ViewRemove(rows[1..], i - 1);
    }
  }
}
