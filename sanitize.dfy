/**
 * `sanitize_dataframe`: normalise the column names, check every row's
 * required fields (collecting errors in a fixed order, a missing column
 * ending that row's checks), then strip `<...>` tags from every cell of the
 * text (`object`) columns. The table is a value: the function works on a
 * copy and hands back the copy with the errors.
 */
module Sanitize {
  import opened Options
  import opened PyText
  import opened Netflow
  import IpAddress

  // ---------------------------------------------------------------------------
  // Tables

  /** The pandas column types that matter here: `object` (text and mixed) or a numeric one. */
  datatype Dtype = ObjectDtype | NumericDtype

  /** A table: column labels, one type per column, and rows of cells in column order. */
  datatype Frame = Frame(columns: seq<string>, dtypes: seq<Dtype>, rows: seq<seq<Cell>>)

  predicate Rectangular(width: nat, rows: seq<seq<Cell>>) {
    forall r :: 0 <= r < |rows| ==> |rows[r]| == width
  }

  predicate WellFormed(df: Frame) {
    |df.dtypes| == |df.columns| && Rectangular(|df.columns|, df.rows)
  }

  // ---------------------------------------------------------------------------
  // Column names

  /** `name.lower().strip()`. */
  function NormalizeName(name: string): (r: string)
    ensures NoUpper(r)
    ensures r == [] || (!IsSpace(r[0]) && !IsSpace(r[|r| - 1]))
  {
    StripKeepsNoUpper(Lower(name));
    Strip(Lower(name))
  }

  /** Normalising twice is normalising once. */
  lemma NormalizeIdempotent(name: string)
    ensures NormalizeName(NormalizeName(name)) == NormalizeName(name)
  {
    var n := NormalizeName(name);
    LowerOfLowered(n);
    StripOfStripped(n);
  }

  function NormalizeColumns(columns: seq<string>): (r: seq<string>)
    ensures |r| == |columns|
    ensures forall k :: 0 <= k < |columns| ==> r[k] == NormalizeName(columns[k])
  {
    seq(|columns|, k requires 0 <= k < |columns| => NormalizeName(columns[k]))
  }

  /** `df.rename(columns={from: to})`: every column labelled `from` is relabelled `to`. */
  function RenameLabel(columns: seq<string>, from: string, to: string): (r: seq<string>)
    ensures |r| == |columns|
    ensures forall k :: 0 <= k < |columns| ==> r[k] == (if columns[k] == from then to else columns[k])
  {
    seq(|columns|, k requires 0 <= k < |columns| => if columns[k] == from then to else columns[k])
  }

  lemma NormalizeExample()
    ensures NormalizeName(" Src_IP ") == "src_ip" && NormalizeName("src_ip") == "src_ip"
  {
    LowerExamples();
    StripExample();
    StripOfStripped("src_ip");
  }

  lemma LowerExamples()
    ensures Lower(" Src_IP ") == " src_ip " && Lower("src_ip") == "src_ip"
  {
  }

  lemma StripExample()
    ensures Strip(" src_ip ") == "src_ip"
  {
    var s := " src_ip ";
    assert SkipSpaces(s, 1) == 1;
    assert SkipSpaces(s, 0) == 1;
    assert BackSpaces(s, 1, 7) == 7;
    assert BackSpaces(s, 1, 8) == 7;
  }

  // ---------------------------------------------------------------------------
  // Looking up a field of a row

  /** The positions, left to right, of the columns labelled `name`. */
  function Positions(columns: seq<string>, name: string): (p: seq<nat>)
    ensures forall j :: 0 <= j < |p| ==> p[j] < |columns| && columns[p[j]] == name
  {
    if columns == [] then []
    else
      var last := |columns| - 1;
      Positions(columns[..last], name) + (if columns[last] == name then [last] else [])
  }

  /** No position is found exactly when no column has the label. */
  lemma {:induction false} PositionsEmptyIff(columns: seq<string>, name: string)
    ensures Positions(columns, name) == [] <==> name !in columns
    decreases |columns|
  {
    if columns != [] {
      var last := |columns| - 1;
      PositionsEmptyIff(columns[..last], name);
      assert columns == columns[..last] + [columns[last]];
    }
  }

  /** What `row[name]` gives: one cell, or a Series of the cells of every column sharing the label. */
  datatype FieldValue = Single(cell: Cell) | Several(cells: seq<Cell>)

  /** `row[name]`; `None` where it raises `KeyError`. */
  function Lookup(columns: seq<string>, row: seq<Cell>, name: string): Option<FieldValue>
    requires |row| == |columns|
  {
    var p := Positions(columns, name);
    if p == [] then
      None
    else if |p| == 1 then Some(Single(row[p[0]]))
    else Some(Several(Gather(row, p)))
  }

  /** The cells of `row` at positions `p`, in order. */
  function Gather(row: seq<Cell>, p: seq<nat>): seq<Cell>
    requires forall j :: 0 <= j < |p| ==> p[j] < |row|
  {
    if p == [] then [] else [row[p[0]]] + Gather(row, p[1..])
  }

  /** A label carried by column `k` alone is found at `k` alone. */
  lemma {:induction false} PositionsUnique(columns: seq<string>, name: string, k: nat)
    requires k < |columns| && columns[k] == name
    requires forall j :: 0 <= j < |columns| && columns[j] == name ==> j == k
    ensures Positions(columns, name) == [k]
    decreases |columns|
  {
    var last := |columns| - 1;
    if k == last {
      assert name !in columns[..last];
      PositionsEmptyIff(columns[..last], name);
    } else {
      assert columns[last] != name;
      PositionsUnique(columns[..last], name, k);
    }
  }

  /** `row[name]` raises `KeyError` exactly when no column has the label. */
  lemma LookupAbsentIff(columns: seq<string>, row: seq<Cell>, name: string)
    requires |row| == |columns|
    ensures Lookup(columns, row, name).None? <==> name !in columns
  {
    PositionsEmptyIff(columns, name);
  }

  /**
   * `row[name]` raises `KeyError` exactly when no column has the label; a
   * label held by one column `k` gives that column's cell, and a single cell
   * found is the cell of a column carrying the label.
   */
  lemma LookupMeaning(columns: seq<string>, row: seq<Cell>, name: string)
    requires |row| == |columns|
    ensures Lookup(columns, row, name).None? <==> name !in columns
    ensures forall k :: 0 <= k < |columns| && columns[k] == name && (forall j :: 0 <= j < |columns| && columns[j] == name ==> j == k) ==>
      Lookup(columns, row, name) == Some(Single(row[k]))
    ensures Lookup(columns, row, name).Some? && Lookup(columns, row, name).value.Single? ==>
      exists k :: 0 <= k < |columns| && columns[k] == name && Lookup(columns, row, name).value.cell == row[k]
  {
    LookupAbsentIff(columns, row, name);
    forall k | 0 <= k < |columns| && columns[k] == name && (forall j :: 0 <= j < |columns| && columns[j] == name ==> j == k)
      ensures Lookup(columns, row, name) == Some(Single(row[k]))
    {
      PositionsUnique(columns, name, k);
    }
    var p := Positions(columns, name);
    if |p| == 1 {
      assert columns[p[0]] == name;
    }
  }

  // ---------------------------------------------------------------------------
  // The required fields and their checks

  /** `validate_ip(str(row[name]))`. */
  predicate IpCheck(c: Cell) {
    ValidateIp(CellText(c))
  }

  /** `validate_port(row[name])`. */
  predicate PortCheck(c: Cell) {
    ValidatePort(c)
  }

  /** `validate_timestamp(str(row[name]))`. */
  predicate TimestampCheck(c: Cell) {
    ValidateTimestamp(CellText(c))
  }

  /** `validate_numeric(row[name])`. */
  predicate NumericCheck(c: Cell) {
    ValidateNumeric(c)
  }

  /** A required column, the words its error message uses for it (`description`), and the check of its cell. */
  datatype Field = Field(name: string, description: string, check: Cell -> bool)

  /** The fields in the order the row loop checks them. */
  const REQUIRED_FIELDS: seq<Field> := [
    Field("src_ip", "source IP", IpCheck),
    Field("dest_ip", "destination IP", IpCheck),
    Field("src_port", "source port", PortCheck),
    Field("dest_port", "destination port", PortCheck),
    Field("timestamp", "timestamp", TimestampCheck),
    Field("flow_dur", "flow_dur", NumericCheck),
    Field("fwd_bytes", "fwd_bytes", NumericCheck),
    Field("bwd_bytes", "bwd_bytes", NumericCheck),
    Field("total_bwd_pkts", "total_bwd_pkts", NumericCheck),
    Field("total_fwd_pkts", "total_fwd_pkts", NumericCheck)
  ]

  /**
   * The field's check applied to `row[name]`. A Series (several columns
   * sharing the label) is not a number, and its printed form is neither an
   * address nor a timestamp, so every check fails on it.
   */
  predicate Passes(field: Field, v: FieldValue) {
    v.Single? && field.check(v.cell)
  }

  /**
   * One entry of the error list: "Invalid <description> at row <row>: <value>", or
   * "Missing required column: '<name>'".
   */
  datatype ValidationError = InvalidValue(description: string, row: nat, value: FieldValue) | MissingColumn(name: string)

  /** What one present field appends: nothing when its check passes, else one `InvalidValue`. */
  function CheckError(field: Field, v: FieldValue, idx: nat): seq<ValidationError> {
    if Passes(field, v) then [] else [InvalidValue(field.description, idx, v)]
  }

  /**
   * The errors the checks of `fields` append for one row, in order; the first
   * field whose column is absent appends its `MissingColumn` and ends the row.
   */
  function FieldErrors(columns: seq<string>, row: seq<Cell>, idx: nat, fields: seq<Field>): (errs: seq<ValidationError>)
    requires |row| == |columns|
    ensures |errs| <= |fields|
    decreases |fields|
  {
    if fields == [] then []
    else
      match Lookup(columns, row, fields[0].name)
      case None => [MissingColumn(fields[0].name)]
      case Some(v) => CheckError(fields[0], v, idx) + FieldErrors(columns, row, idx, fields[1..])
  }

  /**
   * The whole error list: the rows' errors one row after another, each row
   * numbered by its position and checked against `fields` (the row loop uses
   * `REQUIRED_FIELDS`).
   */
  function TableErrors(columns: seq<string>, rows: seq<seq<Cell>>, fields: seq<Field>): seq<ValidationError>
    requires Rectangular(|columns|, rows)
  {
    if rows == [] then []
    else
      var last := |rows| - 1;
      TableErrors(columns, rows[..last], fields) + FieldErrors(columns, rows[last], last, fields)
  }

  /** The table adds at most one entry per required field and row. */
  lemma {:induction false} TableErrorsBound(columns: seq<string>, rows: seq<seq<Cell>>, fields: seq<Field>)
    requires Rectangular(|columns|, rows)
    ensures |TableErrors(columns, rows, fields)| <= |fields| * |rows|
    decreases |rows|
  {
    if rows != [] {
      var last := |rows| - 1;
      TableErrorsBound(columns, rows[..last], fields);
      MulSucc(|fields|, last);
    }
  }

  /** The one nonlinear step of `TableErrorsBound`, kept apart so the solver meets it alone. */
  lemma MulSucc(a: nat, n: nat)
    ensures a * n + a == a * (n + 1)
  {
  }

  // ---------------------------------------------------------------------------
  // What the error list says

  /** The field is there and its check passes: it adds no error. */
  predicate FieldPasses(columns: seq<string>, row: seq<Cell>, field: Field)
    requires |row| == |columns|
  {
    var v := Lookup(columns, row, field.name);
    v.Some? && Passes(field, v.value)
  }

  /** A row adds no error exactly when every field is present and passes its check. */
  lemma {:induction false} FieldErrorsEmptyIff(columns: seq<string>, row: seq<Cell>, idx: nat, fields: seq<Field>)
    requires |row| == |columns|
    ensures FieldErrors(columns, row, idx, fields) == [] <==> forall j :: 0 <= j < |fields| ==> FieldPasses(columns, row, fields[j])
    decreases |fields|
  {
    if fields != [] {
      FieldErrorsEmptyIff(columns, row, idx, fields[1..]);
      assert forall j :: 1 <= j < |fields| ==> fields[j] == fields[1..][j - 1];
    }
  }

  /**
   * `e` is the entry the check of `field` appends: the field's description
   * and the value `row[name]` gave, which failed the check.
   */
  predicate Reports(columns: seq<string>, row: seq<Cell>, field: Field, e: ValidationError)
    requires |row| == |columns|
  {
    var v := Lookup(columns, row, field.name);
    e.InvalidValue? && v.Some? && !Passes(field, v.value) && e.description == field.description && e.value == v.value
  }

  /** A reported single cell is the cell of a column carrying the field's label. */
  lemma ReportedCell(columns: seq<string>, row: seq<Cell>, field: Field, e: ValidationError)
    requires |row| == |columns| && Reports(columns, row, field, e) && e.value.Single?
    ensures exists k :: 0 <= k < |columns| && columns[k] == field.name && e.value.cell == row[k]
  {
    LookupMeaning(columns, row, field.name);
  }

  /**
   * An `InvalidValue` of a row's list names the row, and is the report of one
   * of the fields: that field's description with the value `row[name]` gave
   * for it, which failed its check.
   */
  lemma {:induction false} InvalidValueAt(columns: seq<string>, row: seq<Cell>, idx: nat, fields: seq<Field>, k: nat)
    requires |row| == |columns| && k < |FieldErrors(columns, row, idx, fields)|
    requires FieldErrors(columns, row, idx, fields)[k].InvalidValue?
    ensures FieldErrors(columns, row, idx, fields)[k].row == idx
    ensures exists j :: 0 <= j < |fields| && Reports(columns, row, fields[j], FieldErrors(columns, row, idx, fields)[k])
    decreases |fields|
  {
    var v := Lookup(columns, row, fields[0].name);
    if v.Some? {
      var ce := CheckError(fields[0], v.value, idx);
      var rest := FieldErrors(columns, row, idx, fields[1..]);
      assert FieldErrors(columns, row, idx, fields) == ce + rest;
      if k >= |ce| {
        assert FieldErrors(columns, row, idx, fields)[k] == rest[k - |ce|];
        InvalidValueAt(columns, row, idx, fields[1..], k - |ce|);
        var j :| 0 <= j < |fields[1..]| && Reports(columns, row, fields[1..][j], rest[k - |ce|]);
        assert fields[1..][j] == fields[j + 1];
      } else {
        assert FieldErrors(columns, row, idx, fields)[k] == InvalidValue(fields[0].description, idx, v.value);
        assert Reports(columns, row, fields[0], FieldErrors(columns, row, idx, fields)[k]);
      }
    }
  }

  /** A `MissingColumn` of a row's list is its last entry and names a column the table does not have. */
  lemma {:induction false} MissingColumnAt(columns: seq<string>, row: seq<Cell>, idx: nat, fields: seq<Field>, k: nat)
    requires |row| == |columns| && k < |FieldErrors(columns, row, idx, fields)|
    requires FieldErrors(columns, row, idx, fields)[k].MissingColumn?
    ensures k == |FieldErrors(columns, row, idx, fields)| - 1
    ensures FieldErrors(columns, row, idx, fields)[k].name !in columns
    decreases |fields|
  {
    var v := Lookup(columns, row, fields[0].name);
    if v.Some? {
      var ce := CheckError(fields[0], v.value, idx);
      var rest := FieldErrors(columns, row, idx, fields[1..]);
      assert FieldErrors(columns, row, idx, fields) == ce + rest;
      MissingColumnAt(columns, row, idx, fields[1..], k - |ce|);
    } else {
      LookupAbsentIff(columns, row, fields[0].name);
    }
  }

  /** The same for every entry of a row's list. */
  lemma FieldErrorsShape(columns: seq<string>, row: seq<Cell>, idx: nat, fields: seq<Field>)
    requires |row| == |columns|
    ensures var errs := FieldErrors(columns, row, idx, fields);
      forall k :: 0 <= k < |errs| ==>
        (errs[k].InvalidValue? ==> errs[k].row == idx && exists j :: 0 <= j < |fields| && Reports(columns, row, fields[j], errs[k])) &&
        (errs[k].MissingColumn? ==> k == |errs| - 1 && errs[k].name !in columns)
  {
    var errs := FieldErrors(columns, row, idx, fields);
    forall k | 0 <= k < |errs|
      ensures errs[k].InvalidValue? ==> errs[k].row == idx && exists j :: 0 <= j < |fields| && Reports(columns, row, fields[j], errs[k])
      ensures errs[k].MissingColumn? ==> k == |errs| - 1 && errs[k].name !in columns
    {
      if errs[k].InvalidValue? {
        InvalidValueAt(columns, row, idx, fields, k);
      } else {
        MissingColumnAt(columns, row, idx, fields, k);
      }
    }
  }

  /**
   * The first required field whose column is absent ends the row: the row's
   * entries are those of the fields before it, then one `MissingColumn`
   * naming it, and nothing for the fields after it.
   */
  lemma {:induction false} FirstMissingCutsRow(columns: seq<string>, row: seq<Cell>, idx: nat, fields: seq<Field>, j: nat)
    requires |row| == |columns| && j < |fields|
    requires fields[j].name !in columns
    requires forall i :: 0 <= i < j ==> fields[i].name in columns
    ensures FieldErrors(columns, row, idx, fields) == FieldErrors(columns, row, idx, fields[..j]) + [MissingColumn(fields[j].name)]
    decreases j
  {
    if j > 0 {
      assert fields[1..][j - 1] == fields[j];
      assert forall i :: 0 <= i < j - 1 ==> fields[1..][i] == fields[i + 1];
      FirstMissingCutsRow(columns, row, idx, fields[1..], j - 1);
      assert fields[..j][0] == fields[0] && fields[..j][1..] == fields[1..][..j - 1];
      LookupAbsentIff(columns, row, fields[0].name);
      var v := Lookup(columns, row, fields[0].name).value;
      ConcatAssoc(CheckError(fields[0], v, idx), FieldErrors(columns, row, idx, fields[1..][..j - 1]), [MissingColumn(fields[j].name)]);
    }
  }

  function MissingCount(errs: seq<ValidationError>): nat {
    if errs == [] then 0 else MissingCount(errs[..|errs| - 1]) + (if errs[|errs| - 1].MissingColumn? then 1 else 0)
  }

  lemma {:induction false} MissingCountAppend(a: seq<ValidationError>, b: seq<ValidationError>)
    ensures MissingCount(a + b) == MissingCount(a) + MissingCount(b)
    decreases |b|
  {
    if b != [] {
      assert (a + b)[..|a + b| - 1] == a + b[..|b| - 1];
      MissingCountAppend(a, b[..|b| - 1]);
    } else {
      assert a + b == a;
    }
  }

  predicate AllPresent(columns: seq<string>, fields: seq<Field>) {
    forall j :: 0 <= j < |fields| ==> fields[j].name in columns
  }

  /** A row holds one `MissingColumn` when a field's column is absent, none when all are there. */
  lemma {:induction false} RowMissingCount(columns: seq<string>, row: seq<Cell>, idx: nat, fields: seq<Field>)
    requires |row| == |columns|
    ensures MissingCount(FieldErrors(columns, row, idx, fields)) == if AllPresent(columns, fields) then 0 else 1
    decreases |fields|
  {
    if fields != [] {
      var errs := FieldErrors(columns, row, idx, fields);
      if fields[0].name !in columns {
        LookupAbsentIff(columns, row, fields[0].name);
        assert errs == [MissingColumn(fields[0].name)];
        assert MissingCount(errs) == MissingCount([]) + 1;
      } else {
        RowMissingCount(columns, row, idx, fields[1..]);
        LookupAbsentIff(columns, row, fields[0].name);
        var v := Lookup(columns, row, fields[0].name).value;
        MissingCountAppend(CheckError(fields[0], v, idx), FieldErrors(columns, row, idx, fields[1..]));
        assert MissingCount(CheckError(fields[0], v, idx)) == 0 by {
          if !Passes(fields[0], v) {
            assert CheckError(fields[0], v, idx)[..0] == [];
          }
        }
        assert AllPresent(columns, fields) <==> AllPresent(columns, fields[1..]) by {
          assert forall j :: 1 <= j < |fields| ==> fields[j] == fields[1..][j - 1];
        }
      }
    }
  }

  /**
   * When a required column is absent every row reports it once, so the list
   * holds exactly one `MissingColumn` per row; otherwise it holds none.
   */
  lemma {:induction false} TableMissingCount(columns: seq<string>, rows: seq<seq<Cell>>, fields: seq<Field>)
    requires Rectangular(|columns|, rows)
    ensures MissingCount(TableErrors(columns, rows, fields)) == if AllPresent(columns, fields) then 0 else |rows|
    decreases |rows|
  {
    if rows != [] {
      var last := |rows| - 1;
      TableMissingCount(columns, rows[..last], fields);
      RowMissingCount(columns, rows[last], last, fields);
      MissingCountAppend(TableErrors(columns, rows[..last], fields), FieldErrors(columns, rows[last], last, fields));
    }
  }

  /** The table adds no error exactly when no row does; in particular an empty table adds none. */
  lemma TableErrorsEmptyIff(columns: seq<string>, rows: seq<seq<Cell>>, fields: seq<Field>)
    requires Rectangular(|columns|, rows)
    ensures TableErrors(columns, rows, fields) == [] <==> forall r :: 0 <= r < |rows| ==> FieldErrors(columns, rows[r], r, fields) == []
  {
    if forall r :: 0 <= r < |rows| ==> FieldErrors(columns, rows[r], r, fields) == [] {
      CleanRowsCleanTable(columns, rows, fields, |rows|);
      assert rows[..|rows|] == rows;
    } else {
      var r :| 0 <= r < |rows| && FieldErrors(columns, rows[r], r, fields) != [];
      DirtyRowDirtyTable(columns, rows, fields, r);
    }
  }

  /** The rows before `n` add no error when none of the table's rows does. */
  lemma {:induction false} CleanRowsCleanTable(columns: seq<string>, rows: seq<seq<Cell>>, fields: seq<Field>, n: nat)
    requires Rectangular(|columns|, rows) && n <= |rows|
    requires forall r :: 0 <= r < |rows| ==> FieldErrors(columns, rows[r], r, fields) == []
    ensures TableErrors(columns, rows[..n], fields) == []
    decreases n
  {
    if n > 0 {
      var prefix := rows[..n];
      assert prefix[..n - 1] == rows[..n - 1] && prefix[n - 1] == rows[n - 1];
      CleanRowsCleanTable(columns, rows, fields, n - 1);
      assert FieldErrors(columns, rows[n - 1], n - 1, fields) == [];
      assert TableErrors(columns, prefix, fields) == TableErrors(columns, rows[..n - 1], fields) + [];
    }
  }

  lemma {:induction false} DirtyRowDirtyTable(columns: seq<string>, rows: seq<seq<Cell>>, fields: seq<Field>, r: nat)
    requires Rectangular(|columns|, rows) && r < |rows|
    requires FieldErrors(columns, rows[r], r, fields) != []
    ensures TableErrors(columns, rows, fields) != []
    decreases |rows|
  {
    var last := |rows| - 1;
    var front := TableErrors(columns, rows[..last], fields);
    var back := FieldErrors(columns, rows[last], last, fields);
    assert TableErrors(columns, rows, fields) == front + back;
    if r < last {
      assert rows[..last][r] == rows[r];
      DirtyRowDirtyTable(columns, rows[..last], fields, r);
      assert |front + back| >= |front| > 0;
    } else {
      assert r == last;
      assert |front + back| >= |back| > 0;
    }
  }

  /**
   * An `InvalidValue` of the list names a row of the table and is the report
   * of one of the fields on that row as it was before stripping.
   */
  lemma {:induction false} TableInvalidValueAt(columns: seq<string>, rows: seq<seq<Cell>>, fields: seq<Field>, k: nat)
    requires Rectangular(|columns|, rows) && k < |TableErrors(columns, rows, fields)|
    requires TableErrors(columns, rows, fields)[k].InvalidValue?
    ensures TableErrors(columns, rows, fields)[k].row < |rows|
    ensures var e := TableErrors(columns, rows, fields)[k];
      exists j :: 0 <= j < |fields| && Reports(columns, rows[e.row], fields[j], e)
    decreases |rows|
  {
    var last := |rows| - 1;
    var front := TableErrors(columns, rows[..last], fields);
    var back := FieldErrors(columns, rows[last], last, fields);
    var errs := TableErrors(columns, rows, fields);
    assert errs == front + back;
    if k < |front| {
      assert errs[k] == front[k];
      TableInvalidValueAt(columns, rows[..last], fields, k);
      assert rows[..last][front[k].row] == rows[front[k].row];
      var j :| 0 <= j < |fields| && Reports(columns, rows[..last][front[k].row], fields[j], front[k]);
      assert Reports(columns, rows[front[k].row], fields[j], errs[k]);
    } else {
      assert errs[k] == back[k - |front|];
      InvalidValueAt(columns, rows[last], last, fields, k - |front|);
    }
  }

  /** The entries run row by row: a later `InvalidValue` never names an earlier row. */
  lemma {:induction false} TableRowOrderAt(columns: seq<string>, rows: seq<seq<Cell>>, fields: seq<Field>, i: nat, j: nat)
    requires Rectangular(|columns|, rows) && i < j < |TableErrors(columns, rows, fields)|
    requires TableErrors(columns, rows, fields)[i].InvalidValue? && TableErrors(columns, rows, fields)[j].InvalidValue?
    ensures TableErrors(columns, rows, fields)[i].row <= TableErrors(columns, rows, fields)[j].row
    decreases |rows|
  {
    var last := |rows| - 1;
    var front := TableErrors(columns, rows[..last], fields);
    var back := FieldErrors(columns, rows[last], last, fields);
    var errs := TableErrors(columns, rows, fields);
    assert errs == front + back;
    if j < |front| {
      assert errs[i] == front[i] && errs[j] == front[j];
      TableRowOrderAt(columns, rows[..last], fields, i, j);
    } else {
      assert errs[j] == back[j - |front|];
      InvalidValueAt(columns, rows[last], last, fields, j - |front|);
      TableInvalidValueAt(columns, rows, fields, i);
    }
  }

  /** Both facts for the whole list. */
  lemma TableErrorsShape(columns: seq<string>, rows: seq<seq<Cell>>, fields: seq<Field>)
    requires Rectangular(|columns|, rows)
    ensures var errs := TableErrors(columns, rows, fields);
      forall k :: 0 <= k < |errs| && errs[k].InvalidValue? ==>
        errs[k].row < |rows| && exists j :: 0 <= j < |fields| && Reports(columns, rows[errs[k].row], fields[j], errs[k])
    ensures var errs := TableErrors(columns, rows, fields);
      forall i, j :: 0 <= i < j < |errs| && errs[i].InvalidValue? && errs[j].InvalidValue? ==> errs[i].row <= errs[j].row
  {
    var errs := TableErrors(columns, rows, fields);
    forall k | 0 <= k < |errs| && errs[k].InvalidValue? {
      TableInvalidValueAt(columns, rows, fields, k);
    }
    forall i, j | 0 <= i < j < |errs| && errs[i].InvalidValue? && errs[j].InvalidValue? {
      TableRowOrderAt(columns, rows, fields, i, j);
    }
  }

  lemma RequiredFieldsStart()
    ensures |REQUIRED_FIELDS| >= 2
    ensures REQUIRED_FIELDS[0].name == "src_ip" && REQUIRED_FIELDS[1].name == "dest_ip"
    ensures REQUIRED_FIELDS[1].name != REQUIRED_FIELDS[0].name
  {
    assert "dest_ip"[0] != "src_ip"[0];
  }

  /** A text cell holding a valid address passes the source-address check. */
  lemma AddressTextPasses(ip: string)
    requires ValidateIp(ip)
    ensures Passes(REQUIRED_FIELDS[0], Single(StrCell(ip)))
  {
    assert CellText(StrCell(ip)) == ip;
  }

  /** A row whose one column is the first field, passing its check, stops at the second field. */
  lemma SecondFieldMissing(columns: seq<string>, row: seq<Cell>, idx: nat, fields: seq<Field>)
    requires |fields| >= 2 && columns == [fields[0].name] && |row| == 1
    requires fields[1].name != fields[0].name && Passes(fields[0], Single(row[0]))
    ensures FieldErrors(columns, row, idx, fields) == [MissingColumn(fields[1].name)]
  {
    FirstMissingCutsRow(columns, row, idx, fields, 1);
    assert fields[..1][1..] == [];
  }

  /** A table of one row reports that row's errors, numbered 0. */
  lemma OneRowTable(columns: seq<string>, row: seq<Cell>, fields: seq<Field>)
    requires |row| == |columns|
    ensures TableErrors(columns, [row], fields) == FieldErrors(columns, row, 0, fields)
  {
    assert [row][..0] == [];
  }

  /**
   * A one-column table whose label normalises to "src_ip" and whose one cell
   * is a valid address: its one row stops at the absent "dest_ip" column.
   */
  lemma MissingDestination(heading: string, ip: string)
    requires NormalizeName(heading) == "src_ip" && ValidateIp(ip)
    ensures TableErrors(NormalizeColumns([heading]), [[StrCell(ip)]], REQUIRED_FIELDS) == [MissingColumn("dest_ip")]
  {
    var columns := NormalizeColumns([heading]);
    assert columns == ["src_ip"];
    RequiredFieldsStart();
    AddressTextPasses(ip);
    SecondFieldMissing(columns, [StrCell(ip)], 0, REQUIRED_FIELDS);
    OneRowTable(columns, [StrCell(ip)], REQUIRED_FIELDS);
  }

  lemma MissingDestinationExample()
    ensures TableErrors(NormalizeColumns([" Src_IP "]), [[StrCell("192.168.1.1")]], REQUIRED_FIELDS) == [MissingColumn("dest_ip")]
  {
    NormalizeExample();
    IpAddress.PrivateAddressAccepted();
    MissingDestination(" Src_IP ", "192.168.1.1");
  }

  // ---------------------------------------------------------------------------
  // Tag stripping

  /**
   * `re.sub(r'<[^>]*>', '', x)`: scanning left to right, a '<' with a '>'
   * somewhere after it starts a match that runs to the first such '>'; the
   * match is removed and the scan goes on after it. Any other character is kept.
   */
  function StripTags(s: string): (r: string)
    ensures |r| <= |s|
    decreases |s|
  {
    if s == [] then []
    else if s[0] == '<' && '>' in s[1..] then
      var close := IndexOf(s[1..], '>');
      StripTags(s[close + 2..])
    else [s[0]] + StripTags(s[1..])
  }

  /** `a` is `b` with some characters left out. */
  predicate IsSubsequence(a: string, b: string)
    decreases |b|
  {
    a == [] || (b != [] && (IsSubsequence(a, b[1..]) || (a[0] == b[0] && IsSubsequence(a[1..], b[1..]))))
  }

  /** No '<' is followed, anywhere later, by a '>': nothing the expression could match. */
  predicate TagFree(s: string) {
    forall i, j :: 0 <= i < j < |s| && s[i] == '<' ==> s[j] != '>'
  }

  lemma {:induction false} SubsequenceOfSuffix(a: string, b: string, k: nat)
    requires k <= |b| && IsSubsequence(a, b[k..])
    ensures IsSubsequence(a, b)
    decreases k
  {
    if k > 0 {
      assert b[1..][k - 1..] == b[k..];
      SubsequenceOfSuffix(a, b[1..], k - 1);
    }
  }

  lemma {:induction false} SubsequenceChars(a: string, b: string)
    requires IsSubsequence(a, b)
    ensures forall c :: c in a ==> c in b
    decreases |b|
  {
    if a != [] {
      if IsSubsequence(a, b[1..]) {
        SubsequenceChars(a, b[1..]);
      } else {
        SubsequenceChars(a[1..], b[1..]);
        assert a == [a[0]] + a[1..];
      }
    }
  }

  /** Stripping only removes characters. */
  lemma {:induction false} StripTagsSubsequence(s: string)
    ensures IsSubsequence(StripTags(s), s)
    decreases |s|
  {
    if s != [] {
      if s[0] == '<' && '>' in s[1..] {
        var close := IndexOf(s[1..], '>');
        StripTagsSubsequence(s[close + 2..]);
        SubsequenceOfSuffix(StripTags(s), s, close + 2);
      } else {
        StripTagsSubsequence(s[1..]);
        var r := StripTags(s);
        assert r[0] == s[0] && r[1..] == StripTags(s[1..]);
      }
    }
  }

  /** Nothing tag-like survives stripping. */
  lemma {:induction false} StripTagsTagFree(s: string)
    ensures TagFree(StripTags(s))
    decreases |s|
  {
    if s != [] {
      if s[0] == '<' && '>' in s[1..] {
        StripTagsTagFree(s[IndexOf(s[1..], '>') + 2..]);
      } else {
        var rest := StripTags(s[1..]);
        StripTagsTagFree(s[1..]);
        if s[0] == '<' {
          StripTagsSubsequence(s[1..]);
          SubsequenceChars(rest, s[1..]);
        }
        assert StripTags(s) == [s[0]] + rest;
        TagFreeCons(s[0], rest);
      }
    }
  }

  /** A character put in front of tag-free text keeps it tag-free unless it is a '<' with a '>' after it. */
  lemma TagFreeCons(c: char, rest: string)
    requires TagFree(rest) && (c == '<' ==> '>' !in rest)
    ensures TagFree([c] + rest)
  {
    var r := [c] + rest;
    forall i, j | 0 <= i < j < |r| && r[i] == '<'
      ensures r[j] != '>'
    {
      assert r[j] == rest[j - 1];
      if i > 0 {
        assert r[i] == rest[i - 1];
      }
    }
  }

  /** Text with nothing tag-like in it comes out unchanged. */
  lemma {:induction false} StripTagsKeepsTagFree(s: string)
    requires TagFree(s)
    ensures StripTags(s) == s
    decreases |s|
  {
    if s != [] {
      if s[0] == '<' {
        assert '>' !in s[1..] by {
          forall j | 0 <= j < |s[1..]| ensures s[1..][j] != '>' {
            assert s[1..][j] == s[j + 1];
          }
        }
      }
      assert TagFree(s[1..]) by {
        forall i, j | 0 <= i < j < |s[1..]| && s[1..][i] == '<' ensures s[1..][j] != '>' {
          assert s[1..][i] == s[i + 1] && s[1..][j] == s[j + 1];
        }
      }
      StripTagsKeepsTagFree(s[1..]);
      assert s == [s[0]] + s[1..];
    }
  }

  /** Stripping twice is stripping once. */
  lemma StripTagsIdempotent(s: string)
    ensures StripTags(StripTags(s)) == StripTags(s)
  {
    StripTagsTagFree(s);
    StripTagsKeepsTagFree(StripTags(s));
  }

  /** Text before the first '<' passes through as it is. */
  lemma {:induction false} StripTagsPlainPrefix(p: string, q: string)
    requires '<' !in p
    ensures StripTags(p + q) == p + StripTags(q)
    decreases |p|
  {
    if p != [] {
      assert p[0] in p && (p + q)[0] == p[0] && (p + q)[1..] == p[1..] + q;
      assert StripTags(p + q) == [p[0]] + StripTags(p[1..] + q);
      StripTagsPlainPrefix(p[1..], q);
      assert p == [p[0]] + p[1..];
    } else {
      assert p + q == q;
    }
  }

  /** A tag, from '<' to the first '>' after it, is removed whole. */
  lemma StripTagsDropsTag(t: string, q: string)
    requires '>' !in t
    ensures StripTags(['<'] + t + ['>'] + q) == StripTags(q)
  {
    var s := ['<'] + t + ['>'] + q;
    assert s[1..] == t + ['>'] + q;
    IndexOfAfter(t, '>', q);
    assert s[|t| + 2..] == q;
  }

  lemma ScriptTagsSpelled()
    ensures "<script>" == ['<'] + "script" + ['>'] && "</script>" == ['<'] + "/script" + ['>']
    ensures '>' !in "script" && '>' !in "/script" && '<' !in "alert(1)"
  {
  }

  lemma PlainWordKept()
    ensures StripTags("benign") == "benign"
  {
    assert TagFree("benign");
    StripTagsKeepsTagFree("benign");
  }

  /** A script element loses its tags; the script text between them is kept. */
  lemma ScriptExample()
    ensures StripTags("<script>" + "alert(1)" + "</script>" + "benign") == "alert(1)" + "benign"
  {
    var open, text, close, q := "<script>", "alert(1)", "</script>", "benign";
    ScriptTagsSpelled();
    PlainWordKept();
    StripTagsDropsTag("/script", q);
    StripTagsPlainPrefix(text, close + q);
    StripTagsDropsTag("script", text + (close + q));
    ConcatAssoc(open + text, close, q);
    ConcatAssoc(open, text, close + q);
  }

  // ---------------------------------------------------------------------------
  // The sanitised table

  /** The cell after `col.astype(str).apply(strip)` for an `object` column; other columns are left alone. */
  function SanitizeCell(dtype: Dtype, c: Cell): (r: Cell)
  {
    if dtype == ObjectDtype then StrCell(StripTags(CellText(c))) else c
  }

  /** The rows with the cells of the columns before `k` sanitised and the others as they were. */
  function SanitizeRows(dtypes: seq<Dtype>, rows: seq<seq<Cell>>, k: nat): (out: seq<seq<Cell>>)
    requires Rectangular(|dtypes|, rows) && k <= |dtypes|
    ensures |out| == |rows| && Rectangular(|dtypes|, out)
  {
    seq(|rows|, r requires 0 <= r < |rows| =>
      seq(|dtypes|, c requires 0 <= c < |dtypes| => if c < k then SanitizeCell(dtypes[c], rows[r][c]) else rows[r][c]))
  }

  /** The table `sanitize_dataframe` returns, when the stripping loop does not raise. */
  function SanitizedFrame(df: Frame): (clean: Frame)
    requires WellFormed(df)
  {
    Frame(NormalizeColumns(df.columns), df.dtypes, SanitizeRows(df.dtypes, df.rows, |df.dtypes|))
  }

  /** A text cell comes out as text with no tag left, made only of characters of its `str()` form, in order. */
  lemma SanitizeObjectCell(c: Cell)
    ensures SanitizeCell(ObjectDtype, c).StrCell?
    ensures TagFree(SanitizeCell(ObjectDtype, c).s)
    ensures IsSubsequence(SanitizeCell(ObjectDtype, c).s, CellText(c))
  {
    StripTagsTagFree(CellText(c));
    StripTagsSubsequence(CellText(c));
  }

  /**
   * The returned table has the rows and the column types it was given, and a
   * normalised label per column; a numeric cell is unchanged, and an `object`
   * cell is tag-free text drawn, in order, from the original cell's text.
   */
  lemma SanitizedShape(df: Frame)
    requires WellFormed(df)
    ensures var clean := SanitizedFrame(df);
      WellFormed(clean) && |clean.rows| == |df.rows| && clean.dtypes == df.dtypes &&
      forall k :: 0 <= k < |df.columns| ==> clean.columns[k] == NormalizeName(df.columns[k])
    ensures var clean := SanitizedFrame(df);
      forall r, c :: 0 <= r < |df.rows| && 0 <= c < |df.dtypes| && df.dtypes[c] == NumericDtype ==>
        clean.rows[r][c] == df.rows[r][c]
    ensures var clean := SanitizedFrame(df);
      forall r, c :: 0 <= r < |df.rows| && 0 <= c < |df.dtypes| && df.dtypes[c] == ObjectDtype ==>
        clean.rows[r][c].StrCell? && TagFree(clean.rows[r][c].s) && IsSubsequence(clean.rows[r][c].s, CellText(df.rows[r][c]))
  {
    var clean := SanitizedFrame(df);
    forall r, c | 0 <= r < |df.rows| && 0 <= c < |df.dtypes| && df.dtypes[c] == ObjectDtype
      ensures clean.rows[r][c].StrCell? && TagFree(clean.rows[r][c].s) && IsSubsequence(clean.rows[r][c].s, CellText(df.rows[r][c]))
    {
      SanitizeObjectCell(df.rows[r][c]);
    }
  }

  /**
   * Sanitising a sanitised table changes nothing, and raises exactly when
   * sanitising the original did: a returned table can be sanitised again.
   */
  lemma SanitizeIdempotent(df: Frame)
    requires WellFormed(df)
    ensures WellFormed(SanitizedFrame(df)) && SanitizedFrame(SanitizedFrame(df)) == SanitizedFrame(df)
    ensures var clean := SanitizedFrame(df);
      StripRaises(NormalizeColumns(clean.columns), clean.dtypes, clean.rows) == StripRaises(NormalizeColumns(df.columns), df.dtypes, df.rows)
  {
    var clean := SanitizedFrame(df);
    var again := SanitizedFrame(clean);
    forall k | 0 <= k < |df.columns| ensures again.columns[k] == clean.columns[k] {
      NormalizeIdempotent(df.columns[k]);
    }
    assert NormalizeColumns(clean.columns) == clean.columns;
    forall r, c | 0 <= r < |df.rows| && 0 <= c < |df.dtypes|
      ensures again.rows[r][c] == clean.rows[r][c]
    {
      if df.dtypes[c] == ObjectDtype {
        StripTagsIdempotent(CellText(df.rows[r][c]));
      }
    }
    forall r | 0 <= r < |df.rows| ensures again.rows[r] == clean.rows[r] {
    }
  }

  // ---------------------------------------------------------------------------
  // The operation itself

  /** After relabelling for the first `i` original labels: the columns carrying one of them have their normal form. */
  predicate RenamedUpTo(labels: seq<string>, columns: seq<string>, i: nat)
    requires i <= |labels|
  {
    |columns| == |labels| &&
    forall k :: 0 <= k < |columns| ==>
      columns[k] == if labels[k] in labels[..i] then NormalizeName(labels[k]) else labels[k]
  }

  /**
   * Renaming the columns labelled `labels[i]` keeps the relabelling in step: a
   * column renamed earlier can be renamed again only to the same name, as
   * normalising is idempotent.
   */
  lemma RenameStep(labels: seq<string>, columns: seq<string>, i: nat)
    requires i < |labels| && RenamedUpTo(labels, columns, i)
    ensures RenamedUpTo(labels, RenameLabel(columns, labels[i], NormalizeName(labels[i])), i + 1)
  {
    var name := labels[i];
    var next := RenameLabel(columns, name, NormalizeName(name));
    assert labels[..i + 1] == labels[..i] + [name];
    forall k | 0 <= k < |next|
      ensures next[k] == if labels[k] in labels[..i + 1] then NormalizeName(labels[k]) else labels[k]
    {
      if labels[k] in labels[..i] {
        NormalizeIdempotent(labels[k]);
      }
    }
  }

  /**
   * The relabelling loop: for each original label in turn, every column
   * currently carrying it is renamed to its normal form.
   */
  method RenameColumns(labels: seq<string>) returns (columns: seq<string>)
    ensures columns == NormalizeColumns(labels)
  {
    columns := labels;
    for i := 0 to |labels|
      invariant RenamedUpTo(labels, columns, i)
    {
      RenameStep(labels, columns, i);
      columns := RenameLabel(columns, labels[i], NormalizeName(labels[i]));
    }
    assert labels[..|labels|] == labels;
  }

  /** The errors of the fields from `j` on: those of field `j`, then, unless its column is absent, the rest. */
  lemma FieldErrorsStep(columns: seq<string>, row: seq<Cell>, idx: nat, fields: seq<Field>, j: nat)
    requires |row| == |columns| && j < |fields|
    ensures Lookup(columns, row, fields[j].name).None? ==>
      FieldErrors(columns, row, idx, fields[j..]) == [MissingColumn(fields[j].name)]
    ensures Lookup(columns, row, fields[j].name).Some? ==>
      var v := Lookup(columns, row, fields[j].name).value;
      FieldErrors(columns, row, idx, fields[j..]) == CheckError(fields[j], v, idx) + FieldErrors(columns, row, idx, fields[j + 1..])
  {
    assert fields[j..][0] == fields[j] && fields[j..][1..] == fields[j + 1..];
  }

  /**
   * The checks of one row, in order, stopping at the first missing column:
   * the body of the `try` block, whose `KeyError` handler appends the
   * missing column and moves on to the next row.
   */
  method ValidateFields(columns: seq<string>, row: seq<Cell>, idx: nat, fields: seq<Field>) returns (errs: seq<ValidationError>)
    requires |row| == |columns|
    ensures errs == FieldErrors(columns, row, idx, fields)
  {
    errs := [];
    assert fields[0..] == fields;
    for j := 0 to |fields|
      invariant errs + FieldErrors(columns, row, idx, fields[j..]) == FieldErrors(columns, row, idx, fields)
    {
      var field := fields[j];
      FieldErrorsStep(columns, row, idx, fields, j);
      var v := Lookup(columns, row, field.name);
      if v.None? {
        errs := errs + [MissingColumn(field.name)];
        return;
      }
      ghost var before := errs;
      if !Passes(field, v.value) {
        errs := errs + [InvalidValue(field.description, idx, v.value)];
      }
      assert errs == before + CheckError(field, v.value, idx);
      ConcatAssoc(before, CheckError(field, v.value, idx), FieldErrors(columns, row, idx, fields[j + 1..]));
    }
    assert fields[|fields|..] == [];
  }

  /** The row loop: each row's errors appended after those of the rows before it. */
  method ValidateRows(columns: seq<string>, rows: seq<seq<Cell>>, fields: seq<Field>) returns (errors: seq<ValidationError>)
    requires Rectangular(|columns|, rows)
    ensures errors == TableErrors(columns, rows, fields)
  {
    errors := [];
    for idx := 0 to |rows|
      invariant errors == TableErrors(columns, rows[..idx], fields)
    {
      var rowErrors := ValidateFields(columns, rows[idx], idx, fields);
      errors := errors + rowErrors;
      assert rows[..idx + 1][..idx] == rows[..idx];
    }
    assert rows[..|rows|] == rows;
  }

  /** `clean_df[col] = clean_df[col].astype(str).apply(strip)` for column `k`. */
  function StripColumn(rows: seq<seq<Cell>>, width: nat, k: nat): (out: seq<seq<Cell>>)
    requires k < width && Rectangular(width, rows)
    ensures |out| == |rows| && Rectangular(width, out)
  {
    seq(|rows|, r requires 0 <= r < |rows| => rows[r][k := SanitizeCell(ObjectDtype, rows[r][k])])
  }

  /** Stripping an `object` column extends the sanitised part of the rows by that column. */
  lemma StripColumnStep(dtypes: seq<Dtype>, rows: seq<seq<Cell>>, k: nat)
    requires Rectangular(|dtypes|, rows) && k < |dtypes| && dtypes[k] == ObjectDtype
    ensures StripColumn(SanitizeRows(dtypes, rows, k), |dtypes|, k) == SanitizeRows(dtypes, rows, k + 1)
  {
    var a := StripColumn(SanitizeRows(dtypes, rows, k), |dtypes|, k);
    var b := SanitizeRows(dtypes, rows, k + 1);
    forall r | 0 <= r < |rows| ensures a[r] == b[r] {
      assert |a[r]| == |b[r]|;
    }
  }

  /** A column of another type is left as it is. */
  lemma NumericColumnStep(dtypes: seq<Dtype>, rows: seq<seq<Cell>>, k: nat)
    requires Rectangular(|dtypes|, rows) && k < |dtypes| && dtypes[k] != ObjectDtype
    ensures SanitizeRows(dtypes, rows, k) == SanitizeRows(dtypes, rows, k + 1)
  {
    var a := SanitizeRows(dtypes, rows, k);
    var b := SanitizeRows(dtypes, rows, k + 1);
    forall r | 0 <= r < |rows| ensures a[r] == b[r] {
      assert |a[r]| == |b[r]|;
    }
  }

  /** Some other column carries the label of column `k`, so `clean_df[columns[k]]` is a DataFrame. */
  predicate LabelShared(columns: seq<string>, k: nat)
    requires k < |columns|
  {
    exists j :: 0 <= j < |columns| && j != k && columns[j] == columns[k]
  }

  /** Two columns carrying the label give two positions. */
  lemma {:induction false} PositionsTwo(columns: seq<string>, name: string, i: nat, j: nat)
    requires i < j < |columns| && columns[i] == name && columns[j] == name
    ensures |Positions(columns, name)| >= 2
    decreases |columns|
  {
    var last := |columns| - 1;
    if j == last {
      assert columns[..last][i] == name;
      PositionsEmptyIff(columns[..last], name);
    } else {
      PositionsTwo(columns[..last], name, i, j);
    }
  }

  /** A column's label is shared exactly when it is found at more than one position. */
  lemma LabelSharedIff(columns: seq<string>, k: nat)
    requires k < |columns|
    ensures LabelShared(columns, k) <==> |Positions(columns, columns[k])| > 1
  {
    if LabelShared(columns, k) {
      var j :| 0 <= j < |columns| && j != k && columns[j] == columns[k];
      if j < k {
        PositionsTwo(columns, columns[k], j, k);
      } else {
        PositionsTwo(columns, columns[k], k, j);
      }
    } else {
      PositionsUnique(columns, columns[k], k);
    }
  }

  /**
   * The stripping loop raises `TypeError`: the table has a row, and a text
   * column shares its label with another column, so `clean_df[col]` is a
   * DataFrame whose `.apply` hands `re.sub` a whole column instead of a
   * string. (With no row, pandas' `apply` only probes the function with an
   * empty Series and swallows the `TypeError` it raises.)
   */
  predicate StripRaises(columns: seq<string>, dtypes: seq<Dtype>, rows: seq<seq<Cell>>)
    requires |dtypes| == |columns|
  {
    |rows| > 0 && exists k :: 0 <= k < |columns| && dtypes[k] == ObjectDtype && LabelShared(columns, k)
  }

  /**
   * The stripping loop over the `object` columns (`select_dtypes(include=['object'])`);
   * `None` where it raises `TypeError`.
   */
  method StripObjectColumns(columns: seq<string>, dtypes: seq<Dtype>, rows: seq<seq<Cell>>) returns (out: Option<seq<seq<Cell>>>)
    requires |dtypes| == |columns| && Rectangular(|dtypes|, rows)
    ensures out.None? <==> StripRaises(columns, dtypes, rows)
    ensures out.Some? ==> out.value == SanitizeRows(dtypes, rows, |dtypes|)
  {
    var stripped := rows;
    assert rows == SanitizeRows(dtypes, rows, 0) by {
      var z := SanitizeRows(dtypes, rows, 0);
      forall r | 0 <= r < |rows| ensures rows[r] == z[r] {
        assert |rows[r]| == |z[r]|;
      }
    }
    for k := 0 to |dtypes|
      invariant stripped == SanitizeRows(dtypes, rows, k)
      invariant |rows| > 0 ==> forall j :: 0 <= j < k && dtypes[j] == ObjectDtype ==> !LabelShared(columns, j)
    {
      if dtypes[k] == ObjectDtype {
        LabelSharedIff(columns, k);
        if |rows| > 0 && |Positions(columns, columns[k])| > 1 {
          return None;
        }
        StripColumnStep(dtypes, rows, k);
        stripped := StripColumn(stripped, |dtypes|, k);
      } else {
        NumericColumnStep(dtypes, rows, k);
      }
    }
    return Some(stripped);
  }

  /** How `sanitize_dataframe` ends: it returns the sanitised copy and the errors, or the stripping loop raises `TypeError`. */
  datatype Outcome = Returned(clean: Frame, errors: seq<ValidationError>) | StripTypeError

  /**
   * `sanitize_dataframe(df)`: relabel the columns, validate the rows under
   * the new labels, then strip the `object` columns. The errors are
   * collected from the cells as they were before stripping; they are lost
   * when the stripping loop raises.
   */
  method SanitizeDataFrame(df: Frame) returns (out: Outcome)
    requires WellFormed(df)
    ensures out.StripTypeError? <==> StripRaises(NormalizeColumns(df.columns), df.dtypes, df.rows)
    ensures out.Returned? ==> out.clean == SanitizedFrame(df)
    ensures out.Returned? ==> out.errors == TableErrors(NormalizeColumns(df.columns), df.rows, REQUIRED_FIELDS)
  {
    var columns := RenameColumns(df.columns);
    var errors := ValidateRows(columns, df.rows, REQUIRED_FIELDS);
    var rows := StripObjectColumns(columns, df.dtypes, df.rows);
    if rows.None? {
      return StripTypeError;
    }
    return Returned(Frame(columns, df.dtypes, rows.value), errors);
  }

  /**
   * " Src_IP " and "src_ip" both become `src_ip`; when one of them is a text
   * column of a table with a row, the stripping loop raises.
   */
  lemma DuplicateTextLabelRaises(a: Cell, b: Cell)
    ensures StripRaises(NormalizeColumns([" Src_IP ", "src_ip"]), [ObjectDtype, NumericDtype], [[a, b]])
  {
    NormalizeExample();
    var columns := NormalizeColumns([" Src_IP ", "src_ip"]);
    assert columns[1] == columns[0];
    assert LabelShared(columns, 0);
  }

  /** Labels that stay distinct after normalisation never make the stripping loop raise. */
  lemma DistinctLabelsReturn(df: Frame)
    requires WellFormed(df)
    requires forall i, j :: 0 <= i < j < |df.columns| ==> NormalizeName(df.columns[i]) != NormalizeName(df.columns[j])
    ensures !StripRaises(NormalizeColumns(df.columns), df.dtypes, df.rows)
  {
    var columns := NormalizeColumns(df.columns);
    forall k | 0 <= k < |columns| ensures !LabelShared(columns, k) {
      forall j | 0 <= j < |columns| && j != k ensures columns[j] != columns[k] {
        if j < k {
          assert NormalizeName(df.columns[j]) != NormalizeName(df.columns[k]);
        } else {
          assert NormalizeName(df.columns[k]) != NormalizeName(df.columns[j]);
        }
      }
    }
  }
}
