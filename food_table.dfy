/** The food composition table of app.py once `pd.read_excel` has read
    it: the rows without a food name are dropped (line 40), the required
    columns are checked (lines 43-49), the selectbox options are built
    (lines 55-58) and a row is looked up by its code (lines 74-75). */
module FoodTable {
  import opened Wrappers
  import Labels

  /** One cell of the table as pandas hands it over: a number, a text, a
      blank spreadsheet cell (read as NaN), or Python's `None`, which is
      what `extract_value` leaves in a nutrient when it finds no number. */
  datatype Cell = Num(x: real) | Text(s: string) | Nan | NoneValue {
    /** What `dropna` counts as missing. */
    predicate IsNA() {
      Nan? || NoneValue?
    }
  }

  /** A row maps column names to cells. */
  type Row = map<string, Cell>

  datatype Table = Table(columns: seq<string>, rows: seq<Row>)

  /** Every row has a cell in every column, as in any DataFrame. */
  ghost predicate WellFormed(t: Table) {
    forall i, c :: 0 <= i < |t.rows| && c in t.columns ==> c in t.rows[i]
  }

  /** The nine nutrient columns, in the order app.py reads them. */
  const NutrientFields: seq<string> :=
    ["Moisture", "Protein", "Ash", "Total Fat", "Total", "Insoluble", "Soluble",
     "Carbohydrate", "Energy"]

  /** The columns app.py requires, in its order. */
  const RequiredColumns: seq<string> := ["Food Code", "Food Name"] + NutrientFields

  /** `all(column in columns for column in required)`. */
  function AllPresent(required: seq<string>, columns: seq<string>): (r: bool)
    ensures r <==> forall k :: 0 <= k < |required| ==> required[k] in columns
  {
    if required == [] then true
    else required[0] in columns && AllPresent(required[1..], columns)
  }

  /** `df.dropna(subset=["Food Name"])`: the rows whose name is not
      missing, in their order. */
  function DropMissingNames(rows: seq<Row>): (r: seq<Row>)
    requires forall i :: 0 <= i < |rows| ==> "Food Name" in rows[i]
    ensures |r| <= |rows|
    ensures forall i :: 0 <= i < |r| ==> r[i] in rows && !r[i]["Food Name"].IsNA()
    ensures forall i :: 0 <= i < |rows| && !rows[i]["Food Name"].IsNA() ==> rows[i] in r
  {
    if rows == [] then []
    else
      var tail := DropMissingNames(rows[1..]);
      if rows[0]["Food Name"].IsNA() then tail else [rows[0]] + tail
  }

  /** Dropping works row by row: on two tables put one after the other it
      keeps the named rows of the first, then those of the second, so it
      keeps their order and their repetitions. */
  lemma {:induction false} DropMissingNamesAppend(a: seq<Row>, b: seq<Row>)
    requires forall i :: 0 <= i < |a| ==> "Food Name" in a[i]
    requires forall i :: 0 <= i < |b| ==> "Food Name" in b[i]
    ensures DropMissingNames(a + b) == DropMissingNames(a) + DropMissingNames(b)
  {
    if a == [] {
      assert a + b == b;
    } else {
      assert (a + b)[1..] == a[1..] + b;
      DropMissingNamesAppend(a[1..], b);
    }
  }

  /** Dropping twice drops nothing more. */
  lemma {:induction false} DropMissingNamesIdempotent(rows: seq<Row>)
    requires forall i :: 0 <= i < |rows| ==> "Food Name" in rows[i]
    ensures DropMissingNames(DropMissingNames(rows)) == DropMissingNames(rows)
  {
    if rows != [] {
      DropMissingNamesIdempotent(rows[1..]);
    }
  }

  /** A row that survives the drop and carries the given code. */
  predicate NamedWithCode(row: Row, code: string) {
    "Food Name" in row && !row["Food Name"].IsNA() && HasCode(row, code)
  }

  /** The index of the first row of the input that survives the drop and
      carries the given code, or None when no such row exists. */
  function FirstNamedWithCode(rows: seq<Row>, code: string): (r: Option<nat>)
    ensures r.Some? ==> r.value < |rows| && NamedWithCode(rows[r.value], code)
    ensures r.Some? ==> forall i :: 0 <= i < r.value ==> !NamedWithCode(rows[i], code)
    ensures r.None? <==> forall i :: 0 <= i < |rows| ==> !NamedWithCode(rows[i], code)
  {
    if rows == [] then None
    else if NamedWithCode(rows[0], code) then Some(0)
    else
      match FirstNamedWithCode(rows[1..], code)
      case None => None
      case Some(i) => Some(i + 1)
  }

  /** Looking a code up after the drop finds the first NAMED row of the
      input with that code, and finds nothing exactly when no named row
      has it. */
  lemma {:induction false} FirstWithCodeAfterDrop(rows: seq<Row>, code: string)
    requires forall i :: 0 <= i < |rows| ==> "Food Name" in rows[i]
    ensures FirstWithCode(DropMissingNames(rows), code).None? <==> FirstNamedWithCode(rows, code).None?
    ensures FirstWithCode(DropMissingNames(rows), code).Some? ==>
      DropMissingNames(rows)[FirstWithCode(DropMissingNames(rows), code).value]
        == rows[FirstNamedWithCode(rows, code).value]
  {
    if rows != [] {
      FirstWithCodeAfterDrop(rows[1..], code);
      if NamedWithCode(rows[0], code) {
        assert DropMissingNames(rows)[0] == rows[0];
      } else {
        FirstWithCodeAfterDropSkip(rows, code);
      }
    }
  }

  /** The step of `FirstWithCodeAfterDrop` past a first row that is
      dropped or has another code: both lookups move on by the same
      count. */
  lemma FirstWithCodeAfterDropSkip(rows: seq<Row>, code: string)
    requires rows != []
    requires forall i :: 0 <= i < |rows| ==> "Food Name" in rows[i]
    requires !NamedWithCode(rows[0], code)
    requires FirstWithCode(DropMissingNames(rows[1..]), code).None? <==> FirstNamedWithCode(rows[1..], code).None?
    requires FirstWithCode(DropMissingNames(rows[1..]), code).Some? ==>
      DropMissingNames(rows[1..])[FirstWithCode(DropMissingNames(rows[1..]), code).value]
        == rows[1..][FirstNamedWithCode(rows[1..], code).value]
    ensures FirstWithCode(DropMissingNames(rows), code).None? <==> FirstNamedWithCode(rows, code).None?
    ensures FirstWithCode(DropMissingNames(rows), code).Some? ==>
      DropMissingNames(rows)[FirstWithCode(DropMissingNames(rows), code).value]
        == rows[FirstNamedWithCode(rows, code).value]
  {
    var named := FirstNamedWithCode(rows[1..], code);
    assert FirstNamedWithCode(rows, code) == if named.None? then None else Some(named.value + 1);
    DropSkipsRow(rows, code);
  }

  /** Past a first row that is dropped or has another code, the lookup
      after the drop is the lookup in the rest, moved by one position
      when that first row is kept. */
  lemma DropSkipsRow(rows: seq<Row>, code: string)
    requires rows != []
    requires forall i :: 0 <= i < |rows| ==> "Food Name" in rows[i]
    requires !NamedWithCode(rows[0], code)
    ensures var d := if rows[0]["Food Name"].IsNA() then 0 else 1;
      var found := FirstWithCode(DropMissingNames(rows[1..]), code);
      && FirstWithCode(DropMissingNames(rows), code) == (if found.None? then None else Some(found.value + d))
      && (found.Some? ==> DropMissingNames(rows)[found.value + d] == DropMissingNames(rows[1..])[found.value])
  {
    var tail := DropMissingNames(rows[1..]);
    if rows[0]["Food Name"].IsNA() {
      assert DropMissingNames(rows) == tail;
    } else {
      assert DropMissingNames(rows) == [rows[0]] + tail;
      FirstWithCodeCons(rows[0], tail, code);
    }
  }

  /** A first row without the code moves the lookup on by one. */
  lemma FirstWithCodeCons(row: Row, rows: seq<Row>, code: string)
    requires !HasCode(row, code)
    ensures var found := FirstWithCode(rows, code);
      FirstWithCode([row] + rows, code) == (if found.None? then None else Some(found.value + 1))
  {
    assert ([row] + rows)[1..] == rows;
  }

  /** Why the page stops before anything can be selected. */
  datatype LoadError =
    | MissingNameColumn   // `dropna(subset=["Food Name"])` raises a KeyError
    | MissingColumns      // "Excel file must contain the required columns."

  /** The table the page works with, or why it stops. The dropna of line
      40 runs before the check of line 47, so a missing "Food Name" column
      fails there first. */
  function Load(raw: Table): (r: Result<Table, LoadError>)
    requires WellFormed(raw)
    ensures (r.Err? && r.error.MissingNameColumn?) <==> "Food Name" !in raw.columns
    ensures r.Ok? ==> r.value.columns == raw.columns && r.value.rows == DropMissingNames(raw.rows)
    ensures r.Ok? ==> Loaded(r.value)
  {
    if "Food Name" !in raw.columns then Err(MissingNameColumn)
    else
      var t := Table(raw.columns, DropMissingNames(raw.rows));
      assert WellFormed(t) by {
        forall i, c | 0 <= i < |t.rows| && c in t.columns ensures c in t.rows[i] {
          var j :| 0 <= j < |raw.rows| && raw.rows[j] == t.rows[i];
        }
      }
      if AllPresent(RequiredColumns, raw.columns) then Ok(t) else Err(MissingColumns)
  }

  /** A loaded table: well formed, with every required column, and no row
      without a name. */
  ghost predicate Loaded(t: Table) {
    && WellFormed(t)
    && (forall k :: 0 <= k < |RequiredColumns| ==> RequiredColumns[k] in t.columns)
    && (forall i :: 0 <= i < |t.rows| ==> "Food Name" in t.rows[i] && !t.rows[i]["Food Name"].IsNA())
  }

  /** Loading succeeds exactly when all eleven required columns are
      there, and then yields a loaded table whose rows are the named rows
      of the input. */
  lemma LoadOkIff(raw: Table)
    requires WellFormed(raw)
    ensures Load(raw).Ok? <==> forall k :: 0 <= k < |RequiredColumns| ==> RequiredColumns[k] in raw.columns
    ensures Load(raw).Ok? ==> Loaded(Load(raw).value) && Load(raw).value.columns == raw.columns
    ensures Load(raw).Ok? ==> Load(raw).value.rows == DropMissingNames(raw.rows)
    ensures Load(raw).Ok? ==> forall i :: 0 <= i < |raw.rows| && !raw.rows[i]["Food Name"].IsNA() ==>
      raw.rows[i] in Load(raw).value.rows
  {
    if "Food Name" !in raw.columns {
      assert RequiredColumns[1] == "Food Name";
    }
  }

  /** A table without the "Energy" column stops the page. */
  lemma MissingEnergyStops(raw: Table)
    requires WellFormed(raw) && "Energy" !in raw.columns
    ensures Load(raw).Err?
  {
    assert RequiredColumns[10] == "Energy";
  }

  /** The label of a row in the selectbox, for rows whose code and name
      are texts; rows with a missing code or name are not offered. */
  function OptionOf(row: Row): (r: Option<string>)
    ensures r.Some? <==> IsText(row, "Food Code") && IsText(row, "Food Name")
    ensures r.Some? ==> r.value != Placeholder
  {
    if IsText(row, "Food Code") && IsText(row, "Food Name") then
      LabelIsNotPlaceholder(row["Food Code"].s, row["Food Name"].s);
      Some(Labels.Label(row["Food Code"].s, row["Food Name"].s))
    else None
  }

  /** Whether the row has a text in the given column. */
  predicate IsText(row: Row, column: string) {
    column in row && row[column].Text?
  }

  /** The first entry of the selectbox. */
  const Placeholder: string := "Select a food item"

  /** An option label always ends in `**`, so it is never the
      placeholder. */
  lemma LabelIsNotPlaceholder(code: string, name: string)
    ensures Labels.Label(code, name) != Placeholder
  {
    var selection := Labels.Label(code, name);
    assert selection[|selection| - 1] == '*';
    assert Placeholder[|Placeholder| - 1] == 'm';
  }

  /** The selectbox options of lines 55-58, after the placeholder. */
  function FoodLabels(rows: seq<Row>): (r: seq<string>)
    ensures forall k :: 0 <= k < |r| ==>
      exists i :: 0 <= i < |rows| && OptionOf(rows[i]) == Some(r[k])
    ensures forall i :: 0 <= i < |rows| && OptionOf(rows[i]).Some? ==> OptionOf(rows[i]).value in r
  {
    if rows == [] then []
    else
      var rest := rows[1..];
      var tail := FoodLabels(rest);
      var r := if OptionOf(rows[0]).Some? then [OptionOf(rows[0]).value] + tail else tail;
      OptionsOfStep(rows, rest, tail, r);
      r
  }

  /** The step of `FoodLabels`: what it states of the options `tail` of
      the rows `rest` after the first carries over to all the rows once
      the first row's option, if any, is put in front. */
  lemma OptionsOfStep(rows: seq<Row>, rest: seq<Row>, tail: seq<string>, r: seq<string>)
    requires rows != [] && rest == rows[1..]
    requires forall k :: 0 <= k < |tail| ==> exists i :: 0 <= i < |rest| && OptionOf(rest[i]) == Some(tail[k])
    requires forall i :: 0 <= i < |rest| && OptionOf(rest[i]).Some? ==> OptionOf(rest[i]).value in tail
    requires r == if OptionOf(rows[0]).Some? then [OptionOf(rows[0]).value] + tail else tail
    ensures forall k :: 0 <= k < |r| ==> exists i :: 0 <= i < |rows| && OptionOf(rows[i]) == Some(r[k])
    ensures forall i :: 0 <= i < |rows| && OptionOf(rows[i]).Some? ==> OptionOf(rows[i]).value in r
  {
    forall k | 0 <= k < |r| ensures exists i :: 0 <= i < |rows| && OptionOf(rows[i]) == Some(r[k]) {
      if OptionOf(rows[0]).Some? && k == 0 {
        assert OptionOf(rows[0]) == Some(r[0]);
      } else {
        var t := if OptionOf(rows[0]).Some? then k - 1 else k;
        assert r[k] == tail[t];
        var j :| 0 <= j < |rest| && OptionOf(rest[j]) == Some(tail[t]);
        assert rest[j] == rows[j + 1];
        assert OptionOf(rows[j + 1]) == Some(r[k]);
      }
    }
    forall i | 0 <= i < |rows| && OptionOf(rows[i]).Some? ensures OptionOf(rows[i]).value in r {
      OptionCovered(rows, rest, tail, r, i);
    }
  }

  /** One row of the second half of `OptionsOfStep`: every option of a
      row is listed. */
  lemma OptionCovered(rows: seq<Row>, rest: seq<Row>, tail: seq<string>, r: seq<string>, i: nat)
    requires rows != [] && rest == rows[1..]
    requires forall i :: 0 <= i < |rest| && OptionOf(rest[i]).Some? ==> OptionOf(rest[i]).value in tail
    requires r == if OptionOf(rows[0]).Some? then [OptionOf(rows[0]).value] + tail else tail
    requires i < |rows| && OptionOf(rows[i]).Some?
    ensures OptionOf(rows[i]).value in r
  {
    if i == 0 {
      assert r[0] == OptionOf(rows[0]).value;
    } else {
      var x := OptionOf(rest[i - 1]).value;
      assert rows[i] == rest[i - 1];
      assert x in tail;
      if OptionOf(rows[0]).Some? {
        assert r == [OptionOf(rows[0]).value] + tail;
        assert x in r;
      }
    }
  }

  /** Whether a row's code equals the given text; a number or a blank
      never equals a text. */
  predicate HasCode(row: Row, code: string) {
    "Food Code" in row && row["Food Code"] == Text(code)
  }

  /** `df[df["Food Code"] == code]`, first row: the index of the first
      row with that code, or None when the filtered frame is empty. */
  function FirstWithCode(rows: seq<Row>, code: string): (r: Option<nat>)
    ensures r.Some? ==> r.value < |rows| && HasCode(rows[r.value], code)
    ensures r.Some? ==> forall i :: 0 <= i < r.value ==> !HasCode(rows[i], code)
    ensures r.None? <==> forall i :: 0 <= i < |rows| ==> !HasCode(rows[i], code)
  {
    if rows == [] then None
    else if HasCode(rows[0], code) then Some(0)
    else
      match FirstWithCode(rows[1..], code)
      case None => None
      case Some(i) => Some(i + 1)
  }

  /** The lookup finds a row exactly when that row has the code and no
      earlier row has it. */
  lemma FirstWithCodeIs(rows: seq<Row>, code: string, i: nat)
    requires i < |rows| && HasCode(rows[i], code)
    requires forall j :: 0 <= j < i ==> !HasCode(rows[j], code)
    ensures FirstWithCode(rows, code) == Some(i)
  {
    var first := FirstWithCode(rows, code);
    assert first.Some?;
    assert !(first.value < i) && !(first.value > i);
  }
}
