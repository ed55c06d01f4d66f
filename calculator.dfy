/** The page script of app.py from the loaded table to what it shows:
    the placeholder check (line 62), the label split (line 64), the
    lookup by stripped code (lines 74-75), the nutrient dict and its
    normalisation (lines 77-92) and the scaling (line 95). The Streamlit
    calls are left out; what the page ends in is the `Outcome`. */
module Calculator {
  import opened Wrappers
  import opened FoodTable
  import opened Nutrients
  import Labels

  /** Where a run of the page script ends. */
  datatype Outcome =
    | Stopped(loadError: LoadError)                 // KeyError at line 40, or st.error and st.stop at lines 47-49
    | Prompt                                        // st.warning, line 102
    | UnpackFailed(unpackError: Labels.UnpackError) // ValueError raised at line 64
    | NotFound                                      // empty filter at line 75: nothing shown
    | ScaleFailed(nutrient: string)                 // TypeError raised at line 95
    | Shown(quantity: int, name: string, code: string, totals: seq<Entry>)  // lines 98-100

  /** The row chosen by a selection, with the code and name shown. */
  datatype Found = Found(code: string, name: string, index: nat)

  lemma LoadedRowHasColumns(t: Table, i: nat)
    requires Loaded(t) && i < |t.rows|
    ensures "Food Code" in t.rows[i] && "Food Name" in t.rows[i]
    ensures forall k :: 0 <= k < |NutrientFields| ==> NutrientFields[k] in t.rows[i]
  {
    assert RequiredColumns[0] == "Food Code" && RequiredColumns[1] == "Food Name";
    assert forall k :: 0 <= k < |NutrientFields| ==> NutrientFields[k] == RequiredColumns[k + 2];
  }

  /** Lines 62-75: from the selected option to the first row whose code
      is the stripped code of the label, or the outcome that stops short
      of it. */
  function Lookup(t: Table, selection: string): (r: Result<Found, Outcome>)
    requires Loaded(t)
    ensures r.Ok? ==> r.value.index < |t.rows|
    ensures r.Err? ==> r.error.Prompt? || r.error.UnpackFailed? || r.error.NotFound?
    ensures r.Err? && r.error.Prompt? <==> selection == Placeholder
  {
    assert forall j :: 0 <= j < |t.rows| ==> "Food Code" in t.rows[j] by {
      forall j | 0 <= j < |t.rows| ensures "Food Code" in t.rows[j] { LoadedRowHasColumns(t, j); }
    }
    if selection == Placeholder then Err(Prompt)
    else
      match Labels.SplitLabel(selection)
      case Err(e) => Err(UnpackFailed(e))
      case Ok((code, name)) =>
        match FirstWithCode(t.rows, Labels.Strip(code))
        case None => Err(NotFound)
        case Some(i) => Ok(Found(Labels.Strip(code), Labels.Strip(name), i))
  }

  /** The lookup stops at the placeholder, at a label that does not
      split in two, or when no row has the stripped code; otherwise it
      finds the first row with that code. */
  lemma LookupIsFirstMatch(t: Table, selection: string)
    requires Loaded(t)
    ensures forall j :: 0 <= j < |t.rows| ==> "Food Code" in t.rows[j]
    ensures var r := Lookup(t, selection);
      && (r.Err? ==> r.error.Prompt? || r.error.UnpackFailed? || r.error.NotFound?)
      && (r.Err? && r.error.Prompt? <==> selection == Placeholder)
      && (r.Ok? ==> selection != Placeholder && Labels.SplitLabel(selection).Ok?)
      && (r.Err? && r.error.UnpackFailed? <==>
        selection != Placeholder && Labels.SplitLabel(selection).Err?)
      && (r.Err? && r.error.UnpackFailed? ==> r.error.unpackError == Labels.SplitLabel(selection).error)
      && (r.Ok? ==> (r.value.index < |t.rows|
        && r.value.code == Labels.Strip(Labels.SplitLabel(selection).value.0)
        && r.value.name == Labels.Strip(Labels.SplitLabel(selection).value.1)
        && HasCode(t.rows[r.value.index], r.value.code)
        && forall j :: 0 <= j < r.value.index ==> !HasCode(t.rows[j], r.value.code)))
      && (r.Err? && r.error.NotFound? <==>
        (selection != Placeholder && Labels.SplitLabel(selection).Ok?
        && forall j :: 0 <= j < |t.rows| ==>
          !HasCode(t.rows[j], Labels.Strip(Labels.SplitLabel(selection).value.0))))
  {
    forall j | 0 <= j < |t.rows| ensures "Food Code" in t.rows[j] { LoadedRowHasColumns(t, j); }
    if selection == Placeholder {
      assert Lookup(t, selection) == Err(Prompt);
    } else if Labels.SplitLabel(selection).Ok? {
      var parts := Labels.SplitLabel(selection).value;
      var code := Labels.Strip(parts.0);
      match FirstWithCode(t.rows, code)
      case None =>
        assert Lookup(t, selection) == Err(NotFound);
      case Some(i) =>
        assert Lookup(t, selection) == Ok(Found(code, Labels.Strip(parts.1), i));
    } else {
      assert Lookup(t, selection) == Err(UnpackFailed(Labels.SplitLabel(selection).error));
    }
  }

  /** Lines 77-95 for the chosen row: the nutrient dict, normalised and
      scaled, or the TypeError of the scaling. */
  function Report(row: Row, code: string, name: string, quantity: int): (r: Outcome)
    requires forall k :: 0 <= k < |NutrientFields| ==> NutrientFields[k] in row
    ensures r.Shown? || r.ScaleFailed?
    ensures r.Shown? ==> r.quantity == quantity && r.name == name && r.code == code
    ensures r.Shown? ==> Names(r.totals) == NutrientFields
    ensures r.ScaleFailed? ==> r.nutrient in NutrientFields
  {
    var es := Normalized(NutrientsOf(row));
    NormalizedChangesOnlyUncertain(NutrientsOf(row));
    match Scale(es, quantity)
    case Err(nutrient) =>
      ScaleFailsAtFirstNonNumber(es, quantity);
      ScaleFailed(nutrient)
    case Ok(totals) => Shown(quantity, name, code, totals)
  }

  /** One run of the page script on the table read from the file, the
      option picked in the selectbox and the quantity typed in. */
  function Page(raw: Table, selection: string, quantity: int): (r: Outcome)
    requires WellFormed(raw)
    ensures r.Stopped? <==> Load(raw).Err?
    ensures r.Prompt? <==> Load(raw).Ok? && selection == Placeholder
    ensures r.Shown? ==> r.quantity == quantity && Names(r.totals) == NutrientFields
  {
    match Load(raw)
    case Err(e) => Stopped(e)
    case Ok(t) =>
      match Lookup(t, selection)
      case Err(o) => o
      case Ok(found) =>
        LoadedRowHasColumns(t, found.index);
        var out := Report(t.rows[found.index], found.code, found.name, quantity);
        assert selection != Placeholder && (out.Shown? || out.ScaleFailed?);
        out
  }

  /** The page script as app.py runs it, with the nutrient dict
      normalised in place. */
  method RunPage(raw: Table, selection: string, quantity: int) returns (outcome: Outcome)
    requires WellFormed(raw)
    ensures outcome == Page(raw, selection, quantity)
  {
    var loaded := Load(raw);
    if loaded.Err? {
      return Stopped(loaded.error);
    }
    var t := loaded.value;
    var found := Lookup(t, selection);
    if found.Err? {
      return found.error;
    }
    LoadedRowHasColumns(t, found.value.index);
    outcome := RunReport(t.rows[found.value.index], found.value.code, found.value.name, quantity);
  }

  /** Lines 77-95 as app.py runs them: the nutrient dict is built, then
      normalised in place, then scaled. */
  method RunReport(row: Row, code: string, name: string, quantity: int) returns (outcome: Outcome)
    requires forall k :: 0 <= k < |NutrientFields| ==> NutrientFields[k] in row
    ensures outcome == Report(row, code, name, quantity)
  {
    var entries := NutrientsOf(row);
    var nutrients := new Entry[|entries|](k requires 0 <= k < |entries| => entries[k]);
    assert nutrients[..] == entries;
    NormalizeInPlace(nutrients);
    var totals := Scale(nutrients[..], quantity);
    if totals.Err? {
      return ScaleFailed(totals.error);
    }
    outcome := Shown(quantity, name, code, totals.value);
  }

  /** Once the table has loaded, the page ends where the lookup stops or
      in the report on the row it found. */
  lemma PageAfterLoad(raw: Table, selection: string, quantity: int)
    requires WellFormed(raw) && Load(raw).Ok?
    ensures Loaded(Load(raw).value)
    ensures Lookup(Load(raw).value, selection).Err? ==>
      Page(raw, selection, quantity) == Lookup(Load(raw).value, selection).error
    ensures Lookup(Load(raw).value, selection).Ok? ==>
      var found := Lookup(Load(raw).value, selection).value;
      && (forall k :: 0 <= k < |NutrientFields| ==> NutrientFields[k] in Load(raw).value.rows[found.index])
      && Page(raw, selection, quantity) ==
        Report(Load(raw).value.rows[found.index], found.code, found.name, quantity)
  {
    var t := Load(raw).value;
    if Lookup(t, selection).Ok? {
      LoadedRowHasColumns(t, Lookup(t, selection).value.index);
    }
  }

  /** The row the lookup finds in the loaded table is the first row of
      the spreadsheet, among those with a name, whose code is the stripped
      code: rows dropped for a missing name are skipped, and the order of
      the others is kept. */
  lemma LookupFindsFirstNamedRow(raw: Table, selection: string)
    requires WellFormed(raw) && Load(raw).Ok?
    requires Lookup(Load(raw).value, selection).Ok?
    ensures var found := Lookup(Load(raw).value, selection).value;
      && FirstNamedWithCode(raw.rows, found.code).Some?
      && Load(raw).value.rows[found.index] == raw.rows[FirstNamedWithCode(raw.rows, found.code).value]
  {
    var t := Load(raw).value;
    var found := Lookup(t, selection).value;
    assert "Food Name" in raw.columns;
    assert forall i :: 0 <= i < |raw.rows| ==> "Food Name" in raw.rows[i];
    LookupIsFirstMatch(t, selection);
    FirstWithCodeIs(t.rows, found.code, found.index);
    FirstWithCodeAfterDrop(raw.rows, found.code);
  }

  /** The page stops before any selection exactly when a required column
      is missing. */
  lemma PageStopsIff(raw: Table, selection: string, quantity: int)
    requires WellFormed(raw)
    ensures Page(raw, selection, quantity).Stopped? <==>
      exists k :: 0 <= k < |RequiredColumns| && RequiredColumns[k] !in raw.columns
  {
    LoadOkIff(raw);
    if Load(raw).Ok? {
      var t := Load(raw).value;
      match Lookup(t, selection)
      case Err(o) =>
      case Ok(found) =>
        LoadedRowHasColumns(t, found.index);
    }
  }

  /** Picking the option of a food finds the first row with its code:
      the label splits back into the code and the name (with its trailing
      `**`), provided neither holds the separator and the code has no
      blank at either end. */
  lemma LookupOfLabel(t: Table, code: string, name: string, i: nat)
    requires Loaded(t) && i < |t.rows| && "Food Code" in t.rows[i] && HasCode(t.rows[i], code)
    requires forall j :: 0 <= j < i ==> "Food Code" in t.rows[j] && !HasCode(t.rows[j], code)
    requires Labels.Strip(code) == code
    requires !Labels.ContainsSep(code) && !Labels.ContainsSep(name + "**")
    ensures Lookup(t, Labels.Label(code, name)) == Ok(Found(code, Labels.Strip(name + "**"), i))
  {
    var selection := Labels.Label(code, name);
    assert Labels.SplitLabel(selection) == Ok((code, name + "**")) by {
      Labels.LabelRoundTrip(code, name);
    }
    assert selection != Placeholder by {
      LabelIsNotPlaceholder(code, name);
    }
    assert forall j :: 0 <= j < |t.rows| ==> "Food Code" in t.rows[j] by {
      forall j | 0 <= j < |t.rows| ensures "Food Code" in t.rows[j] { LoadedRowHasColumns(t, j); }
    }
    assert FirstWithCode(t.rows, code) == Some(i) by {
      FirstWithCodeIs(t.rows, code, i);
    }
  }

  /** A row whose code has a blank at either end is offered, but picking
      it never finds that row: line 74 strips the code of the selection
      and not the codes of the table. The lookup finds a row whose code
      is the stripped one, or nothing. */
  lemma LookupOfUnstrippedCode(t: Table, code: string, name: string, i: nat)
    requires Loaded(t) && i < |t.rows| && "Food Code" in t.rows[i] && "Food Name" in t.rows[i]
    requires t.rows[i]["Food Code"] == Text(code) && t.rows[i]["Food Name"] == Text(name)
    requires Labels.Strip(code) != code
    requires !Labels.ContainsSep(code) && !Labels.ContainsSep(name + "**")
    ensures OptionOf(t.rows[i]) == Some(Labels.Label(code, name))
    ensures Lookup(t, Labels.Label(code, name)).Ok? || Lookup(t, Labels.Label(code, name)) == Err(NotFound)
    ensures Lookup(t, Labels.Label(code, name)).Ok? ==>
      var found := Lookup(t, Labels.Label(code, name)).value;
      found.index != i && found.code == Labels.Strip(code)
      && "Food Code" in t.rows[found.index] && !HasCode(t.rows[found.index], code)
  {
    var selection := Labels.Label(code, name);
    assert Labels.SplitLabel(selection) == Ok((code, name + "**")) by {
      Labels.LabelRoundTrip(code, name);
    }
    assert selection != Placeholder by {
      LabelIsNotPlaceholder(code, name);
    }
    var first := FirstWithCode(t.rows, Labels.Strip(code));
    assert Lookup(t, selection) == if first.None? then Err(NotFound)
      else Ok(Found(Labels.Strip(code), Labels.Strip(name + "**"), first.value));
    assert first.Some? ==> HasCode(t.rows[first.value], Labels.Strip(code)) && first.value != i;
    assert OptionOf(t.rows[i]) == Some(selection) by {
      assert IsText(t.rows[i], "Food Code") && IsText(t.rows[i], "Food Name");
    }
  }

  /** So the page reports on that row, whatever the quantity. */
  lemma PageShowsLabelledRow(raw: Table, code: string, name: string, i: nat, quantity: int)
    requires WellFormed(raw) && Load(raw).Ok?
    requires i < |Load(raw).value.rows| && "Food Code" in Load(raw).value.rows[i]
    requires HasCode(Load(raw).value.rows[i], code)
    requires forall j :: 0 <= j < i ==> "Food Code" in Load(raw).value.rows[j] && !HasCode(Load(raw).value.rows[j], code)
    requires Labels.Strip(code) == code
    requires !Labels.ContainsSep(code) && !Labels.ContainsSep(name + "**")
    ensures forall k :: 0 <= k < |NutrientFields| ==> NutrientFields[k] in Load(raw).value.rows[i]
    ensures Page(raw, Labels.Label(code, name), quantity) ==
      Report(Load(raw).value.rows[i], code, Labels.Strip(name + "**"), quantity)
  {
    var selection := Labels.Label(code, name);
    var t := Load(raw).value;
    PageAfterLoad(raw, selection, quantity);
    LookupOfLabel(t, code, name, i);
    assert Lookup(t, selection).value.index == i;
  }

  /** What the page shows for 100 g is the per-100 g values of the row,
      with the "±" strings reduced to their numbers. */
  lemma ReportAt100(row: Row, code: string, name: string)
    requires forall k :: 0 <= k < |NutrientFields| ==> NutrientFields[k] in row
    requires Report(row, code, name, 100).Shown?
    ensures Report(row, code, name, 100).totals == Normalized(NutrientsOf(row))
  {
    var n := Normalized(NutrientsOf(row));
    ScaleAt100IsIdentity(n);
  }

  /** Whether the report shows the values does not depend on the
      quantity, and what it shows is linear in it: for `q2` grams each
      amount is the amount for `q1` grams times `q2 / q1`. */
  lemma ReportIsLinear(row: Row, code: string, name: string, q1: int, q2: int)
    requires forall k :: 0 <= k < |NutrientFields| ==> NutrientFields[k] in row
    requires q1 >= 1 && Report(row, code, name, q1).Shown?
    ensures Report(row, code, name, q2).Shown?
    ensures Rescaled(Report(row, code, name, q1).totals, Report(row, code, name, q2).totals, q1, q2)
  {
    ScaleIsLinear(Normalized(NutrientsOf(row)), q1, q2);
  }

  /** The same for the whole page: the selection and the table fix which
      row is shown, and the quantity only scales it. */
  lemma PageIsLinear(raw: Table, selection: string, q1: int, q2: int)
    requires WellFormed(raw) && q1 >= 1
    requires Page(raw, selection, q1).Shown?
    ensures Page(raw, selection, q2).Shown?
    ensures Rescaled(Page(raw, selection, q1).totals, Page(raw, selection, q2).totals, q1, q2)
  {
    assert Load(raw).Ok?;
    var t := Load(raw).value;
    PageAfterLoad(raw, selection, q1);
    PageAfterLoad(raw, selection, q2);
    LookupIsFirstMatch(t, selection);
    var found := Lookup(t, selection).value;
    var row := t.rows[found.index];
    var p1, p2 := Page(raw, selection, q1), Page(raw, selection, q2);
    assert p1 == Report(row, found.code, found.name, q1);
    assert p2 == Report(row, found.code, found.name, q2);
    ReportIsLinear(row, found.code, found.name, q1, q2);
  }

  /** A selection whose stripped code no row has ends the page with
      nothing shown: no error, and no zero-filled amounts. */
  lemma PageNotFound(raw: Table, selection: string, quantity: int)
    requires WellFormed(raw) && Load(raw).Ok?
    requires selection != Placeholder && Labels.SplitLabel(selection).Ok?
    requires forall j :: 0 <= j < |Load(raw).value.rows| ==>
      "Food Code" in Load(raw).value.rows[j] &&
      !HasCode(Load(raw).value.rows[j], Labels.Strip(Labels.SplitLabel(selection).value.0))
    ensures Page(raw, selection, quantity) == NotFound
  {
    PageAfterLoad(raw, selection, quantity);
    LookupIsFirstMatch(Load(raw).value, selection);
  }

  /** A row whose protein is "2.5 ± 0.1", whose energy is 130 and whose
      other nutrients are numbers, for 200 g: 5 g of protein and 260 kcal. */
  lemma ReportExample(row: Row)
    requires forall k :: 0 <= k < |NutrientFields| ==> NutrientFields[k] in row
    requires forall k :: 0 <= k < |NutrientFields| && k != 1 ==> row[NutrientFields[k]].Num?
    requires row[NutrientFields[1]] == Text("2.5 \U{00B1} 0.1") && row[NutrientFields[8]] == Num(130.0)
    ensures var out := Report(row, "A001", "Rice**", 200);
      out.Shown? && out.totals[1] == Entry("Protein", Num(5.0))
      && out.totals[8] == Entry("Energy", Num(260.0))
  {
    var raw := NutrientsOf(row);
    var es := Normalized(raw);
    assert es[1] == Entry("Protein", Num(2.5)) && es[8] == Entry("Energy", Num(130.0)) by {
      assert raw[1].name == Names(raw)[1] == NutrientFields[1] == "Protein";
      assert raw[8].name == Names(raw)[8] == NutrientFields[8] == "Energy";
      assert raw[1].value == Text("2.5 \U{00B1} 0.1") && raw[8].value == Num(130.0);
      NormalizeUncertaintyExample();
    }
    assert forall k :: 0 <= k < |es| ==> IsNumber(es[k].value);
    ScaleExample(es);
  }

  /** A row whose energy is the text "130" and whose other nutrients are
      numbers makes the scaling raise at "Energy": a text without "±" is
      not converted. */
  lemma ReportTextWithoutMarkerFails(row: Row, quantity: int)
    requires forall k :: 0 <= k < |NutrientFields| ==> NutrientFields[k] in row
    requires forall k :: 0 <= k < 8 ==> row[NutrientFields[k]].Num?
    requires row[NutrientFields[8]] == Text("130")
    ensures Report(row, "A001", "Rice**", quantity) == ScaleFailed("Energy")
  {
    var es := Normalized(NutrientsOf(row));
    assert PlusMinus !in "130";
    assert es[8] == Entry("Energy", Text("130"));
    assert forall k :: 0 <= k < 8 ==> IsNumber(es[k].value);
    ScaleFailsAtFirstNonNumber(es, quantity);
  }
}
