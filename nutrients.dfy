/** The nutrient part of app.py: the nine-field dict read from the
    selected row (lines 77-87), its in-place normalisation of the
    "value ± uncertainty" strings (lines 90-92) and the scaling to the
    chosen quantity (line 95). */
module Nutrients {
  import opened Wrappers
  import opened FoodTable
  import ValueParser

  /** One key/value pair of the `nutrients` dict; a dict's entries keep
      the order in which the keys were first inserted. */
  datatype Entry = Entry(name: string, value: Cell)

  /** The keys of a dict, in order. */
  function Names(es: seq<Entry>): (r: seq<string>)
    ensures |r| == |es| && forall i :: 0 <= i < |es| ==> r[i] == es[i].name
  {
    seq(|es|, i requires 0 <= i < |es| => es[i].name)
  }

  /** The dict of lines 77-87: each nutrient column of the row, in order. */
  function NutrientsOf(row: Row): (r: seq<Entry>)
    requires forall k :: 0 <= k < |NutrientFields| ==> NutrientFields[k] in row
    ensures Names(r) == NutrientFields
    ensures forall k :: 0 <= k < |r| ==> r[k].value == row[NutrientFields[k]]
  {
    seq(|NutrientFields|, k requires 0 <= k < |NutrientFields| =>
      Entry(NutrientFields[k], row[NutrientFields[k]]))
  }

  /** The uncertainty marker. */
  const PlusMinus: char := '\U{00B1}'

  /** `isinstance(value, str) and "±" in value`. */
  predicate IsUncertain(c: Cell) {
    c.Text? && PlusMinus in c.s
  }

  /** What line 92 makes of one value: a "±" string becomes the number of
      `extract_value`, or `None`; every other value stays. */
  function NormalizeCell(c: Cell): (r: Cell)
    ensures !IsUncertain(r)
    ensures !IsUncertain(c) ==> r == c
    ensures IsUncertain(c) ==> r.Num? || r.NoneValue?
    ensures IsUncertain(c) ==> (r.NoneValue? <==>
      !(|c.s| > 0 && ValueParser.IsDigit(c.s[0]))
      && !(|c.s| > 1 && c.s[0] == '.' && ValueParser.IsDigit(c.s[1])))
    ensures IsUncertain(c) && r.Num? ==> r.x >= 0.0
  {
    if IsUncertain(c) then
      match ValueParser.ExtractValue(c.s)
      case Some(v) => Num(v)
      case None => NoneValue
    else c
  }

  /** The dict after the loop of lines 90-92. */
  function Normalized(es: seq<Entry>): (r: seq<Entry>)
    ensures |r| == |es|
  {
    seq(|es|, i requires 0 <= i < |es| => Entry(es[i].name, NormalizeCell(es[i].value)))
  }

  /** The loop of lines 90-92, writing into the dict in place. */
  method NormalizeInPlace(nutrients: array<Entry>)
    modifies nutrients
    ensures nutrients[..] == Normalized(old(nutrients[..]))
  {
    for i := 0 to nutrients.Length
      invariant forall k :: 0 <= k < i ==>
        nutrients[k] == Entry(old(nutrients[k]).name, NormalizeCell(old(nutrients[k]).value))
      invariant forall k :: i <= k < nutrients.Length ==> nutrients[k] == old(nutrients[k])
    {
      var entry := nutrients[i];
      if entry.value.Text? && PlusMinus in entry.value.s {
        var parsed := ValueParser.ExtractValue(entry.value.s);
        nutrients[i] := Entry(entry.name, if parsed.Some? then Num(parsed.value) else NoneValue);
      }
    }
  }

  /** The loop keeps the keys and their order, and changes exactly the
      "±" strings: each becomes the number `extract_value` finds, or
      `None`. */
  lemma NormalizedChangesOnlyUncertain(es: seq<Entry>)
    ensures Names(Normalized(es)) == Names(es)
    ensures forall i :: 0 <= i < |es| && !IsUncertain(es[i].value) ==>
      Normalized(es)[i] == es[i]
    ensures forall i :: 0 <= i < |es| && IsUncertain(es[i].value) ==>
      Normalized(es)[i].value ==
        (if ValueParser.ExtractValue(es[i].value.s).Some?
         then Num(ValueParser.ExtractValue(es[i].value.s).value) else NoneValue)
  {
  }

  /** After the loop no value is a "±" string, so running it twice
      changes nothing more. */
  lemma NormalizedIdempotent(es: seq<Entry>)
    ensures forall i :: 0 <= i < |es| ==> !IsUncertain(Normalized(es)[i].value)
    ensures Normalized(Normalized(es)) == Normalized(es)
  {
  }

  /** "2.5 ± 0.1" becomes the number 2.5; the uncertainty is dropped. */
  lemma NormalizeUncertaintyExample()
    ensures NormalizeCell(Text("2.5 \U{00B1} 0.1")) == Num(2.5)
  {
    var c := Text("2.5 \U{00B1} 0.1");
    assert IsUncertain(c) by {
      assert c.s[4] == PlusMinus;
    }
    assert ValueParser.ExtractValue(c.s) == Some(2.5) by {
      ValueParser.ExtractUncertaintyExample();
    }
  }

  /** A value `value * (quantity / 100)` can be computed for: a number,
      or NaN, which stays NaN. A string or `None` raises a TypeError. */
  predicate IsNumber(c: Cell) {
    c.Num? || c.Nan?
  }

  /** The factor of line 95; `quantity / 100` is true division. */
  function Factor(quantity: int): real {
    quantity as real / 100.0
  }

  /** `scaled` is `value * (quantity / 100)`: NaN stays NaN. */
  predicate ScaledCell(value: Cell, scaled: Cell, quantity: int) {
    && (value.Num? ==> scaled == Num(value.x * Factor(quantity)))
    && (value.Nan? ==> scaled == Nan)
  }

  /** The comprehension of line 95: every value times `quantity / 100`,
      under the same keys, or the key of the first value that raises. */
  function Scale(es: seq<Entry>, quantity: int): (r: Result<seq<Entry>, string>)
    ensures r.Ok? <==> forall i :: 0 <= i < |es| ==> IsNumber(es[i].value)
    ensures r.Ok? ==> |r.value| == |es| && Names(r.value) == Names(es)
    ensures r.Ok? ==> forall i :: 0 <= i < |es| ==> ScaledCell(es[i].value, r.value[i].value, quantity)
  {
    if es == [] then Ok([])
    else
      var head := es[0];
      if !IsNumber(head.value) then Err(head.name)
      else
        match Scale(es[1..], quantity)
        case Err(e) => Err(e)
        case Ok(tail) =>
          var cell := if head.value.Num? then Num(head.value.x * Factor(quantity)) else Nan;
          var out := [Entry(head.name, cell)] + tail;
          assert forall i :: 1 <= i < |es| ==> es[1..][i - 1] == es[i] && out[i] == tail[i - 1];
          Ok(out)
  }

  /** The comprehension raises at the first value that is not a number,
      naming its key. */
  lemma {:induction false} ScaleFailsAtFirstNonNumber(es: seq<Entry>, quantity: int)
    requires Scale(es, quantity).Err?
    ensures exists i :: (0 <= i < |es| && !IsNumber(es[i].value)
      && Scale(es, quantity).error == es[i].name
      && forall j :: 0 <= j < i ==> IsNumber(es[j].value))
  {
    if IsNumber(es[0].value) {
      ScaleFailsAtFirstNonNumber(es[1..], quantity);
      var i :| 0 <= i < |es[1..]| && !IsNumber(es[1..][i].value)
        && Scale(es[1..], quantity).error == es[1..][i].name
        && forall j :: 0 <= j < i ==> IsNumber(es[1..][j].value);
      assert forall j :: 1 <= j < i + 1 ==> es[j] == es[1..][j - 1];
      assert !IsNumber(es[i + 1].value) && Scale(es, quantity).error == es[i + 1].name;
    } else {
      assert Scale(es, quantity).error == es[0].name;
    }
  }

  /** 2.5 g of protein and 130 kcal per 100 g are 5 g and 260 kcal in 200 g. */
  lemma ScaleExample(es: seq<Entry>)
    requires |es| == 9 && forall k :: 0 <= k < |es| ==> IsNumber(es[k].value)
    requires es[1] == Entry("Protein", Num(2.5)) && es[8] == Entry("Energy", Num(130.0))
    ensures Scale(es, 200).Ok?
    ensures Scale(es, 200).value[1] == Entry("Protein", Num(5.0))
    ensures Scale(es, 200).value[8] == Entry("Energy", Num(260.0))
  {
    var r := Scale(es, 200).value;
    assert Factor(200) == 2.0;
    assert ScaledCell(es[1].value, r[1].value, 200);
    assert ScaledCell(es[8].value, r[8].value, 200);
    assert r[1].name == Names(r)[1] == Names(es)[1];
    assert r[8].name == Names(r)[8] == Names(es)[8];
  }

  /** Whether scaling succeeds does not depend on the quantity. */
  lemma ScaleOutcomeIndependentOfQuantity(es: seq<Entry>, q1: int, q2: int)
    ensures Scale(es, q1).Ok? <==> Scale(es, q2).Ok?
  {
  }

  /** At 100 g scaling gives back the per-100 g values unchanged. */
  lemma ScaleAt100IsIdentity(es: seq<Entry>)
    requires forall i :: 0 <= i < |es| ==> IsNumber(es[i].value)
    ensures Scale(es, 100) == Ok(es)
  {
    var r := Scale(es, 100).value;
    forall i | 0 <= i < |es| ensures r[i] == es[i] {
      assert r[i].name == Names(r)[i] == Names(es)[i] == es[i].name;
      ScaledAt100(es[i].value, r[i].value);
    }
    assert r == es;
  }

  lemma ScaledAt100(value: Cell, scaled: Cell)
    requires IsNumber(value) && ScaledCell(value, scaled, 100)
    ensures scaled == value
  {
    assert Factor(100) == 1.0;
  }

  /** The ratio `q2 / q1` of two quantities. */
  function Ratio(q1: int, q2: int): real
    requires q1 >= 1
  {
    q2 as real / q1 as real
  }

  /** `c2` is the amount `c1` for `q2` grams instead of `q1`: a number
      times `q2 / q1`. */
  predicate CellRescaled(c1: Cell, c2: Cell, q1: int, q2: int)
    requires q1 >= 1
  {
    c1.Num? ==> c2.Num? && c2.x == c1.x * Ratio(q1, q2)
  }

  /** `t2` holds the amounts of `t1` for `q2` grams instead of `q1`:
      the same keys in the same order, each number times `q2 / q1`. */
  ghost predicate Rescaled(t1: seq<Entry>, t2: seq<Entry>, q1: int, q2: int)
    requires q1 >= 1
  {
    && Names(t2) == Names(t1)
    && forall k :: 0 <= k < |t1| ==> CellRescaled(t1[k].value, t2[k].value, q1, q2)
  }

  /** Scaling is linear in the quantity: the amount of a nutrient for
      `q2` grams is its amount for `q1` grams times `q2 / q1`. */
  lemma ScaleIsLinear(es: seq<Entry>, q1: int, q2: int)
    requires q1 >= 1
    requires Scale(es, q1).Ok?
    ensures Scale(es, q2).Ok?
    ensures Rescaled(Scale(es, q1).value, Scale(es, q2).value, q1, q2)
  {
    var r1, r2 := Scale(es, q1).value, Scale(es, q2).value;
    assert Rescaled(r1, r2, q1, q2) by {
      forall i | 0 <= i < |r1|
        ensures CellRescaled(r1[i].value, r2[i].value, q1, q2)
      {
        CellIsLinear(es[i].value, r1[i].value, r2[i].value, q1, q2);
      }
    }
  }

  lemma CellIsLinear(value: Cell, s1: Cell, s2: Cell, q1: int, q2: int)
    requires q1 >= 1 && IsNumber(value)
    requires ScaledCell(value, s1, q1) && ScaledCell(value, s2, q2)
    ensures CellRescaled(s1, s2, q1, q2)
  {
    if value.Num? {
      var x, a, b := value.x, q1 as real, q2 as real;
      assert Ratio(q1, q2) == b / a;
      assert Factor(q1) * (b / a) == b / 100.0;
      assert x * Factor(q2) == x * (Factor(q1) * (b / a));
    }
  }
  /** Scaling the normalised dict raises exactly when some value is a
      string without "±", or a "±" string without a leading number
      (which became `None`); it never turns such a value into zero. */
  lemma NormalizedScaleFailsIff(es: seq<Entry>, quantity: int)
    requires forall i :: 0 <= i < |es| ==> !es[i].value.NoneValue?
    ensures Scale(Normalized(es), quantity).Err? <==>
      exists i :: 0 <= i < |es| && es[i].value.Text? &&
        (PlusMinus !in es[i].value.s || ValueParser.ExtractValue(es[i].value.s).None?)
  {
    var n := Normalized(es);
    if Scale(n, quantity).Err? {
      var i :| 0 <= i < |n| && !IsNumber(n[i].value);
      assert es[i].value.Text?;
    }
    if exists i :: 0 <= i < |es| && es[i].value.Text? &&
        (PlusMinus !in es[i].value.s || ValueParser.ExtractValue(es[i].value.s).None?) {
      var i :| 0 <= i < |es| && es[i].value.Text? &&
        (PlusMinus !in es[i].value.s || ValueParser.ExtractValue(es[i].value.s).None?);
      assert !IsNumber(n[i].value);
    }
  }
}
