/** The selectbox labels of app.py: `f"{code} - **{name}**"` (line 58),
    `food_selection.split(" - **")` unpacked into two names (line 64), and
    Python's `str.strip()` applied to the code before the lookup (line 74)
    and to the name before it is shown (line 98). */
module Labels {
  import opened Wrappers

  /** The characters for which Python's `str.isspace()` holds, which are
      the ones `str.strip()` with no argument removes. */
  predicate IsSpace(c: char) {
    c == ' ' || ('\t' <= c <= '\r') || ('\U{1C}' <= c <= '\U{1F}')
    || c == '\U{85}' || c == '\U{A0}' || c == '\U{1680}'
    || ('\U{2000}' <= c <= '\U{200A}') || c == '\U{2028}' || c == '\U{2029}'
    || c == '\U{202F}' || c == '\U{205F}' || c == '\U{3000}'
  }

  /** `s` with its leading whitespace removed. */
  function TrimStart(s: string): (r: string)
    ensures |r| <= |s| && r == s[|s| - |r|..]
    ensures forall k :: 0 <= k < |s| - |r| ==> IsSpace(s[k])
    ensures r == [] || !IsSpace(r[0])
  {
    if s != [] && IsSpace(s[0]) then TrimStart(s[1..]) else s
  }

  /** `s` with its trailing whitespace removed. */
  function TrimEnd(s: string): (r: string)
    ensures |r| <= |s| && r == s[..|r|]
    ensures forall k :: |r| <= k < |s| ==> IsSpace(s[k])
    ensures r == [] || !IsSpace(r[|r| - 1])
  {
    if s != [] && IsSpace(s[|s| - 1]) then TrimEnd(s[..|s| - 1]) else s
  }

  /** Python's `s.strip()`: no longer than `s`, and neither starting nor
      ending with a blank. */
  function Strip(s: string): (r: string)
    ensures |r| <= |s|
    ensures r == [] || (!IsSpace(r[0]) && !IsSpace(r[|r| - 1]))
  {
    var t := TrimStart(s);
    var r := TrimEnd(t);
    assert r == [] || r[0] == t[0];
    r
  }

  /** `Strip(s)` is `s` less a blank head and a blank tail. */
  lemma StripIsInfix(s: string)
    ensures exists a, b :: (0 <= a <= b <= |s| && Strip(s) == s[a..b]
      && (forall k :: 0 <= k < a ==> IsSpace(s[k]))
      && (forall k :: b <= k < |s| ==> IsSpace(s[k])))
  {
    var t := TrimStart(s);
    var r := TrimEnd(t);
    var a := |s| - |t|;
    var b := a + |r|;
    assert r == s[a..b] by {
      assert t == s[a..] && r == t[..|r|];
    }
    assert forall k :: b <= k < |s| ==> IsSpace(s[k]) by {
      forall k | b <= k < |s| ensures IsSpace(s[k]) {
        assert s[k] == t[k - a];
      }
    }
    assert 0 <= a <= b <= |s| && Strip(s) == s[a..b]
      && (forall k :: 0 <= k < a ==> IsSpace(s[k]))
      && (forall k :: b <= k < |s| ==> IsSpace(s[k]));
  }

  /** A text without leading or trailing blanks is left alone. */
  lemma StripKeepsTrimmed(s: string)
    requires s == [] || (!IsSpace(s[0]) && !IsSpace(s[|s| - 1]))
    ensures Strip(s) == s
  {
  }

  /** The separator between code and name in a label. */
  const Sep: string := " - **"

  /** `Sep` occurs in `s` at index `i`. */
  predicate SepAt(s: string, i: nat) {
    i + |Sep| <= |s| && s[i..i + |Sep|] == Sep
  }

  ghost predicate ContainsSep(s: string) {
    exists i: nat :: SepAt(s, i)
  }

  /** The first occurrence of `Sep` in `s` at or after `from`, as
      `str.find` would report it. */
  function FindSep(s: string, from: nat): (r: Option<nat>)
    requires from <= |s|
    ensures r.Some? ==> from <= r.value && SepAt(s, r.value)
    ensures r.Some? ==> forall k: nat :: from <= k < r.value ==> !SepAt(s, k)
    ensures r.None? ==> forall k: nat :: from <= k ==> !SepAt(s, k)
    decreases |s| - from
  {
    if from + |Sep| > |s| then None
    else if s[from..from + |Sep|] == Sep then Some(from)
    else FindSep(s, from + 1)
  }

  /** Python's `s.split(" - **")`: the pieces between the occurrences of
      the separator, found left to right without overlap. */
  function Split(s: string): (parts: seq<string>)
    ensures |parts| >= 1
    decreases |s|
  {
    match FindSep(s, 0)
    case None => [s]
    case Some(i) => [s[..i]] + Split(s[i + |Sep|..])
  }

  /** `Sep.join(parts)`. */
  function Join(parts: seq<string>): string
    requires |parts| >= 1
  {
    if |parts| == 1 then parts[0] else parts[0] + Sep + Join(parts[1..])
  }

  /** Splitting loses nothing: joining the pieces gives the text back. */
  lemma {:induction false} SplitJoin(s: string)
    ensures Join(Split(s)) == s
    decreases |s|
  {
    match FindSep(s, 0)
    case None =>
    case Some(i) =>
      var rest := s[i + |Sep|..];
      SplitJoin(rest);
      JoinCons(s[..i], Split(rest));
      SepSplice(s, i);
  }

  /** Joining a first piece onto further pieces puts `Sep` between them. */
  lemma JoinCons(head: string, tail: seq<string>)
    requires |tail| >= 1
    ensures Join([head] + tail) == head + Sep + Join(tail)
  {
    assert ([head] + tail)[1..] == tail;
  }

  /** Text around an occurrence of `Sep` is the part before it, `Sep`, and
      the part after it. */
  lemma SepSplice(s: string, i: nat)
    requires SepAt(s, i)
    ensures s == s[..i] + Sep + s[i + |Sep|..]
  {
    assert s[i..i + |Sep|] == Sep;
    assert s == s[..i] + s[i..i + |Sep|] + s[i + |Sep|..];
  }

  /** No piece of a split holds the separator; with `SplitJoin` this
      determines the pieces. */
  lemma {:induction false} SplitPiecesFree(s: string)
    ensures forall k :: 0 <= k < |Split(s)| ==> !ContainsSep(Split(s)[k])
    decreases |s|
  {
    match FindSep(s, 0)
    case None =>
    case Some(i) =>
      var rest := s[i + |Sep|..];
      SplitPiecesFree(rest);
      assert !ContainsSep(s[..i]) by {
        forall k: nat | SepAt(s[..i], k) ensures false {
          assert s[..i][k..k + |Sep|] == s[k..k + |Sep|];
          assert SepAt(s, k);
        }
      }
      assert Split(s) == [s[..i]] + Split(rest);
  }

  /** Two occurrences of `Sep` never overlap: the separator has no
      proper prefix that is also a suffix. */
  lemma SepNoOverlap(s: string, i: nat, j: nat)
    requires SepAt(s, i) && SepAt(s, j) && i < j
    ensures i + |Sep| <= j
  {
    if j < i + |Sep| {
      SepChars(s, i);
      SepChars(s, j);
      assert false;
    }
  }

  /** The characters of an occurrence of `Sep`. */
  lemma SepChars(s: string, i: nat)
    requires SepAt(s, i)
    ensures s[i] == ' ' && s[i + 1] == '-' && s[i + 2] == ' ' && s[i + 3] == '*' && s[i + 4] == '*'
  {
    assert s[i..i + |Sep|][1] == '-';
    assert s[i..i + |Sep|][2] == ' ';
    assert s[i..i + |Sep|][3] == '*';
    assert s[i..i + |Sep|][4] == '*';
  }

  /** The option label of a food (app.py:58). */
  function Label(code: string, name: string): (r: string)
    ensures |r| == |code| + |Sep| + |name| + 2
    ensures r[..|code|] == code && SepAt(r, |code|)
    ensures r[|code| + |Sep|..|r| - 2] == name && r[|r| - 2..] == "**"
  {
    code + Sep + name + "**"
  }

  /** Why unpacking the split label can fail. */
  datatype UnpackError = TooManyValues | NotEnoughValues

  /** `selected_code, selected_name = food_selection.split(" - **")`. */
  function SplitLabel(selection: string): (r: Result<(string, string), UnpackError>)
    ensures r.Ok? <==> |Split(selection)| == 2
    ensures r.Ok? ==> selection == r.value.0 + Sep + r.value.1
  {
    var parts := Split(selection);
    SplitJoin(selection);
    if |parts| < 2 then Err(NotEnoughValues)
    else if |parts| > 2 then Err(TooManyValues)
    else
      assert Join(parts) == parts[0] + Sep + parts[1];
      Ok((parts[0], parts[1]))
  }

  /** An occurrence of `Sep` inside `s[lo..hi]` is one of the slice. */
  lemma SepInSlice(s: string, lo: nat, hi: nat, k: nat)
    requires lo <= k && k + |Sep| <= hi <= |s| && SepAt(s, k)
    ensures SepAt(s[lo..hi], k - lo)
  {
    var t := s[lo..hi];
    forall x | k <= x < k + |Sep| ensures t[x - lo] == s[x] {
    }
    assert t[k - lo..k - lo + |Sep|] == s[k..k + |Sep|];
  }

  /** `a + Sep + b` splits into exactly `a` and `b` when neither holds
      the separator. */
  lemma SplitAround(a: string, b: string)
    requires !ContainsSep(a) && !ContainsSep(b)
    ensures Split(a + Sep + b) == [a, b]
  {
    var s := a + Sep + b;
    assert SepAt(s, |a|) by { assert s[|a|..|a| + |Sep|] == Sep; }
    var r := FindSep(s, 0);
    assert r.Some? && r.value <= |a|;
    if r.value < |a| {
      assert s[0..|a|] == a;
      SepNoOverlap(s, r.value, |a|);
      SepInSlice(s, 0, |a|, r.value);
      assert false;
    }
    assert s[..|a|] == a && s[|a| + |Sep|..] == b;
    match FindSep(b, 0)
    case None =>
    case Some(i) =>
      assert false;
  }

  /** A text of the form `a + Sep + b` splits into exactly two pieces only
      when neither `a` nor `b` holds the separator; otherwise into more. */
  lemma {:induction false} SplitAroundTwoOnlyIfFree(a: string, b: string)
    requires |Split(a + Sep + b)| == 2
    ensures !ContainsSep(a) && !ContainsSep(b)
  {
    var s := a + Sep + b;
    var parts := Split(s);
    SplitJoin(s);
    SplitPiecesFree(s);
    var p, q := parts[0], parts[1];
    assert Join(parts) == p + Sep + q;
    assert !ContainsSep(p) && !ContainsSep(q);
    assert SepAt(s, |a|) by { assert s[|a|..|a| + |Sep|] == Sep; }
    assert SepAt(s, |p|) by { assert s[|p|..|p| + |Sep|] == Sep; }
    if |p| < |a| {
      assert s[|p| + |Sep|..|s|] == q;
      SepNoOverlap(s, |p|, |a|);
      SepInSlice(s, |p| + |Sep|, |s|, |a|);
      assert false;
    } else if |a| < |p| {
      assert false;
    }
    assert a == s[..|a|] == p;
    assert b == s[|a| + |Sep|..] == q;
  }

  /** Splitting a label gives back the code and the name with its trailing
      `**` still attached, exactly when neither holds the separator. */
  lemma LabelRoundTrip(code: string, name: string)
    ensures SplitLabel(Label(code, name)).Ok? <==> !ContainsSep(code) && !ContainsSep(name + "**")
    ensures SplitLabel(Label(code, name)).Ok? ==>
      SplitLabel(Label(code, name)).value == (code, name + "**")
  {
    assert Label(code, name) == code + Sep + (name + "**");
    if !ContainsSep(code) && !ContainsSep(name + "**") {
      SplitAround(code, name + "**");
    } else if |Split(Label(code, name))| == 2 {
      SplitAroundTwoOnlyIfFree(code, name + "**");
    }
  }

  /** A label whose code or name holds the separator splits into three or
      more pieces, so the two-way unpacking fails. */
  lemma LabelWithSepFails(code: string, name: string)
    requires ContainsSep(code) || ContainsSep(name + "**")
    ensures SplitLabel(Label(code, name)) == Err(TooManyValues)
  {
    var s := Label(code, name);
    LabelRoundTrip(code, name);
    assert SepAt(s, |code|) by { assert s[|code|..|code| + |Sep|] == Sep; }
    assert FindSep(s, 0).Some?;
  }
}
