/**
 * The two helpers of the preprocessing utility module:
 * `string_to_int_tuple`, which reads a point written as "( 10012.45, 20032.9)"
 * into a tuple of integers, and `artery_loc_to_abbr`, which abbreviates the
 * name of a coronary artery.
 */
module Utils {
  import opened Wrappers
  import PyStr
  import PyFloat

  /** The characters `strip("()")` removes from both ends. */
  const Parens: set<char> := {'(', ')'}

  /** Why `string_to_int_tuple` raised: the segment `int(float(...))` failed on, and its exception. */
  datatype TupleError = TupleError(segment: nat, kind: PyFloat.ErrorKind)

  /** The segments the loop reads: the input with the parentheses at both ends stripped, split at commas. */
  function Segments(s: string): (segs: seq<string>)
    ensures |segs| == PyStr.Count(PyStr.StripChars(s, Parens), ',') + 1
    ensures forall i :: 0 <= i < |segs| ==> ',' !in segs[i]
    ensures PyStr.Join(segs, ',') == PyStr.StripChars(s, Parens)
  {
    PyStr.Split(PyStr.StripChars(s, Parens), ',')
  }

  /** What `int(float(...))` makes of each segment, in order. */
  function Conversions(segs: seq<string>): (cs: seq<Result<int, PyFloat.ErrorKind>>)
    ensures |cs| == |segs|
  {
    if |segs| == 0 then [] else [PyFloat.IntOfFloat(segs[0])] + Conversions(segs[1..])
  }

  /** The conversion at index `i` is `int(float(...))` of segment `i`. */
  lemma {:induction false} ConversionAt(segs: seq<string>, i: nat)
    requires i < |segs|
    ensures Conversions(segs)[i] == PyFloat.IntOfFloat(segs[i])
  {
    if i > 0 {
      ConversionAt(segs[1..], i - 1);
    }
  }

  lemma ConversionsSpec(segs: seq<string>)
    ensures |Conversions(segs)| == |segs|
    ensures forall i :: 0 <= i < |segs| ==> Conversions(segs)[i] == PyFloat.IntOfFloat(segs[i])
  {
    forall i | 0 <= i < |segs| ensures Conversions(segs)[i] == PyFloat.IntOfFloat(segs[i]) {
      ConversionAt(segs, i);
    }
  }

  /**
   * The tuple the loop builds from the conversions at index `from` on: all
   * their values in order, or the first exception, with its segment.
   */
  function Collect(cs: seq<Result<int, PyFloat.ErrorKind>>, from: nat): Result<seq<int>, TupleError>
    requires from <= |cs|
    decreases |cs| - from
  {
    if from == |cs| then Ok([])
    else
      match cs[from]
      case Err(kind) => Err(TupleError(from, kind))
      case Ok(v) =>
        match Collect(cs, from + 1)
        case Err(e) => Err(e)
        case Ok(rest) => Ok([v] + rest)
  }

  /**
   * The collected tuple holds one value per conversion, each the value of its
   * own conversion in order; a failure is the first failed conversion.
   */
  lemma {:induction false} CollectSpec(cs: seq<Result<int, PyFloat.ErrorKind>>, from: nat)
    requires from <= |cs|
    ensures Collect(cs, from).Ok? ==>
              && |Collect(cs, from).value| == |cs| - from
              && forall i :: from <= i < |cs| ==> cs[i] == Ok(Collect(cs, from).value[i - from])
    ensures Collect(cs, from).Err? ==>
              && from <= Collect(cs, from).error.segment < |cs|
              && cs[Collect(cs, from).error.segment] == Err(Collect(cs, from).error.kind)
              && forall j :: from <= j < Collect(cs, from).error.segment ==> cs[j].Ok?
    decreases |cs| - from
  {
    if from < |cs| && cs[from].Ok? {
      CollectSpec(cs, from + 1);
    }
  }

  /** What `string_to_int_tuple(s)` returns or raises. */
  function IntTuple(s: string): Result<seq<int>, TupleError>
  {
    Collect(Conversions(Segments(s)), 0)
  }

  /** `string_to_int_tuple(s)` succeeds exactly when `int(float(...))` succeeds on every segment. */
  lemma IntTupleOk(s: string)
    ensures IntTuple(s).Ok? <==> forall i :: 0 <= i < |Segments(s)| ==> PyFloat.IntOfFloat(Segments(s)[i]).Ok?
  {
    var segs := Segments(s);
    var cs := Conversions(segs);
    ConversionsSpec(segs);
    CollectSpec(cs, 0);
    if IntTuple(s).Ok? {
      forall i | 0 <= i < |segs| ensures PyFloat.IntOfFloat(segs[i]).Ok? {
        assert cs[i].Ok?;
      }
    } else {
      var e := IntTuple(s).error;
      assert !cs[e.segment].Ok?;
    }
  }

  /**
   * A successful `string_to_int_tuple(s)` has one value per segment, so one
   * more than there are commas, each the conversion of its own segment, in order.
   */
  lemma IntTupleValues(s: string)
    requires IntTuple(s).Ok?
    ensures |IntTuple(s).value| == |Segments(s)| == PyStr.Count(PyStr.StripChars(s, Parens), ',') + 1
    ensures forall i :: 0 <= i < |IntTuple(s).value| ==> PyFloat.IntOfFloat(Segments(s)[i]) == Ok(IntTuple(s).value[i])
  {
    var segs := Segments(s);
    var cs := Conversions(segs);
    ConversionsSpec(segs);
    var xs := IntTuple(s).value;
    CollectSpec(cs, 0);
    forall i | 0 <= i < |xs| ensures PyFloat.IntOfFloat(segs[i]) == Ok(xs[i]) {
      assert cs[i] == Ok(xs[i]);
    }
  }

  /**
   * A failing `string_to_int_tuple(s)` names the first segment on which
   * `int(float(...))` raises, with that exception.
   */
  lemma IntTupleError(s: string)
    requires IntTuple(s).Err?
    ensures IntTuple(s).error.segment < |Segments(s)|
    ensures PyFloat.IntOfFloat(Segments(s)[IntTuple(s).error.segment]) == Err(IntTuple(s).error.kind)
    ensures forall j :: 0 <= j < IntTuple(s).error.segment ==> PyFloat.IntOfFloat(Segments(s)[j]).Ok?
  {
    var segs := Segments(s);
    var cs := Conversions(segs);
    ConversionsSpec(segs);
    var e := IntTuple(s).error;
    CollectSpec(cs, 0);
    assert cs[e.segment] == Err(e.kind);
    forall j | 0 <= j < e.segment ensures PyFloat.IntOfFloat(segs[j]).Ok? {
      assert cs[j].Ok?;
    }
  }

  /** A converted value in front of the values still to come. */
  function Prepend(xs: seq<int>, r: Result<seq<int>, TupleError>): Result<seq<int>, TupleError>
  {
    match r
    case Ok(ys) => Ok(xs + ys)
    case Err(e) => Err(e)
  }

  lemma PrependNothing(r: Result<seq<int>, TupleError>)
    ensures Prepend([], r) == r
  {
    if r.Ok? {
      assert [] + r.value == r.value;
    }
  }

  /** A successful conversion at `from` goes in front of the rest; a failing one ends the tuple. */
  lemma CollectStep(cs: seq<Result<int, PyFloat.ErrorKind>>, from: nat, out: seq<int>)
    requires from < |cs|
    ensures cs[from].Err? ==> Prepend(out, Collect(cs, from)) == Err(TupleError(from, cs[from].error))
    ensures cs[from].Ok? ==> Prepend(out, Collect(cs, from)) == Prepend(out + [cs[from].value], Collect(cs, from + 1))
  {
    if cs[from].Ok? && Collect(cs, from + 1).Ok? {
      var rest := Collect(cs, from + 1).value;
      assert out + ([cs[from].value] + rest) == out + [cs[from].value] + rest;
    }
  }

  /** One step of the loop: `int(float(...))` of segment `i`. */
  method ConvertSegment(segs: seq<string>, i: nat) returns (v: Result<int, PyFloat.ErrorKind>)
    requires i < |segs|
    ensures v == Conversions(segs)[i]
  {
    v := PyFloat.IntOfFloat(segs[i]);
    ConversionAt(segs, i);
  }

  /** `string_to_int_tuple`: strips, splits, and appends `int(float(segment))` segment by segment. */
  method StringToIntTuple(s: string) returns (r: Result<seq<int>, TupleError>)
    ensures r == IntTuple(s)
  {
    var stripped := PyStr.StripChars(s, Parens);
    var segs := PyStr.Split(stripped, ',');
    ghost var cs := Conversions(segs);
    var out: seq<int> := [];
    var i := 0;
    PrependNothing(Collect(cs, 0));
    while i < |segs|
      invariant i <= |segs|
      invariant Collect(cs, 0) == Prepend(out, Collect(cs, i))
    {
      var v := ConvertSegment(segs, i);
      CollectStep(cs, i, out);
      if v.Err? {
        return Err(TupleError(i, v.error));
      }
      out := out + [v.value];
      i := i + 1;
    }
    assert out + [] == out;
    return Ok(out);
  }

  /** Every value is the exact decimal value of its segment, truncated toward zero. */
  lemma IntTupleTruncates(s: string, i: nat)
    requires IntTuple(s).Ok? && i < |Segments(s)|
    ensures i < |IntTuple(s).value|
    ensures PyFloat.ParseFloat(Segments(s)[i]).Some? && PyFloat.ParseFloat(Segments(s)[i]).value.Finite?
    ensures PyFloat.TowardZero(IntTuple(s).value[i], PyFloat.Value(PyFloat.ParseFloat(Segments(s)[i]).value))
  {
    IntTupleValues(s);
    PyFloat.IntOfFloatTowardZero(Segments(s)[i]);
  }

  /** One coordinate as it may be written: `str(value)`, optionally a point and fraction digits, with whitespace around. */
  datatype Field = Field(before: string, value: int, point: bool, fraction: string, after: string)

  predicate WellFormed(f: Field)
  {
    && PyStr.AllIn(f.before, PyFloat.Whitespace)
    && PyStr.AllIn(f.after, PyFloat.Whitespace)
    && PyFloat.AllDigits(f.fraction)
    && (!f.point ==> f.fraction == [])
  }

  function FieldText(f: Field): string
  {
    f.before + PyFloat.Rendering(f.value, f.point, f.fraction) + f.after
  }

  function Texts(fs: seq<Field>): (ts: seq<string>)
    ensures |ts| == |fs|
  {
    seq(|fs|, i requires 0 <= i < |fs| => FieldText(fs[i]))
  }

  function Values(fs: seq<Field>): (xs: seq<int>)
    ensures |xs| == |fs|
  {
    seq(|fs|, i requires 0 <= i < |fs| => fs[i].value)
  }

  /** A written coordinate holds whitespace and number characters only, and does not start or end with a parenthesis. */
  lemma FieldAlphabet(f: Field)
    requires WellFormed(f)
    ensures |FieldText(f)| > 0
    ensures PyStr.AllIn(FieldText(f), PyFloat.LiteralChars)
  {
    var m := PyFloat.Rendering(f.value, f.point, f.fraction);
    PyFloat.RenderingAlphabet(f.value, f.point, f.fraction);
    PyStr.AllInSubset(m, PyFloat.NumberChars, PyFloat.LiteralChars);
    PyStr.AllInSubset(f.before, PyFloat.Whitespace, PyFloat.LiteralChars);
    PyStr.AllInSubset(f.after, PyFloat.Whitespace, PyFloat.LiteralChars);
    PyStr.AllInAppend(f.before, m, PyFloat.LiteralChars);
    PyStr.AllInAppend(f.before + m, f.after, PyFloat.LiteralChars);
  }

  /** Conversions that all succeed collect, from `from` on, into their values. */
  lemma {:induction false} CollectValues(cs: seq<Result<int, PyFloat.ErrorKind>>, xs: seq<int>, from: nat)
    requires from <= |cs| == |xs|
    requires forall i :: 0 <= i < |cs| ==> cs[i] == Ok(xs[i])
    ensures Collect(cs, from) == Ok(xs[from..])
    decreases |cs| - from
  {
    if from < |cs| {
      CollectValues(cs, xs, from + 1);
      assert xs[from..] == [xs[from]] + xs[from + 1..];
    }
  }

  /** Written coordinates are non-empty and hold whitespace and number characters only. */
  lemma TextsAlphabet(fs: seq<Field>)
    requires forall i :: 0 <= i < |fs| ==> WellFormed(fs[i])
    ensures forall i :: 0 <= i < |fs| ==> |Texts(fs)[i]| > 0 && PyStr.AllIn(Texts(fs)[i], PyFloat.LiteralChars)
  {
    forall i | 0 <= i < |fs| ensures |Texts(fs)[i]| > 0 && PyStr.AllIn(Texts(fs)[i], PyFloat.LiteralChars) {
      FieldAlphabet(fs[i]);
    }
  }

  /** Joining non-empty texts of literal characters gives a text without parentheses at its ends. */
  lemma JoinedTrimmed(ts: seq<string>)
    requires |ts| >= 1
    requires forall i :: 0 <= i < |ts| ==> |ts[i]| > 0 && PyStr.AllIn(ts[i], PyFloat.LiteralChars)
    ensures PyStr.Trimmed(PyStr.Join(ts, ','), Parens)
    ensures forall i :: 0 <= i < |ts| ==> ',' !in ts[i]
  {
    PyStr.JoinEnds(ts, ',');
    assert ts[0][0] in PyFloat.LiteralChars;
    assert ts[|ts| - 1][|ts[|ts| - 1]| - 1] in PyFloat.LiteralChars;
  }

  /** The stripped, split text of written coordinates in parentheses is the coordinates' texts. */
  lemma WrittenSegments(opening: string, fs: seq<Field>, closing: string)
    requires |fs| >= 1 && forall i :: 0 <= i < |fs| ==> WellFormed(fs[i])
    requires PyStr.AllIn(opening, Parens) && PyStr.AllIn(closing, Parens)
    ensures Segments(opening + PyStr.Join(Texts(fs), ',') + closing) == Texts(fs)
  {
    var ts := Texts(fs);
    var joined := PyStr.Join(ts, ',');
    TextsAlphabet(fs);
    JoinedTrimmed(ts);
    PyStr.StripCharsUnique(opening + joined + closing, Parens, opening, joined, closing);
    PyStr.SplitJoin(ts, ',');
  }

  /** Each written coordinate converts to its value. */
  lemma WrittenConversions(fs: seq<Field>)
    requires forall i :: 0 <= i < |fs| ==> WellFormed(fs[i])
    ensures forall i :: 0 <= i < |fs| ==> Conversions(Texts(fs))[i] == Ok(Values(fs)[i])
  {
    forall i | 0 <= i < |fs| ensures Conversions(Texts(fs))[i] == Ok(Values(fs)[i]) {
      var f := fs[i];
      ConversionAt(Texts(fs), i);
      PyFloat.IntOfRendering(f.value, f.point, f.fraction, f.before, f.after);
    }
  }

  /**
   * A tuple written by wrapping written coordinates, joined by commas, in any
   * runs of parentheses is read back as the coordinates' values, in order.
   */
  lemma RoundTrip(opening: string, fs: seq<Field>, closing: string)
    requires |fs| >= 1 && forall i :: 0 <= i < |fs| ==> WellFormed(fs[i])
    requires PyStr.AllIn(opening, Parens) && PyStr.AllIn(closing, Parens)
    ensures IntTuple(opening + PyStr.Join(Texts(fs), ',') + closing) == Ok(Values(fs))
  {
    WrittenSegments(opening, fs, closing);
    WrittenConversions(fs);
    CollectValues(Conversions(Texts(fs)), Values(fs), 0);
    assert Values(fs)[0..] == Values(fs);
  }

  /** A segment `int(float(...))` raises on makes the whole conversion fail, at that segment or before it. */
  lemma FailingSegment(s: string, i: nat)
    requires i < |Segments(s)| && PyFloat.IntOfFloat(Segments(s)[i]).Err?
    ensures IntTuple(s).Err? && IntTuple(s).error.segment <= i
  {
    IntTupleOk(s);
    IntTupleError(s);
  }

  /** A segment of whitespace only, the empty one included, is not a float literal. */
  lemma BlankNotFloat(w: string)
    requires PyStr.AllIn(w, PyFloat.Whitespace)
    ensures PyFloat.IntOfFloat(w) == Err(PyFloat.ValueError)
  {
    assert w == w + "" + "";
    PyStr.StripCharsUnique(w, PyFloat.Whitespace, w, "", "");
  }

  /** Input made of parentheses only, such as "()", has one empty segment, which fails. */
  lemma OnlyParens(s: string)
    requires PyStr.AllIn(s, Parens)
    ensures IntTuple(s) == Err(TupleError(0, PyFloat.ValueError))
  {
    PyStr.StripCharsUnique(s, Parens, s, "", "");
    assert s + "" + "" == s;
    assert Segments(s) == [""];
    BlankNotFloat("");
  }

  /** A comma at the end of the stripped input, as in "(1,2,)", leaves an empty last segment, so the conversion fails. */
  lemma TrailingComma(s: string)
    requires var t := PyStr.StripChars(s, Parens); |t| > 0 && t[|t| - 1] == ','
    ensures IntTuple(s).Err?
  {
    var segs := Segments(s);
    PyStr.SplitTrailingSeparator(PyStr.StripChars(s, Parens), ',');
    assert segs[|segs| - 1] == "";
    BlankNotFloat("");
    FailingSegment(s, |segs| - 1);
  }

  /**
   * A parenthesis left inside the stripped input, as the "(" of " (1, 2)"
   * behind its leading space, lies in a segment that is not a float literal,
   * so the conversion fails.
   */
  lemma ParenInside(s: string, k: nat)
    requires k < |PyStr.StripChars(s, Parens)| && PyStr.StripChars(s, Parens)[k] in Parens
    ensures exists i :: 0 <= i < |Segments(s)| && PyFloat.IntOfFloat(Segments(s)[i]) == Err(PyFloat.ValueError)
    ensures IntTuple(s).Err?
  {
    var segs := Segments(s);
    PyStr.JoinMember(segs, ',', k);
    var i :| 0 <= i < |segs| && PyStr.StripChars(s, Parens)[k] in segs[i];
    NotALiteral(segs[i], PyStr.StripChars(s, Parens)[k]);
    FailingSegment(s, i);
  }

  /**
   * A space in front of the opening parenthesis, as in " (1, 2)", stops
   * `strip("()")` at the front, so the conversion fails: either the "(" stays
   * inside the first segment, or nothing but the space is left.
   */
  lemma SpaceBeforeParen(s: string)
    requires |s| >= 2 && s[0] == ' ' && s[1] == '('
    ensures IntTuple(s).Err?
  {
    var t := PyStr.StripChars(s, Parens);
    StripKeepsFront(s);
    if |t| == 1 {
      OnlySpaceLeft(s);
    } else {
      ParenInside(s, 1);
    }
  }

  /** `strip("()")` keeps a front that is not a parenthesis: the stripped text is a non-empty prefix of `s`. */
  lemma StripKeepsFront(s: string)
    requires |s| > 0 && s[0] !in Parens
    ensures 0 < |PyStr.StripChars(s, Parens)| <= |s|
    ensures PyStr.StripChars(s, Parens) == s[..|PyStr.StripChars(s, Parens)|]
  {
    var t := PyStr.StripChars(s, Parens);
    PyStr.StripCharsShape(s, Parens);
    assert PyStr.LeadingRun(s, Parens) == 0;
    assert s == t + s[|t|..];
    if |t| == 0 {
      assert false;
    }
  }

  /** Input that strips down to a single space has that space as its only segment, which fails. */
  lemma OnlySpaceLeft(s: string)
    requires PyStr.StripChars(s, Parens) == " "
    ensures IntTuple(s).Err?
  {
    PyStr.SplitNoSeparator(" ", ',');
    assert PyFloat.IsSpace(' ');
    BlankNotFloat(" ");
    FailingSegment(s, 0);
  }

  /** A parenthesis anywhere in a segment makes it no float literal. */
  lemma NotALiteral(t: string, c: char)
    requires c in t && c in Parens
    ensures PyFloat.IntOfFloat(t) == Err(PyFloat.ValueError)
  {
    if PyFloat.ParseFloat(t).Some? {
      PyFloat.AcceptedAlphabet(t);
      assert false;
    }
  }

  /** The names `artery_loc_to_abbr` accepts, in the order of its membership test. */
  const ArteryNames: seq<string> := [
    "Left Anterior Descending Artery",
    "Right Coronary Artery",
    "Left Circumflex Artery",
    "Left Coronary Artery"
  ]

  /** The dictionary `artery_loc_to_abbr` looks names up in. */
  const ConversionDict: map<string, string> := map[
    "Left Anterior Descending Artery" := "LAD",
    "Right Coronary Artery" := "RCA",
    "Left Circumflex Artery" := "LCX",
    "Left Coronary Artery" := "LCA"
  ]

  /**
   * `artery_loc_to_abbr`: None for a name outside the membership list,
   * otherwise the dictionary entry, which exists for every name of the list.
   */
  function ArteryLocToAbbr(name: string): (r: Option<string>)
    ensures r.Some? <==>
              || name == "Left Anterior Descending Artery" || name == "Right Coronary Artery"
              || name == "Left Circumflex Artery" || name == "Left Coronary Artery"
    ensures name == "Left Anterior Descending Artery" ==> r == Some("LAD")
    ensures name == "Right Coronary Artery" ==> r == Some("RCA")
    ensures name == "Left Circumflex Artery" ==> r == Some("LCX")
    ensures name == "Left Coronary Artery" ==> r == Some("LCA")
    ensures r.Some? ==> |r.value| == 3
  {
    if name !in ArteryNames then None else Some(ConversionDict[name])
  }

  /** The membership list and the dictionary's keys are the same names, so the lookup never misses. */
  lemma NamesAreKeys()
    ensures (set i | 0 <= i < |ArteryNames| :: ArteryNames[i]) == ConversionDict.Keys
    ensures |ArteryNames| == |ConversionDict.Keys| == 4
  {
    var names := set i | 0 <= i < |ArteryNames| :: ArteryNames[i];
    assert ArteryNames[0] in names && ArteryNames[1] in names;
    assert ArteryNames[2] in names && ArteryNames[3] in names;
    assert names == ConversionDict.Keys;
  }

  /** Different names get different abbreviations. */
  lemma AbbreviationInjective(a: string, b: string)
    requires ArteryLocToAbbr(a).Some? && ArteryLocToAbbr(a) == ArteryLocToAbbr(b)
    ensures a == b
  {
  }

  /** The four abbreviations are four different codes. */
  lemma FourCodes()
    ensures ConversionDict.Values == {"LAD", "RCA", "LCX", "LCA"}
    ensures |ConversionDict.Values| == 4
  {
    assert ConversionDict["Left Anterior Descending Artery"] == "LAD";
    assert ConversionDict["Right Coronary Artery"] == "RCA";
    assert ConversionDict["Left Circumflex Artery"] == "LCX";
    assert ConversionDict["Left Coronary Artery"] == "LCA";
    assert ConversionDict.Values == {"LAD", "RCA", "LCX", "LCA"};
  }
}
