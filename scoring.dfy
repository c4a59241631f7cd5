/**
 * The scoring endpoint's own rules (main.py): reading amounts and quantities
 * from uploaded JSON values, the three suspicion tiers, the one-result-per-row
 * assembly from the ensemble's predictions, and the gate that requires all four
 * model files and the scaler file to be present before anything is predicted.
 */
module Scoring {
  import opened Wrappers
  import opened PyStrings
  import PyFloat

  // ---------------------------------------------------------------------------
  // parse_amount and parse_quantity

  /** A JSON value as it reaches `parse_amount`; lists and objects are `Compound`. */
  datatype Value = Null | Bool(b: bool) | Int(i: int) | Float(x: real) | Str(s: string) | Compound

  /** `s.replace(' ', '').replace(',', '.')`, both one-character replacements. */
  function Normalize(s: string): string
  {
    ReplaceChar(ReplaceChar(s, ' ', ""), ',', ".")
  }

  /** No space and no comma is left for `float()` to see. */
  lemma NormalizeClean(s: string)
    ensures ' ' !in Normalize(s) && ',' !in Normalize(s)
  {
    var noSpaces := ReplaceChar(s, ' ', "");
    ReplaceCharRemoves(s, ' ', "");
    ReplaceCharRemoves(noSpaces, ',', ".");
    ReplaceCharChars(noSpaces, ',', ".", ' ');
  }

  /** Text without spaces and commas is left as it is. */
  lemma NormalizeAbsent(s: string)
    requires ' ' !in s && ',' !in s
    ensures Normalize(s) == s
  {
    ReplaceCharAbsent(s, ' ', "");
    ReplaceCharAbsent(s, ',', ".");
  }

  /**
   * `2^1024 - 2^970`, halfway between the largest double and `2^1024`: `float()`
   * of an `int` this large in magnitude rounds out of the double range and
   * raises `OverflowError`.
   */
  const DoubleOverflow: int := 179769313486231580793728971405303415079934132710037826936173778980444968292764750946649017977587207096330286416692887910946555547851940402630657488671505820681908902000708383676273854845817711531764475730270069855571366959622842914819860834936475292719074168444365510704342711559699508093042880177904174497792

  /** `float(i)` of a Python `int` returns instead of raising `OverflowError`. */
  predicate IntConverts(i: int)
  {
    -DoubleOverflow < i < DoubleOverflow
  }

  /**
   * `parse_amount`: `0.0` for `None` and whenever `float()` raises `ValueError`
   * or `TypeError` (a list or an object, `Compound` here). `None` stands for
   * the `OverflowError` that `float()` raises on a huge `int`: the `except`
   * does not catch it, so it escapes.
   */
  function ParseAmount(amount: Value): (r: Option<real>)
    ensures r.None? <==> amount.Int? && !IntConverts(amount.i)
  {
    match amount
    case Null => Some(0.0)
    case Bool(b) => Some(if b then 1.0 else 0.0)
    case Int(i) => if IntConverts(i) then Some(i as real) else None
    case Float(x) => Some(x)
    case Str(s) => Some(PyFloat.ParseFloat(Normalize(s)).GetOr(0.0))
    case Compound => Some(0.0)
  }

  /** `parse_quantity`: the source repeats the body of `parse_amount` word for word. */
  function ParseQuantity(quantity: Value): (r: Option<real>)
    ensures r.None? <==> quantity.Int? && !IntConverts(quantity.i)
  {
    match quantity
    case Null => Some(0.0)
    case Bool(b) => Some(if b then 1.0 else 0.0)
    case Int(i) => if IntConverts(i) then Some(i as real) else None
    case Float(x) => Some(x)
    case Str(s) => Some(PyFloat.ParseFloat(Normalize(s)).GetOr(0.0))
    case Compound => Some(0.0)
  }

  /**
   * The value of everything that is not a string: `None` and a list or an
   * object (`float()` raises `TypeError`) read as `0.0`, a bool as `1.0` or
   * `0.0`, an `int` in the double range as its value, and a float as itself.
   */
  lemma ParseAmountNonString(v: Value)
    requires !v.Str?
    ensures v.Null? || v.Compound? ==> ParseAmount(v) == Some(0.0)
    ensures v.Bool? ==> ParseAmount(v) == Some(if v.b then 1.0 else 0.0)
    ensures v.Int? && IntConverts(v.i) ==> ParseAmount(v) == Some(v.i as real)
    ensures v.Float? ==> ParseAmount(v) == Some(v.x)
  {
  }

  /** The two readers agree on every input. */
  lemma ParseQuantityIsParseAmount(v: Value)
    ensures ParseQuantity(v) == ParseAmount(v)
  {
  }

  /**
   * A string amount reads as `v` exactly when, with spaces removed and commas
   * made points, it spells a decimal literal of value `v`, or when it spells
   * none and `v` is the fallback `0.0`.
   */
  lemma ParseAmountString(s: string, v: real)
    ensures ParseAmount(Str(s)) == Some(v) <==>
      (exists d: PyFloat.Literal :: d.Valid() && d.Text() == PyFloat.FloatStrip(Normalize(s)) && d.Value() == v)
      || (PyFloat.ParseFloat(Normalize(s)).None? && v == 0.0)
  {
    var t := Normalize(s);
    calc {
      ParseAmount(Str(s)) == Some(v);
      { StringCase(s); }
      PyFloat.ParseFloat(t).GetOr(0.0) == v;
      { FallbackIff(t, v); }
      (exists d: PyFloat.Literal :: d.Valid() && d.Text() == PyFloat.FloatStrip(t) && d.Value() == v)
      || (PyFloat.ParseFloat(t).None? && v == 0.0);
    }
  }

  lemma StringCase(s: string)
    ensures ParseAmount(Str(s)) == Some(PyFloat.ParseFloat(Normalize(s)).GetOr(0.0))
  {
  }

  lemma FallbackIff(t: string, v: real)
    ensures PyFloat.ParseFloat(t).GetOr(0.0) == v <==>
      (exists d: PyFloat.Literal :: d.Valid() && d.Text() == PyFloat.FloatStrip(t) && d.Value() == v)
      || (PyFloat.ParseFloat(t).None? && v == 0.0)
  {
    PyFloat.ParseFloatIff(t, v);
  }

  /** `parse_amount(None)` is `0.0`. */
  lemma ParseAmountNone()
    ensures ParseAmount(Null) == Some(0.0)
  {
  }

  /** The decimal rendering of any integer reads back as that integer; negative amounts are not refused. */
  lemma ParseAmountIntText(n: int)
    ensures ParseAmount(Str(IntToString(n))) == Some(n as real)
  {
    var t := IntToString(n);
    assert ' ' !in t && ',' !in t by {
      assert forall i :: 0 <= i < |t| ==> t[i] == '-' || '0' <= t[i] <= '9';
    }
    NormalizeAbsent(t);
    PyFloat.IntToStringParses(n);
    ReadsAs(t, t, n as real);
  }

  /** A string reads as `v` when its normalised text is a literal of value `v`. */
  lemma ReadsAs(s: string, t: string, v: real)
    requires Normalize(s) == t && PyFloat.ParseFloat(t) == Some(v)
    ensures ParseAmount(Str(s)) == Some(v)
  {
    StringCase(s);
  }

  /** A string reads as `0.0` when `float()` refuses its normalised text. */
  lemma ReadsAsFallback(s: string, t: string)
    requires Normalize(s) == t && PyFloat.ParseFloat(t) == None
    ensures ParseAmount(Str(s)) == Some(0.0)
  {
    StringCase(s);
  }

  /** Digits are neither spaces, commas nor points. */
  lemma DigitsHaveNoSeparator(s: string)
    requires PyFloat.AllDigits(s)
    ensures ' ' !in s && ',' !in s && '.' !in s
  {
    assert forall i :: 0 <= i < |s| ==> PyFloat.IsDigit(s[i]);
  }

  /**
   * A space as thousands separator and a comma as decimal mark:
   * `w + " " + g + "," + f` reads as the number with integer digits `w + g`
   * and fraction digits `f`.
   */
  lemma ParseAmountGrouped(w: string, g: string, f: string)
    requires PyFloat.AllDigits(w) && PyFloat.AllDigits(g) && PyFloat.AllDigits(f) && |w + g| > 0
    ensures PyFloat.AllDigits(w + g)
    ensures ParseAmount(Str(w + " " + g + "," + f)) == Some(PyFloat.Literal(PyFloat.NoSign, w + g, Some(f)).Value())
  {
    DigitsHaveNoSeparator(w);
    DigitsHaveNoSeparator(g);
    DigitsHaveNoSeparator(f);
    var s := w + " " + g + "," + f;
    var tail := g + [','] + f;
    assert s == w + [' '] + tail;
    ReplaceCharAround(w, ' ', tail, ' ', "");
    assert w + "" + tail == (w + g) + [','] + f;
    assert ',' !in w + g;
    ReplaceCharAround(w + g, ',', f, ',', ".");
    var d := PyFloat.Literal(PyFloat.NoSign, w + g, Some(f));
    assert PyFloat.AllDigits(w + g) by {
      forall i | 0 <= i < |w + g| ensures PyFloat.IsDigit((w + g)[i]) {
        if i >= |w| { assert (w + g)[i] == g[i - |w|]; }
      }
    }
    assert d.Text() == (w + g) + "." + f;
    PyFloat.ParseFloatText(d);
    ReadsAs(s, d.Text(), d.Value());
  }

  /** `"1 234,56"` reads as 1234.56. */
  lemma ParseAmountGroupedComma(w: string, g: string, f: string)
    requires w == "1" && g == "234" && f == "56"
    ensures ParseAmount(Str(w + " " + g + "," + f)) == Some(1234.56)
  {
    var d := GroupedExampleDigits(w, g, f);
    ParseAmountGrouped(w, g, f);
    LiteralValue1234(d);
  }

  lemma GroupedExampleDigits(w: string, g: string, f: string) returns (d: PyFloat.Literal)
    requires w == "1" && g == "234" && f == "56"
    ensures PyFloat.AllDigits(w) && PyFloat.AllDigits(g) && PyFloat.AllDigits(f) && |w + g| > 0
    ensures d == PyFloat.Literal(PyFloat.NoSign, w + g, Some(f)) && d.whole == "1234" && d.fraction == Some("56")
  {
    d := PyFloat.Literal(PyFloat.NoSign, w + g, Some(f));
    assert w + g == "1234";
  }

  lemma LiteralValue1234(d: PyFloat.Literal)
    requires d.sign == PyFloat.NoSign && d.whole == "1234" && d.fraction == Some("56")
    ensures d.Valid() && d.Value() == 1234.56
  {
    var f := d.fraction.value;
    assert PyFloat.DigitsValue(d.whole) == 1234 by {
      assert d.whole[..3] == "123" && "123"[..2] == "12" && "12"[..1] == "1" && "1"[..0] == "";
    }
    assert PyFloat.FractionValue(f[1..]) == 0.6 by {
      assert f[1..] == "6" && "6"[1..] == "";
    }
    assert PyFloat.FractionValue(f) == (5.0 + 0.6) / 10.0;
  }

  /** Two commas become two points, which `float()` refuses: the amount reads as `0.0`. */
  lemma ParseAmountTwoCommas(a: string, b: string, c: string)
    requires PyFloat.AllDigits(a) && PyFloat.AllDigits(b) && PyFloat.AllDigits(c)
    ensures ParseAmount(Str(a + "," + b + "," + c)) == Some(0.0)
  {
    DigitsHaveNoSeparator(a);
    DigitsHaveNoSeparator(b);
    DigitsHaveNoSeparator(c);
    var s := a + "," + b + "," + c;
    var head, tail := a + [','], b + [','] + c;
    assert s == head + tail;
    assert ' ' !in s;
    ReplaceCharAbsent(s, ' ', "");
    ReplaceCharConcat(head, tail, ',', ".");
    assert head == a + [','] + [];
    ReplaceCharAround(a, ',', [], ',', ".");
    ReplaceCharAround(b, ',', c, ',', ".");
    var t := a + "." + b + "." + c;
    assert (a + "." + []) + (b + "." + c) == t;
    PyFloat.ParseFloatTwoPoints(a, b, c);
    ReadsAsFallback(s, t);
  }

  /** `"1,2,3"` becomes `"1.2.3"`, so it reads as `0.0`. */
  lemma ParseAmountTwoPoints(a: string, b: string, c: string)
    requires a == "1" && b == "2" && c == "3"
    ensures ParseAmount(Str(a + "," + b + "," + c)) == Some(0.0)
  {
    ParseAmountTwoCommas(a, b, c);
  }

  /** A string with no digit at all, such as `"abc"`, reads as `0.0`. */
  lemma ParseAmountNoDigits(s: string)
    requires forall i :: 0 <= i < |s| ==> !PyFloat.IsDigit(s[i])
    ensures ParseAmount(Str(s)) == Some(0.0)
  {
    var t := PyFloat.FloatStrip(Normalize(s));
    forall c | PyFloat.IsDigit(c)
      ensures c !in t
    {
      NormalizeDigits(s, c);
      PyFloat.FloatStripChars(Normalize(s), c);
    }
    assert forall k :: 0 <= k < |t| ==> !PyFloat.IsDigit(t[k]) by {
      forall k | 0 <= k < |t| ensures !PyFloat.IsDigit(t[k]) {
        assert t[k] in t;
      }
    }
    PyFloat.ParseNeedsDigit(t);
    assert PyFloat.ParseFloat(Normalize(s)) == None;
    StringCase(s);
  }

  /** `"\x1c5"` keeps its information separator through both replacements and `float()`, so it reads as `0.0`. */
  lemma ParseAmountSeparatorPrefix(s: string)
    requires s == "\U{1c}5"
    ensures ParseAmount(Str(s)) == Some(0.0)
  {
    assert ' ' !in s && ',' !in s;
    NormalizeAbsent(s);
    PyFloat.ParseFloatKeepsSeparator(s);
    ReadsAsFallback(s, s);
  }

  /** A digit in the normalised text is a digit of the original. */
  lemma NormalizeDigits(s: string, c: char)
    requires PyFloat.IsDigit(c) && c !in s
    ensures c !in Normalize(s)
  {
    ReplaceCharChars(s, ' ', "", c);
    ReplaceCharChars(ReplaceChar(s, ' ', ""), ',', ".", c);
  }

  // ---------------------------------------------------------------------------
  // suspicion_level

  datatype Level = Low | Medium | High

  /** The `suspicion_level` string the response carries. */
  function LevelName(level: Level): string
  {
    match level
    case Low => "Low"
    case Medium => "Medium"
    case High => "High"
  }

  /** `'High' if p > 70 else ('Medium' if p > 30 else 'Low')`. */
  function SuspicionLevel(p: real): (r: Level)
    ensures r == High <==> p > 70.0
    ensures r == Medium <==> 30.0 < p <= 70.0
    ensures r == Low <==> p <= 30.0
  {
    if p > 70.0 then High else if p > 30.0 then Medium else Low
  }

  function Rank(level: Level): nat
  {
    match level
    case Low => 0
    case Medium => 1
    case High => 2
  }

  /** A higher percentage never gives a lower tier. */
  lemma SuspicionLevelMonotone(p: real, q: real)
    requires p <= q
    ensures Rank(SuspicionLevel(p)) <= Rank(SuspicionLevel(q))
  {
  }

  /** The thresholds themselves belong to the lower tier. */
  lemma SuspicionLevelBoundaries()
    ensures SuspicionLevel(70.0) == Medium && SuspicionLevel(30.0) == Low
  {
  }

  // ---------------------------------------------------------------------------
  // The result loop and the model gate

  /** One row of the uploaded table: its columns by name. */
  type Row = map<string, Value>

  /** `row.get(key, default)`. */
  function Get(row: Row, key: string, default: Value): Value
  {
    if key in row then row[key] else default
  }

  /** One element of `predictions` in the response. */
  datatype PredictionResult = PredictionResult(
    id: Value, subject: Value, amount: real, quantity: real,
    suspicionPercentage: real, suspicionLevel: string)

  /**
   * Why the analysis request fails with status 500: a missing model or scaler
   * file, an `OverflowError` escaping `parse_amount` or `parse_quantity` on row
   * `index`, or the `IndexError` of `predictions[index]`.
   */
  datatype AnalysisError = ModelMissing(name: string) | ScalerMissing | ConversionOverflow(index: nat) | PredictionMissing(index: nat)

  /** Neither numeric reader raises on this row. */
  predicate RowConverts(row: Row)
  {
    ParseAmount(Get(row, "amount", Null)).Some? && ParseQuantity(Get(row, "quantity", Null)).Some?
  }

  /** The result for row number `index`, read from the row and its prediction `p`. */
  predicate ResultFor(row: Row, index: nat, p: real, result: PredictionResult)
  {
    result.id == Get(row, "id", Int(index))
    && result.subject == Get(row, "subject", Str(""))
    && ParseAmount(Get(row, "amount", Null)) == Some(result.amount)
    && ParseQuantity(Get(row, "quantity", Null)) == Some(result.quantity)
    && result.suspicionPercentage == p
    && result.suspicionLevel == LevelName(SuspicionLevel(p))
  }

  /** `results` holds one result per row, in row order, each read from its row and its prediction. */
  predicate ResultsFor(rows: seq<Row>, predictions: seq<real>, results: seq<PredictionResult>)
  {
    |results| == |rows| && |rows| <= |predictions|
    && forall i :: 0 <= i < |results| ==> ResultFor(rows[i], i, predictions[i], results[i])
  }

  /**
   * How the loop fails: at the first row whose amount or quantity overflows, or,
   * when every row up to and including row `len(predictions)` converts, at the
   * `IndexError` on that row.
   */
  predicate FirstFailure(rows: seq<Row>, predictions: seq<real>, e: AnalysisError)
  {
    (e.ConversionOverflow? && e.index < |rows| && e.index <= |predictions|
      && !RowConverts(rows[e.index]) && forall j :: 0 <= j < e.index ==> RowConverts(rows[j]))
    || (e == PredictionMissing(|predictions|) && |predictions| < |rows|
      && forall j :: 0 <= j <= |predictions| ==> RowConverts(rows[j]))
  }

  /**
   * The loop over `df.iterrows()`: one result per row. An `OverflowError` from
   * the readers or the `IndexError` of the first row without a prediction fails
   * the whole request.
   */
  method AssembleResults(rows: seq<Row>, predictions: seq<real>) returns (r: Result<seq<PredictionResult>, AnalysisError>)
    ensures r.Success? <==> |rows| <= |predictions| && forall i :: 0 <= i < |rows| ==> RowConverts(rows[i])
    ensures r.Success? ==> ResultsFor(rows, predictions, r.value)
    ensures r.Failure? ==> FirstFailure(rows, predictions, r.error)
  {
    var results: seq<PredictionResult> := [];
    var i := 0;
    while i < |rows|
      invariant 0 <= i <= |rows| && i <= |predictions|
      invariant forall j :: 0 <= j < i ==> RowConverts(rows[j])
      invariant ResultsFor(rows[..i], predictions, results)
    {
      var row := rows[i];
      var amount := ParseAmount(Get(row, "amount", Null));
      if amount.None? {
        return Failure(ConversionOverflow(i));
      }
      var quantity := ParseQuantity(Get(row, "quantity", Null));
      if quantity.None? {
        return Failure(ConversionOverflow(i));
      }
      if i >= |predictions| {
        return Failure(PredictionMissing(i));
      }
      var p := predictions[i];
      var result := PredictionResult(Get(row, "id", Int(i)), Get(row, "subject", Str("")),
        amount.value, quantity.value, p, LevelName(SuspicionLevel(p)));
      assert ResultFor(row, i, p, result);
      assert rows[..i + 1] == rows[..i] + [row];
      results := results + [result];
      i := i + 1;
    }
    assert rows[..i] == rows;
    return Success(results);
  }

  /** The four ensemble members, in the order they are loaded. */
  const ModelNames: seq<string> := ["xgboost", "lightgbm", "catboost", "randomforest"]

  /** The file of model `name` in the models directory. */
  function ModelPath(name: string): string
  {
    name + "_model.joblib"
  }

  const ScalerPath: string := "scaler.joblib"

  /** Every model file and the scaler file is present. */
  predicate AllArtifacts(present: set<string>)
  {
    (forall k :: 0 <= k < |ModelNames| ==> ModelPath(ModelNames[k]) in present) && ScalerPath in present
  }

  /**
   * `e` names the first artifact missing in load order: a model whose file is
   * absent while every earlier model's is present, or the scaler when every
   * model file is present and the scaler file is not.
   */
  predicate FirstMissing(present: set<string>, e: AnalysisError)
  {
    (e.ModelMissing? &&
      exists k :: 0 <= k < |ModelNames| && e.name == ModelNames[k]
        && ModelPath(ModelNames[k]) !in present
        && forall j :: 0 <= j < k ==> ModelPath(ModelNames[j]) in present)
    || (e == ScalerMissing && ScalerPath !in present
      && forall k :: 0 <= k < |ModelNames| ==> ModelPath(ModelNames[k]) in present)
  }

  /**
   * The loading loop: the models in order, then the scaler; the first missing
   * file fails the request. Returns the names of the loaded models.
   */
  method LoadArtifacts(present: set<string>) returns (r: Result<seq<string>, AnalysisError>)
    ensures r.Success? <==> AllArtifacts(present)
    ensures r.Success? ==> r.value == ModelNames
    ensures r.Failure? ==> FirstMissing(present, r.error)
  {
    var loaded: seq<string> := [];
    var k := 0;
    while k < |ModelNames|
      invariant 0 <= k <= |ModelNames|
      invariant loaded == ModelNames[..k]
      invariant forall j :: 0 <= j < k ==> ModelPath(ModelNames[j]) in present
    {
      var name := ModelNames[k];
      if ModelPath(name) !in present {
        return Failure(ModelMissing(name));
      }
      loaded := loaded + [name];
      k := k + 1;
    }
    if ScalerPath !in present {
      return Failure(ScalerMissing);
    }
    return Success(loaded);
  }

  /** Only one artifact can be the first missing one: the failure is determined by the files present. */
  lemma FirstMissingUnique(present: set<string>, e1: AnalysisError, e2: AnalysisError)
    requires FirstMissing(present, e1) && FirstMissing(present, e2)
    ensures e1 == e2
  {
    if e1.ModelMissing? && e2.ModelMissing? {
      var k1 :| 0 <= k1 < |ModelNames| && e1.name == ModelNames[k1]
        && ModelPath(ModelNames[k1]) !in present
        && forall j :: 0 <= j < k1 ==> ModelPath(ModelNames[j]) in present;
      var k2 :| 0 <= k2 < |ModelNames| && e2.name == ModelNames[k2]
        && ModelPath(ModelNames[k2]) !in present
        && forall j :: 0 <= j < k2 ==> ModelPath(ModelNames[j]) in present;
      assert k1 == k2;
    }
  }

  /** With no artifact present, the request fails on `xgboost`, the first model loaded. */
  lemma NothingPresentFailsOnFirstModel(present: set<string>, e: AnalysisError)
    requires present == {} && FirstMissing(present, e)
    ensures e == ModelMissing("xgboost")
  {
    assert FirstMissing(present, ModelMissing(ModelNames[0]));
    FirstMissingUnique(present, e, ModelMissing(ModelNames[0]));
  }

  /**
   * The body of `analyze_data` after the DataFrame is built: load every
   * artifact, predict, assemble. `predictorCalled` says whether the ensemble ran.
   */
  method Analyze(rows: seq<Row>, present: set<string>, predict: seq<Row> -> seq<real>)
    returns (r: Result<seq<PredictionResult>, AnalysisError>, predictorCalled: bool)
    ensures predictorCalled <==> AllArtifacts(present)
    ensures !AllArtifacts(present) ==> r.Failure? && FirstMissing(present, r.error)
    ensures AllArtifacts(present) ==>
      (r.Success? <==> |rows| <= |predict(rows)| && forall i :: 0 <= i < |rows| ==> RowConverts(rows[i]))
      && (r.Success? ==> ResultsFor(rows, predict(rows), r.value))
      && (r.Failure? ==> FirstFailure(rows, predict(rows), r.error))
  {
    var loaded := LoadArtifacts(present);
    if loaded.Failure? {
      return Failure(loaded.error), false;
    }
    var predictions := predict(rows);
    predictorCalled := true;
    r := AssembleResults(rows, predictions);
  }
}
