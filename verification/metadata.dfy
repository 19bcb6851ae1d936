/** The record-building part of `get_video_metadata` in `app/lib/ffmpeg.py`:
    what happens to an already-decoded ffprobe document, the file's stat
    and its `.md5` sidecar. Running ffprobe, JSON decoding, date parsing and
    time-zone localisation are parameters. Python's `None` is `JNull`. */
module VideoMetadata {
  import opened Wrappers
  import opened Strings
  import opened Paths
  import opened FileSystem
  import opened Checksum
  import opened Formatting
  import opened Ffmpeg

  /** A decoded JSON value. */
  datatype Json =
    | JNull
    | JBool(b: bool)
    | JInt(i: int)
    | JReal(r: real)
    | JStr(s: string)
    | JArr(items: seq<Json>)
    | JObj(fields: map<string, Json>)

  /** The exceptions the record building can raise, by Python class. */
  datatype MetaError =
    | ProbeFailed(cmd: seq<string>, returnCode: int)   // FFMPEGError
    | KeyError(key: string)
    | TypeError
    | ValueError(text: string)
    | IndexError
    | ZeroDivision
    | AttributeError
    | Os(err: OsError)

  /** An instant, as the date parser or the file's ctime gives it. */
  datatype Date = Date(stamp: int)

  /** What `os.path.getctime`/`getsize` report (the stat call can fail). */
  datatype FileStat = FileStat(ctime: Date, size: nat)

  /** ffprobe's exit status and, when it is 0, its decoded output. */
  datatype ProbeRun = ProbeRun(returnCode: int, document: Json)

  // ---------------------------------------------------------------------
  // Python built-ins on JSON values

  /** `d.get(key, default)` on a dict. */
  function GetOr(d: map<string, Json>, key: string, default: Json): Json {
    if key in d then d[key] else default
  }

  /** `d.get(key, None)` on a dict. */
  function Lookup(d: map<string, Json>, key: string): Json {
    GetOr(d, key, JNull)
  }

  /** `d.get(key, default)` on a value: only a dict has `get`. */
  function Get(d: Json, key: string, default: Json): (r: Result<Json, MetaError>)
    ensures r.Ok? <==> d.JObj?
    ensures r.Ok? && key in d.fields ==> r.value == d.fields[key]
    ensures r.Ok? && key !in d.fields ==> r.value == default
  {
    if d.JObj? then Ok(GetOr(d.fields, key, default)) else Err(AttributeError)
  }

  /** `d[key]` on a value that must be a dict. */
  function Index(d: Json, key: string): (r: Result<Json, MetaError>)
    ensures r.Ok? <==> d.JObj? && key in d.fields
    ensures r.Ok? ==> r.value == d.fields[key]
    ensures d.JObj? && key !in d.fields ==> r == Err(KeyError(key))
  {
    if !d.JObj? then Err(TypeError)
    else if key in d.fields then Ok(d.fields[key])
    else Err(KeyError(key))
  }

  /** `int(x)` of a number truncates toward zero. */
  function Truncate(x: real): (n: int)
    ensures x >= 0.0 ==> n == x.Floor
    ensures (n as real - x) * (n as real - x) < 1.0
    ensures n == 0 || (n > 0 <==> x > 0.0)
  {
    if x >= 0.0 then x.Floor else -((-x).Floor)
  }

  /** Python's `int(v)` for a decoded JSON value. */
  function PyInt(v: Json): (r: Result<int, MetaError>)
    ensures v.JInt? ==> r == Ok(v.i)
    ensures v.JStr? ==> (r.Ok? <==> ParseInt(v.s).Some?) && (r.Ok? ==> r.value == ParseInt(v.s).value)
    ensures v.JNull? || v.JArr? || v.JObj? ==> r == Err(TypeError)
  {
    match v
    case JInt(i) => Ok(i)
    case JBool(b) => Ok(if b then 1 else 0)
    case JReal(x) => Ok(Truncate(x))
    case JStr(s) => (match ParseInt(s) case Some(n) => Ok(n) case None => Err(ValueError(s)))
    case _ => Err(TypeError)
  }

  /** `int(v) or None`: zero, like a missing value defaulting to 0, becomes None. */
  function IntOrNone(v: Json): (r: Result<Option<int>, MetaError>)
    ensures r.Ok? <==> PyInt(v).Ok?
    ensures r == Ok(None) <==> PyInt(v) == Ok(0)
    ensures r.Ok? && r.value.Some? ==> r.value.value == PyInt(v).value && r.value.value != 0
  {
    var n :- PyInt(v);
    Ok(if n == 0 then None else Some(n))
  }

  /** `float(text)` for the plain decimal forms ffprobe writes: an optional
      sign, digits, and optionally a '.' and more digits, with at least one
      digit in all. */
  function ParseDecimal(s: string): (r: Option<real>)
  {
    if |s| > 0 && (s[0] == '-' || s[0] == '+') then
      match UnsignedDecimal(s[1..])
      case Some(x) => Some(if s[0] == '-' then -x else x)
      case None => None
    else UnsignedDecimal(s)
  }

  function UnsignedDecimal(s: string): (r: Option<real>)
    ensures r.Some? ==> r.value >= 0.0
  {
    var dot := LastIndexOf(s, '.');
    if dot < 0 then
      if |s| > 0 && AllDigits(s) then Some(DigitsValue(s) as real) else None
    else DecimalParts(s[..dot], s[dot + 1..])
  }

  /** The digits either side of the '.', at least one in all. */
  function DecimalParts(whole: string, frac: string): (r: Option<real>)
    ensures r.Some? ==> r.value >= 0.0
  {
    if |whole| + |frac| > 0 && AllDigits(whole) && AllDigits(frac) then
      var part := DigitsValue(frac) as real / Pow10(|frac|) as real;
      assert part >= 0.0;
      Some(DigitsValue(whole) as real + part)
    else None
  }

  /** Python's `float(v)` for a decoded JSON value. */
  function PyFloat(v: Json): (r: Result<real, MetaError>)
    ensures v.JInt? ==> r == Ok(v.i as real)
    ensures v.JReal? ==> r == Ok(v.r)
    ensures v.JStr? ==> (r.Ok? <==> ParseDecimal(v.s).Some?)
    ensures v.JNull? || v.JArr? || v.JObj? ==> r == Err(TypeError)
  {
    match v
    case JInt(i) => Ok(i as real)
    case JBool(b) => Ok(if b then 1.0 else 0.0)
    case JReal(x) => Ok(x)
    case JStr(s) => (match ParseDecimal(s) case Some(x) => Ok(x) case None => Err(ValueError(s)))
    case _ => Err(TypeError)
  }

  /** `float()` reads back every `str(int)`. */
  lemma ParseDecimalInt(n: int)
    ensures ParseDecimal(FormatInt(n, 0)) == Some(n as real)
  {
    UnpaddedInt(n);
    if n >= 0 {
      UnsignedNatString(n);
    } else {
      SignedNatString(n);
    }
  }

  /** `float()` reads a '-' before the digits of `-n` as `n`. */
  lemma SignedNatString(n: int)
    requires n < 0
    ensures ParseDecimal("-" + NatToString(-n)) == Some(n as real)
  {
    var x := NatToString(-n);
    var t := "-" + x;
    assert t[0] == '-' && t[1..] == x;
    var v := (-n) as real;
    UnsignedNatString(-n);
    assert UnsignedDecimal(t[1..]) == Some(v);
    assert -v == n as real;
  }

  /** With no width, `str(n)` is the digits of `|n|`, after a '-' when `n`
      is negative. */
  lemma UnpaddedInt(n: int)
    ensures n >= 0 ==> FormatInt(n, 0) == NatToString(n)
    ensures n < 0 ==> FormatInt(n, 0) == "-" + NatToString(-n)
  {
  }

  /** `float()` reads the decimal digits of a natural number back. */
  lemma UnsignedNatString(k: nat)
    ensures UnsignedDecimal(NatToString(k)) == Some(k as real)
    ensures ParseDecimal(NatToString(k)) == Some(k as real)
  {
    var t := NatToString(k);
    NatToStringValue(k);
    assert LastIndexOf(t, '.') == -1;
    assert IsDigit(t[0]);
  }

  /** `float()` of digits, a '.' and `k` more digits counts the fraction in
      units of `10^-k`. */
  lemma ParseDecimalFraction(w: string, frac: string)
    requires |w| > 0 && AllDigits(w) && AllDigits(frac)
    ensures ParseDecimal(w + "." + frac)
            == Some(DigitsValue(w) as real + DigitsValue(frac) as real / Pow10(|frac|) as real)
  {
    var s := w + "." + frac;
    assert s[0] == w[0] && IsDigit(w[0]);
    assert ParseDecimal(s) == UnsignedDecimal(s);
    FractionSplits(w, frac, s);
    assert UnsignedDecimal(s) == DecimalParts(w, frac);
    DecimalPartsValue(w, frac);
  }

  lemma DecimalPartsValue(w: string, frac: string)
    requires |w| > 0 && AllDigits(w) && AllDigits(frac)
    ensures DecimalParts(w, frac) == Some(DigitsValue(w) as real + DigitsValue(frac) as real / Pow10(|frac|) as real)
  {
  }

  lemma FractionSplits(w: string, frac: string, s: string)
    requires AllDigits(frac) && s == w + "." + frac
    ensures LastIndexOf(s, '.') == |w| && s[..|w|] == w && s[|w| + 1..] == frac
  {
    assert ("." + frac)[1..] == frac;
    LastIndexOfAfter(w, '.', "." + frac);
    assert s == w + ("." + frac);
  }

  /** `float()` reads back Python's `"%0<width>.<places>f" % x` for a
      non-negative `x`: the value in units of `10^-places`, rounded half to
      even. */
  lemma {:induction false} FormatFixedReadsBack(x: real, width: nat, places: nat)
    requires x >= 0.0
    ensures ParseDecimal(FormatFixed(x, width, places))
            == Some(RoundHalfEven(x * Pow10(places) as real) as real / Pow10(places) as real)
  {
    var n := Scaled(x, places);
    ScaledIsRounded(x, places);
    var t := ZeroPad(ScaledDigits(n, places), width);
    assert FormatFixed(x, width, places) == t;
    PaddedScaledDigits(n, places, width);
    ParseUnsigned(t, n as real / Pow10(places) as real);
  }

  /** `float()` of text starting with a digit. */
  lemma ParseUnsigned(t: string, v: real)
    requires |t| > 0 && IsDigit(t[0]) && UnsignedDecimal(t) == Some(v)
    ensures ParseDecimal(t) == Some(v)
  {
  }

  /** `float()` of text starting with a digit, and of the same text after a '-'. */
  lemma ParseSigned(t: string, v: real)
    requires |t| > 0 && IsDigit(t[0]) && UnsignedDecimal(t) == Some(v)
    ensures ParseDecimal(t) == Some(v) && ParseDecimal("-" + t) == Some(-v)
  {
    var u := "-" + t;
    assert u[0] == '-' && u[1..] == t;
  }

  /** Scaling a non-negative value never rounds below zero. */
  lemma {:induction false} ScaledIsRounded(y: real, places: nat)
    requires y >= 0.0
    ensures Scaled(y, places) == RoundHalfEven(y * Pow10(places) as real)
  {
    ShiftScales(y, places);
    assert y * Pow10(places) as real >= 0.0;
  }

  /** The padded digits start with a digit and read back as `n / 10^places`. */
  lemma {:induction false} PaddedScaledDigits(n: nat, places: nat, w: nat)
    ensures var t := ZeroPad(ScaledDigits(n, places), w);
            |t| > 0 && IsDigit(t[0]) && UnsignedDecimal(t) == Some(n as real / Pow10(places) as real)
  {
    var digits := ScaledDigits(n, places);
    var k := if |digits| >= w then 0 else w - |digits|;
    assert ZeroPad(digits, w) == Zeros(k) + digits;
    ZerosThenScaled(n, places, k);
  }

  /** Leading zeros before the rendered digits change nothing `float()` sees. */
  lemma {:induction false} ZerosThenScaled(n: nat, places: nat, k: nat)
    ensures var t := Zeros(k) + ScaledDigits(n, places);
            |t| > 0 && IsDigit(t[0]) && UnsignedDecimal(t) == Some(n as real / Pow10(places) as real)
  {
    if places == 0 {
      ZerosThenUnits(n, k);
    } else {
      ZerosThenPlaces(n, places, k);
    }
  }

  lemma {:induction false} ZerosThenUnits(n: nat, k: nat)
    ensures var t := Zeros(k) + ScaledDigits(n, 0);
            |t| > 0 && IsDigit(t[0]) && UnsignedDecimal(t) == Some(n as real / Pow10(0) as real)
  {
    assert ScaledDigits(n, 0) == NatToString(n);
    ZerosThenWhole(k, n);
    assert n as real / Pow10(0) as real == n as real;
  }

  lemma {:induction false} ZerosThenPlaces(n: nat, places: nat, k: nat)
    requires places > 0
    ensures var t := Zeros(k) + ScaledDigits(n, places);
            |t| > 0 && IsDigit(t[0]) && UnsignedDecimal(t) == Some(n as real / Pow10(places) as real)
  {
    var w, f := FractionPieces(n, places, k);
    DecimalAt(Zeros(k) + ScaledDigits(n, places), w, f);
  }

  /** `float()` of any text that is digits, a '.' and more digits. */
  lemma DecimalAt(t: string, whole: string, frac: string)
    requires |whole| > 0 && AllDigits(whole) && AllDigits(frac) && t == whole + "." + frac
    ensures |t| > 0 && t[0] == whole[0]
    ensures UnsignedDecimal(t) == Some(DigitsValue(whole) as real + DigitsValue(frac) as real / Pow10(|frac|) as real)
  {
    DecimalText(whole, frac);
  }

  /** With decimals, the padded rendering is digits worth the quotient, a
      '.', and `places` digits worth the remainder. */
  lemma {:induction false} FractionPieces(n: nat, places: nat, k: nat) returns (w: string, f: string)
    requires places > 0
    ensures Zeros(k) + ScaledDigits(n, places) == w + "." + f
    ensures |w| > 0 && IsDigit(w[0]) && AllDigits(w) && AllDigits(f)
    ensures DigitsValue(w) as real + DigitsValue(f) as real / Pow10(|f|) as real == n as real / Pow10(places) as real
  {
    var unit := Pow10(places);
    DivModNat(n, unit);
    var q: nat, m: nat := n / unit, n % unit;
    w := Zeros(k) + NatToString(q);
    f := ZeroPad(NatToString(m), places);
    WholeDigits(k, q);
    FractionDigits(m, places);
    assert ScaledDigits(n, places) == NatToString(q) + ("." + f);
    DivModReal(n, unit);
  }

  /** With no decimals: zeros and the digits of `q` read as `q`. */
  lemma ZerosThenWhole(k: nat, q: nat)
    ensures var t := Zeros(k) + NatToString(q);
            |t| > 0 && IsDigit(t[0]) && UnsignedDecimal(t) == Some(q as real)
  {
    WholeDigits(k, q);
    NoDotDigits(Zeros(k) + NatToString(q));
  }

  /** Zeros before the digits of `q` are digits worth `q`, starting with a digit. */
  lemma {:induction false} WholeDigits(k: nat, q: nat)
    ensures var whole := Zeros(k) + NatToString(q);
            |whole| > 0 && IsDigit(whole[0]) && AllDigits(whole) && DigitsValue(whole) == q
  {
    NatToStringValue(q);
    LeadingZerosValue(k, NatToString(q));
  }

  /** `float()` of plain digits is their value. */
  lemma NoDotDigits(t: string)
    requires |t| > 0 && AllDigits(t)
    ensures UnsignedDecimal(t) == Some(DigitsValue(t) as real)
  {
    assert LastIndexOf(t, '.') == -1;
  }

  /** `float()` of digits, a '.' and more digits, without a sign. */
  lemma DecimalText(whole: string, frac: string)
    requires |whole| > 0 && AllDigits(whole) && AllDigits(frac)
    ensures UnsignedDecimal(whole + "." + frac)
            == Some(DigitsValue(whole) as real + DigitsValue(frac) as real / Pow10(|frac|) as real)
  {
    var t := whole + "." + frac;
    FractionSplits(whole, frac, t);
    assert UnsignedDecimal(t) == DecimalParts(whole, frac);
    DecimalPartsValue(whole, frac);
  }

  /** The fraction field is exactly `places` digits worth `m`. */
  lemma FractionDigits(m: nat, places: nat)
    requires places >= 1 && m < Pow10(places)
    ensures var f := ZeroPad(NatToString(m), places);
            |f| == places && AllDigits(f) && DigitsValue(f) == m
  {
    NatToStringShort(m, places);
    PaddedDigitsValue(m, places);
  }

  /** A number below `10^k` has at most `k` digits. */
  lemma {:induction false} NatToStringShort(m: nat, k: nat)
    requires k >= 1 && m < Pow10(k)
    ensures |NatToString(m)| <= k
    decreases m
  {
    if m >= 10 {
      assert Pow10(k) == 10 * Pow10(k - 1);
      assert k >= 2;
      assert m / 10 < Pow10(k - 1);
      NatToStringShort(m / 10, k - 1);
    }
  }

  /** Floor division of naturals. */
  lemma DivModNat(n: nat, unit: nat)
    requires unit >= 1
    ensures 0 <= n / unit && 0 <= n % unit < unit && n == (n / unit) * unit + n % unit
  {
  }

  /** Quotient and remainder put back together, over the reals. */
  lemma DivModReal(n: nat, unit: nat)
    requires unit >= 1
    ensures (n / unit) as real + (n % unit) as real / unit as real == n as real / unit as real
  {
    var q, r, u := (n / unit) as real, (n % unit) as real, unit as real;
    assert n == (n / unit) * unit + n % unit;
    assert n as real == q * u + r;
    assert (q * u + r) / u == q + r / u;
  }

  // ---------------------------------------------------------------------
  // Stream promotion

  /** The `codec_type` of one entry of `streams`, as a dict key: a string
      becomes a key, any other hashable value becomes a non-string key the
      rest of the code never looks up (None here); a list or dict is
      unhashable. */
  function CodecType(stream: Json): (r: Result<Option<string>, MetaError>)
    ensures r.Ok? ==> stream.JObj? && "codec_type" in stream.fields
    ensures r.Ok? && r.value.Some? ==> stream.fields["codec_type"] == JStr(r.value.value)
  {
    var t :- Index(stream, "codec_type");
    match t
    case JStr(s) => Ok(Some(s))
    case JArr(_) => Err(TypeError)
    case JObj(_) => Err(TypeError)
    case _ => Ok(None)
  }

  /** Iterating `m['streams']`: a list gives its items; an empty string or
      dict gives nothing; a non-empty one gives strings, which cannot be
      indexed by 'codec_type'; anything else is not iterable. */
  function StreamItems(streams: Json): (r: Result<seq<Json>, MetaError>)
    ensures streams.JArr? ==> r == Ok(streams.items)
  {
    match streams
    case JArr(items) => Ok(items)
    case JStr(s) => if |s| == 0 then Ok([]) else Err(TypeError)
    case JObj(f) => if |f| == 0 then Ok([]) else Err(TypeError)
    case _ => Err(TypeError)
  }

  /** The promotion loop: each stream is stored under its `codec_type`
      unless the document already has that key. */
  function Promote(m: map<string, Json>, streams: seq<Json>): (r: Result<map<string, Json>, MetaError>)
    decreases |streams|
  {
    if |streams| == 0 then Ok(m)
    else
      var ct :- CodecType(streams[0]);
      var m' := if ct.Some? && ct.value !in m then m[ct.value := streams[0]] else m;
      Promote(m', streams[1..])
  }

  /** The key stream `i` would be promoted under, if any. */
  function KeyOf(stream: Json): Option<string> {
    match CodecType(stream)
    case Ok(ct) => ct
    case Err(_) => None
  }

  /** Promotion succeeds exactly when every stream is a dict with a hashable
      `codec_type`. */
  lemma {:induction false} PromoteOk(m: map<string, Json>, streams: seq<Json>)
    ensures Promote(m, streams).Ok? <==> forall i :: 0 <= i < |streams| ==> CodecType(streams[i]).Ok?
    decreases |streams|
  {
    if |streams| > 0 {
      var ct := CodecType(streams[0]);
      if ct.Ok? {
        var m' := if ct.value.Some? && ct.value.value !in m then m[ct.value.value := streams[0]] else m;
        PromoteOk(m', streams[1..]);
        assert forall i :: 1 <= i < |streams| ==> streams[i] == streams[1..][i - 1];
      }
    }
  }

  /** Keys the document already has are never overwritten. */
  lemma {:induction false} PromoteKeeps(m: map<string, Json>, streams: seq<Json>)
    requires Promote(m, streams).Ok?
    ensures var r := Promote(m, streams).value;
            forall k :: k in m ==> k in r && r[k] == m[k]
    decreases |streams|
  {
    if |streams| > 0 {
      var ct := CodecType(streams[0]).value;
      var m' := if ct.Some? && ct.value !in m then m[ct.value := streams[0]] else m;
      PromoteKeeps(m', streams[1..]);
    }
  }

  /** Every key added is the `codec_type` of some stream. */
  lemma {:induction false} PromoteAddsCodecTypes(m: map<string, Json>, streams: seq<Json>)
    requires Promote(m, streams).Ok?
    ensures var r := Promote(m, streams).value;
            forall k :: k in r && k !in m ==> exists i :: 0 <= i < |streams| && KeyOf(streams[i]) == Some(k)
    decreases |streams|
  {
    if |streams| > 0 {
      var ct := CodecType(streams[0]).value;
      var m' := if ct.Some? && ct.value !in m then m[ct.value := streams[0]] else m;
      PromoteAddsCodecTypes(m', streams[1..]);
      var r := Promote(m, streams).value;
      forall k | k in r && k !in m
        ensures exists i :: 0 <= i < |streams| && KeyOf(streams[i]) == Some(k)
      {
        if k in m' {
          assert KeyOf(streams[0]) == Some(k);
        } else {
          var i :| 0 <= i < |streams[1..]| && KeyOf(streams[1..][i]) == Some(k);
          assert streams[1..][i] == streams[i + 1];
        }
      }
    }
  }

  /** The first stream of each `codec_type` the document does not already
      have is the one promoted; later streams of that type are ignored. */
  lemma {:induction false} PromoteFirst(m: map<string, Json>, streams: seq<Json>, i: nat, k: string)
    requires Promote(m, streams).Ok?
    requires i < |streams| && KeyOf(streams[i]) == Some(k) && k !in m
    requires forall j :: 0 <= j < i ==> KeyOf(streams[j]) != Some(k)
    ensures k in Promote(m, streams).value && Promote(m, streams).value[k] == streams[i]
    decreases |streams|
  {
    var ct := CodecType(streams[0]).value;
    var m' := if ct.Some? && ct.value !in m then m[ct.value := streams[0]] else m;
    if i == 0 {
      PromoteKeeps(m', streams[1..]);
    } else {
      assert KeyOf(streams[0]) != Some(k);
      assert streams[1..][i - 1] == streams[i];
      assert forall j :: 0 <= j < i - 1 ==> streams[1..][j] == streams[j + 1];
      PromoteFirst(m', streams[1..], i - 1, k);
    }
  }

  // ---------------------------------------------------------------------
  // Frame rate

  /** `avg_frame_rate.split("/")` read as `int(a) * 1.0 / int(b)`: the
      numerator is read first, then the second piece is indexed and read,
      then the division; pieces after the second are ignored. */
  function FrameRate(v: Json): (r: Result<real, MetaError>)
    ensures !v.JStr? ==> r == Err(AttributeError)
  {
    if !v.JStr? then Err(AttributeError)
    else
      var parts := Split(v.s, '/');
      var n :- PyInt(JStr(parts[0]));
      if |parts| < 2 then Err(IndexError)
      else
        var d :- PyInt(JStr(parts[1]));
        if d == 0 then Err(ZeroDivision) else Ok(n as real / d as real)
  }

  /** A ratio written as `n/d` reads back as n / d, and a zero denominator
      raises. */
  lemma FrameRateRatio(n: int, d: int)
    ensures var r := FrameRate(JStr(FormatInt(n, 0) + "/" + FormatInt(d, 0)));
            if d == 0 then r == Err(ZeroDivision) else r == Ok(n as real / d as real)
  {
    var a, b := FormatInt(n, 0), FormatInt(d, 0);
    NoSlash(n);
    NoSlash(d);
    SplitRatio(a, b);
    IntText(n);
    IntText(d);
  }

  /** `int()` of `str(n)` inside a JSON string is `n`. */
  lemma IntText(n: int)
    ensures PyInt(JStr(FormatInt(n, 0))) == Ok(n)
  {
    ParseFormatInt(n, 0);
  }

  /** Text with one '/' splits into the two sides. */
  lemma SplitRatio(a: string, b: string)
    requires '/' !in a && '/' !in b
    ensures Split(a + "/" + b, '/') == [a, b]
  {
    SplitJoin([a, b], '/');
    assert JoinWith([a, b], "/") == a + "/" + b;
  }

  /** The default "0/1" of a document without a video stream gives 0.0. */
  lemma FrameRateDefault()
    ensures FrameRate(JStr("0/1")) == Ok(0.0)
  {
    FrameRateRatio(0, 1);
    assert FormatInt(0, 0) + "/" + FormatInt(1, 0) == "0/1";
  }

  /** A number without a '/' raises IndexError once it is read. */
  lemma FrameRateNoSlash(n: int)
    ensures FrameRate(JStr(FormatInt(n, 0))) == Err(IndexError)
  {
    ParseFormatInt(n, 0);
    NoSlash(n);
    SplitNoSeparator(FormatInt(n, 0), '/');
  }

  lemma NoSlash(n: int)
    ensures '/' !in FormatInt(n, 0)
  {
    var t := FormatInt(n, 0);
    if n >= 0 {
      assert t == NatToString(n);
    } else {
      assert t == "-" + NatToString(-n);
    }
  }

  // ---------------------------------------------------------------------
  // The record

  /** The dictionary `get_video_metadata` returns. */
  datatype Record = Record(
    mimeType: Option<string>,
    creation: Date,
    fileSizeBytes: nat,
    durationSecs: real,
    durationHms: string,
    overallBitRate: Option<int>,
    videoCodec: Json,
    videoBitRate: Option<int>,
    videoMaxBitRate: Option<int>,
    videoFrameRate: real,
    width: Json,
    height: Json,
    audioCodec: Json,
    audioChannels: Json,
    audioSampleRate: Option<int>,
    audioBitRate: Option<int>,
    audioMaxBitRate: Option<int>,
    checksum: Bytes)

  /** The creation date: `parse_date(m['format']['tags'].get('creation_time'))`,
      falling back to the file's ctime on KeyError, TypeError or ValueError.
      `parseDate` stands for dateutil on a string, None for the ValueError it
      raises on text it cannot read; on anything but a string (a missing or
      null tag included) dateutil raises TypeError. Tags that are not a dict
      have no `get`, and that AttributeError is not caught. */
  function CreationDate(m: Json, parseDate: string -> Option<Date>, fileCtime: Date): (r: Result<Date, MetaError>)
    // no `format`, a `format` that is not a dict, or no `tags`: the ctime
    ensures !HasTags(m) ==> r == Ok(fileCtime)
    // `tags` that is not a dict: the uncaught AttributeError
    ensures HasTags(m) && !TagsOf(m).JObj? ==> r == Err(AttributeError)
    // no string tag: the ctime
    ensures HasTags(m) && TagsOf(m).JObj? && !HasCreationText(TagsOf(m)) ==> r == Ok(fileCtime)
    // a string tag: its date when it parses, the ctime when it does not
    ensures HasTags(m) && TagsOf(m).JObj? && HasCreationText(TagsOf(m)) ==>
              var text := TagsOf(m).fields["creation_time"].s;
              (parseDate(text).Some? ==> r == Ok(parseDate(text).value))
              && (parseDate(text).None? ==> r == Ok(fileCtime))
  {
    match Index(m, "format")
    case Err(_) => Ok(fileCtime)
    case Ok(format) =>
      match Index(format, "tags")
      case Err(_) => Ok(fileCtime)
      case Ok(tags) =>
        var v :- Get(tags, "creation_time", JNull);
        if !v.JStr? then Ok(fileCtime)
        else match parseDate(v.s)
          case Some(d) => Ok(d)
          case None => Ok(fileCtime)
  }

  /** `m['format']['tags']` exists: `m` and its `format` are dicts. */
  predicate HasTags(m: Json) {
    m.JObj? && "format" in m.fields && m.fields["format"].JObj? && "tags" in m.fields["format"].fields
  }

  function TagsOf(m: Json): Json
    requires HasTags(m)
  {
    m.fields["format"].fields["tags"]
  }

  /** The tags hold a `creation_time` string. */
  predicate HasCreationText(tags: Json)
    requires tags.JObj?
  {
    "creation_time" in tags.fields && tags.fields["creation_time"].JStr?
  }

  /** ffprobe's exit status checked, then the first stream of each type
      promoted into the document. */
  function PromotedDocument(location: Path, probe: ProbeRun): (r: Result<map<string, Json>, MetaError>)
    ensures probe.returnCode != 0 ==> r == Err(ProbeFailed(ProbeArgs(location), probe.returnCode))
    ensures r.Ok? ==> probe.returnCode == 0 && probe.document.JObj? && "streams" in probe.document.fields
    ensures r.Ok? && probe.document.fields["streams"].JArr?
            ==> r == Promote(probe.document.fields, probe.document.fields["streams"].items)
  {
    if probe.returnCode != 0 then Err(ProbeFailed(ProbeArgs(location), probe.returnCode))
    else
      var m := probe.document;
      var streams :- Index(m, "streams");
      var items :- StreamItems(streams);
      Promote(m.fields, items)
  }

  /** Promotion never overwrites what ffprobe's document already holds. */
  lemma PromotedKeeps(location: Path, probe: ProbeRun)
    requires PromotedDocument(location, probe).Ok?
    ensures var doc := PromotedDocument(location, probe).value;
            forall k :: k in probe.document.fields ==> k in doc && doc[k] == probe.document.fields[k]
  {
    var m := probe.document;
    var items := StreamItems(m.fields["streams"]).value;
    PromoteKeeps(m.fields, items);
  }

  /** `m_video`, `m_audio` and the video frame rate. */
  datatype Selected = Selected(video: Json, audio: Json, frameRate: real)

  function SelectStreams(doc: map<string, Json>): (r: Result<Selected, MetaError>)
    ensures "video" !in doc ==> r == Ok(Selected(JObj(map[]), GetOr(doc, "audio", JObj(map[])), 0.0))
    ensures r.Ok? && "video" in doc ==> r.value.video == doc["video"]
  {
    var video := GetOr(doc, "video", JObj(map[]));
    var audio := GetOr(doc, "audio", JObj(map[]));
    var rateText :- Get(video, "avg_frame_rate", JStr("0/1"));
    var frameRate :- (FrameRateDefault(); FrameRate(rateText));
    Ok(Selected(video, audio, frameRate))
  }

  /** `open(location + '.md5').read()`, with the file's content taken as the
      text unchanged: the text-mode decode and newline translation are not
      modelled. */
  function ReadSidecar(fs: Fs, location: Path): (r: Result<Bytes, MetaError>)
    ensures r.Ok? <==> IsFileAt(fs, SidecarPath(location))
    ensures r.Ok? ==> r.value == fs[SidecarPath(location)].data
  {
    match ReadFile(fs, SidecarPath(location))
    case Ok(b) => Ok(b)
    case Err(e) => Err(Os(e))
  }

  /** `float(m['format'].get('duration', 0.0))`, with the format entry the
      later fields read from: a missing format is a KeyError, a format that
      is not a dict an AttributeError, and a missing duration reads as 0.0. */
  function Duration(doc: map<string, Json>): (r: Result<(Json, real), MetaError>)
    ensures r.Ok? ==> "format" in doc && r.value.0 == doc["format"]
    ensures "format" !in doc ==> r == Err(KeyError("format"))
    ensures "format" in doc && !doc["format"].JObj? ==> r == Err(AttributeError)
    ensures "format" in doc && doc["format"].JObj? && "duration" !in doc["format"].fields ==>
              r == Ok((doc["format"], 0.0))
    ensures "format" in doc && doc["format"].JObj? && "duration" in doc["format"].fields ==>
              (r.Ok? <==> PyFloat(doc["format"].fields["duration"]).Ok?)
              && (r.Ok? ==> r.value.1 == PyFloat(doc["format"].fields["duration"]).value)
  {
    var format :- Index(JObj(doc), "format");
    var text :- Get(format, "duration", JReal(0.0));
    var duration :- PyFloat(text);
    Ok((format, duration))
  }

  /** `get_video_metadata(location)` once ffprobe has run: errors in the
      order the code meets them, then the record. */
  function GetVideoMetadata(fs: Fs, location: Path, probe: ProbeRun, stat: Result<FileStat, OsError>,
                            parseDate: string -> Option<Date>): (r: Result<Record, MetaError>)
  {
    var doc :- PromotedDocument(location, probe);
    var sel :- SelectStreams(doc);
    var st :- (match stat case Ok(s) => Ok(s) case Err(e) => Err(Os(e)));
    var creation :- CreationDate(JObj(doc), parseDate, st.ctime);
    var sum :- ReadSidecar(fs, location);
    var format :- Duration(doc);
    Build(format.0, sel, MimeTypeOf(location), creation, st.size, format.1, sum)
  }

  /** The `int(x) or None` fields. */
  predicate NeverZero(rec: Record) {
    rec.overallBitRate != Some(0) && rec.videoBitRate != Some(0) && rec.videoMaxBitRate != Some(0)
    && rec.audioSampleRate != Some(0) && rec.audioBitRate != Some(0) && rec.audioMaxBitRate != Some(0)
  }

  /** The dictionary literal, its entries evaluated top to bottom: the
      first `get` on `m_video` or `m_audio` fails when that is not a dict. */
  function Build(format: Json, sel: Selected, mime: Option<string>, creation: Date,
                 size: nat, duration: real, sum: Bytes): (r: Result<Record, MetaError>)
    ensures r.Ok? ==> NeverZero(r.value) && sel.video.JObj? && sel.audio.JObj?
    ensures r.Ok? ==> r.value.videoCodec == Lookup(sel.video.fields, "codec_name")
                      && r.value.width == Lookup(sel.video.fields, "width")
                      && r.value.height == Lookup(sel.video.fields, "height")
                      && r.value.audioCodec == Lookup(sel.audio.fields, "codec_name")
                      && r.value.audioChannels == Lookup(sel.audio.fields, "channels")
    ensures r.Ok? && "bit_rate" !in sel.video.fields ==> r.value.videoBitRate == None
    ensures r.Ok? && "max_bit_rate" !in sel.video.fields ==> r.value.videoMaxBitRate == None
    ensures r.Ok? ==> r.value.mimeType == mime && r.value.creation == creation && r.value.fileSizeBytes == size
                      && r.value.durationSecs == duration && r.value.videoFrameRate == sel.frameRate
                      && r.value.checksum == sum
                      && r.value.durationHms == SecondsToHms(duration, true, 0, true, sel.frameRate)
  {
    var bitRate :- Get(format, "bit_rate", JInt(0));
    var overall :- IntOrNone(bitRate);
    if !sel.video.JObj? then Err(AttributeError)
    else
      var video := sel.video.fields;
      var vBitRate :- IntOrNone(GetOr(video, "bit_rate", JInt(0)));
      var vMaxBitRate :- IntOrNone(GetOr(video, "max_bit_rate", JInt(0)));
      if !sel.audio.JObj? then Err(AttributeError)
      else
        var audio := sel.audio.fields;
        var aSampleRate :- IntOrNone(GetOr(audio, "sample_rate", JInt(0)));
        var aBitRate :- IntOrNone(GetOr(audio, "bit_rate", JInt(0)));
        var aMaxBitRate :- IntOrNone(GetOr(audio, "max_bit_rate", JInt(0)));
        Ok(Record(mime, creation, size, duration, SecondsToHms(duration, true, 0, true, sel.frameRate),
                  overall, Lookup(video, "codec_name"), vBitRate, vMaxBitRate, sel.frameRate,
                  Lookup(video, "width"), Lookup(video, "height"),
                  Lookup(audio, "codec_name"), Lookup(audio, "channels"),
                  aSampleRate, aBitRate, aMaxBitRate, sum))
  }

  /** The stages of a successful `get_video_metadata`. */
  lemma Stages(fs: Fs, location: Path, probe: ProbeRun, stat: Result<FileStat, OsError>,
               parseDate: string -> Option<Date>)
    requires GetVideoMetadata(fs, location, probe, stat, parseDate).Ok?
    ensures PromotedDocument(location, probe).Ok? && stat.Ok?
    ensures var doc := PromotedDocument(location, probe).value;
            SelectStreams(doc).Ok? && ReadSidecar(fs, location).Ok? && Duration(doc).Ok?
            && CreationDate(JObj(doc), parseDate, stat.value.ctime).Ok?
            && GetVideoMetadata(fs, location, probe, stat, parseDate)
               == Build(Duration(doc).value.0, SelectStreams(doc).value, MimeTypeOf(location),
                        CreationDate(JObj(doc), parseDate, stat.value.ctime).value, stat.value.size,
                        Duration(doc).value.1, ReadSidecar(fs, location).value)
  {
  }

  // ---------------------------------------------------------------------
  // What the record promises

  /** A non-zero ffprobe exit is reported as FFMPEGError naming the exact
      command; its message spells out the command word by word and the exit
      status, and both read back from the text. */
  lemma ProbeFailureReported(fs: Fs, location: Path, probe: ProbeRun, stat: Result<FileStat, OsError>,
                             parseDate: string -> Option<Date>)
    requires probe.returnCode != 0
    ensures var r := GetVideoMetadata(fs, location, probe, stat, parseDate);
            r == Err(ProbeFailed(ProbeArgs(location), probe.returnCode))
            && (' ' !in location ==> Split(JoinWith(r.error.cmd, " "), ' ') == ProbeArgs(location))
            && (' ' !in location && '\'' !in location ==>
                  ReadErrorMessage(FfmpegErrorMessage(r.error.cmd, r.error.returnCode))
                  == Some((ProbeArgs(location), probe.returnCode)))
  {
    ProbeCommandReadsBack(location, probe.returnCode);
  }

  /** The ffprobe command line of a space-free location splits back into
      its words, and without a quote in it the whole message reads back. */
  lemma ProbeCommandReadsBack(location: Path, returnCode: int)
    ensures ' ' !in location ==> Split(JoinWith(ProbeArgs(location), " "), ' ') == ProbeArgs(location)
    ensures ' ' !in location && '\'' !in location ==>
              ReadErrorMessage(FfmpegErrorMessage(ProbeArgs(location), returnCode))
              == Some((ProbeArgs(location), returnCode))
  {
    var args := ProbeArgs(location);
    if ' ' !in location {
      ProbeArgsAvoid(location, ' ');
      CommandTextSplits(args);
      if '\'' !in location {
        ProbeArgsAvoid(location, '\'');
        ErrorMessageReadsBack(args, returnCode);
      }
    }
  }

  /** The fixed ffprobe arguments hold neither a space nor a quote, so a
      character missing from the location is missing from every argument. */
  lemma ProbeArgsAvoid(location: Path, c: char)
    requires c == ' ' || c == '\''
    requires c !in location
    ensures forall i :: 0 <= i < |ProbeArgs(location)| ==> c !in ProbeArgs(location)[i]
  {
    var args := ProbeArgs(location);
    forall i | 0 <= i < |args|
      ensures c !in args[i]
    {
      if i < 7 {
        assert args[i] in ["ffprobe", "-v", "quiet", "-print_format", "json", "-show_format", "-show_streams"];
      }
    }
  }

  /** A successful record carries the extension's MIME type, the sidecar's
      bytes, the stat's size, and a duration text that is `seconds_to_hms` of
      the duration at the video frame rate with hours and frames; none of
      the `int(x) or None` fields is ever 0. */
  lemma RecordFacts(fs: Fs, location: Path, probe: ProbeRun, stat: Result<FileStat, OsError>,
                    parseDate: string -> Option<Date>)
    requires GetVideoMetadata(fs, location, probe, stat, parseDate).Ok?
    ensures var rec := GetVideoMetadata(fs, location, probe, stat, parseDate).value;
            probe.returnCode == 0 && stat.Ok?
            && rec.mimeType == MimeTypeOf(location)
            && IsFileAt(fs, SidecarPath(location)) && rec.checksum == fs[SidecarPath(location)].data
            && rec.fileSizeBytes == stat.value.size
            && rec.durationHms == SecondsToHms(rec.durationSecs, true, 0, true, rec.videoFrameRate)
            && NeverZero(rec)
  {
    Stages(fs, location, probe, stat, parseDate);
  }

  /** The record's creation date is the probe's `creation_time` tag when
      that is a string the date parser reads, and the file's ctime otherwise;
      the `format` entry of a successful probe is always a dict. */
  lemma RecordCreation(fs: Fs, location: Path, probe: ProbeRun, stat: Result<FileStat, OsError>,
                       parseDate: string -> Option<Date>)
    requires GetVideoMetadata(fs, location, probe, stat, parseDate).Ok?
    requires probe.document.JObj? && "format" in probe.document.fields
    ensures stat.Ok? && probe.document.fields["format"].JObj?
    // no tags: the ctime
    ensures !HasTags(probe.document) ==> GetVideoMetadata(fs, location, probe, stat, parseDate).value.creation == stat.value.ctime
    // tags are a dict, and a readable string tag gives its date
    ensures HasTags(probe.document) ==> TagsOf(probe.document).JObj?
    ensures var rec := GetVideoMetadata(fs, location, probe, stat, parseDate).value;
            var m := probe.document;
            HasTags(m) && HasCreationText(TagsOf(m)) && parseDate(TagsOf(m).fields["creation_time"].s).Some?
            ==> rec.creation == parseDate(TagsOf(m).fields["creation_time"].s).value
    // any other tag: the ctime
    ensures var rec := GetVideoMetadata(fs, location, probe, stat, parseDate).value;
            var m := probe.document;
            HasTags(m) && !(HasCreationText(TagsOf(m)) && parseDate(TagsOf(m).fields["creation_time"].s).Some?)
            ==> rec.creation == stat.value.ctime
  {
    CreationStage(fs, location, probe, stat, parseDate);
    var doc := PromotedDocument(location, probe).value;
    PromotedKeeps(location, probe);
    SameFormatSameCreation(JObj(doc), probe.document, parseDate, stat.value.ctime);
  }

  /** The creation stage of a successful `get_video_metadata`: the promoted
      document has a dict `format`, and the record's date is what the
      creation lookup gives on it. */
  lemma CreationStage(fs: Fs, location: Path, probe: ProbeRun, stat: Result<FileStat, OsError>,
                      parseDate: string -> Option<Date>)
    requires GetVideoMetadata(fs, location, probe, stat, parseDate).Ok?
    ensures PromotedDocument(location, probe).Ok? && stat.Ok?
    ensures var doc := PromotedDocument(location, probe).value;
            "format" in doc && doc["format"].JObj?
            && CreationDate(JObj(doc), parseDate, stat.value.ctime)
               == Ok(GetVideoMetadata(fs, location, probe, stat, parseDate).value.creation)
  {
    Stages(fs, location, probe, stat, parseDate);
  }

  /** The creation lookup reads nothing but `format`. */
  lemma SameFormatSameCreation(m: Json, m': Json, parseDate: string -> Option<Date>, fileCtime: Date)
    requires m.JObj? && m'.JObj? && "format" in m.fields && "format" in m'.fields
    requires m.fields["format"] == m'.fields["format"]
    ensures CreationDate(m, parseDate, fileCtime) == CreationDate(m', parseDate, fileCtime)
    ensures HasTags(m) == HasTags(m')
  {
  }

  /** A missing (or directory) sidecar, or a failed stat, is an error: the
      code never computes a checksum itself. */
  lemma NeedsSidecarAndStat(fs: Fs, location: Path, probe: ProbeRun, stat: Result<FileStat, OsError>,
                            parseDate: string -> Option<Date>)
    requires !IsFileAt(fs, SidecarPath(location)) || stat.Err?
    ensures GetVideoMetadata(fs, location, probe, stat, parseDate).Err?
  {
    if GetVideoMetadata(fs, location, probe, stat, parseDate).Ok? {
      Stages(fs, location, probe, stat, parseDate);
    }
  }

  /** The video fields come from the first stream whose `codec_type` is
      "video", when the document has no top-level "video" key of its own. */
  lemma FirstVideoStream(fs: Fs, location: Path, probe: ProbeRun, stat: Result<FileStat, OsError>,
                         parseDate: string -> Option<Date>, i: nat)
    requires GetVideoMetadata(fs, location, probe, stat, parseDate).Ok?
    requires probe.document.JObj? && "video" !in probe.document.fields
    requires "streams" in probe.document.fields && probe.document.fields["streams"].JArr?
    requires var items := probe.document.fields["streams"].items;
             i < |items| && KeyOf(items[i]) == Some("video")
             && forall j :: 0 <= j < i ==> KeyOf(items[j]) != Some("video")
    ensures var rec := GetVideoMetadata(fs, location, probe, stat, parseDate).value;
            var stream := probe.document.fields["streams"].items[i].fields;
            rec.videoCodec == Lookup(stream, "codec_name")
            && rec.width == Lookup(stream, "width") && rec.height == Lookup(stream, "height")
  {
    var m := probe.document;
    var items := m.fields["streams"].items;
    Stages(fs, location, probe, stat, parseDate);
    var doc := PromotedDocument(location, probe).value;
    assert doc == Promote(m.fields, items).value;
    PromoteFirst(m.fields, items, i, "video");
    assert doc["video"] == items[i];
  }

  /** Without any video stream the frame rate is 0.0 and the video fields
      are empty, so the duration is rendered with a zero frame rate. */
  lemma AudioOnly(fs: Fs, location: Path, probe: ProbeRun, stat: Result<FileStat, OsError>,
                  parseDate: string -> Option<Date>)
    requires GetVideoMetadata(fs, location, probe, stat, parseDate).Ok?
    requires probe.document.JObj? && "video" !in probe.document.fields
    requires "streams" in probe.document.fields && probe.document.fields["streams"].JArr?
    requires var items := probe.document.fields["streams"].items;
             forall j :: 0 <= j < |items| ==> KeyOf(items[j]) != Some("video")
    ensures var rec := GetVideoMetadata(fs, location, probe, stat, parseDate).value;
            rec.videoFrameRate == 0.0 && rec.videoCodec == JNull && rec.width == JNull
            && rec.videoBitRate == None && rec.videoMaxBitRate == None
            && rec.durationHms == SecondsToHms(rec.durationSecs, true, 0, true, 0.0)
  {
    var m := probe.document;
    var items := m.fields["streams"].items;
    Stages(fs, location, probe, stat, parseDate);
    var doc := PromotedDocument(location, probe).value;
    assert doc == Promote(m.fields, items).value;
    PromoteAddsCodecTypes(m.fields, items);
    assert "video" !in doc;
  }

  // ---------------------------------------------------------------------
  // The zero frame rate of an audio-only file

  /** As written, a zero frame rate always carries: frame 0 equals the rate,
      so a second is added to every audio-only duration. */
  lemma ZeroRateCarries(d: real)
    ensures SplitFrames(d, 0.0) == (d.Floor + 1, 0)
  {
    RoundWhole(0);
  }

  /** A five-second audio-only file is reported as six seconds long. */
  lemma AudioOnlyDurationAsWritten(d: real)
    requires d == 5.0
    ensures SecondsToHms(d, true, 0, true, 0.0) == "00:00:06:00"
  {
    ZeroRateCarries(d);
    Pad2(0);
    Pad2(6);
    FramesWithHours(SplitFrames(d, 0.0), 0, 0, 6, 0, true, "00:00:06:00");
  }

  /** The intended split never carries at a zero frame rate. */
  lemma ZeroRateKeepsSeconds(d: real)
    ensures SplitFramesFixed(d, 0.0) == (d.Floor, 0)
  {
    RoundWhole(0);
  }

  /** Both frame layouts write a split the same way. */
  lemma FrameLayoutsAgree(split: (int, int), alwaysHours: bool)
    ensures FramesHmsFixed(split, alwaysHours) == FramesHms(split, alwaysHours)
  {
    TimecodeNoPlaces(split.0 as real, Some(split.1));
    WholeAgrees(RoundHalfEven(split.0 as real), Some(split.1), alwaysHours);
  }

  /** With frames, the intended rendering writes the intended split in the
      frame layout of the code as written. */
  lemma FixedFramesLayout(d: real, rate: real)
    ensures SecondsToHmsFixed(d, true, 0, true, rate) == FramesHms(SplitFramesFixed(d, rate), true)
  {
    FrameLayoutsAgree(SplitFramesFixed(d, rate), true);
  }

  /** With the intended split, a five-second audio-only file is five seconds. */
  lemma AudioOnlyDurationFixed(d: real)
    requires d == 5.0
    ensures SecondsToHmsFixed(d, true, 0, true, 0.0) == "00:00:05:00"
  {
    FixedFramesLayout(d, 0.0);
    ZeroRateKeepsSeconds(d);
    assert d.Floor == 5;
    FiveSecondsText(SplitFramesFixed(d, 0.0));
  }

  lemma FiveSecondsText(split: (int, int))
    requires split == (5, 0)
    ensures FramesHms(split, true) == "00:00:05:00"
  {
    Pad2(0);
    Pad2(5);
    FramesWithHours(split, 0, 0, 5, 0, true, "00:00:05:00");
  }
}
