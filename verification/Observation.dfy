/** Observation events, their severities and the text columns they are stored in. */
module Observation {
  import opened Common
  import opened Decimal
  import opened Doubles

  datatype Severity = Debug | Info | Warning | Error | Critical

  function Ordinal(s: Severity): nat {
    match s
    case Debug => 0
    case Info => 1
    case Warning => 2
    case Error => 3
    case Critical => 4
  }

  function SeverityText(s: Severity): string {
    match s
    case Debug => "debug"
    case Info => "info"
    case Warning => "warning"
    case Error => "error"
    case Critical => "critical"
  }

  function ParseSeverity(text: string): Option<Severity> {
    if text == "debug" then Some(Debug)
    else if text == "info" then Some(Info)
    else if text == "warning" then Some(Warning)
    else if text == "error" then Some(Error)
    else if text == "critical" then Some(Critical)
    else None
  }

  /** The severity a stored text decodes to; unknown text decodes to Info. */
  function DecodedSeverity(text: string): Severity {
    var parsed := ParseSeverity(text);
    if parsed.Some? then parsed.value else Info
  }

  /** The CASE expression by which SQL ranks a stored severity text. */
  function SqlRank(text: string): nat {
    if text == "debug" then 0
    else if text == "info" then 1
    else if text == "warning" then 2
    else if text == "error" then 3
    else if text == "critical" then 4
    else 1
  }

  lemma SqlRankIsDecodedOrdinal(text: string)
    ensures SqlRank(text) == Ordinal(DecodedSeverity(text))
  {}

  lemma SeverityRoundTrip(s: Severity)
    ensures ParseSeverity(SeverityText(s)) == Some(s)
    ensures SqlRank(SeverityText(s)) == Ordinal(s)
  {}

  datatype EventValue = NoValue | Bool(b: bool) | Int(i: Int64) | Double(d: Doubles.Double) | Text(t: string)

  datatype Event = Event(id: int, timestampNs: int, source: string, category: string, subject: string,
                         signal: string, value: EventValue, severity: Severity, attributes: string)

  /** A row of observation_events without its primary key. */
  datatype Row = Row(timestampUs: int, source: string, category: string, subject: string, signal: string,
                     valueType: string, valueText: string, severity: string, attributes: string)

  // ---- time -------------------------------------------------------------------------------

  /** duration_cast from nanoseconds to microseconds truncates toward zero. */
  function Micros(ns: int): int {
    if ns >= 0 then ns / 1000 else -((-ns) / 1000)
  }

  lemma MicrosMonotone(a: int, b: int)
    requires a <= b
    ensures Micros(a) <= Micros(b)
  {}

  // ---- C strings --------------------------------------------------------------------------

  predicate NulFree(s: string) { '\0' !in s }

  /** What survives when a string is bound through its c_str(): the part before the first NUL. */
  function CStr(s: string): (r: string)
    ensures NulFree(r)
    ensures r == s <==> NulFree(s)
    ensures r <= s && (|r| < |s| ==> s[|r|] == '\0')
  {
    if s == "" || s[0] == '\0' then ""
    else
      assert s == [s[0]] + s[1..];
      [s[0]] + CStr(s[1..])
  }

  // ---- doubles: std::to_string prints six decimals ----------------------------------------

  /** The last `width` decimal digits of n, leading zeros kept. */
  function Pad(n: nat, width: nat): (s: string)
    ensures |s| == width && AllDigits(s)
  {
    if width == 0 then "" else Pad(n / 10, width - 1) + [DigitChar(n % 10)]
  }

  lemma Tenths(n: nat, p: nat) returns (rest: nat, last: nat)
    requires n < 10 * p
    ensures rest == n / 10 < p && last == n % 10 && n == rest * 10 + last
  {
    rest, last := n / 10, n % 10;
  }

  lemma {:induction false} ReadPad(n: nat, width: nat)
    requires n < Pow10(width)
    ensures Read(Pad(n, width)) == n
  {
    if width > 0 {
      var rest, last := Tenths(n, Pow10(width - 1));
      ReadPad(rest, width - 1);
      assert Pad(n, width)[..width - 1] == Pad(rest, width - 1);
      assert Pad(n, width)[width - 1] == DigitChar(last);
      hide Pad, Pow10, DigitChar;
    }
  }

  /** m millionths in fixed notation. */
  function FixedText(m: nat): string {
    Show(m / MICRO) + "." + Pad(m % MICRO, 6)
  }

  function ShowDouble(x: real): string {
    (if x < 0.0 then "-" else "") + FixedText(Millionths(Abs(x)))
  }

  /** The millionths in unsigned fixed notation: digits, a point, six digits. */
  function FixedMillionths(body: string): Option<nat> {
    var k := DigitRun(body);
    if k == 0 || |body| != k + 7 || body[k] != '.' || !AllDigits(body[k + 1..]) then None
    else Some(Read(body[..k]) * MICRO + Read(body[k + 1..]))
  }

  /** The double that k millionths with a sign are read as; out of range counts as zero. */
  function DecimalDouble(k: nat, negative: bool): (d: Doubles.Double) {
    MillionthsAreDoubles(k);
    hide FromMillionths;
    var r := FromMillionths(k);
    if r.None? then Zero() else Signed(r.value, negative)
  }

  /** std::stod on the notation ShowDouble writes; any other text is malformed and read as zero. */
  function ReadDouble(text: string): Doubles.Double {
    var negative := text != "" && text[0] == '-';
    var m := FixedMillionths(if negative then text[1..] else text);
    if m.None? then Zero() else DecimalDouble(m.value, negative)
  }

  lemma {:induction false} DigitRunStops(digits: string, rest: string)
    requires AllDigits(digits) && rest != "" && !IsDigit(rest[0])
    ensures DigitRun(digits + rest) == |digits|
  {
    if digits == "" {
      assert digits + rest == rest;
    } else {
      assert (digits + rest)[1..] == digits[1..] + rest;
      DigitRunStops(digits[1..], rest);
    }
  }

  lemma FixedTextReads(m: nat)
    ensures FixedMillionths(FixedText(m)) == Some(m) && IsDigit(FixedText(m)[0])
    ensures |FixedText(m)| >= 8 && FixedText(m)[|FixedText(m)| - 7] == '.'
  {
    var whole, fraction := Show(m / MICRO), Pad(m % MICRO, 6);
    var body := FixedText(m);
    DigitRunStops(whole, "." + fraction);
    assert body == whole + ("." + fraction);
    assert body[..|whole|] == whole && body[|whole| + 1..] == fraction;
    ReadShow(m / MICRO);
    SixDigits(m % MICRO);
  }

  lemma SixDigits(n: nat)
    requires n < MICRO
    ensures Read(Pad(n, 6)) == n
  {
    assert Pow10(6) == MICRO by { assert Pow10(4) == 10000; }
    ReadPad(n, 6);
  }

  lemma ShownDoubleReads(x: real)
    ensures ReadDouble(ShowDouble(x)) == DecimalDouble(Millionths(Abs(x)), x < 0.0)
  {
    hide Millionths, DecimalDouble;
    var m := Millionths(Abs(x));
    FixedTextReads(m);
    hide FixedText, FixedMillionths;
    assert x < 0.0 ==> ShowDouble(x)[1..] == FixedText(m);
    assert x >= 0.0 ==> ShowDouble(x) == FixedText(m);
  }

  /** The number ShowDouble prints. */
  function PrintedNumber(x: real): real { Signed(Millionths(Abs(x)) as real / 1000000.0, x < 0.0) }

  /** Some decimal of at most six places is read as x. */
  ghost predicate IsShortDecimal(x: real) { exists k: nat :: IsReadFrom(x, k) }

  predicate IsReadFrom(x: real, k: nat) { DecimalDouble(k, x < 0.0) == x }

  lemma SignedIsShort(x: real, k: nat)
    requires x != 0.0
    ensures IsReadFrom(x, k) <==> FromMillionths(k) == Some(Abs(x))
  {
    hide FromMillionths;
    MillionthsAreDoubles(k);
  }

  lemma NearestNegated(r: real, v: real)
    requires IsNearest(r, v)
    ensures IsNearest(-r, -v)
  {
    NegatedDouble(r);
    forall d | IsDouble(d) ensures Abs(-r + v) <= Abs(d + v) {
      NegatedDouble(d);
      assert Abs(r - v) <= Abs(-d - v);
    }
  }

  /** A stored double comes back as the double nearest to its six printed decimals, so within a
      millionth; and unchanged exactly when some decimal of at most six places is read as it, as it
      is from 2^33 on. */
  lemma DoubleRoundTrip(x: Doubles.Double)
    ensures var back := ReadDouble(ShowDouble(x));
            && IsNearest(back, PrintedNumber(x)) && Abs(PrintedNumber(x) - x) <= 0.0000005
            && Abs(back - x) <= 0.000001
            && (back == x <==> IsShortDecimal(x))
            && (Abs(x) >= SPARSE ==> back == x)
  {
    hide ShowDouble, ReadDouble, FromMillionths, Millionths, IsNearest;
    var a := Abs(x);
    ShownDoubleReads(x);
    NegatedDouble(x);
    MillionthsReadBack(a);
    MillionthsAreClose(a);
    NearestNegated(FromMillionths(Millionths(a)).value, Millionths(a) as real / 1000000.0);
    if x == 0.0 {
      ZeroIsKept();
      assert IsReadFrom(x, 0);
    } else {
      SignedIsShort(x, Millionths(a));
      ReadBackExactly(a);
      forall k: nat ensures IsReadFrom(x, k) <==> FromMillionths(k) == Some(a) { SignedIsShort(x, k); }
    }
  }

  lemma ZeroIsKept()
    ensures Millionths(0.0) == 0 && DecimalDouble(0, false) == 0.0
  {
    hide ToDouble;
    var zero := Zero();
    IntegerMillionths(0);
    ToDoubleKeepsDoubles(0.0);
    assert 0 as real / 1000000.0 == 0.0;
  }

  /** Whatever is written with at most six decimals survives, though few such numbers are doubles. */
  lemma DecimalsSurvive(k: nat, negative: bool)
    ensures var x := DecimalDouble(k, negative); ReadDouble(ShowDouble(x)) == x
  {
    hide ShowDouble, ReadDouble, FromMillionths, IsNearest, Millionths;
    var x := DecimalDouble(k, negative);
    DoubleRoundTrip(x);
    MillionthsAreDoubles(k);
    ZeroIsKept();
    assert IsReadFrom(x, if x == 0.0 then 0 else k);
  }

  const MOVED: real := 7840971294006713.0 / 1048576.0

  lemma MovedPrints()
    ensures Millionths(MOVED) == 7477732938772882
  {
    assert MOVED * 1000000.0 == 7840971294006713000000.0 / 1048576.0;
    hide RoundHalfEven;
  }

  lemma MovedNeighbours(d: Doubles.Double)
    requires IsNearest(d, 7477732938.772882)
    ensures IsDouble(MOVED) && d >= MOVED + 0.0000009
  {
    Ladder();
    hide TwoTo, ToDouble;
    assert Float(7840971294006713, -20).Valid() && Float(7840971294006713, -20).Value() == MOVED;
    var next := Float(7840971294006714, -20);
    assert next.Valid() && IsDouble(next.Value());
    assert Abs(d - 7477732938.772882) <= Abs(next.Value() - 7477732938.772882);
    assert d > MOVED;
    var k := MultipleAbove(d, -20);
  }

  /** Why not within half a millionth: the double 7477732938.7728815 is printed as
      7477732938.772882 and comes back as the next double, more than nine tenths of a millionth away. */
  lemma HalfMillionthExceeded()
    ensures IsDouble(MOVED) && ReadDouble(ShowDouble(MOVED)) >= MOVED + 0.0000009
  {
    Ladder();
    assert Float(7840971294006713, -20).Valid() && Float(7840971294006713, -20).Value() == MOVED;
    assert IsDouble(MOVED);
    hide ShowDouble, ReadDouble, IsNearest, Millionths, TwoTo;
    DoubleRoundTrip(MOVED);
    MovedPrints();
    MovedNeighbours(ReadDouble(ShowDouble(MOVED)));
  }

  // ---- the value columns ------------------------------------------------------------------

  function ValueType(v: EventValue): string {
    match v
    case NoValue => "none"
    case Bool(_) => "bool"
    case Int(_) => "int"
    case Double(_) => "double"
    case Text(_) => "string"
  }

  function ValueText(v: EventValue): string {
    match v
    case NoValue => ""
    case Bool(b) => if b then "1" else "0"
    case Int(i) => ShowInt(i)
    case Double(d) => ShowDouble(d)
    case Text(t) => t
  }

  function ParseValue(valueType: string, text: string): EventValue {
    if valueType == "bool" then Bool(text == "1" || text == "true")
    else if valueType == "int" then
      var parsed := StollRead(text);
      Int(if parsed.Some? then parsed.value else 0)
    else if valueType == "double" then Double(ReadDouble(text))
    else if valueType == "string" then Text(text)
    else NoValue
  }

  /** The value read back after v was stored. */
  function StoredValue(v: EventValue): EventValue {
    ParseValue(CStr(ValueType(v)), CStr(ValueText(v)))
  }

  /** Which values survive storage unchanged. */
  ghost predicate ValueIsStorable(v: EventValue) {
    match v
    case Double(d) => IsShortDecimal(d)
    case Text(t) => NulFree(t)
    case _ => true
  }

  lemma DigitsAreNulFree(s: string)
    requires forall i :: 0 <= i < |s| ==> IsDigit(s[i]) || s[i] == '-' || s[i] == '.'
    ensures NulFree(s)
  {}

  lemma ValueRoundTrip(v: EventValue)
    ensures StoredValue(v) == v <==> ValueIsStorable(v)
    ensures v.Double? ==> StoredValue(v).Double? && IsNearest(StoredValue(v).d, PrintedNumber(v.d))
                          && Abs(StoredValue(v).d - v.d) <= 0.000001
  {
    assert NulFree(ValueType(v));
    match v
    case Int(i) =>
      DigitsAreNulFree(ShowInt(i));
      StollReadsShown(i);
      hide ShowInt, StollRead, CStr, NulFree;
    case Double(d) =>
      DigitsAreNulFree(ShowDouble(d));
      DoubleRoundTrip(d);
      hide ShowDouble, ReadDouble, CStr, NulFree;
    case _ =>
      hide CStr;
  }

  // ---- whole rows -------------------------------------------------------------------------

  function EncodeRow(e: Event): Row {
    Row(Micros(e.timestampNs), CStr(e.source), CStr(e.category), CStr(e.subject), CStr(e.signal),
        CStr(ValueType(e.value)), CStr(ValueText(e.value)), CStr(SeverityText(e.severity)), CStr(e.attributes))
  }

  function DecodeRow(id: int, r: Row): Event {
    Event(id, r.timestampUs * 1000, r.source, r.category, r.subject, r.signal, ParseValue(r.valueType, r.valueText),
          DecodedSeverity(r.severity), if r.attributes == "" then "{}" else r.attributes)
  }

  /** Which events come back from the store unchanged: whole microseconds, no embedded NUL,
      a storable value and some attribute text. */
  ghost predicate EventIsStorable(e: Event) {
    && e.timestampNs % 1000 == 0
    && NulFree(e.source) && NulFree(e.category) && NulFree(e.subject) && NulFree(e.signal)
    && ValueIsStorable(e.value)
    && NulFree(e.attributes) && e.attributes != ""
  }

  lemma EventRoundTrip(e: Event, id: int)
    ensures DecodeRow(id, EncodeRow(e)) == e.(id := id) <==> EventIsStorable(e)
    ensures e.attributes == "" ==> DecodeRow(id, EncodeRow(e)).attributes == "{}"
  {
    var back := DecodeRow(id, EncodeRow(e));
    ValueRoundTrip(e.value);
    SeverityRoundTrip(e.severity);
    SeverityTextIsNulFree(e.severity);
    TimeRoundTrip(e.timestampNs);
    assert back.value == StoredValue(e.value);
    assert back.attributes == e.attributes <==> NulFree(e.attributes) && e.attributes != "";
  }

  /** What the columns of a value hold. */
  lemma ValueColumnsMean(e: Event)
    ensures var r := EncodeRow(e);
            && r.valueType == (match e.value case NoValue => "none" case Bool(_) => "bool" case Int(_) => "int"
                               case Double(_) => "double" case Text(_) => "string")
            && (e.value == NoValue ==> r.valueText == "")
            && (e.value == Bool(true) ==> r.valueText == "1") && (e.value == Bool(false) ==> r.valueText == "0")
  {
    hide ShowInt, ShowDouble, Micros, SeverityText;
    assert NulFree(ValueType(e.value));
  }

  /** What the other columns hold. */
  lemma ColumnsMean(e: Event)
    ensures var r := EncodeRow(e);
            && (NulFree(e.source) ==> r.source == e.source) && (NulFree(e.category) ==> r.category == e.category)
            && (NulFree(e.subject) ==> r.subject == e.subject) && (NulFree(e.signal) ==> r.signal == e.signal)
            && (NulFree(e.attributes) ==> r.attributes == e.attributes)
            && r.severity == (match e.severity case Debug => "debug" case Info => "info" case Warning => "warning"
                              case Error => "error" case Critical => "critical")
            && (e.timestampNs >= 0 ==> r.timestampUs == e.timestampNs / 1000)
  {
    hide ValueType, ValueText, CStr;
    SeverityTextIsNulFree(e.severity);
  }

  lemma SeverityTextIsNulFree(s: Severity)
    ensures NulFree(SeverityText(s))
  {}

  lemma TimeRoundTrip(ns: int)
    ensures Micros(ns) * 1000 == ns <==> ns % 1000 == 0
  {}
}
