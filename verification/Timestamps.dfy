/** Canonical ledger timestamps: one fixed-width text for the Date, ISO and protobuf forms of an instant. */
module Timestamps {
  import opened Wrappers
  import opened Decimals
  import opened Calendar
  import LedgerValues

  const DAML_MIN_TIMESTAMP_SECONDS: int := -62135596800
  const DAML_MAX_TIMESTAMP_SECONDS: int := 253402300799

  predicate InBounds(seconds: int) {
    DAML_MIN_TIMESTAMP_SECONDS <= seconds <= DAML_MAX_TIMESTAMP_SECONDS
  }

  function Pow10(w: nat): nat {
    if w == 0 then 1 else 10 * Pow10(w - 1)
  }

  /** The last w digits of n, zeros in front; `padStart` for numbers that fit. */
  function Pad(n: nat, w: nat): (s: string)
    ensures |s| == w && AllDigits(s)
  {
    if w == 0 then "" else Pad(n / 10, w - 1) + [Digit(n % 10)]
  }

  function PadEnd(s: string, w: nat): (r: string)
    requires |s| <= w
    ensures |r| == w && s <= r && (AllDigits(s) ==> AllDigits(r))
    decreases w - |s|
  {
    if |s| == w then s else PadEnd(s + "0", w)
  }

  /** A date and time to the second; years past 9999 are written with a sign and six digits. */
  function IsoSeconds(f: Fields): (s: string)
    ensures f.year <= 9999 ==> |s| == 19
    ensures f.year > 9999 ==> |s| == 22 && s[0] == '+'
  {
    (if f.year <= 9999 then Pad(f.year, 4) else "+" + Pad(f.year, 6))
    + "-" + Pad(f.month, 2) + "-" + Pad(f.day, 2)
    + "T" + Pad(f.hour, 2) + ":" + Pad(f.minute, 2) + ":" + Pad(f.second, 2)
  }

  /** Date.toISOString of a time value in milliseconds. */
  function ToIsoString(ms: int): (s: string)
    requires ms >= YEAR_ZERO * 1000
    ensures |s| >= 19
  {
    IsoSeconds(FieldsOf(ms / 1000)) + "." + Pad(ms % 1000, 3) + "Z"
  }

  // Reading the ISO form.

  predicate IsIsoSeconds(p: string) {
    && |p| == 19
    && AllDigits(p[..4]) && p[4] == '-' && AllDigits(p[5..7]) && p[7] == '-' && AllDigits(p[8..10]) && p[10] == 'T'
    && AllDigits(p[11..13]) && p[13] == ':' && AllDigits(p[14..16]) && p[16] == ':' && AllDigits(p[17..])
  }

  function FieldsIn(p: string): Fields
    requires |p| == 19
  {
    Fields(DigitsValue(p[..4]), DigitsValue(p[5..7]), DigitsValue(p[8..10]),
           DigitsValue(p[11..13]), DigitsValue(p[14..16]), DigitsValue(p[17..]))
  }

  /** A UTC timestamp: seconds, an optional fraction of one to nine digits, and Z. */
  function IsoParts(s: string): (r: Option<(string, string)>)
    ensures r.Some? ==> IsIsoSeconds(r.value.0) && AllDigits(r.value.1) && |r.value.1| <= 9
  {
    if |s| < 20 || !IsIsoSeconds(s[..19]) || s[|s| - 1] != 'Z' then None
    else if |s| == 20 then Some((s[..19], ""))
    else if s[19] == '.' && 22 <= |s| <= 30 && AllDigits(s[20..|s| - 1]) then Some((s[..19], s[20..|s| - 1]))
    else None
  }

  /** The grammar of an ISO text: its seconds, a point before a fraction of one to nine digits, and Z. */
  lemma IsoPartsExact(s: string, seconds: string, fraction: string)
    ensures IsoParts(s) == Some((seconds, fraction)) <==>
            && IsIsoSeconds(seconds) && AllDigits(fraction) && |fraction| <= 9
            && s == seconds + (if fraction == "" then "" else "." + fraction) + "Z"
  {
    if IsIsoSeconds(seconds) {
      IsoPartsOf(seconds, fraction);
    }
    if IsoParts(s).Some? {
      if |s| > 20 {
        assert s == s[..19] + "." + s[20..|s| - 1] + "Z";
      } else {
        assert s == s[..19] + "Z";
      }
    }
  }

  lemma IsoPartsOf(seconds: string, fraction: string)
    requires IsIsoSeconds(seconds)
    ensures AllDigits(fraction) && |fraction| <= 9 ==>
              IsoParts(seconds + (if fraction == "" then "" else "." + fraction) + "Z") == Some((seconds, fraction))
  {
    assert |seconds| == 19;
    hide IsIsoSeconds;
    var s := seconds + (if fraction == "" then "" else "." + fraction) + "Z";
    assert s[..19] == seconds && s[|s| - 1] == 'Z';
    if fraction != "" {
      assert s[19] == '.' && s[20..|s| - 1] == fraction;
    }
  }

  /** The Date parser: no time value for fields no calendar has, days past the month's end roll over. */
  function TimeValue(f: Fields, ms: nat): (r: Option<int>)
    requires ms < 1000
    ensures r.Some? ==> f.month >= 1 && r.value >= YEAR_ZERO * 1000 && r.value == SecondsOf(f) * 1000 + ms
  {
    if 1 <= f.month <= 12 && 1 <= f.day <= 31 && f.minute <= 59 && f.second <= 59
       && (f.hour <= 23 || (f.hour == 24 && f.minute == 0 && f.second == 0 && ms == 0))
    then
      NotBeforeYearZero(f);
      Some(SecondsOf(f) * 1000 + ms)
    else None
  }

  lemma NotBeforeYearZero(f: Fields)
    requires f.month >= 1 && f.day >= 1
    ensures SecondsOf(f) >= YEAR_ZERO
  {
    if f.year > 0 {
      YearStep(0);
      YearsIncrease(0, f.year);
    }
  }

  // The three canonicalisations.

  function CanonicalIso(s: string): Result<string> {
    match IsoParts(s)
    case None => Err
    case Some((prefix, fraction)) =>
      match TimeValue(FieldsIn(prefix), Millis(fraction))
      case None => Err
      case Some(time) =>
        if ToIsoString(time)[..19] != prefix then Err
        else if !InBounds(time / 1000) then Err
        else Ok(prefix + "." + PadEnd(fraction, 9) + "Z")
  }

  predicate IsSecondsText(s: string) {
    var digits := if s != "" && s[0] == '-' then s[1..] else s;
    digits != "" && AllDigits(digits)
  }

  /** BigInt of `-?\d+`; leading zeros are allowed. */
  function SecondsValue(s: string): int
    requires IsSecondsText(s)
  {
    if s[0] == '-' then 0 - DigitsValue(s[1..]) else DigitsValue(s)
  }

  function CanonicalProtobuf(seconds: string, nanos: int): Result<string> {
    if !IsSecondsText(seconds) || nanos < 0 || nanos > 999999999 then Err
    else if !InBounds(SecondsValue(seconds)) then Err
    else
      InBoundsYears(SecondsValue(seconds));
      var iso := ToIsoString(SecondsValue(seconds) * 1000);
      Ok(WithoutMilliseconds(iso) + "." + Pad(nanos, 9) + "Z")
  }

  /** `replace(".000Z", "")`: the one match stands at the end. */
  function WithoutMilliseconds(iso: string): string {
    if |iso| >= 5 && iso[|iso| - 5..] == ".000Z" then iso[..|iso| - 5] else iso
  }

  function CanonicalDate(ms: int): Result<string> {
    if !InBounds(ms / 1000) then Err
    else
      InBoundsYears(ms / 1000);
      var iso := ToIsoString(ms);
      Ok(iso[..|iso| - 1] + "000000Z")
  }

  /** The canonical text of an instant. */
  function Text(seconds: int, nanos: nat): string
    requires InBounds(seconds)
  {
    InBoundsYears(seconds);
    IsoSeconds(FieldsOf(seconds)) + "." + Pad(nanos, 9) + "Z"
  }

  // Bounds are years.

  lemma YearBounds(f: Fields)
    requires Valid(f)
    ensures DayFromYear(f.year) * 86400 <= SecondsOf(f) < DayFromYear(f.year + 1) * 86400
  {
    YearStep(f.year);
    MonthsFillYear(f.year);
    if f.month < 12 {
      MonthsIncrease(f.year, f.month, 12);
    }
  }

  /** The ledger's bounds are the years 0001 to 9999. */
  lemma BoundsAreYears(f: Fields)
    requires Valid(f)
    ensures InBounds(SecondsOf(f)) <==> 1 <= f.year <= 9999
  {
    assert DayFromYear(1) * 86400 == DAML_MIN_TIMESTAMP_SECONDS;
    assert DayFromYear(10000) * 86400 == DAML_MAX_TIMESTAMP_SECONDS + 1;
    YearBounds(f);
    if f.year > 9999 {
      YearsIncrease(9999, f.year);
    } else if f.year >= 1 {
      YearsIncrease(0, f.year);
      YearsIncrease(f.year, 10000);
    }
  }

  /** The decoder's date and timestamp ranges are the same years, in days and in microseconds. */
  lemma LedgerRangesAreYears(f: Fields, microseconds: nat)
    requires Valid(f) && microseconds < 1000000
    ensures LedgerValues.MIN_DATE <= DayNumber(f.year, f.month, f.day) <= LedgerValues.MAX_DATE <==> 1 <= f.year <= 9999
    ensures LedgerValues.MIN_TIMESTAMP <= SecondsOf(f) * 1000000 + microseconds <= LedgerValues.MAX_TIMESTAMP <==>
            1 <= f.year <= 9999
  {
    BoundsAreYears(f);
    BoundsAreYears(f.(hour := 0, minute := 0, second := 0));
  }

  lemma InBoundsYears(seconds: int)
    ensures YEAR_ZERO <= DAML_MIN_TIMESTAMP_SECONDS
    ensures InBounds(seconds) ==> 1 <= FieldsOf(seconds).year <= 9999
  {
    if InBounds(seconds) {
      BoundsAreYears(FieldsOf(seconds));
    }
  }

  // Digits.

  lemma {:induction false} DigitsBound(s: string)
    ensures DigitsValue(s) < Pow10(|s|)
    ensures |s| == 3 ==> DigitsValue(s) < 1000
  {
    if s != "" {
      DigitsBound(s[..|s| - 1]);
    }
    assert Pow10(3) == 1000;
  }

  lemma {:induction false} PadValue(n: nat, w: nat)
    requires n < Pow10(w)
    ensures DigitsValue(Pad(n, w)) == n
  {
    if w > 0 {
      PadValue(n / 10, w - 1);
      assert Pad(n, w)[..w - 1] == Pad(n / 10, w - 1);
    }
  }

  lemma {:induction false} PadOfValue(s: string)
    requires AllDigits(s)
    ensures Pad(DigitsValue(s), |s|) == s
    decreases |s|
  {
    if s != "" {
      var init := s[..|s| - 1];
      PadOfValue(init);
      assert s == init + [s[|s| - 1]];
    }
  }

  /** Comparing texts character by character. */
  predicate Before(a: string, b: string) {
    if a == "" then b != ""
    else if b == "" then false
    else a[0] < b[0] || (a[0] == b[0] && Before(a[1..], b[1..]))
  }

  lemma {:induction false} BeforeAppend(a: string, b: string, c: string, d: string)
    requires |a| == |b|
    ensures Before(a + c, b + d) <==> Before(a, b) || (a == b && Before(c, d))
    decreases |a|
  {
    if a == "" {
      assert a + c == c && b + d == d;
    } else {
      assert (a + c)[1..] == a[1..] + c && (b + d)[1..] == b[1..] + d;
      BeforeAppend(a[1..], b[1..], c, d);
      assert a == [a[0]] + a[1..] && b == [b[0]] + b[1..];
    }
  }

  lemma {:induction false} PadOrder(m: nat, n: nat, w: nat)
    requires m < Pow10(w) && n < Pow10(w)
    ensures Before(Pad(m, w), Pad(n, w)) <==> m < n
    ensures Pad(m, w) == Pad(n, w) <==> m == n
    decreases w
  {
    PadValue(m, w);
    PadValue(n, w);
    if w > 0 {
      PadOrder(m / 10, n / 10, w - 1);
      var a, b := [Digit(m % 10)], [Digit(n % 10)];
      BeforeAppend(Pad(m / 10, w - 1), Pad(n / 10, w - 1), a, b);
      assert a[1..] == "" && b[1..] == "";
      assert Before(a, b) <==> m % 10 < n % 10;
    }
  }

  // The seconds text and its fields.

  lemma Pieces(y: string, m: string, d: string, h: string, i: string, s: string)
    requires |y| == 4 && |m| == |d| == |h| == |i| == |s| == 2
    ensures var p := y + "-" + m + "-" + d + "T" + h + ":" + i + ":" + s;
            && |p| == 19 && p[4] == p[7] == '-' && p[10] == 'T' && p[13] == p[16] == ':'
            && p[..4] == y && p[5..7] == m && p[8..10] == d && p[11..13] == h && p[14..16] == i && p[17..] == s
  {
  }

  lemma TwoDigits(n: nat)
    requires n < 100
    ensures DigitsValue(Pad(n, 2)) == n
  {
    assert Pow10(2) == 100;
    PadValue(n, 2);
  }

  lemma FourDigits(n: nat)
    requires n < 10000
    ensures DigitsValue(Pad(n, 4)) == n
  {
    assert Pow10(2) == 100 && Pow10(4) == 100 * Pow10(2);
    PadValue(n, 4);
  }

  lemma FieldsInIso(f: Fields)
    requires Valid(f) && f.year <= 9999
    ensures IsIsoSeconds(IsoSeconds(f)) && FieldsIn(IsoSeconds(f)) == f
  {
    Pieces(Pad(f.year, 4), Pad(f.month, 2), Pad(f.day, 2), Pad(f.hour, 2), Pad(f.minute, 2), Pad(f.second, 2));
    FourDigits(f.year);
    TwoDigits(f.month);
    TwoDigits(f.day);
    TwoDigits(f.hour);
    TwoDigits(f.minute);
    TwoDigits(f.second);
  }

  lemma SecondsPieces(p: string)
    requires IsIsoSeconds(p)
    ensures p == p[..4] + "-" + p[5..7] + "-" + p[8..10] + "T" + p[11..13] + ":" + p[14..16] + ":" + p[17..]
  {
  }

  lemma IsoOfFieldsIn(p: string)
    requires IsIsoSeconds(p)
    ensures FieldsIn(p).year <= 9999 && IsoSeconds(FieldsIn(p)) == p
  {
    var f := FieldsIn(p);
    assert f.year <= 9999 by {
      DigitsBound(p[..4]);
      assert Pow10(2) == 100 && Pow10(4) == 100 * Pow10(2);
    }
    assert Pad(f.year, 4) == p[..4] by { PadOfValue(p[..4]); }
    assert Pad(f.month, 2) == p[5..7] by { PadOfValue(p[5..7]); }
    assert Pad(f.day, 2) == p[8..10] by { PadOfValue(p[8..10]); }
    assert Pad(f.hour, 2) == p[11..13] by { PadOfValue(p[11..13]); }
    assert Pad(f.minute, 2) == p[14..16] by { PadOfValue(p[14..16]); }
    assert Pad(f.second, 2) == p[17..] by { PadOfValue(p[17..]); }
    SecondsPieces(p);
  }

  lemma PrintedPrefix(p: string, f: Fields, millis: string)
    requires IsIsoSeconds(p)
    ensures |IsoSeconds(f) + millis| >= 19
    ensures (IsoSeconds(f) + millis)[..19] == p <==> f.year <= 9999 && IsoSeconds(f) == p
  {
    if f.year <= 9999 {
      assert (IsoSeconds(f) + millis)[..19] == IsoSeconds(f);
    } else {
      assert (IsoSeconds(f) + millis)[..19][0] == '+';
      assert IsDigit(p[..4][0]) && p[0] == p[..4][0];
    }
  }

  lemma PrintedIs(p: string, f: Fields)
    requires IsIsoSeconds(p) && Valid(f) && f.year <= 9999
    ensures IsoSeconds(f) == p <==> f == FieldsIn(p)
  {
    FieldsInIso(f);
    IsoOfFieldsIn(p);
  }

  /** A time value prints as the fields it came from exactly when those are valid. */
  lemma PrintsBack(p: string, time: int)
    requires IsIsoSeconds(p) && FieldsIn(p).month >= 1 && time >= YEAR_ZERO * 1000
    requires time / 1000 == SecondsOf(FieldsIn(p))
    ensures ToIsoString(time)[..19] == p <==> Valid(FieldsIn(p))
  {
    hide IsoSeconds, FieldsOf, FieldsIn, Valid, SecondsOf, Pad;
    var printed, millis := FieldsOf(time / 1000), "." + Pad(time % 1000, 3) + "Z";
    assert ToIsoString(time) == IsoSeconds(printed) + millis;
    PrintedPrefix(p, printed, millis);
    IsoOfFieldsIn(p);
    if printed.year <= 9999 {
      PrintedIs(p, printed);
    }
    if Valid(FieldsIn(p)) {
      FieldsRoundTrip(FieldsIn(p));
    }
  }

  /** The milliseconds the Date parser is given: the fraction cut or filled to three digits. */
  function Millis(fraction: string): (ms: nat)
    ensures ms < 1000
  {
    var padded := if |fraction| >= 3 then fraction[..3] else PadEnd(fraction, 3);
    DigitsBound(padded);
    DigitsValue(padded)
  }

  lemma AcceptedIso(prefix: string, fraction: string)
    requires IsIsoSeconds(prefix) && Valid(FieldsIn(prefix)) && AllDigits(fraction) && |fraction| <= 9
    ensures var f := FieldsIn(prefix);
            var time := TimeValue(f, Millis(fraction));
            && time.Some? && time.value / 1000 == SecondsOf(f)
            && ToIsoString(time.value)[..19] == prefix
            && (InBounds(SecondsOf(f)) <==> f.year >= 1)
            && (InBounds(SecondsOf(f)) ==>
                  Text(SecondsOf(f), DigitsValue(PadEnd(fraction, 9))) == prefix + "." + PadEnd(fraction, 9) + "Z")
  {
    var f := FieldsIn(prefix);
    var time := TimeValue(f, Millis(fraction)).value;
    assert time / 1000 == SecondsOf(f);
    PrintsBack(prefix, time);
    IsoOfFieldsIn(prefix);
    BoundsAreYears(f);
    FieldsRoundTrip(f);
    PadOfValue(PadEnd(fraction, 9));
  }

  lemma RejectedIso(prefix: string, ms: nat)
    requires IsIsoSeconds(prefix) && !Valid(FieldsIn(prefix)) && ms < 1000
    requires TimeValue(FieldsIn(prefix), ms).Some?
    ensures ToIsoString(TimeValue(FieldsIn(prefix), ms).value)[..19] != prefix
  {
    var time := TimeValue(FieldsIn(prefix), ms).value;
    assert time / 1000 == SecondsOf(FieldsIn(prefix));
    PrintsBack(prefix, time);
  }

  /** The ISO form is accepted exactly for a calendar second in bounds, and becomes the text of its instant. */
  lemma CanonicalIsoExact(s: string)
    ensures CanonicalIso(s).Ok? <==>
            IsoParts(s).Some? && Valid(FieldsIn(IsoParts(s).value.0)) && 1 <= FieldsIn(IsoParts(s).value.0).year
    ensures CanonicalIso(s).Ok? ==>
              var (prefix, fraction) := IsoParts(s).value;
              && InBounds(SecondsOf(FieldsIn(prefix)))
              && CanonicalIso(s).value == Text(SecondsOf(FieldsIn(prefix)), DigitsValue(PadEnd(fraction, 9)))
  {
    if IsoParts(s).Some? {
      var (prefix, fraction) := IsoParts(s).value;
      if Valid(FieldsIn(prefix)) {
        AcceptedIso(prefix, fraction);
      } else if TimeValue(FieldsIn(prefix), Millis(fraction)).Some? {
        RejectedIso(prefix, Millis(fraction));
      }
    }
  }

  lemma NoMillis(p: string)
    ensures p + "." + Pad(0, 3) + "Z" == p + ".000Z"
  {
    assert Pad(0, 1) == "0" && Pad(0, 2) == "00" && Pad(0, 3) == "000";
  }

  lemma WholeSeconds(seconds: int)
    requires InBounds(seconds)
    ensures seconds >= YEAR_ZERO && ToIsoString(seconds * 1000) == IsoSeconds(FieldsOf(seconds)) + ".000Z"
  {
    InBoundsYears(seconds);
    var ms := seconds * 1000;
    assert ms / 1000 == seconds && ms % 1000 == 0;
    NoMillis(IsoSeconds(FieldsOf(seconds)));
  }

  /** The protobuf form is accepted exactly in bounds, and becomes the text of its instant. */
  lemma CanonicalProtobufExact(seconds: string, nanos: int)
    ensures CanonicalProtobuf(seconds, nanos).Ok? <==>
            IsSecondsText(seconds) && 0 <= nanos <= 999999999 && InBounds(SecondsValue(seconds))
    ensures CanonicalProtobuf(seconds, nanos).Ok? ==>
            CanonicalProtobuf(seconds, nanos) == Ok(Text(SecondsValue(seconds), nanos))
  {
    if CanonicalProtobuf(seconds, nanos).Ok? {
      var value := SecondsValue(seconds);
      WholeSeconds(value);
      var p := IsoSeconds(FieldsOf(value));
      assert (p + ".000Z")[|p|..] == ".000Z" && (p + ".000Z")[..|p|] == p;
    }
  }

  lemma AppendZero(s: string)
    ensures DigitsValue(s + "0") == DigitsValue(s) * 10
  {
    assert (s + "0")[..|s + "0"| - 1] == s;
  }

  lemma TimesPow10(n: nat, k: nat)
    ensures n * 10 * Pow10(k) == n * Pow10(k + 1)
  {
    var p := Pow10(k);
    assert Pow10(k + 1) == 10 * p;
    assert n * 10 * p == n * (10 * p);
  }

  lemma {:induction false} PadEndValue(s: string, w: nat)
    requires |s| <= w
    ensures DigitsValue(PadEnd(s, w)) == DigitsValue(s) * Pow10(w - |s|)
    decreases w - |s|
  {
    if |s| < w {
      PadEndValue(s + "0", w);
      AppendZero(s);
      TimesPow10(DigitsValue(s), w - |s| - 1);
      assert PadEnd(s, w) == PadEnd(s + "0", w);
    } else {
      assert PadEnd(s, w) == s && Pow10(0) == 1;
    }
  }

  lemma PadEndOne(s: string, w: nat)
    requires |s| + 1 == w
    ensures PadEnd(s, w) == s + "0"
  {
  }

  lemma PadEndSix(s: string)
    requires |s| == 3
    ensures PadEnd(s, 9) == s + "000000"
  {
    assert PadEnd(s, 9) == PadEnd(s + "0", 9);
    assert PadEnd(s + "0", 9) == PadEnd(s + "0" + "0", 9) && s + "0" + "0" == s + "00";
    assert PadEnd(s + "00", 9) == PadEnd(s + "00" + "0", 9) && s + "00" + "0" == s + "000";
    assert PadEnd(s + "000", 9) == PadEnd(s + "000" + "0", 9) && s + "000" + "0" == s + "0000";
    assert PadEnd(s + "0000", 9) == PadEnd(s + "0000" + "0", 9) && s + "0000" + "0" == s + "00000";
    PadEndOne(s + "00000", 9);
    assert s + "00000" + "0" == s + "000000";
  }

  lemma PadMillis(ms: nat)
    requires ms < 1000
    ensures Pad(ms * 1000000, 9) == PadEnd(Pad(ms, 3), 9) == Pad(ms, 3) + "000000"
  {
    var s := Pad(ms, 3);
    assert Pow10(3) == 1000 && Pow10(6) == 1000 * Pow10(3);
    PadValue(ms, 3);
    PadEndValue(s, 9);
    PadOfValue(PadEnd(s, 9));
    PadEndSix(s);
  }

  /** The Date form is accepted exactly in bounds, and becomes the text of its instant. */
  lemma CanonicalDateExact(ms: int)
    ensures CanonicalDate(ms).Ok? <==> InBounds(ms / 1000)
    ensures InBounds(ms / 1000) ==> CanonicalDate(ms) == Ok(Text(ms / 1000, ms % 1000 * 1000000))
  {
    if InBounds(ms / 1000) {
      InBoundsYears(ms / 1000);
      PadMillis(ms % 1000);
      var p, millis := IsoSeconds(FieldsOf(ms / 1000)), Pad(ms % 1000, 3);
      var iso := ToIsoString(ms);
      assert iso[..|iso| - 1] == p + "." + millis;
      assert p + "." + millis + "000000Z" == p + "." + (millis + "000000") + "Z";
    }
  }

  lemma TextParts(seconds: int, nanos: nat)
    requires InBounds(seconds) && nanos <= 999999999
    ensures IsoParts(Text(seconds, nanos)) == Some((IsoSeconds(FieldsOf(seconds)), Pad(nanos, 9)))
    ensures |Text(seconds, nanos)| == 30
  {
    InBoundsYears(seconds);
    var p, digits := IsoSeconds(FieldsOf(seconds)), Pad(nanos, 9);
    FieldsInIso(FieldsOf(seconds));
    var s := Text(seconds, nanos);
    assert s[..19] == p && s[20..29] == digits && s[19] == '.' && s[29] == 'Z';
  }

  /** The layout of a canonical text: digits at fixed places, apart by fixed characters. */
  predicate IsCanonicalText(s: string) {
    && |s| == 30 && IsIsoSeconds(s[..19]) && s[19] == '.' && AllDigits(s[20..29]) && s[29] == 'Z'
  }

  /** A date the calendar has and a time of day, which in closed form are the seconds since 1970. */
  ghost predicate IsTime(f: Fields, seconds: int) {
    var february := if f.year % 4 == 0 && (f.year % 100 != 0 || f.year % 400 == 0) then 29 else 28;
    && 1 <= f.month <= 12 && 1 <= f.day <= [31, february, 31, 30, 31, 30, 31, 31, 30, 31, 30, 31][f.month - 1]
    && f.hour < 24 && f.minute < 60 && f.second < 60 && seconds == SecondsInClosedForm(f)
  }

  lemma FieldsAreTime(seconds: int)
    requires seconds >= YEAR_ZERO
    ensures IsTime(FieldsOf(seconds), seconds)
  {
    var f := FieldsOf(seconds);
    hide FieldsOf, SecondsOf, SecondsInClosedForm, ValidDate;
    DatesExist(f.year, f.month, f.day);
    SecondsAreClosedForm(f);
  }

  /** A canonical text says its instant: the time is read off its digits at fixed places, and so are the nanoseconds. */
  lemma TextSaysInstant(seconds: int, nanos: nat)
    requires InBounds(seconds) && nanos <= 999999999
    ensures var s := Text(seconds, nanos);
            && IsCanonicalText(s)
            && IsTime(Fields(DigitsValue(s[0..4]), DigitsValue(s[5..7]), DigitsValue(s[8..10]),
                             DigitsValue(s[11..13]), DigitsValue(s[14..16]), DigitsValue(s[17..19])), seconds)
            && DigitsValue(s[20..29]) == nanos
  {
    InBoundsYears(seconds);
    var f, s := FieldsOf(seconds), Text(seconds, nanos);
    TextParts(seconds, nanos);
    FieldsInIso(f);
    NinePlaces();
    PadValue(nanos, 9);
    FieldsAreTime(seconds);
    hide FieldsOf, IsoSeconds, IsTime, Pad, DigitsValue;
    TextSlices(s, IsoSeconds(f), Pad(nanos, 9));
  }

  lemma TextSlices(s: string, p: string, digits: string)
    requires |p| == 19 && |digits| == 9 && s == p + "." + digits + "Z"
    ensures |s| == 30 && s[..19] == p && s[19] == '.' && s[20..29] == digits && s[29] == 'Z'
    ensures s[0..4] == p[..4] && s[5..7] == p[5..7] && s[8..10] == p[8..10]
    ensures s[11..13] == p[11..13] && s[14..16] == p[14..16] && s[17..19] == p[17..]
  {
  }

  /** Canonicalising a canonical text changes nothing. */
  lemma CanonicalIsoIdempotent(seconds: int, nanos: nat)
    requires InBounds(seconds) && nanos <= 999999999
    ensures CanonicalIso(Text(seconds, nanos)) == Ok(Text(seconds, nanos))
  {
    InBoundsYears(seconds);
    var f := FieldsOf(seconds);
    TextParts(seconds, nanos);
    FieldsInIso(f);
    CanonicalIsoExact(Text(seconds, nanos));
    assert PadEnd(Pad(nanos, 9), 9) == Pad(nanos, 9);
    NinePlaces();
    PadValue(nanos, 9);
  }

  lemma NinePlaces()
    ensures Pow10(9) == 1000000000
  {
    assert Pow10(3) == 1000 && Pow10(6) == 1000 * Pow10(3);
  }

  lemma IsoStringParts(ms: int)
    requires InBounds(ms / 1000)
    ensures ms >= YEAR_ZERO * 1000
    ensures IsoParts(ToIsoString(ms)) == Some((IsoSeconds(FieldsOf(ms / 1000)), Pad(ms % 1000, 3)))
  {
    InBoundsYears(ms / 1000);
    var p, digits := IsoSeconds(FieldsOf(ms / 1000)), Pad(ms % 1000, 3);
    FieldsInIso(FieldsOf(ms / 1000));
    var s := ToIsoString(ms);
    assert s[..19] == p && s[20..23] == digits && s[19] == '.' && s[23] == 'Z';
  }

  /** The Date, ISO and protobuf forms of one instant have one canonical text. */
  lemma FormsAgree(ms: int)
    requires InBounds(ms / 1000)
    ensures ms >= YEAR_ZERO * 1000
    ensures CanonicalDate(ms) == Ok(Text(ms / 1000, ms % 1000 * 1000000))
    ensures CanonicalProtobuf(IntText(ms / 1000), ms % 1000 * 1000000) == CanonicalDate(ms)
    ensures CanonicalIso(ToIsoString(ms)) == CanonicalDate(ms)
  {
    var seconds, nanos := ms / 1000, ms % 1000 * 1000000;
    CanonicalDateExact(ms);
    IntTextRoundTrip(seconds);
    assert IsSecondsText(IntText(seconds)) && SecondsValue(IntText(seconds)) == seconds;
    CanonicalProtobufExact(IntText(seconds), nanos);
    IsoStringParts(ms);
    InBoundsYears(seconds);
    FieldsInIso(FieldsOf(seconds));
    CanonicalIsoExact(ToIsoString(ms));
    PadMillis(ms % 1000);
    NinePlaces();
    PadValue(nanos, 9);
  }

  // Order.

  lemma PairOrder(m: nat, n: nat, w: nat, c: string, d: string, separator: char)
    requires m < Pow10(w) && n < Pow10(w)
    ensures Before(Pad(m, w) + [separator] + c, Pad(n, w) + [separator] + d) <==> m < n || (m == n && Before(c, d))
  {
    PadOrder(m, n, w);
    var a, b := Pad(m, w), Pad(n, w);
    assert a + [separator] + c == a + ([separator] + c) && b + [separator] + d == b + ([separator] + d);
    BeforeAppend(a, b, [separator] + c, [separator] + d);
    assert ([separator] + c)[1..] == c && ([separator] + d)[1..] == d;
  }

  function TimeTail(f: Fields, tail: string): string {
    Pad(f.hour, 2) + ":" + (Pad(f.minute, 2) + ":" + (Pad(f.second, 2) + "." + tail))
  }

  lemma TimeTailOrder(f: Fields, g: Fields, c: string, d: string)
    requires Valid(f) && Valid(g)
    ensures Before(TimeTail(f, c), TimeTail(g, d)) <==>
            if f.hour != g.hour then f.hour < g.hour
            else if f.minute != g.minute then f.minute < g.minute
            else f.second < g.second || (f.second == g.second && Before(c, d))
  {
    assert Pow10(2) == 100;
    PairOrder(f.second, g.second, 2, c, d, '.');
    PairOrder(f.minute, g.minute, 2, Pad(f.second, 2) + "." + c, Pad(g.second, 2) + "." + d, ':');
    PairOrder(f.hour, g.hour, 2, Pad(f.minute, 2) + ":" + (Pad(f.second, 2) + "." + c),
              Pad(g.minute, 2) + ":" + (Pad(g.second, 2) + "." + d), ':');
  }

  function DateTail(f: Fields, tail: string): string {
    Pad(f.year, 4) + "-" + (Pad(f.month, 2) + "-" + (Pad(f.day, 2) + "T" + tail))
  }

  lemma DateTailOrder(f: Fields, g: Fields, c: string, d: string)
    requires Valid(f) && Valid(g) && f.year <= 9999 && g.year <= 9999
    ensures Before(DateTail(f, c), DateTail(g, d)) <==>
            if f.year != g.year then f.year < g.year
            else if f.month != g.month then f.month < g.month
            else f.day < g.day || (f.day == g.day && Before(c, d))
  {
    assert Pow10(2) == 100 && Pow10(4) == 100 * Pow10(2);
    PairOrder(f.day, g.day, 2, c, d, 'T');
    PairOrder(f.month, g.month, 2, Pad(f.day, 2) + "T" + c, Pad(g.day, 2) + "T" + d, '-');
    PairOrder(f.year, g.year, 4, Pad(f.month, 2) + "-" + (Pad(f.day, 2) + "T" + c),
              Pad(g.month, 2) + "-" + (Pad(g.day, 2) + "T" + d), '-');
  }

  lemma Tails(y: string, m: string, d: string, h: string, i: string, s: string, tail: string)
    ensures y + "-" + m + "-" + d + "T" + h + ":" + i + ":" + s + "." + tail
         == y + "-" + (m + "-" + (d + "T" + (h + ":" + (i + ":" + (s + "." + tail)))))
  {
  }

  lemma TextTails(seconds: int, nanos: nat)
    requires InBounds(seconds)
    ensures seconds >= YEAR_ZERO
    ensures Text(seconds, nanos) == DateTail(FieldsOf(seconds), TimeTail(FieldsOf(seconds), Pad(nanos, 9) + "Z"))
  {
    InBoundsYears(seconds);
    var f := FieldsOf(seconds);
    assert IsoSeconds(f) + "." + Pad(nanos, 9) + "Z" == IsoSeconds(f) + "." + (Pad(nanos, 9) + "Z");
    Tails(Pad(f.year, 4), Pad(f.month, 2), Pad(f.day, 2), Pad(f.hour, 2), Pad(f.minute, 2), Pad(f.second, 2),
          Pad(nanos, 9) + "Z");
  }

  /** Comparing canonical texts is comparing instants. */
  lemma TextOrderIsTimeOrder(s: int, m: nat, t: int, n: nat)
    requires InBounds(s) && InBounds(t) && m <= 999999999 && n <= 999999999
    ensures Before(Text(s, m), Text(t, n)) <==> s < t || (s == t && m < n)
    ensures Text(s, m) == Text(t, n) <==> s == t && m == n
  {
    InBoundsYears(s);
    InBoundsYears(t);
    var f, g := FieldsOf(s), FieldsOf(t);
    FieldOrderExact(f, g);
    NinePlaces();
    NanosOrder(m, n);
    TimeTailOrder(f, g, Pad(m, 9) + "Z", Pad(n, 9) + "Z");
    DateTailOrder(f, g, TimeTail(f, Pad(m, 9) + "Z"), TimeTail(g, Pad(n, 9) + "Z"));
    TextTails(s, m);
    TextTails(t, n);
    if Text(s, m) == Text(t, n) {
      TextParts(s, m);
      TextParts(t, n);
      FieldsInIso(f);
      FieldsInIso(g);
      PadOrder(m, n, 9);
    }
  }

  lemma NanosOrder(m: nat, n: nat)
    requires m <= 999999999 && n <= 999999999
    ensures Before(Pad(m, 9) + "Z", Pad(n, 9) + "Z") <==> m < n
  {
    NinePlaces();
    PadOrder(m, n, 9);
    BeforeAppend(Pad(m, 9), Pad(n, 9), "Z", "Z");
    assert "Z"[1..] == "";
  }
}
