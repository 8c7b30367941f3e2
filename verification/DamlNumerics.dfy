/** Canonicalisation of ledger numerics into the exact decimal text DamlNumeric accepts. */
module DamlNumerics {
  import opened Wrappers
  import opened Decimals

  const MAX_PRECISION := 38
  const MAX_SCALE := 37

  function IndexOfDot(s: string): (i: int)
    ensures -1 <= i < |s|
    ensures i == -1 <==> '.' !in s
    ensures i >= 0 ==> s[i] == '.' && '.' !in s[..i]
  {
    if s == "" then -1
    else if s[0] == '.' then 0
    else
      var rest := IndexOfDot(s[1..]);
      assert s == [s[0]] + s[1..];
      if rest == -1 then -1 else
      assert s[..rest + 1] == [s[0]] + s[1..][..rest];
      rest + 1
  }

  predicate Negative(s: string) {
    s != "" && s[0] == '-'
  }

  function Unsigned(s: string): string {
    if s != "" && (s[0] == '+' || s[0] == '-') then s[1..] else s
  }

  function IntegerPart(u: string): string {
    var dot := IndexOfDot(u);
    if dot == -1 then u else u[..dot]
  }

  function FractionPart(u: string): string {
    var dot := IndexOfDot(u);
    if dot == -1 then "" else u[dot + 1..]
  }

  /** The ledger grammar `[+-]?[0-9]+(\.[0-9]*)?`. */
  predicate IsLedgerNumeric(s: string) {
    var u := Unsigned(s);
    IntegerPart(u) != "" && AllDigits(IntegerPart(u)) && AllDigits(FractionPart(u))
  }

  /** The grammar `-?(0|[1-9][0-9]*)(\.[0-9]+)?` that the DamlNumeric constructor enforces. */
  predicate IsDamlNumeric(s: string) {
    var u := if Negative(s) then s[1..] else s;
    && IsNatText(IntegerPart(u))
    && AllDigits(FractionPart(u))
    && (IndexOfDot(u) != -1 ==> FractionPart(u) != "")
  }

  function NewDamlNumeric(s: string): Result<string> {
    if IsDamlNumeric(s) then Ok(s) else Err
  }

  /** Number of fraction digits. */
  function Scale(s: string): nat {
    |FractionPart(Unsigned(s))|
  }

  function Precision(s: string): nat {
    |IntegerPart(Unsigned(s))| + |FractionPart(Unsigned(s))|
  }

  /** The exact rational a numeric text denotes is Unscaled(s) / 10^Scale(s). */
  function Unscaled(s: string): int
    requires IsLedgerNumeric(s)
  {
    var digits := DigitsValue(IntegerPart(Unsigned(s)) + FractionPart(Unsigned(s)));
    if Negative(s) then 0 - digits else digits
  }

  function TrimZeros(s: string): (t: string)
    ensures t == "" || t[0] != '0'
    ensures |t| <= |s|
    ensures t == s[|s| - |t|..]
  {
    if s != "" && s[0] == '0' then TrimZeros(s[1..]) else s
  }

  function CanonicalInteger(s: string): (integer: string)
    requires AllDigits(s)
    ensures IsNatText(integer)
    ensures s != "" ==> |integer| <= |s|
  {
    if TrimZeros(s) == "" then "0" else TrimZeros(s)
  }

  function Body(integer: string, fraction: string): string {
    if fraction == "" then integer else integer + "." + fraction
  }

  function Signed(negative: bool, body: string): string {
    if negative then "-" + body else body
  }

  function Canonicalize(s: string): string
    requires IsLedgerNumeric(s)
  {
    var u := Unsigned(s);
    Signed(Negative(s), Body(CanonicalInteger(IntegerPart(u)), FractionPart(u)))
  }

  function DecodeNumeric(s: string, numericScale: Option<int>): Result<string> {
    var maxScale := if numericScale.Some? then numericScale.value else MAX_SCALE;
    if !IsLedgerNumeric(s) then Err
    else if maxScale < 0 || maxScale > MAX_SCALE then Err
    else if Precision(s) > MAX_PRECISION then Err
    else if Scale(s) > maxScale then Err
    else NewDamlNumeric(Canonicalize(s))
  }

  lemma {:induction false} TrimZerosValue(s: string, tail: string)
    ensures DigitsValue(TrimZeros(s) + tail) == DigitsValue(s + tail)
  {
    if s != "" && s[0] == '0' {
      TrimZerosValue(s[1..], tail);
      assert (s + tail)[1..] == s[1..] + tail;
      DropLeadingZero(s + tail);
    }
  }

  lemma {:induction false} SplitAtDot(integer: string, fraction: string)
    requires '.' !in integer
    ensures IndexOfDot(integer + "." + fraction) == |integer|
  {
    var s := integer + "." + fraction;
    if integer != "" {
      assert s[1..] == integer[1..] + "." + fraction;
      SplitAtDot(integer[1..], fraction);
    }
  }

  lemma BodyParts(integer: string, fraction: string)
    requires integer != "" && AllDigits(integer)
    ensures var body := Body(integer, fraction);
            && body != "" && body[0] == integer[0]
            && IntegerPart(body) == integer
            && FractionPart(body) == fraction
            && (IndexOfDot(body) == -1 <==> fraction == "")
  {
    assert '.' !in integer;
    if fraction != "" {
      SplitAtDot(integer, fraction);
      var body := integer + "." + fraction;
      assert body[..|integer|] == integer;
      assert body[|integer| + 1..] == fraction;
    }
  }

  lemma SignedParts(negative: bool, body: string)
    requires body != "" && IsDigit(body[0])
    ensures Negative(Signed(negative, body)) == negative
    ensures Unsigned(Signed(negative, body)) == body
    ensures negative ==> Signed(negative, body)[1..] == body
  {
  }

  /** The parts of the canonical text. */
  lemma CanonicalParts(s: string)
    requires IsLedgerNumeric(s)
    ensures var u := Unsigned(s);
            var t := Canonicalize(s);
            && Negative(t) == Negative(s)
            && Unsigned(t) == (if Negative(t) then t[1..] else t)
            && IntegerPart(Unsigned(t)) == CanonicalInteger(IntegerPart(u))
            && FractionPart(Unsigned(t)) == FractionPart(u)
            && (IndexOfDot(Unsigned(t)) == -1 <==> FractionPart(u) == "")
  {
    var u := Unsigned(s);
    var integer, fraction := CanonicalInteger(IntegerPart(u)), FractionPart(u);
    BodyParts(integer, fraction);
    SignedParts(Negative(s), Body(integer, fraction));
  }

  /** DamlNumeric accepts every canonical text: the constructor never throws here. */
  lemma CanonicalAccepted(s: string)
    requires IsLedgerNumeric(s)
    ensures IsDamlNumeric(Canonicalize(s))
  {
    CanonicalParts(s);
  }

  lemma PadZero(tail: string)
    ensures DigitsValue("0" + tail) == DigitsValue(tail)
  {
    var padded := "0" + tail;
    assert padded[1..] == tail;
    DropLeadingZero(padded);
  }

  lemma {:induction false} CanonicalIntegerValue(s: string, tail: string)
    requires AllDigits(s) && AllDigits(tail)
    ensures DigitsValue(CanonicalInteger(s) + tail) == DigitsValue(s + tail)
  {
    var trimmed := TrimZeros(s);
    TrimZerosValue(s, tail);
    if trimmed == "" {
      PadZero(tail);
      assert trimmed + tail == tail;
      assert DigitsValue(tail) == DigitsValue(s + tail);
    }
  }

  /** Canonicalisation keeps the exact rational, the scale and the sign, and never adds digits. */
  lemma CanonicalKeepsValue(s: string)
    requires IsLedgerNumeric(s)
    ensures var t := Canonicalize(s);
            && IsLedgerNumeric(t)
            && Unscaled(t) == Unscaled(s)
            && Scale(t) == Scale(s)
            && Negative(t) == Negative(s)
            && Precision(t) <= Precision(s)
  {
    CanonicalParts(s);
    CanonicalIntegerValue(IntegerPart(Unsigned(s)), FractionPart(Unsigned(s)));
  }

  lemma CanonicalIntegerFixed(integer: string)
    requires IsNatText(integer)
    ensures CanonicalInteger(integer) == integer
  {
    if integer == "0" {
      assert TrimZeros("0") == TrimZeros("0"[1..]);
    }
  }

  lemma {:induction false} UnsignedBody(u: string)
    requires IsNatText(IntegerPart(u)) && AllDigits(FractionPart(u))
    requires IndexOfDot(u) != -1 ==> FractionPart(u) != ""
    ensures u != "" && IsDigit(u[0])
    ensures u == Body(IntegerPart(u), FractionPart(u))
  {
    hide IndexOfDot;
    assert IsDigit(IntegerPart(u)[0]) && u[0] == IntegerPart(u)[0];
    var dot := IndexOfDot(u);
    if dot != -1 {
      assert u == u[..dot] + [u[dot]] + u[dot + 1..];
    }
  }

  /** A text already in DamlNumeric's grammar is canonical. */
  lemma DamlNumericIsCanonical(s: string)
    requires IsDamlNumeric(s)
    ensures IsLedgerNumeric(s) && Canonicalize(s) == s
  {
    var u := if Negative(s) then s[1..] else s;
    UnsignedBody(u);
    assert s == Signed(Negative(s), u);
    SignedParts(Negative(s), u);
    CanonicalIntegerFixed(IntegerPart(u));
  }

  /**
   * Decoding succeeds exactly when the checks pass, so the constructor's error handler is dead
   * code; the result is the same exact decimal within 38 digits, and decoding it again changes
   * nothing.
   */
  lemma DecodeNumericExact(s: string, numericScale: Option<int>)
    ensures var maxScale := if numericScale.Some? then numericScale.value else MAX_SCALE;
            var r := DecodeNumeric(s, numericScale);
            && (r.Ok? <==>
                  IsLedgerNumeric(s) && 0 <= maxScale <= MAX_SCALE
                  && Precision(s) <= MAX_PRECISION && Scale(s) <= maxScale)
            && (r.Ok? ==>
                  && IsDamlNumeric(r.value) && IsLedgerNumeric(r.value)
                  && Unscaled(r.value) == Unscaled(s)
                  && Scale(r.value) == Scale(s)
                  && Precision(r.value) <= MAX_PRECISION
                  && DecodeNumeric(r.value, numericScale) == r)
  {
    hide Canonicalize, IsLedgerNumeric, IsDamlNumeric, Precision, Scale, Unscaled;
    if IsLedgerNumeric(s) {
      CanonicalAccepted(s);
      CanonicalKeepsValue(s);
      DamlNumericIsCanonical(Canonicalize(s));
    }
  }

  function Zeros(n: nat): (s: string)
    ensures |s| == n && AllDigits(s)
  {
    if n == 0 then "" else "0" + Zeros(n - 1)
  }
}
