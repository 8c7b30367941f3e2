/** Base 128 varints of at most eight bytes, as a JavaScript number holds them. */
module Varints {
  import opened Wrappers

  type Byte = b: int | 0 <= b < 256

  datatype Read<+T> = Read(value: T, rest: seq<Byte>)

  const EXACT: nat := 0x20_0000_0000_0000

  /** Nearest multiple of `unit`, ties to the even one. */
  function RoundTo(n: nat, unit: nat): nat
    requires unit > 0
  {
    var remainder := n % unit;
    if 2 * remainder < unit || (2 * remainder == unit && n / unit % 2 == 0) then n - remainder
    else n - remainder + unit
  }

  /** A number of up to 56 bits as a double holds it. */
  function ToDouble(n: nat): nat {
    if n < EXACT then n
    else if n < 2 * EXACT then RoundTo(n, 2)
    else if n < 4 * EXACT then RoundTo(n, 4)
    else RoundTo(n, 8)
  }

  /** IEEE 754 rounding: the nearest multiple of the unit in the last of 53 binary places, ties to even. */
  lemma DoubleIsNearest(n: nat)
    requires n < 8 * 0x20_0000_0000_0000
    ensures var unit := if n < 0x20_0000_0000_0000 then 1
                        else if n < 0x40_0000_0000_0000 then 2
                        else if n < 0x80_0000_0000_0000 then 4
                        else 8;
            var d := ToDouble(n);
            && d % unit == 0 && 2 * (d - n) <= unit && 2 * (n - d) <= unit
            && (2 * (d - n) == unit || 2 * (n - d) == unit ==> d / unit % 2 == 0)
  {
    if EXACT <= n < 2 * EXACT {
      RoundsToNearest(n, 2);
    } else if 2 * EXACT <= n < 4 * EXACT {
      RoundsToNearest(n, 4);
    } else if 4 * EXACT <= n {
      RoundsToNearest(n, 8);
    }
  }

  lemma RoundsToNearest(n: nat, unit: nat)
    requires unit in {2, 4, 8}
    ensures var d := RoundTo(n, unit);
            && d % unit == 0 && 2 * (d - n) <= unit && 2 * (n - d) <= unit
            && (2 * (d - n) == unit || 2 * (n - d) == unit ==> d / unit % 2 == 0)
  {
    var q := n / unit;
    assert n == q * unit + n % unit;
    Multiple(q, unit);
    Multiple(q + 1, unit);
    assert (q + 1) * unit == q * unit + unit;
  }

  lemma Multiple(q: nat, unit: nat)
    requires unit in {2, 4, 8}
    ensures q * unit / unit == q && q * unit % unit == 0
  {
    if unit == 2 {
      assert q * 2 / 2 == q;
    } else if unit == 4 {
      assert q * 4 / 4 == q;
    } else {
      assert q * 8 / 8 == q;
    }
  }

  function Pow128(k: nat): (p: nat)
    ensures p > 0
  {
    if k == 0 then 1 else 128 * Pow128(k - 1)
  }

  /** The exact number a varint of at most `limit` bytes denotes, least significant group first. */
  function Exact(s: seq<Byte>, limit: nat): (r: Result<Read<nat>>)
    ensures r.Ok? ==> |r.value.rest| < |s|
    decreases limit
  {
    if limit == 0 || s == [] then Err
    else if s[0] < 128 then Ok(Read(s[0], s[1..]))
    else
      var more :- Exact(s[1..], limit - 1);
      Ok(Read(s[0] - 128 + 128 * more.value, more.rest))
  }

  /** The first varint of a text; Err when it is truncated or longer than eight bytes. */
  function Varint(s: seq<Byte>): (r: Result<Read<nat>>)
    ensures r.Ok? ==> |r.value.rest| < |s|
  {
    var exact :- Exact(s, 8);
    Ok(Read(ToDouble(exact.value), exact.rest))
  }

  predicate Fits(n: nat, width: nat) {
    1 <= width <= 8 && n < Pow128(width)
  }

  /** A number in exactly `width` bytes; wider than needed is an overlong varint. */
  function EncodeVarint(n: nat, width: nat): (s: seq<Byte>)
    requires width >= 1 && n < Pow128(width)
    ensures |s| == width
  {
    if width == 1 then [n]
    else [n % 128 + 128] + EncodeVarint(n / 128, width - 1)
  }

  lemma {:induction false} ExactOfEncoded(n: nat, width: nat, limit: nat, tail: seq<Byte>)
    requires 1 <= width <= limit && n < Pow128(width)
    ensures Exact(EncodeVarint(n, width) + tail, limit) == Ok(Read(n, tail))
    decreases width
  {
    var all := EncodeVarint(n, width) + tail;
    if width == 1 {
      assert all[0] == n && all[1..] == tail;
    } else {
      var rest := EncodeVarint(n / 128, width - 1);
      assert all[0] == n % 128 + 128 && all[1..] == rest + tail;
      ExactOfEncoded(n / 128, width - 1, limit - 1, tail);
    }
  }

  lemma {:induction false} EncodedOfExact(s: seq<Byte>, limit: nat) returns (n: nat, width: nat)
    requires Exact(s, limit).Ok?
    ensures 1 <= width <= limit && n < Pow128(width)
    ensures s == EncodeVarint(n, width) + Exact(s, limit).value.rest && Exact(s, limit).value.value == n
    decreases limit
  {
    assert s == [s[0]] + s[1..];
    if s[0] < 128 {
      n, width := s[0], 1;
    } else {
      var high, size := EncodedOfExact(s[1..], limit - 1);
      n, width := s[0] - 128 + 128 * high, size + 1;
      assert n / 128 == high && n % 128 == s[0] - 128;
      assert EncodeVarint(n, width) == [s[0]] + EncodeVarint(high, size);
    }
  }

  lemma {:induction false} Pow128Monotone(j: nat, k: nat)
    requires j <= k
    ensures Pow128(j) <= Pow128(k)
    decreases k - j
  {
    if j < k {
      Pow128Monotone(j + 1, k);
    }
  }

  lemma SevenBytesExact(n: nat, width: nat)
    requires width <= 7 && n < Pow128(width)
    ensures ToDouble(n) == n
  {
    Pow128Monotone(width, 7);
    assert Pow128(7) == 128 * 128 * 128 * 128 * 128 * 128 * 128;
  }

  /** Reading what was written: the number itself up to seven bytes, a double of it at eight. */
  lemma VarintRoundTrip(n: nat, width: nat, tail: seq<Byte>)
    requires Fits(n, width)
    ensures Varint(EncodeVarint(n, width) + tail) == Ok(Read(ToDouble(n), tail))
    ensures width <= 7 ==> ToDouble(n) == n
  {
    ExactOfEncoded(n, width, 8, tail);
    if width <= 7 {
      SevenBytesExact(n, width);
    }
  }

  /** Whatever reads as a varint was written as one. */
  lemma EncodedVarint(s: seq<Byte>) returns (n: nat, width: nat)
    requires Varint(s).Ok?
    ensures Fits(n, width)
    ensures s == EncodeVarint(n, width) + Varint(s).value.rest && Varint(s).value.value == ToDouble(n)
  {
    n, width := EncodedOfExact(s, 8);
  }

  // The accumulating loop: groups of seven bits from the least significant on.

  /** The number the groups of some bytes make up. */
  ghost function Groups(s: seq<Byte>): nat {
    if s == [] then 0 else s[0] % 128 + 128 * Groups(s[1..])
  }

  ghost predicate Continued(s: seq<Byte>) {
    forall b :: b in s ==> b >= 128
  }

  lemma {:induction false} GroupsBound(s: seq<Byte>)
    ensures Groups(s) < Pow128(|s|)
  {
    if s != [] {
      GroupsBound(s[1..]);
    }
  }

  lemma {:induction false} GroupsAppend(s: seq<Byte>, byte: Byte)
    ensures Groups(s + [byte]) == Groups(s) + byte % 128 * Pow128(|s|)
  {
    if s == [] {
      assert [] + [byte] == [byte];
      assert Groups([byte]) == byte % 128 + 128 * Groups([]);
    } else {
      var group := byte % 128;
      assert (s + [byte])[1..] == s[1..] + [byte];
      GroupsAppend(s[1..], byte);
      assert 128 * (group * Pow128(|s| - 1)) == group * (128 * Pow128(|s| - 1));
    }
  }

  lemma GroupsExact(s: seq<Byte>)
    requires |s| <= 7
    ensures ToDouble(Groups(s)) == Groups(s)
  {
    GroupsBound(s);
    SevenBytesExact(Groups(s), |s|);
  }

  /** One turn of the loop: the sum is a double, exact while seven bytes are enough. */
  method AddGroup(result: nat, byte: Byte, shift: nat, ghost read: seq<Byte>) returns (next: nat)
    requires result == Groups(read) && shift == Pow128(|read|)
    ensures next == ToDouble(Groups(read + [byte]))
  {
    GroupsAppend(read, byte);
    var group := byte % 128 * shift;
    next := ToDouble(result + group);
  }

  /** A varint is its continued bytes and one last byte, at most eight in all. */
  lemma {:induction false} ExactGroups(s: seq<Byte>, rest: seq<Byte>, limit: nat)
    requires Continued(s)
    ensures |s| >= limit || rest == [] ==> Exact(s + rest, limit).Err?
    ensures |s| < limit && rest != [] && rest[0] < 128 ==>
              Exact(s + rest, limit) == Ok(Read(Groups(s + [rest[0]]), rest[1..]))
    decreases |s|
  {
    var all := s + rest;
    if s == [] {
      assert all == rest;
      if rest != [] {
        assert [] + [rest[0]] == [rest[0]];
        assert Groups([rest[0]]) == rest[0] % 128 + 128 * Groups([]);
      }
    } else if limit > 0 {
      assert Continued(s[1..]) by {
        forall b | b in s[1..] ensures b in s {
        }
      }
      assert s[0] in s && all[0] == s[0] && all[1..] == s[1..] + rest;
      ExactGroups(s[1..], rest, limit - 1);
      if rest != [] {
        assert (s + [rest[0]])[1..] == s[1..] + [rest[0]];
      }
    }
  }

  lemma VarintGroups(s: seq<Byte>, rest: seq<Byte>)
    requires Continued(s)
    ensures |s| >= 8 || rest == [] ==> Varint(s + rest).Err?
    ensures |s| < 8 && rest != [] && rest[0] < 128 ==>
              Varint(s + rest) == Ok(Read(ToDouble(Groups(s + [rest[0]])), rest[1..]))
  {
    ExactGroups(s, rest, 8);
  }
}
