/** Hexadecimal text and bytes: Python's `bytes.hex()` (lower-case digit
    pairs), `bytes.fromhex(...)` (pairs of digits in either case) and
    `str.replace(c, '')`. */
module Hex {
  import opened Wrappers
  import opened Bytes

  predicate IsHexDigit(c: char) {
    '0' <= c <= '9' || 'a' <= c <= 'f' || 'A' <= c <= 'F'
  }

  predicate IsLowerHexDigit(c: char) {
    '0' <= c <= '9' || 'a' <= c <= 'f'
  }

  predicate AllHex(s: string) {
    forall i | 0 <= i < |s| :: IsHexDigit(s[i])
  }

  /** The value of one hexadecimal digit, upper or lower case. */
  function DigitValue(c: char): (v: nat)
    requires IsHexDigit(c)
    ensures v < 16
  {
    if '0' <= c <= '9' then c as int - '0' as int
    else if 'a' <= c <= 'f' then c as int - 'a' as int + 10
    else c as int - 'A' as int + 10
  }

  /** The lower-case digit that `bytes.hex()` writes for a value below 16. */
  function HexDigit(n: nat): (c: char)
    requires n < 16
    ensures IsLowerHexDigit(c) && DigitValue(c) == n
  {
    if n < 10 then ('0' as int + n) as char else ('a' as int + n - 10) as char
  }

  /** The lower-case form of a hexadecimal digit. */
  function LowerDigit(c: char): (d: char)
    requires IsHexDigit(c)
    ensures IsLowerHexDigit(d) && DigitValue(d) == DigitValue(c)
    ensures IsLowerHexDigit(c) ==> d == c
  {
    if 'A' <= c <= 'F' then (c as int - 'A' as int + 'a' as int) as char else c
  }

  /** A string of hexadecimal digits, lower-cased. */
  function Lower(s: string): (r: string)
    requires AllHex(s)
    ensures |r| == |s|
    ensures forall i | 0 <= i < |s| :: r[i] == LowerDigit(s[i])
  {
    if s == [] then [] else [LowerDigit(s[0])] + Lower(s[1..])
  }

  /** The two hex digits of one byte, high nibble first. */
  function ByteHex(b: byte): (h: string)
  {
    [HexDigit(b / 16), HexDigit(b % 16)]
  }

  /** `bytes.hex()`: two lower-case digits per byte, in order. */
  function ToHex(bs: seq<byte>): (h: string)
    ensures |h| == 2 * |bs|
  {
    if bs == [] then [] else ByteHex(bs[0]) + ToHex(bs[1..])
  }

  /** The byte written by the digit pair `hi lo`. */
  function PairValue(hi: char, lo: char): (b: byte)
    requires IsHexDigit(hi) && IsHexDigit(lo)
  {
    DigitValue(hi) * 16 + DigitValue(lo)
  }

  /** `bytes.fromhex(s)`: each pair of digits becomes one byte; a string of
      odd length or with a character that is not a digit is refused. */
  function FromHex(s: string): (r: Option<seq<byte>>)
    ensures r.Some? ==> 2 * |r.value| == |s|
    decreases |s|
  {
    if |s| == 0 then Some([])
    else if |s| == 1 || !IsHexDigit(s[0]) || !IsHexDigit(s[1]) then None
    else match FromHex(s[2..])
      case None => None
      case Some(rest) => Some([PairValue(s[0], s[1])] + rest)
  }

  /** `s.replace(c, '')`: every occurrence of `c` dropped, the rest kept in order. */
  function Remove(s: string, c: char): (r: string)
    ensures c !in r && |r| <= |s|
    ensures c !in s ==> r == s
  {
    if s == [] then [] else if s[0] == c then Remove(s[1..], c) else [s[0]] + Remove(s[1..], c)
  }

  // ---------------------------------------------------------------------
  // Properties

  /** `bytes.hex()` distributes over concatenation. */
  lemma {:induction false} ToHexAppend(a: seq<byte>, b: seq<byte>)
    ensures ToHex(a + b) == ToHex(a) + ToHex(b)
  {
    if a != [] {
      assert (a + b)[1..] == a[1..] + b;
      ToHexAppend(a[1..], b);
    } else {
      assert a + b == b;
    }
  }

  /** Every character `bytes.hex()` writes is a lower-case digit, and digits
      2i and 2i+1 are the high and low nibble of byte i. */
  lemma {:induction false} ToHexAt(bs: seq<byte>, i: nat)
    requires i < |bs|
    ensures ToHex(bs)[2 * i] == HexDigit(bs[i] / 16)
    ensures ToHex(bs)[2 * i + 1] == HexDigit(bs[i] % 16)
  {
    if i > 0 {
      ToHexAt(bs[1..], i - 1);
    }
  }

  lemma ToHexIsLowerHex(bs: seq<byte>)
    ensures forall k | 0 <= k < |ToHex(bs)| :: IsLowerHexDigit(ToHex(bs)[k])
  {
    forall k | 0 <= k < |ToHex(bs)| ensures IsLowerHexDigit(ToHex(bs)[k]) {
      ToHexAt(bs, k / 2);
    }
  }

  /** `bytes.fromhex(s)` succeeds exactly when `s` has even length and holds
      nothing but hexadecimal digits. */
  lemma {:induction false} FromHexAccepts(s: string)
    ensures FromHex(s).Some? <==> |s| % 2 == 0 && AllHex(s)
    decreases |s|
  {
    if |s| >= 2 {
      FromHexAccepts(s[2..]);
      if IsHexDigit(s[0]) && IsHexDigit(s[1]) && AllHex(s[2..]) {
        forall i | 0 <= i < |s| ensures IsHexDigit(s[i]) {
          if i >= 2 { assert s[i] == s[2..][i - 2]; }
        }
      }
      if AllHex(s) {
        forall i | 0 <= i < |s| - 2 ensures IsHexDigit(s[2..][i]) {
          assert s[2..][i] == s[i + 2];
        }
      }
    } else if |s| == 1 {
      assert FromHex(s).None?;
    }
  }

  /** Byte i of `bytes.fromhex(s)` is the value of digits 2i and 2i+1. */
  lemma {:induction false} FromHexAt(s: string, i: nat)
    requires FromHex(s).Some? && i < |FromHex(s).value|
    ensures IsHexDigit(s[2 * i]) && IsHexDigit(s[2 * i + 1])
    ensures FromHex(s).value[i] == PairValue(s[2 * i], s[2 * i + 1])
    decreases |s|
  {
    if i > 0 {
      FromHexAt(s[2..], i - 1);
    }
  }

  lemma PairValueOfByteHex(b: byte)
    ensures PairValue(HexDigit(b / 16), HexDigit(b % 16)) == b
  {
  }

  /** Parsing what `bytes.hex()` writes gives back the bytes. */
  lemma {:induction false} FromHexOfToHex(bs: seq<byte>)
    ensures FromHex(ToHex(bs)) == Some(bs)
  {
    if bs != [] {
      var h := ToHex(bs);
      assert h[2..] == ToHex(bs[1..]);
      FromHexOfToHex(bs[1..]);
      PairValueOfByteHex(bs[0]);
      assert bs == [bs[0]] + bs[1..];
    }
  }

  /** Writing back what `bytes.fromhex(s)` parsed gives `s` in lower case. */
  lemma {:induction false} ToHexOfFromHex(s: string)
    requires FromHex(s).Some?
    ensures AllHex(s) && ToHex(FromHex(s).value) == Lower(s)
    decreases |s|
  {
    FromHexAccepts(s);
    if s != [] {
      FromHexAccepts(s[2..]);
      ToHexOfFromHex(s[2..]);
      var b := PairValue(s[0], s[1]);
      DivModOf(b, DigitValue(s[0]), DigitValue(s[1]), 16);
      var rest := FromHex(s[2..]).value;
      assert FromHex(s).value == [b] + rest;
      assert ToHex([b] + rest) == ByteHex(b) + ToHex(rest) by {
        assert ([b] + rest)[1..] == rest;
      }
      LowerSplit(s);
    }
  }

  lemma LowerSplit(s: string)
    requires AllHex(s) && |s| >= 2
    ensures Lower(s) == [LowerDigit(s[0]), LowerDigit(s[1])] + Lower(s[2..])
  {
    var r := [LowerDigit(s[0]), LowerDigit(s[1])] + Lower(s[2..]);
    assert |r| == |s|;
    forall i | 0 <= i < |s| ensures Lower(s)[i] == r[i] {
      if i >= 2 { assert s[2..][i - 2] == s[i]; }
    }
  }

  /** Dropping a character distributes over concatenation. */
  lemma {:induction false} RemoveAppend(a: string, b: string, c: char)
    ensures Remove(a + b, c) == Remove(a, c) + Remove(b, c)
  {
    if a != [] {
      assert (a + b)[1..] == a[1..] + b;
      RemoveAppend(a[1..], b, c);
    } else {
      assert a + b == b;
    }
  }

  /** What `bytes.hex()` writes contains neither `:` nor `-`. */
  lemma ToHexHasNoSeparator(bs: seq<byte>)
    ensures ':' !in ToHex(bs) && '-' !in ToHex(bs)
  {
    ToHexIsLowerHex(bs);
  }
}
