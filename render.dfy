/** Text forms of decoded fields: the link-layer address as colon-joined
    hex pairs with an optional ` (Hex)` marker, and the canonical 8-4-4-4-12
    text of a UUID (section 3 of RFC 4122). */
module Render {
  import opened Wrappers
  import opened Bytes
  import opened Hex

  /** `h[i:i+2] for i in range(0, len(h), 2)`: consecutive two-character
      slices; an odd-length string ends with a one-character slice. */
  function Pairs(h: string): (ps: seq<string>)
  {
    if h == [] then []
    else if |h| <= 2 then [h]
    else [h[..2]] + Pairs(h[2..])
  }

  /** `sep.join(parts)`. */
  function Join(sep: string, parts: seq<string>): (r: string)
  {
    if parts == [] then []
    else if |parts| == 1 then parts[0]
    else parts[0] + sep + Join(sep, parts[1..])
  }

  /** The address text: the lower-case hex of `lla` split into pairs and
      joined with `:`. */
  function ColonHex(lla: seq<byte>): (r: string)
  {
    Join(":", Pairs(ToHex(lla)))
  }

  /** How an address is shown: colon-joined hex pairs, followed by ` (Hex)`
      unless the hardware type is 1 (Ethernet) and the address is 6 bytes. */
  function AddressText(hwType: uint16, lla: seq<byte>): (r: string)
    ensures |r| >= |ColonHex(lla)| && r[..|ColonHex(lla)|] == ColonHex(lla)
    ensures r == ColonHex(lla) <==> hwType == 1 && |lla| == 6
    ensures r != ColonHex(lla) ==> r == ColonHex(lla) + " (Hex)"
  {
    ColonHex(lla) + (if hwType == 1 && |lla| == 6 then "" else " (Hex)")
  }

  /** `str(uuid.UUID(bytes=u))`: the 32 lower-case digits of the 16 bytes,
      grouped 8-4-4-4-12 and separated by `-`. */
  function UuidText(u: seq<byte>): (r: string)
    requires |u| == 16
  {
    ToHex(u[..4]) + "-" + ToHex(u[4..6]) + "-" + ToHex(u[6..8]) + "-"
      + ToHex(u[8..10]) + "-" + ToHex(u[10..])
  }

  // ---------------------------------------------------------------------
  // Properties

  /** One step of the address text: the first byte's pair, then a `:` and
      the rest when there is more. */
  lemma ColonHexUnfold(lla: seq<byte>)
    requires lla != []
    ensures |lla| == 1 ==> ColonHex(lla) == ByteHex(lla[0])
    ensures |lla| > 1 ==> ColonHex(lla) == ByteHex(lla[0]) + ":" + ColonHex(lla[1..])
  {
    var h := ToHex(lla);
    assert h == ByteHex(lla[0]) + ToHex(lla[1..]);
    if |lla| > 1 {
      assert h[..2] == ByteHex(lla[0]) && h[2..] == ToHex(lla[1..]);
      assert Pairs(h) == [ByteHex(lla[0])] + Pairs(ToHex(lla[1..]));
      var ps := Pairs(ToHex(lla[1..]));
      assert ps != [] by { ColonHexNonEmpty(lla[1..]); }
      assert ([ByteHex(lla[0])] + ps)[1..] == ps;
    } else {
      assert lla[1..] == [];
      assert h == ByteHex(lla[0]);
    }
  }

  lemma ColonHexNonEmpty(lla: seq<byte>)
    requires lla != []
    ensures Pairs(ToHex(lla)) != []
  {
  }

  /** An address of n > 0 bytes is shown in 3n - 1 characters, and an empty
      one as the empty string. */
  lemma {:induction false} ColonHexLength(lla: seq<byte>)
    ensures lla == [] ==> ColonHex(lla) == ""
    ensures lla != [] ==> |ColonHex(lla)| == 3 * |lla| - 1
  {
    if lla != [] {
      ColonHexUnfold(lla);
      if |lla| > 1 {
        ColonHexLength(lla[1..]);
      }
    }
  }

  /** Characters 3i and 3i+1 of the address text are the two lower-case
      digits of byte i; character 3i+2 is `:` for every byte but the last. */
  lemma ColonHexAt(lla: seq<byte>, i: nat)
    requires i < |lla|
    ensures |ColonHex(lla)| == 3 * |lla| - 1
    ensures ColonHex(lla)[3 * i] == HexDigit(lla[i] / 16)
    ensures ColonHex(lla)[3 * i + 1] == HexDigit(lla[i] % 16)
    ensures i + 1 < |lla| ==> ColonHex(lla)[3 * i + 2] == ':'
  {
    ColonHexLength(lla);
    ColonHexDigitsAt(lla, i);
    if i + 1 < |lla| {
      ColonHexSeparatorAt(lla, i);
    }
  }

  lemma {:induction false} ColonHexDigitsAt(lla: seq<byte>, i: nat)
    requires i < |lla|
    ensures |ColonHex(lla)| == 3 * |lla| - 1
    ensures ColonHex(lla)[3 * i] == HexDigit(lla[i] / 16)
    ensures ColonHex(lla)[3 * i + 1] == HexDigit(lla[i] % 16)
  {
    ColonHexLength(lla);
    ColonHexUnfold(lla);
    if i == 0 {
      if |lla| > 1 {
        assert ColonHex(lla) == ByteHex(lla[0]) + ":" + ColonHex(lla[1..]);
      }
    } else {
      ColonHexDigitsAt(lla[1..], i - 1);
      var p, t := ByteHex(lla[0]) + ":", ColonHex(lla[1..]);
      assert ColonHex(lla) == p + t;
      ShiftedIndex(p, t, 3 * i);
      ShiftedIndex(p, t, 3 * i + 1);
    }
  }

  lemma {:induction false} ColonHexSeparatorAt(lla: seq<byte>, i: nat)
    requires i + 1 < |lla|
    ensures |ColonHex(lla)| == 3 * |lla| - 1
    ensures ColonHex(lla)[3 * i + 2] == ':'
  {
    ColonHexLength(lla);
    ColonHexUnfold(lla);
    var p, t := ByteHex(lla[0]) + ":", ColonHex(lla[1..]);
    assert ColonHex(lla) == p + t;
    if i > 0 {
      ColonHexSeparatorAt(lla[1..], i - 1);
      ShiftedIndex(p, t, 3 * i + 2);
    }
  }

  lemma ShiftedIndex(p: string, t: string, k: nat)
    requires |p| <= k < |p| + |t|
    ensures (p + t)[k] == t[k - |p|]
  {
  }

  /** Dropping the colons from the address text leaves `bytes.hex()` of the
      address. */
  lemma {:induction false} ColonHexWithoutColons(lla: seq<byte>)
    ensures Remove(ColonHex(lla), ':') == ToHex(lla)
  {
    if lla == [] {
      ColonHexLength(lla);
    } else {
      ColonHexUnfold(lla);
      ToHexHasNoSeparator([lla[0]]);
      assert ToHex([lla[0]]) == ByteHex(lla[0]);
      assert ToHex(lla) == ByteHex(lla[0]) + ToHex(lla[1..]);
      if |lla| > 1 {
        ColonHexWithoutColons(lla[1..]);
        RemoveAppend(ByteHex(lla[0]) + ":", ColonHex(lla[1..]), ':');
        RemoveAppend(ByteHex(lla[0]), ":", ':');
      } else {
        assert lla[1..] == [];
      }
    }
  }

  /** The address text is accepted back as input: dropping its colons and
      parsing the hex gives the address bytes. */
  lemma ColonHexRoundTrip(lla: seq<byte>)
    ensures FromHex(Remove(ColonHex(lla), ':')) == Some(lla)
  {
    ColonHexWithoutColons(lla);
    FromHexOfToHex(lla);
  }

  /** The UUID text has 36 characters, `-` at positions 8, 13, 18 and 23,
      and lower-case digits everywhere else. */
  lemma UuidTextLayout(u: seq<byte>)
    requires |u| == 16
    ensures |UuidText(u)| == 36
    ensures UuidText(u)[8] == '-' && UuidText(u)[13] == '-'
    ensures UuidText(u)[18] == '-' && UuidText(u)[23] == '-'
    ensures forall k | 0 <= k < 36 && k != 8 && k != 13 && k != 18 && k != 23 ::
      IsLowerHexDigit(UuidText(u)[k])
  {
    var a, b, c, d, e := u[..4], u[4..6], u[6..8], u[8..10], u[10..];
    ToHexIsLowerHex(a); ToHexIsLowerHex(b); ToHexIsLowerHex(c);
    ToHexIsLowerHex(d); ToHexIsLowerHex(e);
    var t := UuidText(u);
    forall k | 0 <= k < 36 && k != 8 && k != 13 && k != 18 && k != 23
      ensures IsLowerHexDigit(t[k])
    {
      if k < 8 { assert t[k] == ToHex(a)[k]; }
      else if k < 13 { assert t[k] == ToHex(b)[k - 9]; }
      else if k < 18 { assert t[k] == ToHex(c)[k - 14]; }
      else if k < 23 { assert t[k] == ToHex(d)[k - 19]; }
      else { assert t[k] == ToHex(e)[k - 24]; }
    }
  }

  /** Without its dashes the UUID text is the hex of the 16 bytes in order. */
  lemma UuidTextWithoutDashes(u: seq<byte>)
    requires |u| == 16
    ensures Remove(UuidText(u), '-') == ToHex(u)
  {
    var a, b, c, d, e := u[..4], u[4..6], u[6..8], u[8..10], u[10..];
    var ha, hb, hc, hd, he := ToHex(a), ToHex(b), ToHex(c), ToHex(d), ToHex(e);
    ToHexHasNoSeparator(a);
    calc {
      Remove(UuidText(u), '-');
      Remove(ha + "-" + hb + "-" + hc + "-" + hd + "-" + he, '-');
      { DropDash(ha + "-" + hb + "-" + hc + "-" + hd, he, e); }
      Remove(ha + "-" + hb + "-" + hc + "-" + hd, '-') + he;
      { DropDash(ha + "-" + hb + "-" + hc, hd, d); }
      Remove(ha + "-" + hb + "-" + hc, '-') + hd + he;
      { DropDash(ha + "-" + hb, hc, c); }
      Remove(ha + "-" + hb, '-') + hc + hd + he;
      { DropDash(ha, hb, b); }
      ha + hb + hc + hd + he;
      { ToHexAppend(a, b); ToHexAppend(a + b, c); ToHexAppend(a + b + c, d);
        ToHexAppend(a + b + c + d, e); }
      ToHex(a + b + c + d + e);
      { assert a + b + c + d + e == u; }
      ToHex(u);
    }
  }

  lemma DropDash(x: string, y: string, bs: seq<byte>)
    requires y == ToHex(bs)
    ensures Remove(x + "-" + y, '-') == Remove(x, '-') + y
  {
    ToHexHasNoSeparator(bs);
    RemoveAppend(x + "-", y, '-');
    RemoveAppend(x, "-", '-');
  }
}
