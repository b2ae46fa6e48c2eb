/** The DHCPv6 DUID layouts of section 11 of RFC 8415 (DUID-LLT, DUID-EN,
    DUID-LL) and of RFC 6355 (DUID-UUID), the decoded record, the decode
    errors, and the layout as a function of the input bytes. */
module Duid {
  import opened Wrappers
  import opened Bytes

  const DUID_LLT: uint16 := 1
  const DUID_EN: uint16 := 2
  const DUID_LL: uint16 := 3
  const DUID_UUID: uint16 := 4

  /** Hardware type 1: Ethernet. */
  const HW_ETHERNET: uint16 := 1

  /** Smallest total length per type: 2 (type) + 2 (hardware type) + 4 (time),
      2 + 4 (enterprise number), 2 + 2 (hardware type); a UUID DUID is
      exactly 2 + 16 bytes. */
  const LLT_MIN: nat := 8
  const EN_MIN: nat := 6
  const LL_MIN: nat := 4
  const UUID_LEN: nat := 18

  /** A decoded DUID: the fixed fields and the bytes of the trailing field. */
  datatype DuidRecord =
    | LLT(hwType: uint16, time: uint32, lla: seq<byte>)
    | EN(enterprise: uint32, identifier: seq<byte>)
    | LL(hwType: uint16, lla: seq<byte>)
    | UUID(uuid: seq<byte>)
    | Unknown(code: uint16, rest: seq<byte>)
  {
    /** The type discriminant the record was decoded from. */
    function Code(): uint16 {
      match this
      case LLT(_, _, _) => DUID_LLT
      case EN(_, _) => DUID_EN
      case LL(_, _) => DUID_LL
      case UUID(_) => DUID_UUID
      case Unknown(c, _) => c
    }

    /** A UUID holds 16 bytes, and an unknown record has no known type code. */
    predicate WellFormed() {
      && (UUID? ==> |uuid| == 16)
      && (Unknown? ==> !(DUID_LLT <= code <= DUID_UUID))
    }
  }

  /** Why decoding stopped. */
  datatype DecodeError =
    | MalformedHex                                        // bytes.fromhex refused the text
    | TooShort(length: nat)                               // fewer than 2 bytes
    | Truncated(length: nat)                              // struct.unpack had too few bytes
    | TooShortForType(code: uint16, minimum: nat, actual: nat)
    | LengthMismatch(code: uint16, expected: nat, actual: nat)
    | NegativeLength(code: uint16)                        // defensive guard

  /** The type discriminant: the first two bytes, big-endian. */
  function TypeCode(b: seq<byte>): (code: uint16)
    requires |b| >= 2
  {
    BE16(b[..2])
  }

  /** The layouts, read off the input by position. */
  function Parse(b: seq<byte>): (r: Result<DuidRecord, DecodeError>)
  {
    if |b| < 2 then Failure(Truncated(|b|))
    else
      var code := TypeCode(b);
      if code == DUID_LLT then
        if |b| < LLT_MIN then Failure(TooShortForType(code, LLT_MIN, |b|))
        else Success(LLT(BE16(b[2..4]), BE32(b[4..8]), b[8..]))
      else if code == DUID_EN then
        if |b| < EN_MIN then Failure(TooShortForType(code, EN_MIN, |b|))
        else Success(EN(BE32(b[2..6]), b[6..]))
      else if code == DUID_LL then
        if |b| < LL_MIN then Failure(TooShortForType(code, LL_MIN, |b|))
        else Success(LL(BE16(b[2..4]), b[4..]))
      else if code == DUID_UUID then
        if |b| != UUID_LEN then Failure(LengthMismatch(code, UUID_LEN, |b|))
        else Success(UUID(b[2..]))
      else Success(Unknown(code, b[2..]))
  }

  /** The bytes of a record: the inverse of Parse, field after field. */
  function Encode(r: DuidRecord): (b: seq<byte>)
  {
    U16Bytes(r.Code()) +
    match r
    case LLT(hw, t, lla) => U16Bytes(hw) + U32Bytes(t) + lla
    case EN(n, id) => U32Bytes(n) + id
    case LL(hw, lla) => U16Bytes(hw) + lla
    case UUID(u) => u
    case Unknown(_, rest) => rest
  }

  /** `duid_types.get(code, 'Unknown')`. */
  function TypeName(code: uint16): (name: string)
    ensures name == "Unknown" <==> !(DUID_LLT <= code <= DUID_UUID)
  {
    if code == DUID_LLT then "DUID-LLT - Link-layer address plus time"
    else if code == DUID_EN then "DUID-EN - Vendor-assigned unique ID based on Enterprise Number"
    else if code == DUID_LL then "DUID-LL - Link-layer address"
    else if code == DUID_UUID then "DUID-UUID - Universally Unique IDentifier"
    else "Unknown"
  }

  /** `hw_types.get(code, 'Unknown')`. */
  function HardwareName(code: uint16): (name: string)
    ensures name == "Unknown" <==> code != HW_ETHERNET
  {
    if code == HW_ETHERNET then "Ethernet" else "Unknown"
  }

  // ---------------------------------------------------------------------
  // Properties

  /** The type code alone selects the layout: a decoded record carries the
      code it was read from, and it is well formed. */
  lemma ParseCode(b: seq<byte>)
    requires Parse(b).Success?
    ensures |b| >= 2 && Parse(b).value.Code() == TypeCode(b)
    ensures Parse(b).value.WellFormed()
  {
  }

  /** Decoding fails exactly when the input cannot hold the type code, or is
      shorter than the type's minimum, or is not 18 bytes for a UUID. */
  lemma ParseFails(b: seq<byte>)
    ensures Parse(b).Failure? <==>
      || |b| < 2
      || (TypeCode(b) == DUID_LLT && |b| < LLT_MIN)
      || (TypeCode(b) == DUID_EN && |b| < EN_MIN)
      || (TypeCode(b) == DUID_LL && |b| < LL_MIN)
      || (TypeCode(b) == DUID_UUID && |b| != UUID_LEN)
  {
  }

  /** DUID-LLT: refused below 8 bytes; otherwise hardware type from bytes
      2..4, time from bytes 4..8 and the address is the remaining |b| - 8. */
  lemma LltLayout(b: seq<byte>)
    requires |b| >= 2 && TypeCode(b) == DUID_LLT
    ensures Parse(b).Failure? <==> |b| < 8
    ensures Parse(b).Failure? ==> Parse(b).error == TooShortForType(DUID_LLT, 8, |b|)
    ensures Parse(b).Success? ==>
      && Parse(b).value.LLT?
      && Parse(b).value.hwType == BE16(b[2..4])
      && Parse(b).value.time == BE32(b[4..8])
      && Parse(b).value.lla == b[8..] && |Parse(b).value.lla| == |b| - 8
  {
  }

  /** DUID-EN: refused below 6 bytes; otherwise the enterprise number from
      bytes 2..6 and the identifier is the remaining |b| - 6. */
  lemma EnLayout(b: seq<byte>)
    requires |b| >= 2 && TypeCode(b) == DUID_EN
    ensures Parse(b).Failure? <==> |b| < 6
    ensures Parse(b).Failure? ==> Parse(b).error == TooShortForType(DUID_EN, 6, |b|)
    ensures Parse(b).Success? ==>
      && Parse(b).value.EN?
      && Parse(b).value.enterprise == BE32(b[2..6])
      && Parse(b).value.identifier == b[6..] && |Parse(b).value.identifier| == |b| - 6
  {
  }

  /** DUID-LL: refused below 4 bytes; otherwise the hardware type from bytes
      2..4 and the address is the remaining |b| - 4. */
  lemma LlLayout(b: seq<byte>)
    requires |b| >= 2 && TypeCode(b) == DUID_LL
    ensures Parse(b).Failure? <==> |b| < 4
    ensures Parse(b).Failure? ==> Parse(b).error == TooShortForType(DUID_LL, 4, |b|)
    ensures Parse(b).Success? ==>
      && Parse(b).value.LL?
      && Parse(b).value.hwType == BE16(b[2..4])
      && Parse(b).value.lla == b[4..] && |Parse(b).value.lla| == |b| - 4
  {
  }

  /** DUID-UUID: accepted at exactly 18 bytes and no other length (so 17
      and 19 are both refused); the UUID is bytes 2..18. */
  lemma UuidLayout(b: seq<byte>)
    requires |b| >= 2 && TypeCode(b) == DUID_UUID
    ensures Parse(b).Success? <==> |b| == 18
    ensures Parse(b).Failure? ==> Parse(b).error == LengthMismatch(DUID_UUID, 18, |b|)
    ensures Parse(b).Success? ==> Parse(b).value == UUID(b[2..18]) && |b[2..18]| == 16
  {
  }

  /** Any other type code is accepted at any length and keeps bytes 2.. as
      they are. */
  lemma UnknownLayout(b: seq<byte>)
    requires |b| >= 2 && !(DUID_LLT <= TypeCode(b) <= DUID_UUID)
    ensures Parse(b) == Success(Unknown(TypeCode(b), b[2..]))
  {
  }

  /** Every well-formed record is decoded back from its bytes. */
  lemma ParseOfEncode(r: DuidRecord)
    requires r.WellFormed()
    ensures Parse(Encode(r)) == Success(r)
  {
    var b := Encode(r);
    assert b[..2] == U16Bytes(r.Code());
    BE16OfU16Bytes(r.Code());
    match r
    case LLT(hw, t, lla) =>
      assert b[2..4] == U16Bytes(hw) && b[4..8] == U32Bytes(t) && b[8..] == lla;
      BE16OfU16Bytes(hw);
      BE32OfU32Bytes(t);
    case EN(n, id) =>
      assert b[2..6] == U32Bytes(n) && b[6..] == id;
      BE32OfU32Bytes(n);
    case LL(hw, lla) =>
      assert b[2..4] == U16Bytes(hw) && b[4..] == lla;
      BE16OfU16Bytes(hw);
    case UUID(u) =>
      assert b[2..] == u;
    case Unknown(_, rest) =>
      assert b[2..] == rest;
  }

  /** Decoding loses nothing: the fields of a decoded record, encoded again,
      are exactly the input bytes. */
  lemma EncodeOfParse(b: seq<byte>)
    requires Parse(b).Success?
    ensures Encode(Parse(b).value) == b
  {
    var r := Parse(b).value;
    U16BytesOfBE16(b[..2]);
    match r
    case LLT(hw, t, lla) =>
      U16BytesOfBE16(b[2..4]);
      U32BytesOfBE32(b[4..8]);
      assert b == b[..2] + b[2..4] + b[4..8] + b[8..];
    case EN(n, id) =>
      U32BytesOfBE32(b[2..6]);
      assert b == b[..2] + b[2..6] + b[6..];
    case LL(hw, lla) =>
      U16BytesOfBE16(b[2..4]);
      assert b == b[..2] + b[2..4] + b[4..];
    case UUID(u) =>
      assert b == b[..2] + b[2..];
    case Unknown(_, rest) =>
      assert b == b[..2] + b[2..];
  }

  /** Parse and Encode are inverse: `b` decodes to `r` exactly when `r` is
      well formed and encodes to `b`. */
  lemma ParseIsInverseOfEncode(b: seq<byte>, r: DuidRecord)
    ensures Parse(b) == Success(r) <==> r.WellFormed() && Encode(r) == b
  {
    if Parse(b) == Success(r) {
      ParseCode(b);
      EncodeOfParse(b);
    }
    if r.WellFormed() && Encode(r) == b {
      ParseOfEncode(r);
    }
  }
}
