/** The decoding run: the input text is normalised into bytes, the bytes
    are read through a stream cursor (`io.BytesIO`) field by field, and the
    bytes the cursor did not reach are reported as trailing data. */
module Decoder {
  import opened Wrappers
  import opened Bytes
  import opened Hex
  import opened Duid
  import opened Render

  /** A read-only byte stream with a cursor, as `io.BytesIO` over the input. */
  class ByteStream {
    const data: seq<byte>
    var pos: nat

    ghost predicate Valid()
      reads this
    {
      pos <= |data|
    }

    constructor (bytes: seq<byte>)
      ensures Valid() && data == bytes && pos == 0
    {
      data := bytes;
      pos := 0;
    }

    /** `read(n)`: up to `n` bytes from the cursor on, or everything left
        when `n` is negative; the cursor moves past what was returned. */
    method Read(n: int) returns (chunk: seq<byte>)
      requires Valid()
      modifies this
      ensures Valid()
      ensures pos == if n < 0 || old(pos) + n > |data| then |data| else old(pos) + n
      ensures chunk == data[old(pos)..pos]
    {
      var end := if n < 0 || pos + n > |data| then |data| else pos + n;
      chunk := data[pos..end];
      pos := end;
    }
  }

  /** A successful decode: the record and whatever the final `read()` found
      after it. */
  datatype Report = Report(record: DuidRecord, trailing: seq<byte>)

  /** The decoder body: the type code, then the fields of its layout, each
      read from the cursor; then the trailing-byte check. */
  method Decode(bytes: seq<byte>) returns (r: Result<Report, DecodeError>)
    ensures r.Failure? <==> Parse(bytes).Failure?
    ensures r.Failure? ==> r.error == Parse(bytes).error
    ensures r.Success? ==> r.value.record == Parse(bytes).value
    ensures r.Success? ==> r.value.trailing == []
  {
    var data := new ByteStream(bytes);
    var total := |bytes|;
    var codeBytes := data.Read(2);
    if |codeBytes| != 2 {
      return Failure(Truncated(|codeBytes|));
    }
    assert codeBytes == bytes[..2];
    var code := BE16(codeBytes);
    var record: DuidRecord;
    if code == DUID_LLT {
      if total < LLT_MIN {
        return Failure(TooShortForType(code, LLT_MIN, total));
      }
      var hwBytes := data.Read(2);
      var hwType := BE16(hwBytes);
      var timeBytes := data.Read(4);
      var time := BE32(timeBytes);
      var addressLen := total - 8;
      if addressLen < 0 {
        assert false;
        return Failure(NegativeLength(code));
      }
      var lla := data.Read(addressLen);
      record := LLT(hwType, time, lla);
    } else if code == DUID_EN {
      if total < EN_MIN {
        return Failure(TooShortForType(code, EN_MIN, total));
      }
      var numberBytes := data.Read(4);
      var enterprise := BE32(numberBytes);
      var identifierLen := total - 6;
      if identifierLen < 0 {
        assert false;
        return Failure(NegativeLength(code));
      }
      var identifier := data.Read(identifierLen);
      record := EN(enterprise, identifier);
    } else if code == DUID_LL {
      if total < LL_MIN {
        return Failure(TooShortForType(code, LL_MIN, total));
      }
      var hwBytes := data.Read(2);
      var hwType := BE16(hwBytes);
      var addressLen := total - 4;
      if addressLen < 0 {
        assert false;
        return Failure(NegativeLength(code));
      }
      var lla := data.Read(addressLen);
      record := LL(hwType, lla);
    } else if code == DUID_UUID {
      if total != UUID_LEN {
        return Failure(LengthMismatch(code, UUID_LEN, total));
      }
      var uuid := data.Read(16);
      record := UUID(uuid);
    } else {
      var rest := data.Read(-1);
      record := Unknown(code, rest);
    }
    var trailing := data.Read(-1);
    return Success(Report(record, trailing));
  }

  /** The input check: colons dropped, the rest parsed as hex, and fewer
      than two bytes refused. */
  function Normalize(text: string): (r: Result<seq<byte>, DecodeError>)
    ensures r.Success? ==> |r.value| >= 2 && 2 * |r.value| == |Remove(text, ':')|
    ensures r.Failure? ==> r.error == MalformedHex || r.error.TooShort?
  {
    match FromHex(Remove(text, ':'))
    case None => Failure(MalformedHex)
    case Some(bytes) =>
      if |bytes| < 2 then Failure(TooShort(|bytes|)) else Success(bytes)
  }

  /** The whole run on the command-line text: input check, then the decoder. */
  method DecodeText(text: string) returns (r: Result<Report, DecodeError>)
    ensures Normalize(text).Failure? ==> r == Failure(Normalize(text).error)
    ensures Normalize(text).Success? ==>
      && (r.Failure? <==> Parse(Normalize(text).value).Failure?)
      && (r.Failure? ==> r.error == Parse(Normalize(text).value).error)
      && (r.Success? ==> r.value == Report(Parse(Normalize(text).value).value, []))
  {
    var input := Normalize(text);
    if input.Failure? {
      return Failure(input.error);
    }
    r := Decode(input.value);
  }

  // ---------------------------------------------------------------------
  // Properties

  /** The input is accepted exactly when, without its colons, it is an
      even number of hex digits (either case) and at least four of them. */
  lemma NormalizeAccepts(text: string)
    ensures Normalize(text).Success? <==>
      var s := Remove(text, ':'); |s| % 2 == 0 && AllHex(s) && |s| >= 4
    ensures Normalize(text).Failure? ==>
      var s := Remove(text, ':');
      Normalize(text).error == if |s| % 2 == 0 && AllHex(s) then TooShort(|s| / 2) else MalformedHex
  {
    FromHexAccepts(Remove(text, ':'));
  }

  /** Each pair of digits becomes one byte, in order. */
  lemma NormalizeBytes(text: string, i: nat)
    requires Normalize(text).Success? && i < |Normalize(text).value|
    ensures var s := Remove(text, ':');
      && 2 * |Normalize(text).value| == |s|
      && IsHexDigit(s[2 * i]) && IsHexDigit(s[2 * i + 1])
      && Normalize(text).value[i] == PairValue(s[2 * i], s[2 * i + 1])
  {
    FromHexAt(Remove(text, ':'), i);
  }

  /** Writing the accepted bytes back as hex gives the input without its
      colons, in lower case. */
  lemma NormalizeRoundTrip(text: string)
    requires Normalize(text).Success?
    ensures AllHex(Remove(text, ':'))
    ensures ToHex(Normalize(text).value) == Lower(Remove(text, ':'))
  {
    ToHexOfFromHex(Remove(text, ':'));
  }

  /** Bytes of at least two written as hex, with or without colons, come
      back unchanged. */
  lemma NormalizeOfToHex(bytes: seq<byte>)
    requires |bytes| >= 2
    ensures Normalize(ToHex(bytes)) == Success(bytes)
    ensures Normalize(ColonHex(bytes)) == Success(bytes)
  {
    ToHexHasNoSeparator(bytes);
    FromHexOfToHex(bytes);
    ColonHexRoundTrip(bytes);
  }
}
