/**
 * WebSocketMessage: the older, bit-level frame decoder that the listener
 * drives. Each call to process appends a run of bits to rawMessage, fills in
 * the set-once header fields whose bits have all arrived, reads the masking
 * key, and declares the message complete on the call that leaves exactly the
 * declared number of payload octets after the header.
 *
 * Because the completion and key checks look at the size reached by each
 * call, what a call does depends on how the bits were split into calls. The
 * class is therefore specified by Step, the effect of one call on the
 * decoder's fields given every bit received so far, and Reachable states what
 * holds after any split of the same bits.
 */
module Messages {
  import opened Common
  import opened NumberBaseConverter
  import opened Bits
  import ByteLists
  import FrameLayout
  import Frames

  /** WebSocketMessageState. */
  datatype MessageState = Incomplete | Error | Complete

  /** Value of a numeric field that has not been read yet. */
  const NOT_SET: int := -1

  /** Header bits before the masking key, for each payload-length scheme. */
  const PLS_SMALL: int := 16
  const PLS_MEDIUM: int := 32
  const PLS_LARGE: int := 80

  /**
   * The fields of a WebSocketMessage other than rawMessage: null is None,
   * an unset number is NOT_SET, maskingKey and payload hold their bits.
   */
  datatype Fields = Fields(
    state: MessageState,
    fin: Option<bool>,
    rsv1: Option<bool>,
    rsv2: Option<bool>,
    rsv3: Option<bool>,
    opcode: int,
    masked: Option<bool>,
    placeholder: int,
    lengthBytes: int,
    maskingKey: Option<seq<bool>>,
    headerSize: int,
    payload: Option<seq<bool>>)

  /** The fields of a new WebSocketMessage. */
  const Initial: Fields :=
    Fields(Incomplete, None, None, None, None, NOT_SET, None, NOT_SET, NOT_SET, None, NOT_SET, None)

  /** A masking key, once read, is 32 bits (getSubset(headerSize, headerSize + 32)). */
  predicate WellFormed(f: Fields)
  {
    f.maskingKey.Some? ==> |f.maskingKey.value| == 32
  }

  /** Bit j of the key stream: bit j mod 8 of key octet (j div 8) mod 4. */
  function KeyBit(key: seq<bool>, j: nat): bool
    requires |key| == 32
  {
    key[KeyIndex(j)]
  }

  /** Where bit j of the key stream sits in the 32-bit key. */
  function KeyIndex(j: nat): (r: nat)
    ensures r < 32 && r % 8 == j % 8
  {
    j / 8 % 4 * 8 + j % 8
  }

  /**
   * The masking transform of section 5.3 of RFC 6455 on bits: payload octet
   * i is XORed with key octet i mod 4.
   */
  function UnmaskBits(p: seq<bool>, key: seq<bool>): (r: seq<bool>)
    requires |key| == 32
    ensures |r| == |p|
  {
    seq(|p|, j requires 0 <= j < |p| => p[j] != KeyBit(key, j))
  }

  // One call to process, phase by phase, on the bits received so far.

  /** FIN and RSV1-3, bits 0 to 3, each once it has arrived. */
  function ReadFinRsv(f: Fields, raw: seq<bool>): Fields
  {
    var n := |raw|;
    f.(fin := if f.fin.None? && n >= 1 then Some(raw[0]) else f.fin,
       rsv1 := if f.rsv1.None? && n >= 2 then Some(raw[1]) else f.rsv1,
       rsv2 := if f.rsv2.None? && n >= 3 then Some(raw[2]) else f.rsv2,
       rsv3 := if f.rsv3.None? && n >= 4 then Some(raw[3]) else f.rsv3)
  }

  /** The opcode, bits 4 to 7 as an unsigned number; it is not checked against the known opcodes. */
  function ReadOpcode(f: Fields, raw: seq<bool>): Fields
  {
    if f.opcode == NOT_SET && |raw| >= 8 then f.(opcode := Saturate(Value(raw[4..8]))) else f
  }

  /** MASK, bit 8; an unmasked message puts the decoder in ERROR. */
  function ReadMask(f: Fields, raw: seq<bool>): Fields
  {
    if f.masked.None? && |raw| >= 9 then
      f.(masked := Some(raw[8]), state := if raw[8] then f.state else Error)
    else f
  }

  /** The 7-bit payload length placeholder, bits 9 to 15. */
  function ReadPlaceholder(f: Fields, raw: seq<bool>): Fields
  {
    if f.placeholder == NOT_SET && |raw| >= PLS_SMALL then
      f.(placeholder := Saturate(Value(raw[9..PLS_SMALL])))
    else f
  }

  /**
   * The payload length and the header size without the key, as written:
   * both extended schemes convert from bit 9, the placeholder included.
   */
  function ReadLength(f: Fields, raw: seq<bool>): Fields
  {
    var n := |raw|;
    if f.lengthBytes == NOT_SET && f.placeholder <= 125 && f.placeholder != NOT_SET then
      f.(lengthBytes := f.placeholder, headerSize := PLS_SMALL)
    else if f.lengthBytes == NOT_SET && f.placeholder == 126 && n >= PLS_MEDIUM then
      f.(lengthBytes := Saturate(Value(raw[9..PLS_MEDIUM])), headerSize := PLS_MEDIUM)
    else if f.lengthBytes == NOT_SET && f.placeholder == 127 && n >= PLS_LARGE then
      f.(lengthBytes := Saturate(Value(raw[9..PLS_LARGE])), headerSize := PLS_LARGE)
    else f
  }

  /** Every header phase before the masking key. */
  function ReadHeader(f: Fields, raw: seq<bool>): (r: Fields)
    ensures r.maskingKey == f.maskingKey && r.payload == f.payload
  {
    ReadLength(ReadPlaceholder(ReadMask(ReadOpcode(ReadFinRsv(f, raw), raw), raw), raw), raw)
  }

  /**
   * The masking key, once 32 bits follow the header. The guard does not
   * check that headerSize is set, and getSubset throws for a start of -1.
   */
  function ReadKey(f: Fields, raw: seq<bool>): (r: Result<Fields>)
    ensures WellFormed(f) && r.Ok? ==> WellFormed(r.value)
  {
    if f.masked == Some(true) && f.maskingKey.None? && |raw| >= f.headerSize + 32 then
      if f.headerSize < 0 then Err(IndexOutOfBounds)
      else Ok(f.(maskingKey := Some(raw[f.headerSize..f.headerSize + 32]), headerSize := f.headerSize + 32))
    else Ok(f)
  }

  /**
   * The completion check. getSubset(headerSize) throws unless a payload bit
   * follows the header; a missing key is dereferenced after payload has
   * been reset to an empty Binary.
   */
  function Finish(f: Fields, raw: seq<bool>): (Fields, Result<MessageState>)
    requires WellFormed(f)
  {
    var n := |raw|;
    if n - f.headerSize != f.lengthBytes * 8 then (f, Ok(f.state))
    else if !(0 <= f.headerSize < n) then (f, Err(IndexOutOfBounds))
    else if f.maskingKey.None? then (f.(payload := Some([])), Err(NullPointer))
    else
      var p := UnmaskBits(raw[f.headerSize..], f.maskingKey.value);
      (f.(payload := Some(p), state := Complete), Ok(Complete))
  }

  /**
   * One call to process, given the fields before it and every bit received
   * including this call's: the new fields, and the state returned or the
   * exception thrown (the fields updated before a throw stay updated).
   */
  function Step(f: Fields, raw: seq<bool>): (r: (Fields, Result<MessageState>))
    requires WellFormed(f)
    ensures WellFormed(r.0)
  {
    var g := ReadHeader(f, raw);
    match ReadKey(g, raw)
    case Err(e) => (g, Err(e))
    case Ok(h) => Finish(h, raw)
  }

  // What the bits mean, independently of how they were split into calls.

  /** The 7-bit placeholder, once bit 15 has arrived. */
  function Placeholder(raw: seq<bool>): int
  {
    if |raw| >= PLS_SMALL then Value(raw[9..PLS_SMALL]) else NOT_SET
  }

  /** The header size without the key, once the length scheme's bits have arrived. */
  function BaseSize(raw: seq<bool>): int
  {
    var p := Placeholder(raw);
    if 0 <= p <= 125 then PLS_SMALL
    else if p == 126 && |raw| >= PLS_MEDIUM then PLS_MEDIUM
    else if p == 127 && |raw| >= PLS_LARGE then PLS_LARGE
    else NOT_SET
  }

  /** The payload length in octets that the decoder computes, once its bits have arrived. */
  function LengthAsWritten(raw: seq<bool>): int
  {
    var p := Placeholder(raw);
    if 0 <= p <= 125 then p
    else if p == 126 && |raw| >= PLS_MEDIUM then Saturate(Value(raw[9..PLS_MEDIUM]))
    else if p == 127 && |raw| >= PLS_LARGE then Saturate(Value(raw[9..PLS_LARGE]))
    else NOT_SET
  }

  /** The flag fields and MASK are their bits once these have arrived; ERROR means unmasked. */
  ghost predicate FlagsAgree(f: Fields, raw: seq<bool>)
  {
    var n := |raw|;
    && f.fin == (if n >= 1 then Some(raw[0]) else None)
    && f.rsv1 == (if n >= 2 then Some(raw[1]) else None)
    && f.rsv2 == (if n >= 3 then Some(raw[2]) else None)
    && f.rsv3 == (if n >= 4 then Some(raw[3]) else None)
    && f.opcode == (if n >= 8 then Value(raw[4..8]) else NOT_SET)
    && f.masked == (if n >= 9 then Some(raw[8]) else None)
    && (f.state == Error <==> f.masked == Some(false))
  }

  /** The length fields are their bits; the key, once read, is the 32 bits after the length. */
  ghost predicate LengthAgrees(f: Fields, raw: seq<bool>)
  {
    var base := BaseSize(raw);
    && f.placeholder == Placeholder(raw)
    && f.lengthBytes == LengthAsWritten(raw)
    && (f.maskingKey.None? ==> f.headerSize == base)
    && (f.maskingKey.Some? ==>
          && |f.maskingKey.value| == 32
          && f.masked == Some(true) && 0 <= base && f.headerSize == base + 32 <= |raw|
          && f.maskingKey.value == raw[base..f.headerSize])
  }

  /** COMPLETE means the payload is the unmasked octets after the key. */
  ghost predicate PayloadAgrees(f: Fields, raw: seq<bool>)
  {
    && (f.state == Complete ==>
          && f.maskingKey.Some? && |f.maskingKey.value| == 32 && 0 < f.lengthBytes
          && 0 <= f.headerSize && f.headerSize + 8 * f.lengthBytes <= |raw|
          && f.payload == Some(UnmaskBits(raw[f.headerSize..f.headerSize + 8 * f.lengthBytes], f.maskingKey.value)))
    && (f.state != Complete ==> f.payload == None || f.payload == Some([]))
  }

  /**
   * What the fields are after the bits raw have been processed, however
   * they were split into calls, and whether or not some calls threw: every
   * set-once header field is its bits, the key (once read) is the 32 bits
   * after the length, ERROR means unmasked, and COMPLETE means the payload
   * is the unmasked octets after the key.
   */
  ghost predicate Reachable(f: Fields, raw: seq<bool>)
  {
    WellFormed(f) && FlagsAgree(f, raw) && LengthAgrees(f, raw) && PayloadAgrees(f, raw)
  }

  class WebSocketMessage {
    var state: MessageState
    var rawMessage: Binary
    var fin: Option<bool>
    var rsv1: Option<bool>
    var rsv2: Option<bool>
    var rsv3: Option<bool>
    var opcode: int
    var masked: Option<bool>
    var payloadLengthPlaceholder: int
    var payloadLengthBytes: int
    var maskingKey: Option<seq<bool>>
    var headerSize: int
    var payload: Option<seq<bool>>

    /** The decoder's fields as a value. */
    function Decoded(): Fields
      reads this
    {
      Fields(state, fin, rsv1, rsv2, rsv3, opcode, masked, payloadLengthPlaceholder,
             payloadLengthBytes, maskingKey, headerSize, payload)
    }

    /** A new message: INCOMPLETE, no bits, every field unset. */
    constructor ()
      ensures Decoded() == Initial && rawMessage.bin == [] && fresh(rawMessage)
    {
      state := Incomplete;
      rawMessage := new Binary.Empty();
      fin, rsv1, rsv2, rsv3 := None, None, None, None;
      opcode := NOT_SET;
      masked := None;
      payloadLengthPlaceholder := NOT_SET;
      payloadLengthBytes := NOT_SET;
      maskingKey := None;
      headerSize := NOT_SET;
      payload := None;
    }

    /**
     * process(bin): append the bits, then advance the decoder as Step says,
     * returning the state or throwing.
     */
    method Process(bin: Binary) returns (r: Result<MessageState>)
      requires WellFormed(Decoded())
      modifies this, rawMessage
      ensures rawMessage == old(rawMessage)
      ensures rawMessage.bin == old(rawMessage.bin) + old(bin.bin)
      ensures (Decoded(), r) == Step(old(Decoded()), rawMessage.bin)
      ensures old(Reachable(Decoded(), rawMessage.bin)) ==> Reachable(Decoded(), rawMessage.bin)
    {
      ghost var before, received, added := Decoded(), rawMessage.bin, bin.bin;
      if Reachable(before, received) {
        StepKeepsReachable(before, received, added);
      }
      rawMessage.Append(bin);
      ghost var raw := rawMessage.bin;
      ReadHeaderBits();
      ghost var header := Decoded();
      assert header == ReadHeader(before, raw);
      var threw := ReadMaskingKey();
      if threw.Some? {
        assert ReadKey(header, raw) == Err(threw.value);
        return Err(threw.value);
      }
      assert ReadKey(header, raw) == Ok(Decoded());
      r := CompleteIfDone();
    }

    /** The header phases of process, up to the payload length. */
    method ReadHeaderBits()
      modifies this
      ensures rawMessage == old(rawMessage)
      ensures Decoded() == ReadHeader(old(Decoded()), rawMessage.bin)
    {
      ReadFlagBits();
      ReadOpcodeBits();
      ReadMaskBit();
      ReadPayloadLength();
    }

    method ReadFlagBits()
      modifies this
      ensures rawMessage == old(rawMessage)
      ensures Decoded() == ReadFinRsv(old(Decoded()), rawMessage.bin)
    {
      var size := rawMessage.Size();
      ReadFinRsv1(size);
      ReadRsv2Rsv3(size);
    }

    /** FIN and RSV1, each once it has arrived. */
    method ReadFinRsv1(size: int)
      requires size == |rawMessage.bin|
      modifies this
      ensures rawMessage == old(rawMessage)
      ensures Decoded() == old(Decoded()).(
                fin := if old(fin).None? && size >= 1 then Some(rawMessage.bin[0]) else old(fin),
                rsv1 := if old(rsv1).None? && size >= 2 then Some(rawMessage.bin[1]) else old(rsv1))
    {
      if fin.None? && size >= 1 {
        var bit := GetBit(rawMessage.bin, 0);
        fin := Some(bit.value);
      }
      if rsv1.None? && size >= 2 {
        var bit := GetBit(rawMessage.bin, 1);
        rsv1 := Some(bit.value);
      }
    }

    /** RSV2 and RSV3, each once it has arrived. */
    method ReadRsv2Rsv3(size: int)
      requires size == |rawMessage.bin|
      modifies this
      ensures rawMessage == old(rawMessage)
      ensures Decoded() == old(Decoded()).(
                rsv2 := if old(rsv2).None? && size >= 3 then Some(rawMessage.bin[2]) else old(rsv2),
                rsv3 := if old(rsv3).None? && size >= 4 then Some(rawMessage.bin[3]) else old(rsv3))
    {
      if rsv2.None? && size >= 3 {
        var bit := GetBit(rawMessage.bin, 2);
        rsv2 := Some(bit.value);
      }
      if rsv3.None? && size >= 4 {
        var bit := GetBit(rawMessage.bin, 3);
        rsv3 := Some(bit.value);
      }
    }

    method ReadOpcodeBits()
      modifies this
      ensures rawMessage == old(rawMessage)
      ensures Decoded() == ReadOpcode(old(Decoded()), rawMessage.bin)
    {
      var size := rawMessage.Size();
      if opcode == NOT_SET && size >= 8 {
        var bits := GetSubset(rawMessage.bin, 4, 8);
        assert bits.value == rawMessage.bin[4..8];
        opcode := BinToDec(bits.value);
      }
    }

    method ReadMaskBit()
      modifies this
      ensures rawMessage == old(rawMessage)
      ensures Decoded() == ReadMask(old(Decoded()), rawMessage.bin)
    {
      var size := rawMessage.Size();
      if masked.None? && size >= 9 {
        var bit := GetBit(rawMessage.bin, 8);
        masked := Some(bit.value);
        if !bit.value {
          state := Error;
        }
      }
    }

    method ReadPayloadLength()
      modifies this
      ensures rawMessage == old(rawMessage)
      ensures Decoded() == ReadLength(ReadPlaceholder(old(Decoded()), rawMessage.bin), rawMessage.bin)
    {
      var size := rawMessage.Size();
      if payloadLengthPlaceholder == NOT_SET && size >= PLS_SMALL {
        var bits := GetSubset(rawMessage.bin, 9, PLS_SMALL);
        assert bits.value == rawMessage.bin[9..PLS_SMALL];
        payloadLengthPlaceholder := BinToDec(bits.value);
      }
      if payloadLengthBytes == NOT_SET && payloadLengthPlaceholder <= 125 && payloadLengthPlaceholder != NOT_SET {
        payloadLengthBytes := payloadLengthPlaceholder;
        headerSize := PLS_SMALL;
      }
      if payloadLengthBytes == NOT_SET && payloadLengthPlaceholder == 126 && size >= PLS_MEDIUM {
        var bits := GetSubset(rawMessage.bin, 9, PLS_MEDIUM);
        assert bits.value == rawMessage.bin[9..PLS_MEDIUM];
        payloadLengthBytes := BinToDec(bits.value);
        headerSize := PLS_MEDIUM;
      }
      if payloadLengthBytes == NOT_SET && payloadLengthPlaceholder == 127 && size >= PLS_LARGE {
        var bits := GetSubset(rawMessage.bin, 9, PLS_LARGE);
        assert bits.value == rawMessage.bin[9..PLS_LARGE];
        payloadLengthBytes := BinToDec(bits.value);
        headerSize := PLS_LARGE;
      }
    }

    /** Reads the key when its bits are there; returns the exception it throws, if any. */
    method ReadMaskingKey() returns (threw: Option<Exception>)
      modifies this
      ensures rawMessage == old(rawMessage)
      ensures match ReadKey(old(Decoded()), rawMessage.bin)
              case Ok(h) => threw == None && Decoded() == h
              case Err(e) => threw == Some(e) && Decoded() == old(Decoded())
    {
      var size := rawMessage.Size();
      if masked == Some(true) && maskingKey.None? && size >= headerSize + 32 {
        var key := GetSubset(rawMessage.bin, headerSize, headerSize + 32);
        if key.Err? {
          return Some(key.error);
        }
        assert key.value == rawMessage.bin[headerSize..headerSize + 32];
        maskingKey := Some(key.value);
        headerSize := headerSize + 32;
      }
      return None;
    }

    method CompleteIfDone() returns (r: Result<MessageState>)
      requires WellFormed(Decoded())
      modifies this
      ensures rawMessage == old(rawMessage)
      ensures (Decoded(), r) == Finish(old(Decoded()), rawMessage.bin)
    {
      var size := rawMessage.Size();
      if size - headerSize == payloadLengthBytes * 8 {
        var encoded := GetSubsetFrom(rawMessage.bin, headerSize);
        if encoded.Err? {
          return Err(encoded.error);
        }
        payload := Some([]);
        if maskingKey.None? {
          return Err(NullPointer);
        }
        var unmasked := UnmaskPayload(encoded.value, maskingKey.value);
        payload := Some(unmasked);
        state := Complete;
      }
      return Ok(state);
    }

    /** formMessage(string): clears FIN and RSV1-3; the rest is unfinished in the source. */
    method FormMessage(text: string)
      modifies this
      ensures Decoded() == old(Decoded()).(fin := Some(false), rsv1 := Some(false), rsv2 := Some(false), rsv3 := Some(false))
      ensures rawMessage == old(rawMessage)
    {
      fin, rsv1, rsv2, rsv3 := Some(false), Some(false), Some(false), Some(false);
    }
  }

  /**
   * The unmasking loop of process: split payload and key into octets and
   * append payload octet i XOR key octet i mod 4.
   */
  method UnmaskPayload(encoded: seq<bool>, key: seq<bool>) returns (p: seq<bool>)
    requires |key| == 32 && |encoded| % 8 == 0
    ensures p == UnmaskBits(encoded, key)
  {
    var keyOctets := ToBinaryOctetArray(key);
    var payloadOctets := ToBinaryOctetArray(encoded);
    p := [];
    var octet := 0;
    while octet < |payloadOctets|
      invariant 0 <= octet <= |payloadOctets|
      invariant |p| == 8 * octet
      invariant forall j :: 0 <= j < 8 * octet ==> p[j] == (encoded[j] != KeyBit(key, j))
    {
      var x := LogicalXor(payloadOctets[octet], keyOctets[octet % 4]);
      UnmaskOctet(encoded, key, octet, p, x.value);
      p := p + x.value;
      octet := octet + 1;
    }
  }

  /**
   * Appending payload octet i XOR key octet i mod 4 to the first i unmasked
   * octets gives the first i + 1.
   */
  lemma UnmaskOctet(encoded: seq<bool>, key: seq<bool>, i: nat, p: seq<bool>, x: seq<bool>)
    requires |key| == 32 && 8 * i + 8 <= |encoded| && |p| == 8 * i
    requires forall j :: 0 <= j < 8 * i ==> p[j] == (encoded[j] != KeyBit(key, j))
    requires x == Xor(encoded[8 * i..8 * i + 8], key[8 * (i % 4)..8 * (i % 4) + 8])
    ensures forall j :: 0 <= j < 8 * i + 8 ==> (p + x)[j] == (encoded[j] != KeyBit(key, j))
  {
    forall j | 0 <= j < 8 * i + 8
      ensures (p + x)[j] == (encoded[j] != KeyBit(key, j))
    {
      if j >= 8 * i {
        UnmaskOctetBit(encoded, key, i, x, j - 8 * i);
      }
    }
  }

  /** Bit k of the unmasked octet i is payload bit 8i + k XOR its key-stream bit. */
  lemma UnmaskOctetBit(encoded: seq<bool>, key: seq<bool>, i: nat, x: seq<bool>, k: nat)
    requires |key| == 32 && 8 * i + 8 <= |encoded| && k < 8
    requires x == Xor(encoded[8 * i..8 * i + 8], key[8 * (i % 4)..8 * (i % 4) + 8])
    ensures x[k] == (encoded[8 * i + k] != KeyBit(key, 8 * i + k))
  {
    var q := 8 * (i % 4);
    OctetIndex(i, 8 * i + k);
    assert KeyBit(key, 8 * i + k) == key[q + k];
    assert key[q..q + 8][k] == key[q + k];
  }

  lemma OctetIndex(i: nat, j: nat)
    requires 8 * i <= j < 8 * i + 8
    ensures j / 8 == i && j % 8 == j - 8 * i
    ensures KeyIndex(j) == 8 * (i % 4) + (j - 8 * i)
  {
  }

  // The invariant: whatever the split into calls, Reachable holds.

  /** Placeholder, length and header size are in range once set, and set together. */
  lemma MeaningBounds(raw: seq<bool>)
    ensures Placeholder(raw) == NOT_SET || 0 <= Placeholder(raw) < 128
    ensures LengthAsWritten(raw) == NOT_SET || 0 <= LengthAsWritten(raw)
    ensures BaseSize(raw) in {NOT_SET, PLS_SMALL, PLS_MEDIUM, PLS_LARGE}
    ensures BaseSize(raw) == NOT_SET <==> LengthAsWritten(raw) == NOT_SET
  {
    if |raw| >= PLS_SMALL {
      ValueBound(raw[9..PLS_SMALL]);
      Pow2Values();
    }
  }

  /**
   * The completion check's arithmetic is exact: payloadLengthBytes is a
   * long, so its product with 8 cannot wrap, and rawMessage.size() -
   * headerSize, an int subtraction, compares with it as the unbounded
   * difference does.
   */
  lemma CompletionCheckExact(f: Fields, raw: seq<bool>)
    requires Reachable(f, raw) && |raw| <= INT_MAX
    ensures -8 <= f.lengthBytes * 8 <= 8 * INT_MAX < 0x7FFF_FFFF_FFFF_FFFF
    ensures WrapInt(|raw| - f.headerSize) == f.lengthBytes * 8 <==> |raw| - f.headerSize == f.lengthBytes * 8
  {
    MeaningBounds(raw);
    assert 0 <= LengthAsWritten(raw) <= INT_MAX || LengthAsWritten(raw) == NOT_SET;
    // headerSize is NOT_SET only while fewer than PLS_LARGE bits are in
    assert f.headerSize == NOT_SET ==> |raw| < PLS_LARGE;
    WrapInRange(|raw| - f.headerSize);
  }

  /** Bits already received keep their meaning when more arrive. */
  lemma PrefixMeaning(raw: seq<bool>, bits: seq<bool>)
    ensures Placeholder(raw) != NOT_SET ==> Placeholder(raw + bits) == Placeholder(raw)
    ensures LengthAsWritten(raw) != NOT_SET ==>
              LengthAsWritten(raw + bits) == LengthAsWritten(raw) && BaseSize(raw + bits) == BaseSize(raw)
  {
    var raw' := raw + bits;
    MeaningBounds(raw);
    if |raw| >= PLS_SMALL {
      assert raw'[9..PLS_SMALL] == raw[9..PLS_SMALL];
    }
    if |raw| >= PLS_MEDIUM {
      assert raw'[9..PLS_MEDIUM] == raw[9..PLS_MEDIUM];
    }
    if |raw| >= PLS_LARGE {
      assert raw'[9..PLS_LARGE] == raw[9..PLS_LARGE];
    }
  }

  /** A new message has processed no bits. */
  lemma InitialReachable()
    ensures Reachable(Initial, [])
  {
  }

  /** The header phases of a call keep the invariant. */
  lemma HeaderKeepsReachable(f: Fields, raw: seq<bool>, bits: seq<bool>)
    requires Reachable(f, raw)
    ensures Reachable(ReadHeader(f, raw + bits), raw + bits)
  {
    var raw' := raw + bits;
    var g := ReadHeader(f, raw');
    HeaderKeepsFlags(f, raw, bits);
    HeaderKeepsLength(f, raw, bits);
    if f.state == Complete {
      assert raw'[f.headerSize..f.headerSize + 8 * f.lengthBytes] == raw[f.headerSize..f.headerSize + 8 * f.lengthBytes];
    }
  }

  lemma HeaderKeepsFlags(f: Fields, raw: seq<bool>, bits: seq<bool>)
    requires FlagsAgree(f, raw) && (f.state == Complete ==> f.masked == Some(true))
    ensures FlagsAgree(ReadHeader(f, raw + bits), raw + bits)
  {
    var raw' := raw + bits;
    var g := ReadOpcode(ReadFinRsv(f, raw'), raw');
    if |raw| >= 8 {
      assert raw'[4..8] == raw[4..8];
    }
    if |raw'| >= 8 {
      ValueBound(raw'[4..8]);
      Pow2Values();
    }
    assert g.opcode == (if |raw'| >= 8 then Value(raw'[4..8]) else NOT_SET);
    MaskKeepsFlags(g, raw');
  }

  lemma MaskKeepsFlags(g: Fields, raw: seq<bool>)
    requires var n := |raw|;
             && g.fin == (if n >= 1 then Some(raw[0]) else None)
             && g.rsv1 == (if n >= 2 then Some(raw[1]) else None)
             && g.rsv2 == (if n >= 3 then Some(raw[2]) else None)
             && g.rsv3 == (if n >= 4 then Some(raw[3]) else None)
             && g.opcode == (if n >= 8 then Value(raw[4..8]) else NOT_SET)
             && (g.masked.Some? ==> n >= 9 && g.masked == Some(raw[8]))
             && (g.masked.None? ==> g.state != Error)
             && (g.masked.Some? ==> (g.state == Error <==> g.masked == Some(false)))
    ensures FlagsAgree(ReadLength(ReadPlaceholder(ReadMask(g, raw), raw), raw), raw)
  {
  }

  lemma HeaderKeepsLength(f: Fields, raw: seq<bool>, bits: seq<bool>)
    requires FlagsAgree(f, raw) && LengthAgrees(f, raw)
    ensures LengthAgrees(ReadHeader(f, raw + bits), raw + bits)
  {
    var raw' := raw + bits;
    PrefixMeaning(raw, bits);
    MeaningBounds(raw);
    MeaningBounds(raw');
    if f.maskingKey.Some? {
      assert raw'[BaseSize(raw)..f.headerSize] == raw[BaseSize(raw)..f.headerSize];
    }
  }

  /** Reading the key keeps the invariant, when it does not throw. */
  lemma KeyKeepsReachable(g: Fields, raw: seq<bool>)
    requires Reachable(g, raw)
    ensures ReadKey(g, raw).Ok? ==> Reachable(ReadKey(g, raw).value, raw)
  {
  }

  /** The completion check keeps the invariant. */
  lemma FinishKeepsReachable(h: Fields, raw: seq<bool>)
    requires Reachable(h, raw)
    ensures Reachable(Finish(h, raw).0, raw)
  {
    var n := |raw|;
    if n - h.headerSize == h.lengthBytes * 8 && 0 <= h.headerSize < n && h.maskingKey.Some? {
      assert raw[h.headerSize..] == raw[h.headerSize..h.headerSize + 8 * h.lengthBytes];
    }
  }

  /**
   * Invariant: whatever bits a call brings, and whether or not it throws,
   * the fields afterwards are what the bits received so far determine.
   */
  lemma StepKeepsReachable(f: Fields, raw: seq<bool>, bits: seq<bool>)
    requires Reachable(f, raw)
    ensures Reachable(Step(f, raw + bits).0, raw + bits)
  {
    var raw' := raw + bits;
    HeaderKeepsReachable(f, raw, bits);
    var g := ReadHeader(f, raw');
    KeyKeepsReachable(g, raw');
    if ReadKey(g, raw').Ok? {
      FinishKeepsReachable(ReadKey(g, raw').value, raw');
    }
  }

  // What one call does, on any bits and after any earlier split into calls.

  /**
   * A call returns the state it leaves; ERROR and COMPLETE are never left;
   * ERROR is exactly an unmasked message.
   */
  lemma StateTransitions(f: Fields, raw: seq<bool>, bits: seq<bool>)
    requires Reachable(f, raw)
    ensures var (g, r) := Step(f, raw + bits);
            && (r.Ok? ==> r.value == g.state)
            && (f.state != Incomplete ==> g.state == f.state)
            && (g.state == Error <==> |raw + bits| >= 9 && !(raw + bits)[8])
  {
    StepKeepsReachable(f, raw, bits);
  }

  /** Masking twice with the same key gives back the payload. */
  lemma UnmaskBitsInvolution(p: seq<bool>, key: seq<bool>)
    requires |key| == 32
    ensures UnmaskBits(UnmaskBits(p, key), key) == p
  {
  }

  /**
   * The bits of a masked frame whose payload length fits the 7-bit field:
   * FIN, RSV1-3 and the opcode, MASK set, the length, the key, then the
   * data masked with it.
   */
  function MaskedFrameBits(first: seq<bool>, key: seq<bool>, data: seq<bool>): (r: seq<bool>)
    requires |first| == 8 && |key| == 32 && |data| % 8 == 0 && |data| / 8 <= 125
    ensures |r| == 48 + |data|
  {
    first + [true] + NumberBaseConverter.Bits(|data| / 8, 7) + key + UnmaskBits(data, key)
  }

  /** Where the fields of MaskedFrameBits sit. */
  lemma MaskedFrameLayout(first: seq<bool>, key: seq<bool>, data: seq<bool>, n: nat)
    requires |first| == 8 && |key| == 32 && |data| % 8 == 0 && |data| / 8 <= 125
    requires 16 <= n <= 48 + |data|
    ensures var raw := MaskedFrameBits(first, key, data)[..n];
            && raw[..8] == first && raw[8]
            && Placeholder(raw) == |data| / 8 && BaseSize(raw) == PLS_SMALL
            && LengthAsWritten(raw) == |data| / 8
            && (n >= 48 ==> raw[16..48] == key && raw[48..] == UnmaskBits(data, key)[..n - 48])
  {
    var frame := MaskedFrameBits(first, key, data);
    var raw := frame[..n];
    var lengthBits := NumberBaseConverter.Bits(|data| / 8, 7);
    FrameSlices(first, lengthBits, key, UnmaskBits(data, key));
    assert raw[..8] == frame[..8] && raw[8] == frame[8] && raw[9..16] == frame[9..16];
    if n >= 48 {
      assert raw[16..48] == frame[16..48];
      assert raw[48..] == frame[48..][..n - 48];
    }
    Pow2Values();
    BitsValue(|data| / 8, 7);
  }

  /** The slices of a whole masked frame: the first octet, MASK, the length, the key, the payload. */
  lemma FrameSlices(first: seq<bool>, lengthBits: seq<bool>, key: seq<bool>, payload: seq<bool>)
    requires |first| == 8 && |lengthBits| == 7 && |key| == 32
    ensures var s := first + [true] + lengthBits + key + payload;
            && s[..8] == first && s[8] && s[9..16] == lengthBits
            && s[16..48] == key && s[48..] == payload
  {
    var head := first + [true] + lengthBits;
    assert head[..8] == first && head[9..16] == lengthBits;
    var s := head + key + payload;
    assert s[..16] == head;
    assert s[16..48] == key;
  }

  /**
   * Round trip: whatever calls came before, the call that ends exactly at
   * the end of a masked frame with a non-empty payload returns COMPLETE,
   * and the payload is the data the sender masked.
   */
  lemma MaskedFrameCompletes(f: Fields, raw: seq<bool>, bits: seq<bool>,
                             first: seq<bool>, key: seq<bool>, data: seq<bool>)
    requires |first| == 8 && |key| == 32 && |data| % 8 == 0 && 1 <= |data| / 8 <= 125
    requires Reachable(f, raw) && raw + bits == MaskedFrameBits(first, key, data)
    ensures Step(f, raw + bits).1 == Ok(Complete)
    ensures Step(f, raw + bits).0.payload == Some(data)
  {
    var raw' := raw + bits;
    MaskedFrameLayout(first, key, data, |raw'|);
    assert raw' == MaskedFrameBits(first, key, data)[..|raw'|];
    HeaderKeepsReachable(f, raw, bits);
    var g := ReadHeader(f, raw');
    var h := ReadKey(g, raw').value;
    assert h.maskingKey == Some(key) && h.headerSize == 48;
    UnmaskBitsInvolution(data, key);
  }

  /**
   * A masked payload of one to three octets reaches the completion check
   * before its key: a call that ends right after that many octets past the
   * length field dereferences the missing key.
   */
  lemma ShortPayloadThrowsBeforeKey(f: Fields, raw: seq<bool>, bits: seq<bool>,
                                    first: seq<bool>, key: seq<bool>, data: seq<bool>)
    requires |first| == 8 && |key| == 32 && |data| % 8 == 0 && 1 <= |data| / 8 <= 3
    requires Reachable(f, raw) && raw + bits == MaskedFrameBits(first, key, data)[..16 + |data|]
    ensures Step(f, raw + bits).1 == Err(NullPointer)
  {
    var raw' := raw + bits;
    MaskedFrameLayout(first, key, data, 16 + |data|);
    HeaderKeepsReachable(f, raw, bits);
  }

  /**
   * An empty payload never completes: the calls that end right after the
   * length field and right after the key both throw from getSubset.
   */
  lemma EmptyPayloadThrows(f: Fields, raw: seq<bool>, bits: seq<bool>, first: seq<bool>, key: seq<bool>)
    requires |first| == 8 && |key| == 32
    requires |raw + bits| in {16, 48}
    requires Reachable(f, raw) && raw + bits == MaskedFrameBits(first, key, [])[..|raw + bits|]
    ensures Step(f, raw + bits).1 == Err(IndexOutOfBounds)
    ensures Step(f, raw + bits).0.state != Complete
  {
    MaskedFrameLayout(first, key, [], |raw + bits|);
    HeaderKeepsReachable(f, raw, bits);
    StepKeepsReachable(f, raw, bits);
  }

  /**
   * A masked frame with an extended length throws while its length is
   * unread once 31 bits are in: the key guard calls getSubset(-1, 31).
   * Byte by byte, a 64-bit-length frame throws from its fourth byte on.
   */
  lemma ExtendedMaskedFrameThrows(f: Fields, raw: seq<bool>, bits: seq<bool>)
    requires Reachable(f, raw) && |raw + bits| >= 31 && (raw + bits)[8]
    requires var p := Placeholder(raw + bits);
             (p == 126 && |raw + bits| < PLS_MEDIUM) || (p == 127 && |raw + bits| < PLS_LARGE)
    ensures Step(f, raw + bits).1 == Err(IndexOutOfBounds)
  {
    HeaderKeepsReachable(f, raw, bits);
  }

  /** The 64-bit scheme's length saturates at INT_MAX, so such a message never completes. */
  lemma LargeFrameNeverCompletes(f: Fields, raw: seq<bool>, bits: seq<bool>)
    requires Reachable(f, raw) && Placeholder(raw + bits) == 127 && |raw + bits| <= INT_MAX
    ensures Step(f, raw + bits).0.state != Complete
    ensures Step(f, raw + bits).1 != Ok(Complete)
  {
    var raw' := raw + bits;
    StepKeepsReachable(f, raw, bits);
    StateTransitions(f, raw, bits);
    if |raw'| >= PLS_LARGE {
      LargeLengthAsWritten(raw');
    }
  }

  // The extended payload length (finding): as written, and as intended.

  /**
   * The payload length as section 5.2 of RFC 6455 defines it: for 126 and
   * 127 the 16- or 64-bit field that starts at bit 16.
   */
  function IntendedLength(raw: seq<bool>): int
  {
    var p := Placeholder(raw);
    if 0 <= p <= 125 then p
    else if p == 126 && |raw| >= PLS_MEDIUM then Value(raw[16..PLS_MEDIUM])
    else if p == 127 && |raw| >= PLS_LARGE then Value(raw[16..PLS_LARGE])
    else NOT_SET
  }

  /**
   * As written, the 16-bit scheme also converts the placeholder bits, so
   * the length is 126 * 65536 more than the one the frame carries.
   */
  lemma MediumLengthAsWritten(raw: seq<bool>)
    requires Placeholder(raw) == 126 && |raw| >= PLS_MEDIUM
    ensures LengthAsWritten(raw) == 126 * 0x1_0000 + IntendedLength(raw)
  {
    assert raw[9..PLS_MEDIUM] == raw[9..PLS_SMALL] + raw[16..PLS_MEDIUM];
    ValueAppend(raw[9..PLS_SMALL], raw[16..PLS_MEDIUM]);
    ValueBound(raw[16..PLS_MEDIUM]);
    Pow2Values();
  }

  /** As written, the 64-bit scheme converts 71 bits, which always saturates. */
  lemma LargeLengthAsWritten(raw: seq<bool>)
    requires Placeholder(raw) == 127 && |raw| >= PLS_LARGE
    ensures LengthAsWritten(raw) == INT_MAX
  {
    assert raw[9..PLS_LARGE] == raw[9..PLS_SMALL] + raw[16..PLS_LARGE];
    ValueAppend(raw[9..PLS_SMALL], raw[16..PLS_LARGE]);
    Pow2Monotone(31, 64);
    Pow2Values();
  }

  /** The bits of a masked frame whose payload length takes the 16-bit scheme. */
  function MediumFrameBits(first: seq<bool>, key: seq<bool>, data: seq<bool>): (r: seq<bool>)
    requires |first| == 8 && |key| == 32 && |data| % 8 == 0 && 126 <= |data| / 8 < 0x1_0000
    ensures |r| == 64 + |data|
  {
    first + [true] + NumberBaseConverter.Bits(126, 7) + NumberBaseConverter.Bits(|data| / 8, 16)
    + key + UnmaskBits(data, key)
  }

  /**
   * The finding on a whole frame: by the intended length the payload ends
   * exactly where the frame ends, yet the call that ends there returns
   * INCOMPLETE, since the length as written is 126 * 65536 octets too long.
   */
  lemma MediumFrameMissesItsEnd(f: Fields, raw: seq<bool>, bits: seq<bool>,
                                first: seq<bool>, key: seq<bool>, data: seq<bool>)
    requires |first| == 8 && |key| == 32 && |data| % 8 == 0 && 126 <= |data| / 8 < 0x1_0000
    requires Reachable(f, raw) && raw + bits == MediumFrameBits(first, key, data)
    ensures IntendedLength(raw + bits) == |data| / 8
    ensures |raw + bits| == PLS_MEDIUM + 32 + 8 * IntendedLength(raw + bits)
    ensures Step(f, raw + bits).1 == Ok(Incomplete)
  {
    var raw' := raw + bits;
    assert raw'[9..16] == NumberBaseConverter.Bits(126, 7);
    assert raw'[16..32] == NumberBaseConverter.Bits(|data| / 8, 16);
    assert raw'[8];
    Pow2Values();
    BitsValue(126, 7);
    BitsValue(|data| / 8, 16);
    MediumLengthAsWritten(raw');
    HeaderKeepsReachable(f, raw, bits);
    StepKeepsReachable(f, raw, bits);
    var g := ReadHeader(f, raw');
    var h := ReadKey(g, raw').value;
    assert h.headerSize == 64;
  }

  /**
   * The intended length is the one the byte-level decoder (WebSocketFrame)
   * reads from the same bytes: the indicator, or the big-endian number
   * after it.
   */
  lemma IntendedLengthMatchesFrameDecoder(s: seq<byte>, req: bool)
    requires !Frames.MaskMismatch(s, req)
    ensures IntendedLength(ByteLists.BitsOf(s)) == Frames.LengthOf(s, req)
  {
    var raw := ByteLists.BitsOf(s);
    if |s| >= 2 {
      FrameLayout.SecondByteFields(s);
      assert Placeholder(raw) == s[1] as int % 128;
      if |s| >= Frames.PLS_MEDIUM {
        FrameLayout.ExtendedLength(s, 2);
      }
      if |s| >= Frames.PLS_LARGE {
        FrameLayout.ExtendedLength(s, 8);
      }
    }
  }
}
