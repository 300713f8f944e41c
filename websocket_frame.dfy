/**
 * WebSocketFrame: the incremental decoder for one received frame. Each call
 * of process appends one byte to rawMessage and fills in, at the first call
 * that has the bytes for it, each header field of section 5.2 of RFC 6455;
 * once the whole payload is in, it unmasks it (section 5.3).
 *
 * Every field except the count of close requests is a function of the bytes
 * received so far (and of maskRequirement): FinOf .. PayloadOf below say
 * which, and the class invariant Valid() holds the fields to them.
 */
module Frames {
  import opened Common
  import opened NumberBaseConverter
  import opened ByteLists
  import opened FrameLayout

  /** The value of a numeric field not yet set. */
  const NOT_SET: int := -1
  /** Header bytes before the masking key for each payload-length scheme. */
  const PLS_SMALL: int := 2
  const PLS_MEDIUM: int := 4
  const PLS_LARGE: int := 10

  /** WebSocketFrame.Type: the recognised frame types, with a control flag. */
  datatype Type = Continuation | Text | Binary | ConnectionClose | Ping | Pong {
    /** getOpcode(). */
    function GetOpcode(): (opcode: int)
      ensures 0 <= opcode < 16
    {
      match this
      case Continuation => 0
      case Text => 1
      case Binary => 2
      case ConnectionClose => 8
      case Ping => 9
      case Pong => 10
    }

    /** isControlFrame(): the enum's second constructor argument. */
    predicate IsControlFrame()
    {
      this in {ConnectionClose, Ping, Pong}
    }
  }

  /** Type.getFrameTypeForOpcode: opcodes 0, 1, 2, 8, 9, 10; anything else throws. */
  function GetFrameTypeForOpcode(opcode: int): (r: Result<Type>)
    ensures r.Ok? <==> opcode in {0, 1, 2, 8, 9, 10}
    ensures r.Ok? ==> r.value.GetOpcode() == opcode
    ensures r.Err? ==> r.error == InvalidOpcode
  {
    match opcode
    case 0 => Ok(Continuation)
    case 1 => Ok(Text)
    case 2 => Ok(Binary)
    case 8 => Ok(ConnectionClose)
    case 9 => Ok(Ping)
    case 10 => Ok(Pong)
    case _ => Err(InvalidOpcode)
  }

  /** Each type is found again from its opcode, so getOpcode is injective. */
  lemma TypeRoundTrip(t: Type)
    ensures GetFrameTypeForOpcode(t.GetOpcode()) == Ok(t)
  {
  }

  /** The control flag marks exactly the opcodes with the high bit set. */
  lemma ControlIffHighOpcode(t: Type)
    ensures t.IsControlFrame() <==> t.GetOpcode() >= 8
  {
  }

  // ---------------------------------------------------------------------
  // The decoded state after the bytes s, for a frame built with
  // maskRequirement req.

  // Each field is stated by its place in the header bytes (section 5.2 of
  // RFC 6455); the decoder reads it bit by bit, and FrameLayout's
  // FirstByteFields, SecondByteFields and ExtendedLength join the two.

  /** FIN: the top bit of the first byte. */
  function FinOf(s: seq<byte>): Option<bool>
  {
    if |s| >= 1 then Some(s[0] as int >= 128) else None
  }

  function Rsv1Of(s: seq<byte>): Option<bool>
  {
    if |s| >= 1 then Some(s[0] as int % 128 >= 64) else None
  }

  function Rsv2Of(s: seq<byte>): Option<bool>
  {
    if |s| >= 1 then Some(s[0] as int % 64 >= 32) else None
  }

  function Rsv3Of(s: seq<byte>): Option<bool>
  {
    if |s| >= 1 then Some(s[0] as int % 32 >= 16) else None
  }

  /** The frame type from the low nibble of the first byte; unset for an unrecognised opcode. */
  function FrameTypeOf(s: seq<byte>): Option<Type>
  {
    if |s| >= 1 && GetFrameTypeForOpcode(s[0] as int % 16).Ok?
    then Some(GetFrameTypeForOpcode(s[0] as int % 16).value)
    else None
  }

  /** MASK: the top bit of the second byte. */
  function MaskedOf(s: seq<byte>): Option<bool>
  {
    if |s| >= 2 then Some(s[1] as int >= 128) else None
  }

  /** The call that brings the second byte throws when MASK differs from req. */
  predicate MaskMismatch(s: seq<byte>, req: bool)
  {
    |s| == 2 && (s[1] as int >= 128) != req
  }

  /**
   * The 7-bit length indicator (the low bits of the second byte), read with
   * the second byte unless that call threw; then it is read with the third.
   */
  function IndicatorOf(s: seq<byte>, req: bool): int
  {
    if |s| >= 3 || (|s| == 2 && !MaskMismatch(s, req)) then s[1] as int % 128 else NOT_SET
  }

  /** Header bytes before the masking key for a length indicator. */
  function BaseHeaderSize(indicator: int): int
  {
    if indicator <= 125 then PLS_SMALL else if indicator == 126 then PLS_MEDIUM else PLS_LARGE
  }

  /**
   * The payload length, once the bytes of its scheme have arrived: the
   * indicator itself, or the 16-bit or 64-bit big-endian number after it.
   */
  function LengthOf(s: seq<byte>, req: bool): int
  {
    var indicator := IndicatorOf(s, req);
    if indicator == NOT_SET then NOT_SET
    else if indicator <= 125 then indicator
    else if indicator == 126 && |s| >= PLS_MEDIUM then BigEndian(s[2..PLS_MEDIUM])
    else if indicator == 127 && |s| >= PLS_LARGE then BigEndian(s[2..PLS_LARGE])
    else NOT_SET
  }

  /** The masking key: four bytes right after the length, for a masked frame. */
  function KeyOf(s: seq<byte>, req: bool): Option<seq<byte>>
  {
    var base := BaseHeaderSize(IndicatorOf(s, req));
    if MaskedOf(s) == Some(true) && LengthOf(s, req) != NOT_SET && |s| >= base + 4
    then Some(s[base..base + 4])
    else None
  }

  /** headerSize: the length scheme's bytes, plus four once the key is read. */
  function HeaderSizeOf(s: seq<byte>, req: bool): int
  {
    if LengthOf(s, req) == NOT_SET then NOT_SET
    else BaseHeaderSize(IndicatorOf(s, req)) + (if KeyOf(s, req).Some? then 4 else 0)
  }

  /** areHeadersComplete(): every header field set, the key too when masked. */
  predicate HeaderCompleteOf(s: seq<byte>, req: bool)
  {
    FinOf(s).Some? && Rsv1Of(s).Some? && Rsv2Of(s).Some? && Rsv3Of(s).Some?
    && FrameTypeOf(s).Some? && MaskedOf(s).Some? && LengthOf(s, req) != NOT_SET
    && (MaskedOf(s) == Some(true) ==> KeyOf(s, req).Some?)
  }

  /**
   * isComplete: an empty payload completes with the header; any other needs
   * all its bytes and a key, for unmasking an unmasked payload throws.
   */
  predicate CompleteOf(s: seq<byte>, req: bool)
  {
    HeaderCompleteOf(s, req)
    && (LengthOf(s, req) == 0
        || (KeyOf(s, req).Some? && |s| >= HeaderSizeOf(s, req) + LengthOf(s, req)))
  }

  /** The call at which the payload is all in but there is no key to unmask it with. */
  predicate ThrowsNullPointer(s: seq<byte>, req: bool)
  {
    HeaderCompleteOf(s, req) && LengthOf(s, req) != 0 && KeyOf(s, req).None?
    && |s| == HeaderSizeOf(s, req) + LengthOf(s, req)
  }

  /**
   * The payload field: null until the payload is all in (and for an empty
   * payload), then the unmasked payload; an empty list if unmasking threw.
   */
  function PayloadOf(s: seq<byte>, req: bool): Option<seq<byte>>
  {
    var hs := HeaderSizeOf(s, req);
    var len := LengthOf(s, req);
    if !HeaderCompleteOf(s, req) || len == 0 || |s| < hs + len then None
    else if KeyOf(s, req).None? then Some([])
    else Some(Unmask(s[hs..hs + len], KeyOf(s, req).value))
  }

  /** The calls that reach parent.close(): CLOSE frames once the header is complete. */
  predicate RequestsClose(s: seq<byte>, req: bool)
  {
    HeaderCompleteOf(s, req) && FrameTypeOf(s) == Some(ConnectionClose)
    && !MaskMismatch(s, req) && !ThrowsNullPointer(s, req)
  }

  /** What process returns, or the exception it throws, for the call that brought s. */
  function Outcome(s: seq<byte>, req: bool): Result<bool>
  {
    if MaskMismatch(s, req) then Err(IllegalState)
    else if ThrowsNullPointer(s, req) then Err(NullPointer)
    else Ok(CompleteOf(s, req))
  }

  /** Whether a String holds only US-ASCII characters (StringUtils.isPureASCII). */
  predicate IsPureAscii(t: string)
  {
    forall i :: 0 <= i < |t| ==> t[i] < 128 as char
  }

  class WebSocketFrame {
    /** How many times process has called parent.close(). */
    var closeRequests: nat
    var isComplete: bool
    var headerComplete: bool
    var rawMessage: ByteList
    var fin: Option<bool>
    var rsv1: Option<bool>
    var rsv2: Option<bool>
    var rsv3: Option<bool>
    var frameType: Option<Type>
    var masked: Option<bool>
    var maskRequirement: bool
    var payloadLengthIndicator: int
    var payloadLength: int
    var maskingKey: Option<seq<byte>>
    var headerSize: int
    var payload: Option<seq<byte>>

    /** The bytes received so far. */
    function Raw(): seq<byte>
      reads this, rawMessage, rawMessage.cells
      requires rawMessage.Valid()
    {
      rawMessage.Contents()
    }

    /** The header fields hold what the bytes s say. */
    predicate HeaderFieldsFor(s: seq<byte>)
      reads this`fin, this`rsv1, this`rsv2, this`rsv3, this`frameType, this`masked, this`maskRequirement
      reads this`payloadLengthIndicator, this`payloadLength, this`maskingKey, this`headerSize
    {
      fin == FinOf(s) && rsv1 == Rsv1Of(s) && rsv2 == Rsv2Of(s) && rsv3 == Rsv3Of(s)
      && frameType == FrameTypeOf(s) && masked == MaskedOf(s)
      && payloadLengthIndicator == IndicatorOf(s, maskRequirement)
      && payloadLength == LengthOf(s, maskRequirement)
      && maskingKey == KeyOf(s, maskRequirement)
      && headerSize == HeaderSizeOf(s, maskRequirement)
    }

    /** Every field holds what the bytes s say. */
    predicate FieldsFor(s: seq<byte>)
      reads this`fin, this`rsv1, this`rsv2, this`rsv3, this`frameType, this`masked, this`maskRequirement
      reads this`payloadLengthIndicator, this`payloadLength, this`maskingKey, this`headerSize
      reads this`headerComplete, this`isComplete, this`payload
    {
      HeaderFieldsFor(s)
      && headerComplete == HeaderCompleteOf(s, maskRequirement)
      && isComplete == CompleteOf(s, maskRequirement)
      && payload == PayloadOf(s, maskRequirement)
    }

    predicate Valid()
      reads this, rawMessage, rawMessage.cells
    {
      rawMessage.Valid() && FieldsFor(Raw())
    }

    /** WebSocketFrame(parent, maskRequirement): nothing received yet. */
    constructor (maskRequirement: bool)
      ensures Valid() && Raw() == [] && this.maskRequirement == maskRequirement
      ensures closeRequests == 0 && fresh(rawMessage) && fresh(rawMessage.cells)
    {
      closeRequests := 0;
      isComplete := false;
      headerComplete := false;
      var list := ByteList.New(16, 10);
      rawMessage := list.value;
      fin, rsv1, rsv2, rsv3 := None, None, None, None;
      frameType := None;
      masked := None;
      this.maskRequirement := maskRequirement;
      payloadLengthIndicator := NOT_SET;
      payloadLength := NOT_SET;
      maskingKey := None;
      headerSize := NOT_SET;
      payload := None;
    }

    /**
     * process(b): append b, advance the decoder, return isComplete. The
     * result is Outcome of the bytes so far; a CLOSE frame whose header is
     * complete asks the parent to close on every call that does not throw
     * before. parentClose is what that parent.close() returns or throws:
     * NullPointerException for a null parent, and otherwise the outcome of
     * WebSocket.close(). Its exception propagates out of process, after
     * every field has been updated.
     */
    method Process(b: byte, parentClose: Result<bool>) returns (r: Result<bool>)
      requires Valid() && |Raw()| < INT_MAX
      modifies this, rawMessage, rawMessage.cells
      ensures Valid() && rawMessage == old(rawMessage)
      ensures maskRequirement == old(maskRequirement)
      ensures Raw() == old(Raw()) + [b]
      ensures r == if RequestsClose(Raw(), maskRequirement) && parentClose.Err? then parentClose
                   else Outcome(Raw(), maskRequirement)
      ensures closeRequests == old(closeRequests) + (if RequestsClose(Raw(), maskRequirement) then 1 else 0)
    {
      ghost var before := Raw();
      AppendRaw(b);
      r := Advance(before, b, parentClose);
    }

    /** rawMessage.add(b), seen from the frame: one more byte received. */
    method AppendRaw(b: byte)
      requires rawMessage.Valid()
      modifies rawMessage, rawMessage.cells
      ensures rawMessage.Valid() && Raw() == old(Raw()) + [b]
    {
      rawMessage.Add(b);
    }

    /** The rest of process, once rawMessage holds the new byte. */
    method Advance(ghost before: seq<byte>, ghost b: byte, parentClose: Result<bool>) returns (r: Result<bool>)
      requires rawMessage.Valid() && Raw() == before + [b] && |Raw()| <= INT_MAX
      requires FieldsFor(before)
      modifies this
      ensures rawMessage == old(rawMessage) && maskRequirement == old(maskRequirement)
      ensures FieldsFor(before + [b])
      ensures r == if RequestsClose(before + [b], maskRequirement) && parentClose.Err? then parentClose
                   else Outcome(before + [b], maskRequirement)
      ensures closeRequests == old(closeRequests) + (if RequestsClose(before + [b], maskRequirement) then 1 else 0)
    {
      ghost var s := Raw();
      if !headerComplete {
        var threw := DecodeHeader(before, b);
        if threw {
          return Err(IllegalState);
        }
      } else {
        HeaderStable(before, b, maskRequirement);
      }
      if headerComplete {
        var threw := FinishPayload(before, b);
        if threw {
          return Err(NullPointer);
        }
        if frameType.value.IsControlFrame() && frameType.value == ConnectionClose {
          closeRequests := closeRequests + 1;
          if parentClose.Err? {
            return parentClose;
          }
        }
      } else {
        NotCompleteYet(s, maskRequirement);
      }
      return Ok(isComplete);
    }

    /**
     * The header block of process: each unset field is read as soon as the
     * bytes for it are in. Returns whether the MASK check threw.
     */
    method DecodeHeader(ghost before: seq<byte>, ghost b: byte) returns (threw: bool)
      requires rawMessage.Valid() && Raw() == before + [b] && |Raw()| <= INT_MAX
      requires FieldsFor(before) && !headerComplete
      modifies this
      ensures rawMessage == old(rawMessage) && maskRequirement == old(maskRequirement)
      ensures closeRequests == old(closeRequests) && isComplete == old(isComplete)
      ensures payload == old(payload)
      ensures threw == MaskMismatch(before + [b], maskRequirement)
      ensures HeaderFieldsFor(before + [b]) && headerComplete == HeaderCompleteOf(before + [b], maskRequirement)
    {
      threw := DecodeFlags(before, b);
      if threw {
        MismatchLeavesLengthUnset(before, b, maskRequirement);
      } else {
        DecodeLengthAndKey(before, b);
      }
    }

    /** The first two blocks: FIN, RSV1-3, the type and MASK, with the MASK check. */
    method DecodeFlags(ghost before: seq<byte>, ghost b: byte) returns (mismatch: bool)
      requires rawMessage.Valid() && Raw() == before + [b]
      requires fin == FinOf(before) && rsv1 == Rsv1Of(before) && rsv2 == Rsv2Of(before)
      requires rsv3 == Rsv3Of(before) && frameType == FrameTypeOf(before) && masked == MaskedOf(before)
      modifies this`fin, this`rsv1, this`rsv2, this`rsv3, this`frameType, this`masked
      ensures fin == FinOf(before + [b]) && rsv1 == Rsv1Of(before + [b]) && rsv2 == Rsv2Of(before + [b])
      ensures rsv3 == Rsv3Of(before + [b]) && frameType == FrameTypeOf(before + [b])
      ensures masked == MaskedOf(before + [b])
      ensures mismatch == MaskMismatch(before + [b], maskRequirement)
    {
      var f, r1, r2, r3, t := DecodeFirstByte(before, b);
      var m;
      m, mismatch := DecodeMask(before, b);
      fin, rsv1, rsv2, rsv3, frameType, masked := f, r1, r2, r3, t, m;
    }

    /** The remaining blocks: the length, the key, and whether the header is complete. */
    method DecodeLengthAndKey(ghost before: seq<byte>, ghost b: byte)
      requires rawMessage.Valid() && Raw() == before + [b]
      requires !MaskMismatch(before + [b], maskRequirement) && masked == MaskedOf(before + [b])
      requires fin == FinOf(before + [b]) && rsv1 == Rsv1Of(before + [b]) && rsv2 == Rsv2Of(before + [b])
      requires rsv3 == Rsv3Of(before + [b]) && frameType == FrameTypeOf(before + [b])
      requires payloadLengthIndicator == IndicatorOf(before, maskRequirement)
      requires payloadLength == LengthOf(before, maskRequirement)
      requires headerSize == HeaderSizeOf(before, maskRequirement)
      requires maskingKey == KeyOf(before, maskRequirement)
      modifies this`payloadLengthIndicator, this`payloadLength, this`maskingKey, this`headerSize, this`headerComplete
      ensures HeaderFieldsFor(before + [b])
      ensures headerComplete == HeaderCompleteOf(before + [b], maskRequirement)
    {
      var indicator, length, unkeyedSize := DecodeLength(before, b);
      var key, size := DecodeKey(before, b, masked, indicator, length, unkeyedSize);
      payloadLengthIndicator, payloadLength, maskingKey, headerSize := indicator, length, key, size;
      assert HeaderFieldsFor(before + [b]);
      headerComplete := AreHeadersComplete();
    }

    /** FIN, RSV1-3 and the opcode, each read once the first byte is in unless already set. */
    method DecodeFirstByte(ghost before: seq<byte>, ghost b: byte)
      returns (f: Option<bool>, r1: Option<bool>, r2: Option<bool>, r3: Option<bool>, t: Option<Type>)
      requires rawMessage.Valid() && Raw() == before + [b]
      requires fin == FinOf(before) && rsv1 == Rsv1Of(before) && rsv2 == Rsv2Of(before)
      requires rsv3 == Rsv3Of(before) && frameType == FrameTypeOf(before)
      ensures f == FinOf(before + [b]) && r1 == Rsv1Of(before + [b]) && r2 == Rsv2Of(before + [b])
      ensures r3 == Rsv3Of(before + [b]) && t == FrameTypeOf(before + [b])
    {
      if |before| >= 1 {
        PrefixFirstByte(before, b);
      }
      FirstByteFields(Raw());
      f := KeepOrReadBit(fin, 0);
      r1 := KeepOrReadBit(rsv1, 1);
      r2 := KeepOrReadBit(rsv2, 2);
      r3 := KeepOrReadBit(rsv3, 3);
      t := frameType;
      if t.None? {
        t := ReadFrameType();
      }
    }

    /** `if (flag == null) flag = rawMessage.getBit(0, k)`. */
    method KeepOrReadBit(flag: Option<bool>, k: nat) returns (r: Option<bool>)
      requires rawMessage.Valid() && k < 8 * |Raw()|
      ensures r == if flag.Some? then flag else Some(Bit(Raw(), k))
    {
      r := flag;
      if r.None? {
        r := RawBit(k);
      }
    }

    /** The opcode looked up among the known types; an unknown one leaves the type unset. */
    method ReadFrameType() returns (t: Option<Type>)
      requires rawMessage.Valid() && |Raw()| >= 1
      ensures t == FrameTypeOf(Raw())
    {
      var opcode := RawField(4, 8);
      FirstByteFields(Raw());
      var found := GetFrameTypeForOpcode(opcode);
      if found.Ok? {
        return Some(found.value);
      }
      return None;
    }

    /**
     * MASK, read once the second byte is in; the call that reads it throws
     * when it differs from maskRequirement.
     */
    method DecodeMask(ghost before: seq<byte>, ghost b: byte) returns (m: Option<bool>, mismatch: bool)
      requires rawMessage.Valid() && Raw() == before + [b]
      requires masked == MaskedOf(before)
      ensures m == MaskedOf(before + [b])
      ensures mismatch == MaskMismatch(before + [b], maskRequirement)
    {
      PrefixLength(before, b, maskRequirement);
      m, mismatch := masked, false;
      if m.None? && rawMessage.index >= 2 {
        m := RawBit(8);
        SecondByteFields(Raw());
        if m.value != maskRequirement {
          mismatch := true;
        }
      }
    }

    /**
     * The length indicator, then the payload length of its scheme; the
     * header size is the scheme's, plus four once the key is read.
     */
    method DecodeLength(ghost before: seq<byte>, ghost b: byte) returns (indicator: int, length: int, size: int)
      requires rawMessage.Valid() && Raw() == before + [b]
      requires !MaskMismatch(before + [b], maskRequirement)
      requires payloadLengthIndicator == IndicatorOf(before, maskRequirement)
      requires payloadLength == LengthOf(before, maskRequirement)
      requires headerSize == HeaderSizeOf(before, maskRequirement)
      requires maskingKey == KeyOf(before, maskRequirement)
      ensures indicator == IndicatorOf(before + [b], maskRequirement)
      ensures length == LengthOf(before + [b], maskRequirement)
      ensures size == if length == NOT_SET then NOT_SET
                      else BaseHeaderSize(indicator) + (if maskingKey.Some? then 4 else 0)
    {
      PrefixLength(before, b, maskRequirement);
      indicator := payloadLengthIndicator;
      var received := rawMessage.index;
      if indicator == NOT_SET && received >= PLS_SMALL {
        indicator := RawField(9, PLS_SMALL * 8);
        SecondByteFields(Raw());
      }
      length, size := DecodeLengthField(before, b, indicator);
    }

    /** The three length schemes, tried in turn once the indicator is known. */
    method DecodeLengthField(ghost before: seq<byte>, ghost b: byte, indicator: int) returns (length: int, size: int)
      requires rawMessage.Valid() && Raw() == before + [b]
      requires indicator == IndicatorOf(before + [b], maskRequirement)
      requires LengthOf(before, maskRequirement) != NOT_SET ==>
                 LengthOf(before + [b], maskRequirement) == LengthOf(before, maskRequirement)
      requires payloadLength == LengthOf(before, maskRequirement)
      requires headerSize == HeaderSizeOf(before, maskRequirement)
      requires maskingKey == KeyOf(before, maskRequirement)
      requires IndicatorOf(before, maskRequirement) != NOT_SET ==> indicator == IndicatorOf(before, maskRequirement)
      ensures length == LengthOf(before + [b], maskRequirement)
      ensures size == if length == NOT_SET then NOT_SET
                      else BaseHeaderSize(indicator) + (if maskingKey.Some? then 4 else 0)
    {
      length, size := payloadLength, headerSize;
      var received := rawMessage.index;
      ghost var s := Raw();
      LengthOfField(s, maskRequirement);
      if length == NOT_SET && indicator <= 125 && indicator != NOT_SET {
        length := indicator;
        size := PLS_SMALL;
      }
      if length == NOT_SET && indicator == 126 && received >= PLS_MEDIUM {
        length := RawField(16, PLS_MEDIUM * 8);
        size := PLS_MEDIUM;
      }
      if length == NOT_SET && indicator == 127 && received >= PLS_LARGE {
        length := RawField(16, PLS_LARGE * 8);
        size := PLS_LARGE;
      }
    }

    /** The masking key, read once the four bytes after the length are in. */
    method DecodeKey(ghost before: seq<byte>, ghost b: byte, m: Option<bool>, indicator: int, length: int, size: int)
      returns (key: Option<seq<byte>>, keyedSize: int)
      requires rawMessage.Valid() && Raw() == before + [b]
      requires m == MaskedOf(before + [b])
      requires indicator == IndicatorOf(before + [b], maskRequirement)
      requires length == LengthOf(before + [b], maskRequirement)
      requires maskingKey == KeyOf(before, maskRequirement)
      requires size == if length == NOT_SET then NOT_SET
                       else BaseHeaderSize(indicator) + (if maskingKey.Some? then 4 else 0)
      ensures key == KeyOf(before + [b], maskRequirement)
      ensures keyedSize == HeaderSizeOf(before + [b], maskRequirement)
    {
      PrefixFields(before, b, maskRequirement);
      key, keyedSize := maskingKey, size;
      if m.Some? && m.value && key.None? && size != NOT_SET && rawMessage.index >= size + 4 {
        var list := ByteList.Slice(rawMessage, size, size + 4, 1);
        var keyBytes := list.value.Elements();
        assert keyBytes == Raw()[size..size + 4];
        key := Some(keyBytes);
        keyedSize := size + 4;
      }
    }

    /** getBit(k) on rawMessage, within the bytes received. */
    method RawBit(k: nat) returns (bit: Option<bool>)
      requires rawMessage.Valid() && k < 8 * |Raw()|
      ensures bit == Some(Bit(Raw(), k))
    {
      var got := rawMessage.GetBitAt(k / 8, k % 8);
      BitsOfPrefix(rawMessage.cells[..], rawMessage.index, k, k + 1);
      assert BitsOf(rawMessage.cells[..])[k] == BitsOf(Raw())[k];
      return Some(got.value);
    }

    /** binaryToDecimal(getBits(i1, i2)) on rawMessage, within the bytes received. */
    method RawField(i1: nat, i2: nat) returns (v: int)
      requires rawMessage.Valid() && i1 < i2 <= 8 * |Raw()| && i2 <= INT_MAX
      ensures v == Field(Raw(), i1, i2)
    {
      var bits := rawMessage.GetBits(i1, i2);
      BitsOfPrefix(rawMessage.cells[..], rawMessage.index, i1, i2);
      v := Value(bits.value);
    }

    /** areHeadersComplete(). */
    method AreHeadersComplete() returns (complete: bool)
      ensures complete <==> fin.Some? && rsv1.Some? && rsv2.Some? && rsv3.Some?
                            && frameType.Some? && masked.Some? && payloadLength != NOT_SET
                            && (masked == Some(true) ==> maskingKey.Some?)
    {
      if fin.None? { return false; }
      if rsv1.None? { return false; }
      if rsv2.None? { return false; }
      if rsv3.None? { return false; }
      if frameType.None? { return false; }
      if masked.None? { return false; }
      if payloadLength == NOT_SET { return false; }
      if masked.value && maskingKey.None? { return false; }
      return true;
    }

    /**
     * The completion block of process, run while the header is complete.
     * Returns whether unmasking dereferenced the missing key.
     */
    method FinishPayload(ghost before: seq<byte>, ghost b: byte) returns (threw: bool)
      requires rawMessage.Valid() && Raw() == before + [b] && |Raw()| <= INT_MAX
      requires HeaderFieldsFor(before + [b]) && headerComplete && HeaderCompleteOf(before + [b], maskRequirement)
      requires isComplete == CompleteOf(before, maskRequirement)
      requires payload == PayloadOf(before, maskRequirement)
      modifies this`payload, this`isComplete
      ensures HeaderFieldsFor(before + [b])
      ensures threw == ThrowsNullPointer(before + [b], maskRequirement)
      ensures isComplete == CompleteOf(before + [b], maskRequirement)
      ensures payload == PayloadOf(before + [b], maskRequirement)
    {
      ghost var s := Raw();
      PayloadStable(before, b, maskRequirement);
      var size := rawMessage.index;
      if payloadLength == 0 {
        payload := None;
        isComplete := true;
      } else if size - headerSize == payloadLength {
        threw := TakePayload(before, b);
        return;
      }
      return false;
    }

    /** The call that brings the last payload byte: unmask it, or throw for a missing key. */
    method TakePayload(ghost before: seq<byte>, ghost b: byte) returns (threw: bool)
      requires rawMessage.Valid() && Raw() == before + [b] && |Raw()| <= INT_MAX
      requires HeaderFieldsFor(before + [b]) && HeaderCompleteOf(before + [b], maskRequirement)
      requires payloadLength != 0 && rawMessage.index - headerSize == payloadLength
      requires isComplete == CompleteOf(before, maskRequirement)
      modifies this`payload, this`isComplete
      ensures threw == ThrowsNullPointer(before + [b], maskRequirement)
      ensures isComplete == CompleteOf(before + [b], maskRequirement)
      ensures payload == PayloadOf(before + [b], maskRequirement)
    {
      ghost var s := Raw();
      var unmasked := ReadPayload();
      payload := Some([]);
      if unmasked.None? {
        if CompleteOf(before, maskRequirement) {
          CompleteStable(before, b, maskRequirement);
        }
        return true;
      }
      assert s[headerSize..] == s[headerSize..headerSize + payloadLength];
      payload := unmasked;
      isComplete := true;
      return false;
    }

    /**
     * The masked payload copied out of rawMessage and unmasked into a new
     * list; None where the key is missing and unmasking would dereference it.
     */
    method ReadPayload() returns (unmasked: Option<seq<byte>>)
      requires rawMessage.Valid() && 0 <= headerSize < rawMessage.index <= INT_MAX
      requires rawMessage.index - headerSize == payloadLength
      requires maskingKey.Some? ==> |maskingKey.value| == 4
      ensures maskingKey.None? ==> unmasked.None?
      ensures maskingKey.Some? ==> unmasked == Some(Unmask(Raw()[headerSize..], maskingKey.value))
    {
      var encoded := ByteList.Slice(rawMessage, headerSize, rawMessage.index, 1);
      var decoded := ByteList.New(payloadLength, 1);
      if maskingKey.None? {
        return None;
      }
      assert encoded.value.Contents() == Raw()[headerSize..];
      var bytes := UnmaskInto(encoded.value, maskingKey.value, decoded.value);
      return Some(bytes);
    }

    /** The unmasking loop: payload.add(encoded.get(i) ^ maskingKey.get(i % 4)). */
    method UnmaskInto(encoded: ByteList, key: seq<byte>, decoded: ByteList) returns (unmasked: seq<byte>)
      requires encoded.Valid() && decoded.Valid() && encoded != decoded && encoded.cells != decoded.cells
      requires |key| == 4 && decoded.Contents() == []
      modifies decoded, decoded.cells
      ensures unmasked == Unmask(encoded.Contents(), key)
    {
      ghost var u := Unmask(encoded.Contents(), key);
      var octet := 0;
      while octet < encoded.index
        invariant 0 <= octet <= encoded.index
        invariant decoded.Valid() && encoded.Valid()
        invariant encoded.cells != decoded.cells && encoded != decoded
        invariant decoded.Contents() == u[..octet]
        invariant fresh(decoded.cells) || decoded.cells == old(decoded.cells)
        invariant encoded.Contents() == old(encoded.Contents())
      {
        var next := encoded.Get(octet);
        assert next.value ^ key[octet % 4] == u[octet];
        decoded.Add(next.value ^ key[octet % 4]);
        assert u[..octet + 1] == u[..octet] + [u[octet]];
        octet := octet + 1;
      }
      assert u[..octet] == u;
      unmasked := decoded.Elements();
    }

    /**
     * WebSocketFrame(parent, maskRequirement, String): an outgoing text frame
     * with FIN and RSV1-3 clear; a String that is not pure ASCII throws.
     */
    static method NewText(maskRequirement: bool, text: string) returns (r: Result<WebSocketFrame>)
      ensures r.Ok? <==> IsPureAscii(text)
      ensures r.Err? ==> r.error == UnsupportedEncoding
      ensures r.Ok? ==> fresh(r.value) && r.value.rawMessage.Valid() && r.value.Raw() == []
      ensures r.Ok? ==> r.value.fin == Some(false) && r.value.rsv1 == Some(false)
                        && r.value.rsv2 == Some(false) && r.value.rsv3 == Some(false)
      ensures r.Ok? ==> r.value.frameType == Some(Text) && r.value.maskRequirement == maskRequirement
      ensures r.Ok? ==> r.value.masked == None && r.value.maskingKey == None && r.value.payload == None
      ensures r.Ok? ==> r.value.payloadLengthIndicator == NOT_SET && r.value.payloadLength == NOT_SET
                        && r.value.headerSize == NOT_SET
      ensures r.Ok? ==> !r.value.isComplete && !r.value.headerComplete && r.value.closeRequests == 0
    {
      if !IsPureAscii(text) {
        return Err(UnsupportedEncoding);
      }
      var frame := new WebSocketFrame(maskRequirement);
      frame.fin := Some(false);
      frame.rsv1 := Some(false);
      frame.rsv2 := Some(false);
      frame.rsv3 := Some(false);
      frame.frameType := Some(Text);
      return Ok(frame);
    }
  }

  // ---------------------------------------------------------------------
  // How the decoded state moves when one byte arrives.

  /** Bits of the array past the list's end do not disturb bits inside it. */
  lemma BitsOfPrefix(a: seq<byte>, n: nat, i1: nat, i2: nat)
    requires n <= |a| && i1 <= i2 <= 8 * n
    ensures BitsOf(a)[i1..i2] == BitsOf(a[..n])[i1..i2]
  {
    assert a == a[..n] + a[n..];
    BitsOfAppend(a[..n], a[n..]);
    PrefixSlice(BitsOf(a[..n]), BitsOf(a[n..]), i1, i2);
  }

  lemma PrefixSlice<T>(x: seq<T>, y: seq<T>, i1: nat, i2: nat)
    requires i1 <= i2 <= |x|
    ensures (x + y)[i1..i2] == x[i1..i2]
    ensures i1 < i2 ==> (x + y)[i1] == x[i1]
  {
  }

  lemma SliceExtend(s: seq<byte>, b: byte, i: nat, j: nat)
    requires i <= j <= |s|
    ensures (s + [b])[i..j] == s[i..j]
  {
  }

  /** Set-once, first byte: FIN, RSV1-3 and the type keep their values when a byte arrives. */
  lemma PrefixFirstByte(s: seq<byte>, b: byte)
    requires |s| >= 1
    ensures FinOf(s + [b]) == FinOf(s) && Rsv1Of(s + [b]) == Rsv1Of(s)
    ensures Rsv2Of(s + [b]) == Rsv2Of(s) && Rsv3Of(s + [b]) == Rsv3Of(s)
    ensures FrameTypeOf(s + [b]) == FrameTypeOf(s)
  {
    assert (s + [b])[0] == s[0];
  }

  /** LengthOf with the extended schemes read as bit fields, as the decoder reads them. */
  lemma LengthOfField(s: seq<byte>, req: bool)
    ensures var indicator := IndicatorOf(s, req);
            LengthOf(s, req) == if indicator == NOT_SET then NOT_SET
                                else if indicator <= 125 then indicator
                                else if indicator == 126 && |s| >= PLS_MEDIUM then Field(s, 16, PLS_MEDIUM * 8)
                                else if indicator == 127 && |s| >= PLS_LARGE then Field(s, 16, PLS_LARGE * 8)
                                else NOT_SET
  {
    if |s| >= PLS_MEDIUM {
      ExtendedLength(s, 2);
    }
    if |s| >= PLS_LARGE {
      ExtendedLength(s, 8);
    }
  }

  /** Set-once, length: MASK, the indicator and the length keep their values once set. */
  lemma PrefixLength(s: seq<byte>, b: byte, req: bool)
    ensures MaskedOf(s).Some? ==> MaskedOf(s + [b]) == MaskedOf(s)
    ensures IndicatorOf(s, req) != NOT_SET ==> IndicatorOf(s + [b], req) == IndicatorOf(s, req)
    ensures LengthOf(s, req) != NOT_SET ==> LengthOf(s + [b], req) == LengthOf(s, req)
  {
    if |s| >= 2 {
      assert (s + [b])[1] == s[1];
    }
    if |s| >= PLS_MEDIUM {
      SliceExtend(s, b, 2, PLS_MEDIUM);
    }
    if |s| >= PLS_LARGE {
      SliceExtend(s, b, 2, PLS_LARGE);
    }
  }

  /** Set-once: every header field already set keeps its value when a byte arrives. */
  lemma PrefixFields(s: seq<byte>, b: byte, req: bool)
    ensures FinOf(s).Some? ==> FinOf(s + [b]) == FinOf(s)
    ensures Rsv1Of(s).Some? ==> Rsv1Of(s + [b]) == Rsv1Of(s)
    ensures Rsv2Of(s).Some? ==> Rsv2Of(s + [b]) == Rsv2Of(s)
    ensures Rsv3Of(s).Some? ==> Rsv3Of(s + [b]) == Rsv3Of(s)
    ensures |s| >= 1 ==> FrameTypeOf(s + [b]) == FrameTypeOf(s)
    ensures MaskedOf(s).Some? ==> MaskedOf(s + [b]) == MaskedOf(s)
    ensures IndicatorOf(s, req) != NOT_SET ==> IndicatorOf(s + [b], req) == IndicatorOf(s, req)
    ensures LengthOf(s, req) != NOT_SET ==> LengthOf(s + [b], req) == LengthOf(s, req)
    ensures KeyOf(s, req).Some? ==> KeyOf(s + [b], req) == KeyOf(s, req)
  {
    if |s| >= 1 {
      PrefixFirstByte(s, b);
    }
    PrefixLength(s, b, req);
    if KeyOf(s, req).Some? {
      var base := BaseHeaderSize(IndicatorOf(s, req));
      SliceExtend(s, b, base, base + 4);
    }
  }

  /** Once the header is complete, another byte changes none of it. */
  lemma HeaderStable(s: seq<byte>, b: byte, req: bool)
    requires HeaderCompleteOf(s, req)
    ensures HeaderCompleteOf(s + [b], req)
    ensures HeaderSizeOf(s + [b], req) == HeaderSizeOf(s, req)
    ensures FinOf(s + [b]) == FinOf(s) && Rsv1Of(s + [b]) == Rsv1Of(s)
    ensures Rsv2Of(s + [b]) == Rsv2Of(s) && Rsv3Of(s + [b]) == Rsv3Of(s)
    ensures FrameTypeOf(s + [b]) == FrameTypeOf(s) && MaskedOf(s + [b]) == MaskedOf(s)
    ensures IndicatorOf(s + [b], req) == IndicatorOf(s, req)
    ensures LengthOf(s + [b], req) == LengthOf(s, req)
    ensures KeyOf(s + [b], req) == KeyOf(s, req)
  {
    PrefixFields(s, b, req);
  }

  /** When the MASK check throws, the length, key and header size stay unset. */
  lemma MismatchLeavesLengthUnset(s: seq<byte>, b: byte, req: bool)
    requires MaskMismatch(s + [b], req)
    ensures IndicatorOf(s, req) == NOT_SET == IndicatorOf(s + [b], req)
    ensures LengthOf(s, req) == NOT_SET == LengthOf(s + [b], req)
    ensures KeyOf(s, req) == None == KeyOf(s + [b], req)
    ensures HeaderSizeOf(s, req) == NOT_SET == HeaderSizeOf(s + [b], req)
    ensures !HeaderCompleteOf(s + [b], req)
  {
  }

  /** Until the header is complete nothing of the payload is set. */
  lemma NotCompleteYet(s: seq<byte>, req: bool)
    requires !HeaderCompleteOf(s, req)
    ensures !CompleteOf(s, req) && PayloadOf(s, req).None?
    ensures !ThrowsNullPointer(s, req) && !RequestsClose(s, req)
  {
  }

  /**
   * The header completes on the call that brings its last byte; only an
   * unmasked frame whose MASK check threw completes one call later.
   */
  lemma CompletesOnTime(s: seq<byte>, b: byte, req: bool)
    requires !HeaderCompleteOf(s, req) && HeaderCompleteOf(s + [b], req)
    ensures |s + [b]| <= HeaderSizeOf(s + [b], req) + 1
    ensures |s + [b]| == HeaderSizeOf(s + [b], req) + 1 ==> MaskedOf(s + [b]) == Some(false)
  {
    PrefixFields(s, b, req);
  }

  /** A complete frame stays complete: isComplete is never reset. */
  lemma CompleteStable(s: seq<byte>, b: byte, req: bool)
    requires CompleteOf(s, req)
    ensures CompleteOf(s + [b], req)
  {
    HeaderStable(s, b, req);
  }

  /** The completion block keeps or sets the payload fields as the bytes say. */
  lemma PayloadStable(s: seq<byte>, b: byte, req: bool)
    requires HeaderCompleteOf(s + [b], req)
    ensures var t := s + [b];
            var hs := HeaderSizeOf(t, req);
            var len := LengthOf(t, req);
            len != 0 && |t| - hs != len ==>
              PayloadOf(t, req) == PayloadOf(s, req) && CompleteOf(t, req) == CompleteOf(s, req)
  {
    var t := s + [b];
    if HeaderCompleteOf(s, req) {
      HeaderStable(s, b, req);
      var hs := HeaderSizeOf(t, req);
      var len := LengthOf(t, req);
      if |s| >= hs + len && len > 0 {
        SliceExtend(s, b, hs, hs + len);
      }
    } else {
      CompletesOnTime(s, b, req);
    }
  }
}
