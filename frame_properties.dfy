/**
 * What the decoded state of a WebSocketFrame means: a reference encoder for
 * section 5.2 of RFC 6455 whose output the decoder reads back field for
 * field, the bounds of each payload-length scheme, and the frames that can
 * never complete.
 */
module FrameProperties {
  import opened Common
  import opened NumberBaseConverter
  import opened FrameLayout
  import opened Frames

  /** The first header byte: FIN, RSV1-3, then the opcode. */
  function FirstByte(fin: bool, rsv1: bool, rsv2: bool, rsv3: bool, t: Type): (v: int)
    ensures 0 <= v < 256
  {
    (if fin then 128 else 0) + (if rsv1 then 64 else 0) + (if rsv2 then 32 else 0)
    + (if rsv3 then 16 else 0) + t.GetOpcode()
  }

  /**
   * MASK set, then the shortest length scheme that holds n: the 7-bit
   * indicator, 126 and a 16-bit length, or 127 and a 64-bit length.
   */
  function LengthBytes(n: nat): (r: seq<byte>)
    requires n < Pow2(64)
    ensures 1 <= |r| <= 9
  {
    if n <= 125 then [(128 + n) as byte]
    else if n < 65536 then [254] + BigEndianBytes(n, 2)
    else [255] + BigEndianBytes(n, 8)
  }

  /** A masked frame carrying data under key, as a client sends it. */
  function EncodeFrame(fin: bool, rsv1: bool, rsv2: bool, rsv3: bool, t: Type, key: seq<byte>, data: seq<byte>): seq<byte>
    requires |key| == 4 && |data| < Pow2(64)
  {
    [FirstByte(fin, rsv1, rsv2, rsv3, t) as byte] + LengthBytes(|data|) + key + Unmask(data, key)
  }

  /** The first byte of an encoded frame carries its flags and opcode. */
  lemma FirstByteRoundTrip(fin: bool, rsv1: bool, rsv2: bool, rsv3: bool, t: Type, s: seq<byte>)
    requires |s| >= 1 && s[0] == FirstByte(fin, rsv1, rsv2, rsv3, t) as byte
    ensures FinOf(s) == Some(fin) && Rsv1Of(s) == Some(rsv1)
    ensures Rsv2Of(s) == Some(rsv2) && Rsv3Of(s) == Some(rsv3)
    ensures FrameTypeOf(s) == Some(t)
  {
    var v := FirstByte(fin, rsv1, rsv2, rsv3, t);
    ByteOfInt(v);
    HighBitsArith(v, fin, rsv1, rsv2, rsv3, t.GetOpcode());
    TypeRoundTrip(t);
  }

  /** The length bytes of an encoded frame give back the length, and the header size. */
  lemma LengthRoundTrip(n: nat, s: seq<byte>, rest: seq<byte>)
    requires n < Pow2(64) && |s| >= 1 && |rest| >= 1
    requires s == [s[0]] + LengthBytes(n) + rest
    ensures MaskedOf(s) == Some(true) && !MaskMismatch(s, true)
    ensures IndicatorOf(s, true) == (if n <= 125 then n else if n < 65536 then 126 else 127)
    ensures LengthOf(s, true) == n
    ensures BaseHeaderSize(IndicatorOf(s, true)) == 1 + |LengthBytes(n)|
  {
    if n <= 125 {
      SmallLengthRoundTrip(n, s, rest);
    } else if n < 65536 {
      MediumLengthRoundTrip(n, s, rest);
    } else {
      LargeLengthRoundTrip(n, s, rest);
    }
  }

  /** The 7-bit scheme of LengthRoundTrip. */
  lemma SmallLengthRoundTrip(n: nat, s: seq<byte>, rest: seq<byte>)
    requires n <= 125 && |s| >= 1 && |rest| >= 1
    requires s == [s[0]] + LengthBytes(n) + rest
    ensures MaskedOf(s) == Some(true) && !MaskMismatch(s, true)
    ensures IndicatorOf(s, true) == n && LengthOf(s, true) == n
  {
    assert s[1] == (128 + n) as byte;
    ByteOfInt(128 + n);
    SecondByteRoundTrip(s[1], s);
  }

  /** The 16-bit scheme of LengthRoundTrip. */
  lemma MediumLengthRoundTrip(n: nat, s: seq<byte>, rest: seq<byte>)
    requires 125 < n < 65536 && n < Pow2(64) && |s| >= 1 && |rest| >= 1
    requires s == [s[0]] + LengthBytes(n) + rest
    ensures MaskedOf(s) == Some(true) && !MaskMismatch(s, true)
    ensures IndicatorOf(s, true) == 126 && LengthOf(s, true) == n
  {
    assert LengthBytes(n) == [254] + BigEndianBytes(n, 2);
    SecondByteRoundTrip(s[1], s);
    assert s[2..PLS_MEDIUM] == BigEndianBytes(n, 2);
    Pow2Values();
    BigEndianRoundTrip(n, 2);
  }

  /** The 64-bit scheme of LengthRoundTrip. */
  lemma LargeLengthRoundTrip(n: nat, s: seq<byte>, rest: seq<byte>)
    requires 65536 <= n < Pow2(64) && |s| >= 1 && |rest| >= 1
    requires s == [s[0]] + LengthBytes(n) + rest
    ensures MaskedOf(s) == Some(true) && !MaskMismatch(s, true)
    ensures IndicatorOf(s, true) == 127 && LengthOf(s, true) == n
  {
    assert LengthBytes(n) == [255] + BigEndianBytes(n, 8);
    SecondByteRoundTrip(s[1], s);
    assert s[2..PLS_LARGE] == BigEndianBytes(n, 8);
    BigEndianRoundTrip(n, 8);
  }

  /** A second byte with MASK set: the mask matches the requirement and the indicator is its low bits. */
  lemma SecondByteRoundTrip(second: byte, s: seq<byte>)
    requires 128 <= second as int && |s| >= 3 && s[1] == second
    ensures MaskedOf(s) == Some(true) && !MaskMismatch(s, true)
    ensures IndicatorOf(s, true) == second as int - 128
  {
    TopBitArith(second as int, true, second as int - 128);
  }

  /**
   * Round trip: fed a masked frame from the reference encoder, the decoder
   * (with the mask required) reads back every header field, is complete
   * without throwing, and its payload is the data the sender masked.
   */
  lemma FrameRoundTrip(fin: bool, rsv1: bool, rsv2: bool, rsv3: bool, t: Type, key: seq<byte>, data: seq<byte>)
    requires |key| == 4 && |data| < Pow2(64)
    ensures var s := EncodeFrame(fin, rsv1, rsv2, rsv3, t, key, data);
            && FinOf(s) == Some(fin) && Rsv1Of(s) == Some(rsv1)
            && Rsv2Of(s) == Some(rsv2) && Rsv3Of(s) == Some(rsv3)
            && FrameTypeOf(s) == Some(t) && MaskedOf(s) == Some(true)
            && LengthOf(s, true) == |data| && KeyOf(s, true) == Some(key)
            && HeaderSizeOf(s, true) == |s| - |data|
            && CompleteOf(s, true) && Outcome(s, true) == Ok(true)
            && PayloadOf(s, true) == (if |data| == 0 then None else Some(data))
  {
    var s := EncodeFrame(fin, rsv1, rsv2, rsv3, t, key, data);
    EncodedHeader(fin, rsv1, rsv2, rsv3, t, key, data);
    MaskedPayload(s, 1 + |LengthBytes(|data|)|, key, data);
  }

  /** Once the header is read back, the key, the header size and the payload follow. */
  lemma MaskedPayload(s: seq<byte>, base: int, key: seq<byte>, data: seq<byte>)
    requires FinOf(s).Some? && Rsv1Of(s).Some? && Rsv2Of(s).Some? && Rsv3Of(s).Some?
    requires FrameTypeOf(s).Some? && MaskedOf(s) == Some(true) && !MaskMismatch(s, true)
    requires LengthOf(s, true) == |data| && BaseHeaderSize(IndicatorOf(s, true)) == base
    requires |key| == 4 && 0 <= base && |s| == base + 4 + |data|
    requires s[base..base + 4] == key && s[base + 4..] == Unmask(data, key)
    ensures KeyOf(s, true) == Some(key) && HeaderSizeOf(s, true) == base + 4
    ensures CompleteOf(s, true) && Outcome(s, true) == Ok(true)
    ensures PayloadOf(s, true) == (if |data| == 0 then None else Some(data))
  {
    assert s[base + 4..base + 4 + |data|] == Unmask(data, key);
    UnmaskInvolution(data, key);
  }

  /** The header half of the round trip: every field up to the key, and where the payload lies. */
  lemma EncodedHeader(fin: bool, rsv1: bool, rsv2: bool, rsv3: bool, t: Type, key: seq<byte>, data: seq<byte>)
    requires |key| == 4 && |data| < Pow2(64)
    ensures var s := EncodeFrame(fin, rsv1, rsv2, rsv3, t, key, data);
            var base := 1 + |LengthBytes(|data|)|;
            && FinOf(s) == Some(fin) && Rsv1Of(s) == Some(rsv1)
            && Rsv2Of(s) == Some(rsv2) && Rsv3Of(s) == Some(rsv3)
            && FrameTypeOf(s) == Some(t) && MaskedOf(s) == Some(true) && !MaskMismatch(s, true)
            && LengthOf(s, true) == |data| && BaseHeaderSize(IndicatorOf(s, true)) == base
            && |s| == base + 4 + |data| && s[base..base + 4] == key
            && s[base + 4..] == Unmask(data, key)
  {
    var s := EncodeFrame(fin, rsv1, rsv2, rsv3, t, key, data);
    var lengthBytes := LengthBytes(|data|);
    var masked := Unmask(data, key);
    var base := 1 + |lengthBytes|;
    assert s == [s[0]] + lengthBytes + (key + masked);
    FirstByteRoundTrip(fin, rsv1, rsv2, rsv3, t, s);
    LengthRoundTrip(|data|, s, key + masked);
    assert s[base..base + 4] == key;
    assert s[base + 4..] == masked;
  }

  /** Each scheme's length is within its field's range; the 7-bit one is at most 125. */
  lemma LengthBounds(s: seq<byte>, req: bool)
    requires LengthOf(s, req) != NOT_SET
    ensures var indicator := IndicatorOf(s, req);
            && 0 <= indicator < 128
            && (indicator <= 125 ==> LengthOf(s, req) == indicator)
            && (indicator == 126 ==> LengthOf(s, req) < 65536)
            && (indicator == 127 ==> LengthOf(s, req) < Pow2(64))
  {
    var indicator := IndicatorOf(s, req);
    if indicator == 126 {
      BigEndianBound(s[2..PLS_MEDIUM]);
      Pow2Values();
    } else if indicator == 127 {
      BigEndianBound(s[2..PLS_LARGE]);
    }
  }

  /** A big-endian number of n bytes is below 2^(8n). */
  lemma {:induction false} BigEndianBound(a: seq<byte>)
    ensures BigEndian(a) < Pow2(8 * |a|)
  {
    if a != [] {
      BigEndianBound(a[..|a| - 1]);
      Pow2Values();
      Pow2Add(8 * (|a| - 1), 8);
    }
  }

  /**
   * A frame whose opcode is not one of the six types never completes its
   * header, so process never reports it complete, however many bytes follow.
   */
  lemma UnknownOpcodeNeverCompletes(s: seq<byte>, req: bool)
    requires |s| >= 1 && !(s[0] as int % 16 in {0, 1, 2, 8, 9, 10})
    ensures !HeaderCompleteOf(s, req) && !CompleteOf(s, req)
    ensures Outcome(s, req) == Ok(false) || Outcome(s, req) == Err(IllegalState)
  {
  }

  /**
   * An unmasked frame with a payload never completes: at its last byte the
   * decoder dereferences the missing key, and every later call sees an
   * incomplete frame.
   */
  lemma UnmaskedPayloadNeverCompletes(s: seq<byte>, req: bool)
    requires HeaderCompleteOf(s, req) && MaskedOf(s) == Some(false) && LengthOf(s, req) > 0
    ensures !CompleteOf(s, req)
    ensures |s| == HeaderSizeOf(s, req) + LengthOf(s, req) <==> Outcome(s, req) == Err(NullPointer)
  {
  }
}
