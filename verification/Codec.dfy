/** Frames and their strict wire codec: include/picomesh/frame.h and src/frame.cpp. */
module Codec {
  import opened Bytes
  import opened Checksum

  const FRAME_MAGIC: Byte := 0xB7
  const PROTOCOL_VERSION: Byte := 1
  const MAX_PAYLOAD := 32
  const HEADER_SIZE := 7
  const FRAME_OVERHEAD := 8
  const MAX_ENCODED := 40

  /** Message types are an open 8-bit enumeration; decoding does not validate them. */
  const HEARTBEAT: Byte := 0x01
  const COMMAND: Byte := 0x10
  const ACKNOWLEDGEMENT: Byte := 0x11

  type Payload = p: seq<Byte> | |p| == MAX_PAYLOAD witness Zeros(MAX_PAYLOAD)

  datatype Frame = Frame(
    kind: Byte, flags: Byte, nodeId: Byte, sequence: Byte, payload: Payload, payloadLength: Byte)

  datatype DecodeError =
    TooShort | BadMagic | UnsupportedVersion | PayloadTooLarge | LengthMismatch | BadChecksum

  datatype DecodeResult = Ok(frame: Frame) | Err(error: DecodeError)

  // ---------------------------------------------------------------- specification

  /** Encoding clamps an oversized payload length. */
  function Clamp(n: Byte): (k: nat)
    ensures k <= n && k <= MAX_PAYLOAD
  {
    if n < MAX_PAYLOAD then n else MAX_PAYLOAD
  }

  /** Everything but the checksum. */
  function Body(f: Frame): (s: seq<Byte>)
    ensures |s| == HEADER_SIZE + Clamp(f.payloadLength)
  {
    [FRAME_MAGIC, PROTOCOL_VERSION, f.kind, f.flags, f.nodeId, f.sequence, Clamp(f.payloadLength)]
    + f.payload[..Clamp(f.payloadLength)]
  }

  function Encode(f: Frame): (s: seq<Byte>)
    ensures |s| == FRAME_OVERHEAD + Clamp(f.payloadLength) <= MAX_ENCODED
    ensures s[..|s| - 1] == Body(f)
    ensures s[0] == FRAME_MAGIC && s[1] == PROTOCOL_VERSION && s[6] == |s| - FRAME_OVERHEAD
    ensures Balanced(s)
  {
    BalancedByComplement(Body(f), Complement(Body(f)));
    Body(f) + [Complement(Body(f))]
  }

  function Padded(s: seq<Byte>): (p: Payload)
    requires |s| <= MAX_PAYLOAD
  {
    s + Zeros(MAX_PAYLOAD - |s|)
  }

  /** The checks of `decode_frame`, in the order the protocol prescribes. */
  function Decode(s: seq<Byte>): DecodeResult {
    if |s| < FRAME_OVERHEAD then Err(TooShort)
    else if s[0] != FRAME_MAGIC then Err(BadMagic)
    else if s[1] != PROTOCOL_VERSION then Err(UnsupportedVersion)
    else if s[6] > MAX_PAYLOAD then Err(PayloadTooLarge)
    else if |s| != FRAME_OVERHEAD + s[6] then Err(LengthMismatch)
    else if !Balanced(s) then Err(BadChecksum)
    else Ok(Frame(s[2], s[3], s[4], s[5], Padded(s[HEADER_SIZE..HEADER_SIZE + s[6]]), s[6]))
  }

  /** `frame_length_from_prefix`. */
  function FrameLengthFromPrefix(s: seq<Byte>): (n: nat)
    ensures n <= |s|
  {
    if |s| < HEADER_SIZE then 0
    else if s[0] != FRAME_MAGIC || s[1] != PROTOCOL_VERSION then 0
    else if s[6] > MAX_PAYLOAD then 0
    else if FRAME_OVERHEAD + s[6] <= |s| then FRAME_OVERHEAD + s[6] else 0
  }

  /** The controller transports cut a padded read to the frame it starts with, if there is one. */
  function Trim(read: seq<Byte>): seq<Byte> {
    if FrameLengthFromPrefix(read) != 0 then read[..FrameLengthFromPrefix(read)] else read
  }

  /** What a receiver sees of `f`: clamped length, nothing behind the active payload. */
  function Normalise(f: Frame): Frame {
    f.(payload := Padded(f.payload[..Clamp(f.payloadLength)]), payloadLength := Clamp(f.payloadLength))
  }

  // ---------------------------------------------------------------- the code

  /** `encode_frame`: fills a fixed 40-byte buffer and says how much of it is in use. */
  method EncodeFrame(f: Frame) returns (bytes: array<Byte>, length: nat)
    ensures fresh(bytes) && bytes.Length == MAX_ENCODED && length <= MAX_ENCODED
    ensures bytes[..length] == Encode(f)
    ensures forall i | length <= i < MAX_ENCODED :: bytes[i] == 0
  {
    ghost var body := Body(f);
    var n: nat := Clamp(f.payloadLength);
    bytes := new Byte[MAX_ENCODED](_ => 0);
    bytes[0], bytes[1], bytes[2], bytes[3] := FRAME_MAGIC, PROTOCOL_VERSION, f.kind, f.flags;
    bytes[4], bytes[5], bytes[6] := f.nodeId, f.sequence, n;
    for i := 0 to n
      invariant forall j | 0 <= j < HEADER_SIZE + i :: bytes[j] == body[j]
      invariant forall j | HEADER_SIZE + i <= j < MAX_ENCODED :: bytes[j] == 0
    {
      bytes[HEADER_SIZE + i] := f.payload[i];
    }
    length := FRAME_OVERHEAD + n;
    assert bytes[..length - 1] == body;
    var c := Checksum8(bytes[..length - 1]);
    bytes[length - 1] := c;
    assert bytes[..length] == body + [c];
  }

  /** `decode_frame`: fills the payload of a zeroed frame once every check has passed. */
  method DecodeFrame(data: seq<Byte>) returns (r: DecodeResult)
    ensures r == Decode(data)
  {
    if |data| < FRAME_OVERHEAD {
      return Err(TooShort);
    }
    if data[0] != FRAME_MAGIC {
      return Err(BadMagic);
    }
    if data[1] != PROTOCOL_VERSION {
      return Err(UnsupportedVersion);
    }
    var n: nat := data[6];
    if n > MAX_PAYLOAD {
      return Err(PayloadTooLarge);
    }
    if |data| != FRAME_OVERHEAD + n {
      return Err(LengthMismatch);
    }
    var balanced := VerifyChecksum8(data);
    if !balanced {
      return Err(BadChecksum);
    }
    var payload := new Byte[MAX_PAYLOAD](_ => 0);
    for i := 0 to n
      invariant payload[..i] == data[HEADER_SIZE..HEADER_SIZE + i]
      invariant forall j | i <= j < MAX_PAYLOAD :: payload[j] == 0
    {
      payload[i] := data[HEADER_SIZE + i];
    }
    assert payload[..] == Padded(data[HEADER_SIZE..HEADER_SIZE + n]);
    r := Ok(Frame(data[2], data[3], data[4], data[5], payload[..], n));
  }

  // ---------------------------------------------------------------- a prefix-free bijection

  /** Every frame survives the wire, up to the bytes that are not part of the message. */
  lemma RoundTrip(f: Frame)
    ensures Decode(Encode(f)) == Ok(Normalise(f))
  {
  }

  /** The wire layout, byte by byte, with the sum that the last byte closes. */
  lemma WireLayout(f: Frame)
    ensures var s := Encode(f);
      && s[..7] == [0xB7, 1, f.kind, f.flags, f.nodeId, f.sequence, |s| - 8]
      && s[7..|s| - 1] == f.payload[..|s| - 8]
      && Sum(s) % 256 == 0
  {
  }

  /** An oversized length is cut to 32 and carries the whole payload; any other length is carried as it is. */
  lemma LengthIsCutAtThirtyTwo(f: Frame)
    ensures Decode(Encode(f)).Ok?
    ensures var g := Decode(Encode(f)).frame;
      && g == f.(payload := g.payload, payloadLength := g.payloadLength)
      && (f.payloadLength >= 32 ==> |Encode(f)| == 40 && g.payloadLength == 32 && g.payload == f.payload)
      && (f.payloadLength < 32 ==>
            && |Encode(f)| == 8 + f.payloadLength && g.payloadLength == f.payloadLength
            && g.payload[..g.payloadLength] == f.payload[..f.payloadLength]
            && forall i | f.payloadLength <= i < 32 :: g.payload[i] == 0)
  {
    RoundTrip(f);
    assert f.payload[..32] == f.payload;
  }

  /** Which check fails first, for every byte string. */
  lemma DecodeErrorsExactly(s: seq<Byte>)
    ensures Decode(s) == Err(TooShort) <==> |s| < 8
    ensures Decode(s) == Err(BadMagic) <==> |s| >= 8 && s[0] != 0xB7
    ensures Decode(s) == Err(UnsupportedVersion) <==> |s| >= 8 && s[0] == 0xB7 && s[1] != 1
    ensures Decode(s) == Err(PayloadTooLarge) <==> |s| >= 8 && s[..2] == [0xB7, 1] && s[6] > 32
    ensures Decode(s) == Err(LengthMismatch) <==> |s| >= 8 && s[..2] == [0xB7, 1] && s[6] <= 32 && |s| != 8 + s[6]
    ensures Decode(s) == Err(BadChecksum) <==>
      |s| >= 8 && s[..2] == [0xB7, 1] && s[6] <= 32 && |s| == 8 + s[6] && Sum(s) % 256 != 0
  {
    assert |s| >= 8 ==> s[..2] == [s[0], s[1]];
  }

  /** No part of a frame decodes, and this is why. */
  lemma TruncationIsCaught(f: Frame, n: nat)
    requires n < |Encode(f)|
    ensures Decode(Encode(f)[..n]) == Err(if n < 8 then TooShort else LengthMismatch)
  {
  }

  /** Every accepted byte string is the encoding of the frame it decodes to. */
  lemma DecodeThenEncode(s: seq<Byte>)
    requires Decode(s).Ok?
    ensures Encode(Decode(s).frame) == s
    ensures Normalise(Decode(s).frame) == Decode(s).frame
  {
    var f, n := Decode(s).frame, |s| - 1;
    assert f.payload[..s[6]] == s[HEADER_SIZE..n];
    assert s[..n] == Body(f);
    assert s == s[..n] + [s[n]];
    BalancedByComplement(s[..n], s[n]);
  }

  /** So accepted strings and normalised frames are in one-to-one correspondence. */
  lemma EncodingsAreExactlyTheAccepted(s: seq<Byte>, f: Frame)
    ensures Decode(s) == Ok(f) <==> s == Encode(f) && f == Normalise(f)
  {
    if Decode(s) == Ok(f) {
      DecodeThenEncode(s);
    }
    RoundTrip(f);
  }

  /** No accepted string is a proper prefix of another. */
  lemma PrefixFree(s: seq<Byte>, t: seq<Byte>)
    requires Decode(s).Ok? && Decode(s + t).Ok?
    ensures t == []
  {
  }

  /** Padding of any content and length does not hide where the frame ends. */
  lemma PaddingIsTrimmed(f: Frame, pad: seq<Byte>)
    ensures FrameLengthFromPrefix(Encode(f) + pad) == |Encode(f)|
    ensures (Encode(f) + pad)[..|Encode(f)|] == Encode(f)
  {
  }

  /** A non-zero answer is the only length at which any prefix of the buffer can decode. */
  lemma TrimmedLengthIsTheOnlyCandidate(s: seq<Byte>, n: nat)
    requires n <= |s| && Decode(s[..n]).Ok?
    ensures FrameLengthFromPrefix(s) == n
  {
  }

  /** The first `n` bytes are a frame, up to their checksum byte. */
  ghost predicate StartsFrame(read: seq<Byte>, n: nat) {
    1 <= n <= |read| && Decode(read[..n - 1] + [Complement(read[..n - 1])]).Ok?
  }

  /** A non-zero answer `n` says exactly: the first `n` bytes are a frame, up to their checksum byte. */
  lemma PrefixLengthExactly(s: seq<Byte>, n: nat)
    requires n >= 1
    ensures FrameLengthFromPrefix(s) == n <==> StartsFrame(s, n)
  {
  }

  /** A controller gets the frame that its read starts with; when it starts with none, the whole read. */
  lemma TrimExactly(read: seq<Byte>)
    ensures forall n: nat | StartsFrame(read, n) :: Trim(read) == read[..n]
    ensures (forall n: nat :: !StartsFrame(read, n)) ==> Trim(read) == read
  {
    forall n: nat | StartsFrame(read, n) ensures Trim(read) == read[..n] {
      PrefixLengthExactly(read, n);
    }
    var n := FrameLengthFromPrefix(read);
    if n != 0 {
      PrefixLengthExactly(read, n);
      assert StartsFrame(read, n);
    }
  }

  // ---------------------------------------------------------------- corruption

  /** The sum of the byte differences `t[i] - s[i]`. */
  function Drift(s: seq<Byte>, t: seq<Byte>): int
    requires |s| == |t|
  {
    if s == [] then 0
    else Drift(s[..|s| - 1], t[..|t| - 1]) + t[|t| - 1] - s[|s| - 1]
  }

  lemma {:induction false} DriftIsSumDifference(s: seq<Byte>, t: seq<Byte>)
    requires |s| == |t|
    ensures Drift(s, t) == Sum(t) - Sum(s)
  {
    if s == [] {
    } else {
      DriftIsSumDifference(s[..|s| - 1], t[..|t| - 1]);
    }
  }

  /** Same length and framing bytes kept: damage is noticed unless its differences cancel. */
  lemma DamageIsCaughtUnlessItCancels(f: Frame, t: seq<Byte>)
    requires |t| == |Encode(f)|
    requires t[0] == Encode(f)[0] && t[1] == Encode(f)[1] && t[6] == Encode(f)[6]
    ensures Decode(t).Ok? <==> Drift(Encode(f), t) % 256 == 0
    ensures !Decode(t).Ok? ==> Decode(t) == Err(BadChecksum)
  {
    DriftIsSumDifference(Encode(f), t);
  }

  /** Any change of any one byte is noticed, and for this reason. */
  lemma SingleByteDamageIsCaught(f: Frame, i: nat, v: Byte)
    requires i < |Encode(f)| && v != Encode(f)[i]
    ensures Decode(Encode(f)[i := v]) == Err(
      if i == 0 then BadMagic
      else if i == 1 then UnsupportedVersion
      else if i == 6 then (if v > MAX_PAYLOAD then PayloadTooLarge else LengthMismatch)
      else BadChecksum)
  {
    SumUpdate(Encode(f), i, v);
  }
}
