/** Binary frames of vermyth/mcp/binary_transport.py: the encoder, the buffer-consuming
    decoder, and streams of frames. */
module Framing {
  import opened Wrappers
  import Order

  type Byte = x: int | 0 <= x < 256

  /** "VMTH". */
  const MAGIC: seq<Byte> := [86, 77, 84, 72]
  const VERSION: Byte := 1
  const HEADER_SIZE: nat := 10
  const LENGTH_LIMIT: nat := 0x1_0000_0000

  datatype Frame = Frame(kind: int, payload: seq<Byte>)

  datatype FrameError =
    IncompleteHeader | InvalidMagic | UnsupportedVersion | IncompletePayload | LengthOutOfRange

  /** An unsigned 32-bit number, most significant byte first. */
  function PackLength(n: nat): (r: seq<Byte>)
    requires n < LENGTH_LIMIT
    ensures |r| == 4
  {
    [n / 0x100_0000, n / 0x1_0000 % 256, n / 0x100 % 256, n % 256]
  }

  function UnpackLength(b: seq<Byte>): (n: nat)
    requires |b| == 4
    ensures n < LENGTH_LIMIT
  {
    b[0] as int * 0x100_0000 + b[1] as int * 0x1_0000 + b[2] as int * 0x100 + b[3]
  }

  lemma UnpackPacked(n: nat)
    requires n < LENGTH_LIMIT
    ensures UnpackLength(PackLength(n)) == n
  {
    assert n / 0x100 == n / 0x1_0000 * 256 + n / 0x100 % 256;
    assert n / 0x1_0000 == n / 0x100_0000 * 256 + n / 0x1_0000 % 256;
  }

  lemma PackUnpacked(b: seq<Byte>)
    requires |b| == 4
    ensures PackLength(UnpackLength(b)) == b
  {
    var n := UnpackLength(b);
    var b0, b1, b2: int := b[0], b[1], b[2];
    assert n / 0x100 == b0 * 0x1_0000 + b1 * 0x100 + b2;
    assert n / 0x1_0000 == b0 * 0x100 + b1;
    assert n / 0x100_0000 == b[0];
  }

  predicate ValidFrame(f: Frame) {
    0 <= f.kind < 256 && |f.payload| < LENGTH_LIMIT
  }

  /** encode_frame: the type is cut to its low byte; a payload whose length does not fit
      32 bits cannot be packed. */
  function EncodeFrame(kind: int, payload: seq<Byte>): Result<seq<Byte>, FrameError> {
    if |payload| >= LENGTH_LIMIT then Failure(LengthOutOfRange)
    else Success(MAGIC + [VERSION, kind % 256] + PackLength(|payload|) + payload)
  }

  function Encoding(f: Frame): (r: seq<Byte>)
    requires ValidFrame(f)
    ensures EncodeFrame(f.kind, f.payload) == Success(r)
    ensures |r| == HEADER_SIZE + |f.payload|
  {
    MAGIC + [VERSION, f.kind] + PackLength(|f.payload|) + f.payload
  }

  /** Up to `n` bytes from the front. */
  function Front(s: seq<Byte>, n: nat): seq<Byte> {
    if n <= |s| then s[..n] else s
  }

  function Rest(s: seq<Byte>, n: nat): seq<Byte> {
    if n <= |s| then s[n..] else []
  }

  /** One call of the decoder: its answer (None at the end of the stream) and the
      bytes it leaves in the buffer. */
  function Decode(s: seq<Byte>): (Result<Option<Frame>, FrameError>, seq<Byte>) {
    var header, rest := Front(s, HEADER_SIZE), Rest(s, HEADER_SIZE);
    if header == [] then (Success(None), rest)
    else if |header| != HEADER_SIZE then (Failure(IncompleteHeader), rest)
    else if header[..4] != MAGIC then (Failure(InvalidMagic), rest)
    else if header[4] != VERSION then (Failure(UnsupportedVersion), rest)
    else
      var length := UnpackLength(header[6..]);
      var payload := Front(rest, length);
      if |payload| != length then (Failure(IncompletePayload), Rest(rest, length))
      else (Success(Some(Frame(header[5], payload))), Rest(rest, length))
  }

  /** A buffered reader over a byte string. */
  class Buffer {
    var data: seq<Byte>
    var pos: nat

    ghost predicate Valid()
      reads this
    {
      pos <= |data|
    }

    function Unread(): seq<Byte>
      requires Valid()
      reads this
    {
      data[pos..]
    }

    constructor (bytes: seq<Byte>)
      ensures Valid() && Unread() == bytes
    {
      data, pos := bytes, 0;
    }

    method Read(n: nat) returns (r: seq<Byte>)
      requires Valid()
      modifies this`pos
      ensures Valid() && r == Front(old(Unread()), n) && Unread() == Rest(old(Unread()), n)
    {
      var end := if n <= |data| - pos then pos + n else |data|;
      r := data[pos..end];
      pos := end;
    }
  }

  /** decode_frame_from_buffer. */
  method DecodeFrame(buf: Buffer) returns (r: Result<Option<Frame>, FrameError>)
    requires buf.Valid()
    modifies buf
    ensures buf.Valid()
    ensures (r, buf.Unread()) == Decode(old(buf.Unread()))
  {
    var header := buf.Read(HEADER_SIZE);
    if header == [] {
      return Success(None);
    }
    if |header| != HEADER_SIZE {
      return Failure(IncompleteHeader);
    }
    if header[..4] != MAGIC {
      return Failure(InvalidMagic);
    }
    if header[4] != VERSION {
      return Failure(UnsupportedVersion);
    }
    var length := UnpackLength(header[6..]);
    var payload := buf.Read(length);
    if |payload| != length {
      return Failure(IncompletePayload);
    }
    return Success(Some(Frame(header[5], payload)));
  }

  // ---- Streams ----

  function EncodeAll(frames: seq<Frame>): seq<Byte>
    requires forall f :: f in frames ==> ValidFrame(f)
  {
    if frames == [] then [] else Encoding(frames[0]) + EncodeAll(frames[1..])
  }

  /** The frames decoded one after the other, and how the stream ends. */
  datatype Stream = Stream(frames: seq<Frame>, end: Option<FrameError>)

  function DecodeAll(s: seq<Byte>): Stream
    decreases |s|
  {
    var (r, rest) := Decode(s);
    match r
    case Failure(e) => Stream([], Some(e))
    case Success(None) => Stream([], None)
    case Success(Some(f)) =>
      assert |rest| < |s|;
      var tail := DecodeAll(rest);
      Stream([f] + tail.frames, tail.end)
  }

  /** Decoding undoes encoding and leaves what follows. */
  lemma DecodeEncoding(f: Frame, more: seq<Byte>)
    requires ValidFrame(f)
    ensures Decode(Encoding(f) + more) == (Success(Some(f)), more)
  {
    var s := Encoding(f) + more;
    var header := MAGIC + [VERSION, f.kind] + PackLength(|f.payload|);
    assert Encoding(f) == header + f.payload;
    assert s[..HEADER_SIZE] == header;
    assert s[HEADER_SIZE..] == f.payload + more;
    assert header[..4] == MAGIC && header[6..] == PackLength(|f.payload|);
    UnpackPacked(|f.payload|);
    assert (f.payload + more)[..|f.payload|] == f.payload;
    assert (f.payload + more)[|f.payload|..] == more;
  }

  /** A decoded frame is valid, and its encoding is what was consumed. */
  lemma DecodedIsEncoding(s: seq<Byte>)
    requires Decode(s).0.Success? && Decode(s).0.value.Some?
    ensures ValidFrame(Decode(s).0.value.value)
    ensures s == Encoding(Decode(s).0.value.value) + Decode(s).1
  {
    var f, rest := Decode(s).0.value.value, Decode(s).1;
    var header := s[..HEADER_SIZE];
    PackUnpacked(header[6..]);
    assert header == header[..4] + [header[4], header[5]] + header[6..];
    assert s == header + s[HEADER_SIZE..];
    assert s[HEADER_SIZE..] == f.payload + rest;
  }

  /** A proper, non-empty part of a frame is rejected as incomplete. */
  lemma DecodeTruncated(f: Frame, k: nat)
    requires ValidFrame(f) && 0 < k < |Encoding(f)|
    ensures Decode(Encoding(f)[..k]).0 == Failure(if k < HEADER_SIZE then IncompleteHeader else IncompletePayload)
  {
    var s := Encoding(f)[..k];
    if k >= HEADER_SIZE {
      var header := MAGIC + [VERSION, f.kind] + PackLength(|f.payload|);
      assert s[..HEADER_SIZE] == header;
      assert header[..4] == MAGIC && header[6..] == PackLength(|f.payload|);
      UnpackPacked(|f.payload|);
    }
  }

  lemma DecodeAllStep(f: Frame, rest: seq<Byte>)
    requires ValidFrame(f)
    ensures DecodeAll(Encoding(f) + rest) == Stream([f] + DecodeAll(rest).frames, DecodeAll(rest).end)
  {
    DecodeEncoding(f, rest);
  }

  lemma {:induction false} DecodeAllOf(frames: seq<Frame>, more: seq<Byte>)
    requires forall f :: f in frames ==> ValidFrame(f)
    ensures DecodeAll(EncodeAll(frames) + more)
         == Stream(frames + DecodeAll(more).frames, DecodeAll(more).end)
  {
    if frames == [] {
      assert EncodeAll(frames) + more == more;
      assert frames + DecodeAll(more).frames == DecodeAll(more).frames;
    } else {
      Order.Regroup(Encoding(frames[0]), EncodeAll(frames[1..]), more);
      DecodeAllStep(frames[0], EncodeAll(frames[1..]) + more);
      DecodeAllOf(frames[1..], more);
      Order.Regroup([frames[0]], frames[1..], DecodeAll(more).frames);
      assert [frames[0]] + frames[1..] == frames;
    }
  }

  /** Decoding a stream of encoded frames gives back exactly those frames. */
  lemma StreamRoundTrip(frames: seq<Frame>)
    requires forall f :: f in frames ==> ValidFrame(f)
    ensures DecodeAll(EncodeAll(frames)) == Stream(frames, None)
  {
    DecodeAllOf(frames, []);
    assert EncodeAll(frames) + [] == EncodeAll(frames);
    assert frames + [] == frames;
  }

  /** A stream cut inside its last frame gives the frames before it and then an error. */
  lemma TruncatedStream(frames: seq<Frame>, last: Frame, k: nat)
    requires ValidFrame(last) && forall f :: f in frames ==> ValidFrame(f)
    requires 0 < k < |Encoding(last)|
    ensures DecodeAll(EncodeAll(frames) + Encoding(last)[..k])
         == Stream(frames, Some(if k < HEADER_SIZE then IncompleteHeader else IncompletePayload))
  {
    DecodeTruncated(last, k);
    DecodeAllOf(frames, Encoding(last)[..k]);
    assert frames + [] == frames;
  }

  /** A byte string decodes to a clean end only if it is the encoding of what it decodes to. */
  lemma {:induction false} CleanStreamIsEncoding(s: seq<Byte>)
    requires DecodeAll(s).end == None
    ensures forall f :: f in DecodeAll(s).frames ==> ValidFrame(f)
    ensures EncodeAll(DecodeAll(s).frames) == s
    decreases |s|
  {
    var (r, rest) := Decode(s);
    if r.value.Some? {
      DecodedIsEncoding(s);
      CleanStreamIsEncoding(rest);
      var tail := DecodeAll(rest).frames;
      assert ([r.value.value] + tail)[1..] == tail;
    }
  }

  // ---- The format, byte by byte ----

  /** An encoding: four magic bytes, the version, the type, the payload's length with its most
      significant byte first, and the payload. */
  lemma EncodingBytes(f: Frame)
    requires ValidFrame(f)
    ensures var b := Encoding(f);
      && |b| == 10 + |f.payload|
      && b[0] == 86 && b[1] == 77 && b[2] == 84 && b[3] == 72 && b[4] == 1 && b[5] == f.kind
      && b[6] as int * 16777216 + b[7] as int * 65536 + b[8] as int * 256 + b[9] as int == |f.payload|
      && b[10..] == f.payload
  {
    var header := MAGIC + [VERSION, f.kind] + PackLength(|f.payload|);
    var packed := PackLength(|f.payload|);
    UnpackPacked(|f.payload|);
    assert Encoding(f) == header + f.payload;
    assert header[6] == packed[0] && header[7] == packed[1] && header[8] == packed[2] && header[9] == packed[3];
  }

  /** Any type is encoded by its low byte; only a payload of 2^32 bytes or more is refused. */
  lemma EncodeExactly(kind: int, payload: seq<Byte>)
    ensures EncodeFrame(kind, payload).Failure? <==> |payload| >= 4294967296
    ensures |payload| < 4294967296 ==>
      EncodeFrame(kind, payload) == Success(Encoding(Frame(kind % 256, payload)))
  {
  }

  /** The length a header of ten bytes announces. */
  ghost function Announced(s: seq<Byte>): nat
    requires |s| >= 10
  {
    s[6] as int * 16777216 + s[7] as int * 65536 + s[8] as int * 256 + s[9] as int
  }

  /** Every answer of the decoder, and what it leaves unread, by the bytes it meets. */
  lemma DecodeExactly(s: seq<Byte>)
    ensures s == [] ==> Decode(s) == (Success(None), [])
    ensures 0 < |s| < 10 ==> Decode(s) == (Failure(IncompleteHeader), [])
    ensures |s| >= 10 && s[..4] != [86, 77, 84, 72] ==> Decode(s) == (Failure(InvalidMagic), s[10..])
    ensures |s| >= 10 && s[..4] == [86, 77, 84, 72] && s[4] != 1 ==>
      Decode(s) == (Failure(UnsupportedVersion), s[10..])
    ensures |s| >= 10 && s[..4] == [86, 77, 84, 72] && s[4] == 1 && |s| < 10 + Announced(s) ==>
      Decode(s) == (Failure(IncompletePayload), [])
    ensures |s| >= 10 && s[..4] == [86, 77, 84, 72] && s[4] == 1 && |s| >= 10 + Announced(s) ==>
      Decode(s) == (Success(Some(Frame(s[5], s[10..10 + Announced(s)]))), s[10 + Announced(s)..])
  {
    if |s| >= 10 {
      assert s[..10][..4] == s[..4];
      assert UnpackLength(s[..10][6..]) == Announced(s);
      if |s| >= 10 + Announced(s) {
        assert s[10..][..Announced(s)] == s[10..10 + Announced(s)];
        assert s[10..][Announced(s)..] == s[10 + Announced(s)..];
      }
    }
  }
}
