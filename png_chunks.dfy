/** The PNG chunk stream and the chunk lister (`listPngChunks`).

    A PNG file is an 8-byte signature followed by chunks; each chunk is a
    4-byte big-endian length L, a 4-byte type, L data bytes and a 4-byte
    big-endian CRC, so it occupies L + 12 bytes (sections 5.2 and 5.3 of the
    W3C PNG Specification, Second Edition). `Parse` is the specification of
    the walk, `Serialize` the inverse framing, and `ListPngChunks` the loop
    that the lister runs. */
module PngChunks {
  import opened Bytes

  /** One chunk as listed: the type as a 4-character string (one character
      per byte), the declared length, the payload and the CRC field. */
  datatype Chunk = Chunk(chunkType: string, length: nat, data: seq<byte>, crc: nat)

  /** A walk either yields a value or stops at the offset of the first chunk
      whose framing runs past the end of the buffer. */
  datatype Result<T> = Ok(value: T) | MalformedChunk(offset: nat)

  /** Bytes before the first chunk: the PNG signature. */
  const SignatureLength: nat := 8
  /** Framing bytes around a chunk's data: length, type and CRC fields. */
  const ChunkOverhead: nat := 12

  /** `String.fromCharCode(b0, b1, b2, b3)`: one character per type byte. */
  function TypeString(b: seq<byte>): (s: string)
    requires |b| == 4
    ensures |s| == 4
  {
    [b[0] as char, b[1] as char, b[2] as char, b[3] as char]
  }

  /** `charCodeAt(0)` to `charCodeAt(3)` stored into a `Uint8Array`: the
      code modulo 256, and 0 (the stored form of `NaN`) past the end of a
      shorter string. */
  function TypeBytes(s: string): (b: seq<byte>)
    ensures |b| == 4
  {
    [CodeByte(s, 0), CodeByte(s, 1), CodeByte(s, 2), CodeByte(s, 3)]
  }

  /** `s.charCodeAt(i)` stored into a `Uint8Array`: a byte-sized character
      is stored as its own code. */
  function CodeByte(s: string, i: nat): (b: byte)
    ensures i < |s| && s[i] as int < 0x100 ==> b == s[i] as int
  {
    if i < |s| then (s[i] as int) % 0x100 else 0
  }

  /** `String.fromCharCode` then `charCodeAt` gives the type bytes back. */
  lemma TypeBytesRoundTrip(b: seq<byte>)
    requires |b| == 4
    ensures TypeBytes(TypeString(b)) == b
  {
  }

  /** `charCodeAt` then `String.fromCharCode` gives back a type of four
      byte-sized characters. */
  lemma TypeStringRoundTrip(s: string)
    requires |s| == 4 && forall i :: 0 <= i < 4 ==> s[i] as int < 0x100
    ensures TypeString(TypeBytes(s)) == s
  {
    var t := TypeString(TypeBytes(s));
    assert forall i :: 0 <= i < 4 ==> t[i] as int == s[i] as int;
    assert forall i :: 0 <= i < 4 ==> t[i] == s[i];
  }

  /** A chunk as a decoder produces it: a 4-character type of byte-sized
      characters, `length` equal to the payload size, and length and CRC
      that fit in 32 unsigned bits. */
  ghost predicate ValidChunk(c: Chunk) {
    && |c.chunkType| == 4
    && (forall i :: 0 <= i < 4 ==> c.chunkType[i] as int < 0x100)
    && c.length == |c.data|
    && c.length < TwoTo32
    && c.crc < TwoTo32
  }

  ghost predicate AllValid(cs: seq<Chunk>) {
    forall i :: 0 <= i < |cs| ==> ValidChunk(cs[i])
  }

  /** The framing bytes of a chunk exist and its declared data and CRC fit
      before the end of `buf`. */
  predicate FitsAt(buf: seq<byte>, off: nat): (fits: bool)
    ensures fits ==> off < |buf|
  {
    off + ChunkOverhead <= |buf| && off + ChunkOverhead + BeU32(buf, off) <= |buf|
  }

  /** The chunk whose length field starts at `off`: type from
      `off+4..off+8`, data from `off+8`, CRC right after the data. */
  function ChunkAt(buf: seq<byte>, off: nat): (c: Chunk)
    requires FitsAt(buf, off)
    ensures ValidChunk(c)
    ensures off + ChunkOverhead + c.length <= |buf|
  {
    var len := BeU32(buf, off);
    Chunk(TypeString(buf[off + 4..off + 8]), len,
          buf[off + 8..off + 8 + len], BeU32(buf, off + 8 + len))
  }

  /** Writing a decoded chunk back gives exactly the bytes it was read from. */
  lemma ChunkAtEncodes(buf: seq<byte>, off: nat)
    requires FitsAt(buf, off)
    ensures EncodeChunk(ChunkAt(buf, off)) == buf[off..off + ChunkOverhead + ChunkAt(buf, off).length]
  {
    var c := ChunkAt(buf, off);
    var len := c.length;
    DecodeEncode(buf, off);
    DecodeEncode(buf, off + 8 + len);
    TypeBytesRoundTrip(buf[off + 4..off + 8]);
    assert BeBytes(c.length) == buf[off..off + 4];
    assert TypeBytes(c.chunkType) == buf[off + 4..off + 8];
    assert BeBytes(c.crc) == buf[off + 8 + len..off + ChunkOverhead + len];
    SplitFour(buf, off, off + 4, off + 8, off + 8 + len, off + ChunkOverhead + len);
  }

  /** A slice cut at three points is the concatenation of the four pieces. */
  lemma SplitFour(buf: seq<byte>, p0: nat, p1: nat, p2: nat, p3: nat, p4: nat)
    requires p0 <= p1 <= p2 <= p3 <= p4 <= |buf|
    ensures buf[p0..p4] == buf[p0..p1] + buf[p1..p2] + buf[p2..p3] + buf[p3..p4]
  {
    assert buf[p0..p4] == buf[p0..p1] + buf[p1..p4];
    assert buf[p1..p4] == buf[p1..p2] + buf[p2..p4];
    assert buf[p2..p4] == buf[p2..p3] + buf[p3..p4];
  }

  /** The on-wire form of one chunk: big-endian length, the type bytes, the
      data and the big-endian CRC. */
  function EncodeChunk(c: Chunk): (b: seq<byte>)
    ensures ValidChunk(c) ==> |b| == c.length + ChunkOverhead
  {
    BeBytes(c.length) + TypeBytes(c.chunkType) + c.data + BeBytes(c.crc)
  }

  /** The chunks, framed one after the other in order. */
  function Serialize(cs: seq<Chunk>): (b: seq<byte>)
    ensures AllValid(cs) ==> |b| == WireSize(cs)
  {
    if cs == [] then [] else EncodeChunk(cs[0]) + Serialize(cs[1..])
  }

  /** Σ (length + 12) over the chunks: the bytes they take on the wire. */
  function WireSize(cs: seq<Chunk>): (w: nat)
    ensures w >= ChunkOverhead * |cs|
  {
    if cs == [] then 0 else cs[0].length + ChunkOverhead + WireSize(cs[1..])
  }

  /** The chunk walk from offset `off`: read a chunk, move on by its length
      plus 12, stop once the offset reaches the end of the buffer. A chunk
      whose framing does not fit stops the walk with its offset, which lies
      inside the buffer, at or after the start of the walk. */
  function Parse(buf: seq<byte>, off: nat): (r: Result<seq<Chunk>>)
    ensures r.MalformedChunk? ==> off <= r.offset < |buf|
    decreases |buf| - off
  {
    if off >= |buf| then Ok([])
    else if !FitsAt(buf, off) then MalformedChunk(off)
    else
      var c := ChunkAt(buf, off);
      match Parse(buf, off + ChunkOverhead + c.length)
      case Ok(rest) => Ok([c] + rest)
      case MalformedChunk(at) => MalformedChunk(at)
  }

  /** Every chunk a successful walk lists is valid: its length and CRC are
      32-bit values, its data is exactly `length` bytes and its type is four
      byte-sized characters. */
  lemma {:induction false} ParseValid(buf: seq<byte>, off: nat)
    requires Parse(buf, off).Ok?
    ensures AllValid(Parse(buf, off).value)
    decreases |buf| - off
  {
    if off < |buf| {
      var c := ChunkAt(buf, off);
      var next: nat := off + ChunkOverhead + c.length;
      ParseStep(buf, off, c, next);
      PrependOk([c], Parse(buf, next));
      ParseValid(buf, next);
      AllValidCons(c, Parse(buf, next).value);
    }
  }

  lemma AllValidCons(c: Chunk, rest: seq<Chunk>)
    requires ValidChunk(c) && AllValid(rest)
    ensures AllValid([c] + rest)
  {
  }

  /** A walk that fails names an offset where a chunk's framing does not
      fit. */
  lemma {:induction false} ParseErrorOffset(buf: seq<byte>, off: nat)
    requires Parse(buf, off).MalformedChunk?
    ensures !FitsAt(buf, Parse(buf, off).offset)
    decreases |buf| - off
  {
    if FitsAt(buf, off) {
      var c := ChunkAt(buf, off);
      ParseStep(buf, off, c, off + ChunkOverhead + c.length);
      ParseErrorOffset(buf, off + ChunkOverhead + c.length);
    }
  }

  /** A PNG buffer whose chunks tile everything after the signature. */
  ghost predicate WellFormed(buf: seq<byte>) {
    |buf| >= SignatureLength && Parse(buf, SignatureLength).Ok?
  }

  /** Framing one more chunk appends its encoding. */
  lemma {:induction false} SerializeAppend(cs: seq<Chunk>, c: Chunk)
    ensures Serialize(cs + [c]) == Serialize(cs) + EncodeChunk(c)
  {
    if cs == [] {
      assert [] + [c] == [c];
      assert [c][1..] == [];
    } else {
      assert (cs + [c])[0] == cs[0];
      assert (cs + [c])[1..] == cs[1..] + [c];
      SerializeAppend(cs[1..], c);
    }
  }

  /** The four fields of a chunk's encoding sit at offsets 0, 4, 8 and
      8 + length. */
  lemma EncodeChunkFields(c: Chunk)
    requires ValidChunk(c)
    ensures var e := EncodeChunk(c);
      && e[..4] == BeBytes(c.length)
      && e[4..8] == TypeBytes(c.chunkType)
      && e[8..8 + c.length] == c.data
      && e[8 + c.length..] == BeBytes(c.crc)
  {
    var a, b, d, f := BeBytes(c.length), TypeBytes(c.chunkType), c.data, BeBytes(c.crc);
    var e := EncodeChunk(c);
    assert e == a + b + d + f;
    assert |a| == 4 && |b| == 4 && |d| == c.length;
    assert e[..4] == a;
    assert e[4..8] == b;
    assert e[8..8 + c.length] == d;
    assert e[8 + c.length..] == f;
  }

  /** A piece of a slice is a slice of the whole. */
  lemma SubSlice(buf: seq<byte>, lo: nat, hi: nat, a: nat, b: nat)
    requires lo <= hi <= |buf| && a <= b <= hi - lo
    ensures buf[lo..hi][a..b] == buf[lo + a..lo + b]
  {
    assert forall i :: 0 <= i < b - a ==> buf[lo..hi][a..b][i] == buf[lo + a + i];
  }

  /** Reading a chunk from bytes that hold the encoding of a valid chunk
      gives that chunk back. */
  lemma DecodeEncodedChunk(buf: seq<byte>, off: nat, c: Chunk)
    requires ValidChunk(c)
    requires off + c.length + ChunkOverhead <= |buf|
    requires buf[off..off + c.length + ChunkOverhead] == EncodeChunk(c)
    ensures FitsAt(buf, off) && ChunkAt(buf, off) == c
  {
    var len := c.length;
    EncodedFields(buf, off, c);
    BeU32Slice(buf, off, BeBytes(len));
    BeU32Slice(buf, off + 8 + len, BeBytes(c.crc));
    TypeStringRoundTrip(c.chunkType);
  }

  /** Where a valid chunk's encoding sits in `buf`, its four fields sit at
      offsets 0, 4, 8 and 8 + length from the start. */
  lemma EncodedFields(buf: seq<byte>, off: nat, c: Chunk)
    requires ValidChunk(c)
    requires off + c.length + ChunkOverhead <= |buf|
    requires buf[off..off + c.length + ChunkOverhead] == EncodeChunk(c)
    ensures buf[off..off + 4] == BeBytes(c.length)
    ensures buf[off + 4..off + 8] == TypeBytes(c.chunkType)
    ensures buf[off + 8..off + 8 + c.length] == c.data
    ensures buf[off + 8 + c.length..off + ChunkOverhead + c.length] == BeBytes(c.crc)
  {
    var e := EncodeChunk(c);
    var len := c.length;
    var end: nat := off + len + ChunkOverhead;
    EncodeChunkFields(c);
    SubSlice(buf, off, end, 0, 4);
    SubSlice(buf, off, end, 4, 8);
    SubSlice(buf, off, end, 8, 8 + len);
    SubSlice(buf, off, end, 8 + len, len + ChunkOverhead);
    assert e[8 + len..] == e[8 + len..len + ChunkOverhead];
  }

  /** A big-endian field read in place equals the same four bytes read on
      their own. */
  lemma BeU32Slice(buf: seq<byte>, i: nat, s: seq<byte>)
    requires i + 4 <= |buf| && buf[i..i + 4] == s
    ensures BeU32(buf, i) == BeU32(s, 0)
  {
    assert buf[i] == s[0] && buf[i + 1] == s[1] && buf[i + 2] == s[2] && buf[i + 3] == s[3];
  }

  /** Encoding then decoding: when the bytes from `off` to the end are the
      framing of valid chunks, the walk from `off` lists exactly those
      chunks. */
  lemma {:induction false} ParseFramed(buf: seq<byte>, off: nat, cs: seq<Chunk>)
    requires AllValid(cs)
    requires off <= |buf| && buf[off..] == Serialize(cs)
    ensures Parse(buf, off) == Ok(cs)
    decreases cs
  {
    if cs == [] {
      assert off == |buf|;
    } else {
      var c := cs[0];
      var next: nat := off + ChunkOverhead + c.length;
      FramedFront(buf, off, cs);
      DecodeEncodedChunk(buf, off, c);
      ParseStep(buf, off, c, next);
      ParseFramed(buf, next, cs[1..]);
      assert [c] + cs[1..] == cs;
    }
  }

  /** Where `buf[off..]` frames valid chunks, the first chunk's encoding
      comes first and the framing of the others follows it. */
  lemma FramedFront(buf: seq<byte>, off: nat, cs: seq<Chunk>)
    requires cs != [] && AllValid(cs)
    requires off <= |buf| && buf[off..] == Serialize(cs)
    ensures off + ChunkOverhead + cs[0].length <= |buf|
    ensures buf[off..off + cs[0].length + ChunkOverhead] == EncodeChunk(cs[0])
    ensures AllValid(cs[1..]) && buf[off + ChunkOverhead + cs[0].length..] == Serialize(cs[1..])
  {
    var e := EncodeChunk(cs[0]);
    var next: nat := off + |e|;
    assert ValidChunk(cs[0]);
    assert buf[off..] == e + Serialize(cs[1..]);
    assert buf[off..next] == buf[off..][..|e|];
    assert buf[next..] == buf[off..][|e|..];
  }

  /** Decoding then encoding: a walk that succeeds from `off` lists chunks
      whose framing is exactly the rest of the buffer. */
  lemma {:induction false} SerializeParse(buf: seq<byte>, off: nat)
    requires off <= |buf| && Parse(buf, off).Ok?
    ensures Serialize(Parse(buf, off).value) == buf[off..]
    decreases |buf| - off
  {
    if off < |buf| {
      var c := ChunkAt(buf, off);
      var next: nat := off + ChunkOverhead + c.length;
      ParseStep(buf, off, c, off + ChunkOverhead + c.length);
      PrependOk([c], Parse(buf, next));
      SerializeParse(buf, next);
      ChunkAtEncodes(buf, off);
      SerializeFront(buf, off, next, c, Parse(buf, next).value);
    } else {
      assert Parse(buf, off).value == [];
    }
  }

  /** A chunk framed at `buf[off..next]` followed by chunks framed over the
      rest of the buffer frame the whole of `buf[off..]`. */
  lemma SerializeFront(buf: seq<byte>, off: nat, next: nat, c: Chunk, rest: seq<Chunk>)
    requires off <= next <= |buf|
    requires buf[off..next] == EncodeChunk(c) && buf[next..] == Serialize(rest)
    ensures Serialize([c] + rest) == buf[off..]
  {
    assert ([c] + rest)[1..] == rest;
    assert buf[off..] == buf[off..next] + buf[next..];
  }

  /** A chunk fits at `off` exactly when the bytes from `off` begin with
      the framing of some valid chunk. */
  lemma FitsAtIff(buf: seq<byte>, off: nat)
    ensures FitsAt(buf, off)
        <==> exists c :: ValidChunk(c) && off + |EncodeChunk(c)| <= |buf|
                         && buf[off..off + |EncodeChunk(c)|] == EncodeChunk(c)
  {
    if FitsAt(buf, off) {
      var c := ChunkAt(buf, off);
      ChunkAtEncodes(buf, off);
      assert ValidChunk(c) && off + |EncodeChunk(c)| <= |buf|
             && buf[off..off + |EncodeChunk(c)|] == EncodeChunk(c);
    }
    if exists c :: ValidChunk(c) && off + |EncodeChunk(c)| <= |buf|
                   && buf[off..off + |EncodeChunk(c)|] == EncodeChunk(c) {
      var c :| ValidChunk(c) && off + |EncodeChunk(c)| <= |buf|
               && buf[off..off + |EncodeChunk(c)|] == EncodeChunk(c);
      DecodeEncodedChunk(buf, off, c);
    }
  }

  /** A buffer is well formed exactly when the bytes after its signature are
      the framing of some sequence of valid chunks. */
  lemma WellFormedIff(buf: seq<byte>)
    ensures WellFormed(buf)
        <==> |buf| >= SignatureLength
             && exists cs :: AllValid(cs) && buf[SignatureLength..] == Serialize(cs)
  {
    if WellFormed(buf) {
      var cs := Parse(buf, SignatureLength).value;
      SerializeParse(buf, SignatureLength);
      ParseValid(buf, SignatureLength);
      assert AllValid(cs) && buf[SignatureLength..] == Serialize(cs);
    }
    if |buf| >= SignatureLength && exists cs :: AllValid(cs) && buf[SignatureLength..] == Serialize(cs) {
      var cs :| AllValid(cs) && buf[SignatureLength..] == Serialize(cs);
      ParseFramed(buf, SignatureLength, cs);
    }
  }

  /** Where chunk `i` of a listing starts: after the signature and the
      chunks before it. */
  function ChunkOffset(cs: seq<Chunk>, i: nat): nat
    requires i <= |cs|
  {
    SignatureLength + WireSize(cs[..i])
  }

  /** A successful walk from `off` ends exactly at the end of the buffer. */
  lemma {:induction false} WalkEndsAtEnd(buf: seq<byte>, off: nat)
    requires off <= |buf| && Parse(buf, off).Ok?
    ensures off + WireSize(Parse(buf, off).value) == |buf|
    decreases |buf| - off
  {
    if off < |buf| {
      var c := ChunkAt(buf, off);
      var next: nat := off + ChunkOverhead + c.length;
      ParseStep(buf, off, c, next);
      PrependOk([c], Parse(buf, next));
      WalkEndsAtEnd(buf, next);
      assert ([c] + Parse(buf, next).value)[1..] == Parse(buf, next).value;
    }
  }

  /** Chunk `i` of a successful walk from `off` is the chunk read at `off`
      plus the wire size of the chunks before it. */
  lemma {:induction false} WalkChunkAt(buf: seq<byte>, off: nat, cs: seq<Chunk>, i: nat, at: nat)
    requires Parse(buf, off) == Ok(cs) && i < |cs|
    requires at == off + WireSize(cs[..i])
    ensures FitsAt(buf, at) && ChunkAt(buf, at) == cs[i]
    decreases i
  {
    var c := ChunkAt(buf, off);
    var next: nat := off + ChunkOverhead + c.length;
    ParseStep(buf, off, c, next);
    PrependOk([c], Parse(buf, next));
    var rest := Parse(buf, next).value;
    assert cs == [c] + rest;
    if i == 0 {
      assert cs[..0] == [];
    } else {
      WireSizeFront(cs, i);
      assert rest == cs[1..];
      WalkChunkAt(buf, next, rest, i - 1, at);
    }
  }

  /** The wire size of the first `i` chunks: the first chunk, then the next
      `i - 1`. */
  lemma WireSizeFront(cs: seq<Chunk>, i: nat)
    requires 0 < i <= |cs|
    ensures WireSize(cs[..i]) == cs[0].length + ChunkOverhead + WireSize(cs[1..][..i - 1])
  {
    assert cs[..i][0] == cs[0] && cs[..i][1..] == cs[1..][..i - 1];
  }

  /** The listed chunks tile the buffer: chunk `i` is the one read at its
      running offset `8 + Σ_{j<i}(length_j + 12)`, and the last one ends at
      the end of the buffer. */
  lemma ChunksTileBuffer(buf: seq<byte>)
    requires WellFormed(buf)
    ensures var cs := Parse(buf, SignatureLength).value;
      && ChunkOffset(cs, |cs|) == |buf|
      && forall i :: 0 <= i < |cs| ==> FitsAt(buf, ChunkOffset(cs, i)) && ChunkAt(buf, ChunkOffset(cs, i)) == cs[i]
  {
    var cs := Parse(buf, SignatureLength).value;
    WalkEndsAtEnd(buf, SignatureLength);
    assert cs[..|cs|] == cs;
    forall i | 0 <= i < |cs|
      ensures FitsAt(buf, ChunkOffset(cs, i)) && ChunkAt(buf, ChunkOffset(cs, i)) == cs[i]
    {
      WalkChunkAt(buf, SignatureLength, cs, i, ChunkOffset(cs, i));
    }
  }

  /** `chunks` placed in front of the outcome of the rest of a walk. */
  function Prepend(chunks: seq<Chunk>, r: Result<seq<Chunk>>): Result<seq<Chunk>> {
    match r
    case Ok(rest) => Ok(chunks + rest)
    case MalformedChunk(at) => MalformedChunk(at)
  }

  lemma PrependOk(chunks: seq<Chunk>, r: Result<seq<Chunk>>)
    requires Prepend(chunks, r).Ok?
    ensures r.Ok? && Prepend(chunks, r).value == chunks + r.value
  {
  }

  lemma PrependAppend(chunks: seq<Chunk>, c: Chunk, r: Result<seq<Chunk>>)
    ensures Prepend(chunks, Prepend([c], r)) == Prepend(chunks + [c], r)
  {
    if r.Ok? {
      assert chunks + ([c] + r.value) == (chunks + [c]) + r.value;
    }
  }

  /** One step of the walk: a chunk that fits is followed by the walk from
      the next offset. */
  lemma ParseStep(buf: seq<byte>, off: nat, c: Chunk, next: nat)
    requires off < |buf| && FitsAt(buf, off) && c == ChunkAt(buf, off)
    requires next == off + ChunkOverhead + c.length
    ensures Parse(buf, off) == Prepend([c], Parse(buf, next))
  {
  }

  /** The record both walks build once the length field at `offset` has
      been read and checked: `String.fromCharCode` of the four type bytes,
      `slice` of the data and the CRC that follows it. */
  method ReadChunk(buf: array<byte>, offset: nat, chunkLength: nat) returns (chunk: Chunk)
    requires FitsAt(buf[..], offset) && chunkLength == BeU32(buf[..], offset)
    ensures chunk == ChunkAt(buf[..], offset) && chunk.length == chunkLength
  {
    var chunkType := TypeString(buf[offset + 4..offset + 8]);
    var chunkData := buf[offset + 8..offset + 8 + chunkLength];
    var crc := ReadU32(buf, offset + 8 + chunkLength);
    chunk := Chunk(chunkType, chunkLength, chunkData, crc);
  }

  /** `listPngChunks`: skip the signature and walk the buffer chunk by
      chunk, advancing by length + 12. */
  method ListPngChunks(buf: array<byte>) returns (r: Result<seq<Chunk>>)
    ensures r == Parse(buf[..], SignatureLength)
    ensures buf.Length <= SignatureLength ==> r == Ok([])
  {
    ghost var bytes := buf[..];
    var chunks: seq<Chunk> := [];
    var offset: nat := SignatureLength;
    assert Prepend([], Parse(bytes, offset)) == Parse(bytes, offset) by {
      if Parse(bytes, offset).Ok? {
        assert [] + Parse(bytes, offset).value == Parse(bytes, offset).value;
      }
    }
    while offset < buf.Length
      invariant Parse(bytes, SignatureLength) == Prepend(chunks, Parse(bytes, offset))
      decreases buf.Length - offset
    {
      if offset + ChunkOverhead > buf.Length {
        return MalformedChunk(offset);
      }
      var chunkLength := ReadU32(buf, offset);
      if offset + ChunkOverhead + chunkLength > buf.Length {
        return MalformedChunk(offset);
      }
      var chunk := ReadChunk(buf, offset, chunkLength);
      var next: nat := offset + ChunkOverhead + chunkLength;
      ghost var rest := Parse(bytes, next);
      ParseStep(bytes, offset, chunk, next);
      PrependAppend(chunks, chunk, rest);
      calc {
        Parse(bytes, SignatureLength);
        Prepend(chunks, Parse(bytes, offset));
        Prepend(chunks, Prepend([chunk], rest));
        Prepend(chunks + [chunk], rest);
      }
      chunks := chunks + [chunk];
      offset := next;
      if offset >= buf.Length {
        break;
      }
    }
    assert chunks + [] == chunks;
    return Ok(chunks);
  }
}
