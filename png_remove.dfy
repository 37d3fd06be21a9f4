/** The chunk remover: walk the chunks as the lister does, drop those whose
    position is selected, then frame the rest behind the input's first
    eight bytes in a freshly allocated buffer. */
module PngRemove {
  import opened Bytes
  import opened PngChunks

  /** The chunks whose positions `chunkIndexes` does not name, in order.
      Positions count from 0 over every chunk walked, selected or not. */
  function Kept(cs: seq<Chunk>, chunkIndexes: seq<int>): (kept: seq<Chunk>)
    ensures |kept| <= |cs|
  {
    if cs == [] then []
    else Kept(cs[..|cs| - 1], chunkIndexes) + (if |cs| - 1 in chunkIndexes then [] else [cs[|cs| - 1]])
  }

  /** The positions below `n` that `chunkIndexes` does not name, in
      increasing order. */
  function Positions(n: nat, chunkIndexes: seq<int>): (ps: seq<nat>)
    ensures |ps| <= n
  {
    if n == 0 then []
    else Positions(n - 1, chunkIndexes) + (if n - 1 in chunkIndexes then [] else [n - 1])
  }

  /** The kept positions are exactly the unselected ones below `n`, listed
      in strictly increasing order. */
  lemma {:induction false} PositionsAreUnselected(n: nat, chunkIndexes: seq<int>)
    ensures forall p: nat :: p in Positions(n, chunkIndexes) <==> p < n && p !in chunkIndexes
    ensures forall j, k :: 0 <= j < k < |Positions(n, chunkIndexes)| ==>
      Positions(n, chunkIndexes)[j] < Positions(n, chunkIndexes)[k]
  {
    if n > 0 {
      PositionsAreUnselected(n - 1, chunkIndexes);
      var prev := Positions(n - 1, chunkIndexes);
      var ps := Positions(n, chunkIndexes);
      assert forall j :: 0 <= j < |prev| ==> prev[j] in prev;
      assert forall j :: 0 <= j < |prev| ==> ps[j] == prev[j];
    }
  }

  /** Kept chunk `j` is the chunk at the `j`-th unselected position: the
      remover keeps the listing filtered by position, in the original
      order. */
  lemma {:induction false} KeptSelects(cs: seq<Chunk>, chunkIndexes: seq<int>)
    ensures |Kept(cs, chunkIndexes)| == |Positions(|cs|, chunkIndexes)|
    ensures forall j :: 0 <= j < |Kept(cs, chunkIndexes)| ==>
      Positions(|cs|, chunkIndexes)[j] < |cs| && Kept(cs, chunkIndexes)[j] == cs[Positions(|cs|, chunkIndexes)[j]]
  {
    if cs != [] {
      var init := cs[..|cs| - 1];
      KeptSelects(init, chunkIndexes);
      var prevKept := Kept(init, chunkIndexes);
      var prevPos := Positions(|init|, chunkIndexes);
      var kept := Kept(cs, chunkIndexes);
      var ps := Positions(|cs|, chunkIndexes);
      assert forall j :: 0 <= j < |prevKept| ==> kept[j] == prevKept[j] && ps[j] == prevPos[j];
      assert forall j :: 0 <= j < |prevKept| ==> init[prevPos[j]] == cs[prevPos[j]];
    }
  }

  /** Indexes outside `0 .. |cs| - 1` select nothing: with no index naming a
      chunk, every chunk is kept. */
  lemma {:induction false} KeptNoneSelected(cs: seq<Chunk>, chunkIndexes: seq<int>)
    requires forall i :: i in chunkIndexes ==> i < 0 || i >= |cs|
    ensures Kept(cs, chunkIndexes) == cs
  {
    if cs != [] {
      var init := cs[..|cs| - 1];
      KeptNoneSelected(init, chunkIndexes);
      assert init + [cs[|cs| - 1]] == cs;
    }
  }

  /** Walking one more chunk at position `|walked|` keeps it unless that
      position is selected. */
  lemma KeptAppend(walked: seq<Chunk>, c: Chunk, chunkIndexes: seq<int>)
    ensures Kept(walked + [c], chunkIndexes)
         == Kept(walked, chunkIndexes) + (if |walked| in chunkIndexes then [] else [c])
  {
    assert (walked + [c])[..|walked|] == walked;
  }

  /** Kept chunks are chunks of the listing, so they stay valid. */
  lemma KeptValid(cs: seq<Chunk>, chunkIndexes: seq<int>)
    requires AllValid(cs)
    ensures AllValid(Kept(cs, chunkIndexes))
  {
    KeptSelects(cs, chunkIndexes);
  }

  /** The first eight output bytes: `subarray(0, 8)` of the input copied
      into a zero-filled buffer, so a shorter input is padded with zeros. */
  function Signature(buf: seq<byte>): (sig: seq<byte>)
    ensures |sig| == SignatureLength
    ensures forall i :: 0 <= i < SignatureLength ==> sig[i] == if i < |buf| then buf[i] else 0
  {
    if |buf| >= SignatureLength then buf[..SignatureLength]
    else buf + seq(SignatureLength - |buf|, _ => 0)
  }

  /** Copying the first `min(|buf|, 8)` bytes of `buf` over a zero-filled
      buffer puts the signature at its start. */
  lemma SignatureCopied(buf: seq<byte>, zeros: seq<byte>, after: seq<byte>, headLength: nat)
    requires headLength == if |buf| < SignatureLength then |buf| else SignatureLength
    requires SignatureLength <= |zeros| && forall i :: 0 <= i < |zeros| ==> zeros[i] == 0
    requires after == zeros[..0] + buf[..headLength] + zeros[headLength..]
    ensures after[..SignatureLength] == Signature(buf)
  {
    var sig := Signature(buf);
    forall i | 0 <= i < SignatureLength
      ensures after[i] == sig[i]
    {
      if i < headLength {
        assert after[i] == buf[i];
      } else {
        assert after[i] == zeros[i];
      }
    }
  }

  /** The buffer the remover returns: the signature followed by the kept
      chunks, each framed as length, type, data and the original CRC; or
      the offset of the first chunk whose framing does not fit. */
  function Removed(buf: seq<byte>, chunkIndexes: seq<int>): (r: Result<seq<byte>>)
    ensures r.Ok? <==> Parse(buf, SignatureLength).Ok?
    ensures r.MalformedChunk? ==> r.offset == Parse(buf, SignatureLength).offset
    ensures r.Ok? ==> |r.value| >= SignatureLength
  {
    match Parse(buf, SignatureLength)
    case Ok(cs) => Ok(Signature(buf) + Serialize(Kept(cs, chunkIndexes)))
    case MalformedChunk(at) => MalformedChunk(at)
  }

  /** The output takes 8 + Σ(length + 12) bytes over the kept chunks, starts
      with the input's first eight bytes, and listing it again yields
      exactly the kept chunks: each is written at its running offset as
      the big-endian length, the type, the data and the original CRC. */
  lemma RemovedLayout(buf: seq<byte>, chunkIndexes: seq<int>)
    requires Parse(buf, SignatureLength).Ok?
    ensures var kept := Kept(Parse(buf, SignatureLength).value, chunkIndexes);
      var out := Removed(buf, chunkIndexes).value;
      && |out| == SignatureLength + WireSize(kept)
      && out[..SignatureLength] == Signature(buf)
      && (|buf| >= SignatureLength ==> out[..SignatureLength] == buf[..SignatureLength])
      && Parse(out, SignatureLength) == Ok(kept)
  {
    var kept := Kept(Parse(buf, SignatureLength).value, chunkIndexes);
    var out := Removed(buf, chunkIndexes).value;
    ParseValid(buf, SignatureLength);
    KeptValid(Parse(buf, SignatureLength).value, chunkIndexes);
    assert out[SignatureLength..] == Serialize(kept);
    ParseFramed(out, SignatureLength, kept);
  }

  /** Round trip: removing nothing from a well-formed buffer gives back the
      same bytes, whatever out-of-range indexes the selection holds. */
  lemma RemoveNothing(buf: seq<byte>, chunkIndexes: seq<int>)
    requires WellFormed(buf)
    requires forall i :: i in chunkIndexes ==> i < 0 || i >= |Parse(buf, SignatureLength).value|
    ensures Removed(buf, chunkIndexes) == Ok(buf)
  {
    var cs := Parse(buf, SignatureLength).value;
    KeptNoneSelected(cs, chunkIndexes);
    SerializeParse(buf, SignatureLength);
    assert buf == buf[..SignatureLength] + buf[SignatureLength..];
  }

  /** A buffer shorter than a signature lists no chunks, and the remover
      returns it padded with zeros to eight bytes. */
  lemma RemoveFromShortBuffer(buf: seq<byte>, chunkIndexes: seq<int>)
    requires |buf| < SignatureLength
    ensures Removed(buf, chunkIndexes) == Ok(buf + seq(SignatureLength - |buf|, _ => 0))
  {
    assert Parse(buf, SignatureLength) == Ok([]);
    assert Signature(buf) + Serialize(Kept([], chunkIndexes)) == Signature(buf);
  }

  /** A signature followed by three chunks lists as those three chunks;
      removing position 1 leaves the first and the third behind the
      signature, in 8 + (length + 12) + (length + 12) bytes, and they list
      again as those two chunks, CRCs included. */
  lemma RemoveMiddleOfThree(sig: seq<byte>, a: Chunk, b: Chunk, c: Chunk)
    requires |sig| == SignatureLength && ValidChunk(a) && ValidChunk(b) && ValidChunk(c)
    ensures var buf := sig + Serialize([a, b, c]);
      && Parse(buf, SignatureLength) == Ok([a, b, c])
      && Removed(buf, [1]) == Ok(sig + Serialize([a, c]))
      && |Removed(buf, [1]).value| == SignatureLength + a.length + c.length + 2 * ChunkOverhead
      && Parse(Removed(buf, [1]).value, SignatureLength) == Ok([a, c])
  {
    var buf := sig + Serialize([a, b, c]);
    FramedAfterSignature(sig, [a, b, c]);
    KeptSecondRemoved(a, b, c);
    RemovedLayout(buf, [1]);
    WireSizeTwo(a, c);
  }

  /** A signature followed by framed valid chunks lists as those chunks. */
  lemma FramedAfterSignature(sig: seq<byte>, cs: seq<Chunk>)
    requires |sig| == SignatureLength && AllValid(cs)
    ensures Parse(sig + Serialize(cs), SignatureLength) == Ok(cs)
    ensures (sig + Serialize(cs))[..SignatureLength] == sig
  {
    var buf := sig + Serialize(cs);
    assert buf[SignatureLength..] == Serialize(cs);
    ParseFramed(buf, SignatureLength, cs);
  }

  lemma WireSizeTwo(a: Chunk, c: Chunk)
    ensures WireSize([a, c]) == a.length + c.length + 2 * ChunkOverhead
  {
    assert [a, c][1..] == [c] && [c][1..] == [];
    assert WireSize([c]) == c.length + ChunkOverhead + WireSize([]);
    assert WireSize([a, c]) == a.length + ChunkOverhead + WireSize([c]);
  }

  /** The scenario of a 13-byte IHDR, a 5-byte tEXt and an empty IEND:
      removing the tEXt chunk leaves 45 bytes. */
  lemma RemoveTextChunk(sig: seq<byte>, ihdr: Chunk, text: Chunk, iend: Chunk)
    requires |sig| == SignatureLength
    requires ihdr.chunkType == "IHDR" && ihdr.length == 13 && ValidChunk(ihdr)
    requires text.chunkType == "tEXt" && text.length == 5 && ValidChunk(text)
    requires iend.chunkType == "IEND" && iend.length == 0 && ValidChunk(iend)
    ensures var buf := sig + Serialize([ihdr, text, iend]);
      && Removed(buf, [1]) == Ok(sig + Serialize([ihdr, iend]))
      && |Removed(buf, [1]).value| == 45
  {
    RemoveMiddleOfThree(sig, ihdr, text, iend);
  }

  lemma KeptSecondRemoved(a: Chunk, b: Chunk, c: Chunk)
    ensures Kept([a, b, c], [1]) == [a, c]
  {
    var cs := [a, b, c];
    assert [a][..0] == [];
    assert Kept([a], [1]) == [a];
    assert [a, b][..1] == [a];
    assert Kept([a, b], [1]) == [a];
    assert cs[..2] == [a, b];
  }

  /** The chunk walk of the remover: the lister's walk with a position
      counter, pushing only chunks whose position is not selected. */
  method KeptChunks(buf: array<byte>, chunkIndexes: seq<int>) returns (r: Result<seq<Chunk>>)
    ensures Parse(buf[..], SignatureLength).Ok? ==>
      r == Ok(Kept(Parse(buf[..], SignatureLength).value, chunkIndexes))
    ensures Parse(buf[..], SignatureLength).MalformedChunk? ==> r == Parse(buf[..], SignatureLength)
  {
    ghost var bytes := buf[..];
    ghost var walked: seq<Chunk> := [];
    var chunks: seq<Chunk> := [];
    var chunkIndex: nat := 0;
    var offset: nat := SignatureLength;
    assert Prepend([], Parse(bytes, offset)) == Parse(bytes, offset) by {
      if Parse(bytes, offset).Ok? {
        assert [] + Parse(bytes, offset).value == Parse(bytes, offset).value;
      }
    }
    while offset < buf.Length
      invariant Parse(bytes, SignatureLength) == Prepend(walked, Parse(bytes, offset))
      invariant chunkIndex == |walked| && chunks == Kept(walked, chunkIndexes)
      decreases buf.Length - offset
    {
      if offset + ChunkOverhead > buf.Length {
        return MalformedChunk(offset);
      }
      var chunkLength := ReadU32(buf, offset);
      if offset + ChunkOverhead + chunkLength > buf.Length {
        return MalformedChunk(offset);
      }
      var chunk := ReadChunk(buf, offset, chunkLength);
      var next: nat := offset + ChunkOverhead + chunkLength;
      ghost var rest := Parse(bytes, next);
      ParseStep(bytes, offset, chunk, next);
      PrependAppend(walked, chunk, rest);
      KeptAppend(walked, chunk, chunkIndexes);
      walked := walked + [chunk];
      if chunkIndex in chunkIndexes {
        offset := next;
        chunkIndex := chunkIndex + 1;
        continue;
      }
      chunks := chunks + [chunk];
      offset := next;
      chunkIndex := chunkIndex + 1;
      if offset >= buf.Length {
        break;
      }
    }
    assert walked + [] == walked;
    return Ok(chunks);
  }

  /** `Uint8Array.prototype.set`: copy `src` into `dst` from index `at`,
      leaving every other element as it was. */
  method SetBytes(dst: array<byte>, src: seq<byte>, at: nat)
    requires at + |src| <= dst.Length
    modifies dst
    ensures dst[..] == old(dst[..at]) + src + old(dst[at + |src|..])
  {
    forall i | at <= i < at + |src| {
      dst[i] := src[i - at];
    }
  }

  /** After `SetBytes(dst, src, at)` the first `at + |src|` elements are the
      old first `at` followed by `src`. */
  lemma WritePrefix(before: seq<byte>, after: seq<byte>, at: nat, src: seq<byte>)
    requires at + |src| <= |before|
    requires after == before[..at] + src + before[at + |src|..]
    ensures after[..at + |src|] == before[..at] + src
  {
  }

  /** Writes one chunk at `newOffset` with the three `set` calls of the
      source: length and type bytes, then the data, then the CRC bytes. */
  method WriteChunk(newPng: array<byte>, c: Chunk, newOffset: nat)
    requires |c.data| == c.length && newOffset + c.length + ChunkOverhead <= newPng.Length
    modifies newPng
    ensures newPng[..newOffset + c.length + ChunkOverhead] == old(newPng[..newOffset]) + EncodeChunk(c)
    ensures newPng[newOffset + c.length + ChunkOverhead..] == old(newPng[newOffset + c.length + ChunkOverhead..])
  {
    var lengthBytes := BeBytes(c.length);
    var typeBytes := TypeBytes(c.chunkType);
    var crcBytes := BeBytes(c.crc);
    assert EncodeChunk(c) == lengthBytes + typeBytes + c.data + crcBytes;
    WriteFramed(newPng, lengthBytes + typeBytes, c.data, crcBytes, newOffset);
  }

  /** The three `set` calls: the eight header bytes at `newOffset`, the data
      after them, then the four CRC bytes. */
  method WriteFramed(newPng: array<byte>, head: seq<byte>, data: seq<byte>, crc: seq<byte>, newOffset: nat)
    requires |head| == 8 && |crc| == 4 && newOffset + |data| + ChunkOverhead <= newPng.Length
    modifies newPng
    ensures newPng[..newOffset + |data| + ChunkOverhead] == old(newPng[..newOffset]) + head + data + crc
    ensures newPng[newOffset + |data| + ChunkOverhead..] == old(newPng[newOffset + |data| + ChunkOverhead..])
  {
    ghost var s0 := newPng[..];
    SetBytes(newPng, head, newOffset);
    ghost var s1 := newPng[..];
    SetBytes(newPng, data, newOffset + 8);
    ghost var s2 := newPng[..];
    SetBytes(newPng, crc, newOffset + 8 + |data|);
    ThreeWrites(s0, s1, s2, newPng[..], newOffset, head, data, crc);
  }

  /** Three consecutive `set` calls at `off`, `off + 8` and
      `off + 8 + |data|` leave the old first `off` bytes followed by what
      they wrote. */
  lemma ThreeWrites(s0: seq<byte>, s1: seq<byte>, s2: seq<byte>, s3: seq<byte>, off: nat,
                    head: seq<byte>, data: seq<byte>, crc: seq<byte>)
    requires |head| == 8 && |crc| == 4 && off + 12 + |data| <= |s0|
    requires s1 == s0[..off] + head + s0[off + 8..]
    requires s2 == s1[..off + 8] + data + s1[off + 8 + |data|..]
    requires s3 == s2[..off + 8 + |data|] + crc + s2[off + 12 + |data|..]
    ensures s3[..off + 12 + |data|] == s0[..off] + head + data + crc
    ensures s3[off + 12 + |data|..] == s0[off + 12 + |data|..]
  {
    WritePrefix(s0, s1, off, head);
    WritePrefix(s1, s2, off + 8, data);
    WritePrefix(s2, s3, off + 8 + |data|, crc);
    WriteSuffix(s0, s1, off, head, off + 12 + |data|);
    WriteSuffix(s1, s2, off + 8, data, off + 12 + |data|);
    WriteSuffix(s2, s3, off + 8 + |data|, crc, off + 12 + |data|);
  }

  /** A `set` that ends at or before `e` leaves everything from `e` on as it
      was. */
  lemma WriteSuffix(before: seq<byte>, after: seq<byte>, at: nat, src: seq<byte>, e: nat)
    requires at + |src| <= e <= |before|
    requires after == before[..at] + src + before[at + |src|..]
    ensures after[e..] == before[e..]
  {
    assert |after| == |before|;
    forall k | e <= k < |before|
      ensures after[k] == before[k]
    {
      assert after[k] == before[at + |src|..][k - at - |src|];
    }
  }

  /** Framing chunk `j` after the first `j` chunks extends their framing,
      and stays within the framing of all the chunks. */
  lemma FramedStep(sig: seq<byte>, chunks: seq<Chunk>, j: nat)
    requires AllValid(chunks) && j < |chunks|
    ensures ValidChunk(chunks[j])
    ensures sig + Serialize(chunks[..j + 1]) == (sig + Serialize(chunks[..j])) + EncodeChunk(chunks[j])
  {
    PrefixSnoc(chunks, j);
    SerializeAppend(chunks[..j], chunks[j]);
  }

  lemma PrefixSnoc(cs: seq<Chunk>, j: nat)
    requires j < |cs|
    ensures cs[..j + 1] == cs[..j] + [cs[j]]
  {
  }

  /** One step of the `forEach`: frame chunk `j` right after the signature
      and the first `j` chunks, and move the running offset past it. */
  method PlaceChunk(newPng: array<byte>, ghost sig: seq<byte>, chunks: seq<Chunk>, j: nat, newOffset: nat)
    returns (next: nat)
    requires AllValid(chunks) && j < |chunks|
    requires newOffset + SizeFrom(chunks, j) == newPng.Length
    requires newPng[..newOffset] == sig + Serialize(chunks[..j])
    modifies newPng
    ensures next + SizeFrom(chunks, j + 1) == newPng.Length
    ensures newPng[..next] == sig + Serialize(chunks[..j + 1])
    ensures newPng[next..] == old(newPng[next..])
  {
    var c := chunks[j];
    FramedStep(sig, chunks, j);
    WriteChunk(newPng, c, newOffset);
    next := newOffset + c.length + ChunkOverhead;
  }

  /** The bytes that chunks `j ..` take on the wire: `WireSize(cs[j..])`
      summed by position (`SizeFromWire`). The `Reassemble` loop invariant
      uses this form, which avoids a slice inside a recursive call. */
  function SizeFrom(cs: seq<Chunk>, j: nat): nat
    requires j <= |cs|
    decreases |cs| - j
  {
    if j == |cs| then 0 else cs[j].length + ChunkOverhead + SizeFrom(cs, j + 1)
  }

  lemma {:induction false} SizeFromWire(cs: seq<Chunk>, j: nat)
    requires j <= |cs|
    ensures SizeFrom(cs, j) == WireSize(cs[j..])
    decreases |cs| - j
  {
    if j < |cs| {
      SizeFromWire(cs, j + 1);
      assert cs[j..][1..] == cs[j + 1..];
    }
  }

  /** Reassembly: a zero-filled buffer of 8 + Σ(length + 12) bytes, the
      input's first eight bytes copied to its start, then each chunk framed
      at a running offset. */
  method Reassemble(buf: array<byte>, chunks: seq<Chunk>) returns (newPng: array<byte>)
    requires AllValid(chunks)
    ensures fresh(newPng)
    ensures newPng[..] == Signature(buf[..]) + Serialize(chunks)
  {
    ghost var bytes := buf[..];
    newPng := new byte[SignatureLength + WireSize(chunks)](_ => 0);
    var headLength := if buf.Length < SignatureLength then buf.Length else SignatureLength;
    ghost var zeros := newPng[..];
    SetBytes(newPng, buf[..headLength], 0);
    SignatureCopied(bytes, zeros, newPng[..], headLength);
    var newOffset: nat := SignatureLength;
    SizeFromWire(chunks, 0);
    assert chunks[0..] == chunks;
    for j := 0 to |chunks|
      invariant newOffset + SizeFrom(chunks, j) == newPng.Length
      invariant newPng[..newOffset] == Signature(bytes) + Serialize(chunks[..j])
    {
      newOffset := PlaceChunk(newPng, Signature(bytes), chunks, j, newOffset);
    }
    assert chunks[..|chunks|] == chunks;
    assert newPng[..] == newPng[..newOffset];
  }

  /** `removePngChunk`: the walk, then the reassembly. It never writes the
      input, since it modifies nothing that existed before the call. */
  method RemovePngChunk(buf: array<byte>, chunkIndexes: seq<int>) returns (r: Result<array<byte>>)
    ensures r.Ok? <==> Removed(buf[..], chunkIndexes).Ok?
    ensures r.MalformedChunk? ==> r.offset == Removed(buf[..], chunkIndexes).offset
    ensures r.Ok? ==> fresh(r.value) && r.value[..] == Removed(buf[..], chunkIndexes).value
  {
    var kept := KeptChunks(buf, chunkIndexes);
    match kept {
      case MalformedChunk(at) =>
        return MalformedChunk(at);
      case Ok(chunks) =>
        ParseValid(buf[..], SignatureLength);
        KeptValid(Parse(buf[..], SignatureLength).value, chunkIndexes);
        var newPng := Reassemble(buf, chunks);
        return Ok(newPng);
    }
  }
}
