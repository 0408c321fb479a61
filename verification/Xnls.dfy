/** The XNLS container: a header, a table of contents, and chunks on 8-byte boundaries. */
module Xnls {
  import opened Bytes
  import opened Wrappers

  const HEADER_SIZE: nat := 48
  const TOC_ENTRY_SIZE: nat := 32

  datatype Chunk = Chunk(id: seq<byte>, flags: u32, elemSize: u32, elemCount: u32, data: seq<byte>)

  datatype LayoutError = TooLarge | Overlap | SizeMismatch

  function Align8(v: nat): (a: nat)
    ensures v <= a < v + 8 && a % 8 == 0
  {
    (v + 7) / 8 * 8
  }

  lemma SumAligned(a: nat, b: nat)
    requires a % 8 == 0 && b % 8 == 0
    ensures (a + b) % 8 == 0
  {
  }

  function Start(chunks: seq<Chunk>): (s: nat)
    ensures s % 8 == 0 && HEADER_SIZE + TOC_ENTRY_SIZE * |chunks| <= s
  {
    Align8(HEADER_SIZE + TOC_ENTRY_SIZE * |chunks|)
  }

  /** Where chunk `k` goes, and for `k == |chunks|` where the file ends. */
  function OffsetOf(chunks: seq<Chunk>, k: nat): (o: nat)
    requires k <= |chunks|
    ensures o % 8 == 0 && o >= Start(chunks)
    decreases k
  {
    if k == 0 then Start(chunks)
    else
      SumAligned(OffsetOf(chunks, k - 1), Align8(|chunks[k - 1].data|));
      OffsetOf(chunks, k - 1) + Align8(|chunks[k - 1].data|)
  }

  function FileSize(chunks: seq<Chunk>): nat {
    OffsetOf(chunks, |chunks|)
  }

  lemma {:induction false} OffsetsGrow(chunks: seq<Chunk>, i: nat, k: nat)
    requires i < k <= |chunks|
    ensures OffsetOf(chunks, i) + |chunks[i].data| <= OffsetOf(chunks, k)
    decreases k
  {
    if k - 1 <= i {
    } else {
      OffsetsGrow(chunks, i, k - 1);
    }
  }

  /** Chunk ids are four bytes. */
  predicate Proper(chunks: seq<Chunk>) {
    forall i :: 0 <= i < |chunks| ==> |chunks[i].id| == 4
  }

  function TocEntry(c: Chunk, offset: u64): (b: seq<byte>)
    requires |c.id| == 4 && |c.data| < U64_END
    ensures |b| == TOC_ENTRY_SIZE
  {
    c.id + LE64(offset) + LE64(|c.data|) + LE32(c.flags) + LE32(c.elemSize) + LE32(c.elemCount)
  }

  function Header(fileSize: u64, chunkCount: nat, tag: seq<byte>, revision: u32): (b: seq<byte>)
    requires |tag| == 4
    ensures |b| == HEADER_SIZE
  {
    [0x58, 0x4E, 0x4C, 0x53] + LE16(1) + [1, 48] + LE64(fileSize) + LE64(HEADER_SIZE) + LE32(chunkCount % U32_END)
    + LE32(TOC_ENTRY_SIZE) + tag + LE32(revision) + LE32(0) + LE32(0)
  }

  predicate ZeroFrom(file: seq<byte>, lo: nat, hi: nat) {
    forall p {:trigger file[p]} :: lo <= p < hi && p < |file| ==> file[p] == 0
  }

  /** Pads with zeros to the next 8-byte boundary. */
  method Pad(out: seq<byte>) returns (padded: seq<byte>)
    ensures |padded| == Align8(|out|) && padded[..|out|] == out && ZeroFrom(padded, |out|, |padded|)
  {
    padded := out;
    while |padded| % 8 != 0
      invariant |out| <= |padded| <= Align8(|out|) && padded[..|out|] == out && ZeroFrom(padded, |out|, |padded|)
      decreases Align8(|out|) - |padded|
    {
      padded := padded + [0];
    }
  }

  lemma AlignedStays(v: nat)
    requires v % 8 == 0
    ensures Align8(v) == v
  {
  }

  lemma NextOffset(chunks: seq<Chunk>, k: nat)
    requires k < |chunks|
    ensures OffsetOf(chunks, k + 1) == OffsetOf(chunks, k) + Align8(|chunks[k].data|)
    ensures Align8(OffsetOf(chunks, k)) == OffsetOf(chunks, k)
    ensures OffsetOf(chunks, k) + |chunks[k].data| <= OffsetOf(chunks, k + 1)
  {
    AlignedStays(OffsetOf(chunks, k));
  }

  predicate PlannedAt(offsets: seq<nat>, chunks: seq<Chunk>, i: nat, limit: nat)
    requires i < |chunks|
  {
    i < |offsets| && offsets[i] == OffsetOf(chunks, i) && OffsetOf(chunks, i) + |chunks[i].data| <= limit
  }

  /** The offsets of all chunks and the size of the file, as long as they stay within 64 bits. */
  method Plan(chunks: seq<Chunk>) returns (offsets: seq<nat>, fileSize: nat, ok: bool)
    requires Start(chunks) < U64_END
    ensures ok <==> FileSize(chunks) < U64_END
    ensures ok ==> |offsets| == |chunks| && fileSize == FileSize(chunks)
    ensures ok ==> forall i: nat {:trigger PlannedAt(offsets, chunks, i, fileSize)} ::
      i < |chunks| ==> PlannedAt(offsets, chunks, i, fileSize)
  {
    hide Align8;
    offsets := [];
    var cur: nat := Start(chunks);
    for k := 0 to |chunks|
      invariant 0 <= cur && cur == OffsetOf(chunks, k) && |offsets| == k && cur < U64_END
      invariant forall i: nat {:trigger PlannedAt(offsets, chunks, i, cur)} ::
        i < k ==> PlannedAt(offsets, chunks, i, cur)
    {
      NextOffset(chunks, k);
      hide OffsetOf;
      ghost var before, size := offsets, cur;
      cur := Align8(cur);
      offsets := offsets + [cur];
      cur := cur + Align8(|chunks[k].data|);
      if cur >= U64_END {
        OffsetsMonotone(chunks, k + 1);
        return [], 0, false;
      }
      forall i: nat {:trigger PlannedAt(offsets, chunks, i, cur)} | i < k + 1
        ensures PlannedAt(offsets, chunks, i, cur)
      {
        if i < k {
          assert PlannedAt(before, chunks, i, size);
        }
      }
    }
    return offsets, cur, true;
  }

  lemma {:induction false} OffsetsMonotone(chunks: seq<Chunk>, k: nat)
    requires k <= |chunks|
    ensures OffsetOf(chunks, k) <= FileSize(chunks)
    decreases |chunks| - k
  {
    if k == |chunks| {
    } else {
      OffsetsMonotone(chunks, k + 1);
    }
  }

  // ------------------------------------------------------------------ what a file must show

  /** The table of contents places chunk `i` where its bytes are. */
  predicate Shows(file: seq<byte>, chunks: seq<Chunk>, i: nat)
    requires i < |chunks| && |chunks[i].id| == 4
  {
    var e := HEADER_SIZE + TOC_ENTRY_SIZE * i;
    var o := OffsetOf(chunks, i);
    && |chunks[i].data| < U64_END && o < U64_END && o + |chunks[i].data| <= |file|
    && file[e..e + TOC_ENTRY_SIZE] == TocEntry(chunks[i], o)
    && file[o..o + |chunks[i].data|] == chunks[i].data
  }

  predicate HasToc(file: seq<byte>, chunks: seq<Chunk>, i: nat)
    requires i < |chunks| && |chunks[i].id| == 4
  {
    var e, o := HEADER_SIZE + TOC_ENTRY_SIZE * i, OffsetOf(chunks, i);
    |chunks[i].data| < U64_END && o < U64_END && e + TOC_ENTRY_SIZE <= |file|
      && file[e..e + TOC_ENTRY_SIZE] == TocEntry(chunks[i], o)
  }

  predicate HasData(file: seq<byte>, chunks: seq<Chunk>, i: nat)
    requires i < |chunks|
  {
    var o := OffsetOf(chunks, i);
    o + |chunks[i].data| <= |file| && file[o..o + |chunks[i].data|] == chunks[i].data
  }

  lemma SlicesOfLonger(a: seq<byte>, b: seq<byte>, lo: nat, hi: nat)
    requires lo <= hi <= |a| <= |b| && b[..|a|] == a
    ensures b[lo..hi] == a[lo..hi]
  {
    assert b[..|a|][lo..hi] == b[lo..hi];
  }

  method WriteToc(chunks: seq<Chunk>, offsets: seq<nat>) returns (out: seq<byte>)
    requires Proper(chunks) && |offsets| == |chunks|
    requires forall i: nat {:trigger PlannedAt(offsets, chunks, i, U64_END - 1)} ::
      i < |chunks| ==> PlannedAt(offsets, chunks, i, U64_END - 1)
    ensures |out| == HEADER_SIZE + TOC_ENTRY_SIZE * |chunks|
    ensures forall i: nat {:trigger HasToc(out, chunks, i)} :: i < |chunks| ==> HasToc(out, chunks, i)
  {
    out := Zeros(HEADER_SIZE);
    for k := 0 to |chunks|
      invariant |out| == HEADER_SIZE + TOC_ENTRY_SIZE * k
      invariant forall i: nat {:trigger HasToc(out, chunks, i)} :: i < k ==> HasToc(out, chunks, i)
    {
      ghost var was := out;
      assert PlannedAt(offsets, chunks, k, U64_END - 1);
      out := out + TocEntry(chunks[k], offsets[k]);
      assert out[..|was|] == was;
      forall i: nat {:trigger HasToc(out, chunks, i)} | i < k + 1 ensures HasToc(out, chunks, i) {
        if i < k {
          assert HasToc(was, chunks, i);
          SlicesOfLonger(was, out, HEADER_SIZE + TOC_ENTRY_SIZE * i, HEADER_SIZE + TOC_ENTRY_SIZE * i + TOC_ENTRY_SIZE);
        }
      }
    }
  }

  /** The byte belongs to the header, the table of contents, or one of the first `k` chunks. */
  ghost predicate Used(chunks: seq<Chunk>, k: nat, p: nat)
    requires k <= |chunks|
  {
    || p < 48 + 32 * |chunks|
    || exists i: nat :: i < k && OffsetOf(chunks, i) <= p < OffsetOf(chunks, i) + |chunks[i].data|
  }

  /** Every other byte is zero. */
  ghost predicate GapsZero(file: seq<byte>, chunks: seq<Chunk>, k: nat)
    requires k <= |chunks|
  {
    forall p {:trigger file[p]} :: 0 <= p < |file| && !Used(chunks, k, p) ==> file[p] == 0
  }

  lemma GapsAppended(out: seq<byte>, longer: seq<byte>, chunks: seq<Chunk>, k: nat)
    requires k < |chunks| && |out| == OffsetOf(chunks, k) && GapsZero(out, chunks, k)
    requires |out| <= |longer| && longer[..|out|] == out
    requires ZeroFrom(longer, OffsetOf(chunks, k) + |chunks[k].data|, |longer|)
    ensures GapsZero(longer, chunks, k + 1)
  {
    hide OffsetOf;
    forall p {:trigger longer[p]} | 0 <= p < |longer| && !Used(chunks, k + 1, p) ensures longer[p] == 0 {
      if p < |out| {
        assert longer[p] == longer[..|out|][p] == out[p];
      } else {
        assert !(OffsetOf(chunks, k) <= p < OffsetOf(chunks, k) + |chunks[k].data|);
      }
    }
  }

  lemma GapsPadded(toc: seq<byte>, padded: seq<byte>, chunks: seq<Chunk>)
    requires |toc| == 48 + 32 * |chunks| <= |padded| && ZeroFrom(padded, |toc|, |padded|)
    ensures GapsZero(padded, chunks, 0)
  {
  }

  lemma GapsWithHeader(body: seq<byte>, header: seq<byte>, chunks: seq<Chunk>)
    requires |header| == 48 <= |body| && GapsZero(body, chunks, |chunks|)
    ensures GapsZero(Put(body, 0, header), chunks, |chunks|)
  {
  }

  lemma LongerKeeps(a: seq<byte>, b: seq<byte>, chunks: seq<Chunk>, k: nat)
    requires Proper(chunks) && k <= |chunks| && |a| <= |b| && b[..|a|] == a
    ensures forall i: nat {:trigger HasToc(b, chunks, i)} ::
      i < |chunks| && HasToc(a, chunks, i) ==> HasToc(b, chunks, i)
    ensures forall i: nat {:trigger HasData(b, chunks, i)} :: i < k && HasData(a, chunks, i) ==> HasData(b, chunks, i)
  {
    hide TocEntry;
    forall i: nat {:trigger HasToc(b, chunks, i)} | i < |chunks| && HasToc(a, chunks, i) ensures HasToc(b, chunks, i) {
      SlicesOfLonger(a, b, HEADER_SIZE + TOC_ENTRY_SIZE * i, HEADER_SIZE + TOC_ENTRY_SIZE * i + TOC_ENTRY_SIZE);
    }
    forall i: nat {:trigger HasData(b, chunks, i)} | i < k && HasData(a, chunks, i) ensures HasData(b, chunks, i) {
      SlicesOfLonger(a, b, OffsetOf(chunks, i), OffsetOf(chunks, i) + |chunks[i].data|);
    }
  }

  /** Fills up to where the chunk is wanted, then writes it and pads. */
  method AppendChunk(out: seq<byte>, data: seq<byte>, want: nat) returns (longer: Option<seq<byte>>)
    requires want % 8 == 0
    ensures longer.None? <==> |out| > want
    ensures longer.Some? ==>
      |longer.value| == want + Align8(|data|) && longer.value[..|out|] == out
        && longer.value[want..want + |data|] == data && ZeroFrom(longer.value, |out|, want)
        && ZeroFrom(longer.value, want + |data|, |longer.value|)
  {
    if |out| > want {
      return None;
    }
    var filled := out;
    while |filled| < want
      invariant |out| <= |filled| <= want && filled[..|out|] == out && ZeroFrom(filled, |out|, want)
    {
      filled := filled + [0];
    }
    var written := filled + data;
    var padded := Pad(written);
    assert written[..|filled|] == filled && written[want..] == data;
    SlicesOfLonger(written, padded, want, |written|);
    SlicesOfLonger(written, padded, 0, |out|);
    SlicesOfLonger(filled, written, 0, |out|);
    assert padded[..|written|] == written;
    return Some(padded);
  }

  /**
   Builds the container. The checks for overlap and for a wrong size never fire; it fails exactly
   when the file would not fit 64 bits, and otherwise every entry leads to its chunk.
   */
  method Build(chunks: seq<Chunk>, tag: seq<byte>, revision: u32) returns (r: Result<seq<byte>, LayoutError>)
    requires Proper(chunks) && |tag| == 4 && Start(chunks) < U64_END
    ensures r.Err? <==> FileSize(chunks) >= U64_END
    ensures r.Err? ==> r.error == LayoutError.TooLarge
    ensures r.Ok? ==>
      |r.value| == FileSize(chunks) && r.value[..HEADER_SIZE] == Header(FileSize(chunks), |chunks|, tag, revision)
    ensures r.Ok? ==> forall i: nat {:trigger Shows(r.value, chunks, i)} :: i < |chunks| ==> Shows(r.value, chunks, i)
    ensures r.Ok? ==> GapsZero(r.value, chunks, |chunks|)
  {
    hide Align8, HasToc, HasData, Shows, Header, GapsZero, ZeroFrom;
    var offsets, fileSize, ok := Plan(chunks);
    if !ok {
      return Err(LayoutError.TooLarge);
    }
    forall i: nat {:trigger PlannedAt(offsets, chunks, i, U64_END - 1)} | i < |chunks|
      ensures PlannedAt(offsets, chunks, i, U64_END - 1)
    {
      assert PlannedAt(offsets, chunks, i, fileSize);
    }
    var toc := WriteToc(chunks, offsets);
    var out := Pad(toc);
    LongerKeeps(toc, out, chunks, 0);
    GapsPadded(toc, out, chunks);
    for k := 0 to |chunks|
      invariant |out| == OffsetOf(chunks, k) && GapsZero(out, chunks, k)
      invariant forall i: nat {:trigger HasToc(out, chunks, i)} :: i < |chunks| ==> HasToc(out, chunks, i)
      invariant forall i: nat {:trigger HasData(out, chunks, i)} :: i < k ==> HasData(out, chunks, i)
    {
      assert PlannedAt(offsets, chunks, k, fileSize);
      NextOffset(chunks, k);
      var longer := AppendChunk(out, chunks[k].data, offsets[k]);
      if longer.None? {
        return Err(Overlap);
      }
      LongerKeeps(out, longer.value, chunks, k);
      DataAt(longer.value, chunks, k);
      GapsAppended(out, longer.value, chunks, k);
      out := longer.value;
    }
    if |out| != fileSize {
      return Err(SizeMismatch);
    }
    HeaderKeeps(out, chunks, Header(fileSize, |chunks|, tag, revision));
    GapsWithHeader(out, Header(fileSize, |chunks|, tag, revision), chunks);
    out := Put(out, 0, Header(fileSize, |chunks|, tag, revision));
    return Ok(out);
  }

  lemma DataAt(file: seq<byte>, chunks: seq<Chunk>, k: nat)
    requires k < |chunks| && OffsetOf(chunks, k) + |chunks[k].data| <= |file|
    requires file[OffsetOf(chunks, k)..OffsetOf(chunks, k) + |chunks[k].data|] == chunks[k].data
    ensures HasData(file, chunks, k)
  {
  }

  lemma HeaderKeeps(body: seq<byte>, chunks: seq<Chunk>, header: seq<byte>)
    requires Proper(chunks) && |header| == HEADER_SIZE <= |body|
    requires forall i: nat {:trigger HasToc(body, chunks, i)} :: i < |chunks| ==> HasToc(body, chunks, i)
    requires forall i: nat {:trigger HasData(body, chunks, i)} :: i < |chunks| ==> HasData(body, chunks, i)
    ensures Put(body, 0, header)[..HEADER_SIZE] == header
    ensures forall i: nat {:trigger Shows(Put(body, 0, header), chunks, i)} ::
      i < |chunks| ==> Shows(Put(body, 0, header), chunks, i)
  {
    hide TocEntry;
    PutPrefix(body, header);
    forall i: nat {:trigger Shows(Put(body, 0, header), chunks, i)} | i < |chunks|
      ensures Shows(Put(body, 0, header), chunks, i)
    {
      assert HasToc(body, chunks, i) && HasData(body, chunks, i);
      var e, o := HEADER_SIZE + TOC_ENTRY_SIZE * i, OffsetOf(chunks, i);
      PutMiss(body, 0, header, e, e + TOC_ENTRY_SIZE);
      PutMiss(body, 0, header, o, o + |chunks[i].data|);
    }
  }

  // ------------------------------------------------------------------ reading it back

  /** The chunk that entry `i` of the table of contents describes, as a reader finds it. */
  function ReadChunk(file: seq<byte>, i: nat): Option<Chunk> {
    var e := HEADER_SIZE + TOC_ENTRY_SIZE * i;
    if e + TOC_ENTRY_SIZE > |file| then None
    else
      var offset, length := Get64(file, e + 4), Get64(file, e + 12);
      if offset + length > |file| then None
      else Some(Chunk(file[e..e + 4], Get32(file, e + 20), Get32(file, e + 24), Get32(file, e + 28),
                      file[offset..offset + length]))
  }

  /** Reading by the table of contents returns every chunk as it was put in. */
  lemma ReadsBack(file: seq<byte>, chunks: seq<Chunk>, i: nat)
    requires i < |chunks| && |chunks[i].id| == 4 && Shows(file, chunks, i)
    requires HEADER_SIZE + TOC_ENTRY_SIZE * i + TOC_ENTRY_SIZE <= |file|
    ensures ReadChunk(file, i) == Some(chunks[i])
  {
    hide LE32, LE64, Get32, Get64;
    var e, o, c := HEADER_SIZE + TOC_ENTRY_SIZE * i, OffsetOf(chunks, i), chunks[i];
    var t := file[e..e + TOC_ENTRY_SIZE];
    assert t == TocEntry(c, o);
    assert t[..4] == c.id && t[4..12] == LE64(o) && t[12..20] == LE64(|c.data|);
    assert t[20..24] == LE32(c.flags) && t[24..28] == LE32(c.elemSize) && t[28..32] == LE32(c.elemCount);
    SliceOfSlice(file, e, e + TOC_ENTRY_SIZE, 0, 4);
    SliceOfSlice(file, e, e + TOC_ENTRY_SIZE, 4, 12);
    SliceOfSlice(file, e, e + TOC_ENTRY_SIZE, 12, 20);
    SliceOfSlice(file, e, e + TOC_ENTRY_SIZE, 20, 24);
    SliceOfSlice(file, e, e + TOC_ENTRY_SIZE, 24, 28);
    SliceOfSlice(file, e, e + TOC_ENTRY_SIZE, 28, 32);
    Get64OfLE(file, e + 4, o);
    Get64OfLE(file, e + 12, |c.data|);
    Get32OfLE(file, e + 20, c.flags);
    Get32OfLE(file, e + 24, c.elemSize);
    Get32OfLE(file, e + 28, c.elemCount);
  }

  /** The header's size field is the length of the file, and its other fields lead to the table of contents. */
  lemma HeaderReads(file: seq<byte>, fileSize: u64, chunkCount: nat, tag: seq<byte>, revision: u32)
    requires |tag| == 4 && HEADER_SIZE <= |file| && file[..HEADER_SIZE] == Header(fileSize, chunkCount, tag, revision)
    ensures file[..4] == [0x58, 0x4E, 0x4C, 0x53] && Get16(file, 0x04) == 1 && file[0x06] == 1 && file[0x07] == 48
    ensures Get64(file, 0x08) == fileSize && Get64(file, 0x10) == 48
    ensures Get32(file, 0x18) == chunkCount % 0x1_0000_0000 && Get32(file, 0x1C) == 32
    ensures file[0x20..0x24] == tag && Get32(file, 0x24) == revision
    ensures Get32(file, 0x28) == 0 && Get32(file, 0x2C) == 0
  {
    HeaderEnds(file, fileSize, chunkCount, tag, revision);
    hide LE16, LE32, LE64, Get16, Get32, Get64;
    var t := file[0..HEADER_SIZE];
    assert t == file[..HEADER_SIZE];
    assert t[8..16] == LE64(fileSize) && t[16..24] == LE64(HEADER_SIZE);
    assert t[24..28] == LE32(chunkCount % U32_END) && t[28..32] == LE32(TOC_ENTRY_SIZE);
    SliceOfSlice(file, 0, HEADER_SIZE, 8, 16);
    SliceOfSlice(file, 0, HEADER_SIZE, 16, 24);
    SliceOfSlice(file, 0, HEADER_SIZE, 24, 28);
    SliceOfSlice(file, 0, HEADER_SIZE, 28, 32);
    Get64OfLE(file, 8, fileSize);
    Get64OfLE(file, 16, HEADER_SIZE);
    Get32OfLE(file, 24, chunkCount % U32_END);
    Get32OfLE(file, 28, TOC_ENTRY_SIZE);
  }

  lemma HeaderEnds(file: seq<byte>, fileSize: u64, chunkCount: nat, tag: seq<byte>, revision: u32)
    requires |tag| == 4 && HEADER_SIZE <= |file| && file[..HEADER_SIZE] == Header(fileSize, chunkCount, tag, revision)
    ensures file[..4] == [0x58, 0x4E, 0x4C, 0x53] && Get16(file, 0x04) == 1 && file[0x06] == 1 && file[0x07] == 48
    ensures file[0x20..0x24] == tag && Get32(file, 0x24) == revision
    ensures Get32(file, 0x28) == 0 && Get32(file, 0x2C) == 0
  {
    hide LE16, LE32, LE64, Get16, Get32, Get64;
    var t := file[0..HEADER_SIZE];
    assert t == file[..HEADER_SIZE];
    assert t[0..4] == [0x58, 0x4E, 0x4C, 0x53] && t[4..6] == LE16(1) && t[6] == 1 && t[7] == 48;
    assert t[32..36] == tag && t[36..40] == LE32(revision) && t[40..44] == LE32(0) && t[44..48] == LE32(0);
    SliceOfSlice(file, 0, HEADER_SIZE, 0, 4);
    SliceOfSlice(file, 0, HEADER_SIZE, 4, 6);
    SliceOfSlice(file, 0, HEADER_SIZE, 32, 36);
    SliceOfSlice(file, 0, HEADER_SIZE, 36, 40);
    SliceOfSlice(file, 0, HEADER_SIZE, 40, 44);
    SliceOfSlice(file, 0, HEADER_SIZE, 44, 48);
    Get16OfLE(file, 4, 1);
    Get32OfLE(file, 36, revision);
    Get32OfLE(file, 40, 0);
    Get32OfLE(file, 44, 0);
  }
}
