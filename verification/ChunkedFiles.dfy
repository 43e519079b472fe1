/** Files that are read through a cache of chunks: one mapped as it is, and one whose chunks may be
    compressed.  Here is what both have in common, and the first of them, whose mapped chunks are
    changed in place and reach the disk when they are given up. */
module ChunkedFiles {
  import opened Basics
  import Bits

  function Min(a: int, b: int): int {
    if a < b then a else b
  }

  /** Where chunk i begins. */
  function Begin(i: nat, cs: nat): nat {
    if i == 0 then 0 else Begin(i - 1, cs) + cs
  }

  lemma {:induction false} BeginIs(i: nat, cs: nat)
    ensures Begin(i, cs) == i * cs
  {
    if i > 0 {
      BeginIs(i - 1, cs);
    }
  }

  /** The bytes of chunk i of a file. */
  function ChunkOf(file: seq<byte>, cs: nat, i: nat): (r: seq<byte>)
    requires Begin(i, cs) <= |file|
    ensures |r| == Min(cs, |file| - Begin(i, cs))
  {
    file[Begin(i, cs)..Min(Begin(i, cs) + cs, |file|)]
  }

  /** How many bytes there are behind offset, at most len. */
  function Clipped(size: nat, offset: nat, len: nat): (n: nat)
    ensures n <= len && (n > 0 ==> offset + n <= size) && (n < len ==> size <= offset + n)
  {
    if offset > size then 0 else Min(len, size - offset)
  }

  /** The chunk that an offset lies in. */
  function Chunk(offset: nat, cs: nat): nat
    requires cs > 0
  {
    if offset < cs then 0 else 1 + Chunk(offset - cs, cs)
  }

  /** The place of an offset in its chunk. */
  function InChunk(offset: nat, cs: nat): nat
    requires cs > 0
  {
    if offset < cs then offset else InChunk(offset - cs, cs)
  }

  lemma {:induction false} Place(offset: nat, cs: nat)
    requires cs > 0
    ensures offset == Begin(Chunk(offset, cs), cs) + InChunk(offset, cs) && InChunk(offset, cs) < cs
  {
    if offset >= cs {
      Place(offset - cs, cs);
    }
  }

  /** Quotient and remainder; the source shifts and masks, as its chunk sizes are powers of two. */
  lemma ChunkDivides(offset: nat, cs: nat)
    requires cs > 0
    ensures Chunk(offset, cs) == offset / cs && InChunk(offset, cs) == offset % cs
  {
    Place(offset, cs);
    BeginIs(Chunk(offset, cs), cs);
    Bits.DivUnique(offset, cs, Chunk(offset, cs), InChunk(offset, cs));
  }

  lemma {:induction false} Ordered(i: nat, j: nat, cs: nat)
    requires i < j
    ensures Begin(i, cs) + cs <= Begin(j, cs)
    decreases j
  {
    if i < j - 1 {
      Ordered(i, j - 1, cs);
    }
  }

  /** A chunk before another one is whole. */
  lemma WholeChunk(i: nat, endChunk: nat, cs: nat)
    requires i < endChunk
    ensures Begin(i, cs) + cs == Begin(i + 1, cs) <= Begin(endChunk, cs)
  {
    Ordered(i, endChunk, cs);
  }

  /** n bytes from offset on begin at place `from` of chunk b and end in chunk e. */
  predicate Spans(offset: nat, n: nat, cs: nat, b: nat, e: nat, from: nat) {
    && b <= e && from < cs && n > 0 && offset == Begin(b, cs) + from
    && Begin(e, cs) < offset + n <= Begin(e, cs) + cs
    && (b == e <==> n <= cs - from) && (b < e ==> Begin(b, cs) + cs <= Begin(e, cs))
  }

  /** Where the chunks of the bytes [offset, offset + n) begin and end. */
  lemma Chunks(offset: nat, n: nat, cs: nat)
    requires cs > 0 && n > 0
    ensures var b, e := Chunk(offset, cs), Chunk(offset + n - 1, cs);
            Spans(offset, n, cs, b, e, InChunk(offset, cs))
  {
    Place(offset, cs);
    Place(offset + n - 1, cs);
    var b, e := Chunk(offset, cs), Chunk(offset + n - 1, cs);
    if e < b {
      Ordered(e, b, cs);
    } else if b < e {
      Ordered(b, e, cs);
    }
  }

  method MemMove(dest: array<byte>, at: nat, src: seq<byte>)
    requires at + |src| <= dest.Length
    modifies dest
    ensures dest[..] == old(dest[..at]) + src + old(dest[at + |src|..])
  {
    var i := 0;
    while i < |src|
      invariant i <= |src|
      invariant forall k :: 0 <= k < dest.Length ==> dest[k] == if at <= k < at + i then src[k - at] else old(dest[k])
    {
      dest[at + i] := src[i];
      i := i + 1;
    }
  }

  lemma Slice(file: seq<byte>, at: nat, e: nat, from: nat, n: nat)
    requires at + from + n <= e <= |file|
    ensures file[at..e][from..from + n] == file[at + from..at + from + n]
  {
    var part, x, y := file[at..e], file[at..e][from..from + n], file[at + from..at + from + n];
    forall k | 0 <= k < n ensures x[k] == y[k] {
      assert x[k] == part[from + k] == file[at + from + k];
    }
  }

  /** The first n bytes are those of the file, and nothing else is changed. */
  ghost predicate Copied(was: seq<byte>, dest: seq<byte>, file: seq<byte>, offset: nat, n: nat) {
    n <= |was| && offset + n <= |file| && dest == file[offset..offset + n] + was[n..]
  }

  lemma CopyMore(was: seq<byte>, dest: seq<byte>, file: seq<byte>, offset: nat, n: nat, more: seq<byte>)
    requires Copied(was, dest, file, offset, n) && n + |more| <= |was| && offset + n + |more| <= |file|
    requires more == file[offset + n..offset + n + |more|]
    ensures Copied(was, dest[..n] + more + dest[n + |more|..], file, offset, n + |more|)
  {
  }

  /** Part of a chunk behind what has been copied so far. */
  lemma CopyPart(was: seq<byte>, dest: seq<byte>, file: seq<byte>, offset: nat, pos: nat, chunk: nat, cs: nat, from: nat, n: nat)
    requires Begin(chunk, cs) <= |file| && from + n <= Min(cs, |file| - Begin(chunk, cs))
    requires Copied(was, dest, file, offset, pos) && offset + pos == Begin(chunk, cs) + from && pos + n <= |was|
    ensures |dest| == |was| && |ChunkOf(file, cs, chunk)[from..from + n]| == n
    ensures Copied(was, dest[..pos] + ChunkOf(file, cs, chunk)[from..from + n] + dest[pos + n..], file, offset, pos + n)
  {
    Slice(file, Begin(chunk, cs), Min(Begin(chunk, cs) + cs, |file|), from, n);
    CopyMore(was, dest, file, offset, pos, ChunkOf(file, cs, chunk)[from..from + n]);
  }

  /** The offset at place k of chunk i lies in that chunk at that place. */
  lemma {:induction false} PlaceBack(i: nat, k: nat, cs: nat)
    requires k < cs
    ensures Chunk(Begin(i, cs) + k, cs) == i && InChunk(Begin(i, cs) + k, cs) == k
  {
    if i > 0 {
      PlaceBack(i - 1, k, cs);
    }
  }

  /** Every mapped chunk is one of the file and has its size. */
  ghost predicate MappedOk(disk: seq<byte>, cs: nat, mapped: map<nat, seq<byte>>) {
    && cs > 0
    && forall i :: i in mapped ==> Begin(i, cs) < |disk| && |mapped[i]| == Min(cs, |disk| - Begin(i, cs))
  }

  function ByteAt(disk: seq<byte>, cs: nat, mapped: map<nat, seq<byte>>, p: nat): byte
    requires cs > 0 && p < |disk|
  {
    var i, k := Chunk(p, cs), InChunk(p, cs);
    if i in mapped && k < |mapped[i]| then mapped[i][k] else disk[p]
  }

  /** The bytes of the file as its users see them: those of the mapped chunks, and the rest from the disk. */
  ghost function Overlaid(disk: seq<byte>, cs: nat, mapped: map<nat, seq<byte>>): (r: seq<byte>)
    requires cs > 0
    ensures |r| == |disk|
  {
    seq(|disk|, p requires 0 <= p < |disk| => ByteAt(disk, cs, mapped, p))
  }

  /** A mapped chunk holds what its users see of it. */
  lemma MappedIsChunk(disk: seq<byte>, cs: nat, mapped: map<nat, seq<byte>>, i: nat)
    requires MappedOk(disk, cs, mapped) && i in mapped
    ensures mapped[i] == ChunkOf(Overlaid(disk, cs, mapped), cs, i)
  {
    var c := ChunkOf(Overlaid(disk, cs, mapped), cs, i);
    forall k | 0 <= k < |c| ensures c[k] == mapped[i][k] {
      PlaceBack(i, k, cs);
    }
  }

  lemma SameSeen(disk: seq<byte>, cs: nat, mapped: map<nat, seq<byte>>, disk2: seq<byte>, mapped2: map<nat, seq<byte>>)
    requires cs > 0 && |disk2| == |disk|
    requires forall p :: 0 <= p < |disk| ==> ByteAt(disk2, cs, mapped2, p) == ByteAt(disk, cs, mapped, p)
    ensures Overlaid(disk2, cs, mapped2) == Overlaid(disk, cs, mapped)
  {
    var s, s2 := Overlaid(disk, cs, mapped), Overlaid(disk2, cs, mapped2);
    forall p | 0 <= p < |disk| ensures s2[p] == s[p] {
      assert ByteAt(disk2, cs, mapped2, p) == ByteAt(disk, cs, mapped, p);
    }
  }

  lemma MapByte(disk: seq<byte>, cs: nat, mapped: map<nat, seq<byte>>, i: nat, p: nat)
    requires cs > 0 && i !in mapped && Begin(i, cs) < |disk| && p < |disk|
    ensures ByteAt(disk, cs, mapped[i := ChunkOf(disk, cs, i)], p) == ByteAt(disk, cs, mapped, p)
  {
    Place(p, cs);
    var c, k := ChunkOf(disk, cs, i), InChunk(p, cs);
    if Chunk(p, cs) == i {
      assert k < |c| && c[k] == disk[Begin(i, cs) + k];
    }
  }

  /** Mapping a chunk changes nothing that users see. */
  lemma MapSeesSame(disk: seq<byte>, cs: nat, mapped: map<nat, seq<byte>>, i: nat)
    requires MappedOk(disk, cs, mapped) && i !in mapped && Begin(i, cs) < |disk|
    ensures MappedOk(disk, cs, mapped[i := ChunkOf(disk, cs, i)])
    ensures Overlaid(disk, cs, mapped[i := ChunkOf(disk, cs, i)]) == Overlaid(disk, cs, mapped)
  {
    forall p | 0 <= p < |disk|
      ensures ByteAt(disk, cs, mapped[i := ChunkOf(disk, cs, i)], p) == ByteAt(disk, cs, mapped, p)
    {
      MapByte(disk, cs, mapped, i, p);
    }
    SameSeen(disk, cs, mapped, disk, mapped[i := ChunkOf(disk, cs, i)]);
  }

  /** s with the bytes of x from position at on. */
  function Patched(s: seq<byte>, at: nat, x: seq<byte>): (r: seq<byte>)
    requires at + |x| <= |s|
    ensures |r| == |s|
  {
    s[..at] + x + s[at + |x|..]
  }

  lemma PatchedAt(s: seq<byte>, at: nat, x: seq<byte>, p: nat)
    requires at + |x| <= |s| && p < |s|
    ensures Patched(s, at, x)[p] == if at <= p < at + |x| then x[p - at] else s[p]
  {
  }

  lemma UnmapByte(disk: seq<byte>, cs: nat, mapped: map<nat, seq<byte>>, i: nat, p: nat)
    requires cs > 0 && i in mapped && Begin(i, cs) + |mapped[i]| <= |disk| && p < |disk| && |mapped[i]| <= cs
    requires Begin(i, cs) + cs <= |disk| ==> |mapped[i]| == cs
    requires Begin(i, cs) + cs > |disk| ==> |mapped[i]| == |disk| - Begin(i, cs)
    ensures ByteAt(Patched(disk, Begin(i, cs), mapped[i]), cs, mapped - {i}, p) == ByteAt(disk, cs, mapped, p)
  {
    Place(p, cs);
    PatchedAt(disk, Begin(i, cs), mapped[i], p);
    if Begin(i, cs) <= p < Begin(i, cs) + |mapped[i]| {
      PlaceBack(i, p - Begin(i, cs), cs);
    }
  }

  /** Unmapping any chunk, which brings its bytes to the disk, changes nothing that users see. */
  lemma UnmapSeesSame(disk: seq<byte>, cs: nat, mapped: map<nat, seq<byte>>, i: nat)
    requires MappedOk(disk, cs, mapped) && i in mapped
    ensures MappedOk(Patched(disk, Begin(i, cs), mapped[i]), cs, mapped - {i})
    ensures Overlaid(Patched(disk, Begin(i, cs), mapped[i]), cs, mapped - {i}) == Overlaid(disk, cs, mapped)
  {
    var disk2 := Patched(disk, Begin(i, cs), mapped[i]);
    forall p | 0 <= p < |disk| ensures ByteAt(disk2, cs, mapped - {i}, p) == ByteAt(disk, cs, mapped, p) {
      UnmapByte(disk, cs, mapped, i, p);
    }
    SameSeen(disk, cs, mapped, disk2, mapped - {i});
  }

  lemma PatchByte(disk: seq<byte>, cs: nat, mapped: map<nat, seq<byte>>, i: nat, from: nat, x: seq<byte>, p: nat)
    requires cs > 0 && i in mapped && from + |x| <= |mapped[i]| <= cs && Begin(i, cs) + |mapped[i]| <= |disk| && p < |disk|
    ensures var at := Begin(i, cs) + from;
            ByteAt(disk, cs, mapped[i := Patched(mapped[i], from, x)], p)
            == if at <= p < at + |x| then x[p - at] else ByteAt(disk, cs, mapped, p)
  {
    Place(p, cs);
    var at, k := Begin(i, cs) + from, InChunk(p, cs);
    if at <= p < at + |x| {
      PlaceBack(i, p - Begin(i, cs), cs);
    }
    if Chunk(p, cs) == i && k < |mapped[i]| {
      PatchedAt(mapped[i], from, x, k);
    }
  }

  /** Writing into a mapped chunk is writing into the file. */
  lemma PatchSeen(disk: seq<byte>, cs: nat, mapped: map<nat, seq<byte>>, i: nat, from: nat, x: seq<byte>)
    requires MappedOk(disk, cs, mapped) && i in mapped && from + |x| <= |mapped[i]|
    ensures MappedOk(disk, cs, mapped[i := Patched(mapped[i], from, x)])
    ensures Overlaid(disk, cs, mapped[i := Patched(mapped[i], from, x)])
            == Patched(Overlaid(disk, cs, mapped), Begin(i, cs) + from, x)
  {
    var mapped2, at := mapped[i := Patched(mapped[i], from, x)], Begin(i, cs) + from;
    var s := Overlaid(disk, cs, mapped);
    var s2 := Overlaid(disk, cs, mapped2);
    forall p | 0 <= p < |disk| ensures s2[p] == Patched(s, at, x)[p] {
      PatchByte(disk, cs, mapped, i, from, x, p);
      PatchedAt(s, at, x, p);
    }
  }

  class ChunkedMmappedFile {
    const chunkSize: nat
    const maxOccupyCount: nat
    /** What is on the disk, and the mapped chunks, whose bytes reach the disk when they are unmapped. */
    var disk: seq<byte>
    var mapped: map<nat, seq<byte>>

    ghost predicate Valid() reads this {
      MappedOk(disk, chunkSize, mapped) && maxOccupyCount > 0 && |mapped| <= maxOccupyCount
    }

    /** The bytes of the file. */
    ghost function File(): seq<byte>
      requires chunkSize > 0
      reads this
    {
      Overlaid(disk, chunkSize, mapped)
    }

    constructor (file: seq<byte>, chunkSize: nat, maxOccupyCount: nat)
      requires chunkSize > 0 && maxOccupyCount > 0
      ensures Valid() && File() == file
    {
      this.chunkSize, this.maxOccupyCount, disk, mapped := chunkSize, maxOccupyCount, file, map[];
    }

    /** Maps a chunk of the file, in place of any other when there are too many. */
    method ChunkData(chunk: nat) returns (data: seq<byte>)
      requires Valid() && Begin(chunk, chunkSize) < |disk|
      modifies this`mapped, this`disk
      ensures Valid() && File() == old(File()) && |disk| == |old(disk)|
      ensures chunk in mapped && data == mapped[chunk] == ChunkOf(File(), chunkSize, chunk)
    {
      if chunk !in mapped {
        if |mapped| >= maxOccupyCount {
          Evict();
        }
        MapSeesSame(disk, chunkSize, mapped, chunk);
        mapped := mapped[chunk := ChunkOf(disk, chunkSize, chunk)];
      }
      MappedIsChunk(disk, chunkSize, mapped, chunk);
      data := mapped[chunk];
    }

    /** Unmaps any chunk. */
    method Evict()
      requires Valid() && |mapped| > 0
      modifies this`mapped, this`disk
      ensures Valid() && File() == old(File()) && |disk| == |old(disk)|
      ensures |mapped| == |old(mapped)| - 1 && mapped.Keys <= old(mapped).Keys
    {
      assert mapped.Keys != {};
      var victim :| victim in mapped.Keys;
      UnmapSeesSame(disk, chunkSize, mapped, victim);
      assert (mapped - {victim}).Keys == mapped.Keys - {victim};
      disk := Patched(disk, Begin(victim, chunkSize), mapped[victim]);
      mapped := mapped - {victim};
    }

    /** The first n bytes of `file` from offset on are in dest; whatever has been mapped and unmapped, the file is
        still the same. */
    ghost predicate Reading(file: seq<byte>, was: seq<byte>, dest: array<byte>, offset: nat, n: nat)
      reads this, dest
    {
      Valid() && File() == file && |disk| == |file| && Copied(was, dest[..], file, offset, n)
    }

    /** Copies n bytes of a chunk behind the bytes of the file that are copied so far. */
    method CopyChunk(chunk: nat, from: nat, n: nat, dest: array<byte>, pos: nat,
                     ghost file: seq<byte>, ghost was: seq<byte>, ghost offset: nat)
      requires Reading(file, was, dest, offset, pos) && pos + n <= dest.Length
      requires Begin(chunk, chunkSize) < |file| && from + n <= Min(chunkSize, |file| - Begin(chunk, chunkSize))
      requires offset + pos == Begin(chunk, chunkSize) + from
      modifies this`mapped, this`disk, dest
      ensures Reading(file, was, dest, offset, pos + n)
    {
      var data := ChunkData(chunk);
      CopyPart(was, dest[..], file, offset, pos, chunk, chunkSize, from, n);
      MemMove(dest, pos, data[from..from + n]);
    }

    /** Copies all of a chunk that is not the last. */
    method CopyWhole(i: nat, ghost endChunk: nat, dest: array<byte>, pos0: nat,
                     ghost file: seq<byte>, ghost was: seq<byte>, ghost offset: nat)
      returns (pos: nat)
      requires Reading(file, was, dest, offset, pos0) && i < endChunk && offset + pos0 == Begin(i, chunkSize)
      requires Begin(endChunk, chunkSize) <= |file| && Begin(endChunk, chunkSize) <= offset + dest.Length
      modifies this`mapped, this`disk, dest
      ensures Reading(file, was, dest, offset, pos) && offset + pos == Begin(i + 1, chunkSize)
    {
      WholeChunk(i, endChunk, chunkSize);
      CopyChunk(i, 0, chunkSize, dest, pos0, file, was, offset);
      pos := pos0 + chunkSize;
    }

    /** Copies all chunks from i0 up to endChunk. */
    method CopyInner(i0: nat, endChunk: nat, dest: array<byte>, pos0: nat,
                     ghost file: seq<byte>, ghost was: seq<byte>, ghost offset: nat)
      returns (pos: nat)
      requires Reading(file, was, dest, offset, pos0) && i0 <= endChunk && offset + pos0 == Begin(i0, chunkSize)
      requires Begin(endChunk, chunkSize) <= |file| && Begin(endChunk, chunkSize) <= offset + dest.Length
      modifies this`mapped, this`disk, dest
      ensures Reading(file, was, dest, offset, pos) && offset + pos == Begin(endChunk, chunkSize)
    {
      pos := pos0;
      for i := i0 to endChunk
        invariant Reading(file, was, dest, offset, pos) && offset + pos == Begin(i, chunkSize)
      {
        pos := CopyWhole(i, endChunk, dest, pos, file, was, offset);
      }
    }

    /** Copies the bytes from offset on, as many of them as there are. */
    method Read(offset: nat, dest: array<byte>, len0: nat) returns (len: nat)
      requires Valid() && Clipped(|disk|, offset, len0) <= dest.Length
      modifies this`mapped, this`disk, dest
      ensures Valid() && File() == old(File()) && len == Clipped(|File()|, offset, len0)
      ensures len > 0 ==> Copied(old(dest[..]), dest[..], File(), offset, len)
      ensures len == 0 ==> dest[..] == old(dest[..])
    {
      len := Clipped(|disk|, offset, len0);
      if len > 0 {
        Chunks(offset, len, chunkSize);
        Place(offset, chunkSize);
        ReadChunks(offset, len, Chunk(offset, chunkSize), Chunk(offset + len - 1, chunkSize), InChunk(offset, chunkSize),
                   dest, File(), dest[..]);
      }
    }

    /** Copies len bytes, which begin at place `from` of one chunk and end in the other. */
    method ReadChunks(offset: nat, len: nat, beginChunk: nat, endChunk: nat, from: nat, dest: array<byte>,
                      ghost file: seq<byte>, ghost was: seq<byte>)
      requires Reading(file, was, dest, offset, 0) && len <= dest.Length && offset + len <= |file|
      requires Spans(offset, len, chunkSize, beginChunk, endChunk, from)
      modifies this`mapped, this`disk, dest
      ensures Reading(file, was, dest, offset, len)
    {
      var pos: nat := Min(len, chunkSize - from);
      CopyChunk(beginChunk, from, pos, dest, 0, file, was, offset);
      if beginChunk < endChunk {
        pos := CopyInner(beginChunk + 1, endChunk, dest, pos, file, was, offset);
        CopyChunk(endChunk, 0, len - pos, dest, pos, file, was, offset);
      }
    }

    /** Puts the bytes of src from pos to m into a chunk, and so into the file. */
    method FillChunk(chunk: nat, from: nat, src: seq<byte>, pos: nat, m: nat, ghost was: seq<byte>, ghost destOffset: nat)
      requires Valid() && Begin(chunk, chunkSize) < |disk| && pos <= m <= |src|
      requires from + (m - pos) <= Min(chunkSize, |disk| - Begin(chunk, chunkSize))
      requires Filled(was, File(), destOffset, src, pos) && destOffset + pos == Begin(chunk, chunkSize) + from
      modifies this
      ensures Valid() && |disk| == |old(disk)| && Filled(was, File(), destOffset, src, m)
    {
      var data := ChunkData(chunk);
      FillMore(was, File(), destOffset, src, pos, m);
      PatchSeen(disk, chunkSize, mapped, chunk, from, src[pos..m]);
      mapped := mapped[chunk := Patched(data, from, src[pos..m])];
    }

    /** Fills all chunks from i0 up to endChunk. */
    method FillInner(i0: nat, endChunk: nat, src: seq<byte>, pos0: nat, ghost was: seq<byte>, ghost destOffset: nat)
      returns (pos: nat)
      requires Valid() && i0 <= endChunk && destOffset + pos0 == Begin(i0, chunkSize)
      requires Begin(endChunk, chunkSize) <= |was| && Begin(endChunk, chunkSize) <= destOffset + |src|
      requires Filled(was, File(), destOffset, src, pos0)
      modifies this
      ensures Valid() && |disk| == |old(disk)| && destOffset + pos == Begin(endChunk, chunkSize) && Filled(was, File(), destOffset, src, pos)
    {
      pos := pos0;
      for i := i0 to endChunk
        invariant Valid() && |disk| == |old(disk)| && destOffset + pos == Begin(i, chunkSize) && Filled(was, File(), destOffset, src, pos)
      {
        WholeChunk(i, endChunk, chunkSize);
        FillChunk(i, 0, src, pos, pos + chunkSize, was, destOffset);
        pos := pos + chunkSize;
      }
    }

    /** Puts bytes into the file from destOffset on, as many of them as there is room for. */
    method Write(src: seq<byte>, destOffset: nat) returns (len: nat)
      requires Valid()
      modifies this
      ensures Valid() && len == Clipped(|old(File())|, destOffset, |src|)
      ensures len > 0 ==> Filled(old(File()), File(), destOffset, src, len)
      ensures len == 0 ==> File() == old(File())
    {
      len := Clipped(|disk|, destOffset, |src|);
      if len > 0 {
        ghost var was := File();
        assert Filled(was, File(), destOffset, src, 0);
        Chunks(destOffset, len, chunkSize);
        Place(destOffset, chunkSize);
        WriteChunks(src, destOffset, len, Chunk(destOffset, chunkSize), Chunk(destOffset + len - 1, chunkSize),
                    InChunk(destOffset, chunkSize), was);
      }
    }

    /** Fills in len bytes, which begin at place `from` of one chunk and end in the other. */
    method WriteChunks(src: seq<byte>, destOffset: nat, len: nat, beginChunk: nat, endChunk: nat, from: nat, ghost was: seq<byte>)
      requires Valid() && Spans(destOffset, len, chunkSize, beginChunk, endChunk, from) && destOffset + len <= |disk|
      requires len <= |src| && Filled(was, File(), destOffset, src, 0)
      modifies this
      ensures Valid() && |disk| == |old(disk)| && Filled(was, File(), destOffset, src, len)
    {
      var pos: nat := Min(len, chunkSize - from);
      FillChunk(beginChunk, from, src, 0, pos, was, destOffset);
      if beginChunk < endChunk {
        pos := FillInner(beginChunk + 1, endChunk, src, pos, was, destOffset);
        FillChunk(endChunk, 0, src, pos, len, was, destOffset);
      }
    }
  }

  /** The first n bytes of src are in the file at offset, and nothing else is changed. */
  ghost predicate Filled(was: seq<byte>, file: seq<byte>, offset: nat, src: seq<byte>, n: nat) {
    n <= |src| && offset + n <= |was| && file == was[..offset] + src[..n] + was[offset + n..]
  }

  lemma FillMore(was: seq<byte>, file: seq<byte>, offset: nat, src: seq<byte>, n: nat, m: nat)
    requires n <= m <= |src| && Filled(was, file, offset, src, n) && offset + m <= |was|
    ensures var at := offset + n;
            Filled(was, file[..at] + src[n..m] + file[at + (m - n)..], offset, src, m)
  {
  }
}
