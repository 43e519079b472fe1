/** A file of chunks, some of them compressed: compressed chunks are unpacked into the tiles of a
    decompression storage, the others are mapped. */
module ChunkCache {
  import opened Basics
  import opened ChunkedFiles

  datatype Config = Config(file: seq<byte>, cs: nat, compressed: seq<bool>, max: nat)

  /** Where the bytes of a resident chunk are. */
  datatype Room = Unset | Tile(t: nat) | Mapped(chunk: nat)

  datatype State = State(tiles: seq<seq<byte>>, free: seq<nat>, cache: map<nat, nat>, storage: seq<Room>)

  predicate IsChunk(c: Config, chunk: nat) {
    chunk < |c.compressed| && Begin(chunk, c.cs) < |c.file|
  }

  /** Whether a room has the bytes of a chunk. */
  predicate Has(c: Config, tiles: seq<seq<byte>>, room: Room, chunk: nat)
    requires IsChunk(c, chunk)
  {
    if c.compressed[chunk] then room.Tile? && room.t < |tiles| && tiles[room.t] == ChunkOf(c.file, c.cs, chunk)
    else room == Mapped(chunk)
  }

  function CountTiles(storage: seq<Room>): (n: nat)
    ensures n <= |storage|
  {
    if storage == [] then 0 else CountTiles(storage[1..]) + if storage[0].Tile? then 1 else 0
  }

  /** The first n positions of the storage are set, except for `hole`. */
  ghost predicate SetUpTo(storage: seq<Room>, n: nat, hole: nat) {
    n <= |storage| && forall i :: 0 <= i < |storage| ==> (storage[i] != Unset <==> i < n && i != hole)
  }

  /** Each resident chunk has a position of its own. */
  ghost predicate Placed(cache: map<nat, nat>, n: nat, hole: nat) {
    && (forall k {:trigger cache[k]} :: k in cache ==> cache[k] < n && cache[k] != hole)
    && (forall k, k2 :: k in cache && k2 in cache && cache[k] == cache[k2] ==> k == k2)
  }

  /** The first n positions of the storage have the bytes of resident chunks, except for `hole`. */
  ghost predicate Taken(c: Config, s: State, n: nat, hole: nat) {
    && |s.storage| == c.max && |s.tiles| == c.max && SetUpTo(s.storage, n, hole) && Placed(s.cache, n, hole)
    && forall k {:trigger HasRoom(c, s, k)} :: k in s.cache ==> HasRoom(c, s, k)
  }

  /** Chunk k is resident with its bytes. */
  ghost predicate HasRoom(c: Config, s: State, k: nat) {
    k in s.cache && s.cache[k] < |s.storage| && IsChunk(c, k) && Has(c, s.tiles, s.storage[s.cache[k]], k)
  }

  ghost predicate IsFree(free: seq<nat>, t: nat) {
    t in free
  }

  ghost predicate IsHeld(storage: seq<Room>, t: nat) {
    Tile(t) in storage
  }

  /** The free tiles and the tiles in the storage together are all tiles, each of them once. */
  ghost predicate Partition(max: nat, free: seq<nat>, storage: seq<Room>) {
    && (forall i, j :: 0 <= i < j < |free| ==> free[i] != free[j])
    && (forall i, j :: 0 <= i < j < |storage| && storage[i].Tile? ==> storage[i] != storage[j])
    && (forall t: nat :: t < max ==> (IsFree(free, t) <==> !IsHeld(storage, t)))
    && (forall t: nat :: IsFree(free, t) || IsHeld(storage, t) ==> t < max)
    && |free| + CountTiles(storage) == max
  }

  /** Between calls resident chunks take the first positions. */
  ghost predicate Inv(c: Config, s: State) {
    Taken(c, s, |s.cache|, |s.cache|) && Partition(c.max, s.free, s.storage)
  }

  /** A position is open for one more chunk. */
  ghost predicate Open(c: Config, s: State, hole: nat) {
    hole <= |s.cache| && Taken(c, s, |s.cache| + 1, hole) && Partition(c.max, s.free, s.storage)
  }

  lemma {:induction false} CountUpdate(storage: seq<Room>, i: nat, r: Room)
    requires i < |storage|
    ensures CountTiles(storage[i := r])
            == CountTiles(storage) - (if storage[i].Tile? then 1 else 0) + if r.Tile? then 1 else 0
  {
    if i > 0 {
      CountUpdate(storage[1..], i - 1, r);
      assert storage[i := r][1..] == storage[1..][i - 1 := r];
    } else {
      assert storage[i := r][1..] == storage[1..];
    }
  }

  lemma {:induction false} HoleLeavesTile(storage: seq<Room>, hole: nat)
    requires hole < |storage| && storage[hole] == Unset
    ensures CountTiles(storage) < |storage|
  {
    if hole > 0 {
      HoleLeavesTile(storage[1..], hole - 1);
    }
  }

  /** With a position open there is a free tile. */
  lemma FreeTile(c: Config, s: State, hole: nat)
    requires Open(c, s, hole)
    ensures |s.free| > 0
  {
    HoleLeavesTile(s.storage, hole);
  }

  function Evicted(c: Config, s: State, victim: nat): State
    requires victim in s.cache && s.cache[victim] < |s.storage|
  {
    var room := s.storage[s.cache[victim]];
    State(s.tiles, if room.Tile? then s.free + [room.t] else s.free, s.cache - {victim},
          s.storage[s.cache[victim] := Unset])
  }

  /** What giving up a chunk needs to know of the state. */
  ghost predicate Evictable(c: Config, s: State) {
    forall k :: k in s.cache ==>
      k < |c.compressed| && s.cache[k] < |s.storage| && (c.compressed[k] <==> s.storage[s.cache[k]].Tile?)
  }

  lemma InvEvictable(c: Config, s: State)
    requires Inv(c, s)
    ensures Evictable(c, s)
  {
    forall k | k in s.cache
      ensures k < |c.compressed| && s.cache[k] < |s.storage| && (c.compressed[k] <==> s.storage[s.cache[k]].Tile?)
    {
      assert HasRoom(c, s, k);
    }
  }

  lemma EvictOpens(c: Config, s: State, victim: nat)
    requires Inv(c, s) && victim in s.cache
    ensures Open(c, Evicted(c, s, victim), s.cache[victim])
  {
    var slot, s2 := s.cache[victim], Evicted(c, s, victim);
    CacheSize(s.cache, victim);
    assert s.storage[slot] != Unset;
    EvictTaken(c, s, victim);
    if s.storage[slot].Tile? {
      ReturnTile(c.max, s.free, s.storage, slot);
    } else {
      NoTile(c.max, s.free, s.storage, slot, Unset);
    }
  }

  lemma CacheSize(m: map<nat, nat>, k: nat)
    requires k in m
    ensures |m - {k}| == |m| - 1
  {
    assert (m - {k}).Keys == m.Keys - {k};
    assert |m.Keys| == |m| && |(m - {k}).Keys| == |m - {k}|;
  }

  lemma EvictTaken(c: Config, s: State, victim: nat)
    requires Inv(c, s) && victim in s.cache
    ensures Taken(c, Evicted(c, s, victim), |s.cache|, s.cache[victim])
  {
    var s2 := Evicted(c, s, victim);
    forall k | k in s2.cache ensures HasRoom(c, s2, k) {
      assert HasRoom(c, s, k);
    }
  }

  /** What is in the storage after one position is set. */
  lemma SetRoom(storage: seq<Room>, i: nat, r: Room, x: Room)
    requires i < |storage|
    ensures x in storage[i := r] <==> x == r || exists j :: 0 <= j < |storage| && j != i && storage[j] == x
  {
    if x == r {
      assert storage[i := r][i] == x;
    } else if j :| 0 <= j < |storage| && j != i && storage[j] == x {
      assert storage[i := r][j] == x;
    }
  }

  /** A tile that leaves the storage becomes free. */
  lemma ReturnTile(max: nat, free: seq<nat>, storage: seq<Room>, i: nat)
    requires Partition(max, free, storage) && i < |storage| && storage[i].Tile?
    ensures Partition(max, free + [storage[i].t], storage[i := Unset])
  {
    var t0 := storage[i].t;
    CountUpdate(storage, i, Unset);
    assert IsHeld(storage, t0) && !IsFree(free, t0);
    forall t: nat ensures IsFree(free + [t0], t) <==> IsFree(free, t) || t == t0 {
      assert (free + [t0])[|free|] == t0;
    }
    forall t: nat ensures IsHeld(storage[i := Unset], t) <==> IsHeld(storage, t) && t != t0 {
      SetRoom(storage, i, Unset, Tile(t));
    }
  }

  /** A free tile enters the storage. */
  lemma TakeTile(max: nat, free: seq<nat>, storage: seq<Room>, i: nat)
    requires Partition(max, free, storage) && i < |storage| && !storage[i].Tile? && |free| > 0
    ensures Partition(max, free[..|free| - 1], storage[i := Tile(free[|free| - 1])])
  {
    var t0 := free[|free| - 1];
    var rest := free[..|free| - 1];
    CountUpdate(storage, i, Tile(t0));
    assert IsFree(free, t0) && !IsHeld(storage, t0);
    forall t: nat ensures IsFree(rest, t) <==> IsFree(free, t) && t != t0 {
      assert free == rest + [t0];
      assert t0 !in rest;
    }
    assert forall j :: 0 <= j < |storage| ==> storage[j] in storage && storage[j] != Tile(t0);
    forall t: nat ensures IsHeld(storage[i := Tile(t0)], t) <==> IsHeld(storage, t) || t == t0 {
      SetRoom(storage, i, Tile(t0), Tile(t));
    }
  }

  /** Other rooms do not matter. */
  lemma NoTile(max: nat, free: seq<nat>, storage: seq<Room>, i: nat, r: Room)
    requires Partition(max, free, storage) && i < |storage| && !storage[i].Tile? && !r.Tile?
    ensures Partition(max, free, storage[i := r])
  {
    CountUpdate(storage, i, r);
    var storage2 := storage[i := r];
    forall a, b | 0 <= a < b < |storage| && storage2[a].Tile? ensures storage2[a] != storage2[b] {
      if b != i {
        assert storage2[a] == storage[a] && storage2[b] == storage[b];
      }
    }
    forall t: nat ensures IsHeld(storage2, t) <==> IsHeld(storage, t) {
      SetRoom(storage, i, r, Tile(t));
      if IsHeld(storage, t) {
        var j :| 0 <= j < |storage| && storage[j] == Tile(t);
        assert j != i;
      }
    }
  }

  function Populated(c: Config, s: State, chunk: nat, slot: nat): State
    requires IsChunk(c, chunk) && slot < |s.storage| && |s.free| > 0
    requires s.free[|s.free| - 1] < |s.tiles|
  {
    var cache := s.cache[chunk := slot];
    if c.compressed[chunk] then
      var t := s.free[|s.free| - 1];
      State(s.tiles[t := ChunkOf(c.file, c.cs, chunk)], s.free[..|s.free| - 1], cache, s.storage[slot := Tile(t)])
    else State(s.tiles, s.free, cache, s.storage[slot := Mapped(chunk)])
  }

  lemma PopulateCloses(c: Config, s: State, chunk: nat, hole: nat)
    requires Open(c, s, hole) && IsChunk(c, chunk) && chunk !in s.cache
    ensures |s.free| > 0 && s.free[|s.free| - 1] < |s.tiles|
    ensures Inv(c, Populated(c, s, chunk, hole))
  {
    FreeTile(c, s, hole);
    assert IsFree(s.free, s.free[|s.free| - 1]);
    PopulateTaken(c, s, chunk, hole);
    if c.compressed[chunk] {
      TakeTile(c.max, s.free, s.storage, hole);
    } else {
      NoTile(c.max, s.free, s.storage, hole, Mapped(chunk));
    }
  }

  lemma PopulateTaken(c: Config, s: State, chunk: nat, hole: nat)
    requires Open(c, s, hole) && IsChunk(c, chunk) && chunk !in s.cache && |s.free| > 0 && s.free[|s.free| - 1] < |s.tiles|
    ensures var s2 := Populated(c, s, chunk, hole);
            |s2.cache| == |s.cache| + 1 && Taken(c, s2, |s2.cache|, |s2.cache|)
  {
    var s2 := Populated(c, s, chunk, hole);
    CacheGrows(s.cache, chunk, hole);
    FillHole(s.storage, s.cache, |s2.cache|, hole, s2.storage[hole], chunk);
    forall k | k in s2.cache ensures HasRoom(c, s2, k) {
      if k != chunk {
        StaysInPlace(c, s, chunk, hole, k);
      }
    }
  }

  lemma FillHole(storage: seq<Room>, cache: map<nat, nat>, n: nat, hole: nat, r: Room, chunk: nat)
    requires SetUpTo(storage, n, hole) && Placed(cache, n, hole) && hole < n && r != Unset && chunk !in cache
    ensures SetUpTo(storage[hole := r], n, n) && Placed(cache[chunk := hole], n, n)
  {
  }

  lemma CacheGrows(m: map<nat, nat>, k: nat, v: nat)
    requires k !in m
    ensures |m[k := v]| == |m| + 1
  {
    assert m[k := v].Keys == m.Keys + {k};
    assert |m[k := v]| == |m[k := v].Keys| && |m| == |m.Keys|;
  }

  /** Unpacking into a free tile does not touch the tile of a resident chunk. */
  lemma StaysInPlace(c: Config, s: State, chunk: nat, hole: nat, k: nat)
    requires Open(c, s, hole) && IsChunk(c, chunk) && chunk !in s.cache && |s.free| > 0 && s.free[|s.free| - 1] < |s.tiles|
    requires k in s.cache
    ensures HasRoom(c, Populated(c, s, chunk, hole), k)
  {
    assert HasRoom(c, s, k);
    var t := s.free[|s.free| - 1];
    assert IsFree(s.free, t);
    assert !IsHeld(s.storage, t);
  }

  class CompressedMmappedFile {
    const c: Config
    var tiles: seq<seq<byte>>
    var freeList: seq<nat>
    var cache: map<nat, nat>
    var chunkStorage: seq<Room>

    ghost function Now(): State reads this {
      State(tiles, freeList, cache, chunkStorage)
    }

    ghost predicate Valid() reads this {
      c.cs > 0 && c.max > 0 && Inv(c, Now())
    }

    /** The storage before anything is read. */
    constructor (c: Config)
      requires c.cs > 0 && c.max > 0
      ensures Valid() && this.c == c && cache == map[]
    {
      this.c := c;
      tiles, freeList := seq(c.max, _ => []), seq(c.max, i => i);
      cache, chunkStorage := map[], seq(c.max, _ => Unset);
      new;
      InitialOk(c, Now());
    }

    /** Gives up any resident chunk. */
    method Evict() returns (victim: nat, position: nat)
      requires |cache| > 0 && Evictable(c, Now())
      modifies this
      ensures victim in old(cache) && position == old(cache)[victim] < |old(chunkStorage)|
      ensures Now() == Evicted(c, old(Now()), victim)
    {
      SomeKey(cache);
      victim :| victim in cache;
      position := cache[victim];
      cache := cache - {victim};
      if c.compressed[victim] {
        var decTileNum := chunkStorage[position].t;
        freeList := freeList + [decTileNum];
      }
      chunkStorage := chunkStorage[position := Unset];
    }

    /** Unpacks or maps a chunk for an open position. */
    method Populate(chunk: nat, position: nat) returns (dest: Room)
      requires Open(c, Now(), position) && IsChunk(c, chunk) && chunk !in cache
      modifies this`tiles, this`freeList
      ensures |old(freeList)| > 0 && old(freeList)[|old(freeList)| - 1] < |old(tiles)|
      ensures State(tiles, freeList, cache[chunk := position], chunkStorage[position := dest])
              == Populated(c, old(Now()), chunk, position)
    {
      PopulateCloses(c, Now(), chunk, position);
      if c.compressed[chunk] {
        var tile := freeList[|freeList| - 1];
        freeList := freeList[..|freeList| - 1];
        dest := Tile(tile);
        tiles := tiles[tile := ChunkOf(c.file, c.cs, chunk)];
      } else {
        dest := Mapped(chunk);
      }
    }

    /** Opens a position, in place of any resident chunk if there is no other. */
    method MakeRoom() returns (position: nat)
      requires Valid()
      modifies this
      ensures Open(c, Now(), position) && cache.Keys <= old(cache.Keys)
    {
      position := |cache|;
      if |cache| >= c.max {
        ghost var s := Now();
        InvEvictable(c, s);
        var victim;
        victim, position := Evict();
        EvictOpens(c, s, victim);
      } else {
        RoomLeft(c, Now());
      }
    }

    /** Makes a chunk resident. */
    method Load(chunk: nat)
      requires Valid() && IsChunk(c, chunk) && chunk !in cache
      modifies this
      ensures Valid() && chunk in cache
    {
      var position := MakeRoom();
      ghost var s := Now();
      PopulateCloses(c, s, chunk, position);
      var dest := Populate(chunk, position);
      chunkStorage := chunkStorage[position := dest];
      cache := cache[chunk := position];
      assert Now() == Populated(c, s, chunk, position);
    }

    /** The bytes of a chunk, which is resident afterwards. */
    method ChunkData(chunk: nat) returns (data: seq<byte>)
      requires Valid() && IsChunk(c, chunk)
      modifies this
      ensures Valid() && chunk in cache && data == ChunkOf(c.file, c.cs, chunk)
      ensures chunk in old(cache) ==> Now() == old(Now())
    {
      if chunk !in cache {
        Load(chunk);
      }
      ResidentHas(c, Now(), chunk);
      var room := chunkStorage[cache[chunk]];
      data := if room.Tile? then tiles[room.t] else ChunkOf(c.file, c.cs, room.chunk);
    }

    /** Puts n bytes of a chunk behind those of the file from offset on. */
    method AddPart(chunk: nat, from: nat, n: nat, offset: nat, dest0: seq<byte>) returns (dest: seq<byte>)
      requires Valid() && IsChunk(c, chunk) && from + n <= Min(c.cs, |c.file| - Begin(chunk, c.cs))
      requires offset <= Begin(chunk, c.cs) + from && dest0 == c.file[offset..Begin(chunk, c.cs) + from]
      modifies this
      ensures Valid() && dest == c.file[offset..Begin(chunk, c.cs) + from + n]
    {
      var data := ChunkData(chunk);
      Slice(c.file, Begin(chunk, c.cs), Min(Begin(chunk, c.cs) + c.cs, |c.file|), from, n);
      TwoParts(c.file, offset, Begin(chunk, c.cs) + from, Begin(chunk, c.cs) + from + n);
      dest := dest0 + data[from..from + n];
    }

    /** Puts all chunks from i0 up to endChunk behind the bytes of the file from offset on. */
    method AddChunks(i0: nat, endChunk: nat, offset: nat, dest0: seq<byte>) returns (dest: seq<byte>)
      requires Valid() && Typed(c) && i0 <= endChunk && Begin(endChunk, c.cs) <= |c.file|
      requires offset <= Begin(i0, c.cs) <= |c.file| && dest0 == c.file[offset..Begin(i0, c.cs)]
      modifies this
      ensures Valid() && offset <= Begin(endChunk, c.cs) && dest == c.file[offset..Begin(endChunk, c.cs)]
    {
      dest := dest0;
      for i := i0 to endChunk
        invariant Valid() && offset <= Begin(i, c.cs) <= |c.file| && dest == c.file[offset..Begin(i, c.cs)]
      {
        Ordered(i, endChunk, c.cs);
        assert IsChunk(c, i);
        dest := AddPart(i, 0, c.cs, offset, dest);
      }
    }

    /** The bytes from offset on that are put into the destination, as many of them as there are, but
        without the last chunk when it is not the first and the bytes end with it. */
    method Read(offset: nat, len0: nat) returns (dest: seq<byte>, len: nat)
      requires Valid() && Typed(c) && (offset == |c.file| ==> InChunk(offset, c.cs) != 0)
      modifies this
      ensures Valid() && len == Clipped(|c.file|, offset, len0)
      ensures len == 0 ==> dest == []
      ensures len > 0 ==> dest == c.file[offset..offset + ReadLength(offset, len, c.cs)]
    {
      dest := [];
      len := Clipped(|c.file|, offset, len0);
      if len > 0 {
        Chunks(offset, len, c.cs);
        Place(offset, c.cs);
        EndOf(offset, len, c.cs);
        dest := ReadChunks(offset, len, Chunk(offset, c.cs), Chunk(offset + len - 1, c.cs),
                           InChunk(offset, c.cs), InChunk(offset + len, c.cs));
      } else if len0 > 0 && offset == |c.file| {
        Place(offset, c.cs);
        var data := ChunkData(Chunk(offset, c.cs));
      }
    }

    /** The bytes from place `from` of one chunk up to place `until` of the other, or len bytes of one chunk. */
    method ReadChunks(offset: nat, len: nat, beginChunk: nat, endChunk: nat, from: nat, until: nat)
      returns (dest: seq<byte>)
      requires Valid() && Typed(c) && Spans(offset, len, c.cs, beginChunk, endChunk, from) && offset + len <= |c.file|
      requires until < c.cs && (beginChunk < endChunk ==> Begin(endChunk, c.cs) + until <= offset + len)
      modifies this
      ensures Valid()
      ensures dest == c.file[offset..if beginChunk == endChunk then offset + len else Begin(endChunk, c.cs) + until]
    {
      assert IsChunk(c, beginChunk);
      dest := AddPart(beginChunk, from, Min(len, c.cs - from), offset, []);
      if beginChunk < endChunk {
        dest := AddLastChunks(beginChunk + 1, endChunk, until, offset, dest);
      }
    }

    /** Puts all chunks from i0 up to place `until` of endChunk behind the bytes of the file from offset on. */
    method AddLastChunks(i0: nat, endChunk: nat, until: nat, offset: nat, dest0: seq<byte>) returns (dest: seq<byte>)
      requires Valid() && Typed(c) && i0 <= endChunk && Begin(endChunk, c.cs) < |c.file|
      requires offset <= Begin(i0, c.cs) <= |c.file| && dest0 == c.file[offset..Begin(i0, c.cs)]
      requires until < c.cs && Begin(endChunk, c.cs) + until <= |c.file|
      modifies this
      ensures Valid() && offset <= Begin(endChunk, c.cs) && dest == c.file[offset..Begin(endChunk, c.cs) + until]
    {
      assert IsChunk(c, endChunk);
      dest := AddChunks(i0, endChunk, offset, dest0);
      dest := AddPart(endChunk, 0, until, offset, dest);
    }
  }

  lemma TwoParts(file: seq<byte>, a: nat, b: nat, e: nat)
    requires a <= b <= e <= |file|
    ensures file[a..b] + file[b..e] == file[a..e]
  {
  }

  /** How many bytes a read of len bytes copies. */
  function ReadLength(offset: nat, len: nat, cs: nat): (n: nat)
    requires cs > 0 && len > 0
    ensures n <= len
  {
    Chunks(offset, len, cs);
    var endChunk := Chunk(offset + len - 1, cs);
    if Chunk(offset, cs) < endChunk && InChunk(offset + len, cs) == 0 then Begin(endChunk, cs) - offset else len
  }

  /** The bytes behind the beginning of the last chunk. */
  lemma EndOf(offset: nat, len: nat, cs: nat)
    requires cs > 0 && len > 0
    ensures var e := Chunk(offset + len - 1, cs);
            var last := offset + len - Begin(e, cs);
            0 < last <= cs && InChunk(offset + len, cs) == if last == cs then 0 else last
  {
    Chunks(offset, len, cs);
    Place(offset + len, cs);
    var q, e := Chunk(offset + len, cs), Chunk(offset + len - 1, cs);
    if q < e {
      Ordered(q, e, cs);
    } else if q > e + 1 {
      Ordered(e + 1, q, cs);
    }
  }

  /** A read copies everything exactly if the bytes lie in one chunk or do not end with a chunk. */
  lemma ReadIsWhole(offset: nat, len: nat, cs: nat)
    requires cs > 0 && len > 0
    ensures ReadLength(offset, len, cs) == len
       <==> offset / cs == (offset + len - 1) / cs || (offset + len) % cs != 0
  {
    Chunks(offset, len, cs);
    ChunkDivides(offset, cs);
    ChunkDivides(offset + len - 1, cs);
    ChunkDivides(offset + len, cs);
  }

  /** Every part of the file has a chunk type. */
  ghost predicate Typed(c: Config) {
    forall i: nat {:trigger IsChunk(c, i)} :: Begin(i, c.cs) < |c.file| ==> IsChunk(c, i)
  }

  lemma SomeKey(m: map<nat, nat>)
    requires |m| > 0
    ensures exists k :: k in m
  {
    assert |m.Keys| == |m|;
    assert m.Keys != {};
  }

  lemma RoomLeft(c: Config, s: State)
    requires Inv(c, s) && |s.cache| < c.max
    ensures Open(c, s, |s.cache|)
  {
  }

  lemma ResidentHas(c: Config, s: State, chunk: nat)
    requires Inv(c, s) && chunk in s.cache
    ensures s.cache[chunk] < |s.storage| && IsChunk(c, chunk) && Has(c, s.tiles, s.storage[s.cache[chunk]], chunk)
  {
    assert HasRoom(c, s, chunk);
  }

  lemma InitialOk(c: Config, s: State)
    requires s == State(seq(c.max, _ => []), seq(c.max, i => i), map[], seq(c.max, _ => Unset))
    ensures Inv(c, s)
  {
    NoTiles(s.storage);
    forall t: nat | t < c.max ensures IsFree(s.free, t) && !IsHeld(s.storage, t) {
      assert s.free[t] == t;
    }
  }

  lemma {:induction false} NoTiles(storage: seq<Room>)
    requires forall i :: 0 <= i < |storage| ==> storage[i] == Unset
    ensures CountTiles(storage) == 0
  {
    if storage != [] {
      NoTiles(storage[1..]);
    }
  }
}
