/** Streams of bits in chunks, most significant bit first: a unary code whose chunks may have any
    width, and a writer that appends codes of any length to a growing sequence of bytes and
    keeps the bits of an unfinished byte apart. */
module BitStream {
  import opened Basics
  import opened Bits

  /** The low `width` bits of c, the most significant first. */
  function BitsOf(c: nat, width: nat): (r: seq<bool>)
    ensures |r| == width
  {
    seq(width, j requires 0 <= j < width => Bit(c, width - 1 - j))
  }

  function AllBits(chunks: seq<nat>, width: nat): seq<bool> {
    if chunks == [] then [] else BitsOf(chunks[0], width) + AllBits(chunks[1..], width)
  }

  lemma {:induction false} AllBitsJoin(a: seq<nat>, b: seq<nat>, width: nat)
    ensures AllBits(a + b, width) == AllBits(a, width) + AllBits(b, width)
  {
    if a == [] {
      assert a + b == b;
    } else {
      assert (a + b)[1..] == a[1..] + b && (a + b)[0] == a[0];
      AllBitsJoin(a[1..], b, width);
    }
  }

  lemma OneMore(chunks: seq<nat>, c: nat, width: nat)
    ensures AllBits(chunks + [c], width) == AllBits(chunks, width) + BitsOf(c, width)
  {
    AllBitsJoin(chunks, [c], width);
    assert AllBits([c], width) == BitsOf(c, width) + AllBits([], width);
  }

  function Zeros(n: nat): seq<bool> {
    seq(n, _ => false)
  }

  /** n zeros and a one. */
  function Unary(n: nat): seq<bool> {
    Zeros(n) + [true]
  }

  function AllUnary(values: seq<nat>): seq<bool> {
    if values == [] then [] else Unary(values[0]) + AllUnary(values[1..])
  }

  lemma {:induction false} OneMoreUnary(values: seq<nat>, v: nat)
    ensures AllUnary(values + [v]) == AllUnary(values) + Unary(v)
  {
    if values == [] {
      assert AllUnary([v]) == Unary(v) + AllUnary([]);
    } else {
      assert (values + [v])[1..] == values[1..] + [v] && (values + [v])[0] == values[0];
      OneMoreUnary(values[1..], v);
      Regroup(Unary(values[0]), AllUnary(values[1..]), Unary(v));
    }
  }

  // ---- unary code ---------------------------------------------------------------------------

  /** The chunk holds the bits given out so far on top of `free` zeros. */
  ghost predicate OnTop(c: nat, width: nat, free: nat, bits: seq<bool>) {
    && free <= width && c < Pow2(width)
    && BitsOf(c, width) == bits + Zeros(free)
  }

  lemma EmptyChunk(width: nat)
    ensures OnTop(0, width, width, []) && BitsOf(0, width) == Zeros(width)
  {
    forall j | 0 <= j < width ensures BitsOf(0, width)[j] == Zeros(width)[j] {
      NoBits(width - 1 - j);
    }
  }

  /** Setting the bit behind v of the free bits appends the code of v. */
  lemma SetStopBit(c: nat, width: nat, free: nat, bits: seq<bool>, v: nat)
    requires OnTop(c, width, free, bits) && v < free
    ensures OnTop(Or(c, Shl(1, free - (v + 1))), width, free - (v + 1), bits + Unary(v))
    ensures Or(c, Shl(1, free - (v + 1))) != 0
  {
    var k := free - (v + 1);
    var c2 := Or(c, Shl(1, k));
    assert |bits| == width - free;
    forall i: nat ensures Bit(c2, i) <==> Bit(c, i) || i == k {
      BitOr(c, Shl(1, k), i);
      BitShl(1, k, i);
      if i > k {
        NoBits(i - k - 1);
      }
    }
    forall i: nat | width <= i ensures !Bit(c2, i) {
      NoHighBits(c, width, i);
    }
    FewBits(c2, width);
    forall j | 0 <= j < width ensures BitsOf(c2, width)[j] == (bits + Unary(v) + Zeros(k))[j] {
      assert BitsOf(c, width)[j] == (bits + Zeros(free))[j];
    }
    assert BitsOf(c2, width) == bits + Unary(v) + Zeros(k);
    assert Bit(c2, k);
    NoBits(k);
  }

  class UnaryCodeCreator {
    const chunkBits: nat
    var d: seq<nat>
    var lastChunk: nat
    var inChunkBits: nat
    ghost var values: seq<nat>
    /** The bits in the chunk that is not written yet. */
    ghost var top: seq<bool>

    ghost predicate Valid() reads this {
      Valid'() && ChunksFit(d, chunkBits) && AllBits(d, chunkBits) + top == AllUnary(values) && (lastChunk == 0 ==> top == [])
    }

    ghost predicate Valid'() reads this {
      chunkBits > 0 && OnTop(lastChunk, chunkBits, inChunkBits, top)
    }

    constructor (chunkBits: nat)
      requires chunkBits > 0
      ensures Valid() && values == [] && this.chunkBits == chunkBits
    {
      this.chunkBits := chunkBits;
      d, lastChunk, inChunkBits, values, top := [], 0, chunkBits, [], [];
      EmptyChunk(chunkBits);
    }

    /** Fills up the chunk with zeros and writes chunks of zeros, until less than a chunk of them is left. */
    method PutZeros(value: nat) returns (v: nat)
      requires Valid()
      modifies this
      ensures Valid'() && ChunksFit(d, chunkBits) && v < inChunkBits && v <= value && values == old(values)
      ensures AllBits(d, chunkBits) + top == old(AllUnary(values)) + Zeros(value - v)
    {
      v := value;
      ghost var bits := AllUnary(values);
      assert bits + Zeros(0) == bits;
      if v >= inChunkBits {
        OneMore(d, lastChunk, chunkBits);
        Regroup(AllBits(d, chunkBits), top, Zeros(inChunkBits));
        d := d + [lastChunk];
        v := v - inChunkBits;
        EmptyChunk(chunkBits);
        inChunkBits, lastChunk, top := chunkBits, 0, [];
        v := PutZeroChunks(value, v, bits);
      }
    }

    method PutZeroChunks(value: nat, v0: nat, ghost bits: seq<bool>) returns (v: nat)
      requires chunkBits > 0 && v0 <= value && ChunksFit(d, chunkBits) && AllBits(d, chunkBits) == bits + Zeros(value - v0)
      modifies this`d
      ensures v < chunkBits && v <= value && ChunksFit(d, chunkBits)
      ensures AllBits(d, chunkBits) == bits + Zeros(value - v)
    {
      v := v0;
      EmptyChunk(chunkBits);
      while v >= chunkBits
        invariant v <= value && ChunksFit(d, chunkBits) && AllBits(d, chunkBits) == bits + Zeros(value - v)
      {
        OneMore(d, 0, chunkBits);
        MoreZeros(bits, value - v, chunkBits);
        d := d + [0];
        v := v - chunkBits;
      }
    }

    method Put(value: nat)
      requires Valid()
      modifies this
      ensures Valid() && values == old(values) + [value]
    {
      var v := PutZeros(value);
      SetStopBit(lastChunk, chunkBits, inChunkBits, top, v);
      UnaryParts(AllUnary(values), AllBits(d, chunkBits), top, value, v);
      lastChunk := Or(lastChunk, Shl(1, inChunkBits - (v + 1)));
      inChunkBits := inChunkBits - (v + 1);
      top := top + Unary(v);
      OneMoreUnary(values, value);
      values := values + [value];
    }

    /** Writes the last chunk; nothing may be put behind it. */
    method Flush()
      requires Valid()
      modifies this`d
      ensures ChunksFit(d, chunkBits)
      ensures AllBits(d, chunkBits) == AllUnary(values) + Zeros(if lastChunk != 0 then inChunkBits else 0)
    {
      if lastChunk != 0 {
        OneMore(d, lastChunk, chunkBits);
        Regroup(AllBits(d, chunkBits), top, Zeros(inChunkBits));
        d := d + [lastChunk];
      }
    }
  }

  lemma MoreZeros(bits: seq<bool>, n: nat, m: nat)
    ensures bits + Zeros(n) + Zeros(m) == bits + Zeros(n + m)
  {
  }

  lemma UnaryParts(bits: seq<bool>, written: seq<bool>, top: seq<bool>, value: nat, v: nat)
    requires v <= value && written + top == bits + Zeros(value - v)
    ensures written + (top + Unary(v)) == bits + Unary(value)
  {
    Regroup(written, top, Unary(v));
    assert Zeros(value - v) + Unary(v) == Unary(value);
    Regroup(bits, Zeros(value - v), Unary(v));
  }

  /** The last `unread` bits of a chunk and those behind it. */
  function Left(c: nat, unread: nat, tail: seq<bool>): seq<bool> {
    BitsOf(c, unread) + tail
  }

  predicate ChunksFit(d: seq<nat>, width: nat) {
    forall i :: 0 <= i < |d| ==> d[i] < Pow2(width)
  }

  class UnaryCodeIterator {
    const chunkBits: nat
    const d: seq<nat>
    var pos: nat
    var last: nat
    var lastChunk: nat
    /** How many bits of the chunk are not read; the source has a mask for the next of them. */
    var unread: nat

    ghost predicate Valid() reads this {
      chunkBits > 0 && pos <= |d| && unread <= chunkBits && ChunksFit(d, chunkBits)
    }

    /** The bits that are not read yet. */
    ghost function Ahead(): seq<bool>
      requires Valid()
      reads this
    {
      Left(lastChunk, unread, AllBits(d[pos..], chunkBits))
    }

    /** Before the first step of the source's constructor. */
    constructor (d: seq<nat>, chunkBits: nat)
      requires chunkBits > 0 && ChunksFit(d, chunkBits)
      ensures Valid() && Ahead() == AllBits(d, chunkBits) && this.d == d && this.chunkBits == chunkBits && unread == 0
    {
      this.d, this.chunkBits := d, chunkBits;
      pos, last, lastChunk, unread := 0, 0, 0, 0;
    }

    /** Reads bits of the chunk up to the first that is set. */
    method ReadChunk() returns (stop: bool)
      requires Valid()
      modifies this`last, this`unread
      ensures Valid() && last >= old(last) && (stop ==> unread < chunkBits) && (!stop ==> unread == 0)
      ensures old(Ahead()) == Scanned(last - old(last), stop, Ahead())
      ensures !stop ==> forall k: nat :: k < old(unread) ==> !Bit(lastChunk, k)
    {
      stop := false;
      while unread > 0 && !stop
        invariant unread <= old(unread) && last >= old(last)
        invariant last - old(last) == old(unread) - unread - if stop then 1 else 0
        invariant stop ==> unread < old(unread) && Bit(lastChunk, unread)
        invariant forall k: nat :: unread + (if stop then 1 else 0) <= k < old(unread) ==> !Bit(lastChunk, k)
        decreases unread, !stop
      {
        stop := Bit(lastChunk, unread - 1);
        unread := unread - 1;
        if !stop {
          last := last + 1;
        }
      }
      ZerosRead(lastChunk, old(unread), unread, stop, AllBits(d[pos..], chunkBits));
    }

    /** Counts chunks of zeros up to one with a bit. */
    method LoadChunks(ghost n: nat, ghost rest: seq<bool>)
      requires Valid() && unread == 0 && last <= n && Ahead() == Scanned(n - last, true, rest)
      modifies this
      ensures Valid() && unread == chunkBits && 0 < lastChunk < Pow2(chunkBits)
      ensures last <= n && Ahead() == Scanned(n - last, true, rest)
    {
      var found := false;
      assert Ahead() == AllBits(d[pos..], chunkBits);
      while pos < |d| && !found
        invariant Valid() && last <= n
        invariant !found ==> AllBits(d[pos..], chunkBits) == Scanned(n - last, true, rest)
        invariant found ==> unread == chunkBits && 0 < lastChunk < Pow2(chunkBits) && Ahead() == Scanned(n - last, true, rest)
        decreases |d| - pos, !found
      {
        ChunkAhead(d, pos, chunkBits, n - last, rest);
        lastChunk := d[pos];
        unread := chunkBits;
        pos := pos + 1;
        if lastChunk != 0 {
          found := true;
        } else {
          last := last + chunkBits;
        }
      }
    }

    /** Moves to the next number n, of which the code lies ahead. */
    method Next(ghost n: nat, ghost rest: seq<bool>)
      requires Valid() && unread < chunkBits && Ahead() == Unary(n) + rest
      modifies this
      ensures Valid() && unread < chunkBits && last == n && Ahead() == rest
    {
      ScannedIs(n, true, rest);
      Regroup(Zeros(n), [true], rest);
      if pos < |d| || unread > 0 {
        last := 0;
        var stop := ReadChunk();
        ScannedOnce(n, rest, last, stop, Ahead());
        if !stop {
          LoadChunks(n, rest);
          ghost var before := last;
          HasBit(lastChunk, chunkBits);
          stop := ReadChunk();
          ScannedOnce(n - before, rest, last - before, stop, Ahead());
        }
      }
    }
  }

  /** The next chunk has the stop bit, or it is all zeros and they belong to the number. */
  lemma ChunkAhead(d: seq<nat>, pos: nat, width: nat, n: nat, rest: seq<bool>)
    requires pos < |d| && AllBits(d[pos..], width) == Scanned(n, true, rest)
    ensures Left(d[pos], width, AllBits(d[pos + 1..], width)) == Scanned(n, true, rest)
    ensures d[pos] == 0 ==> width <= n && AllBits(d[pos + 1..], width) == Scanned(n - width, true, rest)
  {
    assert d[pos..][1..] == d[pos + 1..];
    if d[pos] == 0 {
      ZeroChunk(width, AllBits(d[pos + 1..], width));
      ScannedOnce(n, rest, width, false, AllBits(d[pos + 1..], width));
    }
  }

  lemma ZeroChunk(width: nat, tail: seq<bool>)
    ensures BitsOf(0, width) + tail == Scanned(width, false, tail)
  {
    EmptyChunk(width);
    ScannedIs(width, false, tail);
  }

  /** How the bits that were read and those that are left make up what was ahead. */
  function Scanned(zeros: nat, stop: bool, ahead: seq<bool>): seq<bool> {
    if zeros > 0 then [false] + Scanned(zeros - 1, stop, ahead) else if stop then [true] + ahead else ahead
  }

  lemma NextBit(c: nat, unread: nat, tail: seq<bool>)
    requires unread > 0
    ensures Left(c, unread, tail) == [Bit(c, unread - 1)] + Left(c, unread - 1, tail)
  {
    assert BitsOf(c, unread) == [Bit(c, unread - 1)] + BitsOf(c, unread - 1);
  }

  lemma {:induction false} ZerosRead(c: nat, unread: nat, unread2: nat, stop: bool, tail: seq<bool>)
    requires unread2 <= unread && (stop ==> unread2 < unread && Bit(c, unread2))
    requires forall k: nat :: unread2 + (if stop then 1 else 0) <= k < unread ==> !Bit(c, k)
    ensures Left(c, unread, tail) == Scanned(unread - unread2 - if stop then 1 else 0, stop, Left(c, unread2, tail))
  {
    if unread > unread2 {
      NextBit(c, unread, tail);
      if !stop || unread > unread2 + 1 {
        ZerosRead(c, unread - 1, unread2, stop, tail);
      }
    }
  }

  lemma {:induction false} ScannedIs(zeros: nat, stop: bool, ahead: seq<bool>)
    ensures Scanned(zeros, stop, ahead) == Zeros(zeros) + if stop then [true] + ahead else ahead
  {
    if zeros > 0 {
      ScannedIs(zeros - 1, stop, ahead);
      assert Zeros(zeros) == [false] + Zeros(zeros - 1);
    }
  }

  /** n zeros and a one can be read off in one way only. */
  lemma {:induction false} ScannedOnce(n: nat, rest: seq<bool>, m: nat, stop: bool, ahead: seq<bool>)
    requires Scanned(n, true, rest) == Scanned(m, stop, ahead)
    ensures stop ==> n == m && rest == ahead
    ensures !stop ==> m <= n && ahead == Scanned(n - m, true, rest)
  {
    var s := Scanned(n, true, rest);
    if n > 0 && m > 0 {
      assert s[1..] == Scanned(n - 1, true, rest) == Scanned(m - 1, stop, ahead);
      ScannedOnce(n - 1, rest, m - 1, stop, ahead);
    } else if n == 0 {
      assert s[0] && s[1..] == rest;
      if m == 0 && stop {
        assert s[1..] == ahead;
      }
    }
  }

  /** Reading the code of any numbers gives them back. */
  method ReadBack(creator: UnaryCodeCreator, n: nat) returns (read: seq<nat>)
    requires creator.Valid() && n == |creator.values|
    modifies creator
    ensures read == old(creator.values)
  {
    ghost var values := creator.values;
    creator.Flush();
    var it := new UnaryCodeIterator(creator.d, creator.chunkBits);
    ghost var zeros := Zeros(if creator.lastChunk != 0 then creator.inChunkBits else 0);
    read := [];
    for i := 0 to n
      invariant fresh(it) && it.Valid() && it.unread < it.chunkBits
      invariant read == values[..i] && it.Ahead() == AllUnary(values[i..]) + zeros
    {
      assert values[i..][0] == values[i] && values[i..][1..] == values[i + 1..];
      Regroup(Unary(values[i]), AllUnary(values[i + 1..]), zeros);
      it.Next(values[i], AllUnary(values[i + 1..]) + zeros);
      read := read + [it.last];
    }
  }

  lemma HasBit(c: nat, width: nat)
    requires 0 < c < Pow2(width)
    ensures exists k: nat :: k < width && Bit(c, k)
  {
    if forall k: nat :: k < width ==> !Bit(c, k) {
      forall k: nat ensures Bit(c, k) <==> Bit(0, k) {
        NoBits(k);
        if width <= k {
          NoHighBits(c, width, k);
        }
      }
      SameBits(c, 0);
    }
  }

  // ---- codes of any length ------------------------------------------------------------------

  /** Writes codes of up to 64 bits into bytes. */
  class MultiBitBackInserter {
    var data: seq<nat>
    var curInByteOffset: nat
    var buffer: seq<nat>
    /** The bits in the byte that is not full yet. */
    ghost var top: seq<bool>

    ghost predicate Valid() reads this {
      && |buffer| == 9 && curInByteOffset < 8 && |top| == curInByteOffset
      && OnTop(buffer[0], 8, 8 - curInByteOffset, top)
      && forall i :: 1 <= i < 9 ==> buffer[i] == 0
    }

    /** All bits so far. */
    ghost function Written(): seq<bool>
      reads this
    {
      AllBits(data, 8) + top
    }

    constructor (data: seq<nat>)
      ensures Valid() && Written() == AllBits(data, 8) && curInByteOffset == 0
    {
      this.data, curInByteOffset, buffer, top := data, 0, [0, 0, 0, 0, 0, 0, 0, 0, 0], [];
      EmptyChunk(8);
    }

    /** Appends the low `length` bits of a value. */
    method PushBack(value0: nat, length: nat)
      requires Valid() && length <= 64
      modifies this
      ensures Valid() && Written() == old(Written()) + BitsOf(value0, length)
    {
      var value := And(value0, Mask(length));
      MaskCuts(value0, length);
      CutBits(value0, length);
      if 8 - curInByteOffset >= length {
        PushWithin(value, length);
      } else {
        PushAcross(value, length);
      }
    }

    method PushAcross(value0: nat, length: nat)
      requires Valid() && 8 - curInByteOffset < length <= 64 && value0 < Pow2(length)
      modifies this
      ensures Valid() && Written() == old(Written()) + BitsOf(value0, length)
    {
      var value := value0;
      var fullBitSpan := length + curInByteOffset;
      var byteSpan := fullBitSpan / 8;
      var overlap := 0;
      ghost var high := length - fullBitSpan % 8;
      SplitBits(value0, high, fullBitSpan % 8);
      ShiftFits(value0, high, fullBitSpan % 8);
      Overlap(value0, fullBitSpan % 8);
      EmptyChunk(8);
      if fullBitSpan % 8 != 0 {
        overlap := Cut(Shl(value, 8 - fullBitSpan % 8), 8);
        value := Shr(value, fullBitSpan % 8);
      }
      FillBytes(value, byteSpan, high);
      AllBitsJoin(data, buffer[..byteSpan], 8);
      Regroup(AllBits(data, 8), top, BitsOf(value, high));
      Regroup(AllBits(data, 8) + top, BitsOf(value, high), BitsOf(value0, fullBitSpan % 8));
      data := data + buffer[..byteSpan];
      curInByteOffset := fullBitSpan % 8;
      buffer := [overlap, 0, 0, 0, 0, 0, 0, 0, 0];
      top := BitsOf(value0, curInByteOffset);
    }

    /** Puts a value of n bits behind the top bits of the first byte, up to the end of the last. */
    method FillBytes(value0: nat, byteSpan: nat, ghost n: nat)
      requires Valid() && 0 < byteSpan < 9 && n == 8 * byteSpan - curInByteOffset && value0 < Pow2(n)
      modifies this`buffer
      ensures |buffer| == 9 && AllBits(buffer[..byteSpan], 8) == top + BitsOf(value0, n)
    {
      var value, k := value0, byteSpan;
      while k > 1
        invariant 1 <= k <= byteSpan && |buffer| == 9 && buffer[0] == old(buffer[0])
        invariant forall i :: 1 <= i < k ==> buffer[i] == 0
        invariant value == Shr(value0, 8 * (byteSpan - k))
        invariant AllBits(buffer[k..byteSpan], 8) == BitsOf(value0, 8 * (byteSpan - k))
      {
        ghost var behind := buffer[k..byteSpan];
        NextOfBytes(value0, 8 * (byteSpan - k), behind);
        k := k - 1;
        buffer := buffer[k := Cut(Or(buffer[k], value), 8)];
        value := Shr(value, 8);
        assert buffer[k..byteSpan] == [buffer[k]] + behind;
      }
      ghost var free, behind := 8 - curInByteOffset, buffer[1..byteSpan];
      SplitBits(value0, free, 8 * (byteSpan - 1));
      ShiftFits(value0, free, 8 * (byteSpan - 1));
      SetBits(buffer[0], 8, free, top, value, free);
      CutBits(Or(buffer[0], value), 8);
      buffer := buffer[0 := Cut(Or(buffer[0], value), 8)];
      assert buffer[..byteSpan] == [buffer[0]] + behind;
      ConsBits(buffer[0], behind, 8);
      Regroup(top, BitsOf(Shr(value0, 8 * (byteSpan - 1)), free), AllBits(behind, 8));
    }

    /** Writes the byte that is not full, with zeros behind its bits. */
    method Flush()
      requires Valid()
      modifies this
      ensures Valid() && curInByteOffset == 0
      ensures AllBits(data, 8) == old(Written()) + Zeros(if old(curInByteOffset) == 0 then 0 else 8 - old(curInByteOffset))
    {
      if curInByteOffset != 0 {
        OneMore(data, buffer[0], 8);
        Regroup(AllBits(data, 8), top, Zeros(8 - curInByteOffset));
        data := data + [buffer[0]];
        curInByteOffset := 0;
        buffer := buffer[0 := 0];
        top := [];
        EmptyChunk(8);
      }
    }

    method PushWithin(value: nat, length: nat)
      requires Valid() && length <= 8 - curInByteOffset && value < Pow2(length)
      modifies this
      ensures Valid() && Written() == old(Written()) + BitsOf(value, length)
    {
      var free := 8 - curInByteOffset;
      SetBits(buffer[0], 8, free, top, value, length);
      buffer := buffer[0 := Or(buffer[0], Shl(value, free - length))];
      top := top + BitsOf(value, length);
      if free == length {
        OneMore(data, buffer[0], 8);
        data := data + [buffer[0]];
        curInByteOffset := 0;
        buffer := buffer[0 := 0];
        top := [];
        EmptyChunk(8);
      } else {
        curInByteOffset := curInByteOffset + length;
      }
    }
  }

  /** The bits of a value: those above the lowest b, and the lowest b. */
  lemma SplitBits(v: nat, a: nat, b: nat)
    ensures BitsOf(v, a + b) == BitsOf(Shr(v, b), a) + BitsOf(v, b)
  {
    forall j | 0 <= j < a ensures BitsOf(v, a + b)[j] == BitsOf(Shr(v, b), a)[j] {
      BitShr(v, b, a - 1 - j);
    }
  }

  lemma CutBits(v: nat, n: nat)
    ensures BitsOf(Cut(v, n), n) == BitsOf(v, n)
  {
    forall j | 0 <= j < n ensures BitsOf(Cut(v, n), n)[j] == BitsOf(v, n)[j] {
      BitCut(v, n, n - 1 - j);
    }
  }

  lemma {:induction false} ShiftTwice(v: nat, a: nat, b: nat)
    ensures Shr(Shr(v, a), b) == Shr(v, a + b)
  {
    if a > 0 {
      ShiftTwice(v / 2, a - 1, b);
    }
  }

  lemma {:induction false} ShiftFits(v: nat, a: nat, b: nat)
    requires v < Pow2(a + b)
    ensures Shr(v, b) < Pow2(a)
  {
    if b > 0 {
      ShiftFits(v / 2, a, b - 1);
    }
  }

  lemma ConsBits(c: nat, chunks: seq<nat>, width: nat)
    ensures AllBits([c] + chunks, width) == BitsOf(c, width) + AllBits(chunks, width)
  {
    assert ([c] + chunks)[1..] == chunks;
  }

  lemma NextOfBytes(v: nat, done: nat, behind: seq<nat>)
    requires AllBits(behind, 8) == BitsOf(v, done)
    ensures AllBits([Cut(Shr(v, done), 8)] + behind, 8) == BitsOf(v, done + 8)
    ensures Shr(Shr(v, done), 8) == Shr(v, done + 8)
  {
    SplitBits(v, 8, done);
    CutBits(Shr(v, done), 8);
    ShiftTwice(v, done, 8);
    ConsBits(Cut(Shr(v, done), 8), behind, 8);
  }

  /** The top bits of the chunk that a value leaves over. */
  lemma Overlap(value: nat, n: nat)
    requires n < 8
    ensures OnTop(Cut(Shl(value, 8 - n), 8), 8, 8 - n, BitsOf(value, n))
  {
    var c := Cut(Shl(value, 8 - n), 8);
    forall j | 0 <= j < 8 ensures BitsOf(c, 8)[j] == (BitsOf(value, n) + Zeros(8 - n))[j] {
      BitCut(Shl(value, 8 - n), 8, 7 - j);
      BitShl(value, 8 - n, 7 - j);
    }
  }

  /** Or-ing a value behind the bits on top of a chunk appends its bits. */
  lemma SetBits(c: nat, width: nat, free: nat, bits: seq<bool>, value: nat, length: nat)
    requires OnTop(c, width, free, bits) && length <= free && value < Pow2(length)
    ensures OnTop(Or(c, Shl(value, free - length)), width, free - length, bits + BitsOf(value, length))
  {
    var k := free - length;
    var c2 := Or(c, Shl(value, k));
    assert |bits| == width - free;
    forall i: nat ensures Bit(c2, i) <==> Bit(c, i) || (k <= i && Bit(value, i - k)) {
      BitOr(c, Shl(value, k), i);
      BitShl(value, k, i);
    }
    forall i: nat | width <= i ensures !Bit(c2, i) {
      NoHighBits(c, width, i);
      NoHighBits(value, length, i - k);
    }
    FewBits(c2, width);
    forall j | 0 <= j < width ensures BitsOf(c2, width)[j] == (bits + BitsOf(value, length) + Zeros(k))[j] {
      var i := width - 1 - j;
      assert BitsOf(c, width)[j] == (bits + Zeros(free))[j];
      if free <= i {
        NoHighBits(value, length, i - k);
      }
    }
    assert BitsOf(c2, width) == bits + BitsOf(value, length) + Zeros(k);
  }
}
