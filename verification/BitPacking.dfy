/** Arrays of numbers of any width packed into bytes, and arrays of entries with several such
    fields.  A number may start inside one byte and end inside another, so reading and writing
    go byte by byte with masks. */
module BitPacking {
  import opened Basics
  import opened Bits

  /** Bit p of packed bytes. */
  predicate DataBit(s: seq<byte>, p: nat)
    requires p < 8 * |s|
  {
    Bit(s[p / 8], p % 8)
  }

  /** The number in `width` bits from bit `pos` on. */
  function Field(s: seq<byte>, pos: nat, width: nat): nat
    requires pos + width <= 8 * |s|
    decreases width
  {
    if width == 0 then 0
    else (if DataBit(s, pos) then 1 else 0) + 2 * Field(s, pos + 1, width - 1)
  }

  lemma {:induction false} BitField(s: seq<byte>, pos: nat, width: nat, k: nat)
    requires pos + width <= 8 * |s|
    ensures Bit(Field(s, pos, width), k) <==> k < width && DataBit(s, pos + k)
    decreases width
  {
    if width == 0 {
      NoBits(k);
    } else if k > 0 {
      BitField(s, pos + 1, width - 1, k - 1);
    }
  }

  lemma {:induction false} FieldSize(s: seq<byte>, pos: nat, width: nat)
    requires pos + width <= 8 * |s|
    ensures Field(s, pos, width) < Pow2(width)
    decreases width
  {
    if width > 0 {
      FieldSize(s, pos + 1, width - 1);
    }
  }

  /** Only the field at pos has changed, to the low bits of value. */
  ghost predicate Written(s: seq<byte>, s2: seq<byte>, pos: nat, width: nat, value: nat) {
    && |s2| == |s|
    && forall p :: 0 <= p < 8 * |s| ==>
         (DataBit(s2, p) <==> if pos <= p < pos + width then Bit(value, p - pos) else DataBit(s, p))
  }

  lemma WrittenField(s: seq<byte>, s2: seq<byte>, pos: nat, width: nat, value: nat)
    requires pos + width <= 8 * |s| && Written(s, s2, pos, width, value)
    ensures Field(s2, pos, width) == Cut(value, width)
  {
    forall k: nat ensures Bit(Field(s2, pos, width), k) <==> Bit(Cut(value, width), k) {
      BitField(s2, pos, width, k);
      BitCut(value, width, k);
      assert k < width ==> (DataBit(s2, pos + k) <==> Bit(value, k));
    }
    SameBits(Field(s2, pos, width), Cut(value, width));
  }

  lemma {:induction false} WrittenBeside(s: seq<byte>, s2: seq<byte>, pos: nat, width: nat, value: nat, pos2: nat, width2: nat)
    requires pos + width <= 8 * |s| && Written(s, s2, pos, width, value)
    requires pos2 + width2 <= 8 * |s| && (pos2 + width2 <= pos || pos + width <= pos2)
    ensures Field(s2, pos2, width2) == Field(s, pos2, width2)
    decreases width2
  {
    if width2 > 0 {
      assert DataBit(s2, pos2) <==> DataBit(s, pos2);
      WrittenBeside(s, s2, pos, width, value, pos2 + 1, width2 - 1);
    }
  }

  lemma ByteOf(q: nat, r: nat)
    requires r < 8
    ensures (8 * q + r) / 8 == q && (8 * q + r) % 8 == r
  {
  }

  /** Bits of the result once the bytes up to bit `read` are taken in. */
  ghost predicate Collected(s: seq<byte>, pos: nat, read: nat, word: nat, res: nat)
  {
    forall k: nat :: Bit(res, k) <==> k < read && k < word && pos + k < 8 * |s| && DataBit(s, pos + k)
  }

  lemma FirstByte(s: seq<byte>, q: nat, shift: nat, word: nat)
    requires q < |s| && shift < 8 && 8 <= word
    ensures Collected(s, 8 * q + shift, 8 - shift, word, Shr(s[q], shift))
  {
    forall k: nat
      ensures Bit(Shr(s[q], shift), k) <==> k < 8 - shift && DataBit(s, 8 * q + shift + k)
    {
      BitShr(s[q], shift, k);
      if k < 8 - shift {
        ByteOf(q, shift + k);
      } else {
        NoHighBits(s[q], 8, shift + k);
      }
    }
  }

  lemma NextByte(s: seq<byte>, pos: nat, read: nat, q: nat, word: nat, res: nat)
    requires Collected(s, pos, read, word, res) && pos + read == 8 * q && q < |s|
    ensures Collected(s, pos, read + 8, word, Or(res, Cut(Shl(s[q], read), word)))
  {
    var piece := Cut(Shl(s[q], read), word);
    forall k: nat
      ensures Bit(Or(res, piece), k) <==> k < read + 8 && k < word && pos + k < 8 * |s| && DataBit(s, pos + k)
    {
      BitOr(res, piece, k);
      BitCut(Shl(s[q], read), word, k);
      BitShl(s[q], read, k);
      if read <= k < read + 8 {
        ByteOf(q, k - read);
      } else if read + 8 <= k {
        NoHighBits(s[q], 8, k - read);
      }
    }
  }

  /** Reads `width` bits from bit `pos` on with words of `word` bits. */
  method ReadBits(data: array<byte>, pos: nat, width: nat, word: nat) returns (value: nat)
    requires 0 < width <= word && 8 <= word && pos + width <= 8 * data.Length
    ensures value == Field(data[..], pos, width)
  {
    var posStart, initShift := pos / 8, pos % 8;
    var res: nat := Shr(data[posStart], initShift);
    FirstByte(data[..], posStart, initShift, word);
    var byteShift := 8 - initShift;
    posStart := posStart + 1;
    var bitsRead, i := 8 - initShift, 0;
    while bitsRead < width
      invariant bitsRead == 8 * i + byteShift && pos + bitsRead == 8 * (posStart + i)
      invariant Collected(data[..], pos, bitsRead, word, res)
      decreases width - bitsRead
    {
      NextByte(data[..], pos, bitsRead, posStart + i, word, res);
      var newByte := Cut(Shl(data[posStart + i], 8 * i + byteShift), word);
      res := Or(res, newByte);
      bitsRead, i := bitsRead + 8, i + 1;
    }
    value := And(res, Mask(width));
    forall k: nat ensures Bit(value, k) <==> Bit(Field(data[..], pos, width), k) {
      BitAnd(res, Mask(width), k);
      BitMask(width, k);
      BitField(data[..], pos, width, k);
    }
    SameBits(value, Field(data[..], pos, width));
  }

  /** Byte b has the bits of `was`, except for m bits from bit o on, which are those of value from bit n on. */
  ghost predicate Blended(b: nat, was: byte, o: nat, m: nat, value: nat, n: nat) {
    b < 256 && forall j: nat :: j < 8 ==> (Bit(b, j) <==> if o <= j < o + m then Bit(value, n + j - o) else Bit(was, j))
  }

  lemma WriteByte(s: seq<byte>, s1: seq<byte>, pos: nat, n: nat, value: nat, q: nat, o: nat, m: nat, b: byte)
    requires Written(s, s1, pos, n, value) && q < |s1| && pos + n == 8 * q + o && o + m <= 8
    requires Blended(b, s1[q], o, m, value, n)
    ensures Written(s, s1[q := b], pos, n + m, value)
  {
    var s2 := s1[q := b];
    forall p | 0 <= p < 8 * |s|
      ensures DataBit(s2, p) <==> if pos <= p < pos + n + m then Bit(value, p - pos) else DataBit(s, p)
    {
      assert DataBit(s1, p) <==> if pos <= p < pos + n then Bit(value, p - pos) else DataBit(s, p);
      if p / 8 == q {
        assert p == 8 * q + p % 8 && p - pos == n + p % 8 - o;
      }
    }
  }

  /** The mask that keeps the bits of a byte outside [o, o + width). */
  function Outside(o: nat, width: nat): nat
    requires o + width <= 8
  {
    PowersUpTo32();
    Cut(Or(Mask(o), Not(Mask(o + width), 32)), 8)
  }

  lemma OutsideBits(o: nat, width: nat, j: nat)
    requires o + width <= 8 && j < 8
    ensures Bit(Outside(o, width), j) <==> j < o || o + width <= j
  {
    PowersUpTo32();
    BitCut(Or(Mask(o), Not(Mask(o + width), 32)), 8, j);
    BitOr(Mask(o), Not(Mask(o + width), 32), j);
    BitMask(o, j);
    BitNot(Mask(o + width), 32, j);
    BitMask(o + width, j);
  }

  lemma BlendWithin(was: byte, o: nat, width: nat, value: nat)
    requires o + width <= 8 && value < Pow2(width)
    ensures Blended(Cut(Or(And(was, Outside(o, width)), Shl(value, o)), 8), was, o, width, value, 0)
  {
    PowersUpTo32();
    var kept, placed := And(was, Outside(o, width)), Shl(value, o);
    forall j: nat | j < 8
      ensures Bit(Cut(Or(kept, placed), 8), j) <==> if o <= j < o + width then Bit(value, j - o) else Bit(was, j)
    {
      BitCut(Or(kept, placed), 8, j);
      BitOr(kept, placed, j);
      BitAnd(was, Outside(o, width), j);
      OutsideBits(o, width, j);
      BitShl(value, o, j);
      if o + width <= j {
        NoHighBits(value, width, j - o);
      }
    }
  }

  lemma PowersUpTo32()
    ensures Pow2(8) == 256 && Pow2(32) == 0x1_0000_0000
    ensures forall n: nat :: n <= 8 ==> Pow2(n) <= 256
  {
    assert Pow2(8) == 256;
    assert Pow2(16) == 256 * 256;
    assert Pow2(24) == 256 * 256 * 256;
    assert Pow2(32) == 0x1_0000_0000;
  }

  lemma BlendFirst(was: byte, o: nat, value: nat)
    requires o < 8
    ensures Blended(Or(And(was, Mask(o)), Cut(Shl(value, o), 8)), was, o, 8 - o, value, 0)
  {
    PowersUpTo32();
    var b := Or(And(was, Mask(o)), Cut(Shl(value, o), 8));
    forall j: nat
      ensures Bit(b, j) <==> if j < o then Bit(was, j) else j < 8 && Bit(value, j - o)
    {
      BitOr(And(was, Mask(o)), Cut(Shl(value, o), 8), j);
      BitAnd(was, Mask(o), j);
      BitMask(o, j);
      BitCut(Shl(value, o), 8, j);
      BitShl(value, o, j);
    }
    FewBits(b, 8);
  }

  lemma BlendMiddle(was: byte, value: nat, n: nat)
    ensures Blended(Cut(Shr(value, n), 8), was, 0, 8, value, n)
  {
    PowersUpTo32();
    forall j: nat ensures Bit(Cut(Shr(value, n), 8), j) <==> j < 8 && Bit(value, n + j) {
      BitCut(Shr(value, n), 8, j);
      BitShr(value, n, j);
    }
  }

  lemma BlendLast(was: byte, m: nat, value: nat, n: nat)
    requires m < 8 && value < Pow2(n + m)
    ensures Mask(m) < Pow2(8)
    ensures Blended(Or(And(was, Not(Mask(m), 8)), Shr(value, n)), was, 0, m, value, n)
  {
    PowersUpTo32();
    var b := Or(And(was, Not(Mask(m), 8)), Shr(value, n));
    forall j: nat
      ensures Bit(b, j) <==> j < 8 && if j < m then Bit(value, n + j) else Bit(was, j)
    {
      BitOr(And(was, Not(Mask(m), 8)), Shr(value, n), j);
      BitAnd(was, Not(Mask(m), 8), j);
      BitNot(Mask(m), 8, j);
      BitMask(m, j);
      BitShr(value, n, j);
      if m <= j {
        NoHighBits(value, n + m, n + j);
      }
    }
    FewBits(b, 8);
  }

  lemma WrittenLow(s: seq<byte>, s2: seq<byte>, pos: nat, width: nat, value: nat)
    requires Written(s, s2, pos, width, And(value, Mask(width)))
    ensures Written(s, s2, pos, width, value)
  {
    forall p | 0 <= p < 8 * |s|
      ensures DataBit(s2, p) <==> if pos <= p < pos + width then Bit(value, p - pos) else DataBit(s, p)
    {
      if pos <= p < pos + width {
        BitAnd(value, Mask(width), p - pos);
        BitMask(width, p - pos);
      }
    }
  }

  method PutByte(data: array<byte>, q: nat, b: byte, ghost s: seq<byte>, ghost pos: nat, ghost n: nat, ghost value: nat,
                 ghost o: nat, ghost m: nat)
    requires q < data.Length && Written(s, data[..], pos, n, value) && pos + n == 8 * q + o && o + m <= 8
    requires Blended(b, data[q], o, m, value, n)
    modifies data
    ensures Written(s, data[..], pos, n + m, value)
    ensures forall i :: 0 <= i < data.Length && i != q ==> data[i] == old(data[i])
  {
    WriteByte(s, data[..], pos, n, value, q, o, m, b);
    ghost var before := data[..];
    data[q] := b;
    assert data[..] == before[q := b];
  }

  /** The field lies in one byte. */
  method WriteWithin(data: array<byte>, startPos: nat, initShift: nat, width: nat, value: nat)
    requires startPos < data.Length && initShift + width <= 8 && value < Pow2(width)
    modifies data
    ensures Written(old(data[..]), data[..], 8 * startPos + initShift, width, value)
  {
    var d: byte := data[startPos];
    BlendWithin(d, initShift, width, value);
    PutByte(data, startPos, Cut(Or(And(d, Outside(initShift, width)), Shl(value, initShift)), 8),
            data[..], 8 * startPos + initShift, 0, value, initShift, width);
  }

  /** The field spans several bytes. */
  method WriteAcross(data: array<byte>, startPos: nat, initShift: nat, width: nat, value: nat)
    requires initShift < 8 < initShift + width && value < Pow2(width)
    requires 8 * startPos + initShift + width <= 8 * data.Length
    modifies data
    ensures Written(old(data[..]), data[..], 8 * startPos + initShift, width, value)
  {
    ghost var s, pos := data[..], 8 * startPos + initShift;
    var d: byte := data[startPos];
    BlendFirst(d, initShift, value);
    d := Or(And(d, Mask(initShift)), Cut(Shl(value, initShift), 8));
    PutByte(data, startPos, d, s, pos, 0, value, initShift, 8 - initShift);
    var lastByteBitCount := (width + initShift) % 8;
    ghost var whole := (width + initShift) / 8;
    var curShift, count := 8 - initShift, 1;
    while curShift + lastByteBitCount < width
      invariant Written(s, data[..], pos, curShift, value)
      invariant curShift == 8 * count - initShift && 1 <= count <= whole
      decreases width - curShift
    {
      d := Cut(Shr(value, curShift), 8);
      BlendMiddle(data[startPos + count], value, curShift);
      PutByte(data, startPos + count, d, s, pos, curShift, value, 0, 8);
      curShift, count := curShift + 8, count + 1;
    }
    if lastByteBitCount > 0 {
      d := data[startPos + count];
      BlendLast(d, lastByteBitCount, value, width - lastByteBitCount);
      d := Or(And(d, Not(Mask(lastByteBitCount), 8)), Shr(value, width - lastByteBitCount));
      PutByte(data, startPos + count, d, s, pos, curShift, value, 0, lastByteBitCount);
    }
  }

  /** Writes the low `width` bits of `value` from bit `pos` on, and gives back what it wrote. */
  method WriteBits(data: array<byte>, pos: nat, width: nat, value: nat) returns (masked: nat)
    requires 0 < width && pos + width <= 8 * data.Length
    modifies data
    ensures Written(old(data[..]), data[..], pos, width, value)
    ensures masked == Cut(value, width)
  {
    MaskCuts(value, width);
    masked := And(value, Mask(width));
    var startPos, initShift := pos / 8, pos % 8;
    if initShift + width <= 8 {
      WriteWithin(data, startPos, initShift, width, masked);
    } else {
      WriteAcross(data, startPos, initShift, width, masked);
    }
    WrittenLow(old(data[..]), data[..], pos, width, value);
  }

  // ---- arrays of numbers --------------------------------------------------------------------

  function MinStorageBytes(bpn: nat, count: nat): nat {
    var bits := count * bpn;
    bits / 8 + if bits % 8 > 0 then 1 else 0
  }

  /** The storage is the least that holds all bits. */
  lemma StorageIsLeast(bpn: nat, count: nat)
    ensures 8 * MinStorageBytes(bpn, count) >= count * bpn
    ensures forall n: nat :: 8 * n >= count * bpn ==> n >= MinStorageBytes(bpn, count)
  {
  }

  lemma PositionFits(pos: nat, count: nat, bits: nat)
    requires pos < count
    ensures pos * bits + bits <= count * bits
  {
    var more := count - pos - 1;
    assert more * bits >= 0;
    assert count * bits == (pos + 1 + more) * bits == pos * bits + bits + more * bits;
  }

  ghost function Number(s: seq<byte>, bpn: nat, count: nat, i: nat): nat
    requires count * bpn <= 8 * |s| && i < count
  {
    PositionFits(i, count, bpn);
    Field(s, i * bpn, bpn)
  }

  ghost function Numbers(s: seq<byte>, bpn: nat, count: nat): seq<nat>
    requires count * bpn <= 8 * |s|
  {
    seq(count, i requires 0 <= i < count => Number(s, bpn, count, i))
  }

  lemma NumberWritten(s: seq<byte>, s2: seq<byte>, bpn: nat, count: nat, pos: nat, value: nat)
    requires count * bpn <= 8 * |s| && pos < count && Written(s, s2, pos * bpn, bpn, value)
    ensures Numbers(s2, bpn, count) == Numbers(s, bpn, count)[pos := Cut(value, bpn)]
  {
    PositionFits(pos, count, bpn);
    WrittenField(s, s2, pos * bpn, bpn, value);
    forall i: nat | i < count && i != pos ensures Number(s2, bpn, count, i) == Number(s, bpn, count, i) {
      NumberKept(s, s2, bpn, count, pos, value, i);
    }
  }

  lemma NumberKept(s: seq<byte>, s2: seq<byte>, bpn: nat, count: nat, pos: nat, value: nat, i: nat)
    requires count * bpn <= 8 * |s| && pos < count && Written(s, s2, pos * bpn, bpn, value) && i < count && i != pos
    ensures Number(s2, bpn, count, i) == Number(s, bpn, count, i)
  {
    PositionFits(pos, count, bpn);
    PositionFits(i, count, bpn);
    Apart(i, pos, bpn);
    WrittenBeside(s, s2, pos * bpn, bpn, value, i * bpn, bpn);
  }

  class CompactUintArray {
    const data: array<byte>
    const bpn: nat
    const maxCount: nat

    ghost predicate Valid() {
      0 < bpn <= 64 && maxCount * bpn <= 8 * data.Length
    }

    /** The numbers that the array holds. */
    ghost function Elements(): seq<nat>
      requires Valid()
      reads data
    {
      Numbers(data[..], bpn, maxCount)
    }

    constructor (data: array<byte>, bitsPerNumber: nat)
      ensures Valid() && this.data == data
      ensures bpn == if bitsPerNumber == 0 then 1 else if bitsPerNumber > 64 then 64 else bitsPerNumber
      ensures forall n: nat :: n * bpn <= 8 * data.Length ==> n <= maxCount
    {
      var bits := if bitsPerNumber == 0 then 1 else if bitsPerNumber > 64 then 64 else bitsPerNumber;
      this.data, bpn, maxCount := data, bits, data.Length * 8 / bits;
      MostThatFit(data.Length * 8, bits);
    }

    method At(pos: nat) returns (r: Option<nat>)
      requires Valid()
      ensures r == if pos < maxCount then Some(Elements()[pos]) else None
    {
      if pos >= maxCount {
        r := None;
      } else {
        PositionFits(pos, maxCount, bpn);
        var value := ReadBits(data, pos * bpn, bpn, if bpn <= 32 then 32 else 64);
        r := Some(value);
      }
    }

    /** The element becomes the value without its high bits.  What is returned is the element, except at
        widths of one, three and four bytes, where it is the value as given. */
    method Set(pos: nat, value: nat) returns (r: Option<nat>)
      requires Valid()
      modifies data
      ensures pos < maxCount ==> Elements() == old(Elements())[pos := Cut(value, bpn)]
      ensures pos < maxCount ==> r == Some(if bpn == 8 || bpn == 24 || bpn == 32 then value else Elements()[pos])
      ensures pos >= maxCount ==> r == None && data[..] == old(data[..])
    {
      if pos >= maxCount {
        r := None;
      } else {
        PositionFits(pos, maxCount, bpn);
        var masked := WriteBits(data, pos * bpn, bpn, value);
        r := Some(match bpn case 8 => value case 24 => value case 32 => value case _ => masked);
        NumberWritten(old(data[..]), data[..], bpn, maxCount, pos, value);
      }
    }
  }

  lemma MostThatFit(bits: nat, bpn: nat)
    requires bpn > 0
    ensures bits / bpn * bpn <= bits
    ensures forall n: nat :: n * bpn <= bits ==> n <= bits / bpn
  {
    var q := bits / bpn;
    assert bits == bpn * q + bits % bpn;
    forall n: nat | n * bpn <= bits ensures n <= q {
      if n > q {
        PositionFits(q, n, bpn);
      }
    }
  }

  /** Distinct positions have disjoint bits. */
  lemma Apart(i: nat, j: nat, bits: nat)
    requires i != j
    ensures i * bits + bits <= j * bits || j * bits + bits <= i * bits
  {
    if i < j {
      PositionFits(i, j, bits);
    } else {
      PositionFits(j, i, bits);
    }
  }

  // ---- entries of several fields ------------------------------------------------------------

  /** Sums of the field widths up to and including each field. */
  predicate BitSumsOk(sums: seq<nat>) {
    sums != [] && forall j :: 0 <= j < |sums| ==> 1 <= WidthOf(sums, j) <= 64
  }

  function OffsetOf(sums: seq<nat>, j: nat): nat
    requires j < |sums|
  {
    if j > 0 then sums[j - 1] else 0
  }

  function WidthOf(sums: seq<nat>, j: nat): int
    requires j < |sums|
  {
    sums[j] - OffsetOf(sums, j)
  }

  /** Fields lie one behind the other within an entry. */
  lemma {:induction false} FieldsInOrder(sums: seq<nat>, i: nat, j: nat)
    requires BitSumsOk(sums) && i < j < |sums|
    ensures sums[i] <= OffsetOf(sums, j) < sums[j]
    decreases j
  {
    assert 1 <= WidthOf(sums, j);
    if i < j - 1 {
      FieldsInOrder(sums, i, j - 1);
    }
  }

  lemma FieldInEntry(sums: seq<nat>, j: nat)
    requires BitSumsOk(sums) && j < |sums|
    ensures OffsetOf(sums, j) < sums[j] <= sums[|sums| - 1]
  {
    assert 1 <= WidthOf(sums, j);
    if j < |sums| - 1 {
      FieldsInOrder(sums, j, |sums| - 1);
    }
  }

  /** Where field j of entry i begins. */
  function BeginOf(sums: seq<nat>, i: nat, j: nat): nat
    requires j < |sums|
  {
    sums[|sums| - 1] * i + OffsetOf(sums, j)
  }

  /** The entries lie one behind the other, and in each of them the fields in order, without gaps. */
  lemma FieldsLayout(bitConfig: seq<nat>, sums: seq<nat>, i: nat, j: nat)
    requires |sums| == |bitConfig| && forall k :: 0 <= k < |sums| ==> sums[k] == Sum(bitConfig[..k + 1])
    requires j < |sums|
    ensures BeginOf(sums, i, j) == Sum(bitConfig) * i + Sum(bitConfig[..j])
    ensures WidthOf(sums, j) == bitConfig[j]
  {
    SumStep(bitConfig, j);
    OffsetIsSum(bitConfig, sums, j);
    var last := |sums| - 1;
    assert bitConfig[..last + 1] == bitConfig;
  }

  lemma OffsetIsSum(bitConfig: seq<nat>, sums: seq<nat>, j: nat)
    requires |sums| == |bitConfig| && forall k :: 0 <= k < |sums| ==> sums[k] == Sum(bitConfig[..k + 1])
    requires j < |sums|
    ensures OffsetOf(sums, j) == Sum(bitConfig[..j])
  {
    if j > 0 {
      var k := j - 1;
      assert sums[k] == Sum(bitConfig[..k + 1]);
    } else {
      assert bitConfig[..0] == [];
    }
  }

  lemma SumStep(widths: seq<nat>, j: nat)
    requires j < |widths|
    ensures Sum(widths[..j + 1]) == Sum(widths[..j]) + widths[j]
  {
    assert widths[..j + 1][..j] == widths[..j];
  }

  function Sum(widths: seq<nat>): nat {
    if widths == [] then 0 else Sum(widths[..|widths| - 1]) + widths[|widths| - 1]
  }

  lemma CellFits(sums: seq<nat>, count: nat, i: nat, j: nat)
    requires BitSumsOk(sums) && i < count && j < |sums|
    ensures BeginOf(sums, i, j) + WidthOf(sums, j) <= sums[|sums| - 1] * count
    ensures BeginOf(sums, i, j) + WidthOf(sums, j) <= sums[|sums| - 1] * (i + 1)
  {
    FieldInEntry(sums, j);
    PositionFits(i, count, sums[|sums| - 1]);
  }

  ghost function Cell(s: seq<byte>, sums: seq<nat>, count: nat, i: nat, j: nat): nat
    requires BitSumsOk(sums) && sums[|sums| - 1] * count <= 8 * |s| && i < count && j < |sums|
  {
    CellFits(sums, count, i, j);
    assert 1 <= WidthOf(sums, j);
    Field(s, BeginOf(sums, i, j), WidthOf(sums, j))
  }

  ghost predicate Holds(s: seq<byte>, sums: seq<nat>, count: nat) {
    BitSumsOk(sums) && sums[|sums| - 1] * count <= 8 * |s|
  }

  /** The cells of `count` entries in s are unchanged among the count2 entries in s2. */
  ghost predicate SameCells(s: seq<byte>, s2: seq<byte>, sums: seq<nat>, count: nat, count2: nat)
    requires Holds(s, sums, count) && Holds(s2, sums, count2) && count <= count2
  {
    forall i: nat, j: nat :: i < count && j < |sums| ==> Cell(s2, sums, count2, i, j) == Cell(s, sums, count, i, j)
  }

  /** Field j of entry i is set to the low bits of value, and no other cell is changed. */
  ghost predicate CellSet(s: seq<byte>, s2: seq<byte>, sums: seq<nat>, count: nat, count2: nat, i: nat, j: nat, value: nat)
    requires Holds(s, sums, count) && Holds(s2, sums, count2) && count <= count2 && i < count2 && j < |sums|
  {
    && 1 <= WidthOf(sums, j)
    && Cell(s2, sums, count2, i, j) == Cut(value, WidthOf(sums, j))
    && forall i2: nat, j2: nat :: i2 < count && j2 < |sums| && (i2, j2) != (i, j) ==>
         Cell(s2, sums, count2, i2, j2) == Cell(s, sums, count, i2, j2)
  }

  lemma CellsApart(sums: seq<nat>, count: nat, i: nat, j: nat, i2: nat, j2: nat)
    requires BitSumsOk(sums) && i < count && i2 < count && j < |sums| && j2 < |sums| && (i, j) != (i2, j2)
    ensures BeginOf(sums, i, j) + WidthOf(sums, j) <= BeginOf(sums, i2, j2)
            || BeginOf(sums, i2, j2) + WidthOf(sums, j2) <= BeginOf(sums, i, j)
  {
    var total := sums[|sums| - 1];
    CellFits(sums, count, i, j);
    CellFits(sums, count, i2, j2);
    if i < i2 {
      PositionFits(i, i2, total);
    } else if i2 < i {
      PositionFits(i2, i, total);
    } else if j < j2 {
      FieldsInOrder(sums, j, j2);
    } else {
      FieldsInOrder(sums, j2, j);
    }
  }

  lemma CellWritten(s: seq<byte>, s2: seq<byte>, sums: seq<nat>, count: nat, i: nat, j: nat, value: nat)
    requires BitSumsOk(sums) && sums[|sums| - 1] * count <= 8 * |s| && i < count && j < |sums| && 1 <= WidthOf(sums, j)
    requires Written(s, s2, BeginOf(sums, i, j), WidthOf(sums, j), value)
    ensures CellSet(s, s2, sums, count, count, i, j, value)
  {
    CellFits(sums, count, i, j);
    WrittenField(s, s2, BeginOf(sums, i, j), WidthOf(sums, j), value);
    forall i2: nat, j2: nat | i2 < count && j2 < |sums| && (i2, j2) != (i, j)
      ensures Cell(s2, sums, count, i2, j2) == Cell(s, sums, count, i2, j2)
    {
      CellFits(sums, count, i2, j2);
      CellsApart(sums, count, i, j, i2, j2);
      WrittenBeside(s, s2, BeginOf(sums, i, j), WidthOf(sums, j), value, BeginOf(sums, i2, j2), WidthOf(sums, j2));
    }
  }

  lemma {:induction false} FieldOfPrefix(s: seq<byte>, s2: seq<byte>, pos: nat, width: nat)
    requires s <= s2 && pos + width <= 8 * |s|
    ensures Field(s2, pos, width) == Field(s, pos, width)
    decreases width
  {
    if width > 0 {
      FieldOfPrefix(s, s2, pos + 1, width - 1);
    }
  }

  lemma CellsOfPrefix(s: seq<byte>, s2: seq<byte>, sums: seq<nat>, count: nat, count2: nat)
    requires BitSumsOk(sums) && count <= count2 && s <= s2
    requires sums[|sums| - 1] * count <= 8 * |s| && sums[|sums| - 1] * count2 <= 8 * |s2|
    ensures SameCells(s, s2, sums, count, count2)
  {
    forall i: nat, j: nat | i < count && j < |sums|
      ensures Cell(s2, sums, count2, i, j) == Cell(s, sums, count, i, j)
    {
      CellFits(sums, count, i, j);
      FieldOfPrefix(s, s2, BeginOf(sums, i, j), WidthOf(sums, j));
    }
  }

  function EntryStorageBytes(bitSum: nat, count: nat): nat {
    bitSum / 8 * count + bitSum % 8 * count / 8 + if bitSum % 8 * count % 8 > 0 then 1 else 0
  }

  lemma EntryStorageIsLeast(bitSum: nat, count: nat)
    ensures EntryStorageBytes(bitSum, count) == MinStorageBytes(bitSum, count)
  {
    var q, r := bitSum / 8, bitSum % 8;
    var n := r * count;
    assert count * bitSum == 8 * (q * count) + n by {
      assert count * (8 * q + r) == 8 * (q * count) + r * count;
    }
    DivUnique(count * bitSum, 8, q * count + n / 8, n % 8);
  }

  class MultiVarBitArray {
    const bitSums: seq<nat>
    var data: array<byte>
    var size: nat

    ghost predicate Valid() reads this, data {
      Holds(data[..], bitSums, size)
    }

    /** Field j of entry i. */
    ghost function CellAt(i: nat, j: nat): nat
      requires Valid() && i < size && j < |bitSums|
      reads this, data
    {
      Cell(data[..], bitSums, size, i, j)
    }

    constructor (bitConfig: seq<nat>)
      requires bitConfig != [] && forall j :: 0 <= j < |bitConfig| ==> 1 <= bitConfig[j] <= 64
      ensures Valid() && size == 0 && fresh(data) && |bitSums| == |bitConfig|
      ensures forall j :: 0 <= j < |bitConfig| ==> WidthOf(bitSums, j) == bitConfig[j]
      ensures forall j :: 0 <= j < |bitConfig| ==> bitSums[j] == Sum(bitConfig[..j + 1])
    {
      var sum, sums: seq<nat> := 0, [];
      for j := 0 to |bitConfig|
        invariant |sums| == j && sum == Sum(bitConfig[..j])
        invariant forall k :: 0 <= k < j ==> sums[k] == Sum(bitConfig[..k + 1])
      {
        SumStep(bitConfig, j);
        sum := sum + bitConfig[j];
        sums := sums + [sum];
      }
      forall j | 0 <= j < |sums| ensures WidthOf(sums, j) == bitConfig[j] {
        FieldsLayout(bitConfig, sums, 0, j);
      }
      bitSums, data, size := sums, new byte[0], 0;
    }

    method At(pos: nat, subPos: nat) returns (r: Option<nat>)
      requires Valid() && subPos < |bitSums|
      ensures r == if pos < size then Some(CellAt(pos, subPos)) else None
    {
      if pos >= size {
        r := None;
      } else {
        CellFits(bitSums, size, pos, subPos);
        assert 1 <= WidthOf(bitSums, subPos) <= 64;
        var value := ReadBits(data, BeginOf(bitSums, pos, subPos), WidthOf(bitSums, subPos), 64);
        r := Some(value);
      }
    }

    method Set(pos: nat, subPos: nat, value: nat) returns (r: Option<nat>)
      requires Valid() && subPos < |bitSums|
      modifies data
      ensures Valid()
      ensures if pos >= size then r == None && data[..] == old(data[..])
              else r == Some(CellAt(pos, subPos)) && CellSet(old(data[..]), data[..], bitSums, size, size, pos, subPos, value)
    {
      if pos >= size {
        r := None;
      } else {
        CellFits(bitSums, size, pos, subPos);
        assert 1 <= WidthOf(bitSums, subPos);
        var masked := WriteBits(data, BeginOf(bitSums, pos, subPos), WidthOf(bitSums, subPos), value);
        r := Some(masked);
        CellWritten(old(data[..]), data[..], bitSums, size, pos, subPos, value);
      }
    }

    /** Makes room for `count` entries. */
    method Reserve(count: nat)
      requires Valid()
      modifies this
      ensures Valid() && size == (if count > old(size) then count else old(size))
      ensures data == old(data) || (fresh(data) && data.Length == MinStorageBytes(bitSums[|bitSums| - 1], count))
      ensures SameCells(old(data[..]), data[..], bitSums, old(size), size)
    {
      if size < count {
        var storageNeed := EntryStorageBytes(bitSums[|bitSums| - 1], count);
        EntryStorageIsLeast(bitSums[|bitSums| - 1], count);
        StorageIsLeast(bitSums[|bitSums| - 1], count);
        if data.Length < storageNeed {
          data := Grown(data, storageNeed);
        }
        CellsOfPrefix(old(data[..]), data[..], bitSums, size, count);
        size := count;
      }
    }

    /** Sets a field of an entry that may lie behind the end; tells whether the value fits. */
    method Put(pos: nat, subPos: nat, value: nat) returns (fits: bool)
      requires Valid() && subPos < |bitSums|
      modifies this, data
      ensures Valid() && size == (if pos < old(size) then old(size) else pos + 1)
      ensures CellSet(old(data[..]), data[..], bitSums, old(size), size, pos, subPos, value)
      ensures 1 <= WidthOf(bitSums, subPos) && (fits <==> value < Pow2(WidthOf(bitSums, subPos)))
    {
      if size <= pos {
        Reserve(pos + 1);
      }
      ghost var reserved := data[..];
      var masked := Set(pos, subPos, value);
      fits := masked == Some(value);
      CutKeeps(value, WidthOf(bitSums, subPos));
      SetAfterGrowth(old(data[..]), reserved, data[..], bitSums, old(size), size, pos, subPos, value);
    }
  }

  method Grown(data: array<byte>, n: nat) returns (grown: array<byte>)
    requires data.Length < n
    ensures fresh(grown) && grown.Length == n && data[..] <= grown[..]
  {
    grown := new byte[n];
    for i := 0 to data.Length
      invariant grown[..i] == data[..i]
    {
      grown[i] := data[i];
    }
  }

  lemma SetAfterGrowth(s: seq<byte>, s1: seq<byte>, s2: seq<byte>, sums: seq<nat>, count: nat, count2: nat,
                       i: nat, j: nat, value: nat)
    requires Holds(s, sums, count) && Holds(s1, sums, count2) && Holds(s2, sums, count2) && count <= count2
    requires i < count2 && j < |sums|
    requires SameCells(s, s1, sums, count, count2) && CellSet(s1, s2, sums, count2, count2, i, j, value)
    ensures CellSet(s, s2, sums, count, count2, i, j, value)
  {
    forall i2: nat, j2: nat | i2 < count && j2 < |sums| && (i2, j2) != (i, j)
      ensures Cell(s2, sums, count2, i2, j2) == Cell(s, sums, count, i2, j2)
    {
      assert Cell(s1, sums, count2, i2, j2) == Cell(s, sums, count, i2, j2);
    }
  }

  lemma CutKeeps(a: nat, w: nat)
    ensures Cut(a, w) == a <==> a < Pow2(w)
  {
    if a < Pow2(w) {
      ShiftDivides(a, w);
      DivUnique(a, Pow2(w), 0, a);
    }
  }
}
