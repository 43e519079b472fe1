/** A stream of 32-bit numbers as differences, with runs of equal differences counted.  The writer keeps
    the run that is pending; the reader works in 32-bit arithmetic and can start at any number that
    was written outright. */
module RleStream {
  import opened Basics
  import opened VarInt

  const WORD := 0x1_0000_0000
  const HALF := 0x8000_0000

  /** What one code word stands for: one number at a distance, one number outright, or a run. */
  datatype Code = Delta(d: int) | Full(v: nat) | Run(n: nat, d: int)

  function BytesOf(c: Code): (r: seq<byte>)
    ensures r != []
  {
    match c
    case Delta(d) => Packed(if d < 0 then -d * 4 + 1 else d * 4)
    case Full(v) => Packed(v * 4 + 2)
    case Run(n, d) => Packed(n * 4 + 3) + PackedSigned(d)
  }

  function Joined(codes: seq<Code>, f: Code -> seq<byte>): seq<byte> {
    if codes == [] then [] else f(codes[0]) + Joined(codes[1..], f)
  }

  function AllBytes(codes: seq<Code>): seq<byte> {
    Joined(codes, BytesOf)
  }

  /** A word moved by d, in 32 bits. */
  function Move(cur: nat, d: int): (r: nat)
    ensures r < WORD
  {
    (cur + d) % WORD
  }

  /** The number that a 32-bit word holds after the addition: the sum up to a multiple of 2^32. */
  lemma MoveWraps(cur: nat, d: int, r: nat)
    ensures Move(cur, d) == r <==> r < 0x1_0000_0000 && exists k: int :: r == cur + d - k * 0x1_0000_0000
  {
    var k := (cur + d) / 0x1_0000_0000;
    assert Move(cur, d) == cur + d - k * 0x1_0000_0000;
  }

  /** n numbers at distance d from each other, the first of them at distance d from cur. */
  function Steps(cur: nat, d: int, n: nat): seq<nat>
    decreases n
  {
    if n == 0 then [] else [Move(cur, d)] + Steps(Move(cur, d), d, n - 1)
  }

  function After(cur: nat, d: int, n: nat): nat
    decreases n
  {
    if n == 0 then cur else After(Move(cur, d), d, n - 1)
  }

  /** How many numbers a run stands for whose code word has n: the reader counts n down before it looks
      at it. */
  function RunLength(n: nat): nat {
    if n == 0 then WORD else n
  }

  function Values(c: Code, cur: nat): seq<nat> {
    match c
    case Delta(d) => [Move(cur, d)]
    case Full(v) => [v]
    case Run(n, d) => Steps(cur, d, RunLength(n))
  }

  function Last(c: Code, cur: nat): nat {
    match c
    case Delta(d) => Move(cur, d)
    case Full(v) => v
    case Run(n, d) => After(cur, d, RunLength(n))
  }

  /** The codes take turns: f gives the values of a code and g where it ends. */
  function Chained(codes: seq<Code>, cur: nat, f: (Code, nat) -> seq<nat>, g: (Code, nat) -> nat): seq<nat> {
    if codes == [] then [] else f(codes[0], cur) + Chained(codes[1..], g(codes[0], cur), f, g)
  }

  function ChainEnd(codes: seq<Code>, cur: nat, g: (Code, nat) -> nat): nat {
    if codes == [] then cur else ChainEnd(codes[1..], g(codes[0], cur), g)
  }

  function AllValues(codes: seq<Code>, cur: nat): seq<nat> {
    Chained(codes, cur, Values, Last)
  }

  function AllLast(codes: seq<Code>, cur: nat): nat {
    ChainEnd(codes, cur, Last)
  }

  predicate CodeOk(c: Code) {
    match c
    case Delta(d) => -HALF < d < HALF
    case Full(v) => v < WORD
    case Run(n, d) => n < WORD / 4 && -HALF < d < HALF
  }

  // ---- lemmas on code sequences -------------------------------------------------------------

  lemma Append(codes: seq<Code>, c: Code, cur: nat)
    ensures AllBytes(codes + [c]) == AllBytes(codes) + BytesOf(c)
    ensures AllValues(codes + [c], cur) == AllValues(codes, cur) + Values(c, AllLast(codes, cur))
    ensures AllLast(codes + [c], cur) == Last(c, AllLast(codes, cur))
  {
    BytesJoin(codes, [c], BytesOf);
    ValuesJoin(codes, [c], cur);
    OneCode(c, AllLast(codes, cur));
  }

  lemma {:induction false} BytesJoin(a: seq<Code>, b: seq<Code>, f: Code -> seq<byte>)
    ensures Joined(a + b, f) == Joined(a, f) + Joined(b, f)
  {
    if a == [] {
      assert a + b == b;
    } else {
      BytesJoin(a[1..], b, f);
      assert (a + b)[1..] == a[1..] + b && (a + b)[0] == a[0];
      Regroup(f(a[0]), Joined(a[1..], f), Joined(b, f));
    }
  }

  lemma OneCode(c: Code, cur: nat)
    ensures AllBytes([c]) == BytesOf(c) && AllValues([c], cur) == Values(c, cur) && AllLast([c], cur) == Last(c, cur)
  {
    assert [c][1..] == [];
    assert Joined([], BytesOf) == [] && Chained([], Last(c, cur), Values, Last) == [];
    assert ChainEnd([], Last(c, cur), Last) == Last(c, cur);
  }

  lemma {:induction false} ChainJoin(a: seq<Code>, b: seq<Code>, cur: nat, f: (Code, nat) -> seq<nat>, g: (Code, nat) -> nat)
    ensures Chained(a + b, cur, f, g) == Chained(a, cur, f, g) + Chained(b, ChainEnd(a, cur, g), f, g)
    ensures ChainEnd(a + b, cur, g) == ChainEnd(b, ChainEnd(a, cur, g), g)
    decreases |a|
  {
    if a == [] {
      assert a + b == b;
    } else {
      var next := g(a[0], cur);
      ChainJoin(a[1..], b, next, f, g);
      assert (a + b)[1..] == a[1..] + b && (a + b)[0] == a[0];
      Regroup(f(a[0], cur), Chained(a[1..], next, f, g), Chained(b, ChainEnd(a[1..], next, g), f, g));
    }
  }

  lemma ValuesJoin(a: seq<Code>, b: seq<Code>, cur: nat)
    ensures AllValues(a + b, cur) == AllValues(a, cur) + AllValues(b, AllLast(a, cur))
    ensures AllLast(a + b, cur) == AllLast(b, AllLast(a, cur))
  {
    ChainJoin(a, b, cur, Values, Last);
  }

  lemma {:induction false} MoreSteps(cur: nat, d: int, n: nat)
    ensures Steps(cur, d, n + 1) == Steps(cur, d, n) + [Move(After(cur, d, n), d)]
    ensures After(cur, d, n + 1) == Move(After(cur, d, n), d)
    decreases n
  {
    if n > 0 {
      MoreSteps(Move(cur, d), d, n - 1);
    }
  }

  lemma {:induction false} StepsCount(cur: nat, d: int, n: nat)
    ensures |Steps(cur, d, n)| == n
    decreases n
  {
    if n > 0 {
      StepsCount(Move(cur, d), d, n - 1);
    }
  }

  // ---- writing ------------------------------------------------------------------------------

  /** The run that is pending: its last number, its difference and its length. */
  datatype Tail = Tail(prevId: nat, diff: int, count: nat)

  ghost predicate TailOk(w: Tail) {
    && w.prevId < WORD && -HALF <= w.diff < HALF && w.count < WORD
    && (w.diff == -HALF ==> w.count == 1 && w.prevId < HALF)
  }

  /** The code words and the pending run stand for the values. */
  ghost predicate Encoded(w: Tail, codes: seq<Code>, values: seq<nat>) {
    && After(AllLast(codes, 0), w.diff, w.count) == w.prevId
    && values == AllValues(codes, 0) + Steps(AllLast(codes, 0), w.diff, w.count)
  }

  /** The code word for a pending run; it keeps the length of a run in 30 bits. */
  ghost function PendingCode(w: Tail): Code {
    if w.count == 1 then
      if w.prevId > (if w.diff < 0 then -w.diff else w.diff) then Delta(w.diff) else Full(w.prevId)
    else Run(w.count % (WORD / 4), w.diff)
  }

  lemma PendingOk(w: Tail)
    requires TailOk(w) && w.count > 0
    ensures CodeOk(PendingCode(w))
  {
  }

  /** The code word of a pending run that is not too long stands for the run. */
  lemma PendingMeans(w: Tail, cur: nat)
    requires TailOk(w) && 0 < w.count < WORD / 4 && After(cur, w.diff, w.count) == w.prevId
    ensures Values(PendingCode(w), cur) == Steps(cur, w.diff, w.count) && Last(PendingCode(w), cur) == w.prevId
  {
    if w.count == 1 {
      OneStep(cur, w.diff);
    } else {
      assert w.count % (WORD / 4) == w.count;
    }
  }

  /** Writing the code word of a pending run that is not too long keeps all values. */
  lemma WriteOut(w: Tail, codes: seq<Code>, values: seq<nat>)
    requires TailOk(w) && Encoded(w, codes, values) && 0 < w.count < WORD / 4
    ensures Encoded(Tail(w.prevId, 0, 0), codes + [PendingCode(w)], values)
  {
    var c, cur := PendingCode(w), AllLast(codes, 0);
    PendingMeans(w, cur);
    Append(codes, c, 0);
    assert Steps(AllLast(codes + [c], 0), 0, 0) == [];
  }

  /** What a run of n equal differences is read as: exactly below 2^30 it keeps its length; from there on
      the length is taken modulo 2^30, and if nothing is left of it 2^32 numbers are read. */
  lemma RunReadAs(w: Tail, cur: nat)
    requires TailOk(w) && w.count > 1
    ensures var read := Values(PendingCode(w), cur);
            && read == Steps(cur, w.diff, RunLength(w.count % (WORD / 4)))
            && (|read| == w.count <==> w.count < WORD / 4)
  {
    StepsCount(cur, w.diff, RunLength(w.count % (WORD / 4)));
  }

  ghost predicate PendingRight(w: Tail, codes: seq<Code>, values: seq<nat>, overlong: bool) {
    TailOk(w) && (!overlong ==> Encoded(w, codes, values) && w.count < WORD / 4)
  }

  /** One more number at the same distance. */
  lemma GrowRun(w: Tail, value: nat, codes: seq<Code>, values: seq<nat>, overlong: bool)
    requires PendingRight(w, codes, values, overlong) && value < WORD && value - w.prevId == w.diff
    ensures PendingRight(Tail(value, w.diff, (w.count + 1) % WORD), codes, values + [value],
                         overlong || w.count + 1 >= WORD / 4)
  {
    TailGrows(w, value);
    if !overlong {
      var cur := AllLast(codes, 0);
      MoreSteps(cur, w.diff, w.count);
      Regroup(AllValues(codes, 0), Steps(cur, w.diff, w.count), [value]);
    }
  }

  lemma TailGrows(w: Tail, value: nat)
    requires TailOk(w) && value < WORD && value - w.prevId == w.diff
    ensures TailOk(Tail(value, w.diff, (w.count + 1) % WORD)) && Move(w.prevId, w.diff) == value
    ensures w.count + 1 < WORD / 4 ==> (w.count + 1) % WORD == w.count + 1
  {
  }

  /** The first number at another distance. */
  lemma StartRun(prevId: nat, value: nat, codes: seq<Code>, values: seq<nat>, overlong: bool)
    requires PendingRight(Tail(prevId, 0, 0), codes, values, overlong) && value < WORD && -HALF <= value - prevId < HALF
    ensures PendingRight(Tail(value, value - prevId, 1), codes, values + [value], overlong)
  {
    OneStep(AllLast(codes, 0), value - prevId);
    assert Steps(AllLast(codes, 0), 0, 0) == [];
  }

  lemma OneStep(cur: nat, d: int)
    ensures Steps(cur, d, 1) == [Move(cur, d)] && After(cur, d, 1) == Move(cur, d)
  {
    assert Steps(Move(cur, d), d, 0) == [];
  }

  /** The bytes of the code word for a pending run. */
  method PendingBytes(prevId: nat, d: int, n: nat) returns (bytes: seq<byte>)
    requires 0 < n < WORD
    ensures bytes == BytesOf(PendingCode(Tail(prevId, d, n)))
  {
    if n == 1 {
      if prevId > (if d < 0 then -d else d) {
        bytes := Packed(if d < 0 then -d * 4 + 1 else d * 4);
      } else {
        bytes := Packed(prevId * 4 + 2);
      }
    } else {
      ShiftedCount(n);
      bytes := Packed(n * 4 % WORD + 3) + PackedSigned(d);
    }
  }

  lemma ShiftedCount(n: nat)
    requires n < WORD
    ensures n * 4 % WORD == n % (WORD / 4) * 4
  {
    var q, r := n / (WORD / 4), n % (WORD / 4);
    assert n * 4 == q * WORD + r * 4 && r * 4 < WORD;
  }

  class Creator {
    var dest: seq<byte>
    var prevId: nat
    var rleDiff: int
    var rleCount: nat
    /** The code words written, all numbers put, and whether a run has been too long to be counted. */
    ghost var codes: seq<Code>
    ghost var values: seq<nat>
    ghost var overlong: bool

    ghost function Pending(): Tail reads this {
      Tail(prevId, rleDiff, rleCount)
    }

    /** The bytes are those of the code words, and these stand for the numbers put if no run was too long. */
    ghost predicate Valid() reads this {
      && dest == AllBytes(codes) && (forall i :: 0 <= i < |codes| ==> CodeOk(codes[i]))
      && PendingRight(Pending(), codes, values, overlong)
    }

    constructor ()
      ensures Valid() && values == [] && dest == [] && !overlong && Pending() == Tail(0, 0, 0)
    {
      dest, prevId, rleDiff, rleCount := [], 0, 0, 0;
      codes, values, overlong := [], [], false;
    }

    /** Writes out what is pending. */
    method Flush()
      requires Valid()
      modifies this
      ensures Valid() && values == old(values) && overlong == old(overlong)
      ensures Pending() == Tail(old(prevId), 0, 0)
      ensures codes == if old(rleCount) == 0 then old(codes) else old(codes) + [old(PendingCode(Pending()))]
    {
      if rleCount > 0 {
        PendingOk(Pending());
        Append(codes, PendingCode(Pending()), 0);
        if !overlong {
          WriteOut(Pending(), codes, values);
        }
        var bytes := PendingBytes(prevId, rleDiff, rleCount);
        dest := dest + bytes;
        codes := codes + [PendingCode(Pending())];
      }
      rleCount := 0;
      rleDiff := 0;
    }

    /** Refuses a number too far from the one before; a run becomes too long with its 2^30th number. */
    method Put(value: nat) returns (ok: bool)
      requires Valid() && value < WORD
      modifies this
      ensures Valid() && (ok <==> -HALF <= value - old(prevId) < HALF)
      ensures !ok ==> Pending() == old(Pending()) && values == old(values) && overlong == old(overlong) && codes == old(codes)
      ensures ok ==> values == old(values) + [value] && prevId == value && rleDiff == value - old(prevId)
      ensures ok ==> rleCount == if rleDiff == old(rleDiff) then (old(rleCount) + 1) % WORD else 1
      ensures overlong <==> old(overlong) || (ok && rleDiff == old(rleDiff) && old(rleCount) + 1 >= WORD / 4)
    {
      var diff := value - prevId;
      ok := -HALF <= diff < HALF;
      if ok {
        if diff == rleDiff {
          GrowRun(Pending(), value, codes, values, overlong);
          overlong := overlong || rleCount + 1 >= WORD / 4;
          rleCount := (rleCount + 1) % WORD;
        } else {
          Flush();
          StartRun(prevId, value, codes, values, overlong);
          rleCount := 1;
          rleDiff := diff;
        }
        prevId := value;
        values := values + [value];
      }
    }

    /** Writes a number outright. */
    method Checkpoint(value: nat)
      requires Valid() && value < WORD
      modifies this
      ensures Valid() && values == old(values) + [value] && overlong == old(overlong)
      ensures Pending() == Tail(value, 0, 0) && codes != [] && codes[|codes| - 1] == Full(value)
    {
      Flush();
      prevId := value;
      dest := dest + Packed(prevId * 4 + 2);
      Append(codes, Full(value), 0);
      assert Values(Full(value), AllLast(codes, 0)) == [value];
      assert Steps(AllLast(codes, 0), 0, 0) == [] && Steps(value, 0, 0) == [];
      codes := codes + [Full(value)];
      values := values + [value];
    }
  }

  // ---- reading ------------------------------------------------------------------------------

  /** The numbers to come: what is left of a run, and what the code words that follow stand for. */
  ghost function ToCome(cur: nat, d: int, n: nat, left: seq<Code>): seq<nat> {
    Steps(cur, d, n) + AllValues(left, After(cur, d, n))
  }

  ghost predicate AtCodes(data: seq<byte>, getPtr: nat, left: seq<Code>) {
    getPtr <= |data| && data[getPtr..] == AllBytes(left) && forall i :: 0 <= i < |left| ==> CodeOk(left[i])
  }

  function WordOf(c: Code): nat {
    match c
    case Delta(d) => if d < 0 then -d * 4 + 1 else d * 4
    case Full(v) => v * 4 + 2
    case Run(n, d) => n * 4 + 3
  }

  /** The first word of a code, and where the code ends. */
  lemma WordAhead(data: seq<byte>, getPtr: nat, left: seq<Code>)
    requires AtCodes(data, getPtr, left) && left != []
    ensures getPtr < |data| && Unpacked(data[getPtr..]) == (WordOf(left[0]), |Packed(WordOf(left[0]))|)
    ensures |Packed(WordOf(left[0]))| <= 10
    ensures !left[0].Run? ==> AtCodes(data, getPtr + |Packed(WordOf(left[0]))|, left[1..])
    ensures left[0].Run? ==>
              var p := getPtr + |Packed(WordOf(left[0]))|;
              && p < |data| && Unpacked(data[p..]) == (Zigzag(left[0].d), |PackedSigned(left[0].d)|)
              && |PackedSigned(left[0].d)| <= 5 && AtCodes(data, p + |PackedSigned(left[0].d)|, left[1..])
  {
    var c, rest := left[0], AllBytes(left[1..]);
    assert CodeOk(c);
    WordFits(c);
    var word := Packed(WordOf(c));
    if c.Run? {
      var second := PackedSigned(c.d);
      Regroup(word, second, rest);
      Front(data, getPtr, word, second + rest);
      UnpackPacked(WordOf(c), second + rest);
      Front(data, getPtr + |word|, second, rest);
      UnpackPacked(Zigzag(c.d), rest);
    } else {
      Front(data, getPtr, word, rest);
      UnpackPacked(WordOf(c), rest);
    }
  }

  lemma Front(data: seq<byte>, p: nat, x: seq<byte>, rest: seq<byte>)
    requires p <= |data| && data[p..] == x + rest
    ensures p + |x| <= |data| && data[p + |x|..] == rest
  {
    assert data[p..][|x|..] == rest;
  }

  lemma WordFits(c: Code)
    requires CodeOk(c)
    ensures |Packed(WordOf(c))| <= 10
    ensures c.Run? ==> |PackedSigned(c.d)| <= 5
    ensures BytesOf(c) == Packed(WordOf(c)) + if c.Run? then PackedSigned(c.d) else []
  {
    assert Pow128(5) == 34359738368;
    assert Pow128(10) == 34359738368 * Pow128(5);
    PackedLength(WordOf(c), 10);
    if c.Run? {
      PackedLength(Zigzag(c.d), 5);
    }
  }

  lemma StepOnce(cur: nat, d: int, n: nat, left: seq<Code>)
    requires n > 0
    ensures ToCome(cur, d, n, left) == [Move(cur, d)] + ToCome(Move(cur, d), d, n - 1, left)
  {
    Regroup([Move(cur, d)], Steps(Move(cur, d), d, n - 1), AllValues(left, After(cur, d, n)));
  }

  lemma NextCode(cur: nat, d: int, left: seq<Code>)
    requires left != []
    ensures match left[0]
            case Run(n, d2) => ToCome(cur, d, 0, left) == ToCome(cur, d2, RunLength(n), left[1..])
            case _ => ToCome(cur, d, 0, left) == [Last(left[0], cur)] + ToCome(Last(left[0], cur), d, 0, left[1..])
  {
    assert Steps(cur, d, 0) == [] && ToCome(cur, d, 0, left) == AllValues(left, cur);
    if !left[0].Run? {
      var next := Last(left[0], cur);
      assert Values(left[0], cur) == [next] && Steps(next, d, 0) == [];
    }
  }

  /** What the reader makes of a code word. */
  lemma WordParts(c: Code)
    requires CodeOk(c)
    ensures var t, w := WordOf(c) % 4, WordOf(c) / 4;
            match c
            case Delta(d) => if d < 0 then t == 1 && w == -d else t == 0 && w == d
            case Full(v) => t == 2 && w % WORD == v
            case Run(n, d) => t == 3 && w % WORD == n
  {
  }

  class RleStream {
    const data: seq<byte>
    var getPtr: nat
    var curRleCount: nat
    var curRleDiff: int
    var curId: nat
    /** The code words not read yet. */
    ghost var left: seq<Code>

    ghost predicate Valid() reads this {
      AtCodes(data, getPtr, left) && curId < WORD && curRleCount < WORD && -HALF < curRleDiff < HALF
    }

    ghost function Ahead(): seq<nat> reads this {
      ToCome(curId, curRleDiff, curRleCount, left)
    }

    /** Before the first step of the source's constructor. */
    constructor (data: seq<byte>, ghost codes: seq<Code>)
      requires AtCodes(data, 0, codes)
      ensures Valid() && Ahead() == AllValues(codes, 0) && this.data == data
    {
      this.data := data;
      getPtr, curRleCount, curRleDiff, curId := 0, 0, 0, 0;
      left := codes;
    }

    /** Reads a code word: the number it stands for, or the beginning of a run. */
    method ReadCode() returns (single: bool)
      requires Valid() && curRleCount == 0
      modifies this
      ensures Valid()
      ensures old(left) == [] ==> single && curId == old(curId) && curRleCount == 0 && left == []
      ensures old(left) != [] ==> left == old(left[1..])
      ensures old(left) != [] && old(left[0]).Run?
              ==> !single && curId == old(curId) && curRleCount == old(left[0]).n && curRleDiff == old(left[0]).d
      ensures old(left) != [] && !old(left[0]).Run?
              ==> single && curId == Last(old(left[0]), old(curId)) && curRleCount == 0 && curRleDiff == old(curRleDiff)
    {
      if left != [] {
        WordAhead(data, getPtr, left);
        assert CodeOk(left[0]);
        WordParts(left[0]);
      }
      var curWord := GetWord();
      var tmp := curWord % 4;
      curWord := curWord / 4;
      single := tmp != 3;
      if tmp == 0 {
        curId := Move(curId, curWord);
      } else if tmp == 1 {
        curId := Move(curId, -(curWord as int));
      } else if tmp == 2 {
        curId := curWord % WORD;
      } else {
        curRleCount := curWord % WORD;
        curRleDiff := GetSigned();
      }
      left := if left == [] then [] else left[1..];
    }

    /** The next code word; none at the end of the data, which stands for no difference. */
    method GetWord() returns (word: nat)
      requires AtCodes(data, getPtr, left)
      modifies this`getPtr
      ensures left == [] ==> word == 0 && getPtr == old(getPtr)
      ensures left != [] ==> word == WordOf(left[0]) && getPtr == old(getPtr) + |Packed(word)|
    {
      word := 0;
      if left != [] {
        WordAhead(data, getPtr, left);
      }
      if getPtr < |data| {
        var value, len := Unpack(data, getPtr, 10);
        if len > 0 {
          word := value;
          getPtr := getPtr + len;
        }
      }
    }

    method GetSigned() returns (d: int)
      requires getPtr <= |data| && 0 < Unpacked(data[getPtr..]).1 <= 5
      modifies this`getPtr
      ensures getPtr == old(getPtr + Unpacked(data[getPtr..]).1)
      ensures forall x :: Zigzag(x) == old(Unpacked(data[getPtr..]).0) ==> d == x
    {
      var z, len := Unpack(data, getPtr, 5);
      getPtr := getPtr + len;
      var half: int := z / 2;
      d := if z % 2 == 1 then -half else half;
    }

    /** The next number of a run; a length of 0 wraps around. */
    method StepRun()
      requires Valid()
      modifies this`curRleCount, this`curId
      ensures Valid() && old(ToCome(curId, curRleDiff, RunLength(curRleCount), left)) == [curId] + Ahead()
    {
      StepOnce(curId, curRleDiff, RunLength(curRleCount), left);
      curRleCount := (curRleCount - 1) % WORD;
      curId := Move(curId, curRleDiff);
    }

    /** Moves to the next number; at the end of the stream it stays. */
    method Next()
      requires Valid()
      modifies this
      ensures Valid()
      ensures if old(Ahead()) == [] then Ahead() == [] && curId == old(curId)
              else old(Ahead()) == [curId] + Ahead()
    {
      var single := false;
      if curRleCount == 0 {
        if left != [] {
          NextCode(curId, curRleDiff, left);
          assert CodeOk(left[0]);
        }
        single := ReadCode();
      }
      if !single {
        StepRun();
      }
    }
  }

  lemma OneRead(values: seq<nat>, i: nat, x: nat, rest: seq<nat>)
    requires i < |values| && values[i..] == [x] + rest
    ensures values[..i] + [x] == values[..i + 1] && rest == values[i + 1..]
  {
    assert values[i..][0] == x && values[i..][1..] == rest;
  }

  /** Reads n numbers of a stream: they are those of its code words. */
  method ReadBack(data: seq<byte>, ghost codes: seq<Code>, n: nat) returns (read: seq<nat>)
    requires AtCodes(data, 0, codes) && n <= |AllValues(codes, 0)|
    ensures read == AllValues(codes, 0)[..n]
  {
    ghost var values := AllValues(codes, 0);
    var stream := new RleStream(data, codes);
    read := [];
    for i := 0 to n
      invariant fresh(stream) && stream.Valid()
      invariant read == values[..i] && stream.Ahead() == values[i..]
    {
      stream.Next();
      OneRead(values, i, stream.curId, stream.Ahead());
      read := read + [stream.curId];
    }
  }

  // ---- whole histories ----------------------------------------------------------------------

  datatype Call = Put(value: nat) | Checkpoint(value: nat) | Flush

  predicate Refused(c: Call, w: Tail) {
    c.Put? && !(-HALF <= c.value - w.prevId < HALF)
  }

  function Called(c: Call, w: Tail): Tail {
    match c
    case Put(v) =>
      var d := v - w.prevId;
      if Refused(c, w) then w else if d == w.diff then Tail(v, d, w.count + 1) else Tail(v, d, 1)
    case Checkpoint(v) => Tail(v, 0, 0)
    case Flush => Tail(w.prevId, 0, 0)
  }

  /** The numbers that are put and not refused. */
  function Accepted(calls: seq<Call>, w: Tail): seq<nat> {
    if calls == [] then [] else Taken(calls[0], w) + Accepted(calls[1..], Called(calls[0], w))
  }

  function Taken(c: Call, w: Tail): seq<nat> {
    if c.Flush? || Refused(c, w) then [] else [c.value]
  }

  /** No run has 2^30 numbers or more. */
  predicate ShortRuns(calls: seq<Call>, w: Tail) {
    w.count < WORD / 4 && (calls == [] || ShortRuns(calls[1..], Called(calls[0], w)))
  }

  predicate AllWords(calls: seq<Call>) {
    forall i :: 0 <= i < |calls| && !calls[i].Flush? ==> calls[i].value < WORD
  }

  method Perform(c: Call, creator: Creator)
    requires creator.Valid() && (!c.Flush? ==> c.value < WORD)
    modifies creator
    ensures creator.Valid()
    ensures creator.overlong <==> old(creator.overlong) || Called(c, old(creator.Pending())).count >= WORD / 4
    ensures !creator.overlong ==>
              && creator.Pending() == Called(c, old(creator.Pending()))
              && creator.values == old(creator.values) + Taken(c, old(creator.Pending()))
  {
    match c
    case Put(v) => var ok := creator.Put(v);
    case Checkpoint(v) => creator.Checkpoint(v);
    case Flush => creator.Flush();
  }

  /** Performs all calls and the flush at the end. */
  method Write(calls: seq<Call>) returns (creator: Creator)
    requires AllWords(calls)
    ensures fresh(creator) && creator.Valid() && creator.rleCount == 0
    ensures creator.overlong <==> !ShortRuns(calls, Tail(0, 0, 0))
    ensures !creator.overlong ==> creator.values == Accepted(calls, Tail(0, 0, 0))
  {
    creator := new Creator();
    ghost var all, start := Accepted(calls, Tail(0, 0, 0)), Tail(0, 0, 0);
    for i := 0 to |calls|
      invariant fresh(creator) && creator.Valid()
      invariant creator.overlong ==> !ShortRuns(calls, start)
      invariant !creator.overlong ==> creator.values + Accepted(calls[i..], creator.Pending()) == all
      invariant !creator.overlong ==> ShortRuns(calls, start) == ShortRuns(calls[i..], creator.Pending())
    {
      ghost var w, was, rest := creator.Pending(), creator.values, calls[i..];
      assert rest[0] == calls[i] && rest[1..] == calls[i + 1..];
      Perform(calls[i], creator);
      Regroup(was, Taken(calls[i], w), Accepted(calls[i + 1..], Called(calls[i], w)));
    }
    creator.Flush();
  }

  /** Reading a stream back gives the numbers put into it, for any calls without a run that is too long. */
  method RoundTrip(calls: seq<Call>, n: nat) returns (read: seq<nat>)
    requires AllWords(calls) && ShortRuns(calls, Tail(0, 0, 0)) && n == |Accepted(calls, Tail(0, 0, 0))|
    ensures read == Accepted(calls, Tail(0, 0, 0))
  {
    var creator := Write(calls);
    assert Steps(AllLast(creator.codes, 0), creator.rleDiff, 0) == [];
    read := ReadBack(creator.dest, creator.codes, n);
  }

  /** From a checkpoint on, the stream can be read without what comes before. */
  lemma FromCheckpoint(codes: seq<Code>, k: nat, cur: nat)
    requires k < |codes| && codes[k].Full?
    ensures var bytes, values := AllBytes(codes), AllValues(codes, 0);
            var at, skipped := |AllBytes(codes[..k])|, |AllValues(codes[..k], 0)|;
            && at <= |bytes| && bytes[at..] == AllBytes(codes[k..])
            && skipped <= |values| && values[skipped..] == AllValues(codes[k..], cur)
  {
    assert codes == codes[..k] + codes[k..];
    BytesJoin(codes[..k], codes[k..], BytesOf);
    ValuesJoin(codes[..k], codes[k..], 0);
    assert codes[k..][0] == codes[k];
  }
}
