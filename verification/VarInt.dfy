/** Numbers of variable length: seven bits to a byte, the high bit set on all bytes but the last
    (section 7.6 of DWARF 5).  Signed numbers carry their sign in the lowest bit, so that small
    numbers of either sign stay short. */
module VarInt {
  import opened Basics

  function Packed(n: nat): (r: seq<byte>)
    ensures r != []
  {
    if n < 128 then [n] else [n % 128 + 128] + Packed(n / 128)
  }

  function Zigzag(d: int): nat {
    if d < 0 then 2 * -d + 1 else 2 * d
  }

  /** The lowest bit is set for negative numbers only, and the bits above it hold the absolute value. */
  lemma ZigzagBits(d: int)
    ensures Zigzag(d) % 2 == 1 <==> d < 0
    ensures Zigzag(d) / 2 == if d < 0 then -d else d
  {
  }

  function PackedSigned(d: int): (r: seq<byte>)
    ensures r != []
  {
    Packed(Zigzag(d))
  }

  function Pow128(n: nat): (r: nat)
    ensures r > 0
  {
    if n == 0 then 1 else 128 * Pow128(n - 1)
  }

  lemma {:induction false} PackedLength(n: nat, k: nat)
    requires n < Pow128(k) && k > 0
    ensures |Packed(n)| <= k
  {
    if n >= 128 {
      PackedLength(n / 128, k - 1);
    }
  }

  /** The number of bytes that a number needs, as the source finds it: by comparison with powers. */
  method LengthOf(s: nat, maxLen: nat) returns (len: nat)
    requires maxLen > 0 && s < Pow128(maxLen)
    ensures len == |Packed(s)| <= maxLen
  {
    var rest: nat := s / 128;
    len := 1;
    while len < maxLen && rest != 0
      invariant 1 <= len <= maxLen
      invariant rest < Pow128(maxLen - len)
      invariant |Packed(s)| == len + if rest == 0 then 0 else |Packed(rest)|
      decreases maxLen - len
    {
      rest := rest / 128;
      len := len + 1;
    }
  }

  /** Writes s behind `begin`; the negative length is the answer when there is not enough room. */
  method Pack(s: nat, d: array<byte>, begin: nat, end: nat, maxLen: nat) returns (r: int)
    requires begin <= end <= d.Length && maxLen > 0 && s < Pow128(maxLen)
    modifies d
    ensures if |Packed(s)| <= end - begin
            then r == |Packed(s)| && d[..] == old(d[..begin]) + Packed(s) + old(d[begin + |Packed(s)|..])
            else r == -|Packed(s)| && d[..] == old(d[..])
  {
    var len: int := LengthOf(s, maxLen);
    if end - begin < len {
      r := -len;
    } else {
      PackGroups(s, d, begin, len);
      r := len;
    }
  }

  method PackGroups(s: nat, d: array<byte>, begin: nat, len: nat)
    requires len == |Packed(s)| && begin + len <= d.Length
    modifies d
    ensures d[..] == old(d[..begin]) + Packed(s) + old(d[begin + len..])
  {
    var rest: nat, i: nat := s, 0;
    ghost var pre, w: seq<byte>, post := d[..begin], [], d[begin..];
    assert d[..] == pre + w + post;
    while i < len - 1
      invariant 0 <= i <= len - 1 && |w| == i && |pre| == begin && post == old(d[begin + i..])
      invariant d[..] == pre + w + post && w + Packed(rest) == Packed(s)
    {
      var b: byte := rest % 128 + 128;
      GroupAhead(w, rest, Packed(s), len);
      PutByte(d, begin + i, b, pre, w, post);
      w, post, i := w + [b], post[1..], i + 1;
      rest := rest / 128;
    }
    GroupAhead(w, rest, Packed(s), len);
    PutByte(d, begin + i, rest % 128, pre, w, post);
  }

  lemma GroupAhead(w: seq<byte>, rest: nat, all: seq<byte>, len: nat)
    requires w + Packed(rest) == all && |all| == len
    ensures |w| < len - 1 ==> rest >= 128 && (w + [rest % 128 + 128]) + Packed(rest / 128) == all
    ensures |w| == len - 1 ==> rest < 128 && w + [rest % 128] == all
  {
    if rest >= 128 {
      assert (w + [rest % 128 + 128]) + Packed(rest / 128) == w + ([rest % 128 + 128] + Packed(rest / 128));
    }
  }

  method PutByte(d: array<byte>, at: nat, b: byte, ghost pre: seq<byte>, ghost w: seq<byte>, ghost post: seq<byte>)
    requires at == |pre| + |w| < d.Length && d[..] == pre + w + post
    modifies d
    ensures d[..] == pre + (w + [b]) + post[1..]
  {
    PutAt(pre, w, post, b);
    d[at] := b;
  }

  lemma PutAt(pre: seq<byte>, w: seq<byte>, post: seq<byte>, x: byte)
    requires post != []
    ensures (pre + w + post)[|pre| + |w| := x] == pre + (w + [x]) + post[1..]
  {
  }

  /** The number at the front of s and its length, if it is complete. */
  function Unpacked(s: seq<byte>): (r: (nat, nat))
    ensures r.1 <= |s|
  {
    if s == [] then (0, 0)
    else if s[0] < 128 then (s[0], 1)
    else
      var rest := Unpacked(s[1..]);
      if rest.1 == 0 then (0, 0) else (s[0] - 128 + 128 * rest.0, rest.1 + 1)
  }

  lemma {:induction false} UnpackPacked(n: nat, rest: seq<byte>)
    ensures Unpacked(Packed(n) + rest) == (n, |Packed(n)|)
  {
    var s := Packed(n) + rest;
    if n >= 128 {
      UnpackPacked(n / 128, rest);
      assert s[1..] == Packed(n / 128) + rest;
    }
  }

  /** x shifted up by n groups of bits. */
  function Scaled(n: nat, x: nat): nat {
    if n == 0 then x else 128 * Scaled(n - 1, x)
  }

  lemma {:induction false} ScaledSum(n: nat, b: nat, v: nat)
    ensures Scaled(n, b + 128 * v) == Scaled(n, b) + Scaled(n + 1, v)
  {
    if n > 0 {
      ScaledSum(n - 1, b, v);
    }
  }

  /** What is read, when `value` is read from n bytes so far and the rest begins with u. */
  function ReadOn(value: nat, n: nat, u: (nat, nat)): (nat, nat) {
    if u.1 == 0 then (0, 0) else (value + Scaled(n, u.0), n + u.1)
  }

  lemma ReadOnNext(value: nat, n: nat, s: seq<byte>)
    requires s != []
    ensures s[0] < 128 ==> ReadOn(value, n, Unpacked(s)) == (value + Scaled(n, s[0]), n + 1)
    ensures s[0] >= 128 ==> ReadOn(value, n, Unpacked(s))
                            == ReadOn(value + Scaled(n, s[0] - 128), n + 1, Unpacked(s[1..]))
  {
    if s[0] >= 128 {
      ScaledSum(n, s[0] - 128, Unpacked(s[1..]).0);
    }
  }

  /** Reads a number of at most maxLen bytes; the length is not positive when the bytes end before it does. */
  method Unpack(s: seq<byte>, begin: nat, maxLen: nat) returns (value: nat, len: int)
    requires begin <= |s| && maxLen > 0
    ensures begin + len <= |s|
    ensures 0 < Unpacked(s[begin..]).1 <= maxLen ==> (value, len) == Unpacked(s[begin..])
    ensures |s| - begin < maxLen && Unpacked(s[begin..]).1 == 0 ==> len <= 0
  {
    var n: nat, more := 0, true;
    value := 0;
    while n < maxLen && more && begin + n < |s|
      invariant n <= maxLen && begin + n <= |s|
      invariant if more then Unpacked(s[begin..]) == ReadOn(value, n, Unpacked(s[begin + n..]))
                else Unpacked(s[begin..]) == (value, n) && n > 0
      decreases |s| - begin - n
    {
      var b := s[begin + n];
      assert s[begin + n..][1..] == s[begin + n + 1..];
      ReadOnNext(value, n, s[begin + n..]);
      more := b >= 128;
      value := value + Scaled(n, b % 128);
      n := n + 1;
    }
    len := if more && n < maxLen then -(n as int) else n;
  }
}
