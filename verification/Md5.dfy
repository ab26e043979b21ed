// MD5 (apps/vpu_stream.c): the incremental context against the one-shot digest
// of RFC 1321, sections 3.1 to 3.5.
module Md5 {

  type byte = bv8
  type word = bv32

  // ----- RFC 1321 -----

  datatype State = State(a: word, b: word, c: word, d: word)

  const INIT := State(0x67452301, 0xefcdab89, 0x98badcfe, 0x10325476)

  // Section 3.4: the table of sines, sixteen words a round.
  const T1: seq<word> := [
    0xd76aa478, 0xe8c7b756, 0x242070db, 0xc1bdceee, 0xf57c0faf, 0x4787c62a, 0xa8304613, 0xfd469501,
    0x698098d8, 0x8b44f7af, 0xffff5bb1, 0x895cd7be, 0x6b901122, 0xfd987193, 0xa679438e, 0x49b40821
  ]

  const T2: seq<word> := [
    0xf61e2562, 0xc040b340, 0x265e5a51, 0xe9b6c7aa, 0xd62f105d, 0x02441453, 0xd8a1e681, 0xe7d3fbc8,
    0x21e1cde6, 0xc33707d6, 0xf4d50d87, 0x455a14ed, 0xa9e3e905, 0xfcefa3f8, 0x676f02d9, 0x8d2a4c8a
  ]

  const T3: seq<word> := [
    0xfffa3942, 0x8771f681, 0x6d9d6122, 0xfde5380c, 0xa4beea44, 0x4bdecfa9, 0xf6bb4b60, 0xbebfbc70,
    0x289b7ec6, 0xeaa127fa, 0xd4ef3085, 0x04881d05, 0xd9d4d039, 0xe6db99e5, 0x1fa27cf8, 0xc4ac5665
  ]

  const T4: seq<word> := [
    0xf4292244, 0x432aff97, 0xab9423a7, 0xfc93a039, 0x655b59c3, 0x8f0ccc92, 0xffeff47d, 0x85845dd1,
    0x6fa87e4f, 0xfe2ce6e0, 0xa3014314, 0x4e0811a1, 0xf7537e82, 0xbd3af235, 0x2ad7d2bb, 0xeb86d391
  ]

  // The shift amounts of a round repeat every four steps.
  function Shift(i: nat): (s: nat)
    ensures 0 < s < 32
  {
    var j := i % 4;
    if i < 16 then [7, 12, 17, 22][j]
    else if i < 32 then [5, 9, 14, 20][j]
    else if i < 48 then [4, 11, 16, 23][j]
    else [6, 10, 15, 21][j]
  }

  function Rotate(v: word, s: nat): word
    requires 0 < s < 32
  {
    (v << s) | (v >> (32 - s))
  }

  // Section 3.4: the auxiliary functions, by round.
  function Mix(i: nat, x: word, y: word, z: word): word {
    if i < 16 then (x & y) | (!x & z)
    else if i < 32 then (x & z) | (y & !z)
    else if i < 48 then x ^ y ^ z
    else y ^ (x | !z)
  }

  // Which message word step i uses: rounds walk the block in strides of 1, 5, 3, 7.
  function Pick(i: nat): (k: nat)
    ensures k < 16
  {
    if i < 16 then i
    else if i < 32 then (1 + 5 * (i - 16)) % 16
    else if i < 48 then (5 + 3 * (i - 32)) % 16
    else (7 * (i - 48)) % 16
  }

  // a = b + ((a + Mix(b, c, d) + X[k] + T[i]) <<< s), then the registers rotate.
  function Op(st: State, x: seq<word>, i: nat): State
    requires |x| == 16 && i < 64
  {
    State(st.d, Turn(st.a, st.b, Mix(i, st.b, st.c, st.d), SineWord(i), x[Pick(i)], Shift(i)), st.b, st.c)
  }

  function Turn(a: word, b: word, f: word, t: word, x: word, s: nat): word
    requires 0 < s < 32
  {
    b + Rotate(a + f + t + x, s)
  }

  function Ops(st: State, x: seq<word>, n: nat): State
    requires |x| == 16 && n <= 64
  {
    if n == 0 then st else Op(Ops(st, x, n - 1), x, n - 1)
  }

  // Low-order byte first.
  function WordAt(p: seq<byte>, i: nat): word
    requires 4 * i + 4 <= |p|
  {
    p[4 * i] as word | (p[4 * i + 1] as word << 8) | (p[4 * i + 2] as word << 16) | (p[4 * i + 3] as word << 24)
  }

  function Words(p: seq<byte>): (x: seq<word>)
    requires |p| == 64
    ensures |x| == 16
  {
    seq(16, i requires 0 <= i < 16 => WordAt(p, i))
  }

  function Plus(s: State, t: State): State {
    State(s.a + t.a, s.b + t.b, s.c + t.c, s.d + t.d)
  }

  function Compress(st: State, block: seq<byte>): State
    requires |block| == 64
  {
    Plus(st, Ops(st, Words(block), 64))
  }

  // All whole blocks of data, in order.
  function Fold(st: State, data: seq<byte>): State
    decreases |data|
  {
    if |data| < 64 then st else Fold(Compress(st, data[..64]), data[64..])
  }

  function Zeros(n: nat): seq<byte> {
    seq(n, _ => 0)
  }

  const TWO64 := 0x1_0000_0000_0000_0000

  // Section 3.1: one bit, then zeros up to 8 bytes short of a block.
  function PadLength(n: nat): (k: nat)
    ensures 1 <= k <= 64 && (n + k) % 64 == 56
  {
    if n % 64 < 56 then 56 - n % 64 else 120 - n % 64
  }

  // Section 3.2: the low 64 bits of the bit count, low-order byte first.
  function LengthBytes(bits: nat): (r: seq<byte>)
    ensures |r| == 8
  {
    seq(8, i requires 0 <= i < 8 => ((bits / Pow256(i)) % 0x100) as byte)
  }

  function Pow256(i: nat): (p: nat)
    ensures p > 0
  {
    if i == 0 then 1 else 0x100 * Pow256(i - 1)
  }

  function Padding(n: nat): seq<byte> {
    [0x80] + Zeros(PadLength(n) - 1) + LengthBytes((8 * n) % TWO64)
  }

  function WordBytes(w: word): (r: seq<byte>)
    ensures |r| == 4
  {
    [(w & 0xff) as byte, ((w >> 8) & 0xff) as byte, ((w >> 16) & 0xff) as byte, ((w >> 24) & 0xff) as byte]
  }

  function Output(st: State): (r: seq<byte>)
    ensures |r| == 16
  {
    WordBytes(st.a) + WordBytes(st.b) + WordBytes(st.c) + WordBytes(st.d)
  }

  // The digest of a whole message.
  function Digest(msg: seq<byte>): seq<byte> {
    Output(Fold(INIT, msg + Padding(|msg|)))
  }

  // ----- Folding in pieces -----

  lemma {:induction false} FoldConcat(st: State, a: seq<byte>, b: seq<byte>)
    requires |a| % 64 == 0
    ensures Fold(st, a + b) == Fold(Fold(st, a), b)
    decreases |a|
  {
    if a == [] {
      assert a + b == b;
    } else {
      assert (a + b)[..64] == a[..64] && (a + b)[64..] == a[64..] + b;
      FoldConcat(Compress(st, a[..64]), a[64..], b);
    }
  }

  lemma FoldNext(st: State, data: seq<byte>, p: nat)
    requires p + 64 <= |data|
    ensures Fold(st, data[p..]) == Fold(Compress(st, data[p..p + 64]), data[p + 64..])
  {
    assert data[p..][..64] == data[p..p + 64] && data[p..][64..] == data[p + 64..];
  }

  lemma FoldFirst(st: State, block: seq<byte>, rest: seq<byte>)
    requires |block| == 64
    ensures Fold(st, block + rest) == Fold(Compress(st, block), rest)
  {
    hide Compress;
    assert (block + rest)[..64] == block && (block + rest)[64..] == rest;
  }

  lemma FoldDone(st: State, data: seq<byte>)
    requires |data| < 64
    ensures Fold(st, data) == st
  {
  }

  lemma {:induction false} FoldShort(st: State, a: seq<byte>, tail: seq<byte>)
    requires |a| % 64 == 0 && |tail| < 64
    ensures Fold(st, a + tail) == Fold(st, a)
  {
    FoldConcat(st, a, tail);
  }

  // ----- The implementation -----

  // The byte counter wraps at 2^64, a multiple of the block size.
  lemma CountModulo(n: nat, k: nat)
    ensures (n % TWO64) % 64 == n % 64
    ensures (n % TWO64 + k) % TWO64 == (n + k) % TWO64
  {
    var q, r := n / TWO64, n % TWO64;
    assert n == TWO64 * q + r;
    assert n == 64 * (0x400_0000_0000_0000 * q) + r;
  }

  lemma BitCount(n: nat)
    ensures (n % TWO64) * 8 % TWO64 == (8 * n) % TWO64
  {
    var q, r := n / TWO64, n % TWO64;
    assert 8 * n == TWO64 * (8 * q) + 8 * r;
  }

  // The bytes of a message that do not fill a block yet.
  function TailOf(msg: seq<byte>): (t: seq<byte>)
    ensures |t| == |msg| % 64
  {
    msg[|msg| - |msg| % 64..]
  }

  // Hashing on from a message is hashing its unfinished block and what follows.
  lemma Absorb(msg: seq<byte>, data: seq<byte>)
    ensures Fold(INIT, msg + data) == Fold(Fold(INIT, msg), TailOf(msg) + data)
  {
    hide Fold, Compress;
    var whole, tail := msg[..|msg| - |msg| % 64], TailOf(msg);
    assert msg == whole + tail;
    FoldShort(INIT, whole, tail);
    FoldConcat(INIT, whole, tail + data);
    assert msg + data == whole + (tail + data);
  }

  // What stays unfinished after more data depends on the unfinished block only.
  lemma NewTail(msg: seq<byte>, data: seq<byte>)
    ensures TailOf(msg + data) == TailOf(TailOf(msg) + data)
  {
  }

  lemma TailOfShort(t: seq<byte>)
    requires |t| < 64
    ensures TailOf(t) == t
  {
  }

  lemma TailOfLong(block: seq<byte>, rest: seq<byte>)
    requires |block| == 64
    ensures TailOf(block + rest) == TailOf(rest)
  {
  }

  // Data that does not fill the block.
  lemma StillShort(msg: seq<byte>, data: seq<byte>)
    requires |msg| % 64 + |data| < 64
    ensures Fold(INIT, msg + data) == Fold(INIT, msg) && TailOf(msg + data) == TailOf(msg) + data
  {
    hide Compress, Fold, TailOf;
    Absorb(msg, data);
    NewTail(msg, data);
    FoldDone(Fold(INIT, msg), TailOf(msg) + data);
    TailOfShort(TailOf(msg) + data);
  }

  // Data whose first p bytes fill it.
  lemma Filled(msg: seq<byte>, data: seq<byte>, p: nat)
    requires p <= |data| && |msg| % 64 + p == 64
    ensures Fold(INIT, msg + data) == Fold(Compress(Fold(INIT, msg), TailOf(msg) + data[..p]), data[p..])
    ensures TailOf(msg + data) == TailOf(data[p..])
  {
    hide Compress, Fold, TailOf;
    Absorb(msg, data);
    NewTail(msg, data);
    var block := TailOf(msg) + data[..p];
    assert data == data[..p] + data[p..];
    assert TailOf(msg) + data == block + data[p..];
    FoldFirst(Fold(INIT, msg), block, data[p..]);
    TailOfLong(block, data[p..]);
  }

  // Data after whole blocks only.
  lemma FromWhole(msg: seq<byte>, data: seq<byte>)
    requires |msg| % 64 == 0
    ensures Fold(INIT, msg + data) == Fold(Fold(INIT, msg), data)
    ensures TailOf(msg + data) == TailOf(data)
  {
    Absorb(msg, data);
    NewTail(msg, data);
    assert TailOf(msg) + data == data;
  }

  // The code writes the second round's function with its terms the other way round.
  lemma SecondRound(b: word, c: word, d: word)
    ensures (d & b) | (!d & c) == (b & d) | (c & !d)
  {
  }

  lemma SameModulo(a: int, b: int, k: int)
    requires a == b + 16 * k
    ensures a % 16 == b % 16
  {
  }

  lemma PickForms(i: nat)
    requires i < 64
    ensures 16 <= i < 32 ==> (5 * i + 1) % 16 == Pick(i)
    ensures 32 <= i < 48 ==> (3 * i + 5) % 16 == Pick(i)
    ensures 48 <= i ==> (7 * i) % 16 == Pick(i)
  {
    SameModulo(5 * i + 1, 1 + 5 * (i - 16), 5);
    SameModulo(3 * i + 5, 5 + 3 * (i - 32), 6);
    SameModulo(7 * i, 7 * (i - 48), 21);
  }

  function SineWord(i: nat): word
    requires i < 64
  {
    if i < 16 then T1[i] else if i < 32 then T2[i - 16] else if i < 48 then T3[i - 32] else T4[i - 48]
  }

  class Context {
    var st: State
    var bytes: nat               // uint64_t
    const buf: array<byte>
    ghost var msg: seq<byte>     // everything hashed so far

    ghost predicate Valid()
      reads this, buf
    {
      && buf.Length == 64
      && bytes == |msg| % TWO64
      && st == Fold(INIT, msg)
      && buf[..|msg| % 64] == TailOf(msg)
    }

    // md5_init.
    constructor ()
      ensures Valid() && msg == [] && fresh(buf)
    {
      st, bytes, msg := INIT, 0, [];
      buf := new byte[64](_ => 0);
    }

    // The first part of md5_update: top up a partly filled buffer.
    method TopUp(used0: nat, data: seq<byte>) returns (n: nat)
      requires buf.Length == 64 && 0 < used0 < 64
      modifies this`st, buf
      ensures n == if |data| < 64 - used0 then |data| else 64 - used0
      ensures var filled := old(buf[..used0]) + data[..n];
              if used0 + n < 64 then st == old(st) && buf[..used0 + n] == filled
              else st == Compress(old(st), filled)
    {
      hide Compress;
      var used := used0;
      n := 64 - used;
      if n > |data| {
        n := |data|;
      }
      forall i | 0 <= i < n {
        buf[used + i] := data[i];
      }
      ghost var filled := old(buf[..used0]) + data[..n];
      assert buf[..used + n] == filled;
      used := used + n;
      if used == 64 {
        assert buf[..] == filled;
        Block(buf[..]);
      }
    }

    // The second part: whole blocks straight from the input, then keep the rest.
    method Blocks(data: seq<byte>, p0: nat)
      requires buf.Length == 64 && p0 <= |data|
      modifies this`st, buf
      ensures st == Fold(old(st), data[p0..])
      ensures buf[..(|data| - p0) % 64] == TailOf(data[p0..])
      ensures p0 == |data| ==> buf[..] == old(buf[..])
    {
      hide Compress, Fold;
      var p := p0;
      while |data| - p >= 64
        invariant p0 <= p <= |data| && (p - p0) % 64 == 0 && buf[..] == old(buf[..])
        invariant Fold(st, data[p..]) == Fold(old(st), data[p0..])
      {
        FoldNext(st, data, p);
        Block(data[p..p + 64]);
        p := p + 64;
      }
      FoldDone(st, data[p..]);
      if |data| - p > 0 {
        forall i | 0 <= i < |data| - p {
          buf[i] := data[p + i];
        }
      }
      assert |data| - p == (|data| - p0) % 64;
    }

    // md5_update: hashing more data.
    method Update(data: seq<byte>)
      requires Valid()
      modifies this, buf
      ensures Valid() && msg == old(msg) + data
    {
      hide Fold, Compress, TailOf;
      CountModulo(|msg|, |data|);
      ghost var m := msg;
      var used := bytes % 64;
      bytes := (bytes + |data|) % TWO64;
      var p := 0;
      if used > 0 {
        p := TopUp(used, data);
        if used + p < 64 {
          StillShort(m, data);
          assert data[..p] == data && data[p..] == [];
          FoldDone(st, []);
        } else {
          Filled(m, data, p);
        }
      } else {
        FromWhole(m, data);
        assert data[0..] == data;
      }
      Blocks(data, p);
      msg := m + data;
      assert |msg| % 64 == |TailOf(msg)|;
    }

    // md5_final: pad, append the length, and write out the digest.
    method Final(out: array<byte>)
      requires Valid() && out.Length == 16 && out != buf
      modifies this, buf, out
      ensures Valid() && out[..] == Digest(old(msg))
    {
      hide Fold, Compress, TailOf, Zeros, LengthBytes, WordBytes;
      ghost var m := msg;
      CountModulo(|msg|, 0);
      BitCount(|msg|);
      var bits := bytes * 8 % TWO64;
      var used := bytes % 64;
      var padLen := if used < 56 then 56 - used else 120 - used;
      assert padLen == PadLength(|m|);
      Update([0x80] + Zeros(padLen - 1));
      Update(LengthBytes(bits));
      assert msg == m + Padding(|m|);
      var o := WordBytes(st.a) + WordBytes(st.b) + WordBytes(st.c) + WordBytes(st.d);
      Store(out, o);
    }

    // md5_block.
    method Block(p: seq<byte>)
      requires |p| == 64
      modifies this`st
      ensures st == Compress(old(st), p)
    {
      hide Ops, Words, Plus;
      var x := LoadWords(p);
      var t := Turns(st, x[..]);
      st := Plus(st, t);
    }
  }

  method Store(out: array<byte>, o: seq<byte>)
    requires out.Length == |o|
    modifies out
    ensures out[..] == o
  {
    forall i | 0 <= i < |o| {
      out[i] := o[i];
    }
  }

  // Its 64 steps.
  method Turns(st: State, x: seq<word>) returns (t: State)
    requires |x| == 16
    ensures t == Ops(st, x, 64)
  {
    hide Op;
    var a, b, c, d := st.a, st.b, st.c, st.d;
    var i := 0;
    while i < 64
      invariant 0 <= i <= 64
      invariant State(a, b, c, d) == Ops(st, x, i)
    {
      a, b, c, d := OneStep(a, b, c, d, x, i);
      i := i + 1;
    }
    t := State(a, b, c, d);
  }

  // The sixteen little-endian words of a block.
  method LoadWords(p: seq<byte>) returns (x: array<word>)
    requires |p| == 64
    ensures fresh(x) && x[..] == Words(p)
  {
    x := new word[16](_ => 0);
    ghost var ws := Words(p);
    var i := 0;
    while i < 16
      invariant 0 <= i <= 16
      invariant forall j :: 0 <= j < i ==> x[j] == ws[j]
    {
      x[i] := p[4 * i] as word | (p[4 * i + 1] as word << 8) | (p[4 * i + 2] as word << 16) | (p[4 * i + 3] as word << 24);
      i := i + 1;
    }
  }

  // One turn of the 64-step loop of md5_block.
  method OneStep(a0: word, b0: word, c0: word, d0: word, x: seq<word>, i: nat)
    returns (a: word, b: word, c: word, d: word)
    requires |x| == 16 && i < 64
    ensures State(a, b, c, d) == Op(State(a0, b0, c0, d0), x, i)
  {
    hide SineWord, Shift, Pick, Turn;
    var f, g;
    PickForms(i);
    if i < 16 {
      f := (b0 & c0) | (!b0 & d0);
      g := i;
      FirstPick(i);
    } else if i < 32 {
      SecondRound(b0, c0, d0);
      f := (d0 & b0) | (!d0 & c0);
      g := (5 * i + 1) % 16;
    } else if i < 48 {
      f := b0 ^ c0 ^ d0;
      g := (3 * i + 5) % 16;
    } else {
      f := c0 ^ (b0 | !d0);
      g := (7 * i) % 16;
    }
    assert f == Mix(i, b0, c0, d0);
    b := Turn(a0, b0, f, SineWord(i), x[g], Shift(i));
    a, c, d := d0, b0, c0;
  }

  lemma FirstPick(i: nat)
    ensures i < 16 ==> Pick(i) == i
  {
  }
}
