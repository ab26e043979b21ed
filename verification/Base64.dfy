// Base64 (apps/vpu_stream.c): the decoder and encoder against the numeral
// reading of RFC 4648, section 4. A run of six-bit digits is a number in base
// 64, a run of bytes is a number in base 256, and decoding drops the low bits
// that fill no whole byte.
module Base64 {
  import opened Octets
  import opened Ratio

  // ----- The alphabet -----

  // b64_value.
  function Digit(c: byte): (v: int)
    ensures -1 <= v < 64
  {
    if 65 <= c <= 90 then c - 65
    else if 97 <= c <= 122 then c - 97 + 26
    else if 48 <= c <= 57 then c - 48 + 52
    else if c == 43 then 62
    else if c == 47 then 63
    else -1
  }

  function Letter(v: nat): (c: byte)
    requires v < 64
    ensures Digit(c) == v && !Stops(c)
  {
    if v < 26 then 65 + v
    else if v < 52 then 97 + v - 26
    else if v < 62 then 48 + v - 52
    else if v == 62 then 43 else 47
  }

  const PAD: byte := 61

  // NUL, comma, semicolon, the line ends and the padding sign.
  predicate Stops(c: byte) {
    c == 0 || c == 44 || c == 59 || c == 13 || c == 10 || c == PAD
  }

  // ----- What a text stands for -----

  type digit = x: int | 0 <= x < 64

  // The digits of a text: up to the first stop, skipping everything foreign.
  function Digits(text: seq<byte>): seq<digit> {
    if text == [] || Stops(text[0]) then []
    else (if Digit(text[0]) < 0 then [] else [Digit(text[0])]) + Digits(text[1..])
  }

  function Value64(s: seq<digit>): nat {
    if s == [] then 0 else 64 * Value64(s[..|s| - 1]) + s[|s| - 1]
  }

  function Value256(s: seq<byte>): nat {
    if s == [] then 0 else 0x100 * Value256(s[..|s| - 1]) + s[|s| - 1]
  }

  // The number of bits beyond whole bytes after n digits, and what they weigh.
  function Spare(n: nat): (k: nat)
    ensures k == 0 || k == 2 || k == 4 || k == 6
  {
    6 * n % 8
  }

  function Weight(k: nat): (w: nat)
    ensures w > 0
  {
    if k == 0 then 1 else 2 * Weight(k - 1)
  }

  // The bytes a digit string decodes to: as many whole bytes as it has bits
  // for, holding its leading bits.
  predicate Decodes(s: seq<digit>, out: seq<byte>) {
    |out| == 6 * |s| / 8 && Value256(out) == Value64(s) / Weight(Spare(|s|))
  }

  lemma Value64Snoc(s: seq<digit>, d: digit)
    ensures Value64(s + [d]) == 64 * Value64(s) + d
  {
    assert (s + [d])[..|s|] == s;
  }

  lemma Value256Snoc(s: seq<byte>, b: byte)
    ensures Value256(s + [b]) == 0x100 * Value256(s) + b
  {
    assert (s + [b])[..|s|] == s;
  }

  // Equally long byte strings of equal value are equal.
  lemma {:induction false} Value256Injective(a: seq<byte>, b: seq<byte>)
    requires |a| == |b| && Value256(a) == Value256(b)
    ensures a == b
  {
    if a != [] {
      Value256Injective(a[..|a| - 1], b[..|b| - 1]);
      assert a == a[..|a| - 1] + [a[|a| - 1]] && b == b[..|b| - 1] + [b[|b| - 1]];
    }
  }

  // ----- Decoding -----

  // One digit more: the accumulator's low valb + 8 bits are the bits not yet written.
  ghost predicate Pending(s: seq<digit>, out: seq<byte>, val: nat, spare: nat) {
    && spare == Spare(|s|) && |out| == 6 * |s| / 8
    && Value64(s) == Value256(out) * Weight(spare) + val % Weight(spare)
  }

  lemma Weights()
    ensures Weight(0) == 1 && Weight(2) == 4 && Weight(4) == 16 && Weight(6) == 64
  {
    assert Weight(3) == 8 && Weight(5) == 32;
  }

  // Dropping a multiple of the modulus m changes nothing.
  lemma SameLow(x: nat, m: nat, k: nat, q: nat, v: nat)
    requires m > 0 && x == (k * m) * q + v
    ensures v % m == x % m
  {
    var t, r := v / m, v % m;
    assert v == t * m + r;
    assert (k * m) * q == (k * q) * m;
    MulDistr(k * q, t, m);
    DivModUnique(x, m, k * q + t, r);
  }

  // The accumulator wraps at 32 bits, which its low bits do not notice.
  lemma LowBits(val: nat, c: digit, spare: nat)
    requires spare == 0 || spare == 2 || spare == 4 || spare == 6
    ensures var w := Weight(spare);
            (val * 64 + c) % 0x1_0000_0000 % (64 * w) == val % w * 64 + c
  {
    var w, x := Weight(spare), val * 64 + c;
    var q, v := Wrapped(x);
    var k := if spare == 0 then 0x400_0000 else if spare == 2 then 0x100_0000 else if spare == 4 then 0x40_0000 else 0x10_0000;
    Weights();
    SameLow(x, 64 * w, k, q, v);
    hide Weight;
    LowSplit(val, w, c);
  }

  lemma LowSplit(val: nat, w: nat, c: digit)
    requires w > 0
    ensures (val * 64 + c) % (64 * w) == val % w * 64 + c
  {
    var t, r := Division(val, w);
    assert 64 * (t * w) == t * (64 * w);
    DivModUnique(val, w, t, r);
    DivModUnique(val * 64 + c, 64 * w, t, r * 64 + c);
  }

  lemma Wrapped(x: nat) returns (q: nat, v: nat)
    ensures v == x % 0x1_0000_0000 && x == 0x1_0000_0000 * q + v
  {
    q, v := x / 0x1_0000_0000, x % 0x1_0000_0000;
  }

  // The leading byte of what is pending, and the bits below it.
  lemma Leading(v: nat, spare: nat)
    requires spare == 2 || spare == 4 || spare == 6
    ensures var w := Weight(spare - 2);
            && v % (64 * Weight(spare)) == v / w % 0x100 * w + v % w
            && 64 * Weight(spare) == 0x100 * w
  {
    Weights();
    LeadingOf(v, Weight(spare - 2));
  }

  lemma LeadingOf(v: nat, w: nat)
    requires w > 0
    ensures v % (0x100 * w) == v / w % 0x100 * w + v % w
  {
    var t, r := Division(v, w);
    DivModUnique(v, w, t, r);
    var q, b := Division(t, 0x100);
    MulDistr(q * 0x100, b, w);
    MulAssoc(q, 0x100, w);
    MulDistr(255, b, w);
    assert b * w + r < 0x100 * w by {
      if b < 255 {
        MulSign(255 - b, w);
      }
    }
    DivModUnique(v, 0x100 * w, q, b * w + r);
  }

  lemma PendingStart()
    ensures Pending([], [], 0, 0)
  {
  }

  lemma PendingDone(s: seq<digit>, out: seq<byte>, val: nat, spare: nat)
    requires Pending(s, out, val, spare)
    ensures Decodes(s, out)
  {
    Weights();
  }

  // A digit that completes no byte.
  lemma PendingMore(s: seq<digit>, out: seq<byte>, val: nat, spare: nat, c: digit)
    requires Pending(s, out, val, spare) && spare == 0
    ensures Pending(s + [c], out, (val * 64 + c) % 0x1_0000_0000, 6)
  {
    Weights();
    LowBits(val, c, spare);
    Value64Snoc(s, c);
  }

  // A digit that completes one.
  lemma PendingByte(s: seq<digit>, out: seq<byte>, val: nat, spare: nat, c: digit)
    requires Pending(s, out, val, spare) && spare >= 2
    ensures var v := (val * 64 + c) % 0x1_0000_0000;
            Pending(s + [c], out + [v / Weight(spare - 2) % 0x100], v, spare - 2)
  {
    hide Weight, Value64, Value256;
    var v := (val * 64 + c) % 0x1_0000_0000;
    var b := v / Weight(spare - 2) % 0x100;
    LowBits(val, c, spare);
    Leading(v, spare);
    Value64Snoc(s, c);
    Value256Snoc(out, b);
    Regroup(Value256(out), Weight(spare), val % Weight(spare), c, b, Weight(spare - 2), v % Weight(spare - 2));
  }

  lemma Regroup(m: nat, w: nat, low: nat, c: nat, b: nat, u: nat, rest: nat)
    requires 64 * w == 0x100 * u && low * 64 + c == b * u + rest
    ensures 64 * (m * w + low) + c == (0x100 * m + b) * u + rest
  {
    assert 64 * (m * w) == m * (64 * w) == m * (0x100 * u) == (0x100 * m) * u;
    assert (0x100 * m + b) * u == (0x100 * m) * u + b * u;
  }

  // The decoder looks at one character.
  lemma DigitsStep(text: seq<byte>, s: seq<digit>, i: nat)
    requires i < |text| && !Stops(text[i]) && Digits(text) == s + Digits(text[i..])
    ensures Digits(text) == (if Digit(text[i]) < 0 then s else s + [Digit(text[i])]) + Digits(text[i + 1..])
  {
    assert text[i..][1..] == text[i + 1..];
  }

  // It stops at the end or at a stop character.
  lemma DigitsEnd(text: seq<byte>, i: nat)
    requires i <= |text| && (i == |text| || Stops(text[i]))
    ensures Digits(text[i..]) == []
  {
  }

  lemma MoreBits(s: seq<digit>, rest: seq<digit>)
    ensures 6 * |s| / 8 <= 6 * |s + rest| / 8
  {
  }

  // b64_decode: the decoded length, or -1 when the text decodes to more than
  // the buffer holds.
  method Decode(text: seq<byte>, out: array<byte>) returns (len: int)
    modifies out
    ensures var s := Digits(text);
            && (len >= 0 <==> 6 * |s| / 8 <= out.Length)
            && (len < 0 ==> len == -1)
            && (len >= 0 ==> len <= out.Length && Decodes(s, out[..len]) && out[len..] == old(out[len..]))
  {
    hide Weight, Value64, Value256, Digits, Decodes;
    var val, valb := 0, -8;
    len := 0;
    var i := 0;
    ghost var s: seq<digit> := [];
    assert text[0..] == text;
    PendingStart();
    while i < |text| && !Stops(text[i])
      invariant 0 <= i <= |text| && 0 <= len <= out.Length && -8 <= valb < 0 && 0 <= val < 0x1_0000_0000
      invariant Digits(text) == s + Digits(text[i..])
      invariant Pending(s, out[..len], val, valb + 8)
      invariant out[len..] == old(out[len..])
    {
      var c := Digit(text[i]);
      DigitsStep(text, s, i);
      if c >= 0 {
        ghost var before, was := val, out[..len];
        val := (val * 64 + c) % 0x1_0000_0000;
        valb := valb + 6;
        if valb >= 0 {
          PendingByte(s, was, before, valb + 2, c);
          s := s + [c];
          if len >= out.Length {
            MoreBits(s, Digits(text[i + 1..]));
            return -1;
          }
          out[len] := val / Weight(valb) % 0x100;
          len := len + 1;
          valb := valb - 8;
          assert out[..len] == was + [val / Weight(valb + 8) % 0x100];
        } else {
          PendingMore(s, was, before, 0, c);
          s := s + [c];
        }
      }
      i := i + 1;
    }
    DigitsEnd(text, i);
    assert Digits(text) == s;
    PendingDone(s, out[..len], val, valb + 8);
  }

  // ----- Encoding -----

  // The four letters of a group of up to three bytes.
  function Group(g: seq<byte>): (t: seq<byte>)
    requires 1 <= |g| <= 3
    ensures |t| == 4
  {
    var b0, b1, b2 := g[0], if |g| > 1 then g[1] else 0, if |g| > 2 then g[2] else 0;
    [ Letter(b0 / 4), Letter(b0 % 4 * 16 + b1 / 16),
      if |g| > 1 then Letter(b1 % 16 * 4 + b2 / 64) else PAD,
      if |g| > 2 then Letter(b2 % 64) else PAD ]
  }

  // Section 4 of RFC 4648.
  function Encoded(s: seq<byte>): (t: seq<byte>)
    ensures |t| == 4 * ((|s| + 2) / 3)
  {
    if s == [] then [] else if |s| <= 3 then Group(s) else Group(s[..3]) + Encoded(s[3..])
  }

  // The digits of a group, before any padding.
  function GroupOf(g: seq<byte>): (s: seq<digit>)
    requires 1 <= |g| <= 3
    ensures |s| == |g| + 1
  {
    var t := Group(g);
    if |g| == 1 then [Digit(t[0]), Digit(t[1])]
    else if |g| == 2 then [Digit(t[0]), Digit(t[1]), Digit(t[2])]
    else [Digit(t[0]), Digit(t[1]), Digit(t[2]), Digit(t[3])]
  }

  lemma DigitsLetter(c: byte, rest: seq<byte>)
    requires !Stops(c) && Digit(c) >= 0
    ensures Digits([c] + rest) == [Digit(c)] + Digits(rest)
  {
    assert ([c] + rest)[1..] == rest;
  }

  lemma DigitsPad(rest: seq<byte>)
    ensures Digits([PAD] + rest) == []
  {
  }

  // Padding ends the text; a full group lets it go on.
  lemma GroupDigits(g: seq<byte>, rest: seq<byte>)
    requires 1 <= |g| <= 3
    ensures Digits(Group(g) + rest) == GroupOf(g) + (if |g| == 3 then Digits(rest) else [])
  {
    hide Digits, Letter, Digit;
    var t := Group(g);
    var t3 := [t[3]] + rest;
    var t2 := [t[2]] + t3;
    var t1 := [t[1]] + t2;
    assert t + rest == [t[0]] + t1;
    DigitsLetter(t[0], t1);
    DigitsLetter(t[1], t2);
    if |g| == 1 {
      DigitsPad(t3);
    } else {
      DigitsLetter(t[2], t3);
      if |g| == 2 {
        DigitsPad(rest);
      } else {
        DigitsLetter(t[3], rest);
      }
    }
  }

  // Whole groups leave no padding behind, so text may follow them.
  lemma {:induction false} EncodedConcat(a: seq<byte>, b: seq<byte>)
    requires |a| % 3 == 0
    ensures Encoded(a + b) == Encoded(a) + Encoded(b)
  {
    hide Group;
    if a == [] {
      assert a + b == b;
    } else {
      EncodedConcat(a[3..], b);
      assert (a + b)[..3] == a[..3] && (a + b)[3..] == a[3..] + b;
      EncodedStep(a);
      EncodedStep(a + b);
    }
  }

  lemma EncodedGroup(g: seq<byte>)
    requires 1 <= |g| <= 3
    ensures Encoded(g) == Group(g)
  {
    hide Group;
  }

  lemma EncodedNone()
    ensures Encoded([]) == []
  {
  }

  lemma EncodedStep(s: seq<byte>)
    requires |s| >= 3
    ensures Encoded(s) == Group(s[..3]) + Encoded(s[3..])
  {
    hide Group;
    if |s| == 3 {
      assert s[..3] == s && s[3..] == [];
    }
  }

  lemma {:induction false} DigitsWhole(a: seq<byte>, rest: seq<byte>)
    requires |a| % 3 == 0
    ensures Digits(Encoded(a) + rest) == Digits(Encoded(a)) + Digits(rest)
  {
    hide Digits, Group, GroupOf;
    if a == [] {
      assert Encoded(a) + rest == rest;
      assert Digits([]) == [] by { DigitsEnd([], 0); }
    } else {
      EncodedStep(a);
      var g, more := Group(a[..3]), Encoded(a[3..]);
      GroupDigits(a[..3], more + rest);
      GroupDigits(a[..3], more);
      assert Encoded(a) + rest == g + (more + rest);
      DigitsWhole(a[3..], rest);
    }
  }

  // Adding a group at the end.
  lemma LastGroup(a: seq<byte>, g: seq<byte>)
    requires |a| % 3 == 0 && 1 <= |g| <= 3
    ensures Digits(Encoded(a + g)) == Digits(Encoded(a)) + GroupOf(g)
  {
    hide Digits, Group, GroupOf;
    EncodedConcat(a, g);
    DigitsWhole(a, Encoded(g));
    EncodedGroup(g);
    assert Group(g) + [] == Group(g);
    GroupDigits(g, []);
    assert Digits([]) == [] by { DigitsEnd([], 0); }
  }

  // What a group adds to the value of the digits and of the bytes before it.
  lemma GroupValue(s: seq<digit>, a: seq<byte>, g: seq<byte>)
    requires 1 <= |g| <= 3 && Value64(s) == Value256(a)
    ensures |g| == 1 ==> Value64(s + GroupOf(g)) == 16 * Value256(a + g)
    ensures |g| == 2 ==> Value64(s + GroupOf(g)) == 4 * Value256(a + g)
    ensures |g| == 3 ==> Value64(s + GroupOf(g)) == Value256(a + g)
  {
    hide Value64, Value256, Digit, Letter;
    var t := GroupOf(g);
    var v0 := Value256(a);
    Value64Snoc(s, t[0]);
    Value64Snoc(s + [t[0]], t[1]);
    Value256Snoc(a, g[0]);
    if |g| == 1 {
      assert s + t == s + [t[0]] + [t[1]] && a + g == a + [g[0]];
    } else {
      Value64Snoc(s + [t[0]] + [t[1]], t[2]);
      Value256Snoc(a + [g[0]], g[1]);
      if |g| == 2 {
        assert s + t == s + [t[0]] + [t[1]] + [t[2]] && a + g == a + [g[0]] + [g[1]];
      } else {
        Value64Snoc(s + [t[0]] + [t[1]] + [t[2]], t[3]);
        Value256Snoc(a + [g[0]] + [g[1]], g[2]);
        assert s + t == s + [t[0]] + [t[1]] + [t[2]] + [t[3]] && a + g == a + [g[0]] + [g[1]] + [g[2]];
      }
    }
  }

  // Whole groups carry the value of their bytes unchanged.
  lemma {:induction false} WholeValue(a: seq<byte>)
    requires |a| % 3 == 0
    ensures var s := Digits(Encoded(a)); 3 * |s| == 4 * |a| && Value64(s) == Value256(a)
  {
    hide Digits, GroupOf;
    if a == [] {
      assert Digits([]) == [] by { DigitsEnd([], 0); }
    } else {
      var front, g := a[..|a| - 3], a[|a| - 3..];
      assert a == front + g;
      WholeValue(front);
      LastGroup(front, g);
      GroupValue(Digits(Encoded(front)), front, g);
    }
  }

  // Decoding what was encoded gives back the bytes, and nothing else does.
  lemma RoundTrip(s: seq<byte>, out: seq<byte>)
    ensures Decodes(Digits(Encoded(s)), out) <==> out == s
  {
    hide Digits, GroupOf, Encoded, Value64, Value256, Spare;
    var n := |s| - |s| % 3;
    var a, g := s[..n], s[n..];
    assert s == a + g;
    WholeValue(a);
    Weights();
    Count(n, |g|);
    if g != [] {
      LastGroup(a, g);
      GroupValue(Digits(Encoded(a)), a, g);
    } else {
      assert s == a;
    }
    if Decodes(Digits(Encoded(s)), out) {
      Value256Injective(s, out);
    }
  }

  lemma Count(n: nat, r: nat)
    requires n % 3 == 0 && r < 3
    ensures r == 0 ==> 6 * (4 * n / 3) / 8 == n && Spare(4 * n / 3) == 0
    ensures r == 1 ==> 6 * (4 * n / 3 + 2) / 8 == n + 1 && Spare(4 * n / 3 + 2) == 4
    ensures r == 2 ==> 6 * (4 * n / 3 + 3) / 8 == n + 2 && Spare(4 * n / 3 + 3) == 2
  {
    var k := n / 3;
    assert n == 3 * k;
  }

  // How many bytes of an n-byte string fit, with the final NUL, in max characters.
  function Fits(n: nat, max: nat): (m: nat)
    requires max > 0
    ensures m <= n
  {
    var whole := 3 * ((max - 1) / 4);
    if n <= whole then n else whole
  }

  // Four six-bit pieces of a 24-bit group.
  lemma Pieces(b0: byte, b1: byte, b2: byte)
    ensures var v := b0 * 0x1_0000 + b1 * 0x100 + b2;
            && v / 0x4_0000 % 64 == b0 / 4
            && v / 0x1000 % 64 == b0 % 4 * 16 + b1 / 16
            && v / 64 % 64 == b1 % 16 * 4 + b2 / 64
            && v % 64 == b2 % 64
  {
    PiecesOf(b0 / 4, b0 % 4 * 16 + b1 / 16, b1 % 16 * 4 + b2 / 64, b2 % 64);
  }

  lemma PiecesOf(a: digit, b: digit, c: digit, d: digit)
    ensures var v := a * 0x4_0000 + b * 0x1000 + c * 64 + d;
            v / 0x4_0000 % 64 == a && v / 0x1000 % 64 == b && v / 64 % 64 == c && v % 64 == d
  {
    var v := a * 0x4_0000 + b * 0x1000 + c * 64 + d;
    DivModUnique(v, 64, a * 0x1000 + b * 64 + c, d);
    DivModUnique(v, 0x1000, a * 64 + b, c * 64 + d);
    DivModUnique(v, 0x4_0000, a, b * 0x1000 + c * 64 + d);
    DivModUnique(a * 64 + b, 64, a, b);
    DivModUnique(a * 0x1000 + b * 64 + c, 64, a * 64 + b, c);
  }

  // The group of text starting at i.
  function GroupAt(text: seq<byte>, i: nat): (g: seq<byte>)
    requires i < |text|
    ensures 1 <= |g| <= 3
  {
    if |text| - i >= 3 then text[i..i + 3] else text[i..]
  }

  lemma GroupBytes(text: seq<byte>, i: nat)
    requires i < |text|
    ensures var g, rem := GroupAt(text, i), |text| - i;
            && |g| == (if rem > 3 then 3 else rem) && g[0] == text[i]
            && (rem > 1 ==> g[1] == text[i + 1]) && (rem > 2 ==> g[2] == text[i + 2])
  {
  }

  // The 24-bit value of one turn of the encoding loop.
  method Join(text: seq<byte>, i: nat) returns (v: nat)
    requires i < |text|
    ensures var g := GroupAt(text, i);
            v == g[0] as int * 0x1_0000 + (if |g| > 1 then g[1] as int * 0x100 else 0) + if |g| > 2 then g[2] as int else 0
  {
    hide GroupAt;
    GroupBytes(text, i);
    var rem := |text| - i;
    v := text[i] as int * 0x1_0000;
    if rem > 1 {
      v := v + text[i + 1] as int * 0x100;
    }
    if rem > 2 {
      v := v + text[i + 2];
    }
  }

  // Its letters.
  method Four(text: seq<byte>, i: nat) returns (t0: byte, t1: byte, t2: byte, t3: byte)
    requires i < |text|
    ensures [t0, t1, t2, t3] == Group(GroupAt(text, i))
  {
    hide Letter, GroupAt;
    GroupBytes(text, i);
    ghost var g := GroupAt(text, i);
    Pieces(g[0], if |g| > 1 then g[1] else 0, if |g| > 2 then g[2] else 0);
    var rem := |text| - i;
    var v := Join(text, i);
    t0 := Letter(v / 0x4_0000 % 64);
    t1 := Letter(v / 0x1000 % 64);
    t2 := if rem > 1 then Letter(v / 64 % 64) else PAD;
    t3 := if rem > 2 then Letter(v % 64) else PAD;
  }

  // The text that has been encoded after i / 3 groups.
  function Done(text: seq<byte>, i: nat): seq<byte> {
    if i <= |text| then text[..i] else text
  }

  lemma DoneNext(text: seq<byte>, i: nat)
    requires i % 3 == 0 && i < |text|
    ensures Encoded(Done(text, i + 3)) == Encoded(Done(text, i)) + Group(GroupAt(text, i))
  {
    hide Group, Encoded;
    var g := GroupAt(text, i);
    EncodedConcat(text[..i], g);
    assert Done(text, i + 3) == text[..i] + g;
    assert Encoded(g) == Group(g) by { EncodedGroup(g); }
  }

  // b64_encode_basic: whole groups while there is room for one and the NUL.
  method Encode(text: seq<byte>, out: array<byte>) returns (o: nat)
    requires out.Length > 0
    modifies out
    ensures var t := Encoded(text[..Fits(|text|, out.Length)]);
            o == |t| < out.Length && out[..o] == t && out[o] == 0
  {
    hide Encoded, Group, GroupAt, Done;
    o := 0;
    var i := 0;
    EncodedNone();
    DoneNone(text);
    while i < |text| && o + 4 < out.Length
      invariant i % 3 == 0 && 3 * o == 4 * i && i < |text| + 3 && o < out.Length
      invariant out[..o] == Encoded(Done(text, i))
    {
      ghost var sofar := out[..o];
      DoneNext(text, i);
      out[o], out[o + 1], out[o + 2], out[o + 3] := Four(text, i);
      assert out[..o + 4] == sofar + [out[o], out[o + 1], out[o + 2], out[o + 3]];
      o := o + 4;
      i := i + 3;
    }
    FitsDone(text, out.Length, i);
    assert |Encoded(Done(text, i))| == o;
    ghost var t := out[..o];
    out[o] := 0;
    assert out[..o] == t;
  }

  lemma DoneNone(text: seq<byte>)
    ensures Done(text, 0) == []
  {
  }

  lemma FitsDone(text: seq<byte>, max: nat, i: nat)
    requires max > 0 && i % 3 == 0 && i < |text| + 3 && 4 * (i / 3) < max
    requires i >= |text| || 4 * (i / 3) + 4 >= max
    ensures Done(text, i) == text[..Fits(|text|, max)]
  {
  }

  // Nothing is lost exactly when the buffer holds the padded text and its NUL.
  lemma FitsWhole(n: nat, max: nat)
    requires max > 0
    ensures Fits(n, max) == n <==> 4 * ((n + 2) / 3) < max
  {
    var k, q := (n + 2) / 3, (max - 1) / 4;
    assert k <= q <==> n <= 3 * q;
  }

  // What follows a NUL, a comma, a semicolon, a line end or the padding is not looked at.
  lemma {:induction false} DigitsStop(t: seq<byte>, c: byte, rest: seq<byte>)
    requires c == 0 || c as char == ',' || c as char == ';' || c as char == '\r' || c as char == '\n' || c as char == '='
    ensures Digits(t + [c] + rest) == Digits(t)
  {
    var whole := t + [c] + rest;
    if t != [] && !Stops(t[0]) {
      assert whole[1..] == t[1..] + [c] + rest;
      DigitsStop(t[1..], c, rest);
    }
  }

  // Anything else that is no letter is passed over.
  lemma {:induction false} DigitsSkip(t: seq<byte>, c: byte, rest: seq<byte>)
    requires Alphabet(c as char) < 0 && c != 0 && c as char !in {',', ';', '\r', '\n', '='}
    ensures Digits(t + [c] + rest) == Digits(t + rest)
  {
    var whole := t + [c] + rest;
    AlphabetDigits(c);
    if t == [] {
      assert whole[1..] == t + rest == rest;
    } else if !Stops(t[0]) {
      assert whole[1..] == t[1..] + [c] + rest && (t + rest)[1..] == t[1..] + rest;
      DigitsSkip(t[1..], c, rest);
    }
  }

  // The alphabet of RFC 4648, section 4, by its characters.
  function Alphabet(c: char): int {
    if 'A' <= c <= 'Z' then c as int - 'A' as int
    else if 'a' <= c <= 'z' then 26 + c as int - 'a' as int
    else if '0' <= c <= '9' then 52 + c as int - '0' as int
    else if c == '+' then 62
    else if c == '/' then 63
    else -1
  }

  lemma AlphabetDigits(c: byte)
    ensures Digit(c) == Alphabet(c as char)
    ensures Digit(c) >= 0 ==> Letter(Digit(c)) == c
  {
  }

  // The test vectors of RFC 4648, section 10: "foobar", "fooba" and "foob" are encoded
  // as "Zm9vYmFy", "Zm9vYmE=" and "Zm9vYg==".
  lemma Vectors()
    ensures Encoded(['f' as int, 'o' as int, 'o' as int, 'b' as int, 'a' as int, 'r' as int])
            == ['Z' as int, 'm' as int, '9' as int, 'v' as int, 'Y' as int, 'm' as int, 'F' as int, 'y' as int]
    ensures Encoded(['f' as int, 'o' as int, 'o' as int, 'b' as int, 'a' as int])
            == ['Z' as int, 'm' as int, '9' as int, 'v' as int, 'Y' as int, 'm' as int, 'E' as int, '=' as int]
    ensures Encoded(['f' as int, 'o' as int, 'o' as int, 'b' as int])
            == ['Z' as int, 'm' as int, '9' as int, 'v' as int, 'Y' as int, 'g' as int, '=' as int, '=' as int]
  {
    hide Group, Encoded;
    Groups();
    var foo: seq<byte>, bar: seq<byte>, ba: seq<byte>, b: seq<byte> := [102, 111, 111], [98, 97, 114], [98, 97], [98];
    EncodedConcat(foo, bar);
    EncodedConcat(foo, ba);
    EncodedConcat(foo, b);
    EncodedGroup(foo);
    EncodedGroup(bar);
    EncodedGroup(ba);
    EncodedGroup(b);
    assert foo + bar == [102, 111, 111, 98, 97, 114] && foo + ba == [102, 111, 111, 98, 97] && foo + b == [102, 111, 111, 98];
  }

  lemma Groups()
    ensures Group([102, 111, 111]) == [90, 109, 57, 118] && Group([98, 97, 114]) == [89, 109, 70, 121]
    ensures Group([98, 97]) == [89, 109, 69, 61] && Group([98]) == [89, 103, 61, 61]
  {
  }

  // Encoding into one buffer and decoding that into another gives back as much of
  // the text as has fitted the first, if that fits the second; all of it exactly
  // when the first holds the padded text and its NUL.
  method ThereAndBack(text: seq<byte>, enc: array<byte>, out: array<byte>) returns (len: int)
    requires enc.Length > 0 && enc != out
    modifies enc, out
    ensures var n := Fits(|text|, enc.Length);
            && len == (if n <= out.Length then n else -1)
            && (len >= 0 ==> out[..len] == text[..len] && out[len..] == old(out[len..]))
            && (n == |text| <==> 4 * ((|text| + 2) / 3) < enc.Length)
  {
    hide Digits, Encoded, Fits, Decodes;
    var o := Encode(text, enc);
    ghost var sent := text[..Fits(|text|, enc.Length)];
    assert enc[..] == enc[..o] + [0] + enc[o + 1..];
    DigitsStop(enc[..o], 0, enc[o + 1..]);
    RoundTrip(sent, sent);
    DecodedLength(Digits(Encoded(sent)), sent);
    len := Decode(enc[..], out);
    if len >= 0 {
      RoundTrip(sent, out[..len]);
    }
    FitsWhole(|text|, enc.Length);
  }

  lemma DecodedLength(s: seq<digit>, out: seq<byte>)
    requires Decodes(s, out)
    ensures |out| == 6 * |s| / 8
  {
  }
}
