// The eMMA post-processor resize table (kernel/mxc_vpu.c): a 40-word
// coefficient table filled by three DDA loops.  Each loop is proved against a
// closed form of the sampling grid it walks, so the table is known to encode
// the exact input:output ratio.
module PpResize {
  import opened Ratio

  const PP_TBL_MAX := 40
  const ENOSPC := -28
  const EOPNOTSUPP := -95

  type pos = x: int | x > 0 witness 1
  type u16 = x: int | 0 <= x < 0x10000

  // One output pixel: weight coeff/base for its left neighbour, then `advance`
  // input pixels to step over.
  datatype Tap = Tap(coeff: int, base: pos, advance: int)

  // ----- The sampling grid, in closed form -----

  // Output i of an enlargement starts at input position i*inv/outv.
  function UpTap(inv: pos, outv: pos, i: int): Tap {
    Tap(outv - (i * inv) % outv, outv, ((i + 1) * inv) / outv - (i * inv) / outv)
  }

  // Pixel centres sit at odd multiples: output i is centred at (2i+1)*inv on a
  // grid where input N is centred at (2N+1)*outv.
  function Left(inv: pos, outv: pos, i: int): int {
    (2 * (i * inv) + inv - outv - 1) / (2 * outv)
  }

  function DownTap(inv: pos, outv: pos, i: int): Tap {
    var n := Left(inv, outv, i);
    Tap(2 * (n * outv) + 3 * outv - (2 * (i * inv) + inv), 2 * outv, Left(inv, outv, i + 1) - n)
  }

  // Output i falls between inputs n and n + 1 (the right one included).
  predicate Between(inv: pos, outv: pos, i: int, n: int) {
    2 * (n * outv) + outv < 2 * (i * inv) + inv <= 2 * (n * outv) + 3 * outv
  }

  predicate Supported(inv: pos, outv: pos) {
    inv < 2 * outv || inv == 2 * outv || inv == 4 * outv
  }

  // The outputs in one period of the grid.
  function Outputs(inv: pos, outv: pos): (n: nat)
    ensures n == outv / Gcd(inv, outv)
  {
    Period(inv, outv);
    outv / Gcd(inv, outv)
  }

  // The whole period of the grid.
  function Taps(inv: pos, outv: pos): seq<Tap> {
    var n := Outputs(inv, outv);
    if inv == outv then [Tap(1, 1, 1)]
    else if inv < outv then seq(n, i => UpTap(inv, outv, i))
    else if inv < 2 * outv then seq(n, i => DownTap(inv, outv, i))
    else if inv == 2 * outv then [Tap(1, 2, 2)]
    else [Tap(1, 2, 4)]
  }

  // The table words of one axis.
  function Words(inv: pos, outv: pos): seq<int> {
    EncodeAll(Taps(inv, outv))
  }

  function Advances(ts: seq<Tap>): int {
    if ts == [] then 0 else Advances(ts[..|ts| - 1]) + ts[|ts| - 1].advance
  }

  // ----- Table words -----

  function Rounded(coeff: int, base: pos): int {
    (coeff * 32 + base / 2) / base
  }

  // Raw 31 means 32 to the hardware, and 1 is not a valid weight.
  function RawWeight(coeff: int, base: pos): int {
    var r := Rounded(coeff, base);
    if r >= 31 then r - 1 else if r == 1 then 2 else r
  }

  function EffectiveWeight(raw: int): int {
    if raw == 31 then 32 else raw
  }

  // Bit 0 marks a word that produces output, bits 2:1 the advance, bits 7:3 the
  // weight; advances of four and more spill into words that only skip.
  function Encode(t: Tap): seq<int> {
    EncodeRaw(RawWeight(t.coeff, t.base), t.advance)
  }

  function EncodeRaw(w: int, advance: int): seq<int> {
    if advance < 4 then [(w * 4 + advance) * 2 + 1] else [(w * 4 + 1) * 2 + 1] + Skips(advance - 1)
  }

  function Skips(n: nat): (ws: seq<int>)
    ensures |ws| == n && forall i :: 0 <= i < n ==> ws[i] == 2
  {
    if n == 0 then [] else Skips(n - 1) + [2]
  }

  function EncodeAll(ts: seq<Tap>): seq<int> {
    if ts == [] then [] else EncodeAll(ts[..|ts| - 1]) + Encode(ts[|ts| - 1])
  }

  // What the hardware makes of a table: a list of (effective weight, advance).
  function Decode(ws: seq<int>): seq<(int, int)> {
    if ws == [] then [] else Absorb(Decode(ws[..|ws| - 1]), ws[|ws| - 1])
  }

  function Absorb(taps: seq<(int, int)>, word: int): seq<(int, int)> {
    var w := word / 2;
    if word % 2 == 1 then taps + [(EffectiveWeight(w / 4), w % 4)]
    else if taps == [] then []
    else taps[..|taps| - 1] + [(taps[|taps| - 1].0, taps[|taps| - 1].1 + w % 4)]
  }

  // What the table was meant to say.
  function Meaning(t: Tap): (int, int) {
    (EffectiveWeight(RawWeight(t.coeff, t.base)), t.advance)
  }

  function Meanings(ts: seq<Tap>): seq<(int, int)> {
    if ts == [] then [] else Meanings(ts[..|ts| - 1]) + [Meaning(ts[|ts| - 1])]
  }

  predicate InRange(t: Tap) {
    0 <= t.coeff <= t.base && 0 <= t.advance
  }

  // ----- Weights -----

  // r is the integer nearest to parts*coeff/base, the upper one of two.
  predicate Nearest(r: int, coeff: int, base: int, parts: int) {
    2 * (r * base) <= 2 * (parts * coeff) + base < 2 * (r * base) + 2 * base
  }

  // The weights the hardware has: 1 and 31 are not among them.
  function Allowed(r: int): int {
    if r == 1 then 2 else if r == 31 then 30 else r
  }

  // w is the nearest weight, or its neighbour where the hardware has none.
  ghost predicate Weighs(w: int, coeff: int, base: int) {
    forall r :: Nearest(r, coeff, base, 32) ==> w == Allowed(r)
  }

  lemma NearestUnique(r: int, q: int, coeff: int, base: pos, parts: int)
    requires Nearest(r, coeff, base, parts) && Nearest(q, coeff, base, parts)
    ensures r == q
  {
    Apart(r, q, base);
    Apart(q, r, base);
    MulDistr(r, q, base);
    if r > q {
      MulDistr(r - q, 1, base);
      MulSign(r - q - 1, base);
    } else if q > r {
      MulDistr(q - r, 1, base);
      MulDistr(q, r, base);
      MulSign(q - r - 1, base);
    }
  }

  // Adding half the base before dividing finds it.
  lemma RoundsToNearest(coeff: int, base: pos, parts: nat)
    requires 0 <= coeff <= base
    ensures var r := (coeff * parts + base / 2) / base;
            Nearest(r, coeff, base, parts) && 0 <= r <= parts
  {
    var r, m := (coeff * parts + base / 2) / base, (coeff * parts + base / 2) % base;
    assert coeff * parts + base / 2 == r * base + m;
    CoeffPart(coeff, base, parts);
    MulSign(r - parts - 1, base);
    MulDistr(r, parts + 1, base);
    MulDistr(parts, 1, base);
    MulSign(r + 1, base);
    MulDistr(r, 1, base);
  }

  lemma CoeffPart(coeff: int, base: pos, parts: nat)
    requires 0 <= coeff <= base
    ensures 0 <= coeff * parts == parts * coeff <= parts * base
  {
    MulDistr(base, coeff, parts);
    assert coeff * parts == parts * coeff && base * parts == parts * base;
    assert (base - coeff) * parts >= 0 && coeff * parts >= 0;
  }

  // For every coefficient up to the base: the weight the hardware takes the raw one
  // for is the nearest it has, and the raw one is 0 or 2 to 31.
  lemma WeightBound(coeff: int, base: pos)
    requires 0 <= coeff <= base
    ensures var raw := RawWeight(coeff, base);
            && (raw == 0 || 2 <= raw <= 31)
            && (raw == 31 <==> Nearest(32, coeff, base, 32))
            && Weighs(EffectiveWeight(raw), coeff, base)
            && -3 * base <= 2 * (EffectiveWeight(raw) * base - 32 * coeff) <= 3 * base
  {
    var r := Rounded(coeff, base);
    RoundsToNearest(coeff, base, 32);
    forall q | Nearest(q, coeff, base, 32) ensures q == r {
      NearestUnique(q, r, coeff, base, 32);
    }
    MulDistr(r, 1, base);
  }

  // ----- Encoding and decoding -----

  lemma DecodeSnoc(ws: seq<int>, word: int)
    ensures Decode(ws + [word]) == Absorb(Decode(ws), word)
  {
    assert (ws + [word])[..|ws|] == ws;
  }

  lemma SkipOnce(ws: seq<int>, taps: seq<(int, int)>, t: (int, int))
    requires Decode(ws) == taps + [t]
    ensures Decode(ws + [2]) == taps + [(t.0, t.1 + 1)]
  {
    DecodeSnoc(ws, 2);
    assert (taps + [t])[..|taps|] == taps;
  }

  lemma SkipsFront(ws: seq<int>, n: nat)
    requires n > 0
    ensures ws + Skips(n) == ws + [2] + Skips(n - 1)
  {
    var a, b := ws + Skips(n), ws + [2] + Skips(n - 1);
    assert forall i :: |ws| <= i < |a| ==> a[i] == 2 == b[i];
  }

  lemma {:induction false} DecodeSkips(ws: seq<int>, taps: seq<(int, int)>, t: (int, int), n: nat)
    requires Decode(ws) == taps + [t]
    ensures Decode(ws + Skips(n)) == taps + [(t.0, t.1 + n)]
    decreases n
  {
    hide Decode;
    if n == 0 {
      assert ws + Skips(n) == ws;
    } else {
      SkipOnce(ws, taps, t);
      DecodeSkips(ws + [2], taps, (t.0, t.1 + 1), n - 1);
      SkipsFront(ws, n);
    }
  }

  // A head word carries the weight and the first three steps.
  lemma DecodeHead(ws: seq<int>, raw: int, step: int)
    requires 0 <= step < 4
    ensures Decode(ws + [(raw * 4 + step) * 2 + 1]) == Decode(ws) + [(EffectiveWeight(raw), step)]
  {
    DecodeSnoc(ws, (raw * 4 + step) * 2 + 1);
  }

  lemma DecodeRaw(ws: seq<int>, raw: int, advance: int)
    requires 0 <= advance
    ensures Decode(ws + EncodeRaw(raw, advance)) == Decode(ws) + [(EffectiveWeight(raw), advance)]
  {
    if advance < 4 {
      DecodeHead(ws, raw, advance);
    } else {
      var head := [(raw * 4 + 1) * 2 + 1];
      DecodeHead(ws, raw, 1);
      DecodeSkips(ws + head, Decode(ws), (EffectiveWeight(raw), 1), advance - 1);
      assert ws + EncodeRaw(raw, advance) == ws + head + Skips(advance - 1);
    }
  }

  // The table says exactly what the grid asked for.
  lemma {:induction false} DecodeEncode(ts: seq<Tap>)
    requires forall i :: 0 <= i < |ts| ==> InRange(ts[i])
    ensures Decode(EncodeAll(ts)) == Meanings(ts)
  {
    if ts != [] {
      var front := ts[..|ts| - 1];
      DecodeEncode(front);
      var t := ts[|ts| - 1];
      DecodeRaw(EncodeAll(front), RawWeight(t.coeff, t.base), t.advance);
    }
  }

  lemma EncodeSnoc(ts: seq<Tap>, i: nat)
    requires i < |ts|
    ensures EncodeAll(ts[..i + 1]) == EncodeAll(ts[..i]) + Encode(ts[i])
  {
    assert ts[..i + 1][..i] == ts[..i];
  }

  lemma {:induction false} EncodeMonotone(ts: seq<Tap>, i: nat)
    requires i <= |ts|
    ensures |EncodeAll(ts[..i])| <= |EncodeAll(ts)|
    decreases |ts| - i
  {
    if i < |ts| {
      EncodeSnoc(ts, i);
      EncodeMonotone(ts, i + 1);
    } else {
      assert ts[..i] == ts;
    }
  }

  // ----- Facts about the grid -----

  lemma LeftUnique(inv: pos, outv: pos, i: int, n: int)
    requires Between(inv, outv, i, n)
    ensures Left(inv, outv, i) == n
  {
    var a, c := 2 * (i * inv) + inv - outv - 1, n * outv;
    MulAssoc(n, 2, outv);
    MulAssoc(2, n, outv);
    DivModUnique(a, 2 * outv, n, a - 2 * c);
  }

  // The two pixels an output falls between.
  lemma LeftBracket(inv: pos, outv: pos, i: int)
    ensures Between(inv, outv, i, Left(inv, outv, i))
  {
    var a, n := 2 * (i * inv) + inv - outv - 1, Left(inv, outv, i);
    assert a == n * (2 * outv) + a % (2 * outv);
    MulAssoc(n, 2, outv);
    MulAssoc(2, n, outv);
  }

  // Between 1:1 and 2:1 down, every output steps over one or two inputs.
  lemma DownStep(inv: pos, outv: pos, i: int)
    requires outv < inv < 2 * outv
    ensures var t := DownTap(inv, outv, i); 0 <= t.coeff < t.base && 1 <= t.advance <= 2
  {
    LeftBracket(inv, outv, i);
    LeftBracket(inv, outv, i + 1);
    MulDistr(i, 1, inv);
    var n, n' := Left(inv, outv, i), Left(inv, outv, i + 1);
    Apart(n', n, outv);
  }

  // Comparing multiples compares the factors.
  lemma Apart(a: int, b: int, d: pos)
    ensures a * d > b * d ==> a - b >= 1
    ensures a * d < b * d + 3 * d ==> a - b <= 2
  {
    MulDistr(a, b, d);
    MulSign(a - b, d);
    MulSign(a - b - 2, d);
    MulDistr(a - b, 2, d);
    if a <= b {
      MulSign(b - a, d);
    }
  }

  // An enlargement advances by at most one input pixel per output.
  lemma UpStep(inv: pos, outv: pos, i: int)
    requires inv < outv
    ensures var t := UpTap(inv, outv, i); 0 < t.coeff <= t.base && 0 <= t.advance <= 1
  {
    var n, n' := (i * inv) / outv, ((i + 1) * inv) / outv;
    assert i * inv == n * outv + (i * inv) % outv;
    assert (i + 1) * inv == n' * outv + ((i + 1) * inv) % outv;
    MulDistr(i, 1, inv);
    MulDistr(n', n, outv);
    MulSign(n' - n, outv);
    MulDistr(n' - n, 1, outv);
    MulSign(n' - n - 1, outv);
  }

  lemma TapsInRange(inv: pos, outv: pos)
    requires Supported(inv, outv)
    ensures forall i :: 0 <= i < |Taps(inv, outv)| ==> InRange(Taps(inv, outv)[i])
  {
    var ts := Taps(inv, outv);
    forall i | 0 <= i < |ts|
      ensures InRange(ts[i])
    {
      if inv < outv {
        UpStep(inv, outv, i);
      } else if outv < inv < 2 * outv {
        DownStep(inv, outv, i);
      }
    }
  }

  // Enlarging: input consumed before output i is floor(i*inv/outv).
  lemma {:induction false} UpAdvances(inv: pos, outv: pos, i: nat)
    requires inv < outv && i <= |Taps(inv, outv)|
    ensures Advances(Taps(inv, outv)[..i]) == (i * inv) / outv
  {
    var ts := Taps(inv, outv);
    if i == 0 {
      DivModUnique(0, outv, 0, 0);
    } else {
      UpAdvances(inv, outv, i - 1);
      assert ts[..i][..i - 1] == ts[..i - 1];
    }
  }

  // Reducing: input consumed before output i is its left pixel.
  lemma {:induction false} DownAdvances(inv: pos, outv: pos, i: nat)
    requires outv < inv < 2 * outv && i <= |Taps(inv, outv)|
    ensures Advances(Taps(inv, outv)[..i]) == Left(inv, outv, i)
  {
    var ts := Taps(inv, outv);
    if i == 0 {
      LeftUnique(inv, outv, 0, 0);
    } else {
      DownAdvances(inv, outv, i - 1);
      assert ts[..i][..i - 1] == ts[..i - 1];
    }
  }

  // The enlarging table, output by output, in terms of the input it has consumed.
  lemma UpGrid(inv: pos, outv: pos, i: nat)
    requires inv < outv && i < |Taps(inv, outv)|
    ensures var n, t := Advances(Taps(inv, outv)[..i]), Taps(inv, outv)[i];
            && n == (i * inv) / outv
            && t.base == outv && t.coeff == outv - (i * inv) % outv && 0 <= t.advance <= 1
  {
    UpAdvances(inv, outv, i);
    UpStep(inv, outv, i);
  }

  // The reducing table, output by output: the output centre (2i+1)*inv lies
  // between the centres of input n and its right neighbour, and is weighted by
  // its distance to the latter.
  lemma DownGrid(inv: pos, outv: pos, i: nat)
    requires outv < inv < 2 * outv && i < |Taps(inv, outv)|
    ensures var n, t := Advances(Taps(inv, outv)[..i]), Taps(inv, outv)[i];
            && (2 * n + 1) * outv < (2 * i + 1) * inv <= (2 * n + 3) * outv
            && t.base == 2 * outv && t.coeff == (2 * n + 3) * outv - (2 * i + 1) * inv
            && 1 <= t.advance <= 2
  {
    DownAdvances(inv, outv, i);
    DownStep(inv, outv, i);
    LeftBracket(inv, outv, i);
    var n := Left(inv, outv, i);
    OddMultiple(n, 1, outv);
    OddMultiple(n, 3, outv);
    OddMultiple(i, 1, inv);
  }

  lemma OddMultiple(n: int, c: int, d: int)
    ensures (2 * n + c) * d == 2 * (n * d) + c * d
  {
    MulDistr(2 * n, c, d);
    MulAssoc(2, n, d);
  }

  // After a whole period the grid is back in phase.
  lemma LeftPeriod(inv: pos, outv: pos)
    requires outv < inv < 2 * outv
    ensures var g := Gcd(inv, outv); outv / g > 0 && Left(inv, outv, outv / g) == inv / g
  {
    Period(inv, outv);
    LeftUnique(inv, outv, outv / Gcd(inv, outv), inv / Gcd(inv, outv));
  }

  // Every supported table is an exact ratio: outv/g outputs consume inv/g inputs.
  lemma ExactRatio(inv: pos, outv: pos)
    requires Supported(inv, outv)
    ensures var g := Gcd(inv, outv);
            |Taps(inv, outv)| == outv / g && Advances(Taps(inv, outv)) == inv / g
  {
    var g, ts := Gcd(inv, outv), Taps(inv, outv);
    var p, q := Reduce(inv, outv);
    var n := |ts|;
    assert ts[..n] == ts;
    if inv < outv {
      UpAdvances(inv, outv, n);
      Period(inv, outv);
      DivModUnique(n * inv, outv, inv / g, 0);
    } else if outv < inv < 2 * outv {
      DownAdvances(inv, outv, n);
      LeftPeriod(inv, outv);
    } else {
      var m := if inv == outv then 1 else if inv == 2 * outv then 2 else 4;
      assert 1 * inv == m * outv;
      var k := Orbit(inv, outv, 1, m);
      MulSign(k - 1, q);
      MulDistr(k, 1, q);
      MulSign(k, q);
      assert q == 1;
      assert inv == p * outv;
      MulCancel(p, m, outv);
      assert Advances(ts) == m;
    }
  }

  // ----- The builders -----

  // The weight of pp_scale_0d.
  method Weigh(coeff0: int, base: pos) returns (coeff: int)
    requires 0 <= coeff0 <= base
    ensures coeff == RawWeight(coeff0, base) && (coeff == 0 || 2 <= coeff <= 31)
  {
    WeightBound(coeff0, base);
    coeff := (coeff0 * 32 + base / 2) / base;
    if coeff >= 31 {
      coeff := coeff - 1;
    } else if coeff == 1 {
      coeff := coeff + 1;
    }
  }

  // pp_scale_0d: append one tap at tbl[k..].
  method Scale0D(tbl: array<u16>, k: nat, coeff: int, base: pos, nxt: int) returns (r: int)
    requires tbl.Length == PP_TBL_MAX && k <= PP_TBL_MAX
    requires 0 <= coeff <= base && 0 <= nxt
    modifies tbl
    ensures tbl[..k] == old(tbl[..k])
    ensures var e := Encode(Tap(coeff, base, nxt));
            if k + |e| <= PP_TBL_MAX
            then r == k + |e| && tbl[k..r] == e && tbl[r..] == old(tbl[r..])
            else r == ENOSPC
  {
    if k >= PP_TBL_MAX {
      return ENOSPC;
    }
    var w := Weigh(coeff, base);
    r := Emit(tbl, k, w, nxt);
  }

  // The words of pp_scale_0d, once the weight is known.
  method Emit(tbl: array<u16>, k0: nat, w: int, nxt0: int) returns (k: int)
    requires tbl.Length == PP_TBL_MAX && k0 < PP_TBL_MAX && 0 <= w <= 31 && 0 <= nxt0
    modifies tbl
    ensures tbl[..k0] == old(tbl[..k0])
    ensures var e := EncodeRaw(w, nxt0);
            if k0 + |e| <= PP_TBL_MAX
            then k == k0 + |e| && tbl[k0..k] == e && tbl[k..] == old(tbl[k..])
            else k == ENOSPC
  {
    var coeff, nxt := w * 4, nxt0;
    k := k0;
    if nxt < 4 {
      tbl[k] := (coeff + nxt) * 2 + 1;
      k := k + 1;
    } else {
      coeff := coeff + 1;
      tbl[k] := coeff * 2 + 1;
      k := k + 1;
      nxt := nxt - 1;
      k := SkipWords(tbl, k, nxt);
    }
  }

  // The do-while of pp_scale_0d: spell out an advance of nxt0 in single steps.
  method SkipWords(tbl: array<u16>, k0: nat, nxt0: int) returns (k: int)
    requires tbl.Length == PP_TBL_MAX && k0 <= PP_TBL_MAX && nxt0 > 0
    modifies tbl
    ensures forall j :: 0 <= j < k0 ==> tbl[j] == old(tbl[j])
    ensures if k0 + nxt0 <= PP_TBL_MAX
            then k == k0 + nxt0 && (forall j :: k0 <= j < k ==> tbl[j] == 2)
                 && (forall j :: k <= j < PP_TBL_MAX ==> tbl[j] == old(tbl[j]))
            else k == ENOSPC
  {
    var nxt := nxt0;
    k := k0;
    while true
      invariant 1 <= nxt <= nxt0 && k == k0 + nxt0 - nxt <= PP_TBL_MAX
      invariant forall j :: k0 <= j < k ==> tbl[j] == 2
      invariant forall j :: 0 <= j < PP_TBL_MAX && !(k0 <= j < k) ==> tbl[j] == old(tbl[j])
      decreases nxt
    {
      if k >= PP_TBL_MAX {
        return ENOSPC;
      }
      var coeff := if nxt > 1 then 1 else nxt;
      tbl[k] := coeff * 2;
      k := k + 1;
      nxt := nxt - 1;
      if nxt <= 0 {
        break;
      }
    }
  }

  // pp_scale_1d: append the taps of one axis at tbl[k..].
  method Scale1D(tbl: array<u16>, inv: pos, outv: pos, k0: nat) returns (r: int)
    requires tbl.Length == PP_TBL_MAX && k0 <= PP_TBL_MAX
    modifies tbl
    ensures !Supported(inv, outv) ==> r == EOPNOTSUPP
    ensures Supported(inv, outv) ==>
              var e := Words(inv, outv);
              if k0 + |e| <= PP_TBL_MAX
              then r == k0 + |e| && tbl[..k0] == old(tbl[..k0]) && tbl[k0..r] == e
              else r == ENOSPC
  {
    ghost var ts := Taps(inv, outv);
    if inv == outv {
      assert EncodeAll(ts) == Encode(ts[0]);
      r := Scale0D(tbl, k0, 1, 1, 1);
    } else if inv < outv {
      r := ScaleUp(tbl, inv, outv, k0);
    } else if inv >= 2 * outv {
      if inv != 2 * outv && inv != 4 * outv {
        return EOPNOTSUPP;
      }
      r := ScaleBox(tbl, inv, outv, k0);
    } else {
      r := ScaleDown(tbl, inv, outv, k0);
    }
  }

  // Its inner loop: whole output steps in the input still to be skipped.
  method BoxAdvance(outv: pos, v0: int) returns (v: int, nxt: int)
    requires v0 == 0 || v0 == 2 * outv
    ensures v == 0 && nxt == if v0 == 0 then 2 else 4
  {
    v, nxt := v0, 2;
    while v >= outv
      invariant v0 == 0 ==> v == 0 && nxt == 2
      invariant v0 != 0 ==> (v == 2 * outv && nxt == 2) || (v == outv && nxt == 3) || (v == 0 && nxt == 4)
      decreases v
    {
      v := v - outv;
      nxt := nxt + 1;
    }
  }

  // The 2:1 and 4:1 branch of pp_scale_1d; its loop runs for one entry.
  method ScaleBox(tbl: array<u16>, inv: pos, outv: pos, k0: nat) returns (r: int)
    requires tbl.Length == PP_TBL_MAX && k0 <= PP_TBL_MAX
    requires inv == 2 * outv || inv == 4 * outv
    modifies tbl
    ensures var e := Words(inv, outv);
            if k0 + |e| <= PP_TBL_MAX
            then r == k0 + |e| && tbl[..k0] == old(tbl[..k0]) && tbl[k0..r] == e
            else r == ENOSPC
  {
    ghost var ts := Taps(inv, outv);
    assert EncodeAll(ts) == EncodeAll([]) + Encode(ts[0]);
    var coeff := inv - 2 * outv;
    var v, k, more := 0, k0, true;
    while more
      invariant more ==> v == 0 && k == k0 && tbl[..] == old(tbl[..])
      invariant !more ==> k0 + |EncodeAll(ts)| <= PP_TBL_MAX
                          && k == k0 + |EncodeAll(ts)| && tbl[..k0] == old(tbl[..k0]) && tbl[k0..k] == EncodeAll(ts)
      decreases more
    {
      v := v + coeff;
      var nxt;
      v, nxt := BoxAdvance(outv, v);
      k := Scale0D(tbl, k, 1, 2, nxt);
      if k < 0 {
        return k;
      }
      more := v != 0;
    }
    return k;
  }

  // The accumulator of the enlarging loop before output i, n inputs consumed.
  predicate UpPhase(inv: pos, outv: pos, i: int, n: int, v: int) {
    0 <= v < outv && v + n * outv == i * inv
  }

  lemma UpDda(inv: pos, outv: pos, i: nat, n: int, v: int, n': int, v': int)
    requires inv < outv && i < outv / Gcd(inv, outv) && UpPhase(inv, outv, i, n, v)
    requires if v + inv >= outv then v' == v + inv - outv && n' == n + 1 else v' == v + inv && n' == n
    ensures UpPhase(inv, outv, i + 1, n', v')
    ensures UpTap(inv, outv, i) == Tap(outv - v, outv, n' - n)
    ensures v' == 0 <==> i + 1 == outv / Gcd(inv, outv)
  {
    MulDistr(i, 1, inv);
    MulDistr(n, 1, outv);
    DivModUnique(i * inv, outv, n, v);
    DivModUnique((i + 1) * inv, outv, n', v');
    UpWraps(inv, outv, i + 1, n', v');
  }

  // The enlarging branch of pp_scale_1d.
  method ScaleUp(tbl: array<u16>, inv: pos, outv: pos, k0: nat) returns (r: int)
    requires tbl.Length == PP_TBL_MAX && k0 <= PP_TBL_MAX && inv < outv
    modifies tbl
    ensures var e := Words(inv, outv);
            if k0 + |e| <= PP_TBL_MAX
            then r == k0 + |e| && tbl[..k0] == old(tbl[..k0]) && tbl[k0..r] == e
            else r == ENOSPC
  {
    ghost var ts, i, n := Taps(inv, outv), 0, 0;
    Period(inv, outv);
    var v, k := 0, k0;
    while true
      invariant 0 <= i < |ts| && UpPhase(inv, outv, i, n, v)
      invariant k == k0 + |EncodeAll(ts[..i])| <= PP_TBL_MAX
      invariant tbl[..k0] == old(tbl[..k0]) && tbl[k0..k] == EncodeAll(ts[..i])
      decreases |ts| - i
    {
      var coeff := outv - v;
      ghost var v0, n0 := v, n;
      v := v + inv;
      var nxt;
      if v >= outv {
        v := v - outv;
        nxt := 1;
      } else {
        nxt := 0;
      }
      n := n + nxt;
      UpDda(inv, outv, i, n0, v0, n, v);
      k := Append(tbl, ts, i, k0, k, coeff, outv, nxt);
      if k < 0 {
        return k;
      }
      i := i + 1;
      if v == 0 {
        break;
      }
    }
    assert ts[..i] == ts;
    return k;
  }

  // One call of pp_scale_0d inside a ratio loop: entry i of the period ts.
  method Append(tbl: array<u16>, ghost ts: seq<Tap>, ghost i: nat, ghost k0: nat, k: nat,
                coeff: int, base: pos, nxt: int) returns (r: int)
    requires tbl.Length == PP_TBL_MAX && i < |ts| && ts[i] == Tap(coeff, base, nxt) && InRange(ts[i])
    requires k == k0 + |EncodeAll(ts[..i])| <= PP_TBL_MAX && tbl[k0..k] == EncodeAll(ts[..i])
    modifies tbl
    ensures if r >= 0
            then r == k0 + |EncodeAll(ts[..i + 1])| <= PP_TBL_MAX
                 && tbl[..k0] == old(tbl[..k0]) && tbl[k0..r] == EncodeAll(ts[..i + 1])
            else r == ENOSPC && k0 + |EncodeAll(ts)| > PP_TBL_MAX
  {
    EncodeSnoc(ts, i);
    EncodeMonotone(ts, i + 1);
    r := AppendWords(tbl, k0, k, Tap(coeff, base, nxt), EncodeAll(ts[..i]));
  }

  method AppendWords(tbl: array<u16>, ghost k0: nat, k: nat, t: Tap, ghost front: seq<int>) returns (r: int)
    requires tbl.Length == PP_TBL_MAX && k0 <= k <= PP_TBL_MAX && InRange(t)
    requires tbl[k0..k] == front
    modifies tbl
    ensures if k + |Encode(t)| <= PP_TBL_MAX
            then r == k + |Encode(t)| && tbl[..k0] == old(tbl[..k0]) && tbl[k0..r] == front + Encode(t)
            else r == ENOSPC
  {
    r := Scale0D(tbl, k, t.coeff, t.base, t.advance);
    assert tbl[..k0] == tbl[..k][..k0];
    assert tbl[k0..k] == tbl[..k][k0..];
    if r >= 0 {
      assert tbl[k0..r] == tbl[k0..k] + tbl[k..r];
    }
  }

  // v is zero again exactly at the end of the period.
  lemma UpWraps(inv: pos, outv: pos, i: nat, n: int, v: int)
    requires 0 < i <= outv / Gcd(inv, outv) && 0 <= v < outv && v + n * outv == i * inv
    ensures v == 0 <==> i == outv / Gcd(inv, outv)
  {
    Period(inv, outv);
    var q := outv / Gcd(inv, outv);
    if v == 0 {
      MulSign(i, inv);
      MulSign(n, outv);
      var m := Orbit(inv, outv, i, n);
      MulSign(m, q);
      MulDistr(m, 1, q);
      MulSign(m - 1, q);
    } else if i == q {
      DivModUnique(i * inv, outv, inv / Gcd(inv, outv), 0);
      DivModUnique(i * inv, outv, n, v);
      assert false;
    }
  }

  lemma DownDda(inv: pos, outv: pos, i: nat, n: int, n': int)
    requires outv < inv < 2 * outv && i < outv / Gcd(inv, outv)
    requires Between(inv, outv, i, n) && Between(inv, outv, i + 1, n')
    ensures DownTap(inv, outv, i)
         == Tap(2 * (n * outv) + 3 * outv - (2 * (i * inv) + inv), 2 * outv, n' - n)
    ensures (i + 1) * inv == n' * outv <==> i + 1 == outv / Gcd(inv, outv)
    ensures InRange(DownTap(inv, outv, i))
  {
    LeftUnique(inv, outv, i, n);
    LeftUnique(inv, outv, i + 1, n');
    DownWraps(inv, outv, i + 1, n');
    DownStep(inv, outv, i);
  }

  // The variables of the reducing loop before output i, n inputs consumed.
  predicate DownPhase(inv: pos, outv: pos, i: int, n: int, v: int, out_pos: int, carry: int) {
    && Between(inv, outv, i, n)
    && out_pos == 2 * (i * inv) + inv
    && v == 2 * (n * outv) + 3 * outv
    && carry == inv - outv + 2 * (i * inv) - 2 * (n * outv)
  }

  // The arithmetic of one turn of the reducing loop: the weight of output i,
  // then step over input pixels until the next output centre is reached.
  method DownOutput(inv: pos, outv: pos, v0: int, out_pos0: int, carry0: int, ghost i: nat, ghost n: int)
    returns (coeff: int, nxt: int, v: int, out_pos: int, carry: int)
    requires outv < inv < 2 * outv && i < outv / Gcd(inv, outv)
    requires DownPhase(inv, outv, i, n, v0, out_pos0, carry0)
    ensures DownPhase(inv, outv, i + 1, n + nxt, v, out_pos, carry)
    ensures DownTap(inv, outv, i) == Tap(coeff, 2 * outv, nxt)
    ensures 0 <= coeff < 2 * outv && 1 <= nxt <= 2
    ensures carry == inv - outv <==> i + 1 == outv / Gcd(inv, outv)
  {
    var in_pos_inc, out_pos_inc := 2 * outv, 2 * inv;
    ghost var q := n * outv;
    MulDistr(i, 1, inv);
    coeff := v0 - out_pos0;
    out_pos := out_pos0 + out_pos_inc;
    carry := carry0 + out_pos_inc;
    v, nxt := v0, 0;
    while v < out_pos
      invariant nxt >= 0 && q == (n + nxt) * outv
      invariant v == 2 * q + 3 * outv && carry == carry0 + out_pos_inc - 2 * q + 2 * (n * outv)
      invariant v - 2 * outv < out_pos
      decreases out_pos - v
    {
      MulDistr(n + nxt, 1, outv);
      v := v + in_pos_inc;
      carry := carry - in_pos_inc;
      nxt, q := nxt + 1, q + outv;
    }
    DownDda(inv, outv, i, n, n + nxt);
    DownStep(inv, outv, i);
  }

  // The branch of pp_scale_1d for reductions between 1:1 and 2:1.
  method ScaleDown(tbl: array<u16>, inv: pos, outv: pos, k0: nat) returns (r: int)
    requires tbl.Length == PP_TBL_MAX && k0 <= PP_TBL_MAX && outv < inv < 2 * outv
    modifies tbl
    ensures var e := Words(inv, outv);
            if k0 + |e| <= PP_TBL_MAX
            then r == k0 + |e| && tbl[..k0] == old(tbl[..k0]) && tbl[k0..r] == e
            else r == ENOSPC
  {
    ghost var ts, i, n := Taps(inv, outv), 0, 0;
    Period(inv, outv);
    var out_pos, init_carry := inv, inv - outv;
    var carry, k := init_carry, k0;
    var v := outv + 2 * outv;
    while true
      invariant 0 <= i < |ts| && DownPhase(inv, outv, i, n, v, out_pos, carry)
      invariant k == k0 + |EncodeAll(ts[..i])| <= PP_TBL_MAX
      invariant tbl[..k0] == old(tbl[..k0]) && tbl[k0..k] == EncodeAll(ts[..i])
      decreases |ts| - i
    {
      var coeff, nxt;
      coeff, nxt, v, out_pos, carry := DownOutput(inv, outv, v, out_pos, carry, i, n);
      k := Append(tbl, ts, i, k0, k, coeff, 2 * outv, nxt);
      if k < 0 {
        return k;
      }
      i, n := i + 1, n + nxt;
      if carry == init_carry {
        break;
      }
    }
    assert ts[..i] == ts;
    return k;
  }

  // The carry is back at its start exactly at the end of the period.
  lemma DownWraps(inv: pos, outv: pos, i: nat, n: int)
    requires outv < inv < 2 * outv && 0 < i <= outv / Gcd(inv, outv)
    requires Between(inv, outv, i, n)
    ensures i * inv == n * outv <==> i == outv / Gcd(inv, outv)
  {
    var q := outv / Gcd(inv, outv);
    Period(inv, outv);
    if i * inv == n * outv {
      MulSign(i, inv);
      MulSign(n, outv);
      var m := Orbit(inv, outv, i, n);
      MulSign(m, q);
      MulDistr(m, 1, q);
      MulSign(m - 1, q);
    }
    if i == q {
      LeftUnique(inv, outv, i, n);
      LeftPeriod(inv, outv);
    }
  }

  // ----- Both axes -----

  // Hardware limits on a ratio n:d (4:1 up, 2:1 down, or exactly 4:1 down).
  predicate RatioOk(n: pos, d: pos) {
    d <= 4 * n && (n <= 2 * d || n == 4 * d)
  }

  // Words an axis needs in lowest terms: one per output, and three more to
  // spell out the advance of four.
  function Need(n: pos, d: pos): int {
    if n == 4 * d then 4 else d
  }

  function Needed(hn: pos, hd: pos, vn: pos, vd: pos): int {
    if hn == vn && hd == vd then Need(hn, hd) else Need(hn, hd) + Need(vn, vd)
  }

  lemma {:induction false} OneWordEach(ts: seq<Tap>)
    requires forall i :: 0 <= i < |ts| ==> ts[i].advance < 4
    ensures |EncodeAll(ts)| == |ts|
  {
    if ts != [] {
      OneWordEach(ts[..|ts| - 1]);
    }
  }

  lemma NeedExact(n: pos, d: pos)
    requires Gcd(n, d) == 1 && RatioOk(n, d)
    ensures |Words(n, d)| == Need(n, d)
  {
    var ts := Taps(n, d);
    ExactRatio(n, d);
    forall i | 0 <= i < |ts| && n != 4 * d
      ensures ts[i].advance < 4
    {
      if n < d {
        UpStep(n, d, i);
      } else if d < n < 2 * d {
        DownStep(n, d, i);
      }
    }
    if n == 4 * d {
      assert EncodeAll(ts) == EncodeAll([]) + Encode(ts[0]);
    } else {
      OneWordEach(ts);
    }
  }

  function Total(taps: seq<(int, int)>): int {
    if taps == [] then 0 else Total(taps[..|taps| - 1]) + taps[|taps| - 1].1
  }

  lemma {:induction false} TotalAdvances(ts: seq<Tap>)
    ensures Total(Meanings(ts)) == Advances(ts) && |Meanings(ts)| == |ts|
  {
    if ts != [] {
      var front := ts[..|ts| - 1];
      TotalAdvances(front);
      assert Meanings(ts)[..|front|] == Meanings(front);
    }
  }

  // A ratio in lowest terms.
  function Num(src: pos, dst: pos): pos {
    Period(src, dst);
    src / Gcd(src, dst)
  }

  function Den(src: pos, dst: pos): pos {
    Period(src, dst);
    dst / Gcd(src, dst)
  }

  // Output i, behind `before` input pixels, lies between input pixel `before` and the
  // next, and is weighted by its distance to the latter.  From 2:1 on it takes two
  // pixels alike.
  ghost predicate Samples(n: pos, d: pos, i: int, before: int, w: int) {
    if n < d then
      before * d <= i * n < (before + 1) * d && Weighs(w, (before + 1) * d - i * n, d)
    else if n == d then w == 32
    else if n < 2 * d then
      && (2 * before + 1) * d < (2 * i + 1) * n <= (2 * before + 3) * d
      && Weighs(w, (2 * before + 3) * d - (2 * i + 1) * n, 2 * d)
    else w == 16
  }

  // So does every output of a table.
  ghost predicate Interpolates(taps: seq<(int, int)>, n: pos, d: pos) {
    forall i :: 0 <= i < |taps| ==> Samples(n, d, i, Total(taps[..i]), taps[i].0)
  }

  lemma {:induction false} MeaningAt(ts: seq<Tap>, i: nat)
    requires i < |ts|
    ensures |Meanings(ts)| == |ts| && Meanings(ts)[i] == Meaning(ts[i])
    ensures Meanings(ts)[..i] == Meanings(ts[..i])
  {
    var front := ts[..|ts| - 1];
    TotalAdvances(ts);
    TotalAdvances(front);
    if i < |front| {
      MeaningAt(front, i);
      assert front[..i] == ts[..i] && Meanings(ts)[..i] == Meanings(front)[..i];
    } else {
      assert Meanings(ts)[..i] == Meanings(front);
    }
  }

  lemma UpSamples(n: pos, d: pos, i: nat)
    requires n < d && i < |Taps(n, d)|
    ensures Samples(n, d, i, Advances(Taps(n, d)[..i]), Meaning(Taps(n, d)[i]).0)
  {
    hide Weighs, Taps, EffectiveWeight, RawWeight, UpTap;
    var t, k := Taps(n, d)[i], (i * n) / d;
    UpGrid(n, d, i);
    assert i * n == k * d + (i * n) % d;
    MulDistr(k, 1, d);
    WeightBound(t.coeff, t.base);
  }

  lemma DownSamples(n: pos, d: pos, i: nat)
    requires d < n < 2 * d && i < |Taps(n, d)|
    ensures Samples(n, d, i, Advances(Taps(n, d)[..i]), Meaning(Taps(n, d)[i]).0)
  {
    hide Weighs, Taps, EffectiveWeight, RawWeight, DownTap, Left;
    var t := Taps(n, d)[i];
    DownGrid(n, d, i);
    WeightBound(t.coeff, t.base);
  }

  lemma TapSamples(n: pos, d: pos, i: nat)
    requires Supported(n, d) && i < |Taps(n, d)|
    ensures Samples(n, d, i, Advances(Taps(n, d)[..i]), Meaning(Taps(n, d)[i]).0)
  {
    if n < d {
      UpSamples(n, d, i);
    } else if d < n < 2 * d {
      DownSamples(n, d, i);
    } else {
      BoxWeights();
    }
  }

  // One of one and one of two.
  lemma BoxWeights()
    ensures EffectiveWeight(RawWeight(1, 1)) == 32 && EffectiveWeight(RawWeight(1, 2)) == 16
  {
  }

  lemma AllSamples(n: pos, d: pos)
    requires Supported(n, d)
    ensures Interpolates(Meanings(Taps(n, d)), n, d)
  {
    hide Meaning, Samples, Taps;
    var ts := Taps(n, d);
    TotalAdvances(ts);
    forall i | 0 <= i < |Meanings(ts)|
      ensures Samples(n, d, i, Total(Meanings(ts)[..i]), Meanings(ts)[i].0)
    {
      MeaningAt(ts, i);
      TotalAdvances(ts[..i]);
      TapSamples(n, d, i);
    }
  }

  // The tables of a few ratios, word for word.
  lemma KnownWords()
    ensures Words(1, 1) == [251] && Words(2, 1) == [133] && Words(4, 1) == [131, 2, 2, 2]
  {
    BoxWeights();
    assert Gcd(1, 1) == 1 && Gcd(2, 1) == 1 && Gcd(4, 1) == 1;
    OneTap(Tap(1, 1, 1));
    OneTap(Tap(1, 2, 2));
    OneTap(Tap(1, 2, 4));
    assert Skips(3) == [2, 2, 2];
  }

  lemma OneTap(t: Tap)
    ensures EncodeAll([t]) == Encode(t)
  {
    assert [t][..0] == [];
  }

  // The words of one axis read back as a table that is exactly src:dst: its outputs
  // are to its input steps as dst is to src, and each is interpolated where it lies.
  ghost predicate ScalesExactly(ws: seq<int>, src: pos, dst: pos) {
    var taps := Decode(ws);
    && |taps| == Den(src, dst) && Total(taps) == Num(src, dst)
    && |taps| * src == Total(taps) * dst
    && Interpolates(taps, Num(src, dst), Den(src, dst))
  }

  lemma AxisExact(src: pos, dst: pos)
    requires RatioOk(Num(src, dst), Den(src, dst))
    ensures ScalesExactly(Words(Num(src, dst), Den(src, dst)), src, dst)
    ensures Words(Num(src, dst), Den(src, dst)) != []
  {
    Reduced(src, dst);
    Period(src, dst);
    var n, d := Num(src, dst), Den(src, dst);
    ExactRatio(n, d);
    TapsInRange(n, d);
    DecodeEncode(Taps(n, d));
    TotalAdvances(Taps(n, d));
    AllSamples(n, d);
    NeedExact(n, d);
  }

  // Fields of the index register: horizontal end, vertical start and end.  The
  // horizontal run starts at entry 0.
  function HEnd(r: int): int { r / 0x10000 }
  function VStart(r: int): int { (r / 0x100) % 0x100 }
  function VEnd(r: int): int { r % 0x100 }

  // Where the two axes' words h and v sit in a finished table: shared when both
  // ratios reduce to the same terms, back to back otherwise.
  predicate Laid(ws: seq<int>, indexReg: int, shared: bool, h: seq<int>, v: seq<int>) {
    var start := if shared then 0 else |h|;
    && 0 < |h| <= |ws| && |ws| == start + |v| && 0 < |v|
    && HEnd(indexReg) == |h| - 1 && VStart(indexReg) == start && VEnd(indexReg) == |ws| - 1
    && ws[..|h|] == h && ws[start..] == v
  }

  // The index register.  Its fields do not overlap in a table of forty words,
  // so ORing them together is adding them.
  method PackIndex(h: int, start: int, end: int) returns (r: int)
    requires 0 <= h < 0x100 && 0 <= start < 0x100 && 0 <= end < 0x100
    ensures HEnd(r) == h && VStart(r) == start && VEnd(r) == end
  {
    r := h * 0x10000 + start * 0x100 + end;
  }

  // pp_build_resize, from the ratios in lowest terms on.
  method BuildReduced(tbl: array<u16>, hn: pos, hd: pos, vn: pos, vd: pos)
    returns (rc: int, indexReg: int, tblLen: int)
    requires tbl.Length == PP_TBL_MAX && Gcd(hn, hd) == 1 && Gcd(vn, vd) == 1
    modifies tbl
    ensures rc == (if !(RatioOk(hn, hd) && RatioOk(vn, vd)) then EOPNOTSUPP
                   else if Needed(hn, hd, vn, vd) > PP_TBL_MAX then ENOSPC else 0)
    ensures rc == 0 ==> tblLen == Needed(hn, hd, vn, vd)
                        && Laid(tbl[..tblLen], indexReg, hn == vn && hd == vd, Words(hn, hd), Words(vn, vd))
  {
    if hd > 4 * hn || vd > 4 * vn {
      return EOPNOTSUPP, 0, 0;
    }
    if (hn > 2 * hd && hn != 4 * hd) || (vn > 2 * vd && vn != 4 * vd) {
      return EOPNOTSUPP, 0, 0;
    }
    NeedExact(hn, hd);
    NeedExact(vn, vd);
    ghost var h, v := Words(hn, hd), Words(vn, vd);
    var hlen := Scale1D(tbl, hn, hd, 0);
    if hlen <= 0 {
      return if hlen != 0 then hlen else EOPNOTSUPP, 0, 0;
    }
    if hn == vn && hd == vd {
      tblLen := hlen;
      indexReg := PackIndex(hlen - 1, 0, tblLen - 1);
    } else {
      tblLen := Scale1D(tbl, vn, vd, hlen);
      if tblLen <= hlen {
        return if tblLen < 0 then tblLen else EOPNOTSUPP, 0, 0;
      }
      indexReg := PackIndex(hlen - 1, hlen, tblLen - 1);
    }
    LaidOut(tbl, hlen, tblLen, indexReg, hn == vn && hd == vd, h, v);
    rc := 0;
  }

  lemma LaidOut(tbl: array<u16>, hlen: nat, len: nat, indexReg: int, shared: bool, h: seq<int>, v: seq<int>)
    requires 0 < hlen == |h| <= len <= tbl.Length && v != []
    requires tbl[..hlen] == h && (if shared then h == v && len == hlen else tbl[hlen..len] == v)
    requires HEnd(indexReg) == hlen - 1 && VEnd(indexReg) == len - 1
    requires VStart(indexReg) == if shared then 0 else hlen
    ensures Laid(tbl[..len], indexReg, shared, h, v)
  {
    assert tbl[..len][..hlen] == h;
    assert tbl[..len][if shared then 0 else hlen..] == v;
  }

  lemma LaidExact(ws: seq<int>, indexReg: int, srcW: pos, srcH: pos, dstW: pos, dstH: pos,
                  shared: bool, h: seq<int>, v: seq<int>)
    requires ScalesExactly(h, srcW, dstW) && ScalesExactly(v, srcH, dstH)
    requires Laid(ws, indexReg, shared, h, v)
    ensures ReadsExactly(ws, indexReg, srcW, srcH, dstW, dstH)
  {
    assert ws[VStart(indexReg)..VEnd(indexReg) + 1] == ws[VStart(indexReg)..];
  }

  // The index register picks out two runs of the table that scale the picture
  // by exactly srcW:dstW across and srcH:dstH down, interpolating every output.
  ghost predicate ReadsExactly(ws: seq<int>, indexReg: int, srcW: pos, srcH: pos, dstW: pos, dstH: pos) {
    && 0 <= HEnd(indexReg) < |ws| && 0 <= VStart(indexReg) <= VEnd(indexReg) < |ws|
    && ScalesExactly(ws[..HEnd(indexReg) + 1], srcW, dstW)
    && ScalesExactly(ws[VStart(indexReg)..VEnd(indexReg) + 1], srcH, dstH)
  }

  // The limits in terms of the picture: not more than four times as large, and not
  // less than half as large but for a quarter.
  predicate Scalable(src: pos, dst: pos) {
    dst <= 4 * src && (src <= 2 * dst || src == 4 * dst)
  }

  lemma RatioScales(src: pos, dst: pos)
    ensures RatioOk(Num(src, dst), Den(src, dst)) <==> Scalable(src, dst)
  {
    var p, q := Reduce(src, dst);
    var g := Gcd(src, dst);
    Compare(q, 4 * p, g);
    Compare(p, 2 * q, g);
    Compare(p, 4 * q, g);
    Compare(4 * q, p, g);
    MulAssoc(4, p, g);
    MulAssoc(2, q, g);
    MulAssoc(4, q, g);
  }

  lemma Compare(a: int, b: int, g: int)
    requires g > 0
    ensures a <= b <==> a * g <= b * g
  {
    MulDistr(a, b, g);
    MulSign(a - b, g);
    MulSign(b - a, g);
  }

  // pp_build_resize.
  method BuildResize(tbl: array<u16>, srcW: pos, srcH: pos, dstW: pos, dstH: pos)
    returns (rc: int, indexReg: int, tblLen: int)
    requires tbl.Length == PP_TBL_MAX
    modifies tbl
    ensures var hn, hd, vn, vd := Num(srcW, dstW), Den(srcW, dstW), Num(srcH, dstH), Den(srcH, dstH);
            && rc == (if !(RatioOk(hn, hd) && RatioOk(vn, vd)) then EOPNOTSUPP
                      else if Needed(hn, hd, vn, vd) > PP_TBL_MAX then ENOSPC else 0)
            && (rc == 0 ==> tblLen == Needed(hn, hd, vn, vd) <= PP_TBL_MAX
                            && Laid(tbl[..tblLen], indexReg, hn == vn && hd == vd, Words(hn, hd), Words(vn, vd))
                            && ReadsExactly(tbl[..tblLen], indexReg, srcW, srcH, dstW, dstH))
    ensures rc == EOPNOTSUPP <==> !Scalable(srcW, dstW) || !Scalable(srcH, dstH)
  {
    RatioScales(srcW, dstW);
    RatioScales(srcH, dstH);
    Reduced(srcW, dstW);
    Reduced(srcH, dstH);
    var g := Euclid(srcW, dstW);
    var hn: pos, hd: pos := srcW / g, dstW / g;
    g := Euclid(srcH, dstH);
    var vn: pos, vd: pos := srcH / g, dstH / g;
    rc, indexReg, tblLen := BuildReduced(tbl, hn, hd, vn, vd);
    if rc == 0 {
      AxisExact(srcW, dstW);
      AxisExact(srcH, dstH);
      LaidExact(tbl[..tblLen], indexReg, srcW, srcH, dstW, dstH,
                hn == vn && hd == vd, Words(hn, hd), Words(vn, vd));
    }
  }
}
