// The eMMA pre-processor resize table (kernel/mxc_vpu.c, ported from
// reference/mx27_prphw.c): a 20-entry table built either bilinearly, on the
// same sampling grid as the post-processor, or by averaging.
module PrpResize {
  import opened Ratio
  import opened PpResize

  const MAX_TBL := 20
  const SCALE_RETRY := 16

  datatype Algo = Auto | Bilinear | Average

  // ----- Bilinear tables -----

  // Reductions of 2:1 and beyond average two pixels and skip the rest.
  function BoxTap(inv: pos, outv: pos, i: int): Tap {
    Tap(1, 2, ((i + 1) * inv) / outv - (i * inv) / outv)
  }

  function BilinearTaps(inv: pos, outv: pos): seq<Tap> {
    var n := Outputs(inv, outv);
    if inv >= 2 * outv then seq(n, i => BoxTap(inv, outv, i)) else seq(n, i => DownTap(inv, outv, i))
  }

  // Raw 7 means 8 to the hardware.
  function Raw(t: Tap): int {
    var r := (t.coeff * 8 + t.base / 2) / t.base;
    if r >= 7 then r - 1 else r
  }

  function Effective(raw: int): int {
    if raw == 7 then 8 else raw
  }

  function Zeros(n: int): (z: seq<int>)
    ensures |z| == (if n <= 0 then 0 else n) && forall i :: 0 <= i < |z| ==> z[i] == 0
  {
    if n <= 0 then [] else Zeros(n - 1) + [0]
  }

  // One output: a valid entry carrying the weight, then one empty entry for
  // every further input pixel.
  function Entry(t: Tap): seq<int> {
    [8 + Raw(t)] + Zeros(t.advance - 1)
  }

  function Entries(ts: seq<Tap>): seq<int> {
    if ts == [] then [] else Entries(ts[..|ts| - 1]) + Entry(ts[|ts| - 1])
  }

  predicate Usable(t: Tap) {
    0 <= t.coeff <= t.base && 1 <= t.advance
  }

  // w is the nearest weight in eighths, or 6 where that is 7, which the hardware takes
  // for 8.
  ghost predicate WeighsEighths(w: int, coeff: int, base: int) {
    forall r :: Nearest(r, coeff, base, 8) ==> w == if r == 7 then 6 else r
  }

  lemma RawRange(t: Tap)
    requires Usable(t)
    ensures 0 <= Raw(t) <= 7 && (Raw(t) == 7 <==> Nearest(8, t.coeff, t.base, 8))
    ensures WeighsEighths(Effective(Raw(t)), t.coeff, t.base)
  {
    var r := (t.coeff * 8 + t.base / 2) / t.base;
    RoundsToNearest(t.coeff, t.base, 8);
    forall q | Nearest(q, t.coeff, t.base, 8) ensures q == r {
      NearestUnique(q, r, t.coeff, t.base, 8);
    }
  }

  // ----- Reading a table back -----

  // The first entry from i on that is not empty, or the end of the table.
  function NextEntry(tbl: seq<int>, i: nat): (j: nat)
    requires i <= |tbl|
    ensures i <= j <= |tbl|
    ensures forall k :: i <= k < j ==> tbl[k] == 0
    ensures j < |tbl| ==> tbl[j] != 0
    decreases |tbl| - i
  {
    if i < |tbl| && tbl[i] == 0 then NextEntry(tbl, i + 1) else i
  }

  // prp_scale_get on a bilinear table: the effective weight at entry i, the
  // advance, and the index of the next entry (0 past the end).
  function Get(tbl: seq<int>, i: nat): (int, int, nat)
    requires i < |tbl|
  {
    var c := Effective(tbl[i] % 8);
    if i + 1 == |tbl| then (c, 1, 0)
    else
      var j := NextEntry(tbl, i + 1);
      (c, j - i, if j == |tbl| then 0 else j)
  }

  // n successive calls from entry i: what they return, and where they end.
  function Walk(tbl: seq<int>, i: nat, n: nat): (seq<(int, int)>, nat)
    requires i < |tbl|
    decreases n
  {
    if n == 0 then ([], i)
    else
      var (c, step, j) := Get(tbl, i);
      var (rest, end) := Walk(tbl, j, n - 1);
      ([(c, step)] + rest, end)
  }

  function Meant(ts: seq<Tap>): seq<(int, int)> {
    seq(|ts|, i requires 0 <= i < |ts| => (Effective(Raw(ts[i])), ts[i].advance))
  }

  lemma EntriesSnoc(ts: seq<Tap>, k: nat)
    requires k < |ts|
    ensures Entries(ts[..k + 1]) == Entries(ts[..k]) + Entry(ts[k])
  {
    assert ts[..k + 1][..k] == ts[..k];
  }

  // The table up to output k is a prefix of the whole table.
  lemma {:induction false} EntriesPrefix(ts: seq<Tap>, k: nat)
    requires k <= |ts|
    ensures Entries(ts[..k]) <= Entries(ts)
    decreases |ts| - k
  {
    if k < |ts| {
      EntriesSnoc(ts, k);
      EntriesPrefix(ts, k + 1);
    } else {
      assert ts[..k] == ts;
    }
  }

  lemma {:induction false} EntriesLength(ts: seq<Tap>)
    requires forall i :: 0 <= i < |ts| ==> Usable(ts[i])
    ensures |Entries(ts)| == Advances(ts)
    ensures ts != [] ==> Entries(ts) != [] && Entries(ts)[0] != 0
  {
    if ts != [] {
      RawRange(ts[|ts| - 1]);
      EntriesLength(ts[..|ts| - 1]);
    }
  }

  lemma GetEntry(w: seq<int>, front: seq<int>, t: Tap, rest: seq<int>)
    requires Usable(t) && w == front + Entry(t) + rest && (rest != [] ==> rest[0] != 0)
    ensures var end := |front| + t.advance;
            Get(w, |front|) == (Effective(Raw(t)), t.advance, if rest == [] then 0 else end)
  {
    RawRange(t);
    var off, end := |front|, |front| + t.advance;
    assert w[off] == Entry(t)[0];
    assert forall i :: off < i < end ==> w[i] == Zeros(t.advance - 1)[i - off - 1];
    assert rest != [] ==> w[end] == rest[0];
  }

  // One call at the start of output k returns exactly that output.
  lemma GetAt(ts: seq<Tap>, k: nat)
    requires k < |ts| && forall i :: 0 <= i < |ts| ==> Usable(ts[i])
    ensures var off, end := |Entries(ts[..k])|, |Entries(ts[..k + 1])|;
            && off < end <= |Entries(ts)|
            && Get(Entries(ts), off)
               == (Effective(Raw(ts[k])), ts[k].advance, if k + 1 == |ts| then 0 else end)
  {
    var w, front, t := Entries(ts), Entries(ts[..k]), ts[k];
    EntriesSnoc(ts, k);
    EntriesPrefix(ts, k + 1);
    var rest := w[|front| + t.advance..];
    if k + 1 == |ts| {
      assert ts[..k + 1] == ts;
    } else {
      FirstOf(ts, k + 1);
    }
    GetEntry(w, front, t, rest);
  }

  // Every output starts with an entry that is not empty.
  lemma FirstOf(ts: seq<Tap>, k: nat)
    requires k < |ts| && Usable(ts[k])
    ensures |Entries(ts[..k])| < |Entries(ts)| && Entries(ts)[|Entries(ts[..k])|] != 0
  {
    RawRange(ts[k]);
    EntriesSnoc(ts, k);
    EntriesPrefix(ts, k + 1);
    var front := Entries(ts[..k]);
    assert Entries(ts)[|front|] == (front + Entry(ts[k]))[|front|];
  }

  lemma {:induction false} WalkFrom(ts: seq<Tap>, k: nat)
    requires k < |ts| && forall i :: 0 <= i < |ts| ==> Usable(ts[i])
    ensures |Entries(ts[..k])| < |Entries(ts)|
    ensures Walk(Entries(ts), |Entries(ts[..k])|, |ts| - k) == (Meant(ts)[k..], 0)
    decreases |ts| - k
  {
    GetAt(ts, k);
    if k + 1 < |ts| {
      WalkFrom(ts, k + 1);
    }
    assert Meant(ts)[k..] == [Meant(ts)[k]] + Meant(ts)[k + 1..];
  }

  // ----- The bilinear grid -----

  lemma BoxStep(inv: pos, outv: pos, i: int)
    requires inv >= 2 * outv
    ensures Usable(BoxTap(inv, outv, i))
  {
    var n, n' := (i * inv) / outv, ((i + 1) * inv) / outv;
    MulDistr(i, 1, inv);
    assert i * inv == n * outv + (i * inv) % outv;
    assert (i + 1) * inv == n' * outv + ((i + 1) * inv) % outv;
    Apart(n', n, outv);
  }

  lemma {:induction false} BoxAdvances(inv: pos, outv: pos, i: nat)
    requires inv >= 2 * outv && i <= |BilinearTaps(inv, outv)|
    ensures Advances(BilinearTaps(inv, outv)[..i]) == (i * inv) / outv
  {
    var ts := BilinearTaps(inv, outv);
    if i == 0 {
      DivModUnique(0, outv, 0, 0);
    } else {
      BoxAdvances(inv, outv, i - 1);
      assert ts[..i][..i - 1] == ts[..i - 1];
    }
  }

  // A bilinear table has one entry per input pixel of the reduced ratio and one
  // valid entry per output pixel.
  lemma BilinearExact(inv: pos, outv: pos)
    requires outv < inv
    ensures var g, ts := Gcd(inv, outv), BilinearTaps(inv, outv);
            && |ts| == outv / g > 0 && Advances(ts) == inv / g == |Entries(ts)|
            && (forall i :: 0 <= i < |ts| ==> Usable(ts[i]))
  {
    var ts := BilinearTaps(inv, outv);
    var n := |ts|;
    Period(inv, outv);
    assert ts[..n] == ts;
    if inv >= 2 * outv {
      BoxAdvances(inv, outv, n);
      DivModUnique(n * inv, outv, inv / Gcd(inv, outv), 0);
    } else {
      assert ts == Taps(inv, outv);
      ExactRatio(inv, outv);
    }
    forall i | 0 <= i < n
      ensures Usable(ts[i])
    {
      if inv >= 2 * outv {
        BoxStep(inv, outv, i);
      } else {
        DownStep(inv, outv, i);
      }
    }
    EntriesLength(ts);
  }

  // Output i, behind `before` input pixels: below 2:1 it lies between input pixel
  // `before` and the next, and is weighted by its distance to the latter; from 2:1 on
  // it takes pixel floor(i*inv/outv) and the next alike.
  ghost predicate Blends(inv: pos, outv: pos, i: int, before: int, w: int) {
    if inv < 2 * outv then
      && (2 * before + 1) * outv < (2 * i + 1) * inv <= (2 * before + 3) * outv
      && WeighsEighths(w, (2 * before + 3) * outv - (2 * i + 1) * inv, 2 * outv)
    else before == (i * inv) / outv && w == 4
  }

  lemma TapBlends(inv: pos, outv: pos, i: nat)
    requires outv < inv && i < |BilinearTaps(inv, outv)|
    ensures var ts := BilinearTaps(inv, outv);
            Blends(inv, outv, i, Advances(ts[..i]), Effective(Raw(ts[i])))
  {
    hide WeighsEighths, Raw;
    var ts := BilinearTaps(inv, outv);
    BilinearExact(inv, outv);
    RawRange(ts[i]);
    if inv >= 2 * outv {
      BoxAdvances(inv, outv, i);
      HalfOfEight(ts[i]);
    } else {
      assert ts == Taps(inv, outv);
      DownGrid(inv, outv, i);
    }
  }

  lemma HalfOfEight(t: Tap)
    requires t.coeff == 1 && t.base == 2
    ensures Raw(t) == 4
  {
  }

  lemma {:induction false} MeantBefore(ts: seq<Tap>, i: nat)
    requires i <= |ts|
    ensures Total(Meant(ts)[..i]) == Advances(ts[..i])
  {
    if i > 0 {
      MeantBefore(ts, i - 1);
      assert Meant(ts)[..i][..i - 1] == Meant(ts)[..i - 1] && ts[..i][..i - 1] == ts[..i - 1];
    }
  }

  // Reading a whole bilinear table from entry 0 gives back every output's weight and
  // advance, each blending where it lies, and ends at entry 0 again.
  lemma ReadBack(inv: pos, outv: pos)
    requires outv < inv
    ensures var ts := BilinearTaps(inv, outv);
            && Entries(ts) != [] && Walk(Entries(ts), 0, |ts|) == (Meant(ts), 0)
            && forall i :: 0 <= i < |ts| ==> Blends(inv, outv, i, Total(Meant(ts)[..i]), Meant(ts)[i].0)
  {
    hide Blends, BilinearTaps, Raw, Effective;
    var ts := BilinearTaps(inv, outv);
    BilinearExact(inv, outv);
    NoTaps(ts);
    WalkFrom(ts, 0);
    assert Meant(ts)[0..] == Meant(ts);
    forall i | 0 <= i < |ts|
      ensures Blends(inv, outv, i, Total(Meant(ts)[..i]), Meant(ts)[i].0)
    {
      TapBlends(inv, outv, i);
      MeantBefore(ts, i);
    }
  }

  // The table for 3:2.
  lemma KnownEntries()
    ensures Entries(BilinearTaps(3, 2)) == [14, 10, 0]
  {
    hide DownTap, BoxTap, Entry, Zeros, Gcd;
    BilinearExact(3, 2);
    CoprimeThreeTwo();
    ThreeTwoTaps(3, 2);
    ThreeTwoEntries();
    var a, b := Tap(3, 4, 1), Tap(1, 4, 2);
    assert BilinearTaps(3, 2) == [a, b];
    assert [a, b][..1] == [a] && [a][..0] == [];
  }

  lemma ThreeTwoTaps(inv: pos, outv: pos)
    requires inv == 3 && outv == 2
    ensures DownTap(inv, outv, 0) == Tap(3, 4, 1) && DownTap(inv, outv, 1) == Tap(1, 4, 2)
  {
    hide Left;
    LeftUnique(inv, outv, 0, 0);
    LeftUnique(inv, outv, 1, 1);
    LeftUnique(inv, outv, 2, 3);
  }

  lemma ThreeTwoEntries()
    ensures Entry(Tap(3, 4, 1)) == [14] && Entry(Tap(1, 4, 2)) == [10, 0]
  {
    assert Zeros(1) == [0] && Zeros(0) == [];
  }

  lemma CoprimeThreeTwo()
    ensures Gcd(3, 2) == 1
  {
  }

  // ----- Averaging tables -----

  // The pixels that count when n > 8 of them are averaged: always eight, each
  // with weight 1/8.
  function Chosen(n: int): set<int> {
    if n == 9 then {0, 1, 2, 3, 4, 5, 6, 7}
    else if n == 10 then {1, 2, 3, 4, 5, 6, 7, 8}
    else if n == 11 then {1, 2, 3, 4, 6, 7, 8, 9}
    else if n == 12 then {1, 2, 4, 5, 6, 7, 9, 10}
    else if n == 13 then {1, 2, 4, 5, 7, 8, 10, 11}
    else if n == 14 then {1, 2, 4, 5, 7, 8, 10, 12}
    else if n == 15 then {1, 3, 5, 6, 8, 9, 11, 13}
    else if n == 16 then {0, 2, 4, 6, 8, 10, 12, 14}
    else if n == 17 then {1, 3, 5, 7, 9, 11, 13, 15}
    else if n == 18 then {1, 3, 5, 7, 10, 12, 14, 16}
    else if n == 19 then {1, 3, 5, 7, 10, 12, 14, 17}
    else {1, 4, 6, 8, 11, 13, 15, 18}
  }

  // The weight of pixel i when n pixels are averaged, in eighths (7 meaning 8).
  function AveWeight(n: int, i: int): int {
    if n == 1 then 7
    else if n == 2 then 4
    else if n == 3 then if i == 1 then 4 else 2
    else if n == 4 then 2
    else if n == 5 then if 1 <= i <= 3 then 2 else 1
    else if n == 6 then if 2 <= i <= 3 then 2 else 1
    else if n == 7 then if i == 3 then 2 else 1
    else if n == 8 then 1
    else if i in Chosen(n) then 1 else 0
  }

  // The table entries for n averaged pixels; the last one also delivers the
  // output.
  function Row(n: nat): (w: seq<int>)
    requires n > 0
    ensures |w| == n
  {
    seq(n, i => AveWeight(n, i))[n - 1 := AveWeight(n, n - 1) + 8]
  }

  predicate Rows(a: seq<int>) {
    forall v :: 0 <= v < |a| ==> 1 <= a[v] <= MAX_TBL
  }

  function AveTable(a: seq<int>): seq<int>
    requires Rows(a)
  {
    if a == [] then [] else AveTable(a[..|a| - 1]) + Row(a[|a| - 1])
  }

  function Sum(a: seq<int>): int {
    if a == [] then 0 else Sum(a[..|a| - 1]) + a[|a| - 1]
  }

  // inv inputs shared out over outv outputs as evenly as possible, the larger
  // shares in the middle.
  function Share(inv: pos, outv: pos, v: int): int {
    var r := inv % outv;
    var lo := (outv - r) / 2;
    inv / outv + if lo <= v < lo + r then 1 else 0
  }

  function Shares(inv: pos, outv: pos): (a: seq<int>)
    ensures |a| == outv
  {
    seq(outv, v => Share(inv, outv, v))
  }

  // What the hardware makes of an averaging table: for every finished output
  // the inputs it took and their total weight, then the same for the unfinished
  // rest.
  function AveRead(ws: seq<int>): (seq<(int, int)>, int, int) {
    if ws == [] then ([], 0, 0) else AveTake(AveRead(ws[..|ws| - 1]), ws[|ws| - 1])
  }

  function AveTake(st: (seq<(int, int)>, int, int), w: int): (seq<(int, int)>, int, int) {
    var gain := st.2 + Effective(w % 8);
    if w / 8 != 0 then (st.0 + [(st.1 + 1, gain)], 0, 0) else (st.0, st.1 + 1, gain)
  }

  lemma AveSnoc(ws: seq<int>, w: int)
    ensures AveRead(ws + [w]) == AveTake(AveRead(ws), w)
  {
    assert (ws + [w])[..|ws|] == ws;
  }

  // The total weight of the first k of n averaged pixels.
  function Gain(n: int, k: nat): int
    decreases k
  {
    if k == 0 then 0 else Gain(n, k - 1) + Effective(AveWeight(n, k - 1))
  }

  function ChosenBelow(n: int, k: int): set<int> {
    set i | i in Chosen(n) && 0 <= i < k
  }

  lemma ChosenStep(n: int, k: nat)
    ensures |ChosenBelow(n, k + 1)| == |ChosenBelow(n, k)| + if k in Chosen(n) then 1 else 0
  {
    var before := ChosenBelow(n, k);
    assert ChosenBelow(n, k + 1) == if k in Chosen(n) then before + {k} else before;
  }

  lemma {:induction false} GainCounts(n: int, k: nat)
    requires n > 8
    ensures Gain(n, k) == |ChosenBelow(n, k)|
  {
    if k > 0 {
      GainCounts(n, k - 1);
      ChosenStep(n, k - 1);
    } else {
      assert ChosenBelow(n, 0) == {};
    }
  }

  lemma FewGain(n: int)
    requires 1 <= n <= 8
    ensures Gain(n, n) == 8
  {
    if n <= 4 {
      assert Gain(1, 1) == 8;
      assert Gain(2, 2) == 8;
      assert Gain(3, 3) == 8;
      assert Gain(4, 4) == 8;
    } else if n <= 6 {
      assert Gain(5, 5) == 8;
      assert Gain(6, 6) == 8;
    } else {
      assert Gain(7, 7) == 8;
      assert Gain(8, 8) == 8;
    }
  }

  lemma EightChosen(n: int)
    requires 9 <= n <= MAX_TBL
    ensures |Chosen(n)| == 8
  {
    if n <= 14 {
      FewerChosen(n);
    } else if n <= 16 {
      assert |Chosen(15)| == 8;
      assert |Chosen(16)| == 8;
    } else if n <= 18 {
      assert |Chosen(17)| == 8;
      assert |Chosen(18)| == 8;
    } else {
      assert |Chosen(19)| == 8;
      assert |Chosen(20)| == 8;
    }
  }

  lemma FewerChosen(n: int)
    requires 9 <= n <= 14
    ensures |Chosen(n)| == 8
  {
    if n <= 10 {
      assert |Chosen(9)| == 8;
      assert |Chosen(10)| == 8;
    } else if n <= 12 {
      assert |Chosen(11)| == 8;
      assert |Chosen(12)| == 8;
    } else {
      assert |Chosen(13)| == 8;
      assert |Chosen(14)| == 8;
    }
  }

  // Every averaging row has unity gain: its effective weights total 8/8.
  lemma UnityGain(n: int)
    requires 1 <= n <= MAX_TBL
    ensures Gain(n, n) == 8
  {
    if n <= 8 {
      FewGain(n);
    } else {
      GainCounts(n, n);
      EightChosen(n);
      AllChosen(n);
    }
  }

  lemma AllChosen(n: int)
    requires 9 <= n <= MAX_TBL
    ensures ChosenBelow(n, n) == Chosen(n)
  {
  }

  // Rows of up to eight pixels are the same from both ends and do not fall towards the
  // middle.
  lemma RowShape(n: int, i: int, j: int)
    requires 1 <= n <= 8 && 0 <= i <= j && i + j <= n - 1
    ensures AveWeight(n, i) == AveWeight(n, n - 1 - i)
    ensures Effective(AveWeight(n, i)) <= Effective(AveWeight(n, j))
  {
  }

  // The same total, read off the table entries.
  function EntryGain(row: seq<int>, k: nat): int
    requires k <= |row|
    decreases k
  {
    if k == 0 then 0 else EntryGain(row, k - 1) + Effective(row[k - 1] % 8)
  }

  lemma WeightRange(n: int, i: int)
    ensures 0 <= AveWeight(n, i) < 8
  {
  }

  lemma RowAt(n: nat, i: nat)
    requires i < n
    ensures Row(n)[i] % 8 == AveWeight(n, i)
  {
    WeightRange(n, i);
  }

  lemma {:induction false} RowGain(n: nat, row: seq<int>, k: nat)
    requires k <= n == |row| && forall i :: 0 <= i < n ==> row[i] % 8 == AveWeight(n, i)
    ensures EntryGain(row, k) == Gain(n, k)
  {
    if k > 0 {
      RowGain(n, row, k - 1);
    }
  }

  lemma {:induction false} ReadPartialRow(front: seq<int>, done: seq<(int, int)>, row: seq<int>, k: nat)
    requires k < |row| && (forall i :: 0 <= i < |row| - 1 ==> 0 <= row[i] < 8)
    requires AveRead(front) == (done, 0, 0)
    ensures AveRead(front + row[..k]) == (done, k, EntryGain(row, k))
  {
    if k == 0 {
      assert front + row[..0] == front;
    } else {
      ReadPartialRow(front, done, row, k - 1);
      AveSnoc(front + row[..k - 1], row[k - 1]);
      assert front + row[..k] == front + row[..k - 1] + [row[k - 1]];
    }
  }

  lemma ReadLast(front: seq<int>, part: seq<int>, w: int, done: seq<(int, int)>, gain: int)
    requires w >= 8 && AveRead(front + part) == (done, |part|, gain)
    ensures AveRead(front + (part + [w])) == (done + [(|part| + 1, gain + Effective(w % 8))], 0, 0)
  {
    AveSnoc(front + part, w);
    assert front + (part + [w]) == front + part + [w];
  }

  lemma ReadWholeRow(front: seq<int>, done: seq<(int, int)>, row: seq<int>)
    requires row != [] && row[|row| - 1] >= 8 && (forall i :: 0 <= i < |row| - 1 ==> 0 <= row[i] < 8)
    requires AveRead(front) == (done, 0, 0)
    ensures AveRead(front + row) == (done + [(|row|, EntryGain(row, |row|))], 0, 0)
  {
    hide AveRead, Effective;
    var k := |row| - 1;
    ReadPartialRow(front, done, row, k);
    ReadLast(front, row[..k], row[k], done, EntryGain(row, k));
    assert row == row[..k] + [row[k]];
  }

  lemma ReadRow(front: seq<int>, done: seq<(int, int)>, n: nat)
    requires 1 <= n <= MAX_TBL && AveRead(front) == (done, 0, 0)
    ensures AveRead(front + Row(n)) == (done + [(n, 8)], 0, 0)
  {
    var row := Row(n);
    forall i | 0 <= i < n
      ensures 0 <= AveWeight(n, i) < 8
    {
      WeightRange(n, i);
    }
    ReadWholeRow(front, done, row);
    forall i | 0 <= i < n
      ensures row[i] % 8 == AveWeight(n, i)
    {
      RowAt(n, i);
    }
    RowGain(n, row, n);
    UnityGain(n);
  }

  function Averaged(a: seq<int>): (s: seq<(int, int)>)
    ensures |s| == |a|
  {
    if a == [] then [] else Averaged(a[..|a| - 1]) + [(a[|a| - 1], 8)]
  }

  // The table averages a[v] inputs into output v, at unity gain.
  lemma {:induction false} AveReadBack(a: seq<int>)
    requires Rows(a)
    ensures AveRead(AveTable(a)) == (Averaged(a), 0, 0) && |AveTable(a)| == Sum(a)
  {
    if a != [] {
      AveReadBack(a[..|a| - 1]);
      ReadRow(AveTable(a[..|a| - 1]), Averaged(a[..|a| - 1]), a[|a| - 1]);
    }
  }

  lemma ShareRange(inv: pos, outv: pos, v: int)
    requires outv <= inv <= MAX_TBL
    ensures 1 <= Share(inv, outv, v) <= MAX_TBL
  {
    var q, r := Division(inv, outv);
    DivModUnique(inv, outv, q, r);
    MulSign(q, outv);
    MulDistr(q, 1, outv);
    MulSign(q - MAX_TBL, outv);
    MulDistr(q, MAX_TBL, outv);
  }

  lemma SharesRange(inv: pos, outv: pos)
    requires outv <= inv <= MAX_TBL
    ensures Rows(Shares(inv, outv))
  {
    forall v | 0 <= v < outv
      ensures 1 <= Shares(inv, outv)[v] <= MAX_TBL
    {
      ShareRange(inv, outv, v);
    }
  }

  lemma {:induction false} SumShares(inv: pos, outv: pos, k: nat)
    requires k <= outv
    ensures var r := inv % outv; var lo := (outv - r) / 2;
            Sum(Shares(inv, outv)[..k])
            == k * (inv / outv) + if k <= lo then 0 else if k <= lo + r then k - lo else r
  {
    if k > 0 {
      SumShares(inv, outv, k - 1);
      assert Shares(inv, outv)[..k][..k - 1] == Shares(inv, outv)[..k - 1];
      MulDistr(k - 1, 1, inv / outv);
    }
  }

  // Any two shares differ by one at most; they are the same from both ends, or but for
  // the last one, and do not fall towards the middle.
  lemma SharesShape(inv: pos, outv: pos, v: nat, w: nat)
    requires v < outv && w < outv
    ensures Share(inv, outv, v) <= Share(inv, outv, w) + 1
    ensures var last := outv - 1 - (outv - inv % outv) % 2;
            && (v <= last ==> Share(inv, outv, v) == Share(inv, outv, last - v))
            && (v <= w && v + w <= last ==> Share(inv, outv, v) <= Share(inv, outv, w))
  {
    var q, r := Division(inv, outv);
  }

  // No input pixel is lost or used twice.
  lemma SharesTotal(inv: pos, outv: pos)
    ensures Sum(Shares(inv, outv)) == inv
  {
    SumShares(inv, outv, outv);
    assert Shares(inv, outv)[..outv] == Shares(inv, outv);
    var q, r := Division(inv, outv);
    DivModUnique(inv, outv, q, r);
  }

  // ----- The builders -----

  // scale_t, filled in place.
  class Scale {
    const tbl: array<nat>
    const ratio: array<nat>
    var len: nat
    var algo: Algo

    predicate Valid()
      reads this
    {
      tbl.Length == MAX_TBL && ratio.Length == MAX_TBL && tbl != ratio && len <= MAX_TBL
    }

    constructor ()
      ensures Valid() && fresh(tbl) && fresh(ratio) && algo == Auto && len == 0
    {
      tbl, ratio := new nat[MAX_TBL](_ => 0), new nat[MAX_TBL](_ => 0);
      len, algo := 0, Auto;
    }

    // prp_scale_get.
    method ScaleGet(i: nat) returns (c: int, out: int, j: nat)
      requires Valid() && i < len
      ensures algo == Bilinear ==> (c, out, j) == Get(tbl[..len], i) && out >= 1
      ensures algo != Bilinear ==> c == Effective(tbl[i] % 8) && out == tbl[i] / 8 && j == Next(i, len)
      ensures j < len
    {
      c := tbl[i];
      j := Advance(i, len);
      if algo == Bilinear {
        out := 1;
        if j != 0 {
          out, j := SkipEmpty(j, out);
        }
      } else {
        out := c / 8;
      }
      c := c % 8;
      if c == 7 {
        c := 8;
      }
    }

    // Its loop over the empty entries of one output.
    method SkipEmpty(j0: nat, out0: int) returns (out: int, j: nat)
      requires Valid() && 0 < j0 < len
      ensures var next := NextEntry(tbl[..len], j0);
              out == out0 + next - j0 && j == if next == len then 0 else next
    {
      ghost var w := tbl[..len];
      out, j := out0, j0;
      while j < len && tbl[j] == 0
        invariant j0 <= j <= len && out == out0 + j - j0
        invariant NextEntry(w, j0) == NextEntry(w, j)
        decreases len - j
      {
        j := j + 1;
        out := out + 1;
      }
      if j == len {
        j := 0;
      }
    }

    // prp_scale_bilinear: append one output.
    method PutBilinear(coeff0: int, base: pos, nxt: int) returns (r: int)
      requires Valid() && Usable(Tap(coeff0, base, nxt))
      modifies this`len, tbl
      ensures Valid()
      ensures if old(len) + nxt <= MAX_TBL
              then r == len == old(len) + nxt
                   && tbl[..len] == old(tbl[..len]) + Entry(Tap(coeff0, base, nxt))
              else r == -1
    {
      if len >= MAX_TBL {
        return -1;
      }
      ghost var k := len;
      var coeff := WeighEighths(coeff0, base);
      tbl[len] := coeff + 8;
      len := len + 1;
      var i := 1;
      while i < nxt
        invariant 1 <= i <= nxt && len == k + i <= MAX_TBL
        invariant tbl[k] == coeff + 8
        invariant forall m :: 0 <= m < k ==> tbl[m] == old(tbl[m])
        invariant forall m :: k < m < len ==> tbl[m] == 0
      {
        if len >= MAX_TBL {
          return -1;
        }
        tbl[len] := 0;
        len := len + 1;
        i := i + 1;
      }
      return len;
    }

    // One output of a ratio loop: entry i of the period ts.
    method Append(ghost ts: seq<Tap>, ghost i: nat, coeff: int, base: pos, nxt: int) returns (r: int)
      requires Valid() && i < |ts| && ts[i] == Tap(coeff, base, nxt) && Usable(ts[i])
      requires tbl[..len] == Entries(ts[..i])
      modifies this`len, tbl
      ensures Valid()
      ensures if r >= 0 then tbl[..len] == Entries(ts[..i + 1]) else r == -1 && |Entries(ts)| > MAX_TBL
    {
      EntriesSnoc(ts, i);
      EntriesPrefix(ts, i + 1);
      r := PutBilinear(coeff, base, nxt);
    }

    // The bilinear loop below 2:1.
    method BuildDown(inv: pos, outv: pos) returns (r: int)
      requires Valid() && len == 0 && outv < inv < 2 * outv
      modifies this`len, tbl
      ensures Valid()
      ensures var e := Entries(BilinearTaps(inv, outv));
              if |e| <= MAX_TBL then r == len == |e| && tbl[..len] == e else r == -1
    {
      hide Entries;
      ghost var ts, i, n := BilinearTaps(inv, outv), 0, 0;
      Period(inv, outv);
      NoTaps(ts);
      var out_pos, init_carry := inv, inv - outv;
      var carry := init_carry;
      var v := outv + 2 * outv;
      while true
        invariant Valid() && 0 <= i < |ts| && DownPhase(inv, outv, i, n, v, out_pos, carry)
        invariant tbl[..len] == Entries(ts[..i])
        decreases |ts| - i
      {
        var coeff, nxt;
        coeff, nxt, v, out_pos, carry := DownOutput(inv, outv, v, out_pos, carry, i, n);
        var k := Append(ts, i, coeff, 2 * outv, nxt);
        if k < 0 {
          return -1;
        }
        i, n := i + 1, n + nxt;
        if carry == init_carry {
          break;
        }
      }
      assert ts[..i] == ts;
      return len;
    }

    // The bilinear loop from 2:1 on.
    method BuildBox(inv: pos, outv: pos) returns (r: int)
      requires Valid() && len == 0 && inv >= 2 * outv
      modifies this`len, tbl
      ensures Valid()
      ensures var e := Entries(BilinearTaps(inv, outv));
              if |e| <= MAX_TBL then r == len == |e| && tbl[..len] == e else r == -1
    {
      ghost var ts, i, n := BilinearTaps(inv, outv), 0, 0;
      Period(inv, outv);
      var v := 0;
      while true
        invariant Valid() && 0 <= i < |ts| && UpPhase(inv, outv, i, n, v)
        invariant tbl[..len] == Entries(ts[..i])
        decreases |ts| - i
      {
        var nxt;
        nxt, v := BoxOutput(inv, outv, v, i, n);
        var k := Append(ts, i, 1, 2, nxt);
        if k < 0 {
          return -1;
        }
        i, n := i + 1, n + nxt;
        if v == 0 {
          break;
        }
      }
      assert ts[..i] == ts;
      return len;
    }

    // prp_scale_ave: append the row for n averaged pixels.
    method PutAverage(n: nat) returns (r: int)
      requires Valid() && 1 <= n <= MAX_TBL
      modifies this`len, tbl
      ensures Valid()
      ensures if old(len) + n <= MAX_TBL
              then r == len == old(len) + n && tbl[..len] == old(tbl[..len]) + Row(n)
              else r == -1 && len == old(len)
    {
      if len + n > MAX_TBL {
        return -1;
      }
      hide AveWeight;
      ghost var k := len;
      var i := 0;
      while i < n
        invariant 0 <= i <= n && len == k
        invariant forall m :: 0 <= m < k ==> tbl[m] == old(tbl[m])
        invariant forall m :: 0 <= m < i ==> tbl[k + m] == AveWeight(n, m)
      {
        WeightRange(n, i);
        tbl[len + i] := AveWeight(n, i);
        i := i + 1;
      }
      len := len + n;
      WeightRange(n, n - 1);
      tbl[len - 1] := tbl[len - 1] + 8;
      return len;
    }

    // The table-filling loop of prp_ave_scale.
    method PutShares(part: array<nat>, ghost a: seq<nat>) returns (r: int)
      requires Valid() && len == 0 && part[..] == a && Rows(a) && |a| <= MAX_TBL
      requires part != tbl && part != ratio
      modifies this`len, tbl, ratio
      ensures Valid()
      ensures if |AveTable(a)| <= MAX_TBL
              then r == len == |AveTable(a)| && tbl[..len] == AveTable(a)
                   && (forall m :: 0 <= m < |a| ==> ratio[m] == a[m])
                   && (forall m :: |a| <= m < MAX_TBL ==> ratio[m] == old(ratio[m]))
              else r == -1
    {
      hide AveTable, Row, AveWeight;
      AveTableNone(a);
      var v := 0;
      while v < part.Length
        invariant Valid() && 0 <= v <= |a| && part[..] == a
        invariant tbl[..len] == AveTable(a[..v])
        invariant forall m :: 0 <= m < v ==> ratio[m] == a[m]
        invariant forall m :: |a| <= m < MAX_TBL ==> ratio[m] == old(ratio[m])
      {
        AveTableSnoc(a, v);
        AvePrefix(a, v + 1);
        var k := PutAverage(part[v]);
        if k < 0 {
          return -1;
        }
        ratio[v] := part[v];
        v := v + 1;
      }
      assert a[..v] == a;
      return len;
    }

    // prp_ave_scale: split inv:outv into outv averages of a few pixels each.
    method AveScale(inv: pos, outv: pos) returns (r: int)
      requires Valid() && len == 0 && outv <= inv <= MAX_TBL
      modifies this`len, tbl, ratio
      ensures Valid() && r == len == inv
      ensures Rows(Shares(inv, outv)) && tbl[..len] == AveTable(Shares(inv, outv))
      ensures forall m :: 0 <= m < MAX_TBL ==>
                ratio[m] == if m < outv then Share(inv, outv, m) else old(ratio[m])
    {
      AveExact(inv, outv);
      if outv != 1 {
        var part := ShareOut(inv, outv);
        r := PutShares(part, part[..]);
      } else {
        OneShare(inv);
        r := PutAverage(inv);
        if r >= 0 {
          ratio[0] := inv;
        }
      }
    }

    // A finished table for the reduced ratio n:d, and the ratio it records.
    ghost predicate Built(n: pos, d: pos)
      reads this, tbl, ratio
    {
      && Valid() && d <= n <= MAX_TBL && algo != Auto
      && (algo == Bilinear ==>
            d < n && tbl[..len] == Entries(BilinearTaps(n, d)) && ratio[0] == n && ratio[1] == d)
      && (algo == Average ==>
            && Rows(Shares(n, d)) && tbl[..len] == AveTable(Shares(n, d))
            && forall m :: 0 <= m < MAX_TBL ==> ratio[m] == if m < d then Share(n, d, m) else 0)
    }

    // prp_scale_build, for a ratio in lowest terms that passed the size check.
    method Build(inv: pos, outv: pos) returns (r: int)
      requires Valid() && inv <= MAX_TBL && Gcd(inv, outv) == 1
      modifies this, tbl, ratio
      ensures Valid()
      ensures if inv < outv then r == -1 else r == len == inv && Built(inv, outv)
      ensures old(algo) == Auto ==> algo == if outv < inv < 2 * outv then Bilinear else if inv < outv then Bilinear else Average
      ensures old(algo) != Auto && inv != outv ==> algo == old(algo)
    {
      len := 0;
      if algo == Auto {
        algo := if outv != inv && 2 * outv > inv then Bilinear else Average;
      }
      if inv == outv && algo == Bilinear {
        algo := Average;
      }
      forall i | 0 <= i < MAX_TBL {
        tbl[i] := 0;
      }
      if algo == Bilinear {
        ratio[0] := inv;
        ratio[1] := outv;
      } else {
        forall i | 0 <= i < MAX_TBL {
          ratio[i] := 0;
        }
      }
      if inv == outv {
        CoprimeEqual(inv);
        OneShare(1);
        ratio[0] := 1;
        r := PutAverage(1);
        return r;
      }
      if inv < outv {
        return -1;
      }
      if algo != Bilinear {
        r := AveScale(inv, outv);
        return r;
      }
      BilinearExact(inv, outv);
      DivModUnique(inv, 1, inv, 0);
      if inv >= 2 * outv {
        r := BuildBox(inv, outv);
      } else {
        r := BuildDown(inv, outv);
      }
    }

    // The output size prp_scale reports for inv input pixels, once the table for
    // n:d is built: d for every whole period, and what the rest comes to.
    method RealOut(inv: nat, ghost n: pos, ghost d: pos) returns (outv: nat, j: nat)
      requires Built(n, d) && Gcd(n, d) == 1 && len == n
      ensures outv == (Whole(inv, n, d) + j) % 0x10000
      ensures if algo == Bilinear then LastBilinear(BilinearTaps(n, d), Rest(inv, n), j) else LastShare(n, d, Rest(inv, n), j)
      ensures Rest(inv, n) == 0 ==> j == 0
    {
      hide Whole, Rest, LastBilinear, LastShare, BilinearTaps, Entries, AveTable, Rows, Shares, Share;
      var whole, more;
      if algo == Bilinear {
        whole := Whole(inv, ratio[0], ratio[1]);
        more := BilinearRest(Rest(inv, ratio[0]), n, d);
      } else {
        var i, tot := CountShares(n, d);
        whole := Whole(inv, tot, i);
        more := AverageRest(Rest(inv, tot), n, d);
      }
      outv := Sum16(whole, more);
      j := more;
      LastNone(n, d, j);
    }

    // Outputs for a last partial period: walk the table.
    method BilinearRest(rest0: nat, ghost n: pos, ghost d: pos) returns (j: nat)
      requires Built(n, d) && algo == Bilinear && Gcd(n, d) == 1 && rest0 < n
      ensures LastBilinear(BilinearTaps(n, d), rest0, j)
    {
      hide Entries, BilinearTaps, Effective, Raw, Get;
      ghost var ts := BilinearTaps(n, d);
      BilinearExact(n, d);
      DivModUnique(n, 1, n, 0);
      var rest: int := rest0;
      var i: nat := 0;
      j := 0;
      NoTaps(ts);
      while rest > 0
        invariant j <= |ts| && rest == rest0 - Advances(ts[..j]) && (j < |ts| ==> i == |Entries(ts[..j])|)
        invariant j == |ts| ==> rest <= 0
        invariant forall k :: 0 <= k < j ==> !Covered(ts, rest0, k)
        decreases rest
      {
        GetAt(ts, j);
        AdvanceMore(ts, j);
        var k, nxt, i' := ScaleGet(i);
        i := i';
        if rest == 1 && k < 8 {
          return;
        }
        rest := rest - nxt;
        j := j + 1;
      }
    }

    // Outputs for a last partial period: hand out shares until they cover it.
    method AverageRest(rest0: nat, ghost n: pos, ghost d: pos) returns (i: nat)
      requires Built(n, d) && algo == Average && rest0 < n
      ensures LastShare(n, d, rest0, i)
    {
      ghost var a := Shares(n, d);
      var rest: int := rest0;
      i := 0;
      while rest > 0
        invariant i <= d && rest == rest0 - Sum(a[..i]) && (rest0 == 0 ==> i == 0)
        invariant i > 0 ==> Sum(a[..i - 1]) < rest0
        decreases rest
      {
        AllShared(n, d, i);
        assert a[..i + 1][..i] == a[..i];
        rest := rest - ratio[i];
        i := i + 1;
      }
    }

    // The loop that totals the recorded shares.
    method CountShares(ghost n: pos, ghost d: pos) returns (i: nat, tot: nat)
      requires Built(n, d) && algo == Average && Gcd(n, d) == 1
      ensures i == d && tot == n
    {
      ghost var a := Shares(n, d);
      if d == n {
        CoprimeEqual(n);
      }
      i, tot := 0, 0;
      while ratio[i] != 0
        invariant 0 <= i <= d < MAX_TBL && tot == Sum(a[..i])
        decreases d - i
      {
        assert a[..i + 1][..i] == a[..i];
        assert i < d;
        tot := tot + ratio[i];
        i := i + 1;
      }
      if i < d {
        ShareRange(n, d, i);
      }
      assert a[..d] == a;
      SharesTotal(n, d);
    }

    // prp_scale: build a table for din:d, with d the first of
    // dout, dout + 1, ..., dout + retry whose reduced ratio fits the table, and
    // report the output size for inv input pixels.
    method Fit(din: nat, dout0: nat, inv: nat, vout0: nat, retry0: nat)
      returns (rc: int, vout: nat, ghost d: nat)
      requires Valid() && algo == Auto
      modifies this, tbl, ratio
      ensures Valid() && (rc == 0 || rc == -1)
      ensures rc == 0 ==> 0 < dout0 && FirstFit(din, dout0, retry0, d) && Built(Num(din, d), Den(din, d))
      ensures rc == 0 && inv == din ==> vout == if vout0 == 0 || vout0 > d % 0x10000 then d % 0x10000 else vout0
      ensures rc == -1 ==> vout == vout0 && (0 < dout0 ==> forall e :: dout0 <= e <= dout0 + retry0 ==> !FitsTable(din, e))
    {
      var dout, retry: int := dout0, retry0;
      vout, d := vout0, 0;
      if din < dout {
        return -1, vout0, 0;
      }
      if din == 0 || dout == 0 {
        return -1, vout0, 0;
      }
      while true
        invariant Valid() && algo == Auto && 0 <= retry && dout0 <= dout <= din
        invariant dout - dout0 == retry0 - retry
        invariant forall e :: dout0 <= e < dout ==> !FitsTable(din, e)
        decreases retry
      {
        var g := Euclid(din, dout);
        Period(din, dout);
        Reduced(din, dout);
        var num: pos, den: pos := din / g, dout / g;
        FitsHere(din, dout);
        var fits := num <= MAX_TBL;
        if fits {
          var k := Build(num, den);
          fits := k >= 0;
        }
        if fits {
          break;
        }
        dout := dout + 1;
        if retry == 0 {
          return -1, vout0, 0;
        }
        retry := retry - 1;
      }
      d := dout;
      Period(din, dout);
      Reduced(din, dout);
      WholePeriods(din, dout);
      var outv, j := RealOut(inv, Num(din, dout), Den(din, dout));
      if vout0 == 0 || vout0 > outv {
        vout := outv;
      }
      rc := 0;
    }
  }

  // prp_scale as the converter calls it: the whole input width, nothing known of the
  // output yet, and sixteen retries.  It succeeds exactly when some size in reach
  // fits, and reports the least one.
  method FitWidth(t: Scale, din: nat, dout: nat) returns (rc: int, vout: nat)
    requires t.Valid() && t.algo == Auto
    modifies t, t.tbl, t.ratio
    ensures t.Valid() && (rc == 0 || rc == -1)
    ensures rc == 0 <==> dout > 0 && exists d :: dout <= d <= dout + SCALE_RETRY && FitsTable(din, d)
    ensures rc == 0 && din < 0x10000 ==> FirstFit(din, dout, SCALE_RETRY, vout) && t.Built(Num(din, vout), Den(din, vout))
  {
    ghost var d;
    rc, vout, d := t.Fit(din, dout, din, 0, SCALE_RETRY);
  }

  // Whether k outputs are enough for a rest of so many inputs: they take them all,
  // or all but one that the next output would only blend in.
  predicate Covered(ts: seq<Tap>, rest: int, k: nat)
    requires k <= |ts|
  {
    || rest <= Advances(ts[..k])
    || (k < |ts| && rest == Advances(ts[..k]) + 1 && Effective(Raw(ts[k])) < 8)
  }

  // j is the least number of outputs that is enough.
  predicate LastBilinear(ts: seq<Tap>, rest: int, j: nat) {
    j <= |ts| && Covered(ts, rest, j) && forall k :: 0 <= k < j ==> !Covered(ts, rest, k)
  }

  // j is the least number of shares that take a rest of so many inputs.
  predicate LastShare(n: pos, d: pos, rest: int, j: nat) {
    j <= d && rest <= Sum(Shares(n, d)[..j]) && (j > 0 ==> Sum(Shares(n, d)[..j - 1]) < rest)
  }

  lemma NoTaps(ts: seq<Tap>)
    ensures Advances(ts[..0]) == 0 && |Entries(ts[..0])| == 0 && ts[..|ts|] == ts
  {
  }

  lemma AdvanceMore(ts: seq<Tap>, k: nat)
    requires k < |ts|
    ensures Advances(ts[..k + 1]) == Advances(ts[..k]) + ts[k].advance
    ensures k + 1 == |ts| ==> ts[..k + 1] == ts
  {
    assert ts[..k + 1][..k] == ts[..k];
  }

  // The outputs of whole periods of n inputs, and the inputs beyond them.
  function Whole(inv: nat, n: pos, d: nat): (w: nat) {
    inv / n * d
  }

  function Rest(inv: nat, n: pos): (r: nat)
    ensures r < n
  {
    inv % n
  }

  // A sum kept in an unsigned short.
  method Sum16(a: nat, b: nat) returns (s: nat)
    ensures s == (a + b) % 0x10000
  {
    s := a % 0x10000;
    assert a + b == 0x10000 * (a / 0x10000) + (s + b);
    s := (s + b) % 0x10000;
  }

  // No rest takes no outputs.
  lemma LastNone(n: pos, d: pos, j: nat)
    ensures LastBilinear(BilinearTaps(n, d), 0, j) ==> j == 0
    ensures LastShare(n, d, 0, j) && d <= n <= MAX_TBL ==> j == 0
  {
    var ts := BilinearTaps(n, d);
    if LastBilinear(ts, 0, j) && j > 0 {
      NoTaps(ts);
      assert Covered(ts, 0, 0);
    }
    if LastShare(n, d, 0, j) && d <= n <= MAX_TBL && j > 0 {
      SharesPositive(n, d, j - 1);
    }
  }

  lemma {:induction false} SharesPositive(n: pos, d: pos, k: nat)
    requires d <= n <= MAX_TBL && k <= d
    ensures Sum(Shares(n, d)[..k]) >= 0
  {
    if k > 0 {
      SharesPositive(n, d, k - 1);
      ShareRange(n, d, k - 1);
      assert Shares(n, d)[..k][..k - 1] == Shares(n, d)[..k - 1];
    }
  }

  // Output size d can be produced from din input pixels.
  predicate FitsTable(din: nat, d: nat) {
    0 < d <= din && Num(din, d) <= MAX_TBL
  }

  predicate FirstFit(din: nat, dout: nat, retry: nat, d: nat) {
    && dout <= d <= dout + retry && FitsTable(din, d)
    && forall e :: dout <= e < d ==> !FitsTable(din, e)
  }

  // din itself always fits, so the search never passes it.
  lemma FitsHere(din: pos, d: pos)
    requires d <= din
    ensures Den(din, d) <= Num(din, d)
    ensures d == din ==> Num(din, d) == 1
  {
    var p, q := Reduce(din, d);
    var g := Gcd(din, d);
    MulDistr(q, p, g);
    MulSign(q as int - p, g);
    if d == din {
      GcdIsGreatest(din, d, din, 1, 1);
      MulSign(p as int - 1, g);
      MulDistr(p, 1, g);
    }
  }

  // Over a whole number of periods the output size is exactly d.
  lemma WholePeriods(din: pos, d: pos)
    ensures din % Num(din, d) == 0 && din / Num(din, d) * Den(din, d) == d
  {
    var p, q := Reduce(din, d);
    var g := Gcd(din, d);
    DivModUnique(din, p, g, 0);
  }

  lemma CoprimeEqual(n: pos)
    requires Gcd(n, n) == 1
    ensures n == 1
  {
    GcdIsGreatest(n, n, n, 1, 1);
  }

  // Fewer than n pixels are covered by fewer than d shares.
  lemma AllShared(n: pos, d: pos, i: nat)
    requires d <= n <= MAX_TBL && i <= d && Sum(Shares(n, d)[..i]) < n
    ensures i < d && Share(n, d, i) >= 1
  {
    SharesTotal(n, d);
    assert Shares(n, d)[..d] == Shares(n, d);
    if i < d {
      ShareRange(n, d, i);
    }
  }

  // An averaging table has one entry per input pixel, and reads back as outv
  // outputs of unity gain that use up all inv inputs.
  lemma AveExact(inv: pos, outv: pos)
    requires outv <= inv <= MAX_TBL
    ensures var a := Shares(inv, outv);
            && Rows(a) && |a| == outv && Sum(a) == inv && |AveTable(a)| == inv
            && AveRead(AveTable(a)) == (Averaged(a), 0, 0)
  {
    SharesRange(inv, outv);
    SharesTotal(inv, outv);
    AveReadBack(Shares(inv, outv));
  }

  lemma OneShare(inv: pos)
    requires inv <= MAX_TBL
    ensures Share(inv, 1, 0) == inv && Rows(Shares(inv, 1)) && AveTable(Shares(inv, 1)) == Row(inv)
  {
    DivModUnique(inv, 1, inv, 0);
    var a := Shares(inv, 1);
    assert a == [inv];
    assert a[..0] == [];
    assert AveTable(a) == [] + Row(inv);
  }

  // The shares of prp_ave_scale: everyone gets inv/outv, the middle ones one more.
  method ShareOut(inv: pos, outv: pos) returns (part: array<nat>)
    requires outv <= inv <= MAX_TBL
    ensures fresh(part) && part[..] == Shares(inv, outv)
  {
    var q, rest := inv / outv, inv % outv;
    ghost var a := Shares(inv, outv);
    part := new nat[outv](_ => q);
    var v := (outv - rest) / 2;
    var end := rest + v;
    ghost var lo := v;
    while v < end
      invariant lo <= v <= end <= outv
      invariant forall m :: 0 <= m < outv ==> part[m] == q + if lo <= m < v then 1 else 0
    {
      part[v] := part[v] + 1;
      v := v + 1;
    }
    assert forall m :: 0 <= m < outv ==> part[m] == a[m];
  }

  lemma AveTableNone(a: seq<int>)
    ensures AveTable(a[..0]) == []
  {
  }

  lemma AveTableSnoc(a: seq<int>, k: nat)
    requires Rows(a) && k < |a|
    ensures AveTable(a[..k + 1]) == AveTable(a[..k]) + Row(a[k])
  {
    assert a[..k + 1][..k] == a[..k];
  }

  lemma {:induction false} AvePrefix(a: seq<int>, k: nat)
    requires Rows(a) && k <= |a|
    ensures |AveTable(a[..k])| <= |AveTable(a)|
    decreases |a| - k
  {
    if k < |a| {
      assert a[..k + 1][..k] == a[..k];
      AvePrefix(a, k + 1);
    } else {
      assert a[..k] == a;
    }
  }

  // The arithmetic of one turn of the 2:1 loop: output i skips every whole
  // output step that has accumulated.
  method BoxOutput(inv: pos, outv: pos, v0: int, ghost i: nat, ghost n: int) returns (nxt: int, v: int)
    requires inv >= 2 * outv && i < outv / Gcd(inv, outv) && UpPhase(inv, outv, i, n, v0)
    ensures UpPhase(inv, outv, i + 1, n + nxt, v)
    ensures BoxTap(inv, outv, i) == Tap(1, 2, nxt) && nxt >= 2
    ensures v == 0 <==> i + 1 == outv / Gcd(inv, outv)
  {
    MulDistr(i, 1, inv);
    v := v0 + (inv - 2 * outv);
    nxt := 2;
    MulDistr(n, 2, outv);
    while v >= outv
      invariant nxt >= 2 && v >= 0 && v + (n + nxt) * outv == (i + 1) * inv
      decreases v
    {
      MulDistr(n + nxt, 1, outv);
      v := v - outv;
      nxt := nxt + 1;
    }
    DivModUnique(i * inv, outv, n, v0);
    DivModUnique((i + 1) * inv, outv, n + nxt, v);
    UpWraps(inv, outv, i + 1, n + nxt, v);
  }

  function Next(i: nat, len: nat): nat {
    if i + 1 == len then 0 else i + 1
  }

  // (*i)++; *i %= len
  method Advance(i: nat, len: nat) returns (j: nat)
    requires i < len
    ensures j == Next(i, len)
  {
    j := i + 1;
    DivModUnique(j, len, if j == len then 1 else 0, if j == len then 0 else j);
    j := j % len;
  }

  // The weight of prp_scale_bilinear.
  method WeighEighths(coeff0: int, base: pos) returns (coeff: int)
    requires 0 <= coeff0 <= base
    ensures coeff == Raw(Tap(coeff0, base, 1)) && 0 <= coeff <= 7
  {
    RawRange(Tap(coeff0, base, 1));
    coeff := (coeff0 * 8 + base / 2) / base;
    if coeff >= 7 {
      coeff := coeff - 1;
    }
  }
}
