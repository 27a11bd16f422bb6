/** Fletcher-32 checksum over 16-bit signed words, as used to tag saved game
    states and to print a per-frame desync indicator.

    The sums are unbounded integers here. In the C code they are 32-bit
    `int`s, which a full block of extreme words can overflow (360 words of
    0x7fff push sum2 past 2^31 - 1); where that happens the C behaviour is
    undefined and this model keeps the exact value. */
module Fletcher {
  import opened Memory

  /** Most words summed before the sums are folded. */
  const BlockLimit := 360

  /** The modulus the folds preserve: 0xffff. */
  const M := 65535

  datatype Sums = Sums(sum1: int, sum2: int)

  /** Both sums start at 0xffff. */
  const Initial := Sums(0xffff, 0xffff)

  /** `(s & 0xffff) + (s >> 16)` on a two's-complement value: the low half
      plus the arithmetically shifted high half. Dafny's `%` and `/` by a
      positive constant are the floor operations these bit operations are. */
  function Fold(s: int): int
  {
    s % 0x10000 + s / 0x10000
  }

  function FoldBoth(s: Sums): Sums
  {
    Sums(Fold(s.sum1), Fold(s.sum2))
  }

  /** One pass of the inner loop: `sum1 += *data++; sum2 += sum1;`. */
  function Step(s: Sums, w: Int16): Sums
  {
    Sums(s.sum1 + w, s.sum2 + s.sum1 + w)
  }

  /** The inner loop over one block of words. */
  function Run(words: seq<Int16>, s: Sums): Sums
    decreases |words|
  {
    if words == [] then s else Run(words[1..], Step(s, words[0]))
  }

  /** `len > 360 ? 360 : len` */
  function BlockLength(len: nat): (t: nat)
    ensures t <= BlockLimit && t <= len
    ensures 0 < len ==> 0 < t
    ensures t == len || t == BlockLimit
  {
    if len > BlockLimit then BlockLimit else len
  }

  /** The outer loop: consecutive blocks of at most 360 words, both sums
      folded after each block. */
  function Blocks(data: seq<Int16>, s: Sums): Sums
    decreases |data|
  {
    if data == [] then s
    else
      var t := BlockLength(|data|);
      Blocks(data[t..], FoldBoth(Run(data[..t], s)))
  }

  /** The sums after the second reduction step. */
  function FinalSums(data: seq<Int16>): Sums
  {
    FoldBoth(Blocks(data, Initial))
  }

  /** A value wrapped into a 32-bit two's-complement `int`. */
  function ToInt32(x: int): (r: int)
    ensures -0x8000_0000 <= r < 0x8000_0000
    ensures (r - x) % 0x1_0000_0000 == 0
  {
    Signed(x % 0x1_0000_0000, 0x8000_0000)
  }

  /** The checksum: `sum2 << 16 | sum1`. Both final sums lie in [0, 0xffff]
      (FinalSumsAre16Bit), so the low half of `sum2 << 16` is zero and the
      `|` adds `sum1` into it; a `sum2` of 0x8000 or more lands in the sign
      bit, which the 32-bit wrap gives. */
  function Fletcher32(data: seq<Int16>): int
  {
    var f := FinalSums(data);
    ToInt32(f.sum2 * 0x10000 + f.sum1)
  }

  // ---------------------------------------------------------------------
  // What the sums add up: every word once into sum1, and every running
  // sum1 into sum2.

  /** Σ d_j */
  function Sum(d: seq<Int16>): int
  {
    if d == [] then 0 else d[0] + Sum(d[1..])
  }

  /** Σ (n - j) * d_j for j in [0, n): word j is counted once in each of the
      n - j running values of sum1 that follow it. */
  function Weighted(d: seq<Int16>): int
  {
    if d == [] then 0 else |d| * d[0] + Weighted(d[1..])
  }

  /** The inner loop adds each word to sum1 once, in order, and adds each
      running sum1 to sum2: starting from (a, b), n words leave
      (a + Σ d_j, b + n*a + Σ (n - j) d_j). */
  lemma {:induction false} RunClosedForm(w: seq<Int16>, s: Sums)
    ensures Run(w, s) == Sums(s.sum1 + Sum(w), s.sum2 + |w| * s.sum1 + Weighted(w))
  {
    if w != [] {
      var s' := Step(s, w[0]);
      RunClosedForm(w[1..], s');
      var n := |w|;
      calc {
        s'.sum2 + (n - 1) * s'.sum1;
        s.sum2 + s.sum1 + w[0] + (n - 1) * (s.sum1 + w[0]);
        { assert (n - 1) * (s.sum1 + w[0]) == (n - 1) * s.sum1 + (n - 1) * w[0]; }
        s.sum2 + n * s.sum1 + n * w[0];
      }
    }
  }

  lemma {:induction false} SumAppend(x: seq<Int16>, y: seq<Int16>)
    ensures Sum(x + y) == Sum(x) + Sum(y)
  {
    if x != [] {
      assert (x + y)[1..] == x[1..] + y;
      SumAppend(x[1..], y);
    } else {
      assert x + y == y;
    }
  }

  /** Appending y shifts the weight of every word of x up by |y|. */
  lemma {:induction false} WeightedAppend(x: seq<Int16>, y: seq<Int16>)
    ensures Weighted(x + y) == Weighted(x) + |y| * Sum(x) + Weighted(y)
  {
    if x != [] {
      assert (x + y)[1..] == x[1..] + y;
      WeightedAppend(x[1..], y);
      assert |x + y| * x[0] == |x| * x[0] + |y| * x[0];
      assert |y| * Sum(x) == |y| * x[0] + |y| * Sum(x[1..]);
    } else {
      assert x + y == y;
    }
  }

  // ---------------------------------------------------------------------
  // Folding preserves values modulo 65535.

  lemma AddMultiple(x: int, q: int)
    ensures (x + M * q) % M == x % M
  {
    var k, r := x / M, x % M;
    assert x + M * q == M * (k + q) + r;
  }

  /** (s & 0xffff) + (s >> 16) ≡ s (mod 65535), because 65536 ≡ 1. */
  lemma FoldCongruent(s: int)
    ensures Fold(s) % M == s % M
  {
    var q, r := s / 0x10000, s % 0x10000;
    assert s == Fold(s) + M * q;
    AddMultiple(Fold(s), q);
  }

  lemma MulCongruent(k: int, a: int, b: int)
    requires a % M == b % M
    ensures (k * a) % M == (k * b) % M
  {
    var qa, qb, r := a / M, b / M, a % M;
    assert k * a == k * r + M * (k * qa) by {
      assert a == r + M * qa;
    }
    assert k * b == k * r + M * (k * qb) by {
      assert b == r + M * qb;
    }
    AddMultiple(k * r, k * qa);
    AddMultiple(k * r, k * qb);
  }

  lemma AddCongruent(a: int, b: int, c: int, d: int)
    requires a % M == b % M && c % M == d % M
    ensures (a + c) % M == (b + d) % M
  {
    AddMultiple(b + d, a / M - b / M + c / M - d / M);
    assert a + c == b + d + M * (a / M - b / M + c / M - d / M);
  }

  /** The arithmetic of one block step of BlocksCongruent: if the folded
      block sums (f1, f2) are congruent to the closed form over x, and the
      rest (r1, r2) to the closed form over y from (f1, f2), then (r1, r2)
      are congruent to the closed form over x + y. */
  lemma ComposeCongruent(a: int, b: int, nx: int, sx: int, wx: int, ny: int, sy: int, wy: int,
                         f1: int, f2: int, r1: int, r2: int)
    requires f1 % M == (a + sx) % M && f2 % M == (b + nx * a + wx) % M
    requires r1 % M == (f1 + sy) % M && r2 % M == (f2 + ny * f1 + wy) % M
    ensures r1 % M == (a + (sx + sy)) % M
    ensures r2 % M == (b + (nx + ny) * a + (wx + ny * sx + wy)) % M
  {
    AddCongruent(f1, a + sx, sy, sy);
    MulCongruent(ny, f1, a + sx);
    AddCongruent(f2, b + nx * a + wx, ny * f1, ny * (a + sx));
    AddCongruent(f2 + ny * f1, b + nx * a + wx + ny * (a + sx), wy, wy);
    Distribute(ny, a, sx);
    Distribute(a, nx, ny);
  }

  /** Whatever the blocking, the outer loop leaves sums congruent modulo
      65535 to the unblocked ones: (a + Σ d_j, b + n*a + Σ (n - j) d_j). */
  lemma {:induction false} BlocksCongruent(d: seq<Int16>, s: Sums)
    ensures Blocks(d, s).sum1 % M == (s.sum1 + Sum(d)) % M
    ensures Blocks(d, s).sum2 % M == (s.sum2 + |d| * s.sum1 + Weighted(d)) % M
  {
    if d != [] {
      var t := BlockLength(|d|);
      var x, y := d[..t], d[t..];
      assert d == x + y;
      var run := Run(x, s);
      var f := FoldBoth(run);
      RunClosedForm(x, s);
      BlocksCongruent(y, f);
      SumAppend(x, y);
      WeightedAppend(x, y);
      FoldCongruent(run.sum1);
      FoldCongruent(run.sum2);
      var r := Blocks(d, s);
      assert r == Blocks(y, f);
      ComposeCongruent(s.sum1, s.sum2, |x|, Sum(x), Weighted(x), |y|, Sum(y), Weighted(y),
                       f.sum1, f.sum2, r.sum1, r.sum2);
    }
  }

  lemma Distribute(k: int, a: int, b: int)
    ensures k * (a + b) == k * a + k * b
    ensures (a + b) * k == a * k + b * k
  {
  }

  /** The final sums are Fletcher's: sum1 ≡ Σ d_j and
      sum2 ≡ Σ (n - j) d_j (mod 65535), the initial 0xffff being ≡ 0. */
  lemma FinalSumsCongruent(d: seq<Int16>)
    ensures FinalSums(d).sum1 % M == Sum(d) % M
    ensures FinalSums(d).sum2 % M == Weighted(d) % M
  {
    var b := Blocks(d, Initial);
    BlocksCongruent(d, Initial);
    FoldCongruent(b.sum1);
    FoldCongruent(b.sum2);
    AddMultiple(Sum(d), 1);
    AddMultiple(Weighted(d), 1 + |d|);
    assert 0xffff + |d| * 0xffff + Weighted(d) == Weighted(d) + M * (1 + |d|);
  }

  // ---------------------------------------------------------------------
  // Range: after every block fold both sums lie in [-40000, 100000], and
  // the second reduction brings them into [0, 0xffff].

  predicate InRange(s: Sums)
  {
    -40000 <= s.sum1 <= 100000 && -40000 <= s.sum2 <= 100000
  }

  lemma {:induction false} SumBounds(d: seq<Int16>)
    ensures -0x8000 * |d| <= Sum(d) <= 0x7fff * |d|
  {
    if d != [] {
      SumBounds(d[1..]);
    }
  }

  /** |Σ (n - j) d_j| stays within 0x8000 * n(n+1)/2. */
  lemma {:induction false} WeightedBounds(d: seq<Int16>)
    ensures -0x8000 * (|d| * (|d| + 1)) <= 2 * Weighted(d) <= 0x7fff * (|d| * (|d| + 1))
  {
    if d != [] {
      var n := |d|;
      WeightedBounds(d[1..]);
      if d[0] >= 0 {
        MulMono(d[0], 0x7fff, n);
      } else {
        MulMono(-(d[0] as int), 0x8000, n);
      }
      WeightedStep(n, (n - 1) * n, n * (n + 1), n * d[0], Weighted(d[1..]));
    }
  }

  /** The inductive step of WeightedBounds with the products named: q and r
      are the triangle products for n - 1 and n words, nx is n times the
      new word. */
  lemma WeightedStep(n: int, q: int, r: int, nx: int, w: int)
    requires r == q + 2 * n
    requires -0x8000 * n <= nx <= 0x7fff * n
    requires -0x8000 * q <= 2 * w <= 0x7fff * q
    ensures -0x8000 * r <= 2 * (nx + w) <= 0x7fff * r
  {
  }

  lemma FoldRange(s: int)
    requires -2_200_000_000 <= s <= 2_200_000_000
    ensures -40000 <= Fold(s) <= 100000
  {
  }

  /** One block of at most 360 words, then a fold, keeps the sums in range. */
  lemma BlockKeepsRange(w: seq<Int16>, s: Sums)
    requires |w| <= BlockLimit && InRange(s)
    ensures InRange(FoldBoth(Run(w, s)))
  {
    RunClosedForm(w, s);
    SumBounds(w);
    WeightedBounds(w);
    BlockArithmetic(|w|, s.sum1, s.sum2, Sum(w), Weighted(w));
    FoldRange(Run(w, s).sum1);
    FoldRange(Run(w, s).sum2);
  }

  /** The bounds of BlockKeepsRange in integer terms: a block of n <= 360
      words cannot take the sums beyond ±2.2e9 from in-range start values. */
  lemma BlockArithmetic(n: int, a: int, b: int, sw: int, ww: int)
    requires 0 <= n <= BlockLimit
    requires -40000 <= a <= 100000 && -40000 <= b <= 100000
    requires -0x8000 * n <= sw <= 0x7fff * n
    requires -0x8000 * (n * (n + 1)) <= 2 * ww <= 0x7fff * (n * (n + 1))
    ensures -2_200_000_000 <= a + sw <= 2_200_000_000
    ensures -2_200_000_000 <= b + n * a + ww <= 2_200_000_000
  {
    var t := n * (n + 1);
    assert 0 <= t <= 360 * 361 by {
      MulMono(n, 360, n + 1);
      MulMono(n + 1, 361, 360);
    }
    if a >= 0 {
      MulMono(n, 360, a);
    } else {
      MulMono(n, 360, -a);
    }
  }

  lemma MulMono(x: int, y: int, c: int)
    requires 0 <= x <= y && 0 <= c
    ensures 0 <= x * c <= y * c
  {
  }

  lemma {:induction false} BlocksKeepRange(d: seq<Int16>, s: Sums)
    requires InRange(s)
    ensures InRange(Blocks(d, s))
  {
    if d != [] {
      var t := BlockLength(|d|);
      BlockKeepsRange(d[..t], s);
      BlocksKeepRange(d[t..], FoldBoth(Run(d[..t], s)));
    }
  }

  /** The second reduction step does reduce both sums to 16 bits. */
  lemma FinalSumsAre16Bit(d: seq<Int16>)
    ensures 0 <= FinalSums(d).sum1 <= 0xffff
    ensures 0 <= FinalSums(d).sum2 <= 0xffff
  {
    BlocksKeepRange(d, Initial);
  }

  /** n copies of the word c add up to n * c in sum1 and to c * n(n+1)/2
      in sum2. */
  lemma {:induction false} ConstantSums(n: nat, c: Int16)
    ensures Sum(seq(n, _ => c)) == n * c
    ensures 2 * Weighted(seq(n, _ => c)) == c * (n * (n + 1))
  {
    if n > 0 {
      var d := seq(n, _ => c);
      assert d[1..] == seq(n - 1, _ => c);
      ConstantSums(n - 1, c);
      Distribute(c, (n - 1) * n, 2 * n);
      assert n * (n + 1) == (n - 1) * n + 2 * n;
    }
  }

  /** In C the sums are 32-bit `int`s: a first block of 360 words 0x7fff
      takes sum2 to 2152857795, past INT_MAX, before the fold. */
  lemma FullBlockExceedsInt32()
    ensures Run(seq(BlockLimit, _ => 0x7fff), Initial).sum2 == 2152857795 > 0x7fff_ffff
  {
    var w: seq<Int16> := seq(BlockLimit, _ => 0x7fff);
    RunClosedForm(w, Initial);
    ConstantSums(BlockLimit, 0x7fff);
  }

  // ---------------------------------------------------------------------
  // The packed result.

  /** The checksum carries sum2 in its high 16 bits and sum1 in its low 16
      bits, each congruent to Fletcher's sum modulo 65535. */
  lemma Fletcher32Halves(d: seq<Int16>)
    ensures Fletcher32(d) % 0x10000 == FinalSums(d).sum1
    ensures (Fletcher32(d) % 0x1_0000_0000) / 0x10000 == FinalSums(d).sum2
    ensures FinalSums(d).sum1 % M == Sum(d) % M
    ensures FinalSums(d).sum2 % M == Weighted(d) % M
  {
    FinalSumsAre16Bit(d);
    FinalSumsCongruent(d);
    PackHalves(FinalSums(d).sum2, FinalSums(d).sum1);
  }

  /** `hi << 16 | lo` for 16-bit halves, read back. */
  lemma PackHalves(hi: int, lo: int)
    requires 0 <= hi <= 0xffff && 0 <= lo <= 0xffff
    ensures ToInt32(hi * 0x10000 + lo) % 0x10000 == lo
    ensures (ToInt32(hi * 0x10000 + lo) % 0x1_0000_0000) / 0x10000 == hi
  {
    var x := hi * 0x10000 + lo;
    assert x % 0x1_0000_0000 == x;
    if x < 0x8000_0000 {
      assert ToInt32(x) == x;
    } else {
      assert ToInt32(x) == (hi - 0x10000) * 0x10000 + lo;
    }
  }

  /** With no words the loop never runs: both halves stay 0xffff, the packed
      0xffffffff reads as -1. */
  lemma EmptyChecksum()
    ensures FinalSums([]) == Sums(0xffff, 0xffff)
    ensures Fletcher32([]) == -1
  {
  }

  // ---------------------------------------------------------------------
  // The C function.

  /** The word at p opens the rest of the block: one inner-loop pass. */
  lemma RunUnfold(words: seq<Int16>, p: nat, end: nat, s: Sums)
    requires p < end <= |words|
    ensures Run(words[p..end], s) == Run(words[p + 1..end], Step(s, words[p]))
  {
    assert words[p..end][1..] == words[p + 1..end];
  }

  /** One outer-loop pass: the block [start, end) of the remaining words,
      run from s0 to s and folded. */
  lemma BlocksUnfold(words: seq<Int16>, start: nat, end: nat, s0: Sums, s: Sums)
    requires start < end <= |words| && end - start == BlockLength(|words| - start)
    requires Run(words[start..end], s0) == s
    ensures Blocks(words[start..], s0) == Blocks(words[end..], FoldBoth(s))
  {
    assert words[start..][..end - start] == words[start..end];
    assert words[start..][end - start..] == words[end..];
  }

  /** The second reduction and the packing, from the sums the outer loop
      leaves. */
  lemma FinalFold(words: seq<Int16>, s: Sums)
    requires Blocks(words, Initial) == s
    ensures Fletcher32(words) == ToInt32(Fold(s.sum2) * 0x10000 + Fold(s.sum1))
  {
  }

  /** The do-while of fletcher32_checksum: adds the tlen >= 1 words from
      word p on, each to sum1 and then the running sum1 to sum2. */
  method SumBlock(data: array<Byte>, p: nat, tlen: nat, s: Sums, ghost words: seq<Int16>)
    returns (sum1: int, sum2: int)
    requires ReadsAs(data, words)
    requires 1 <= tlen && p + tlen <= |words|
    ensures Sums(sum1, sum2) == Run(words[p..p + tlen], s)
  {
    sum1, sum2 := s.sum1, s.sum2;
    var q, left := p, tlen;
    ghost var end := p + tlen;
    while true
      invariant 1 <= left && q + left == end && p <= q
      invariant Run(words[p..end], s) == Run(words[q..end], Sums(sum1, sum2))
      decreases left
    {
      RunUnfold(words, q, end, Sums(sum1, sum2));
      sum1 := sum1 + ShortOf(data[2 * q], data[2 * q + 1]);
      q := q + 1;
      sum2 := sum2 + sum1;
      left := left - 1;
      if left == 0 {
        break;
      }
    }
    assert words[end..end] == [];
  }

  /** fletcher32_checksum((short *)data, len): reads the first len words of
      the byte block data and changes nothing. */
  method Fletcher32Checksum(data: array<Byte>, len: nat) returns (r: int)
    requires 2 * len <= data.Length
    ensures r == Fletcher32(Words(data[..], len))
  {
    ghost var words := Words(data[..], len);
    WordsRead(data, len);
    var sum1, sum2 := 0xffff, 0xffff;
    var p := 0;          // the data pointer, counted in words
    var rest := len;     // `len` in the C code
    assert words[0..] == words;
    while rest > 0
      invariant p + rest == len
      invariant Blocks(words[p..], Sums(sum1, sum2)) == Blocks(words, Initial)
    {
      var tlen := BlockLength(rest);
      rest := rest - tlen;
      var s0 := Sums(sum1, sum2);
      sum1, sum2 := SumBlock(data, p, tlen, s0, words);
      BlocksUnfold(words, p, p + tlen, s0, Sums(sum1, sum2));
      p := p + tlen;
      sum1 := Fold(sum1);
      sum2 := Fold(sum2);
    }
    assert words[len..] == [];
    ghost var folded := Sums(sum1, sum2);
    // Fold both sums once more; FinalSumsAre16Bit puts them in [0, 0xffff].
    sum1 := Fold(sum1);
    sum2 := Fold(sum2);
    FinalFold(words, folded);
    r := ToInt32(sum2 * 0x10000 + sum1);
  }
}
