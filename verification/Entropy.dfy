/** Shannon entropy of a byte string, over the reals, and the bounds that make the two
    alarm thresholds meaningful. */
module Entropy {
  import opened Bytes

  // ---- The logarithm: a function that obeys the laws of log2 ----

  ghost predicate ProductLaw(log2: real -> real, x: real, y: real) {
    x > 0.0 && y > 0.0 ==> log2(x * y) == log2(x) + log2(y)
  }

  ghost predicate OrderLaw(log2: real -> real, x: real, y: real) {
    0.0 < x < y ==> log2(x) < log2(y)
  }

  /** Turns products into sums, is strictly increasing, and log2(2) = 1. */
  ghost predicate IsLog2(log2: real -> real) {
    && log2(2.0) == 1.0
    && (forall x, y {:trigger ProductLaw(log2, x, y)} :: ProductLaw(log2, x, y))
    && (forall x, y {:trigger OrderLaw(log2, x, y)} :: OrderLaw(log2, x, y))
  }

  lemma LogProduct(log2: real -> real, x: real, y: real)
    requires IsLog2(log2) && x > 0.0 && y > 0.0
    ensures x * y > 0.0 && log2(x * y) == log2(x) + log2(y)
  {
    assert ProductLaw(log2, x, y);
  }

  lemma LogOrder(log2: real -> real, x: real, y: real)
    requires IsLog2(log2) && 0.0 < x <= y
    ensures log2(x) <= log2(y) && (x < y ==> log2(x) < log2(y))
  {
    assert OrderLaw(log2, x, y);
  }

  lemma LogOne(log2: real -> real)
    requires IsLog2(log2)
    ensures log2(1.0) == 0.0
  {
    LogProduct(log2, 1.0, 1.0);
  }

  lemma LogQuotient(log2: real -> real, x: real, y: real)
    requires IsLog2(log2) && x > 0.0 && y > 0.0
    ensures x / y > 0.0 && log2(x / y) == log2(x) - log2(y)
  {
    var q := x / y;
    Positive(x, y);
    LogProduct(log2, q, y);
    assert q * y == x;
  }

  lemma Positive(x: real, y: real)
    requires x > 0.0 && y > 0.0
    ensures x / y > 0.0 && x / y * y == x
  {
  }

  ghost function Pow(x: real, n: nat): real {
    if n == 0 then 1.0 else x * Pow(x, n - 1)
  }

  lemma {:induction false} LogPow(log2: real -> real, x: real, n: nat)
    requires IsLog2(log2) && x > 0.0
    ensures Pow(x, n) > 0.0 && log2(Pow(x, n)) == n as real * log2(x)
  {
    if n == 0 {
      LogOne(log2);
    } else {
      LogPow(log2, x, n - 1);
      var y, l := Pow(x, n - 1), log2(x);
      LogProduct(log2, x, y);
      assert Pow(x, n) == x * y;
      assert log2(x * y) == l + (n - 1) as real * l;
      Distribute(l, (n - 1) as real, 1.0);
    }
  }

  // ---- Arithmetic and geometric means ----

  lemma {:induction false} Bernoulli(r: real, n: nat)
    requires r > 0.0
    ensures Pow(r, n) >= 1.0 + n as real * (r - 1.0)
  {
    if n > 0 {
      Bernoulli(r, n - 1);
      var m, t := (n - 1) as real, r - 1.0;
      assert Pow(r, n) == r * Pow(r, n - 1);
      MulMono(r, 1.0 + m * t, Pow(r, n - 1));
      assert r * (1.0 + m * t) == 1.0 + n as real * t + m * (t * t) by {
        assert r == 1.0 + t;
        assert t * (m * t) == m * (t * t);
      }
      assert t * t >= 0.0;
      MulMono(m, 0.0, t * t);
    }
  }

  lemma Distribute(x: real, a: real, b: real)
    ensures (a + b) * x == a * x + b * x
  {
  }

  lemma MulMono(a: real, x: real, y: real)
    requires a >= 0.0 && x <= y
    ensures a * x <= a * y
  {
  }

  ghost function Sum(xs: seq<real>): real {
    if xs == [] then 0.0 else Sum(xs[..|xs| - 1]) + xs[|xs| - 1]
  }

  ghost function Logs(log2: real -> real, xs: seq<real>): real {
    if xs == [] then 0.0 else Logs(log2, xs[..|xs| - 1]) + log2(xs[|xs| - 1])
  }

  ghost predicate AllPositive(xs: seq<real>) {
    forall i :: 0 <= i < |xs| ==> xs[i] > 0.0
  }

  lemma {:induction false} SumPositive(xs: seq<real>)
    requires AllPositive(xs)
    ensures Sum(xs) >= 0.0 && (xs != [] ==> Sum(xs) > 0.0)
  {
    if xs != [] { SumPositive(xs[..|xs| - 1]); }
  }

  /** The step of the means inequality: n-1 values of mean a, one value x, new mean b. */
  lemma MeanStep(log2: real -> real, n: nat, a: real, x: real, b: real)
    requires IsLog2(log2) && n > 0 && a > 0.0 && x > 0.0 && b > 0.0
    requires n as real * b == (n - 1) as real * a + x
    ensures log2(x) + (n - 1) as real * log2(a) <= n as real * log2(b)
  {
    var q := b / a;
    Positive(b, a);
    Bernoulli(q, n);
    var w := n as real * q - (n - 1) as real;
    assert x == w * a by {
      Distribute(a, n as real * q, -((n - 1) as real));
      Associate(n as real, q, a);
    }
    DivMul(w, a);
    assert 1.0 + n as real * (q - 1.0) == w;
    LogQuotient(log2, x, a);
    LogQuotient(log2, b, a);
    LogPow(log2, q, n);
    LogOrder(log2, x / a, Pow(q, n));
    assert n as real * (log2(b) - log2(a)) == n as real * log2(b) - n as real * log2(a);
    assert (n - 1) as real * log2(a) == n as real * log2(a) - log2(a);
  }

  lemma Associate(x: real, y: real, z: real)
    ensures (x * y) * z == x * (y * z)
  {
  }

  lemma DivMul(x: real, y: real)
    requires y > 0.0
    ensures x * y / y == x
  {
  }

  lemma {:induction false} MeansInequality(log2: real -> real, xs: seq<real>)
    requires IsLog2(log2) && AllPositive(xs) && xs != []
    ensures Sum(xs) / |xs| as real > 0.0
    ensures Logs(log2, xs) <= |xs| as real * log2(Sum(xs) / |xs| as real)
    decreases |xs|
  {
    var n := |xs|;
    var ys, x := xs[..n - 1], xs[n - 1];
    SumPositive(xs);
    var b := Sum(xs) / n as real;
    Positive(Sum(xs), n as real);
    if n == 1 {
      assert ys == [];
      assert Sum(xs) == x && b == x;
    } else {
      SumPositive(ys);
      MeansInequality(log2, ys);
      var a := Sum(ys) / (n - 1) as real;
      Positive(Sum(ys), (n - 1) as real);
      MeanStep(log2, n, a, x, b);
    }
  }

  // ---- Histograms ----

  /** n copies of x, added up. */
  ghost function Times(n: nat, x: real): real {
    if n == 0 then 0.0 else Times(n - 1, x) + x
  }

  lemma {:induction false} TimesIsProduct(n: nat, x: real)
    ensures Times(n, x) == n as real * x
  {
    if n > 0 {
      TimesIsProduct(n - 1, x);
      Distribute(x, (n - 1) as real, 1.0);
    }
  }

  lemma {:induction false} TimesAdds(n: nat, x: real, y: real)
    ensures Times(n, x + y) == Times(n, x) + Times(n, y)
  {
    if n > 0 { TimesAdds(n - 1, x, y); }
  }

  lemma {:induction false} TimesOrder(n: nat, x: real, y: real)
    requires n > 0 && Times(n, x) <= Times(n, y)
    ensures x <= y
  {
    TimesIsProduct(n, x);
    TimesIsProduct(n, y);
    CancelFactor(n as real, x, y);
  }

  ghost function Count(data: seq<byte>, b: int): nat {
    if data == [] then 0
    else Count(data[..|data| - 1], b) + (if data[|data| - 1] == b then 1 else 0)
  }

  /** Number of distinct byte values below m. */
  ghost function Distinct(data: seq<byte>, m: nat): nat {
    if m == 0 then 0 else Distinct(data, m - 1) + (if Count(data, m - 1) > 0 then 1 else 0)
  }

  ghost function Mapped(data: seq<byte>, f: int -> real): (xs: seq<real>)
    ensures |xs| == |data| && forall i :: 0 <= i < |data| ==> xs[i] == f(data[i])
  {
    if data == [] then [] else Mapped(data[..|data| - 1], f) + [f(data[|data| - 1])]
  }

  ghost function RarityOf(data: seq<byte>): int -> real
    requires data != []
  {
    b => Rarity(data, b)
  }

  ghost function LogOf(log2: real -> real, f: int -> real): int -> real {
    b => log2(f(b))
  }

  ghost function One(): int -> real {
    _ => 1.0
  }

  ghost function Weighted(data: seq<byte>, f: int -> real, m: nat): real {
    if m == 0 then 0.0 else Weighted(data, f, m - 1) + Times(Count(data, m - 1), f(m - 1))
  }

  lemma {:induction false} WeightedExtend(data: seq<byte>, d: byte, f: int -> real, m: nat)
    ensures Weighted(data + [d], f, m) == Weighted(data, f, m) + (if d < m then f(d) else 0.0)
  {
    if m > 0 {
      WeightedExtend(data, d, f, m - 1);
      assert (data + [d])[..|data|] == data;
    }
  }

  lemma {:induction false} WeightedEmpty(f: int -> real, m: nat)
    ensures Weighted([], f, m) == 0.0
  {
    if m > 0 { WeightedEmpty(f, m - 1); }
  }

  /** Summing over positions is summing over byte values with multiplicity. */
  lemma {:induction false} DoubleCounting(data: seq<byte>, f: int -> real)
    ensures Sum(Mapped(data, f)) == Weighted(data, f, 256)
  {
    if data == [] {
      WeightedEmpty(f, 256);
    } else {
      var rest, d := data[..|data| - 1], data[|data| - 1];
      DoubleCounting(rest, f);
      assert data == rest + [d];
      WeightedExtend(rest, d, f, 256);
      assert Mapped(data, f)[..|data| - 1] == Mapped(rest, f);
    }
  }

  // ---- Entropy ----

  function Share(log2: real -> real, c: nat, n: nat): real
    requires n > 0
  {
    if c == 0 then 0.0 else var p := c as real / n as real; -(p * log2(p))
  }

  /** The entropy contributed by the byte values below m. */
  ghost function Partial(log2: real -> real, data: seq<byte>, m: nat): real
    requires data != []
  {
    if m == 0 then 0.0 else Partial(log2, data, m - 1) + Share(log2, Count(data, m - 1), |data|)
  }

  ghost function Entropy(log2: real -> real, data: seq<byte>): real {
    if data == [] then 0.0 else Partial(log2, data, 256)
  }

  method Histogram(data: seq<byte>) returns (freq: array<nat>)
    ensures fresh(freq) && freq.Length == 256
    ensures forall b: nat :: b < 256 ==> freq[b] == Count(data, b)
  {
    freq := new nat[256](_ => 0);
    for i := 0 to |data|
      invariant forall b: nat :: b < 256 ==> freq[b] == Count(data[..i], b)
    {
      freq[data[i]] := freq[data[i]] + 1;
      assert data[..i + 1][..i] == data[..i];
    }
    assert data[..|data|] == data;
  }

  method ShannonEntropy(log2: real -> real, data: seq<byte>) returns (h: real)
    ensures h == Entropy(log2, data)
  {
    if |data| == 0 {
      return 0.0;
    }
    var freq := Histogram(data);
    h := 0.0;
    for b := 0 to 256
      invariant h == Partial(log2, data, b)
      invariant forall b: nat :: b < 256 ==> freq[b] == Count(data, b)
    {
      var count := freq[b];
      if count == 0 {
        continue;
      }
      var p := count as real / |data| as real;
      h := h - p * log2(p);
    }
  }

  lemma {:induction false} CountBounds(data: seq<byte>, b: int)
    ensures Count(data, b) <= |data|
    ensures b in data <==> Count(data, b) > 0
  {
    if data != [] {
      CountBounds(data[..|data| - 1], b);
      assert data == data[..|data| - 1] + [data[|data| - 1]];
    }
  }

  lemma ShareSign(log2: real -> real, c: nat, n: nat)
    requires IsLog2(log2) && c <= n && n > 0
    ensures Share(log2, c, n) >= 0.0
    ensures Share(log2, c, n) == 0.0 <==> c == 0 || c == n
  {
    if c > 0 {
      var p := c as real / n as real;
      LogOne(log2);
      Positive(c as real, n as real);
      assert c < n ==> p < 1.0;
      LogOrder(log2, p, 1.0);
      if c < n {
        assert p * log2(p) < 0.0;
      }
    }
  }

  /** n/c, the reciprocal frequency of a byte value. */
  ghost function Rarity(data: seq<byte>, b: int): real
    requires data != []
    ensures Rarity(data, b) > 0.0
  {
    if Count(data, b) == 0 then 1.0
    else Positive(|data| as real, Count(data, b) as real); |data| as real / Count(data, b) as real
  }

  lemma ShareIsRarity(log2: real -> real, c: nat, n: nat)
    requires IsLog2(log2) && n > 0 && c > 0
    ensures c as real * log2(n as real / c as real) == n as real * Share(log2, c, n)
  {
    LogQuotient(log2, n as real, c as real);
    LogQuotient(log2, c as real, n as real);
    var l, p := log2(n as real / c as real), c as real / n as real;
    assert log2(p) == -l;
    Positive(c as real, n as real);
    assert Share(log2, c, n) == p * l;
    assert n as real * (p * l) == (n as real * p) * l;
  }

  ghost function Below(g: int -> real, m: nat): real {
    if m == 0 then 0.0 else Below(g, m - 1) + g(m - 1)
  }

  ghost predicate ScaledAt(data: seq<byte>, f: int -> real, g: int -> real, n: nat, b: int) {
    Times(Count(data, b), f(b)) == Times(n, g(b))
  }

  lemma {:induction false} WeightedScaled(data: seq<byte>, f: int -> real, g: int -> real, n: nat, m: nat)
    requires forall b {:trigger ScaledAt(data, f, g, n, b)} :: ScaledAt(data, f, g, n, b)
    ensures Weighted(data, f, m) == Times(n, Below(g, m))
  {
    if m == 0 {
      TimesIsProduct(n, 0.0);
    } else {
      WeightedScaled(data, f, g, n, m - 1);
      assert ScaledAt(data, f, g, n, m - 1);
      TimesAdds(n, Below(g, m - 1), g(m - 1));
    }
  }

  ghost function Present(data: seq<byte>): int -> real {
    b => if Count(data, b) > 0 then 1.0 else 0.0
  }

  ghost function ShareOf(log2: real -> real, data: seq<byte>): int -> real
    requires data != []
  {
    b => Share(log2, Count(data, b), |data|)
  }

  lemma {:induction false} BelowPresent(data: seq<byte>, m: nat)
    ensures Below(Present(data), m) == Distinct(data, m) as real
  {
    if m > 0 { BelowPresent(data, m - 1); }
  }

  lemma {:induction false} BelowShares(log2: real -> real, data: seq<byte>, m: nat)
    requires data != []
    ensures Below(ShareOf(log2, data), m) == Partial(log2, data, m)
  {
    if m > 0 { BelowShares(log2, data, m - 1); }
  }

  lemma RarityScaled(data: seq<byte>, b: int)
    requires data != []
    ensures ScaledAt(data, RarityOf(data), Present(data), |data|, b)
  {
    var c, n := Count(data, b), |data|;
    TimesIsProduct(c, Rarity(data, b));
    TimesIsProduct(n, 1.0);
    TimesIsProduct(n, 0.0);
    if c > 0 {
      Positive(n as real, c as real);
    }
  }

  lemma LogRarityScaled(log2: real -> real, data: seq<byte>, b: int)
    requires IsLog2(log2) && data != []
    ensures ScaledAt(data, LogOf(log2, RarityOf(data)), ShareOf(log2, data), |data|, b)
  {
    var c, n := Count(data, b), |data|;
    TimesIsProduct(c, log2(Rarity(data, b)));
    TimesIsProduct(n, Share(log2, c, n));
    if c > 0 {
      ShareIsRarity(log2, c, n);
    }
  }

  lemma {:induction false} LogsOfMapped(log2: real -> real, data: seq<byte>, f: int -> real)
    ensures Logs(log2, Mapped(data, f)) == Sum(Mapped(data, LogOf(log2, f)))
  {
    if data != [] {
      var rest := data[..|data| - 1];
      LogsOfMapped(log2, rest, f);
      assert Mapped(data, f)[..|data| - 1] == Mapped(rest, f);
      assert Mapped(data, LogOf(log2, f))[..|data| - 1] == Mapped(rest, LogOf(log2, f));
    }
  }

  lemma {:induction false} DistinctBounds(data: seq<byte>, m: nat)
    ensures Distinct(data, m) <= m
    ensures Distinct(data, m) as real <= Weighted(data, One(), m)
    ensures forall b: nat :: b < m && Count(data, b) > 0 ==> Distinct(data, m) > 0
  {
    if m > 0 {
      DistinctBounds(data, m - 1);
      TimesIsProduct(Count(data, m - 1), 1.0);
    }
  }

  lemma {:induction false} SumOfOnes(data: seq<byte>)
    ensures Sum(Mapped(data, One())) == |data| as real
  {
    if data != [] {
      SumOfOnes(data[..|data| - 1]);
      assert Mapped(data, One())[..|data| - 1] == Mapped(data[..|data| - 1], One());
    }
  }

  /** A payload of n bytes has between 1 and min(256, n) distinct byte values. */
  lemma DistinctRange(data: seq<byte>)
    requires data != []
    ensures 1 <= Distinct(data, 256) <= 256 && Distinct(data, 256) <= |data|
  {
    DistinctBounds(data, 256);
    DoubleCounting(data, One());
    SumOfOnes(data);
    CountBounds(data, data[0]);
  }

  lemma WeightedRarities(log2: real -> real, data: seq<byte>, m: nat)
    requires IsLog2(log2) && data != []
    ensures Weighted(data, RarityOf(data), m) == Times(|data|, Distinct(data, m) as real)
    ensures Weighted(data, LogOf(log2, RarityOf(data)), m) == Times(|data|, Partial(log2, data, m))
  {
    var n, f := |data|, RarityOf(data);
    forall b ensures ScaledAt(data, f, Present(data), n, b) { RarityScaled(data, b); }
    WeightedScaled(data, f, Present(data), n, m);
    BelowPresent(data, m);
    forall b ensures ScaledAt(data, LogOf(log2, f), ShareOf(log2, data), n, b) { LogRarityScaled(log2, data, b); }
    WeightedScaled(data, LogOf(log2, f), ShareOf(log2, data), n, m);
    BelowShares(log2, data, m);
  }

  lemma RaritySums(log2: real -> real, data: seq<byte>)
    requires IsLog2(log2) && data != []
    ensures var xs := Mapped(data, RarityOf(data));
            && AllPositive(xs)
            && Sum(xs) == Times(|data|, Distinct(data, 256) as real)
            && Logs(log2, xs) == Times(|data|, Entropy(log2, data))
  {
    DoubleCounting(data, RarityOf(data));
    LogsOfMapped(log2, data, RarityOf(data));
    DoubleCounting(data, LogOf(log2, RarityOf(data)));
    WeightedRarities(log2, data, 256);
  }

  lemma MeanOfTimes(n: nat, k: real)
    requires n > 0
    ensures Times(n, k) / n as real == k
  {
    TimesIsProduct(n, k);
    DivMul(k, n as real);
  }

  /** Values with sum n*k and log-sum n*h, n of them: h is at most log2 k. */
  lemma MeanOfScaled(log2: real -> real, xs: seq<real>, k: real, h: real)
    requires IsLog2(log2) && AllPositive(xs) && xs != []
    requires Sum(xs) == Times(|xs|, k) && Logs(log2, xs) == Times(|xs|, h)
    ensures h <= log2(k)
  {
    MeanOfTimes(|xs|, k);
    MeansInequality(log2, xs);
    TimesIsProduct(|xs|, log2(k));
    TimesOrder(|xs|, h, log2(k));
  }

  /** Gibbs: entropy is at most the logarithm of the number of distinct byte values. */
  lemma EntropyUpper(log2: real -> real, data: seq<byte>)
    requires IsLog2(log2) && data != []
    ensures Distinct(data, 256) >= 1
    ensures Entropy(log2, data) <= log2(Distinct(data, 256) as real)
  {
    DistinctRange(data);
    RaritySums(log2, data);
    MeanOfScaled(log2, Mapped(data, RarityOf(data)), Distinct(data, 256) as real, Entropy(log2, data));
  }

  lemma CancelFactor(n: real, x: real, y: real)
    requires n > 0.0 && n * x <= n * y
    ensures x <= y
  {
  }

  lemma {:induction false} PartialSign(log2: real -> real, data: seq<byte>, m: nat)
    requires IsLog2(log2) && data != []
    ensures Partial(log2, data, m) >= 0.0
    ensures Partial(log2, data, m) == 0.0 <==>
            forall b: nat :: b < m ==> Count(data, b) == 0 || Count(data, b) == |data|
  {
    if m > 0 {
      PartialSign(log2, data, m - 1);
      CountBounds(data, m - 1);
      ShareSign(log2, Count(data, m - 1), |data|);
    }
  }

  lemma EntropyLower(log2: real -> real, data: seq<byte>)
    requires IsLog2(log2)
    ensures Entropy(log2, data) >= 0.0
    ensures Entropy(log2, data) == 0.0 <==> forall i, j :: 0 <= i < |data| && 0 <= j < |data| ==> data[i] == data[j]
  {
    if data != [] {
      PartialSign(log2, data, 256);
      if forall i, j :: 0 <= i < |data| && 0 <= j < |data| ==> data[i] == data[j] {
        forall b: nat | b < 256 ensures Count(data, b) == 0 || Count(data, b) == |data| {
          ConstantCount(data, data[0], b);
        }
      } else {
        var i, j :| 0 <= i < |data| && 0 <= j < |data| && data[i] != data[j];
        CountBounds(data, data[i]);
        CountBounds(data, data[j]);
        TwoCounts(data, data[i], data[j]);
      }
    }
  }

  lemma {:induction false} ConstantCount(data: seq<byte>, d: byte, b: int)
    requires forall i :: 0 <= i < |data| ==> data[i] == d
    ensures Count(data, b) == if b == d then |data| else 0
  {
    if data != [] { ConstantCount(data[..|data| - 1], d, b); }
  }

  lemma {:induction false} TwoCounts(data: seq<byte>, b: int, c: int)
    requires b != c
    ensures Count(data, b) + Count(data, c) <= |data|
  {
    if data != [] { TwoCounts(data[..|data| - 1], b, c); }
  }

  // ---- The thresholds ----

  /** One product step: from log2 x = a and log2 y = b to log2 z, for z = x*y. */
  lemma LogStep(log2: real -> real, x: real, a: real, y: real, b: real, z: real)
    requires IsLog2(log2) && x > 0.0 && y > 0.0 && z == x * y
    requires log2(x) == a && log2(y) == b
    ensures z > 0.0 && log2(z) == a + b
  {
    LogProduct(log2, x, y);
  }

  lemma LogPowersOfTwo(log2: real -> real)
    requires IsLog2(log2)
    ensures log2(8.0) == 3.0 && log2(256.0) == 8.0
    ensures log2(68719476736.0) == 36.0 && log2(549755813888.0) == 39.0
  {
    LogStep(log2, 2.0, 1.0, 2.0, 1.0, 4.0);
    LogStep(log2, 4.0, 2.0, 2.0, 1.0, 8.0);
    LogStep(log2, 4.0, 2.0, 4.0, 2.0, 16.0);
    LogStep(log2, 16.0, 4.0, 16.0, 4.0, 256.0);
    LogStep(log2, 256.0, 8.0, 256.0, 8.0, 65536.0);
    LogStep(log2, 65536.0, 16.0, 65536.0, 16.0, 4294967296.0);
    LogStep(log2, 4294967296.0, 32.0, 16.0, 4.0, 68719476736.0);
    LogStep(log2, 68719476736.0, 36.0, 8.0, 3.0, 549755813888.0);
  }

  lemma LogFifthPower(log2: real -> real, x: real, x2: real, x4: real, x5: real)
    requires IsLog2(log2) && x > 0.0 && x2 == x * x && x4 == x2 * x2 && x5 == x4 * x
    ensures x5 > 0.0 && log2(x5) == 5.0 * log2(x)
  {
    var l := log2(x);
    LogStep(log2, x, l, x, l, x2);
    LogStep(log2, x2, l + l, x2, l + l, x4);
    LogStep(log2, x4, l + l + l + l, x, l, x5);
  }

  /** The two thresholds sit between logarithms of consecutive lengths: 147^5 < 2^36 < 148^5
      and 222^5 < 2^39 < 223^5. */
  lemma ThresholdLogs(log2: real -> real)
    requires IsLog2(log2)
    ensures log2(147.0) < 7.2 < log2(148.0)
    ensures log2(222.0) < 7.8 < log2(223.0)
  {
    LogPowersOfTwo(log2);
    LogFifthPower(log2, 147.0, 21609.0, 466948881.0, 68641485507.0);
    LogFifthPower(log2, 148.0, 21904.0, 479785216.0, 71008211968.0);
    LogFifthPower(log2, 222.0, 49284.0, 2428912656.0, 539218609632.0);
    LogFifthPower(log2, 223.0, 49729.0, 2472973441.0, 551473077343.0);
    LogOrder(log2, 68641485507.0, 68719476736.0);
    LogOrder(log2, 68719476736.0, 71008211968.0);
    LogOrder(log2, 539218609632.0, 549755813888.0);
    LogOrder(log2, 549755813888.0, 551473077343.0);
  }

  /** Entropy lies between 0 and 8 bits, and a payload of n bytes has at most log2 n. */
  lemma EntropyRange(log2: real -> real, data: seq<byte>)
    requires IsLog2(log2)
    ensures 0.0 <= Entropy(log2, data) <= 8.0
    ensures data != [] ==> Entropy(log2, data) <= log2(|data| as real)
  {
    EntropyLower(log2, data);
    if data != [] {
      EntropyUpper(log2, data);
      DistinctRange(data);
      LogPowersOfTwo(log2);
      LogOrder(log2, Distinct(data, 256) as real, 256.0);
      LogOrder(log2, Distinct(data, 256) as real, |data| as real);
    }
  }

  /** Short payloads never raise either alarm. */
  lemma ShortPayloadsPass(log2: real -> real, data: seq<byte>)
    requires IsLog2(log2)
    ensures |data| <= 147 ==> Entropy(log2, data) < HIGH_THRESHOLD
    ensures |data| <= 222 ==> Entropy(log2, data) < VERY_HIGH
  {
    if data != [] {
      EntropyRange(log2, data);
      ThresholdLogs(log2);
      if |data| <= 147 { LogOrder(log2, |data| as real, 147.0); }
      if |data| <= 222 { LogOrder(log2, |data| as real, 222.0); }
    }
  }

  ghost predicate AllDifferent(data: seq<byte>) {
    forall i, j :: 0 <= i < j < |data| ==> data[i] != data[j]
  }

  lemma {:induction false} DifferentCount(data: seq<byte>, b: int)
    requires AllDifferent(data)
    ensures Count(data, b) <= 1
  {
    if data != [] {
      DifferentCount(data[..|data| - 1], b);
      CountBounds(data[..|data| - 1], b);
    }
  }

  lemma {:induction false} LogsOfConstant(log2: real -> real, xs: seq<real>, x: real)
    requires forall i :: 0 <= i < |xs| ==> xs[i] == x
    ensures Logs(log2, xs) == Times(|xs|, log2(x))
  {
    if xs != [] { LogsOfConstant(log2, xs[..|xs| - 1], x); }
  }

  /** The bound is reached: n different bytes have entropy exactly log2 n. */
  lemma DifferentBytesEntropy(log2: real -> real, data: seq<byte>)
    requires IsLog2(log2) && data != [] && AllDifferent(data)
    ensures Entropy(log2, data) == log2(|data| as real)
  {
    var n, xs := |data|, Mapped(data, RarityOf(data));
    forall i | 0 <= i < n ensures xs[i] == n as real {
      DifferentCount(data, data[i]);
      CountBounds(data, data[i]);
      assert Count(data, data[i]) == 1;
    }
    LogsOfConstant(log2, xs, n as real);
    RaritySums(log2, data);
    TimesOrder(n, Entropy(log2, data), log2(n as real));
    TimesOrder(n, log2(n as real), Entropy(log2, data));
  }

  function Ramp(n: nat): (data: seq<byte>)
    requires n <= 256
    ensures |data| == n && AllDifferent(data)
  {
    seq(n, i requires 0 <= i < n => i)
  }

  /** The lengths in ShortPayloadsPass are the largest possible. */
  lemma LongPayloadsCanAlarm(log2: real -> real, n: nat)
    requires IsLog2(log2) && 148 <= n <= 256
    ensures Entropy(log2, Ramp(n)) >= HIGH_THRESHOLD
    ensures n >= 223 ==> Entropy(log2, Ramp(n)) >= VERY_HIGH
  {
    DifferentBytesEntropy(log2, Ramp(n));
    ThresholdLogs(log2);
    LogOrder(log2, 148.0, n as real);
    if n >= 223 { LogOrder(log2, 223.0, n as real); }
  }

  // ---- Classification ----

  const HIGH_THRESHOLD: real := 7.2
  const VERY_HIGH: real := 7.8

  datatype EntropyResult = EntropyResult(score: real, suspicious: bool, level: string)

  method AnalyseEntropy(log2: real -> real, data: seq<byte>) returns (res: EntropyResult)
    requires IsLog2(log2)
    ensures res.suspicious <==> Entropy(log2, data) >= HIGH_THRESHOLD
    ensures res.suspicious <==> res.level in {"HIGH_ENTROPY_LIKELY_ENCRYPTED", "HIGH_ENTROPY_SUSPICIOUS"}
    ensures res.level == "HIGH_ENTROPY_LIKELY_ENCRYPTED" <==> Entropy(log2, data) >= VERY_HIGH
    ensures res.level == "HIGH_ENTROPY_SUSPICIOUS" <==> HIGH_THRESHOLD <= Entropy(log2, data) < VERY_HIGH
    ensures res.level == "MEDIUM_ENTROPY" <==> 6.0 <= Entropy(log2, data) < HIGH_THRESHOLD
    ensures res.level == "CLEAN" <==> Entropy(log2, data) < 6.0
    ensures -0.00005 <= res.score - Entropy(log2, data) <= 0.00005
    ensures |data| <= 147 ==> !res.suspicious
  {
    var score := ShannonEntropy(log2, data);
    ShortPayloadsPass(log2, data);
    var suspicious := score >= HIGH_THRESHOLD;
    var level := "CLEAN";
    if score >= VERY_HIGH {
      level := "HIGH_ENTROPY_LIKELY_ENCRYPTED";
    } else if score >= HIGH_THRESHOLD {
      level := "HIGH_ENTROPY_SUSPICIOUS";
    } else if score >= 6.0 {
      level := "MEDIUM_ENTROPY";
    }
    EntropyLower(log2, data);
    // math.Round on a non-negative number
    var rounded := (score * 10000.0 + 0.5).Floor as real;
    return EntropyResult(rounded / 10000.0, suspicious, level);
  }
}
