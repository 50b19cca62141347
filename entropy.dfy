/**
 * The Shannon entropy of a byte buffer, as `entropy` computes it: the
 * distinct byte values in order of first occurrence (`dict.fromkeys`), the
 * relative frequency of each (`count / len`), and minus the sum of
 * p * log2(p).  The logarithm is a parameter `log2`, standing for
 * `math.log(p) / math.log(2.0)`; arithmetic is on exact reals.
 */
module Entropy {

  import opened Bytes

  /** `s.count(c)`. */
  function Count(s: seq<byte>, c: byte): (n: nat)
    ensures n <= |s|
    ensures n > 0 <==> c in s
    ensures n == multiset(s)[c]
  {
    if s == [] then 0
    else
      assert s == s[..|s| - 1] + [s[|s| - 1]];
      Count(s[..|s| - 1], c) + (if s[|s| - 1] == c then 1 else 0)
  }

  predicate NoDuplicates(s: seq<byte>) {
    forall i, j :: 0 <= i < j < |s| ==> s[i] != s[j]
  }

  /** `dict.fromkeys(list(s))`: the distinct values of s, first occurrence first. */
  function Distinct(s: seq<byte>): (d: seq<byte>)
    ensures NoDuplicates(d)
    ensures forall c :: c in d <==> c in s
    ensures |d| <= |s|
  {
    if s == [] then []
    else
      var d := Distinct(s[..|s| - 1]);
      if s[|s| - 1] in d then d else d + [s[|s| - 1]]
  }

  /** Index of the first occurrence of a value present in s. */
  function FirstIndex(s: seq<byte>, c: byte): (i: nat)
    requires c in s
    ensures i < |s| && s[i] == c && c !in s[..i]
  {
    if s[0] == c then 0
    else
      assert c in s[1..];
      var i := FirstIndex(s[1..], c);
      assert s[..i + 1] == [s[0]] + s[1..][..i];
      i + 1
  }

  /** A value already present in the prefix first occurs at the same index in s. */
  lemma {:induction false} FirstIndexOfPrefix(s: seq<byte>, c: byte)
    requires |s| > 0 && c in s[..|s| - 1]
    ensures FirstIndex(s, c) == FirstIndex(s[..|s| - 1], c)
  {
    var p := s[..|s| - 1];
    if s[0] != c {
      assert s[1..][..|s[1..]| - 1] == p[1..];
      assert c in p[1..];
      FirstIndexOfPrefix(s[1..], c);
    }
  }

  /** Distinct lists the values in the order of their first occurrence in s. */
  lemma {:induction false} DistinctInFirstOccurrenceOrder(s: seq<byte>, i: nat, j: nat)
    requires i < j < |Distinct(s)|
    ensures FirstIndex(s, Distinct(s)[i]) < FirstIndex(s, Distinct(s)[j])
  {
    var p := s[..|s| - 1];
    var d := Distinct(p);
    var x, y := Distinct(s)[i], Distinct(s)[j];
    assert x == d[i] && x in p;
    FirstIndexOfPrefix(s, x);
    if j < |d| {
      assert y == d[j] && y in p;
      FirstIndexOfPrefix(s, y);
      DistinctInFirstOccurrenceOrder(p, i, j);
    } else {
      assert y == s[|s| - 1] && y !in p;
      assert FirstIndex(s, y) == |s| - 1;
    }
  }

  /** The sum of `Count(s, c)` over the values c of d. */
  function CountSum(d: seq<byte>, s: seq<byte>): nat
  {
    if d == [] then 0 else CountSum(d[..|d| - 1], s) + Count(s, d[|d| - 1])
  }

  /** Appending x to s raises the sum by the number of times x occurs in d. */
  lemma {:induction false} CountSumAppend(d: seq<byte>, s: seq<byte>, x: byte)
    ensures CountSum(d, s + [x]) == CountSum(d, s) + Count(d, x)
  {
    var t := s + [x];
    assert t[..|t| - 1] == s;
    if d != [] {
      CountSumAppend(d[..|d| - 1], s, x);
    }
  }

  /** In a list without duplicates a value occurs at most once. */
  lemma {:induction false} CountInDistinctList(d: seq<byte>, x: byte)
    requires NoDuplicates(d)
    ensures Count(d, x) == if x in d then 1 else 0
  {
    if d != [] {
      var p := d[..|d| - 1];
      assert NoDuplicates(p);
      CountInDistinctList(p, x);
      if d[|d| - 1] == x {
        assert x !in p;
      } else {
        assert x in d ==> x in p;
      }
    }
  }

  /** The counts of the distinct values add up to the length of the buffer. */
  lemma {:induction false} CountsSumToLength(s: seq<byte>)
    ensures CountSum(Distinct(s), s) == |s|
  {
    if s != [] {
      var p, x := s[..|s| - 1], s[|s| - 1];
      assert s == p + [x];
      var d := Distinct(p);
      CountsSumToLength(p);
      CountSumAppend(d, p, x);
      CountInDistinctList(d, x);
      if x !in d {
        assert Distinct(s) == d + [x];
        assert (d + [x])[..|d|] == d;
        assert Count(p, x) == 0;
      }
    }
  }

  /**
   * `[float(s.count(c)) / len(s) for c in d]`.  With no values there is
   * nothing to divide, which is why the empty buffer needs no guard.
   */
  function Probabilities(d: seq<byte>, s: seq<byte>): (ps: seq<real>)
    requires d != [] ==> |s| > 0
    ensures |ps| == |d|
  {
    if d == [] then []
    else Probabilities(d[..|d| - 1], s) + [Count(s, d[|d| - 1]) as real / |s| as real]
  }

  /** The k-th probability is the relative frequency of the k-th value. */
  lemma {:induction false} ProbabilityAt(d: seq<byte>, s: seq<byte>, k: nat)
    requires |s| > 0 && k < |d|
    ensures Probabilities(d, s)[k] == Count(s, d[k]) as real / |s| as real
  {
    if k < |d| - 1 {
      ProbabilityAt(d[..|d| - 1], s, k);
    }
  }

  function Sum(ps: seq<real>): real {
    if ps == [] then 0.0 else Sum(ps[..|ps| - 1]) + ps[|ps| - 1]
  }

  lemma AddFractions(a: real, b: real, n: real)
    requires n > 0.0
    ensures a / n + b / n == (a + b) / n
  {
  }

  /** The probabilities add up to the counts divided by the length. */
  lemma {:induction false} SumOfProbabilities(d: seq<byte>, s: seq<byte>)
    requires |s| > 0
    ensures Sum(Probabilities(d, s)) == CountSum(d, s) as real / |s| as real
  {
    if d != [] {
      var d' := d[..|d| - 1];
      var ps, ps' := Probabilities(d, s), Probabilities(d', s);
      var a, b := CountSum(d', s) as real, Count(s, d[|d| - 1]) as real;
      assert ps == ps' + [b / |s| as real];
      assert ps[..|ps| - 1] == ps';
      SumOfProbabilities(d', s);
      AddFractions(a, b, |s| as real);
    }
  }

  /** The probabilities of the histogram of a non-empty buffer sum to 1. */
  lemma ProbabilitiesSumToOne(s: seq<byte>)
    requires |s| > 0
    ensures Sum(Probabilities(Distinct(s), s)) == 1.0
  {
    var d := Distinct(s);
    var n := |s| as real;
    SumOfProbabilities(d, s);
    CountsSumToLength(s);
    assert CountSum(d, s) as real == n;
    DivideBySelf(n);
  }

  /** Each probability of the histogram lies in (0, 1]. */
  lemma ProbabilitiesInUnitInterval(s: seq<byte>, k: nat)
    requires k < |Distinct(s)|
    ensures 0.0 < Probabilities(Distinct(s), s)[k] <= 1.0
  {
    var d := Distinct(s);
    assert d[k] in d;
    ProbabilityAt(d, s, k);
    var n := Count(s, d[k]);
    assert 0 < n <= |s|;
    FractionInUnitInterval(n, |s|);
  }

  /** The sum of p * log2(p). */
  function SumPLogP(ps: seq<real>, log2: real -> real): real {
    if ps == [] then 0.0 else SumPLogP(ps[..|ps| - 1], log2) + ps[|ps| - 1] * log2(ps[|ps| - 1])
  }

  /** `entropy(data)`: minus the sum of p * log2(p) over the histogram of data. */
  function Shannon(data: seq<byte>, log2: real -> real): (e: real)
    ensures data == [] ==> e == 0.0
  {
    -SumPLogP(Probabilities(Distinct(data), data), log2)
  }

  /** The histogram of a buffer of one repeated value has that value alone. */
  lemma {:induction false} DistinctOfConstant(data: seq<byte>)
    requires |data| > 0 && forall i :: 0 <= i < |data| ==> data[i] == data[0]
    ensures Distinct(data) == [data[0]]
  {
    var p := data[..|data| - 1];
    if |p| > 0 {
      DistinctOfConstant(p);
    }
  }

  /** A buffer of one repeated value has entropy -log2(1), that is 0. */
  lemma ConstantBufferHasZeroEntropy(data: seq<byte>, log2: real -> real)
    requires |data| > 0 && forall i :: 0 <= i < |data| ==> data[i] == data[0]
    requires log2(1.0) == 0.0
    ensures Shannon(data, log2) == 0.0
  {
    DistinctOfConstant(data);
    CountsSumToLength(data);
    var d := [data[0]];
    assert d[..0] == [];
    assert Count(data, data[0]) == |data|;
    DivideBySelf(|data| as real);
    var ps := Probabilities(d, data);
    assert ps == [1.0];
    assert ps[..0] == [];
    assert SumPLogP(ps, log2) == 1.0 * log2(1.0);
  }

  /** The sum of p * log2(p) over k copies of p. */
  lemma {:induction false} SumPLogPOfEqual(ps: seq<real>, p: real, log2: real -> real)
    requires forall i :: 0 <= i < |ps| ==> ps[i] == p
    ensures SumPLogP(ps, log2) == |ps| as real * (p * log2(p))
  {
    if ps != [] {
      SumPLogPOfEqual(ps[..|ps| - 1], p, log2);
    }
  }

  /** The sum of counts when every value of d occurs k times. */
  lemma {:induction false} CountSumOfEqual(d: seq<byte>, s: seq<byte>, k: nat)
    requires forall i :: 0 <= i < |d| ==> Count(s, d[i]) == k
    ensures CountSum(d, s) == |d| * k
  {
    if d != [] {
      var init := d[..|d| - 1];
      assert forall i :: 0 <= i < |init| ==> Count(s, init[i]) == k by {
        forall i | 0 <= i < |init| ensures Count(s, init[i]) == k {
          assert init[i] == d[i];
        }
      }
      CountSumOfEqual(init, s, k);
      assert Count(s, d[|d| - 1]) == k;
      MultiplySuccessor(|init|, k);
    }
  }

  lemma MultiplySuccessor(a: nat, k: nat)
    ensures (a + 1) * k == a * k + k
  {
  }

  /**
   * A buffer of n distinct values that all occur equally often has entropy
   * -log2(1/n), that is log2(n).
   */
  lemma {:induction false} UniformBufferEntropy(data: seq<byte>, log2: real -> real, k: nat)
    requires |data| > 0
    requires forall c :: c in data ==> Count(data, c) == k
    ensures Shannon(data, log2) == -log2(1.0 / |Distinct(data)| as real)
  {
    var ps := Probabilities(Distinct(data), data);
    UniformProbabilities(data, k);
    UniformSum(ps, log2);
  }

  /** n probabilities of 1/n contribute 1/n * log2(1/n) each, log2(1/n) in all. */
  lemma UniformSum(ps: seq<real>, log2: real -> real)
    requires |ps| > 0
    requires forall i :: 0 <= i < |ps| ==> ps[i] == 1.0 / |ps| as real
    ensures SumPLogP(ps, log2) == log2(1.0 / |ps| as real)
  {
    var p := 1.0 / |ps| as real;
    SumPLogPOfEqual(ps, p, log2);
    ghost var sum := SumPLogP(ps, log2);
    ghost var l := log2(p);
    assert sum == |ps| as real * ((1.0 / |ps| as real) * l);
    ScaleBack(sum, |ps|, l);
  }

  /** Every value of a uniform buffer has probability 1/n. */
  lemma UniformProbabilities(data: seq<byte>, k: nat)
    requires |data| > 0
    requires forall c :: c in data ==> Count(data, c) == k
    ensures |Distinct(data)| > 0
    ensures forall i :: 0 <= i < |Distinct(data)| ==>
              Probabilities(Distinct(data), data)[i] == 1.0 / |Distinct(data)| as real
  {
    var d := Distinct(data);
    var n := |d|;
    assert data[0] in d;
    UniformLength(data, k);
    forall i | 0 <= i < n ensures Probabilities(d, data)[i] == 1.0 / n as real {
      ProbabilityAt(d, data, i);
      assert d[i] in data;
      UniformFraction(k, n);
    }
  }

  /** A uniform buffer is n copies of k occurrences each. */
  lemma UniformLength(data: seq<byte>, k: nat)
    requires |data| > 0
    requires forall c :: c in data ==> Count(data, c) == k
    ensures k > 0 && |data| == |Distinct(data)| * k
  {
    var d := Distinct(data);
    assert Count(data, data[0]) == k;
    forall i | 0 <= i < |d| ensures Count(data, d[i]) == k {
      assert d[i] in data;
    }
    CountsSumToLength(data);
    CountSumOfEqual(d, data, k);
  }

  lemma ScaleBack(sum: real, n: nat, l: real)
    requires n > 0 && sum == n as real * ((1.0 / n as real) * l)
    ensures sum == l
  {
    assert n as real * (1.0 / n as real) == 1.0;
  }

  lemma DivideBySelf(n: real)
    requires n > 0.0
    ensures n / n == 1.0
  {
  }

  lemma FractionInUnitInterval(n: nat, m: nat)
    requires 0 < n <= m
    ensures 0.0 < n as real / m as real <= 1.0
  {
  }

  lemma UniformFraction(k: nat, n: nat)
    requires k > 0 && n > 0
    ensures k as real / (n * k) as real == 1.0 / n as real
  {
    assert (n * k) as real == n as real * k as real;
  }

  /** With a logarithm that is at most 0 on (0, 1], the entropy is never negative. */
  lemma EntropyNonNegative(data: seq<byte>, log2: real -> real)
    requires forall p :: 0.0 < p <= 1.0 ==> log2(p) <= 0.0
    ensures Shannon(data, log2) >= 0.0
  {
    var ps := Probabilities(Distinct(data), data);
    forall k | 0 <= k < |ps| ensures 0.0 < ps[k] <= 1.0 {
      ProbabilitiesInUnitInterval(data, k);
    }
    SumPLogPNonPositive(ps, log2);
  }

  lemma {:induction false} SumPLogPNonPositive(ps: seq<real>, log2: real -> real)
    requires forall i :: 0 <= i < |ps| ==> 0.0 < ps[i] <= 1.0
    requires forall p :: 0.0 < p <= 1.0 ==> log2(p) <= 0.0
    ensures SumPLogP(ps, log2) <= 0.0
  {
    if ps != [] {
      var q := ps[|ps| - 1];
      SumPLogPNonPositive(ps[..|ps| - 1], log2);
      assert log2(q) <= 0.0;
      assert q * log2(q) <= 0.0;
    }
  }

}
