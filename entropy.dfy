/**
 * The integer part of `calculate_entropy` (entropy.c:5-42): the size-0 guard,
 * the 256-bucket byte histogram, and the selection of the non-empty buckets
 * with their probabilities `counts[i] / size`. The floating-point sum
 * `-p * log2(p)` over those buckets is not modelled: the method returns the
 * list of terms that the C code adds up.
 */
module Entropy {

  /** The number of buckets of `counts`: one per unsigned byte value. */
  const Buckets: nat := 256

  /** `char` on x86-64 Linux, the platform the file system is built for: signed, 8 bits. */
  newtype CChar = c: int | -128 <= c < 128

  /** The cast `(unsigned char) c`: the value modulo 256, always a valid bucket index. */
  function UnsignedChar(c: CChar): (b: nat)
    ensures b < 256
    ensures 0 <= c ==> b == c as int
    ensures c < 0 ==> b == c as int + 256
  {
    (c as int) % 256
  }

  /** How many positions of `s` hold a byte whose unsigned value is `v`. */
  function Count(s: seq<CChar>, v: int): nat
  {
    if s == [] then 0
    else Count(s[..|s| - 1], v) + (if UnsignedChar(s[|s| - 1]) == v then 1 else 0)
  }

  /** The intended content of `counts[256]` after the counting loop over `s`. */
  function Histogram(s: seq<CChar>): seq<nat>
  {
    seq(Buckets, v => Count(s, v))
  }

  /** The sum of a sequence of counts. */
  function Sum(a: seq<nat>): nat
  {
    if a == [] then 0 else Sum(a[..|a| - 1]) + a[|a| - 1]
  }

  /** One bucket that takes part in the entropy sum: its byte value and `counts[i] / size`. */
  datatype Term = Term(bucket: nat, probability: real)

  /**
   * What `calculate_entropy` adds up. `SizeZero` is the early return of 0.0
   * for an empty buffer; otherwise the entropy is `-Σ p * log2(p)` over `terms`.
   */
  datatype Entropy = SizeZero | Weighted(terms: seq<Term>)

  /**
   * The terms the second loop produces from buckets `[0, n)`: the buckets with
   * a non-zero count, each once and in increasing order, with probability
   * `count / size`; empty buckets are skipped.
   */
  function TermsUpTo(counts: seq<nat>, size: nat, n: nat): (r: seq<Term>)
    requires n <= |counts| && size > 0
    ensures forall k :: 0 <= k < |r| ==>
              && r[k].bucket < n
              && counts[r[k].bucket] != 0
              && r[k].probability == counts[r[k].bucket] as real / size as real
    ensures forall k, k' :: 0 <= k < k' < |r| ==> r[k].bucket < r[k'].bucket
  {
    if n == 0 then
      []
    else
      var earlier := TermsUpTo(counts, size, n - 1);
      if counts[n - 1] == 0 then
        earlier
      else
        var r := earlier + [Term(n - 1, counts[n - 1] as real / size as real)];
        assert r[|earlier|].bucket == n - 1;
        r
  }

  /** Every non-empty bucket below `n` has its term: no byte value that occurs is skipped. */
  lemma {:induction false} TermsCoverNonEmpty(counts: seq<nat>, size: nat, n: nat, v: nat)
    requires n <= |counts| && size > 0
    requires v < n && counts[v] != 0
    ensures exists k :: 0 <= k < |TermsUpTo(counts, size, n)| && TermsUpTo(counts, size, n)[k].bucket == v
  {
    var earlier := TermsUpTo(counts, size, n - 1);
    var r := TermsUpTo(counts, size, n);
    if v == n - 1 {
      assert r[|earlier|].bucket == v;
    } else {
      TermsCoverNonEmpty(counts, size, n - 1, v);
      var k :| 0 <= k < |earlier| && earlier[k].bucket == v;
      assert r[k] == earlier[k];
    }
  }

  /** A positive count no larger than the size gives a probability in (0, 1]. */
  lemma ProbabilityBounds(c: nat, size: nat)
    requires 0 < c <= size
    ensures 0.0 < c as real / size as real <= 1.0
  {
  }

  /** Probabilities over the same size add as their counts do. */
  lemma ProbabilityAdd(a: nat, b: nat, size: nat)
    requires size > 0
    ensures a as real / size as real + b as real / size as real == (a + b) as real / size as real
  {
  }

  /** Appending one byte adds one to its own bucket and to no other. */
  lemma CountSnoc(s: seq<CChar>, c: CChar, v: int)
    ensures Count(s + [c], v) == Count(s, v) + (if UnsignedChar(c) == v then 1 else 0)
  {
    assert (s + [c])[..|s|] == s;
  }

  /**
   * `calculate_entropy`: an empty buffer gives 0.0 straight away; otherwise
   * `counts` starts all zero (the `memset`), the first loop counts every byte
   * of `buffer[0..size)` into bucket `(unsigned char) buffer[i]`, and the
   * second loop keeps the non-empty buckets with their probabilities.
   */
  method CalculateEntropy(buffer: array<CChar>, size: nat) returns (e: Entropy)
    requires size <= buffer.Length
    ensures size == 0 ==> e == SizeZero
    ensures size > 0 ==> e == Weighted(TermsUpTo(Histogram(buffer[..size]), size, Buckets))
  {
    if size == 0 {
      return SizeZero;
    }
    var counts := new nat[256](_ => 0);
    assert counts[..] == Histogram(buffer[..0]);
    for i := 0 to size
      invariant counts[..] == Histogram(buffer[..i])
    {
      var b := UnsignedChar(buffer[i]);
      counts[b] := counts[b] + 1;
      assert buffer[..i + 1] == buffer[..i] + [buffer[i]];
      forall v | 0 <= v < 256 ensures counts[v] == Count(buffer[..i + 1], v) {
        CountSnoc(buffer[..i], buffer[i], v);
      }
    }
    assert buffer[..size] == buffer[..][..size];
    var terms: seq<Term> := [];
    for i := 0 to 256
      invariant terms == TermsUpTo(counts[..], size, i)
    {
      if counts[i] == 0 {
        continue;
      }
      var probability := counts[i] as real / size as real;
      terms := terms + [Term(i, probability)];
    }
    e := Weighted(terms);
  }

  /** No bucket counts more bytes than the buffer has. */
  lemma {:induction false} CountBounded(s: seq<CChar>, v: int)
    ensures Count(s, v) <= |s|
  {
    if s != [] {
      CountBounded(s[..|s| - 1], v);
    }
  }

  /** Adding one to one count adds one to the total. */
  lemma {:induction false} SumIncrement(a: seq<nat>, k: nat)
    requires k < |a|
    ensures Sum(a[k := a[k] + 1]) == Sum(a) + 1
  {
    var b := a[k := a[k] + 1];
    if k == |a| - 1 {
      assert b[..|b| - 1] == a[..|a| - 1];
    } else {
      assert b[..|b| - 1] == a[..|a| - 1][k := a[k] + 1];
      SumIncrement(a[..|a| - 1], k);
    }
  }

  /** Counts that are all zero add up to zero. */
  lemma {:induction false} SumZeros(a: seq<nat>)
    requires forall i :: 0 <= i < |a| ==> a[i] == 0
    ensures Sum(a) == 0
  {
    if a != [] {
      SumZeros(a[..|a| - 1]);
    }
  }

  /** The 256 counts add up to the number of bytes counted. */
  lemma {:induction false} HistogramTotal(s: seq<CChar>)
    ensures Sum(Histogram(s)) == |s|
  {
    if s != [] {
      var init := s[..|s| - 1];
      var last := s[|s| - 1];
      var b := UnsignedChar(last);
      HistogramTotal(init);
      assert s == init + [last];
      forall v | 0 <= v < 256 ensures Histogram(s)[v] == Histogram(init)[b := Histogram(init)[b] + 1][v] {
        CountSnoc(init, last, v);
      }
      assert Histogram(s) == Histogram(init)[b := Histogram(init)[b] + 1];
      SumIncrement(Histogram(init), b);
    } else {
      SumZeros(Histogram(s));
    }
  }

  /** Each term's probability lies in (0, 1]. */
  lemma TermsAreProbabilities(s: seq<CChar>)
    requires |s| > 0
    ensures var t := TermsUpTo(Histogram(s), |s|, Buckets);
            forall k :: 0 <= k < |t| ==> 0.0 < t[k].probability <= 1.0
  {
    var h := Histogram(s);
    var t := TermsUpTo(h, |s|, Buckets);
    forall k | 0 <= k < |t| ensures 0.0 < t[k].probability <= 1.0 {
      var c := h[t[k].bucket];
      CountBounded(s, t[k].bucket);
      ProbabilityBounds(c, |s|);
    }
  }

  /** The sum of the probabilities of a list of terms. */
  function TotalProbability(t: seq<Term>): real
  {
    if t == [] then 0.0 else TotalProbability(t[..|t| - 1]) + t[|t| - 1].probability
  }

  /** Adding a term adds its probability. */
  lemma TotalProbabilitySnoc(t: seq<Term>, x: Term)
    ensures TotalProbability(t + [x]) == TotalProbability(t) + x.probability
  {
    assert (t + [x])[..|t|] == t;
  }

  /** The terms of buckets `[0, n)` carry `Sum(counts[..n]) / size` in all. */
  lemma {:induction false} TotalProbabilityUpTo(counts: seq<nat>, size: nat, n: nat)
    requires n <= |counts| && size > 0
    ensures TotalProbability(TermsUpTo(counts, size, n)) == Sum(counts[..n]) as real / size as real
  {
    if n > 0 {
      var earlier := TermsUpTo(counts, size, n - 1);
      var c := counts[n - 1];
      TotalProbabilityUpTo(counts, size, n - 1);
      assert Sum(counts[..n]) == Sum(counts[..n - 1]) + c by {
        assert counts[..n][..n - 1] == counts[..n - 1];
      }
      assert TotalProbability(TermsUpTo(counts, size, n)) == TotalProbability(earlier) + c as real / size as real by {
        if c != 0 {
          TotalProbabilitySnoc(earlier, Term(n - 1, c as real / size as real));
        }
      }
      ProbabilityAdd(Sum(counts[..n - 1]), c, size);
    }
  }

  /** The probabilities of a non-empty buffer's terms add up to exactly 1. */
  lemma ProbabilitiesSumToOne(s: seq<CChar>)
    requires |s| > 0
    ensures TotalProbability(TermsUpTo(Histogram(s), |s|, Buckets)) == 1.0
  {
    var h := Histogram(s);
    assert Sum(h[..Buckets]) == |s| by {
      assert h[..Buckets] == h;
      HistogramTotal(s);
    }
    TotalProbabilityUpTo(h, |s|, Buckets);
    SelfProbability(|s|);
  }

  /** A count equal to the size is probability 1. */
  lemma SelfProbability(size: nat)
    requires size > 0
    ensures size as real / size as real == 1.0
  {
  }

  /** In a buffer of one repeated byte, that byte's bucket counts every position and the others none. */
  lemma {:induction false} CountRepeated(s: seq<CChar>, c: CChar, v: int)
    requires forall i :: 0 <= i < |s| ==> s[i] == c
    ensures Count(s, v) == if v == UnsignedChar(c) then |s| else 0
  {
    if s != [] {
      CountRepeated(s[..|s| - 1], c, v);
    }
  }

  /**
   * A buffer that repeats one byte has a single non-empty bucket, holding the
   * whole buffer: one term, of probability 1 (so its entropy is 0).
   */
  lemma RepeatedByteSingleTerm(s: seq<CChar>, c: CChar)
    requires |s| > 0
    requires forall i :: 0 <= i < |s| ==> s[i] == c
    ensures TermsUpTo(Histogram(s), |s|, Buckets) == [Term(UnsignedChar(c), 1.0)]
  {
    var h := Histogram(s);
    var b := UnsignedChar(c);
    forall v | 0 <= v < Buckets ensures h[v] == if v == b then |s| else 0 {
      CountRepeated(s, c, v);
    }
    SingleBucketTerms(h, |s|, Buckets, b);
    SelfProbability(|s|);
  }

  /** With a single non-empty bucket `b`, the terms of `[0, n)` are that bucket's alone once `n` passes it. */
  lemma {:induction false} SingleBucketTerms(counts: seq<nat>, size: nat, n: nat, b: nat)
    requires n <= |counts| && size > 0 && b < |counts| && counts[b] != 0
    requires forall v :: 0 <= v < |counts| && v != b ==> counts[v] == 0
    ensures TermsUpTo(counts, size, n) == if b < n then [Term(b, counts[b] as real / size as real)] else []
  {
    if n > 0 {
      SingleBucketTerms(counts, size, n - 1, b);
    }
  }
}
