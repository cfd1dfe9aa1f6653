/** The word hash of both versions: a Horner accumulation of weighted character
    codes with prime 31, reduced modulo the bucket count. The two versions differ
    only in the vowel set. */
module WordHash {
  import opened Text

  /** The fixed number of hash buckets. */
  const BUCKETS: nat := 53
  const PRIME: nat := 31

  /** Vowels doubled by the Java hash (upper case only). */
  const JAVA_VOWELS: string := "AEIOU"
  /** Vowels doubled by the Python hash (both cases). */
  const PY_VOWELS: string := "AEIOUaeiou"

  /** The weighted code of the character at position `i`: its code point, doubled
      when it is a vowel, and then multiplied by 4 when it is the second or third
      character from the end. */
  function CharValue(w: string, vowels: string, i: nat): nat
    requires i < |w|
  {
    var v := w[i] as int;
    var v1 := if w[i] in vowels then v * 2 else v;
    if i == |w| - 2 || i == |w| - 3 then v1 * 4 else v1
  }

  /** The unreduced Horner accumulation over the first `n` characters. */
  function Horner(w: string, vowels: string, n: nat): nat
    requires n <= |w|
  {
    if n == 0 then 0 else Horner(w, vowels, n - 1) * PRIME + CharValue(w, vowels, n - 1)
  }

  function Pow(b: nat, e: nat): nat {
    if e == 0 then 1 else b * Pow(b, e - 1)
  }

  /** The polynomial sum over the positions `lo ..` of `w`: each weighted code times
      31 raised to the number of characters after it. */
  function PowerSum(w: string, vowels: string, lo: nat): nat
    requires lo <= |w|
    decreases |w| - lo
  {
    if lo == |w| then 0
    else CharValue(w, vowels, lo) * Pow(PRIME, |w| - 1 - lo) + PowerSum(w, vowels, lo + 1)
  }

  /** The whole polynomial sum of the weighted codes of `w`. */
  function WeightedSum(w: string, vowels: string): nat {
    PowerSum(w, vowels, 0)
  }

  /** Reference definition of the bucket of `w`: its polynomial sum reduced once. */
  function Bucket(w: string, vowels: string): (h: nat)
    ensures h < BUCKETS
  {
    WeightedSum(w, vowels) % BUCKETS
  }

  /** Reducing the accumulator before a Horner step does not change the reduced result. */
  lemma ModStep(a: int, c: int)
    ensures ((a % BUCKETS) * PRIME + c) % BUCKETS == (a * PRIME + c) % BUCKETS
  {
    var q := a / BUCKETS;
    var r := a % BUCKETS;
    assert a == q * BUCKETS + r;
    assert a * PRIME + c == (r * PRIME + c) + (q * PRIME) * BUCKETS;
    ModMultiple(r * PRIME + c, q * PRIME);
  }

  lemma ModMultiple(x: int, k: int)
    ensures (x + k * BUCKETS) % BUCKETS == x % BUCKETS
  {
  }

  /** The Horner accumulation of a prefix, shifted by the rest, plus the polynomial
      sum of the rest, is the polynomial sum of the whole word. */
  lemma {:induction false} HornerSplit(w: string, vowels: string, n: nat)
    requires n <= |w|
    ensures Horner(w, vowels, n) * Pow(PRIME, |w| - n) + PowerSum(w, vowels, n) == WeightedSum(w, vowels)
  {
    if n > 0 {
      HornerSplit(w, vowels, n - 1);
      var e := |w| - n;
      assert Pow(PRIME, e + 1) == PRIME * Pow(PRIME, e);
      Distribute(Horner(w, vowels, n - 1), CharValue(w, vowels, n - 1), Pow(PRIME, e));
    }
  }

  /** One Horner step, multiplied out. */
  lemma Distribute(h: nat, c: nat, p: nat)
    ensures (h * PRIME + c) * p == h * (PRIME * p) + c * p
  {
  }

  /** The Horner accumulation over the whole word equals its polynomial sum
      (a weighted code at position i carries the factor 31^(n-1-i)). */
  lemma HornerIsWeightedSum(w: string, vowels: string)
    ensures Horner(w, vowels, |w|) == WeightedSum(w, vowels)
  {
    HornerSplit(w, vowels, |w|);
  }

  /** A word with no lower-case vowel gets the same weighted code under both vowel sets. */
  lemma CharValueAgrees(w: string, i: nat)
    requires i < |w| && w[i] !in "aeiou"
    ensures CharValue(w, JAVA_VOWELS, i) == CharValue(w, PY_VOWELS, i)
  {
    assert w[i] in PY_VOWELS <==> w[i] in JAVA_VOWELS;
  }

  lemma {:induction false} PowerSumAgrees(w: string, lo: nat)
    requires lo <= |w|
    requires forall k :: 0 <= k < |w| ==> w[k] !in "aeiou"
    ensures PowerSum(w, JAVA_VOWELS, lo) == PowerSum(w, PY_VOWELS, lo)
    decreases |w| - lo
  {
    if lo < |w| {
      CharValueAgrees(w, lo);
      PowerSumAgrees(w, lo + 1);
    }
  }

  /** The Java and the Python hash agree on every word without a lower-case vowel. */
  lemma BucketsAgree(w: string)
    requires forall k :: 0 <= k < |w| ==> w[k] !in "aeiou"
    ensures Bucket(w, JAVA_VOWELS) == Bucket(w, PY_VOWELS)
  {
    PowerSumAgrees(w, 0);
  }

  /** In particular they agree on every normalised word. */
  lemma NormalizedBucketsAgree(w: string)
    ensures Bucket(Normalized(w), JAVA_VOWELS) == Bucket(Normalized(w), PY_VOWELS)
  {
    var n := Normalized(w);
    NormalizedIsNormal(w);
    forall k | 0 <= k < |n| ensures n[k] !in "aeiou" {
      assert !IsLowerAscii(n[k]);
    }
    BucketsAgree(n);
  }
}
