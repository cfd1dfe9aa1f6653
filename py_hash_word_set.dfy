/** The Python version of the word hash set (optimizeHash/src/hash_word_set.py). It
    has the same chains, size counter and operations as the Java version; it also
    stores four weights given to its constructor, which its hash never reads, and
    its hash doubles vowels of either case. */
module PyHashWordSet {
  import opened Text
  import opened WordHash
  import opened Chains
  import opened Distribution

  class HashWordSet {
    /** One chain per bucket, head first. */
    var elementData: array<seq<string>>
    /** The number of nodes over all chains. */
    var size: int
    /** The weights given when the set is built; the following methods do not read them. */
    var vowelMultiplier: real
    var endingsMultiplier: real
    var consonantMultiplier: real
    var frequencyMultiplier: real
    /** The words the set holds. */
    ghost var Contents: set<string>

    /** The four weights, in constructor order. */
    function Weights(): (real, real, real, real)
      reads this
    {
      (vowelMultiplier, endingsMultiplier, consonantMultiplier, frequencyMultiplier)
    }

    /** The representation invariant: each word is in the chain its hash selects and is
        normalised, no chain holds a duplicate, and `size` counts the nodes and the words. */
    ghost predicate Valid()
      reads this, elementData
    {
      && elementData.Length == BUCKETS
      && WellFormed(elementData[..], PY_VOWELS)
      && size == TotalLength(elementData[..])
      && Contents == Words(elementData[..])
      && size == |Contents|
    }

    /** A set with 53 empty chains that records the four weights. */
    constructor (vowelMultiplier: real := 2.0, endingsMultiplier: real := 4.0,
                 consonantMultiplier: real := 2.0, frequencyMultiplier: real := 2.0)
      ensures Valid() && fresh(elementData)
      ensures elementData[..] == Empty() && size == 0 && Contents == {}
      ensures Weights() == (vowelMultiplier, endingsMultiplier, consonantMultiplier, frequencyMultiplier)
    {
      elementData := new seq<string>[BUCKETS](_ => []);
      size := 0;
      this.vowelMultiplier := vowelMultiplier;
      this.endingsMultiplier := endingsMultiplier;
      this.consonantMultiplier := consonantMultiplier;
      this.frequencyMultiplier := frequencyMultiplier;
      Contents := {};
      new;
      assert elementData[..] == Empty();
      EmptyProperties(PY_VOWELS);
    }

    /** Trims special characters off both ends of `word` and upper-cases the rest.
        An empty or all-special word gives the empty string. */
    method Normalize(word: string) returns (r: string)
      ensures r == Normalized(word)
      ensures IsNormal(r)
    {
      var i := 0;
      while i < |word| && IsSpecial(word[i])
        invariant 0 <= i <= |word|
        invariant TrimLeft(word[i..]) == TrimLeft(word)
      {
        TrimLeftSkip(word, i);
        i := i + 1;
      }
      var j := |word| - 1;
      assert word[i..j + 1] == word[i..];
      while j > i && IsSpecial(word[j])
        invariant i - 1 <= j < |word|
        invariant TrimRight(word[i..j + 1]) == TrimRight(word[i..])
      {
        TrimRightSkip(word, i, j);
        j := j - 1;
      }
      ScansMeet(word, i, j);
      r := Upper(word[i..j + 1]);
    }

    /** Walks the chain of `word`'s bucket looking for an equal word. */
    method Contains(word: string) returns (found: bool)
      requires Valid()
      ensures found == Member(elementData[..], PY_VOWELS, word)
      ensures found == (word in Contents)
    {
      MemberIffStored(elementData[..], PY_VOWELS, word);
      var h := Hash(word);
      ghost var chain := elementData[h];
      var current := elementData[h];
      while current != []
        invariant |current| <= |chain| && current == chain[|chain| - |current|..]
        invariant word !in chain[..|chain| - |current|]
      {
        if current[0] == word {
          return true;
        }
        assert chain[..|chain| - |current| + 1] == chain[..|chain| - |current|] + [current[0]];
        current := current[1..];
      }
      assert chain[..|chain|] == chain;
      found := false;
    }

    /** Adds the normalised form of `word` at the head of its chain unless it is already
        present, counting it in `size`. */
    method Add(word: string)
      requires Valid()
      modifies this`size, this`Contents, elementData
      ensures Valid()
      ensures elementData[..] == AddSpec(old(elementData[..]), PY_VOWELS, word)
      ensures Contents == old(Contents) + {Normalized(word)}
      ensures size == old(size) + (if Normalized(word) in old(Contents) then 0 else 1)
    {
      ghost var t := elementData[..];
      var normWord := Normalize(word);
      var present := Contains(normWord);
      if !present {
        var h := Hash(normWord);
        elementData[h] := [normWord] + elementData[h];
        size := size + 1;
        Contents := Contents + {normWord};
      }
      assert elementData[..] == AddSpec(t, PY_VOWELS, word);
      AddPreservesWellFormed(t, PY_VOWELS, word);
      AddCounts(t, PY_VOWELS, word);
    }

    /** The bucket of `word`: a Horner accumulation with prime 31, reduced modulo 53
        after every character, where vowels of either case count twice and the second
        and third characters from the end four times. The constants 2 and 4 are fixed;
        the weight fields play no part. */
    method Hash(word: string) returns (h: int)
      ensures 0 <= h < BUCKETS
      ensures h == Bucket(word, PY_VOWELS)
    {
      var hash := 0;
      for i := 0 to |word|
        invariant hash == Horner(word, PY_VOWELS, i) % BUCKETS
      {
        var charValue := word[i] as int;
        if word[i] in PY_VOWELS {
          charValue := charValue * 2;
        }
        if i == |word| - 2 || i == |word| - 3 {
          charValue := charValue * 4;
        }
        ModStep(Horner(word, PY_VOWELS, i), charValue);
        hash := (hash * PRIME + charValue) % BUCKETS;
      }
      HornerIsWeightedSum(word, PY_VOWELS);
      h := hash;
    }

    /** The values efficiency_factor returns: the size, the shortest and longest chain,
        the truncated average chain length and the sum of squared deviations from it. */
    method EfficiencyFactor() returns (m: Metrics)
      requires Valid()
      ensures m == MetricsOf(elementData[..], size)
      ensures m.size == TotalLength(elementData[..])
      ensures m.minLength <= m.avgLength <= m.maxLength && m.EfficiencyFactor() >= 0.0
    {
      m := Measure(elementData, size);
      MetricsBounds(elementData[..]);
    }

    /** The loop of efficiency_factor: walks every chain counting its nodes, folds the
        count into the running minimum and maximum (started at +inf and -inf) and adds
        its squared deviation from the truncated average. */
    static method Measure(elementData: array<seq<string>>, size: int) returns (m: Metrics)
      requires elementData.Length == BUCKETS
      ensures m == MetricsOf(elementData[..], size)
    {
      ghost var t := elementData[..];
      var minLength := PosInf;
      var avgLength := size / BUCKETS;
      var maxLength := NegInf;
      var efficiencyFactor := 0;
      for b := 0 to elementData.Length
        invariant RunningMetrics(t, b, avgLength, minLength, maxLength, efficiencyFactor)
      {
        var n := elementData[b];
        var length := 0;
        while n != []
          invariant length + |n| == |t[b]|
        {
          length := length + 1;
          n := n[1..];
        }
        RunningStep(t, b, avgLength, minLength, maxLength, efficiencyFactor);
        minLength := MinWith(minLength, length);
        maxLength := MaxWith(maxLength, length);
        efficiencyFactor := efficiencyFactor + Square(length - avgLength);
      }
      RunningDone(t, size, minLength, maxLength, efficiencyFactor);
      m := Metrics(size, minLength.n, avgLength, maxLength.n, efficiencyFactor);
    }
  }

  /** The token loop of `evaluate` (optimizeHash/src/genetic_algorithm.py), without the
      file reading: a fresh set built with the given weights receives every token in
      order. With the default weights it is also the loop of read_book_and_calculate_hash.
      The resulting chains are those of `Build`, which does not depend on the weights, so
      sets built with different multipliers place every word in the same bucket. */
  method BuildSet(words: seq<string>, vowelMultiplier: real, endingsMultiplier: real,
                  consonantMultiplier: real, frequencyMultiplier: real) returns (hashSet: HashWordSet)
    ensures fresh(hashSet) && hashSet.Valid()
    ensures hashSet.elementData[..] == Build(words, PY_VOWELS)
    ensures hashSet.Weights() == (vowelMultiplier, endingsMultiplier, consonantMultiplier, frequencyMultiplier)
  {
    hashSet := new HashWordSet(vowelMultiplier, endingsMultiplier, consonantMultiplier, frequencyMultiplier);
    for i := 0 to |words|
      invariant hashSet.Valid() && fresh(hashSet) && fresh(hashSet.elementData)
      invariant hashSet.elementData[..] == Build(words[..i], PY_VOWELS)
      invariant hashSet.Weights() == (vowelMultiplier, endingsMultiplier, consonantMultiplier, frequencyMultiplier)
    {
      BuildSnoc(words, i, PY_VOWELS);
      hashSet.Add(words[i]);
    }
    assert words[..|words|] == words;
  }
}
