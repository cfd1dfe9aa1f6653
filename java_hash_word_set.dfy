/** The Java version of the word hash set (src/HashWordSet.java): a fixed array of
    53 chains, a size counter, and the methods normalize, hash, contains, add and the
    metric computation of toString. A chain is modelled as the sequence of its
    nodes' words from head to tail. */
module JavaHashWordSet {
  import opened Text
  import opened WordHash
  import opened Chains
  import opened Distribution

  class HashWordSet {
    /** One chain per bucket, head first. */
    var elementData: array<seq<string>>
    /** The number of nodes over all chains. */
    var size: int
    /** The words the set holds. */
    ghost var Contents: set<string>

    /** The representation invariant: each word is in the chain its hash selects and is
        normalised, no chain holds a duplicate, and `size` counts the nodes and the words. */
    ghost predicate Valid()
      reads this, elementData
    {
      && elementData.Length == BUCKETS
      && WellFormed(elementData[..], JAVA_VOWELS)
      && size == TotalLength(elementData[..])
      && Contents == Words(elementData[..])
      && size == |Contents|
    }

    /** Trims special characters off both ends of `word` and upper-cases the rest.
        An empty or all-special word gives the empty string. */
    static method Normalize(word: string) returns (r: string)
      ensures r == Normalized(word)
      ensures IsNormal(r)
    {
      var i := 0;
      while i < |word| && IsSpecial(word[i])
        invariant 0 <= i <= |word|
        invariant TrimLeft(word[i..]) == TrimLeft(word)
      {
        TrimLeftSkip(word, i);
        i := i + 1;
      }
      var j := |word| - 1;
      assert word[i..j + 1] == word[i..];
      while j > i && IsSpecial(word[j])
        invariant i - 1 <= j < |word|
        invariant TrimRight(word[i..j + 1]) == TrimRight(word[i..])
      {
        TrimRightSkip(word, i, j);
        j := j - 1;
      }
      ScansMeet(word, i, j);
      r := Upper(word[i..j + 1]);
    }

    /** The bucket of `word`: a Horner accumulation with prime 31, reduced modulo 53
        after every character, where upper-case vowels count twice and the second and
        third characters from the end four times. */
    method Hash(word: string) returns (h: int)
      ensures 0 <= h < BUCKETS
      ensures h == Bucket(word, JAVA_VOWELS)
    {
      var hash := 0;
      for i := 0 to |word|
        invariant hash == Horner(word, JAVA_VOWELS, i) % BUCKETS
      {
        var charValue := word[i] as int;
        if word[i] in JAVA_VOWELS {
          charValue := charValue * 2;
        }
        if i == |word| - 2 || i == |word| - 3 {
          charValue := charValue * 4;
        }
        ModStep(Horner(word, JAVA_VOWELS, i), charValue);
        hash := (hash * PRIME + charValue) % BUCKETS;
      }
      HornerIsWeightedSum(word, JAVA_VOWELS);
      h := hash;
    }

    /** Walks the chain of `word`'s bucket looking for an exact match. */
    method Contains(word: string) returns (found: bool)
      requires Valid()
      ensures found == Member(elementData[..], JAVA_VOWELS, word)
      ensures found == (word in Contents)
    {
      MemberIffStored(elementData[..], JAVA_VOWELS, word);
      var h := Hash(word);
      ghost var chain := elementData[h];
      var current := elementData[h];
      while current != []
        invariant |current| <= |chain| && current == chain[|chain| - |current|..]
        invariant word !in chain[..|chain| - |current|]
      {
        if current[0] == word {
          return true;
        }
        assert chain[..|chain| - |current| + 1] == chain[..|chain| - |current|] + [current[0]];
        current := current[1..];
      }
      assert chain[..|chain|] == chain;
      found := false;
    }

    /** A set with 53 empty chains. */
    constructor ()
      ensures Valid() && fresh(elementData)
      ensures elementData[..] == Empty() && size == 0 && Contents == {}
    {
      elementData := new seq<string>[BUCKETS](_ => []);
      size := 0;
      Contents := {};
      new;
      assert elementData[..] == Empty();
      EmptyProperties(JAVA_VOWELS);
    }

    /** Adds the normalised form of `word` at the head of its chain unless it is already
        present, counting it in `size`. */
    method Add(word: string)
      requires Valid()
      modifies this`size, this`Contents, elementData
      ensures Valid()
      ensures elementData[..] == AddSpec(old(elementData[..]), JAVA_VOWELS, word)
      ensures Contents == old(Contents) + {Normalized(word)}
      ensures size == old(size) + (if Normalized(word) in old(Contents) then 0 else 1)
    {
      ghost var t := elementData[..];
      var normWord := Normalize(word);
      var present := Contains(normWord);
      if !present {
        var h := Hash(normWord);
        elementData[h] := [normWord] + elementData[h];
        size := size + 1;
        Contents := Contents + {normWord};
      }
      assert elementData[..] == AddSpec(t, JAVA_VOWELS, word);
      AddPreservesWellFormed(t, JAVA_VOWELS, word);
      AddCounts(t, JAVA_VOWELS, word);
    }

    /** The values toString reports: the size, the shortest and longest chain, the
        truncated average chain length and the sum of squared deviations from it. */
    method DistributionMetrics() returns (m: Metrics)
      requires Valid()
      ensures m == MetricsOf(elementData[..], size)
      ensures m.size == TotalLength(elementData[..])
      ensures m.minLength <= m.avgLength <= m.maxLength && m.EfficiencyFactor() >= 0.0
    {
      m := Measure(elementData, size);
      MetricsBounds(elementData[..]);
    }

    /** The loop of toString: walks every chain counting its nodes, folds the count into
        the running minimum and maximum (started at the sentinels Integer.MAX_VALUE and
        Integer.MIN_VALUE) and adds its squared deviation from the truncated average. */
    static method Measure(elementData: array<seq<string>>, size: int) returns (m: Metrics)
      requires elementData.Length == BUCKETS
      ensures m == MetricsOf(elementData[..], size)
    {
      ghost var t := elementData[..];
      var minLength := PosInf;
      var avgLength := size / BUCKETS;
      var maxLength := NegInf;
      var efficiencyFactor := 0;
      for b := 0 to elementData.Length
        invariant RunningMetrics(t, b, avgLength, minLength, maxLength, efficiencyFactor)
      {
        var n := elementData[b];
        var len := 0;
        while n != []
          invariant len + |n| == |t[b]|
        {
          len := len + 1;
          n := n[1..];
        }
        RunningStep(t, b, avgLength, minLength, maxLength, efficiencyFactor);
        minLength := MinWith(minLength, len);
        maxLength := MaxWith(maxLength, len);
        efficiencyFactor := efficiencyFactor + Square(len - avgLength);
      }
      RunningDone(t, size, minLength, maxLength, efficiencyFactor);
      m := Metrics(size, minLength.n, avgLength, maxLength.n, efficiencyFactor);
    }
  }

  /** What the JUnit tests do before inspecting `elementData`: a fresh set receives
      every token in order. The resulting chains are those of `Build`. */
  method BuildSet(words: seq<string>) returns (hashSet: HashWordSet)
    ensures fresh(hashSet) && hashSet.Valid()
    ensures hashSet.elementData[..] == Build(words, JAVA_VOWELS)
  {
    hashSet := new HashWordSet();
    for i := 0 to |words|
      invariant hashSet.Valid() && fresh(hashSet) && fresh(hashSet.elementData)
      invariant hashSet.elementData[..] == Build(words[..i], JAVA_VOWELS)
    {
      BuildSnoc(words, i, JAVA_VOWELS);
      hashSet.Add(words[i]);
    }
    assert words[..|words|] == words;
  }

  /** testReflectionAccess of src/HashWordSetTest.java: adding "testWord" to a fresh
      set (the chains `BuildSet(["testWord"])` returns) stores "TESTWORD". */
  lemma TestReflectionAccess()
    ensures "TESTWORD" in Words(Build(["testWord"], JAVA_VOWELS))
  {
    TestWordNormalized();
    BuildStoresEach(["testWord"], JAVA_VOWELS, 0);
  }

  lemma TestWordNormalized()
    ensures Normalized("testWord") == "TESTWORD"
  {
    TrimFixed("testWord");
  }

  /** The four tokens of testIterationAndCounting normalise to pairwise distinct words:
      "EXAMPLE" and "TESTING" differ in their first letter, all other pairs in length. */
  lemma CountingWordsDistinct(a: string, b: string, c: string, d: string)
    requires a == "example" && b == "testing" && c == "hash" && d == "function"
    ensures Normalized(a) != Normalized(b) && Normalized(a) != Normalized(c) && Normalized(a) != Normalized(d)
    ensures Normalized(b) != Normalized(c) && Normalized(b) != Normalized(d) && Normalized(c) != Normalized(d)
  {
    LetterEndsShape(a);
    LetterEndsShape(b);
    LetterEndsShape(c);
    LetterEndsShape(d);
    assert UpperChar('e') != UpperChar('t');
  }

  /** Four tokens with pairwise distinct normalised forms give four nodes. */
  lemma FourDistinctCount(a: string, b: string, c: string, d: string)
    requires Normalized(a) != Normalized(b) && Normalized(a) != Normalized(c) && Normalized(a) != Normalized(d)
    requires Normalized(b) != Normalized(c) && Normalized(b) != Normalized(d) && Normalized(c) != Normalized(d)
    ensures TotalLength(Build([a, b, c, d], JAVA_VOWELS)) == 4
  {
    BuildDistinctCount([a, b, c, d], JAVA_VOWELS);
  }

  /** testIterationAndCounting of src/HashWordSetTest.java: adding "example", "testing",
      "hash" and "function" to a fresh set (the chains `BuildSet` returns for them) gives
      four nodes over all chains. */
  lemma TestIterationAndCounting(a: string, b: string, c: string, d: string)
    requires a == "example" && b == "testing" && c == "hash" && d == "function"
    ensures TotalLength(Build([a, b, c, d], JAVA_VOWELS)) == 4
  {
    CountingWordsDistinct(a, b, c, d);
    FourDistinctCount(a, b, c, d);
  }
}
