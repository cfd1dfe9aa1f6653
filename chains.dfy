/** The abstract state of a word hash set: one chain per bucket, each chain the
    sequence of its words from head to tail. Both versions share this model;
    `vowels` selects the version's hash. */
module Chains {
  import opened Text
  import opened WordHash

  type Table = seq<seq<string>>

  /** The table of a freshly constructed set: every chain empty. */
  function Empty(): (t: Table)
    ensures |t| == BUCKETS && forall b :: 0 <= b < |t| ==> t[b] == []
  {
    seq(BUCKETS, _ => [])
  }

  /** The total number of nodes over all chains. */
  function TotalLength(t: Table): nat {
    if t == [] then 0 else TotalLength(t[..|t| - 1]) + |t[|t| - 1]|
  }

  /** Every word stored in some chain. */
  function Words(t: Table): set<string> {
    set b, k | 0 <= b < |t| && 0 <= k < |t[b]| :: t[b][k]
  }

  /** The representation invariant: 53 chains, every word in the chain its hash
      selects, every word normalised, and no chain holding a word twice. */
  ghost predicate WellFormed(t: Table, vowels: string) {
    && |t| == BUCKETS
    && (forall b, k :: 0 <= b < |t| && 0 <= k < |t[b]| ==> Bucket(t[b][k], vowels) == b)
    && (forall b, k :: 0 <= b < |t| && 0 <= k < |t[b]| ==> IsNormal(t[b][k]))
    && (forall b, k, l :: 0 <= b < |t| && 0 <= k < l < |t[b]| ==> t[b][k] != t[b][l])
  }

  /** Membership as `contains` decides it: the word occurs in the chain of its own bucket. */
  predicate Member(t: Table, vowels: string, w: string)
    requires |t| == BUCKETS
  {
    w in t[Bucket(w, vowels)]
  }

  /** The table after `add(raw)`: the normalised word is prepended to its chain
      unless that chain already holds it. */
  function AddSpec(t: Table, vowels: string, raw: string): Table
    requires |t| == BUCKETS
  {
    var n := Normalized(raw);
    var h := Bucket(n, vowels);
    if n in t[h] then t else t[h := [n] + t[h]]
  }

  /** The table after adding `words` one by one to a fresh set. */
  function Build(words: seq<string>, vowels: string): (t: Table)
    ensures |t| == BUCKETS
  {
    if words == [] then Empty()
    else AddSpec(Build(words[..|words| - 1], vowels), vowels, words[|words| - 1])
  }

  /** Building from one more token is one more `add`. */
  lemma BuildSnoc(words: seq<string>, i: nat, vowels: string)
    requires i < |words|
    ensures Build(words[..i + 1], vowels) == AddSpec(Build(words[..i], vowels), vowels, words[i])
  {
    assert words[..i + 1][..i] == words[..i];
  }

  lemma EmptyProperties(vowels: string)
    ensures WellFormed(Empty(), vowels)
    ensures TotalLength(Empty()) == 0 && Words(Empty()) == {}
  {
    EmptyLength(Empty());
  }

  lemma {:induction false} EmptyLength(t: Table)
    requires forall b :: 0 <= b < |t| ==> t[b] == []
    ensures TotalLength(t) == 0
  {
    if t != [] {
      EmptyLength(t[..|t| - 1]);
    }
  }

  /** Replacing one chain changes the node count by the difference of the lengths. */
  lemma {:induction false} TotalLengthUpdate(t: Table, b: nat, s: seq<string>)
    requires b < |t|
    ensures TotalLength(t[b := s]) == TotalLength(t) - |t[b]| + |s|
  {
    var u := t[b := s];
    if b == |t| - 1 {
      assert u[..|u| - 1] == t[..|t| - 1];
    } else {
      TotalLengthUpdate(t[..|t| - 1], b, s);
      assert u[..|u| - 1] == t[..|t| - 1][b := s];
    }
  }

  /** Prepending a word to chain `b` adds exactly that word to the stored words. */
  lemma WordsPrepend(t: Table, b: nat, n: string)
    requires b < |t|
    ensures Words(t[b := [n] + t[b]]) == Words(t) + {n}
  {
    var u := t[b := [n] + t[b]];
    forall x | x in Words(u) ensures x in Words(t) + {n} {
      var c, k :| 0 <= c < |u| && 0 <= k < |u[c]| && u[c][k] == x;
      if c == b && k > 0 {
        assert t[b][k - 1] == x;
      }
    }
    forall x | x in Words(t) + {n} ensures x in Words(u) {
      if x == n {
        assert u[b][0] == n;
      } else {
        var c, k :| 0 <= c < |t| && 0 <= k < |t[c]| && t[c][k] == x;
        if c == b {
          assert u[b][k + 1] == x;
        } else {
          assert u[c][k] == x;
        }
      }
    }
  }

  /** In a well-formed table, `Member` decides membership in the stored words. */
  lemma MemberIffStored(t: Table, vowels: string, w: string)
    requires WellFormed(t, vowels)
    ensures Member(t, vowels, w) <==> w in Words(t)
  {
    if w in Words(t) {
      var b, k :| 0 <= b < |t| && 0 <= k < |t[b]| && t[b][k] == w;
      assert Bucket(w, vowels) == b;
    }
    if Member(t, vowels, w) {
      var h := Bucket(w, vowels);
      var k :| 0 <= k < |t[h]| && t[h][k] == w;
    }
  }

  /** `add` keeps the representation invariant. */
  lemma AddPreservesWellFormed(t: Table, vowels: string, raw: string)
    requires WellFormed(t, vowels)
    ensures WellFormed(AddSpec(t, vowels, raw), vowels)
  {
    NormalizedIsNormal(raw);
  }

  /** After `add(raw)` the normalised word is a member. */
  lemma AddThenMember(t: Table, vowels: string, raw: string)
    requires |t| == BUCKETS
    ensures Member(AddSpec(t, vowels, raw), vowels, Normalized(raw))
  {
  }

  /** An empty or all-special token is stored as the empty word. */
  lemma AllSpecialStoresEmpty(t: Table, vowels: string, raw: string)
    requires |t| == BUCKETS && AllSpecial(raw)
    ensures Member(AddSpec(t, vowels, raw), vowels, "")
  {
    NormalizedEmpty(raw);
    AddThenMember(t, vowels, raw);
  }

  /** A second `add` of the same raw word changes nothing. */
  lemma AddIdempotent(t: Table, vowels: string, raw: string)
    requires |t| == BUCKETS
    ensures AddSpec(AddSpec(t, vowels, raw), vowels, raw) == AddSpec(t, vowels, raw)
  {
  }

  /** `add` changes only the chain of the normalised word's bucket, and that one only
      by putting the word at its head when it was absent. */
  lemma AddFrame(t: Table, vowels: string, raw: string)
    requires |t| == BUCKETS
    ensures var n := Normalized(raw); var h := Bucket(n, vowels); var u := AddSpec(t, vowels, raw);
      && |u| == BUCKETS
      && (forall b :: 0 <= b < BUCKETS && b != h ==> u[b] == t[b])
      && u[h] == if Member(t, vowels, n) then t[h] else [n] + t[h]
  {
  }

  /** `add` grows the node count by one exactly when the normalised word was absent,
      and adds exactly that word to the stored words. */
  lemma AddCounts(t: Table, vowels: string, raw: string)
    requires |t| == BUCKETS
    ensures var n := Normalized(raw);
      && TotalLength(AddSpec(t, vowels, raw)) == TotalLength(t) + (if Member(t, vowels, n) then 0 else 1)
      && Words(AddSpec(t, vowels, raw)) == Words(t) + {n}
  {
    var n := Normalized(raw);
    var h := Bucket(n, vowels);
    if n !in t[h] {
      TotalLengthUpdate(t, h, [n] + t[h]);
      WordsPrepend(t, h, n);
    } else {
      var k :| 0 <= k < |t[h]| && t[h][k] == n;
      assert n in Words(t);
    }
  }

  /** Adding any sequence of tokens to a fresh set yields a well-formed table. */
  lemma {:induction false} BuildWellFormed(words: seq<string>, vowels: string)
    ensures WellFormed(Build(words, vowels), vowels)
  {
    if words == [] {
      EmptyProperties(vowels);
    } else {
      BuildWellFormed(words[..|words| - 1], vowels);
      AddPreservesWellFormed(Build(words[..|words| - 1], vowels), vowels, words[|words| - 1]);
    }
  }

  /** The normalised forms of `words`. */
  function NormalizedSet(words: seq<string>): set<string> {
    if words == [] then {} else NormalizedSet(words[..|words| - 1]) + {Normalized(words[|words| - 1])}
  }

  /** The words stored after adding `words` to a fresh set are exactly the normalised tokens. */
  lemma {:induction false} BuildWords(words: seq<string>, vowels: string)
    ensures Words(Build(words, vowels)) == NormalizedSet(words)
  {
    if words == [] {
      EmptyProperties(vowels);
    } else {
      var init := words[..|words| - 1];
      BuildWords(init, vowels);
      AddCounts(Build(init, vowels), vowels, words[|words| - 1]);
    }
  }

  /** After adding `words` to a fresh set there is one node per distinct stored word. */
  lemma {:induction false} BuildCount(words: seq<string>, vowels: string)
    ensures TotalLength(Build(words, vowels)) == |Words(Build(words, vowels))|
  {
    if words == [] {
      EmptyProperties(vowels);
    } else {
      var init := words[..|words| - 1];
      var raw := words[|words| - 1];
      var t0 := Build(init, vowels);
      BuildCount(init, vowels);
      BuildWellFormed(init, vowels);
      AddCounts(t0, vowels, raw);
      MemberIffStored(t0, vowels, Normalized(raw));
    }
  }

  /** Every token added to a fresh set ends up stored in normalised form. */
  lemma {:induction false} BuildStoresEach(words: seq<string>, vowels: string, i: nat)
    requires i < |words|
    ensures Normalized(words[i]) in Words(Build(words, vowels))
  {
    BuildWords(words, vowels);
    NormalizedSetHas(words, i);
  }

  lemma {:induction false} NormalizedSetHas(words: seq<string>, i: nat)
    requires i < |words|
    ensures Normalized(words[i]) in NormalizedSet(words)
  {
    if i < |words| - 1 {
      NormalizedSetHas(words[..|words| - 1], i);
    }
  }

  /** The node count after adding `words` to a fresh set is the number of distinct
      normalised tokens. */
  lemma BuildSize(words: seq<string>, vowels: string)
    ensures TotalLength(Build(words, vowels)) == |NormalizedSet(words)|
  {
    BuildCount(words, vowels);
    BuildWords(words, vowels);
  }

  /** Tokens whose normalised forms are pairwise distinct give as many normalised words. */
  lemma {:induction false} NormalizedSetDistinct(words: seq<string>)
    requires forall i, j :: 0 <= i < j < |words| ==> Normalized(words[i]) != Normalized(words[j])
    ensures |NormalizedSet(words)| == |words|
  {
    if words != [] {
      var init := words[..|words| - 1];
      NormalizedSetDistinct(init);
      var last := Normalized(words[|words| - 1]);
      if last in NormalizedSet(init) {
        var i := NormalizedSetWitness(init, last);
        assert false;
      }
    }
  }

  /** A member of the normalised set comes from some token. */
  lemma {:induction false} NormalizedSetWitness(words: seq<string>, n: string) returns (i: nat)
    requires n in NormalizedSet(words)
    ensures i < |words| && Normalized(words[i]) == n
  {
    var init := words[..|words| - 1];
    if n == Normalized(words[|words| - 1]) {
      i := |words| - 1;
    } else {
      i := NormalizedSetWitness(init, n);
    }
  }

  /** Adding tokens whose normalised forms are pairwise distinct to a fresh set gives
      one node per token. */
  lemma BuildDistinctCount(words: seq<string>, vowels: string)
    requires forall i, j :: 0 <= i < j < |words| ==> Normalized(words[i]) != Normalized(words[j])
    ensures TotalLength(Build(words, vowels)) == |words|
  {
    BuildSize(words, vowels);
    NormalizedSetDistinct(words);
  }
}
