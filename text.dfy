/** Character-level definitions shared by both versions of the word hash set:
    the special-character set, ASCII upper-casing and the reference definition
    of word normalisation. */
module Text {

  /** The characters `normalize` trims off both ends of a token: a space, ASCII
      punctuation and the characters of three UTF-8 sequences read as Windows-1252
      (curly quotes and the trade mark sign). Both versions keep them in one string
      and only test membership, so the model keeps them as a set. */
  const SPECIAL_CHARS: set<char> := {
    ' ', '~', '!', '@', '#', '$', '%', '^', '&', '*', '(', ')', '_', '+', '`', '-', '=', '{', '}', '[', ']', '|', '\\', ':', '\"', ';', '\'', '<', '>', '?', ',', '.', '/', '\U{00E2}', '\U{20AC}', '\U{0153}', '\U{FFFD}', '\U{201E}', '\U{00A2}'
  }

  predicate IsSpecial(c: char) {
    c in SPECIAL_CHARS
  }

  predicate IsLowerAscii(c: char) {
    'a' <= c <= 'z'
  }

  /** Upper-casing restricted to ASCII: a-z become A-Z, every other character is kept. */
  function UpperChar(c: char): char {
    if IsLowerAscii(c) then (c as int - 32) as char else c
  }

  function Upper(s: string): string {
    seq(|s|, i requires 0 <= i < |s| => UpperChar(s[i]))
  }

  /** Drops special characters from the front of `w`. */
  function TrimLeft(w: string): string {
    if w != [] && IsSpecial(w[0]) then TrimLeft(w[1..]) else w
  }

  /** Drops special characters from the back of `w`. */
  function TrimRight(w: string): string {
    if w != [] && IsSpecial(w[|w| - 1]) then TrimRight(w[..|w| - 1]) else w
  }

  /** Reference definition of the normalised form of a token: special characters
      trimmed from both ends, then upper-cased. */
  function Normalized(w: string): string {
    Upper(TrimRight(TrimLeft(w)))
  }

  predicate AllSpecial(w: string) {
    forall k :: 0 <= k < |w| ==> IsSpecial(w[k])
  }

  /** A string is normal when it is empty or starts and ends outside the special set
      and has no lower-case ASCII letter. */
  predicate IsNormal(w: string) {
    (w != [] ==> !IsSpecial(w[0]) && !IsSpecial(w[|w| - 1]))
    && forall k :: 0 <= k < |w| ==> !IsLowerAscii(w[k])
  }

  /** No ASCII letter is special. */
  lemma LettersNotSpecial(c: char)
    requires 'a' <= c <= 'z' || 'A' <= c <= 'Z'
    ensures !IsSpecial(c)
  {
  }

  lemma UpperCharProperties(c: char)
    ensures IsSpecial(UpperChar(c)) <==> IsSpecial(c)
    ensures !IsLowerAscii(UpperChar(c))
    ensures !IsLowerAscii(c) ==> UpperChar(c) == c
  {
    if IsLowerAscii(c) {
      var u := UpperChar(c);
      assert 'A' <= u <= 'Z';
      LettersNotSpecial(c);
      LettersNotSpecial(u);
    }
  }

  lemma {:induction false} TrimLeftShape(w: string)
    ensures TrimLeft(w) == [] <==> AllSpecial(w)
    ensures TrimLeft(w) != [] ==> !IsSpecial(TrimLeft(w)[0])
  {
    if w != [] && IsSpecial(w[0]) {
      TrimLeftShape(w[1..]);
      assert forall k :: 0 <= k < |w| - 1 ==> w[1..][k] == w[k + 1];
      assert AllSpecial(w) <==> AllSpecial(w[1..]);
    }
  }

  lemma {:induction false} TrimRightShape(w: string)
    ensures TrimRight(w) == [] <==> AllSpecial(w)
    ensures TrimRight(w) != [] ==> !IsSpecial(TrimRight(w)[|TrimRight(w)| - 1])
  {
    if w != [] && IsSpecial(w[|w| - 1]) {
      var v := w[..|w| - 1];
      TrimRightShape(v);
      assert AllSpecial(w) <==> AllSpecial(v);
    }
  }

  /** Trimming the back of a string that starts outside the special set keeps its head. */
  lemma {:induction false} TrimRightKeepsHead(w: string)
    requires w != [] && !IsSpecial(w[0])
    ensures TrimRight(w) != [] && TrimRight(w)[0] == w[0]
  {
    if IsSpecial(w[|w| - 1]) {
      TrimRightKeepsHead(w[..|w| - 1]);
    }
  }

  /** One step of the left scan: a special character at `i` is skipped. */
  lemma TrimLeftSkip(w: string, i: nat)
    requires i < |w| && IsSpecial(w[i])
    ensures TrimLeft(w[i..]) == TrimLeft(w[i + 1..])
  {
    assert w[i..][1..] == w[i + 1..];
  }

  /** The left scan stops at the end or at a non-special character. */
  lemma TrimLeftStop(w: string, i: nat)
    requires i <= |w| && (i < |w| ==> !IsSpecial(w[i]))
    ensures TrimLeft(w[i..]) == w[i..]
  {
  }

  /** One step of the right scan: a special character at `j` is dropped. */
  lemma TrimRightSkip(w: string, i: nat, j: nat)
    requires i < j < |w| && IsSpecial(w[j])
    ensures TrimRight(w[i..j + 1]) == TrimRight(w[i..j])
  {
    assert w[i..j + 1][..j - i] == w[i..j];
  }

  /** The right scan stops at a non-special character or where the left scan stopped. */
  lemma TrimRightStop(w: string, i: nat, j: int)
    requires i - 1 <= j < |w|
    requires j == i - 1 || !IsSpecial(w[j])
    ensures TrimRight(w[i..j + 1]) == w[i..j + 1]
  {
  }

  /** Where the two scans stop, the slice between them, upper-cased, is the normalised token. */
  lemma ScansMeet(w: string, i: nat, j: int)
    requires i <= |w| && TrimLeft(w[i..]) == TrimLeft(w) && (i < |w| ==> !IsSpecial(w[i]))
    requires i - 1 <= j < |w| && TrimRight(w[i..j + 1]) == TrimRight(w[i..])
    requires j <= i || !IsSpecial(w[j])
    ensures Upper(w[i..j + 1]) == Normalized(w) && IsNormal(Normalized(w))
  {
    TrimLeftStop(w, i);
    TrimRightStop(w, i, j);
    NormalizedIsNormal(w);
  }

  /** A string with no special character at either end is left as it is by both trims. */
  lemma TrimFixed(w: string)
    requires w != [] ==> !IsSpecial(w[0]) && !IsSpecial(w[|w| - 1])
    ensures TrimLeft(w) == w && TrimRight(w) == w
  {
  }

  /** A token that starts and ends with an ASCII letter is only upper-cased. */
  lemma LetterEndsNormalize(w: string)
    requires w != []
    requires 'a' <= w[0] <= 'z' || 'A' <= w[0] <= 'Z'
    requires 'a' <= w[|w| - 1] <= 'z' || 'A' <= w[|w| - 1] <= 'Z'
    ensures Normalized(w) == Upper(w)
  {
    LettersNotSpecial(w[0]);
    LettersNotSpecial(w[|w| - 1]);
    TrimFixed(w);
  }

  /** Such a token keeps its length, and its first letter is upper-cased. */
  lemma LetterEndsShape(w: string)
    requires w != []
    requires 'a' <= w[0] <= 'z' || 'A' <= w[0] <= 'Z'
    requires 'a' <= w[|w| - 1] <= 'z' || 'A' <= w[|w| - 1] <= 'Z'
    ensures |Normalized(w)| == |w| && Normalized(w)[0] == UpperChar(w[0])
  {
    LetterEndsNormalize(w);
  }

  /** The normalised form is the part of the token between its first and last
      non-special characters, upper-cased. */
  lemma NormalizedIsCore(w: string, i: nat, j: nat)
    requires i <= j < |w|
    requires AllSpecial(w[..i]) && !IsSpecial(w[i])
    requires AllSpecial(w[j + 1..]) && !IsSpecial(w[j])
    ensures Normalized(w) == Upper(w[i..j + 1])
  {
    TrimLeftFrom(w, i);
    TrimRightTo(w[i..], j + 1 - i);
    assert w[i..][..j + 1 - i] == w[i..j + 1];
  }

  lemma {:induction false} TrimLeftFrom(w: string, i: nat)
    requires i < |w| && AllSpecial(w[..i]) && !IsSpecial(w[i])
    ensures TrimLeft(w) == w[i..]
  {
    if i > 0 {
      assert IsSpecial(w[..i][0]);
      assert w[1..][..i - 1] == w[1..i];
      assert forall k :: 0 <= k < i - 1 ==> w[1..i][k] == w[..i][k + 1];
      TrimLeftFrom(w[1..], i - 1);
      assert w[1..][i - 1..] == w[i..];
    }
  }

  lemma {:induction false} TrimRightTo(w: string, j: nat)
    requires 0 < j <= |w| && AllSpecial(w[j..]) && !IsSpecial(w[j - 1])
    ensures TrimRight(w) == w[..j]
  {
    if j < |w| {
      var v := w[..|w| - 1];
      assert IsSpecial(w[j..][|w| - 1 - j]);
      assert forall k :: 0 <= k < |v| - j ==> v[j..][k] == w[j..][k];
      TrimRightTo(v, j);
      assert v[..j] == w[..j];
    } else {
      assert w[..|w|] == w;
    }
  }

  /** An empty or all-special token normalises to the empty string. */
  lemma NormalizedEmpty(w: string)
    ensures Normalized(w) == [] <==> AllSpecial(w)
  {
    TrimLeftShape(w);
    var t := TrimLeft(w);
    if t != [] {
      TrimRightKeepsHead(t);
    }
  }

  /** Upper-casing keeps the characters at both ends outside the special set. */
  lemma UpperKeepsEnds(u: string)
    requires u != [] ==> !IsSpecial(u[0]) && !IsSpecial(u[|u| - 1])
    ensures Upper(u) != [] ==> !IsSpecial(Upper(u)[0]) && !IsSpecial(Upper(u)[|u| - 1])
  {
    if u != [] {
      UpperCharProperties(u[0]);
      UpperCharProperties(u[|u| - 1]);
    }
  }

  /** Upper-casing leaves no lower-case ASCII letter. */
  lemma UpperHasNoLower(u: string)
    ensures forall k :: 0 <= k < |Upper(u)| ==> !IsLowerAscii(Upper(u)[k])
  {
    forall k | 0 <= k < |u| ensures !IsLowerAscii(Upper(u)[k]) {
      UpperCharProperties(u[k]);
    }
  }

  /** Every normalised word is normal. */
  lemma NormalizedIsNormal(w: string)
    ensures IsNormal(Normalized(w))
  {
    var t := TrimLeft(w);
    var u := TrimRight(t);
    TrimLeftShape(w);
    TrimRightShape(t);
    if u != [] {
      TrimRightKeepsHead(t);
    }
    UpperKeepsEnds(u);
    UpperHasNoLower(u);
  }

  /** A normal string is its own normalised form. */
  lemma NormalFixed(w: string)
    requires IsNormal(w)
    ensures Normalized(w) == w
  {
    TrimFixed(w);
    forall k | 0 <= k < |w| ensures Upper(w)[k] == w[k] {
      UpperCharProperties(w[k]);
    }
  }

  /** Normalising twice is normalising once. */
  lemma NormalizeIdempotent(w: string)
    ensures Normalized(Normalized(w)) == Normalized(w)
  {
    NormalizedIsNormal(w);
    NormalFixed(Normalized(w));
  }
}
