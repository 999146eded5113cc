/** Keyword lookup of zic.c: case-insensitive equality, abbreviations, and the table search. Strings have no NUL inside. */
module WordTable {
  import opened CString
  import opened ZicArith

  function LowerIt(c: char): (r: char)
    ensures r as int == if 65 <= c as int <= 90 then c as int + 32 else c as int
  {
    if 'A' <= c <= 'Z' then (c as int - 'A' as int + 'a' as int) as char else c
  }

  lemma LowerNul(c: char)
    ensures LowerIt(c) == LowerIt(NUL) <==> c == NUL
  {
  }

  predicate SameLetter(a: char, b: char) {
    LowerIt(a) == LowerIt(b)
  }

  predicate EqualIgnoringCase(a: string, b: string) {
    |a| == |b| && forall i :: 0 <= i < |a| ==> SameLetter(a[i], b[i])
  }

  lemma EmptyEqual()
    ensures EqualIgnoringCase("", "")
  {
  }

  method CiEqual(a: string, b: string) returns (equal: bool)
    requires NulFree(a) && NulFree(b)
    ensures equal <==> EqualIgnoringCase(a, b)
  {
    var i := 0;
    while LowerIt(At(a, i)) == LowerIt(At(b, i))
      invariant 0 <= i <= |a| && i <= |b|
      invariant forall k :: 0 <= k < i ==> SameLetter(a[k], b[k])
      decreases |a| - i
    {
      LowerNul(At(a, i));
      LowerNul(At(b, i));
      if At(a, i) == NUL {
        return true;
      }
      i := i + 1;
    }
    equal := false;
    if |a| == |b| {
      assert i < |a| ==> !SameLetter(a[i], b[i]);
    }
  }

  /** Where each letter of the abbreviation is found in the word: the first at the first, the others later and later. */
  predicate Embeds(ix: seq<nat>, abbr: string, word: string) {
    && |ix| == |abbr|
    && (forall k :: 0 <= k < |ix| ==> ix[k] < |word| && SameLetter(word[ix[k]], abbr[k]))
    && (forall k :: 0 < k < |ix| ==> ix[k - 1] < ix[k])
    && (|ix| > 0 ==> ix[0] == 0)
  }

  /** The first letters match and the abbreviation is a subsequence of the word, letter case aside. */
  ghost predicate IsAbbr(abbr: string, word: string) {
    |abbr| > 0 && exists ix :: Embeds(ix, abbr, word)
  }

  /** No embedding of the abbreviation is ahead of the greedy one. */
  ghost predicate Earliest(ix: seq<nat>, abbr: string, word: string) {
    forall jx, k :: Embeds(jx, abbr, word) && 0 <= k < |ix| && k < |jx| ==> ix[k] <= jx[k]
  }

  lemma FirstLetters(abbr: string, word: string)
    ensures IsAbbr(abbr, word) ==> |abbr| > 0 && |word| > 0 && SameLetter(word[0], abbr[0])
  {
  }

  /** itsabbr takes each letter at its first chance, and still misses no abbreviation. */
  method ItsAbbr(abbr: string, word: string) returns (matches: bool)
    requires NulFree(abbr) && NulFree(word)
    requires abbr != [] || word != []
    ensures matches <==> IsAbbr(abbr, word)
  {
    hide LowerIt;
    LowerNul(At(word, 0));
    LowerNul(At(abbr, 0));
    FirstLetters(abbr, word);
    if LowerIt(At(abbr, 0)) != LowerIt(At(word, 0)) {
      return false;
    }
    var w, a := 1, 1;
    ghost var ix: seq<nat> := [0];
    while At(abbr, a) != NUL
      invariant 1 <= a <= |abbr| && 1 <= w <= |word|
      invariant |ix| == a && ix[a - 1] == w - 1
      invariant Embeds(ix, abbr[..a], word) && Earliest(ix, abbr, word)
      decreases |abbr| - a
    {
      forall jx | Embeds(jx, abbr, word)
        ensures w <= jx[a] < |word| && SameLetter(word[jx[a]], abbr[a])
      {
        assert ix[a - 1] <= jx[a - 1] < jx[a];
      }
      var found, w' := FindLetter(abbr[a], word, w);
      if !found {
        return false;
      }
      w := w';
      ix := ix + [w - 1];
      a := a + 1;
    }
    assert abbr[..a] == abbr;
    matches := true;
  }

  /** The inner loop: moves past the next letter of the word that matches. */
  method FindLetter(letter: char, word: string, from: nat) returns (found: bool, w: nat)
    requires NulFree(word) && from <= |word|
    ensures !found ==> forall k :: from <= k < |word| ==> !SameLetter(word[k], letter)
    ensures found ==> from < w <= |word| && SameLetter(word[w - 1], letter)
    ensures found ==> forall k :: from <= k < w - 1 ==> !SameLetter(word[k], letter)
  {
    w := from;
    while true
      invariant from <= w <= |word|
      invariant forall k :: from <= k < w ==> !SameLetter(word[k], letter)
      decreases |word| - w
    {
      if At(word, w) == NUL {
        return false, w;
      }
      w := w + 1;
      if LowerIt(word[w - 1]) == LowerIt(letter) {
        return true, w;
      }
    }
  }

  /** byword: the first exact match; else the only abbreviated match; else nothing. */
  method ByWord(word: Option<string>, table: seq<string>) returns (r: Option<nat>)
    requires word.Some? ==> NulFree(word.value)
    requires forall i :: 0 <= i < |table| ==> NulFree(table[i])
    ensures word.None? ==> r == None
    ensures r.Some? ==> r.value < |table|
    ensures word.Some? && (exists i :: 0 <= i < |table| && EqualIgnoringCase(word.value, table[i])) ==>
      && r.Some? && EqualIgnoringCase(word.value, table[r.value])
      && forall i :: 0 <= i < r.value ==> !EqualIgnoringCase(word.value, table[i])
    ensures word.Some? && !(exists i :: 0 <= i < |table| && EqualIgnoringCase(word.value, table[i])) ==>
      forall k: nat :: r == Some(k) <==>
        k < |table| && IsAbbr(word.value, table[k]) && forall i :: 0 <= i < |table| && IsAbbr(word.value, table[i]) ==> i == k
  {
    hide IsAbbr, EqualIgnoringCase;
    if word.None? {
      return None;
    }
    var i := 0;
    while i < |table|
      invariant 0 <= i <= |table|
      invariant forall k :: 0 <= k < i ==> !EqualIgnoringCase(word.value, table[k])
    {
      var equal := CiEqual(word.value, table[i]);
      if equal {
        return Some(i);
      }
      i := i + 1;
    }
    r := None;
    i := 0;
    while i < |table|
      invariant 0 <= i <= |table|
      invariant r == None ==> forall k :: 0 <= k < i ==> !IsAbbr(word.value, table[k])
      invariant r.Some? ==> r.value < i && IsAbbr(word.value, table[r.value])
      invariant r.Some? ==> forall k :: 0 <= k < i && IsAbbr(word.value, table[k]) ==> k == r.value
    {
      EmptyEqual();
      var abbr := ItsAbbr(word.value, table[i]);
      if abbr {
        if r.None? {
          r := Some(i);
        } else {
          return None;
        }
      }
      i := i + 1;
    }
  }
}
