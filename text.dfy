/**
 * The string operations the search boxes use: `toLowerCase` and `includes`.
 * Case folding covers the letters a Spanish-language classroom writes with
 * (Basic Latin and the Latin-1 Supplement, where JavaScript lowers a capital
 * by adding 32 to its code point); every other character is left as it is.
 */
module Text {

  /** The capital letters this model folds: A-Z and U+00C0..U+00DE except the multiplication sign U+00D7. */
  predicate IsUpper(c: char) {
    ('A' <= c <= 'Z') || ('À' <= c <= 'Þ' && c != '×')
  }

  /** One character of String.prototype.toLowerCase. */
  function LowerChar(c: char): (d: char)
    ensures !IsUpper(d)
    ensures IsUpper(c) || d == c
  {
    if IsUpper(c) then (c as int + 32) as char else c
  }

  /** String.prototype.toLowerCase, character by character. */
  function Lower(s: string): (r: string)
    ensures |r| == |s|
    ensures forall i :: 0 <= i < |r| ==> !IsUpper(r[i])
  {
    seq(|s|, i requires 0 <= i < |s| => LowerChar(s[i]))
  }

  /** Lowering changes a string exactly when it holds a capital letter. */
  lemma LowerFixesExactlyLowercase(s: string)
    ensures Lower(s) == s <==> forall i :: 0 <= i < |s| ==> !IsUpper(s[i])
  {
    if forall i :: 0 <= i < |s| ==> !IsUpper(s[i]) {
      assert forall i :: 0 <= i < |s| ==> Lower(s)[i] == s[i];
    } else {
      var i :| 0 <= i < |s| && IsUpper(s[i]);
      assert Lower(s)[i] != s[i];
    }
  }

  /** Lowering twice is lowering once. */
  lemma LowerIdempotent(s: string)
    ensures Lower(Lower(s)) == Lower(s)
  {
    LowerFixesExactlyLowercase(Lower(s));
  }

  /** `needle` occurs in `hay` starting at position `k`. */
  predicate OccursAt(hay: string, needle: string, k: int) {
    0 <= k && k + |needle| <= |hay| && hay[k..k + |needle|] == needle
  }

  /** String.prototype.includes: does `needle` occur somewhere in `hay`? */
  function Contains(hay: string, needle: string): (r: bool)
    ensures needle == [] ==> r
    ensures r ==> |needle| <= |hay|
    decreases |hay|
  {
    if needle <= hay then true
    else if hay == [] then false
    else Contains(hay[1..], needle)
  }

  /** An occurrence past the first position is an occurrence in the tail. */
  lemma OccursShift(hay: string, needle: string, k: int)
    requires hay != [] && 0 < k
    ensures OccursAt(hay, needle, k) <==> OccursAt(hay[1..], needle, k - 1)
  {
    if k + |needle| <= |hay| {
      assert hay[k..k + |needle|] == hay[1..][k - 1..k - 1 + |needle|];
    }
  }

  /** `Contains` finds an occurrence exactly when there is one. */
  lemma {:induction false} ContainsIffOccurs(hay: string, needle: string)
    ensures Contains(hay, needle) <==> exists k :: OccursAt(hay, needle, k)
    decreases |hay|
  {
    if needle <= hay {
      assert hay[0..|needle|] == needle;
      assert OccursAt(hay, needle, 0);
    } else if hay == [] {
      assert forall k :: !OccursAt(hay, needle, k);
    } else {
      ContainsIffOccurs(hay[1..], needle);
      assert !OccursAt(hay, needle, 0);
      forall k | 0 < k
        ensures OccursAt(hay, needle, k) <==> OccursAt(hay[1..], needle, k - 1)
      {
        OccursShift(hay, needle, k);
      }
      if Contains(hay[1..], needle) {
        var j :| OccursAt(hay[1..], needle, j);
        assert OccursAt(hay, needle, j + 1);
      }
    }
  }

  /** The search used throughout the application: `text.toLowerCase().includes(term.toLowerCase())`. */
  predicate Matches(text: string, term: string)
    ensures term == "" ==> Matches(text, term)
    ensures Matches(text, term) ==> |term| <= |text|
  {
    Contains(Lower(text), Lower(term))
  }

  /** An empty search term matches every text. */
  lemma EmptyTermMatches(text: string)
    ensures Matches(text, "")
  {
  }

  /** A search term and its lower-cased form find the same texts. */
  lemma MatchesIgnoresTermCase(text: string, term: string)
    ensures Matches(text, Lower(term)) == Matches(text, term)
  {
    LowerIdempotent(term);
  }

  /** Capitals in the text are found by a lower-case term: the term occurs in the lowered text. */
  lemma MatchesLowercaseOccurrence(text: string, term: string)
    ensures Matches(text, term) <==> exists k :: OccursAt(Lower(text), Lower(term), k)
  {
    ContainsIffOccurs(Lower(text), Lower(term));
  }

  /** The fold of every capital this model lowers: each one becomes its own small letter. */
  lemma LowerTable()
    ensures Lower("ABCDEFGHIJKLMNOPQRSTUVWXYZ") == "abcdefghijklmnopqrstuvwxyz"
    ensures Lower("ÀÁÂÃÄÅÆÇÈÉÊËÌÍÎÏÐÑÒÓÔÕÖØÙÚÛÜÝÞ") == "àáâãäåæçèéêëìíîïðñòóôõöøùúûüýþ"
  {
    LowerBasicLatin();
    LowerLatin1();
  }

  /** A–Z lower to a–z. */
  lemma LowerBasicLatin()
    ensures Lower("ABCDEFGHIJKLMNOPQRSTUVWXYZ") == "abcdefghijklmnopqrstuvwxyz"
  {
  }

  /** The Latin-1 capitals lower to the small letters 32 code points above them. */
  lemma LowerLatin1()
    ensures Lower("ÀÁÂÃÄÅÆÇÈÉÊËÌÍÎÏÐÑÒÓÔÕÖØÙÚÛÜÝÞ") == "àáâãäåæçèéêëìíîïðñòóôõöøùúûüýþ"
  {
  }

  /** "BIOLOGÍA" and "biología" are the same search term. */
  lemma AccentedCapitalsFold()
    ensures Lower("BIOLOGÍA") == Lower("biología")
  {
    assert Lower("BIOLOGÍA") == "biología";
    assert Lower("biología") == "biología";
  }
}
