/**
 * Ordinal, case-insensitive substring matching, as used by the two filter
 * endpoints (`string.Contains(value, StringComparison.OrdinalIgnoreCase)`).
 *
 * Case folding is modelled for ASCII letters only: both strings are mapped
 * character by character to upper case, then compared ordinally.
 */
module Text {

  /** Upper-case folding of one character (ASCII letters only). */
  function Upper(c: char): (u: char)
    ensures !('a' <= u <= 'z')
    ensures 'a' <= c <= 'z' ==> u as int == c as int - 32
    ensures !('a' <= c <= 'z') ==> u == c
  {
    if 'a' <= c <= 'z' then (c as int - 32) as char else c
  }

  /** `c` is a lower-case ASCII letter and `d` is the same letter in upper case. */
  predicate CaseVariant(c: char, d: char)
  {
    'a' <= c <= 'z' && d as int == c as int - 32
  }

  /**
   * Two characters fold alike exactly when they are equal or are the same
   * ASCII letter in different case.
   */
  lemma UpperAgree(c: char, d: char)
    ensures Upper(c) == Upper(d) <==> c == d || CaseVariant(c, d) || CaseVariant(d, c)
  {
  }

  /** Folds a whole string to upper case, character by character. */
  function Fold(s: string): (r: string)
    ensures |r| == |s|
    ensures forall i :: 0 <= i < |s| ==> r[i] == Upper(s[i])
  {
    if s == [] then [] else [Upper(s[0])] + Fold(s[1..])
  }

  /** Ordinal substring search: does `needle` occur somewhere in `hay`? */
  function Contains(hay: string, needle: string): (r: bool)
    ensures needle == [] ==> r
    ensures r ==> |needle| <= |hay|
    decreases |hay|
  {
    if needle <= hay then true
    else if hay == [] then false
    else Contains(hay[1..], needle)
  }

  /** Reference definition: `needle` sits in `hay` starting at index `i`. */
  ghost predicate OccursAt(hay: string, needle: string, i: int)
  {
    0 <= i && i + |needle| <= |hay| && hay[i..i + |needle|] == needle
  }

  /** The search finds `needle` exactly when it occurs at some index. */
  lemma {:induction false} ContainsIffOccurs(hay: string, needle: string)
    ensures Contains(hay, needle) <==> exists i :: OccursAt(hay, needle, i)
    decreases |hay|
  {
    if needle <= hay {
      assert OccursAt(hay, needle, 0);
    } else if hay == [] {
      forall i ensures !OccursAt(hay, needle, i) {
      }
    } else {
      ContainsIffOccurs(hay[1..], needle);
      if i :| OccursAt(hay[1..], needle, i) {
        assert hay[1..][i..i + |needle|] == hay[i + 1..i + 1 + |needle|];
        assert OccursAt(hay, needle, i + 1);
      }
      if i :| OccursAt(hay, needle, i) {
        assert i != 0;
        assert hay[1..][i - 1..i - 1 + |needle|] == hay[i..i + |needle|];
        assert OccursAt(hay[1..], needle, i - 1);
      }
    }
  }

  /** `hay.Contains(needle, StringComparison.OrdinalIgnoreCase)`. */
  function ContainsIgnoreCase(hay: string, needle: string): (r: bool)
    ensures needle == [] ==> r
    ensures r ==> |needle| <= |hay|
  {
    Contains(Fold(hay), Fold(needle))
  }

  /**
   * Reference definition of a case-insensitive match: every character of
   * `needle` agrees, after folding, with the character of `hay` at offset `i`.
   */
  ghost predicate MatchesAt(hay: string, needle: string, i: int)
  {
    && 0 <= i && i + |needle| <= |hay|
    && forall j :: 0 <= j < |needle| ==> Upper(hay[i + j]) == Upper(needle[j])
  }

  /** The case-insensitive search agrees with the reference definition. */
  lemma ContainsIgnoreCaseIff(hay: string, needle: string)
    ensures ContainsIgnoreCase(hay, needle) <==> exists i :: MatchesAt(hay, needle, i)
  {
    var fh, fn := Fold(hay), Fold(needle);
    ContainsIffOccurs(fh, fn);
    forall i
      ensures OccursAt(fh, fn, i) <==> MatchesAt(hay, needle, i)
    {
      if 0 <= i && i + |needle| <= |hay| {
        if MatchesAt(hay, needle, i) {
          assert forall j :: 0 <= j < |fn| ==> fh[i..i + |fn|][j] == fn[j];
        }
        if OccursAt(fh, fn, i) {
          forall j | 0 <= j < |needle|
            ensures Upper(hay[i + j]) == Upper(needle[j])
          {
            assert fh[i..i + |fn|][j] == fh[i + j];
          }
        }
      }
    }
  }

  /** Folding is idempotent. */
  lemma FoldIdempotent(s: string)
    ensures Fold(Fold(s)) == Fold(s)
  {
    var f := Fold(s);
    forall i | 0 <= i < |s|
      ensures Fold(f)[i] == f[i]
    {
      assert Upper(f[i]) == f[i];
    }
  }

  /** Folding either argument first changes nothing: the match ignores case. */
  lemma IgnoreCaseIsCaseBlind(hay: string, needle: string)
    ensures ContainsIgnoreCase(Fold(hay), needle) == ContainsIgnoreCase(hay, needle)
    ensures ContainsIgnoreCase(hay, Fold(needle)) == ContainsIgnoreCase(hay, needle)
  {
    FoldIdempotent(hay);
    FoldIdempotent(needle);
  }
}
