/**
 * Character classes, substring search and string ordering used by the
 * article queries and by slug generation. Strings are sequences of
 * characters; only the ASCII letters and digits are treated as alphanumeric.
 */
module Text {

  predicate IsDigit(c: char) { '0' <= c <= '9' }
  predicate IsUpper(c: char) { 'A' <= c <= 'Z' }
  predicate IsLower(c: char) { 'a' <= c <= 'z' }
  predicate IsAlnum(c: char) { IsDigit(c) || IsUpper(c) || IsLower(c) }

  /** ASCII lower-casing: upper-case letters map to their lower-case form, everything else is kept. */
  function ToLower(c: char): (r: char)
    ensures IsUpper(c) ==> IsLower(r)
    ensures !IsUpper(c) ==> r == c
    ensures IsAlnum(r) <==> IsAlnum(c)
  {
    if IsUpper(c) then (c as int - 'A' as int + 'a' as int) as char else c
  }

  /** The string with every upper-case ASCII letter lower-cased. */
  function Lowered(s: string): (r: string)
    ensures |r| == |s|
    ensures forall i :: 0 <= i < |s| ==> r[i] == ToLower(s[i])
  {
    if s == [] then [] else [ToLower(s[0])] + Lowered(s[1..])
  }

  /** `needle` occurs in `hay` starting at position `i`. */
  predicate OccursAt(hay: string, needle: string, i: int)
  {
    0 <= i && i + |needle| <= |hay| && hay[i..i + |needle|] == needle
  }

  predicate StartsWith(s: string, prefix: string)
  {
    |prefix| <= |s| && s[..|prefix|] == prefix
  }

  /** Substring containment. */
  predicate Contains(hay: string, needle: string)
    decreases |hay|
  {
    StartsWith(hay, needle) || (|hay| > 0 && Contains(hay[1..], needle))
  }

  /** An occurrence at any position is found by the recursive search. */
  lemma {:induction false} OccurrenceIsContained(hay: string, needle: string, i: int)
    requires OccursAt(hay, needle, i)
    ensures Contains(hay, needle)
    decreases i
  {
    if i == 0 {
      assert StartsWith(hay, needle);
    } else {
      var tail := hay[1..];
      assert tail[i - 1..i - 1 + |needle|] == hay[i..i + |needle|];
      OccurrenceIsContained(tail, needle, i - 1);
    }
  }

  /** What the recursive search finds is an occurrence at some position. */
  lemma {:induction false} ContainedHasOccurrence(hay: string, needle: string)
    requires Contains(hay, needle)
    ensures exists i :: OccursAt(hay, needle, i)
    decreases |hay|
  {
    if StartsWith(hay, needle) {
      assert OccursAt(hay, needle, 0);
    } else {
      var tail := hay[1..];
      ContainedHasOccurrence(tail, needle);
      var j :| OccursAt(tail, needle, j);
      assert tail[j..j + |needle|] == hay[j + 1..j + 1 + |needle|];
      assert OccursAt(hay, needle, j + 1);
    }
  }

  /** The recursive search agrees with the positional definition of an occurrence. */
  lemma ContainsIffOccurs(hay: string, needle: string)
    ensures Contains(hay, needle) <==> exists i :: OccursAt(hay, needle, i)
  {
    if Contains(hay, needle) {
      ContainedHasOccurrence(hay, needle);
    }
    if i :| OccursAt(hay, needle, i) {
      OccurrenceIsContained(hay, needle, i);
    }
  }

  /**
   * The `%needle%` pattern of a LIKE match under a case-insensitive
   * collation: containment once both sides are lower-cased.
   */
  predicate ContainsIgnoringCase(hay: string, needle: string)
  {
    Contains(Lowered(hay), Lowered(needle))
  }

  /** An exact occurrence is also an occurrence once both sides are lower-cased. */
  lemma OccurrenceIgnoringCase(hay: string, needle: string, i: int)
    requires OccursAt(hay, needle, i)
    ensures ContainsIgnoringCase(hay, needle)
  {
    var lh, ln := Lowered(hay), Lowered(needle);
    assert lh[i..i + |ln|] == ln by {
      forall k | 0 <= k < |ln| ensures lh[i + k] == ln[k] {
        assert hay[i + k] == hay[i..i + |needle|][k];
      }
    }
    OccurrenceIsContained(lh, ln, i);
  }

  /** Lower-casing a lower-cased string changes nothing. */
  lemma LoweredIdempotent(s: string)
    ensures Lowered(Lowered(s)) == Lowered(s)
  {
    var l := Lowered(s);
    forall k | 0 <= k < |l| ensures Lowered(l)[k] == l[k] {
      assert !IsUpper(l[k]);
    }
  }

  /** The case of the search text does not matter. */
  lemma CaseOfNeedleIsIgnored(hay: string, needle: string)
    ensures ContainsIgnoringCase(hay, needle) <==> ContainsIgnoringCase(hay, Lowered(needle))
  {
    LoweredIdempotent(needle);
  }

  /** Lexicographic order on strings by character code. */
  predicate StrLe(a: string, b: string)
  {
    if a == [] then true
    else if b == [] then false
    else if a[0] != b[0] then a[0] < b[0]
    else StrLe(a[1..], b[1..])
  }

  lemma {:induction false} StrLeTotal(a: string, b: string)
    ensures StrLe(a, b) || StrLe(b, a)
  {
    if a != [] && b != [] && a[0] == b[0] {
      StrLeTotal(a[1..], b[1..]);
    }
  }

  lemma {:induction false} StrLeTransitive(a: string, b: string, c: string)
    requires StrLe(a, b) && StrLe(b, c)
    ensures StrLe(a, c)
  {
    if a != [] && b != [] && c != [] && a[0] == b[0] && b[0] == c[0] {
      StrLeTransitive(a[1..], b[1..], c[1..]);
    }
  }
}
