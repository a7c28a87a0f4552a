/**
 The two string operations the course filters rely on: lower-casing (restricted
 to ASCII letters) and Python's `needle in hay` containment test on strings.
 */
module Text {

  predicate IsUpper(c: char) {
    'A' <= c <= 'Z'
  }

  /** Lower-cases one character; only the ASCII letters A-Z change, each to
      its partner a-z, 32 code points further on. */
  function LowerChar(c: char): (r: char)
    ensures !IsUpper(r)
    ensures !IsUpper(c) ==> r == c
    ensures IsUpper(c) ==> r as int == c as int + 32
  {
    if IsUpper(c) then (c as int + 32) as char else c
  }

  /** `s.lower()` restricted to ASCII: same length, every upper-case letter
      replaced by its lower-case partner, every other character untouched. */
  function Lower(s: string): (r: string)
    ensures |r| == |s|
    ensures forall i :: 0 <= i < |r| ==> !IsUpper(r[i])
    ensures forall i :: 0 <= i < |s| && !IsUpper(s[i]) ==> r[i] == s[i]
    ensures forall i :: 0 <= i < |s| && IsUpper(s[i]) ==> r[i] as int == s[i] as int + 32
  {
    seq(|s|, i requires 0 <= i < |s| => LowerChar(s[i]))
  }

  /** Lower-casing twice is lower-casing once. */
  lemma LowerIdempotent(s: string)
    ensures Lower(Lower(s)) == Lower(s)
  {
  }

  /** `needle` sits in `hay` starting at index `i`. */
  ghost predicate OccursAt(hay: string, needle: string, i: int)
  {
    0 <= i && i + |needle| <= |hay| && hay[i..i + |needle|] == needle
  }

  /** Python's `needle in hay`: scans the start positions of `hay` from left to right. */
  function Contains(hay: string, needle: string): (b: bool)
    ensures needle == [] ==> b
    ensures b ==> |needle| <= |hay|
    decreases |hay|
  {
    if needle <= hay then true
    else if |hay| == 0 then false
    else Contains(hay[1..], needle)
  }

  /** `Contains` holds exactly when the needle occurs at some position of the hay. */
  lemma {:induction false} ContainsIff(hay: string, needle: string)
    ensures Contains(hay, needle) <==> exists i :: OccursAt(hay, needle, i)
    decreases |hay|
  {
    if needle <= hay {
      assert OccursAt(hay, needle, 0);
    } else if |hay| > 0 {
      var tail := hay[1..];
      ContainsIff(tail, needle);
      assert !OccursAt(hay, needle, 0);
      forall i | OccursAt(hay, needle, i)
        ensures OccursAt(tail, needle, i - 1)
      {
        assert tail[i - 1..i - 1 + |needle|] == hay[i..i + |needle|];
      }
      forall j | OccursAt(tail, needle, j)
        ensures OccursAt(hay, needle, j + 1)
      {
        assert hay[j + 1..j + 1 + |needle|] == tail[j..j + |needle|];
      }
    }
  }

  /** Python's `needle.lower() in hay.lower()`, with ASCII lower-casing. */
  predicate ContainsIgnoringCase(hay: string, needle: string)
  {
    Contains(Lower(hay), Lower(needle))
  }

  /** Two characters are the same letter up to ASCII case, or simply equal. */
  ghost predicate SameLetter(a: char, b: char)
  {
    || a == b
    || (IsUpper(a) && b as int == a as int + 32)
    || (IsUpper(b) && a as int == b as int + 32)
  }

  /** Two strings that differ only in the ASCII case of their letters. */
  ghost predicate SameUpToCase(s: string, t: string)
  {
    |s| == |t| && forall i :: 0 <= i < |s| ==> SameLetter(s[i], t[i])
  }

  /** Lower-casing identifies exactly the strings that differ only in case. */
  lemma LowerCaseBlind(s: string, t: string)
    ensures SameUpToCase(s, t) <==> Lower(s) == Lower(t)
  {
  }

  /** A case-insensitive match does not depend on the case of the letters of
      either argument. */
  lemma MatchCaseBlind(hay: string, hay': string, needle: string, needle': string)
    requires SameUpToCase(hay, hay')
    requires SameUpToCase(needle, needle')
    ensures ContainsIgnoringCase(hay, needle) == ContainsIgnoringCase(hay', needle')
  {
    LowerCaseBlind(hay, hay');
    LowerCaseBlind(needle, needle');
  }

  /** Lower-casing an argument before a case-insensitive match changes nothing. */
  lemma ContainsIgnoringCaseOfLowered(hay: string, needle: string)
    ensures ContainsIgnoringCase(Lower(hay), needle) == ContainsIgnoringCase(hay, needle)
    ensures ContainsIgnoringCase(hay, Lower(needle)) == ContainsIgnoringCase(hay, needle)
  {
    LowerIdempotent(hay);
    LowerIdempotent(needle);
  }
}
