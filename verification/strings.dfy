/** The two string tests the mover relies on, with Python's meaning:
    `name.endswith(suffix)` and `needle in text`. Each executable definition
    is paired with an index-based reference definition and a lemma relating
    the two. */
module Strings {

  /** `t` occurs in `s` starting at index `i`. */
  ghost predicate OccursAt(s: string, t: string, i: int)
  {
    0 <= i && i + |t| <= |s| && s[i..i + |t|] == t
  }

  /** `s` ends with `suffix` in the reference sense: some tail of `s` is `suffix`. */
  ghost predicate HasTail(s: string, suffix: string)
  {
    exists k :: 0 <= k <= |s| && s[k..] == suffix
  }

  /** Python's `s.endswith(suffix)`: a plain suffix test, no extension parsing. */
  predicate EndsWith(s: string, suffix: string)
  {
    |suffix| <= |s| && s[|s| - |suffix|..] == suffix
  }

  /** Python's `t in s`: true when `t` occurs somewhere in `s`. */
  function Contains(s: string, t: string): (r: bool)
    ensures r <==> exists i :: OccursAt(s, t, i)
    decreases |s|
  {
    if |t| > |s| then
      NoRoom(s, t);
      false
    else if s[..|t|] == t then
      assert OccursAt(s, t, 0);
      true
    else
      ShiftOccurrence(s, t);
      Contains(s[1..], t)
  }

  /** A needle longer than the text occurs nowhere in it. */
  lemma NoRoom(s: string, t: string)
    requires |t| > |s|
    ensures forall i :: !OccursAt(s, t, i)
  {
  }

  /** When `t` fits in `s` but is not a prefix of it, its occurrences in `s`
      are exactly its occurrences in `s[1..]`, shifted by one. */
  lemma ShiftOccurrence(s: string, t: string)
    requires |t| <= |s|
    requires s[..|t|] != t
    ensures (exists i :: OccursAt(s, t, i)) <==> (exists j :: OccursAt(s[1..], t, j))
  {
    if i :| OccursAt(s, t, i) {
      assert i != 0;
      assert s[1..][i - 1..i - 1 + |t|] == s[i..i + |t|];
      assert OccursAt(s[1..], t, i - 1);
    }
    if j :| OccursAt(s[1..], t, j) {
      assert s[1..][j..j + |t|] == s[j + 1..j + 1 + |t|];
      assert OccursAt(s, t, j + 1);
    }
  }

  /** The suffix test agrees with its reference definition in both directions. */
  lemma EndsWithIsTail(s: string, suffix: string)
    ensures EndsWith(s, suffix) <==> HasTail(s, suffix)
  {
    if EndsWith(s, suffix) {
      assert s[|s| - |suffix|..] == suffix;
    }
    if HasTail(s, suffix) {
      var k :| 0 <= k <= |s| && s[k..] == suffix;
      assert |s[k..]| == |s| - k;
      assert k == |s| - |suffix|;
    }
  }

  /** Python's `endswith("")` holds for every string: an empty suffix on its
      own would select every name. */
  lemma EveryNameEndsWithEmpty(s: string)
    ensures EndsWith(s, "")
  {
  }
}
