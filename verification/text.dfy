/** Ordinal substring search, the behaviour of `string.Contains(string)`. */
module Text {

  /** `t` occurs in `s` starting at index `i`. */
  ghost predicate OccursAt(s: string, t: string, i: int) {
    0 <= i && i + |t| <= |s| && s[i..i + |t|] == t
  }

  /** `t` is a substring of `s`: the reference meaning of containment. */
  ghost predicate Occurs(t: string, s: string) {
    exists i :: OccursAt(s, t, i)
  }

  /** Scans `s` left to right for an occurrence of `t`. */
  function ContainsText(s: string, t: string): (b: bool)
    ensures b <==> Occurs(t, s)
    decreases |s|
  {
    if |t| > |s| then false
    else if s[..|t|] == t then
      assert OccursAt(s, t, 0);
      true
    else
      var rest := ContainsText(s[1..], t);
      ShiftOccurrence(s, t);
      rest
  }

  /** When `t` is not a prefix of `s`, it occurs in `s` exactly when it occurs in `s[1..]`. */
  lemma ShiftOccurrence(s: string, t: string)
    requires |t| <= |s| && s[..|t|] != t
    ensures Occurs(t, s) <==> Occurs(t, s[1..])
  {
    if Occurs(t, s) {
      var i :| OccursAt(s, t, i);
      assert i != 0;
      assert s[1..][i - 1..i - 1 + |t|] == s[i..i + |t|];
      assert OccursAt(s[1..], t, i - 1);
    }
    if Occurs(t, s[1..]) {
      var i :| OccursAt(s[1..], t, i);
      assert s[1..][i..i + |t|] == s[i + 1..i + 1 + |t|];
      assert OccursAt(s, t, i + 1);
    }
  }
}
