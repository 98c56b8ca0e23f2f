/**
 The string operations the user search and the role filter rely on:
 lowercasing (ASCII letters only) and `String.prototype.includes`.
 */
module Text {

  predicate IsUpper(c: char) {
    'A' <= c <= 'Z'
  }

  /** Lowercases an ASCII capital letter and leaves every other character alone. */
  function LowerChar(c: char): (r: char)
    ensures !IsUpper(r)
    ensures !IsUpper(c) ==> r == c
  {
    if IsUpper(c) then (c as int + 32) as char else c
  }

  /** `toLowerCase`, restricted to ASCII. */
  function Lower(s: string): (r: string)
    ensures |r| == |s|
    ensures forall i :: 0 <= i < |s| ==> r[i] == LowerChar(s[i])
    ensures forall i :: 0 <= i < |r| ==> !IsUpper(r[i])
  {
    seq(|s|, i requires 0 <= i < |s| => LowerChar(s[i]))
  }

  /** Lowercasing twice is lowercasing once. */
  lemma {:induction false} LowerIdempotent(s: string)
    ensures Lower(Lower(s)) == Lower(s)
  {
  }

  /** `t` occurs in `s` starting at position `k`. */
  ghost predicate OccursAt(s: string, t: string, k: int) {
    0 <= k && k + |t| <= |s| && s[k..k + |t|] == t
  }

  /** `s.includes(t)`: scans the start positions of `s` from left to right. */
  function Includes(s: string, t: string): (r: bool)
    ensures r <==> exists k :: OccursAt(s, t, k)
    decreases |s|
  {
    if |t| > |s| then
      assert forall k :: !OccursAt(s, t, k);
      false
    else if s[..|t|] == t then
      assert OccursAt(s, t, 0);
      true
    else
      var r := Includes(s[1..], t);
      ShiftOccurrence(s, t);
      r
  }

  /** An occurrence in `s` other than at position 0 is an occurrence in `s[1..]`, one place earlier. */
  lemma {:induction false} ShiftOccurrence(s: string, t: string)
    requires |t| <= |s| && s[..|t|] != t
    ensures (exists k :: OccursAt(s, t, k)) <==> (exists k :: OccursAt(s[1..], t, k))
  {
    forall k | OccursAt(s, t, k)
      ensures OccursAt(s[1..], t, k - 1)
    {
      assert k != 0;
      assert s[1..][k - 1..k - 1 + |t|] == s[k..k + |t|];
    }
    forall k | OccursAt(s[1..], t, k)
      ensures OccursAt(s, t, k + 1)
    {
      assert s[1..][k..k + |t|] == s[k + 1..k + 1 + |t|];
    }
  }

  /** The empty string occurs in every string. */
  lemma {:induction false} IncludesEmpty(s: string)
    ensures Includes(s, "")
  {
    assert OccursAt(s, "", 0);
  }
}
