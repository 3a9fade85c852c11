/** The two string built-ins the plugin relies on: `toLowerCase` (for model
    names) and `indexOf` (to recognise a "404" error message). */
module JsString {

  function LowerChar(c: char): char {
    if 'A' <= c <= 'Z' then c - 'A' + 'a' else c
  }

  /** `s.toLowerCase()`, on the ASCII letters. */
  function ToLowerCase(s: string): (r: string)
    ensures |r| == |s|
    ensures forall i :: 0 <= i < |r| ==> !('A' <= r[i] <= 'Z')
    ensures forall i :: 0 <= i < |r| ==> ('A' <= s[i] <= 'Z' || r[i] == s[i])
    ensures forall i :: 0 <= i < |s| && 'A' <= s[i] <= 'Z' ==> r[i] as int == s[i] as int + 32
  {
    seq(|s|, i requires 0 <= i < |s| => LowerChar(s[i]))
  }

  /** `sub` occurs in `s` starting at position `k`. */
  predicate OccursAt(s: string, sub: string, k: nat) {
    k + |sub| <= |s| && s[k..k + |sub|] == sub
  }

  /** `s.indexOf(sub)`: the first position at which `sub` occurs in `s`, or -1. */
  function IndexOf(s: string, sub: string): (r: int)
    ensures r == -1 || (0 <= r && OccursAt(s, sub, r))
    ensures forall k: nat :: (r == -1 || k < r) ==> !OccursAt(s, sub, k)
  {
    IndexFrom(s, sub, 0)
  }

  function IndexFrom(s: string, sub: string, from: nat): (r: int)
    ensures r == -1 || (from <= r && OccursAt(s, sub, r))
    ensures forall k: nat :: from <= k && (r == -1 || k < r) ==> !OccursAt(s, sub, k)
    decreases |s| - from
  {
    if from + |sub| > |s| then -1
    else if OccursAt(s, sub, from) then from
    else IndexFrom(s, sub, from + 1)
  }
}
