/** The pieces of the JavaScript string semantics that the page script relies on. */
module Js {

  /** Clamps a string index to [0, n], as String.prototype.substring does with its arguments. */
  function Clamp(x: int, n: nat): (r: nat)
    ensures r <= n
    ensures 0 <= x <= n ==> r == x
    ensures x < 0 ==> r == 0
    ensures x > n ==> r == n
  {
    if x < 0 then 0 else if x > n then n else x
  }

  /** String.prototype.substring(start, end): both bounds are clamped to the string,
      and they are swapped when start is past end, so the call never fails. */
  function Substring(s: string, start: int, end: int): (r: string)
    ensures |r| <= |s|
    ensures 0 <= start <= end <= |s| ==> r == s[start..end]
  {
    var a, b := Clamp(start, |s|), Clamp(end, |s|);
    if a <= b then s[a..b] else s[b..a]
  }

  /** With a start of 0, substring is the prefix whose length is the clamped end:
      a negative end gives the empty string, an end past the string the whole string. */
  lemma SubstringFromZero(s: string, end: int)
    ensures Substring(s, 0, end) == s[..Clamp(end, |s|)]
    ensures end <= 0 ==> Substring(s, 0, end) == ""
    ensures end >= |s| ==> Substring(s, 0, end) == s
  {
  }
}
