/**
 * NUL-terminated character buffers, as the driver's string buffers (the print
 * memories and ip_ascii) hold them.
 */
module CStrings {

  const NUL: char := '\0'

  /** The length of the NUL-terminated string at the start of s. */
  function CLen(s: string): (n: nat)
    requires NUL in s
    ensures n < |s| && s[n] == NUL && NUL !in s[..n]
  {
    if s[0] == NUL then 0
    else
      assert NUL in s[1..];
      var n := CLen(s[1..]);
      assert s[..n + 1] == [s[0]] + s[1..][..n];
      n + 1
  }

  /** The text a C string buffer starts with: everything before its first NUL. */
  function CText(s: string): (t: string)
    ensures t <= s && NUL !in t
    ensures |t| < |s| ==> s[|t|] == NUL
    ensures NUL !in s ==> t == s
  {
    assert NUL in s + [NUL] by { assert (s + [NUL])[|s|] == NUL; }
    var n := CLen(s + [NUL]);
    assert (s + [NUL])[..n] == s[..n];
    s[..n]
  }

  /** A buffer holding t, a NUL and anything after holds the C string of t. */
  lemma {:induction false} CLenOfPrefix(t: string, rest: string)
    ensures NUL in t + [NUL] + rest
    ensures CLen(t + [NUL] + rest) == |CText(t)|
    ensures (t + [NUL] + rest)[..CLen(t + [NUL] + rest)] == CText(t)
    decreases |t|
  {
    var s := t + [NUL] + rest;
    assert s[|t|] == NUL;
    if t != [] && t[0] != NUL {
      CLenOfPrefix(t[1..], rest);
      assert s[1..] == t[1..] + [NUL] + rest;
      assert (t + [NUL])[1..] == t[1..] + [NUL];
    }
  }
}
