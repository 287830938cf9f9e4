/**
 * NUL-terminated character buffers as the C sources read them: a buffer's
 * string is everything before its first NUL.
 */
module CStrings {

  const Nul: char := '\0'

  /** `strlen`: the characters before the first NUL (all of s when there is none). */
  function StrLen(s: seq<char>): (n: nat)
    ensures n <= |s|
    ensures forall i :: 0 <= i < n ==> s[i] != Nul
    ensures n < |s| ==> s[n] == Nul
  {
    if |s| == 0 || s[0] == Nul then 0 else 1 + StrLen(s[1..])
  }

  /** The string a buffer holds. */
  function CStr(s: seq<char>): (r: seq<char>)
    ensures |r| <= |s| && r == s[..|r|] && |r| == StrLen(s)
    ensures forall i :: 0 <= i < |r| ==> r[i] != Nul
    ensures |r| < |s| ==> s[|r|] == Nul
  {
    s[..StrLen(s)]
  }

  /** A string without NUL is its own C string. */
  lemma {:induction false} StrLenNoNul(s: seq<char>)
    requires forall i :: 0 <= i < |s| ==> s[i] != Nul
    ensures StrLen(s) == |s|
  {
    if |s| > 0 {
      StrLenNoNul(s[1..]);
    }
  }

  /** A NUL at k with none before it ends the string at k. */
  lemma {:induction false} StrLenAt(s: seq<char>, k: nat)
    requires k < |s| && s[k] == Nul && forall i :: 0 <= i < k ==> s[i] != Nul
    ensures StrLen(s) == k
  {
    if k > 0 {
      StrLenAt(s[1..], k - 1);
    }
  }

  /** No NUL among the first k characters: the string is at least k long. */
  lemma {:induction false} StrLenAtLeast(s: seq<char>, k: nat)
    requires k <= |s| && forall i :: 0 <= i < k ==> s[i] != Nul
    ensures StrLen(s) >= k
  {
    if k > 0 {
      StrLenAtLeast(s[1..], k - 1);
    }
  }

  /** `strncmp(s, p, strlen(p)) == 0` for a string s and a pattern p without NUL. */
  predicate StartsWith(s: seq<char>, p: seq<char>) {
    |p| <= |s| && s[..|p|] == p
  }
}
