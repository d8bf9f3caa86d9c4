/** NUL-terminated text, and the string routines of util/string.c that the other modules rest on. */
module CText {

  /** How many characters precede the first NUL (all of them when there is none). */
  function NulIndex(s: string): (n: nat)
    ensures n <= |s|
    ensures forall k :: 0 <= k < n ==> s[k] != '\0'
    ensures n < |s| ==> s[n] == '\0'
  {
    if s == "" || s[0] == '\0' then 0 else 1 + NulIndex(s[1..])
  }

  /** The text a `char *` at the start of `s` denotes. */
  function CStr(s: string): string {
    s[..NulIndex(s)]
  }

  /** `t` stands at `off`, holds no NUL, and is followed by one or by the end. */
  ghost predicate SpelledAt(s: string, off: nat, t: string) {
    && off + |t| <= |s| && s[off..off + |t|] == t
    && (forall k :: 0 <= k < |t| ==> t[k] != '\0')
    && (off + |t| < |s| ==> s[off + |t|] == '\0')
  }

  /** Only one text is spelled at a place, and `CStr` finds it. */
  lemma CStrSpelled(s: string, off: nat, t: string)
    requires off <= |s|
    ensures SpelledAt(s, off, t) <==> t == CStr(s[off..])
  {
    var rest := s[off..];
    var n := NulIndex(rest);
    assert s[off..off + n] == rest[..n];
    if SpelledAt(s, off, t) {
      assert forall k :: 0 <= k < |t| ==> rest[k] == t[k];
      NulIndexUnique(rest, |t|);
    }
  }

  predicate Terminated(s: string) {
    NulIndex(s) < |s|
  }

  lemma NulIndexUnique(s: string, n: nat)
    requires n <= |s|
    requires forall k :: 0 <= k < n ==> s[k] != '\0'
    requires n < |s| ==> s[n] == '\0'
    ensures NulIndex(s) == n
  {
    assert NulIndex(s) < |s| ==> s[NulIndex(s)] == '\0';
  }

  method Strlen(s: string) returns (n: nat)
    requires Terminated(s)
    ensures n == |CStr(s)|
  {
    n := 0;
    while s[n] != '\0'
      invariant n <= NulIndex(s)
      decreases |s| - n
    {
      n := n + 1;
    }
    NulIndexUnique(s, n);
  }

  /** `strcmp`: zero exactly on equal text, and otherwise the signed difference at the first place they differ. */
  method Strcmp(s1: string, s2: string) returns (d: int)
    requires Terminated(s1) && Terminated(s2)
    ensures d == 0 <==> CStr(s1) == CStr(s2)
    ensures d != 0 ==> exists k ::
                0 <= k <= |CStr(s1)| && k <= |CStr(s2)| && s1[..k] == s2[..k] && d == s1[k] as int - s2[k] as int
  {
    var i := 0;
    while s1[i] != '\0' && s1[i] == s2[i]
      invariant i <= NulIndex(s1) && i <= NulIndex(s2)
      invariant s1[..i] == s2[..i]
      decreases |s1| - i
    {
      i := i + 1;
    }
    d := s1[i] as int - s2[i] as int;
    if d == 0 {
      NulIndexUnique(s1, i);
      NulIndexUnique(s2, i);
    } else {
      assert i < |CStr(s1)| && i < |CStr(s2)| ==> CStr(s1)[i] != CStr(s2)[i];
      assert i == |CStr(s1)| || i == |CStr(s2)| ==> |CStr(s1)| != |CStr(s2)|;
    }
  }
}
