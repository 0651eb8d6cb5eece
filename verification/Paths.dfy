/** Path strings and the names in them. A path is the characters before the terminating NUL. */
module Paths {
  import opened Words

  /** The names of a path. */
  function Names(s: string): seq<string> {
    Words.Words(s, '/')
  }

  lemma NamesOfName(n: string)
    requires '/' !in n && n != ""
    ensures Names(n) == [n]
  {
    WordsOfWord(n, '/');
  }

  lemma NamesJoin(p: string, q: string)
    ensures Names(p + "/" + q) == Names(p) + Names(q)
  {
    assert p + "/" + q == p + ("/" + q);
    WordsAppend(p, "/" + q, '/');
    assert ("/" + q)[1..] == q;
  }

  lemma NamesCut(s: string, k: nat)
    requires k < |s| && s[k] == '/'
    ensures Names(s) == Names(s[..k]) + Names(s[k + 1..])
  {
    assert s == s[..k] + "/" + s[k + 1..];
    NamesJoin(s[..k], s[k + 1..]);
  }

  lemma NamesOfSlash()
    ensures Names("") == [] && Names("/") == []
  {
  }

  /** The position of the last slash, or -1. */
  function LastSlash(s: string): (i: int)
    ensures -1 <= i < |s|
    ensures i >= 0 ==> s[i] == '/'
    ensures forall k :: i < k < |s| ==> s[k] != '/'
  {
    if s == "" then -1 else if s[|s| - 1] == '/' then |s| - 1 else LastSlash(s[..|s| - 1])
  }
}
