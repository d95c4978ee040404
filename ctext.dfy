/** C character strings as the two launcher programs handle them
    (src/mswin/extra/neuron.cpp, src/uxnrnbbs/mos2nrn.cpp): a string is
    the characters before its terminating NUL, held in a `char` array. The
    copy and the in-place slash conversion shared by both `back2forward`
    functions live here, with the backward scan for a last separator. */
module CText {

  /** The characters of a C string: no NUL among them. */
  predicate IsCString(s: seq<char>)
  {
    forall i :: 0 <= i < |s| ==> s[i] != '\0'
  }

  /** One character after `back2forward`: a backslash becomes a slash. */
  function Forward(c: char): char
  {
    if c == '\\' then '/' else c
  }

  /** The string `back2forward` produces. */
  function ForwardSlashes(s: seq<char>): (r: seq<char>)
    ensures |r| == |s|
    ensures forall i :: 0 <= i < |s| ==> r[i] == Forward(s[i])
  {
    if s == [] then [] else ForwardSlashes(s[..|s| - 1]) + [Forward(s[|s| - 1])]
  }

  /** The converted string has no backslash, keeps every other character
      in place, and is still a C string. */
  lemma ForwardSlashesClean(s: seq<char>)
    requires IsCString(s)
    ensures '\\' !in ForwardSlashes(s) && IsCString(ForwardSlashes(s))
    ensures forall i :: 0 <= i < |s| && s[i] != '\\' ==> ForwardSlashes(s)[i] == s[i]
  {
    var r := ForwardSlashes(s);
    forall i | 0 <= i < |r|
      ensures r[i] != '\\' && r[i] != '\0'
    {
      assert r[i] == Forward(s[i]);
    }
  }

  /** Converting twice is converting once. */
  lemma ForwardSlashesIdempotent(s: seq<char>)
    ensures ForwardSlashes(ForwardSlashes(s)) == ForwardSlashes(s)
  {
    var r := ForwardSlashes(s);
    var rr := ForwardSlashes(r);
    assert |rr| == |r|;
    forall i | 0 <= i < |r|
      ensures rr[i] == r[i]
    {
      assert rr[i] == Forward(r[i]) && r[i] == Forward(s[i]);
    }
  }

  /** `strcpy(dst, src)`: the characters and the terminating NUL are
      copied to the front of dst; the rest of dst is untouched. */
  method StrCpy(dst: array<char>, src: seq<char>)
    requires IsCString(src) && |src| < dst.Length
    modifies dst
    ensures dst[..|src|] == src && dst[|src|] == '\0'
    ensures dst[|src| + 1..] == old(dst[|src| + 1..])
  {
    var i := 0;
    while i < |src|
      invariant 0 <= i <= |src|
      invariant dst[..i] == src[..i]
      invariant dst[i..] == old(dst[i..])
    {
      dst[i] := src[i];
      i := i + 1;
    }
    dst[i] := '\0';
  }

  /** The loop `for (cp = forward; *cp; ++cp) if (*cp == '\\') *cp = '/';`
      over a buffer whose string ends at index n. */
  method ForwardInPlace(buf: array<char>, n: nat)
    requires n < buf.Length && buf[n] == '\0' && IsCString(buf[..n])
    modifies buf
    ensures buf[..n] == ForwardSlashes(old(buf[..n]))
    ensures buf[n..] == old(buf[n..])
  {
    ghost var s := buf[..n];
    var i := 0;
    while buf[i] != '\0'
      invariant 0 <= i <= n
      invariant buf[..i] == ForwardSlashes(s[..i])
      invariant forall k :: i <= k < buf.Length ==> buf[k] == old(buf[k])
      decreases n - i
    {
      assert buf[i] == s[i];
      if buf[i] == '\\' {
        buf[i] := '/';
      }
      assert s[..i + 1][..i] == s[..i];
      i := i + 1;
    }
    assert s[..i] == s;
    assert buf[n..] == old(buf[n..]);
  }

  /** The index of the last character of s that is in cs, or -1. */
  function LastIn(s: seq<char>, cs: set<char>): (r: int)
    ensures -1 <= r < |s|
    ensures r >= 0 ==> s[r] in cs
    ensures forall t :: r < t < |s| ==> s[t] !in cs
  {
    if s == [] then -1
    else if s[|s| - 1] in cs then |s| - 1
    else LastIn(s[..|s| - 1], cs)
  }

  /** The separator last in a string is the one put before a tail that
      has none. */
  lemma {:induction false} LastInAppend(head: seq<char>, c: char, tail: seq<char>, cs: set<char>)
    requires c in cs && forall t :: 0 <= t < |tail| ==> tail[t] !in cs
    ensures LastIn(head + [c] + tail, cs) == |head|
  {
    var s := head + [c] + tail;
    if tail != [] {
      assert s[..|s| - 1] == head + [c] + tail[..|tail| - 1];
      LastInAppend(head, c, tail[..|tail| - 1], cs);
    } else {
      assert s[|s| - 1] == c;
    }
  }

  /** The backward scan `for (i = n; i >= 0 && buf[i] != c; --i)` over a
      buffer holding a C string of length n, starting at its NUL. */
  method ScanBack(buf: array<char>, n: nat, cs: set<char>) returns (i: int)
    requires n < buf.Length && buf[n] == '\0' && '\0' !in cs
    ensures i == LastIn(buf[..n], cs)
  {
    i := n;
    while i >= 0 && buf[i] !in cs
      invariant -1 <= i <= n
      invariant forall t :: i < t < n ==> buf[t] !in cs
    {
      i := i - 1;
    }
    assert i >= 0 ==> i < n && buf[..n][i] in cs;
    LastInUnique(buf[..n], cs, i);
  }

  /** The last index in cs is the only one with nothing in cs after it. */
  lemma LastInUnique(s: seq<char>, cs: set<char>, i: int)
    requires -1 <= i < |s| && (i >= 0 ==> s[i] in cs)
    requires forall t :: i < t < |s| ==> s[t] !in cs
    ensures i == LastIn(s, cs)
  {
  }
}
