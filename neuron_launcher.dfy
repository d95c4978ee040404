/** The Windows launcher neuron.exe (src/mswin/extra/neuron.cpp): finding
    the installation directory from the executable's path, converting it
    to forward slashes, and packing the command-line arguments into one
    string (backslashes made slashes, spaces escaped as "@@", arguments
    separated by single spaces) for the shell script that starts nrniv.
    The path of the executable is a parameter (GetModuleFileName is an OS
    call) and starting the command (WinExec, MessageBox) is not modelled. */
module NeuronLauncher {
  import opened CText

  const Backslash: set<char> := {'\\'}

  // ---------------------------------------------------------------------
  // back2forward
  // ---------------------------------------------------------------------

  /** `back2forward`: a new string of the same length, each backslash
      replaced by a slash. */
  method Back2Forward(back: seq<char>) returns (forward: seq<char>)
    requires IsCString(back)
    ensures forward == ForwardSlashes(back)
  {
    var buf := new char[|back| + 1];
    StrCpy(buf, back);
    ForwardInPlace(buf, |back|);
    forward := buf[..|back|];
  }

  // ---------------------------------------------------------------------
  // setneuronhome
  // ---------------------------------------------------------------------

  /** The number of backslashes in s. */
  function Backslashes(s: seq<char>): nat
  {
    if s == [] then 0 else Backslashes(s[..|s| - 1]) + (if s[|s| - 1] == '\\' then 1 else 0)
  }

  /** Backslashes add up over a concatenation. */
  lemma {:induction false} BackslashesConcat(a: seq<char>, b: seq<char>)
    ensures Backslashes(a + b) == Backslashes(a) + Backslashes(b)
  {
    if b != [] {
      assert (a + b)[..|a + b| - 1] == a + b[..|b| - 1];
      BackslashesConcat(a, b[..|b| - 1]);
    } else {
      assert a + b == a;
    }
  }

  /** A string with no backslash counts none. */
  lemma {:induction false} BackslashesNone(s: seq<char>)
    requires forall t :: 0 <= t < |s| ==> s[t] != '\\'
    ensures Backslashes(s) == 0
  {
    if s != [] {
      BackslashesNone(s[..|s| - 1]);
    }
  }

  /** Cutting at a backslash with none after it removes exactly that one. */
  lemma BackslashesSplit(s: seq<char>, i: int)
    requires 0 <= i < |s| && s[i] == '\\'
    requires forall t :: i < t < |s| ==> s[t] != '\\'
    ensures Backslashes(s[..i]) + 1 == Backslashes(s)
    ensures Backslashes(s[i + 1..]) == 0
  {
    assert s[..i + 1][..i] == s[..i];
    assert Backslashes(s[..i + 1]) == Backslashes(s[..i]) + 1;
    assert s[..i + 1] + s[i + 1..] == s;
    BackslashesConcat(s[..i + 1], s[i + 1..]);
    BackslashesNone(s[i + 1..]);
  }

  /** Cutting at the last backslash removes exactly one backslash, and a
      string with one has a last one. */
  lemma LastBackslashSplit(s: seq<char>)
    requires Backslashes(s) >= 1
    ensures 0 <= LastIn(s, Backslash) < |s|
    ensures Backslashes(s[..LastIn(s, Backslash)]) + 1 == Backslashes(s)
    ensures Backslashes(s[LastIn(s, Backslash) + 1..]) == 0
  {
    var i := LastIn(s, Backslash);
    forall t | i < t < |s|
      ensures s[t] != '\\'
    {
      assert s[t] !in Backslash;
    }
    if i < 0 {
      BackslashesNone(s);
      assert false;
    }
    BackslashesSplit(s, i);
  }

  /** The two loops of `setneuronhome`: the path of neuron.exe is cut at
      its last backslash (dropping "\neuron.exe") and then at the next
      last one (dropping "\bin"). The result is a prefix of the path that
      is followed by a backslash, and exactly one more backslash follows. */
  method SetNeuronHome(path: seq<char>) returns (home: seq<char>)
    requires IsCString(path) && |path| < 256 && Backslashes(path) >= 2
    ensures |home| < |path| && home == path[..|home|] && path[|home|] == '\\'
    ensures Backslashes(path[|home| + 1..]) == 1
  {
    var buf := new char[256];
    StrCpy(buf, path);
    var i := CutAtLast(buf, |path|, path);
    var i2 := CutAtLast(buf, i, path[..i]);
    home := buf[..i2];
    TwoCuts(path, i, i2);
  }

  /** One loop of `setneuronhome` and the write after it: the string s of
      length n in buf is cut at its last backslash, which removes exactly
      one backslash from it. */
  method CutAtLast(buf: array<char>, n: nat, ghost s: seq<char>) returns (i: int)
    requires n < buf.Length && buf[n] == '\0' && buf[..n] == s && Backslashes(s) >= 1
    modifies buf
    ensures 0 <= i < n && s[i] == '\\' && forall t :: i < t < n ==> s[t] != '\\'
    ensures Backslashes(s[..i]) + 1 == Backslashes(s)
    ensures buf[..i] == s[..i] && buf[i] == '\0'
  {
    i := ScanBack(buf, n, Backslash);
    LastBackslashSplit(s);
    buf[i] := '\0';
  }

  /** The backslashes after the second cut: the one at the first cut and
      none after it. */
  lemma TwoCuts(path: seq<char>, i: int, i2: int)
    requires 0 <= i2 < i < |path|
    requires path[i] == '\\' && forall t :: i < t < |path| ==> path[t] != '\\'
    requires path[..i][i2] == '\\' && forall t :: i2 < t < i ==> path[..i][t] != '\\'
    ensures path[i2] == '\\' && Backslashes(path[i2 + 1..]) == 1
  {
    var tail := path[i2 + 1..];
    var k := i - i2 - 1;
    BackslashesSplit(tail, k);
    assert tail[..k] == path[i2 + 1..i];
    BackslashesNone(tail[..k]);
  }

  // ---------------------------------------------------------------------
  // argstr
  // ---------------------------------------------------------------------

  /** What `argstr` writes for one character of an argument: a backslash
      becomes a slash and a space becomes "@@" (turned back into a space
      by hoc when it reads the command line). */
  function Escape(c: char): seq<char>
  {
    if c == '\\' then ['/'] else if c == ' ' then ['@', '@'] else [c]
  }

  /** One argument as `argstr` writes it. */
  function Escaped(a: seq<char>): seq<char>
  {
    if a == [] then [] else Escaped(a[..|a| - 1]) + Escape(a[|a| - 1])
  }

  /** Escaping works character by character. */
  lemma {:induction false} EscapedConcat(a: seq<char>, b: seq<char>)
    ensures Escaped(a + b) == Escaped(a) + Escaped(b)
  {
    if b == [] {
      assert a + b == a;
    } else {
      var ab, b', c := a + b, b[..|b| - 1], b[|b| - 1];
      assert ab[..|ab| - 1] == a + b' && ab[|ab| - 1] == c;
      assert Escaped(ab) == Escaped(a + b') + Escape(c);
      assert Escaped(b) == Escaped(b') + Escape(c);
      EscapedConcat(a, b');
    }
  }

  /** The number of spaces in a. */
  function Spaces(a: seq<char>): nat
  {
    if a == [] then 0 else Spaces(a[..|a| - 1]) + (if a[|a| - 1] == ' ' then 1 else 0)
  }

  /** Each space takes two characters, every other character one. */
  lemma {:induction false} EscapedLength(a: seq<char>)
    ensures |Escaped(a)| == |a| + Spaces(a)
  {
    if a != [] {
      EscapedLength(a[..|a| - 1]);
    }
  }

  /** An escaped argument holds no space and no backslash, so the spaces
      of the joined line are exactly the separators. */
  lemma {:induction false} EscapedClean(a: seq<char>)
    requires IsCString(a)
    ensures ' ' !in Escaped(a) && '\\' !in Escaped(a) && IsCString(Escaped(a))
  {
    if a != [] {
      EscapedClean(a[..|a| - 1]);
    }
  }

  /** hoc's reading of the line: "@@" back to a space. */
  function Unescape(s: seq<char>): seq<char>
  {
    if s == [] then []
    else if |s| >= 2 && s[0] == '@' && s[1] == '@' then [' '] + Unescape(s[2..])
    else [s[0]] + Unescape(s[1..])
  }

  /** For an argument with no '@', unescaping gives back the argument with
      forward slashes: the escape loses nothing else. */
  lemma {:induction false} UnescapeEscaped(a: seq<char>)
    requires '@' !in a
    ensures Unescape(Escaped(a)) == ForwardSlashes(a)
    decreases |a|
  {
    if a != [] {
      var rest := a[1..];
      EscapedCons(a);
      ForwardSlashesCons(a);
      assert '@' !in rest;
      UnescapeEscaped(rest);
      UnescapeStep(a[0], Escaped(rest));
    }
  }

  /** Escaping from the front: the first character's escape, then the rest. */
  lemma EscapedCons(a: seq<char>)
    requires a != []
    ensures Escaped(a) == Escape(a[0]) + Escaped(a[1..])
  {
    var h := [a[0]];
    assert a == h + a[1..];
    EscapedConcat(h, a[1..]);
    assert Escaped(h) == Escape(a[0]) by {
      assert h[..0] == [] && Escaped(h[..0]) == [];
    }
  }

  /** Converting slashes from the front. */
  lemma ForwardSlashesCons(a: seq<char>)
    requires a != []
    ensures ForwardSlashes(a) == [Forward(a[0])] + ForwardSlashes(a[1..])
  {
    var f := ForwardSlashes(a);
    var r := ForwardSlashes(a[1..]);
    var g := [Forward(a[0])] + r;
    assert |f| == |g|;
    forall k | 0 <= k < |f|
      ensures f[k] == g[k]
    {
      if k > 0 {
        calc {
          g[k];
          r[k - 1];
          Forward(a[1..][k - 1]);
          { assert a[1..][k - 1] == a[k]; }
          Forward(a[k]);
          f[k];
        }
      }
    }
  }

  /** Unescaping reads one escaped character other than '@' back. */
  lemma UnescapeStep(c: char, e: seq<char>)
    requires c != '@'
    ensures Unescape(Escape(c) + e) == [Forward(c)] + Unescape(e)
  {
    if c == ' ' {
      assert (['@', '@'] + e)[2..] == e;
    } else {
      assert ([Forward(c)] + e)[1..] == e;
    }
  }

  /** The arguments after the program name, in order. */
  function Args(argv: seq<seq<char>>): seq<seq<char>>
  {
    if |argv| <= 1 then [] else argv[1..]
  }

  /** The arguments escaped and separated by single spaces, with no space
      before the first or after the last. */
  function Joined(xs: seq<seq<char>>): seq<char>
  {
    if |xs| == 0 then []
    else if |xs| == 1 then Escaped(xs[0])
    else Joined(xs[..|xs| - 1]) + [' '] + Escaped(xs[|xs| - 1])
  }

  /** The summed lengths of the arguments (`cnt += strlen(argv[i])`). */
  function TotalLength(xs: seq<seq<char>>): nat
  {
    if xs == [] then 0 else TotalLength(xs[..|xs| - 1]) + |xs[|xs| - 1]|
  }

  /** The summed space counts of the arguments. */
  function TotalSpaces(xs: seq<seq<char>>): nat
  {
    if xs == [] then 0 else TotalSpaces(xs[..|xs| - 1]) + Spaces(xs[|xs| - 1])
  }

  /** The joined line is as long as the arguments, plus one for each space
      inside them, plus one separator between neighbours. */
  lemma {:induction false} JoinedLength(xs: seq<seq<char>>)
    ensures |Joined(xs)| == TotalLength(xs) + TotalSpaces(xs) + (if xs == [] then 0 else |xs| - 1)
  {
    if xs != [] {
      var init := xs[..|xs| - 1];
      JoinedLength(init);
      EscapedLength(xs[|xs| - 1]);
      if |xs| == 1 {
        assert init == [];
      }
    }
  }

  /** A prefix of the arguments, with the separator that follows it when
      more arguments come, is no longer than the whole line. */
  lemma {:induction false} JoinedPrefix(xs: seq<seq<char>>, k: nat)
    requires k <= |xs|
    ensures |Joined(xs[..k])| + (if 0 < k < |xs| then 1 else 0) <= |Joined(xs)|
    decreases |xs| - k
  {
    if k < |xs| {
      JoinedPrefix(xs, k + 1);
      assert xs[..k + 1][..k] == xs[..k];
    } else {
      assert xs[..k] == xs;
    }
  }

  /** The bytes `argstr` writes: the line and its NUL. */
  function NeededBytes(argv: seq<seq<char>>): nat
  {
    |Joined(Args(argv))| + 1
  }

  /** The loop summing the arguments' lengths. */
  method SumLengths(argv: seq<seq<char>>) returns (total: nat)
    requires |argv| >= 1
    ensures total == TotalLength(Args(argv))
  {
    total := 0;
    var i := 1;
    while i < |argv|
      invariant 1 <= i <= |argv|
      invariant total == TotalLength(argv[1..i])
    {
      assert argv[1..i + 1][..i - 1] == argv[1..i];
      total := total + |argv[i]|;
      i := i + 1;
    }
    assert argv[1..i] == Args(argv);
  }

  /** Escaping one more character of a extends its escaped prefix, within
      the escape of the whole of a. */
  lemma EscapedPrefix(a: seq<char>, c: int)
    requires 0 <= c < |a|
    ensures Escaped(a[..c + 1]) == Escaped(a[..c]) + Escape(a[c])
    ensures |Escaped(a[..c + 1])| <= |Escaped(a)|
  {
    assert a[..c + 1][..c] == a[..c];
    EscapedConcat(a[..c + 1], a[c + 1..]);
    assert a[..c + 1] + a[c + 1..] == a;
  }

  /** The body of the inner loop of `argstr`: one character written at j
      as `Escape` says. */
  method WriteChar(buf: array<char>, j0: nat, ch: char) returns (j: nat)
    requires j0 + |Escape(ch)| <= buf.Length
    modifies buf
    ensures j == j0 + |Escape(ch)| && buf[..j] == old(buf[..j0]) + Escape(ch)
  {
    j := j0;
    if ch == '\\' {
      buf[j] := '/';
      j := j + 1;
    } else if ch == ' ' {
      buf[j] := '@';
      buf[j + 1] := '@';
      j := j + 2;
    } else {
      buf[j] := ch;
      j := j + 1;
    }
  }

  /** The inner loop of `argstr`: argument a escaped into buf from j0. */
  method WriteEscaped(buf: array<char>, j0: nat, a: seq<char>) returns (j: nat)
    requires j0 + |Escaped(a)| <= buf.Length
    modifies buf
    ensures j == j0 + |Escaped(a)| && buf[..j] == old(buf[..j0]) + Escaped(a)
  {
    ghost var before := buf[..j0];
    ghost var w: seq<char> := [];
    assert a[..0] == [];
    j := j0;
    var c := 0;
    while c < |a|
      invariant 0 <= c <= |a|
      invariant w == Escaped(a[..c]) && |w| <= |Escaped(a)|
      invariant j == j0 + |w| && buf[..j] == before + w
    {
      EscapedPrefix(a, c);
      ghost var w' := w + Escape(a[c]);
      assert |w'| <= |Escaped(a)|;
      j := WriteChar(buf, j, a[c]);
      assert buf[..j] == before + w';
      w := w';
      c := c + 1;
    }
    assert a[..c] == a;
  }

  /** One pass of the outer loop of `argstr`: argument a escaped into buf
      from j0, followed by a space when another argument comes. */
  method WriteArg(buf: array<char>, j0: nat, a: seq<char>, sep: bool) returns (j: nat)
    requires j0 + |Escaped(a)| + (if sep then 1 else 0) <= buf.Length
    modifies buf
    ensures j == j0 + |Escaped(a)| + (if sep then 1 else 0)
    ensures buf[..j] == old(buf[..j0]) + Escaped(a) + (if sep then [' '] else [])
  {
    j := WriteEscaped(buf, j0, a);
    if sep {
      buf[j] := ' ';
      j := j + 1;
    }
  }

  /** The writing loops of `argstr` into a buffer of cnt characters: each
      argument escaped character by character, a space after every
      argument but the last, then the NUL. */
  method JoinArgs(argv: seq<seq<char>>, cnt: nat) returns (s: seq<char>)
    requires |argv| >= 1
    requires NeededBytes(argv) <= cnt
    ensures s == Joined(Args(argv))
  {
    var buf := new char[cnt];
    var j: nat := 0;
    var i := 1;
    while i < |argv|
      invariant 1 <= i <= |argv|
      invariant j == |Written(argv, i)| && j <= |Joined(Args(argv))|
      invariant buf[..j] == Written(argv, i)
    {
      j := AppendArg(buf, argv, i, j);
      i := i + 1;
    }
    assert argv[1..i] == Args(argv);
    buf[j] := '\0';
    s := buf[..j];
  }

  /** What the outer loop of `argstr` has written before argument i: the
      earlier arguments joined, and their trailing space when more come. */
  ghost function Written(argv: seq<seq<char>>, i: int): seq<char>
    requires 1 <= i <= |argv|
  {
    Joined(argv[1..i]) + (if 1 < i < |argv| then [' '] else [])
  }

  /** One pass of the outer loop of `argstr` extends what is written by
      argument i. */
  method AppendArg(buf: array<char>, argv: seq<seq<char>>, i: int, j0: nat) returns (j: nat)
    requires 1 <= i < |argv| && |Joined(Args(argv))| < buf.Length
    requires j0 == |Written(argv, i)| && j0 <= |Joined(Args(argv))| && buf[..j0] == Written(argv, i)
    modifies buf
    ensures j == |Written(argv, i + 1)| && j <= |Joined(Args(argv))|
    ensures buf[..j] == Written(argv, i + 1)
  {
    var sep := i < |argv| - 1;
    JoinStep(argv, i);
    j := WriteArg(buf, j0, argv[i], sep);
  }

  /** Appending argument i to the line of arguments 1 .. i - 1, and the
      room that takes within the whole line. */
  lemma JoinStep(argv: seq<seq<char>>, i: int)
    requires 1 <= i < |argv|
    ensures Joined(argv[1..i + 1]) == Joined(argv[1..i]) + (if i > 1 then [' '] else []) + Escaped(argv[i])
    ensures |Joined(argv[1..i + 1])| + (if i < |argv| - 1 then 1 else 0) <= |Joined(Args(argv))|
  {
    var ys := argv[1..i + 1];
    assert ys[..|ys| - 1] == argv[1..i] && ys[|ys| - 1] == argv[i];
    if i == 1 {
      assert ys == [argv[1]] && argv[1..i] == [];
    }
    var xs := Args(argv);
    assert xs[..i] == ys;
    JoinedPrefix(xs, i);
  }


  /** `argstr` as written: the buffer holds 100 characters more than the
      arguments, so the spaces inside the arguments and the separators
      between them must stay under 100 for the writes to stay in bounds. */
  method ArgStr(argv: seq<seq<char>>) returns (s: seq<char>)
    requires |argv| >= 1 && forall i :: 0 <= i < |argv| ==> IsCString(argv[i])
    requires TotalSpaces(Args(argv)) + (|argv| - 2) < 100
    ensures s == Joined(Args(argv))
  {
    var total := SumLengths(argv);
    var cnt := 100 + total;
    JoinedLength(Args(argv));
    s := JoinArgs(argv, cnt);
  }

  /** The allocation `argstr` makes: 100 plus the arguments' lengths. */
  function AllocatedAsWritten(argv: seq<seq<char>>): nat
  {
    100 + TotalLength(Args(argv))
  }

  /** Every character of s is a space. */
  lemma {:induction false} AllSpaces(s: seq<char>)
    requires forall k :: 0 <= k < |s| ==> s[k] == ' '
    ensures Spaces(s) == |s|
  {
    if s != [] {
      AllSpaces(s[..|s| - 1]);
    }
  }

  /** One argument of 100 spaces needs 201 bytes where `argstr` allocates
      200: the last write, of the NUL, falls past the buffer. */
  lemma ArgStrOverflow(prog: seq<char>, arg: seq<char>)
    requires |arg| == 100 && forall k :: 0 <= k < |arg| ==> arg[k] == ' '
    ensures NeededBytes([prog, arg]) == 201
    ensures AllocatedAsWritten([prog, arg]) == 200
  {
    var xs := Args([prog, arg]);
    assert xs == [arg];
    AllSpaces(arg);
    JoinedLength(xs);
    assert xs[..0] == [];
  }

  /** A buffer size that always suffices: two characters per argument
      character, one per separator, and the NUL. */
  function SafeAllocation(argv: seq<seq<char>>): (cnt: nat)
    requires |argv| >= 1
    ensures NeededBytes(argv) <= cnt
  {
    JoinedLength(Args(argv));
    SpacesBound(Args(argv));
    2 * TotalLength(Args(argv)) + |argv|
  }

  /** No argument has more spaces than characters. */
  lemma {:induction false} SpacesBound(xs: seq<seq<char>>)
    ensures TotalSpaces(xs) <= TotalLength(xs)
  {
    if xs != [] {
      SpacesBound(xs[..|xs| - 1]);
      SpacesAtMostLength(xs[|xs| - 1]);
    }
  }

  /** A string has no more spaces than characters. */
  lemma {:induction false} SpacesAtMostLength(a: seq<char>)
    ensures Spaces(a) <= |a|
  {
    if a != [] {
      SpacesAtMostLength(a[..|a| - 1]);
    }
  }

  /** `argstr` with the buffer sized by `SafeAllocation`: in bounds for
      every argument list. */
  method ArgStrSafe(argv: seq<seq<char>>) returns (s: seq<char>)
    requires |argv| >= 1 && forall i :: 0 <= i < |argv| ==> IsCString(argv[i])
    ensures s == Joined(Args(argv))
  {
    var total := SumLengths(argv);
    var cnt := 2 * total + |argv|;
    assert cnt == SafeAllocation(argv);
    s := JoinArgs(argv, cnt);
  }

  // ---------------------------------------------------------------------
  // The command line
  // ---------------------------------------------------------------------

  /** The command `main` formats, "%s\bin\sh %s/lib/neuron.sh %s %s" with
      the home directory, its slash form twice and the arguments; it fits
      the buffer of strlen(args) + 3 * strlen(nh) + 200 characters. */
  function LaunchCommand(nrnhome: seq<char>, args: seq<char>): (cmd: seq<char>)
    ensures |cmd| + 1 <= |args| + 3 * |ForwardSlashes(nrnhome)| + 200
    ensures |nrnhome| <= |cmd| && cmd[..|nrnhome|] == nrnhome
  {
    var nh := ForwardSlashes(nrnhome);
    nrnhome + "\\bin\\sh " + nh + "/lib/neuron.sh " + nh + " " + args
  }
}
