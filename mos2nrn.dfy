/** The mos2nrn helper (src/uxnrnbbs/mos2nrn.cpp): it classifies its one
    argument as a zipped model (a file starting with "PK") or a hoc file
    and builds the xterm command for it, and offers `back2forward` into a
    static 256-character buffer and `basefile`, the last component of a
    path. Opening and reading the file, the temporary directory name and
    running the command are OS calls: their results are parameters. */
module Mos2nrn {
  import opened CText
  import opened Common

  /** The characters `basefile` treats as ending a directory part. */
  const Separators: set<char> := {'\\', ':', '/'}

  // ---------------------------------------------------------------------
  // back2forward
  // ---------------------------------------------------------------------

  /** `back2forward`: the string is copied into the static buffer
      `forward` (256 characters, so it must be shorter than that) and its
      backslashes are made slashes in place; the buffer after the NUL is
      untouched. */
  method Back2Forward(back: seq<char>, forward: array<char>)
    requires forward.Length == 256 && IsCString(back) && |back| < 256
    modifies forward
    ensures forward[..|back|] == ForwardSlashes(back) && forward[|back|] == '\0'
    ensures forward[|back| + 1..] == old(forward[|back| + 1..])
  {
    StrCpy(forward, back);
    ForwardInPlace(forward, |back|);
  }

  // ---------------------------------------------------------------------
  // basefile
  // ---------------------------------------------------------------------

  /** `basefile`: the index where the returned suffix starts, found by
      scanning back from the last character to the first separator. The
      suffix holds no separator, and it is either the whole path or starts
      just after a separator. */
  method Basefile(path: seq<char>) returns (start: nat)
    ensures start <= |path|
    ensures forall t :: start <= t < |path| ==> path[t] !in Separators
    ensures start == 0 || path[start - 1] in Separators
    ensures start == LastIn(path, Separators) + 1
  {
    var cp := |path| - 1;
    while cp >= 0
      invariant -1 <= cp < |path|
      invariant forall t :: cp < t < |path| ==> path[t] !in Separators
    {
      if path[cp] in Separators {
        LastInUnique(path, Separators, cp);
        return cp + 1;
      }
      cp := cp - 1;
    }
    LastInUnique(path, Separators, -1);
    return 0;
  }

  /** The base name of a directory, a separator and a name without one is
      that name; a path ending in a separator has an empty base name. */
  lemma BasefileOfJoin(dir: seq<char>, sep: char, name: seq<char>)
    requires sep in Separators && forall t :: 0 <= t < |name| ==> name[t] !in Separators
    ensures var p := dir + [sep] + name; (p[LastIn(p, Separators) + 1..] == name)
    ensures LastIn(dir + [sep], Separators) + 1 == |dir + [sep]|
  {
    var p := dir + [sep] + name;
    LastInAppend(dir, sep, name, Separators);
    assert p[|dir| + 1..] == name;
    LastInAppend(dir, sep, [], Separators);
    assert dir + [sep] + [] == dir + [sep];
  }

  // ---------------------------------------------------------------------
  // main
  // ---------------------------------------------------------------------

  /** What `main` does: print the usage message, fail to open the file
      (both exit 1), or run the zip or the hoc command (exit 0). */
  datatype Outcome = Usage | CannotOpen | Zip(cmd: seq<char>) | Hoc(cmd: seq<char>)

  /** The exit status of each outcome. */
  function ExitStatus(o: Outcome): int
  {
    if o.Usage? || o.CannotOpen? then 1 else 0
  }

  /** The first five characters of `buf` after `fread(buf, 1, 5, f)`: the
      file's first bytes, and for a shorter file what `buf` held before. */
  function ReadHead(file: seq<char>, stale: seq<char>): (head: seq<char>)
    requires |stale| == 5
    ensures |head| == 5
    ensures forall t :: 0 <= t < 5 ==> head[t] == if t < |file| then file[t] else stale[t]
  {
    var n := if |file| < 5 then |file| else 5;
    file[..n] + stale[n..]
  }

  /** `strncmp(buf, "PK", 2) == 0`. */
  predicate IsZip(head: seq<char>)
    requires |head| >= 2
  {
    head[0] == 'P' && head[1] == 'K'
  }

  /** `main(argc, argv)`: `file` is the file's contents, None when it
      cannot be opened; `stale` is the uninitialised buffer; `binDir` is
      NEURON_BIN_DIR and `dname` the temporary directory name `getdname`
      makes. */
  function Main(argv: seq<seq<char>>, file: Option<seq<char>>, stale: seq<char>,
                binDir: seq<char>, dname: seq<char>): (o: Outcome)
    requires |stale| == 5
    ensures o == Usage <==> |argv| != 2
    ensures o == CannotOpen <==> |argv| == 2 && file.None?
    ensures o.Zip? <==> |argv| == 2 && file.Some? && IsZip(ReadHead(file.value, stale))
    ensures o.Zip? ==> o.cmd == "xterm -sb -e " + binDir + "/mos2nrn2.sh " + argv[1] + " " + dname + " 0"
    ensures o.Hoc? ==> o.cmd == "xterm -sb -e " + binDir + "/nrniv " + argv[1] + " -"
    ensures ExitStatus(o) == 0 <==> o.Zip? || o.Hoc?
  {
    if |argv| != 2 then Usage
    else if file.None? then CannotOpen
    else if IsZip(ReadHead(file.value, stale))
    then Zip("xterm -sb -e " + binDir + "/mos2nrn2.sh " + argv[1] + " " + dname + " 0")
    else Hoc("xterm -sb -e " + binDir + "/nrniv " + argv[1] + " -")
  }

  /** A file that starts with "PK" is taken for a zip and any other file
      of two or more characters for hoc, whatever the buffer held before. */
  lemma ClassifiedByContents(argv: seq<seq<char>>, file: seq<char>, stale: seq<char>,
                             binDir: seq<char>, dname: seq<char>)
    requires |argv| == 2 && |stale| == 5 && |file| >= 2
    ensures Main(argv, Some(file), stale, binDir, dname).Zip? <==> file[..2] == "PK"
    ensures Main(argv, Some(file), stale, binDir, dname).Hoc? <==> file[..2] != "PK"
  {
    var head := ReadHead(file, stale);
    assert head[0] == file[0] && head[1] == file[1];
    assert file[..2] == "PK" <==> file[0] == 'P' && file[1] == 'K';
  }
}
