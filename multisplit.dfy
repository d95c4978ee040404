/**
  Bookkeeping of multisplit: the registry of split points per cell root, the
  backbone-relation encoding exchanged between hosts, the recursive marking
  of the pieces of one reduced tree, and the ReducedTree maps that gather
  matrix pieces into one 4n buffer. Nodes, sections and the pointers the
  maps hold are integer handles.
 */
module MultiSplit {
  import opened Common

  /*-------------------------------------------------------------------------
    Registration: nrnmpi_multisplit.
   -------------------------------------------------------------------------*/

  /** A MultiSplit record: up to two split nodes of one cell with their sids. */
  datatype Record = Record(nd0: int, nd1: Option<int>, sid0: int, sid1: int,
                           backboneStyle: int, rthost: int, backIndex: int)

  datatype RegOutcome = Registered | ExchangeSetup | RegError(msg: string)

  const StyleMismatchMsg := "earlier call for this cell did not have a backbone style = 2"
  const SameSidMsg := "two sid = %d at same point on tree rooted at"

  /** The registry state: the root-to-record table and the record list. */
  datatype Registry = Registry(table: map<int, nat>, list: seq<Record>)

  /** The table indexes the list one-to-one. */
  predicate RegistryValid(r: Registry) {
    && (forall root :: root in r.table ==> r.table[root] < |r.list|)
    && (forall a, b :: a in r.table && b in r.table && a != b ==> r.table[a] != r.table[b])
    && |r.table.Keys| == |r.list|
  }

  /**
    One call nrnmpi_multisplit(x, sid, style) at node `nd` of the cell rooted at
    `root`. A negative sid performs the exchange setup instead. On a second
    registration the record is updated before the same-sid check raises.
   */
  function Register(reg: Registry, root: int, nd: int, sid: int, style: int): (Registry, RegOutcome)
    requires RegistryValid(reg)
  {
    if sid < 0 then (reg, ExchangeSetup)
    else if root in reg.table then
      var k := reg.table[root];
      var ms := reg.list[k];
      if style == 2 && ms.backboneStyle != 2 then (reg, RegError(StyleMismatchMsg))
      else
        var ms1 := if style == 1 then ms.(backboneStyle := 1) else ms;
        var ms2 := ms1.(nd1 := Some(nd), sid1 := sid);
        var reg2 := reg.(list := reg.list[k := ms2]);
        if ms2.sid1 == ms2.sid0 then (reg2, RegError(SameSidMsg)) else (reg2, Registered)
    else
      var ms := Record(nd, None, sid, -1, style, -1, -1);
      (Registry(reg.table[root := |reg.list|], reg.list + [ms]), Registered)
  }

  /** Registration keeps the table and the list in one-to-one correspondence. */
  lemma RegisterValid(reg: Registry, root: int, nd: int, sid: int, style: int)
    requires RegistryValid(reg)
    ensures RegistryValid(Register(reg, root, nd, sid, style).0)
  {
    if sid >= 0 && root !in reg.table {
      assert reg.table[root := |reg.list|].Keys == reg.table.Keys + {root};
    }
  }

  /** The first registration of a root creates a fresh single-sid record at the end of the list. */
  lemma FirstRegistration(reg: Registry, root: int, nd: int, sid: int, style: int)
    requires RegistryValid(reg) && sid >= 0 && root !in reg.table
    ensures var (reg2, out) := Register(reg, root, nd, sid, style);
            && out == Registered
            && reg2.table == reg.table[root := |reg.list|]
            && |reg2.list| == |reg.list| + 1
            && reg2.list[..|reg.list|] == reg.list
            && reg2.list[|reg.list|] == Record(nd, None, sid, -1, style, -1, -1)
  {
  }

  /**
    A second or later registration of a root fills, or overwrites, nd[1] and
    sid[1] of its record, and style 1 also sets the record's style; it raises
    only when the sid repeats the first one (after the update) or when style
    2 is asked for a record that is not style 2 (before any update).
   */
  lemma SecondRegistration(reg: Registry, root: int, nd: int, sid: int, style: int)
    requires RegistryValid(reg) && sid >= 0 && root in reg.table
    ensures var (reg2, out) := Register(reg, root, nd, sid, style);
            var k := reg.table[root];
            var ms := reg.list[k];
            && reg2.table == reg.table
            && (style == 2 && ms.backboneStyle != 2 ==> out == RegError(StyleMismatchMsg) && reg2 == reg)
            && (!(style == 2 && ms.backboneStyle != 2) ==>
                  && |reg2.list| == |reg.list|
                  && (forall i :: 0 <= i < |reg.list| && i != k ==> reg2.list[i] == reg.list[i])
                  && reg2.list[k].nd1 == Some(nd) && reg2.list[k].sid1 == sid
                  && reg2.list[k].nd0 == ms.nd0 && reg2.list[k].sid0 == ms.sid0
                  && reg2.list[k].backboneStyle == (if style == 1 then 1 else ms.backboneStyle)
                  && (out == RegError(SameSidMsg) <==> sid == ms.sid0)
                  && (out == Registered <==> sid != ms.sid0))
  {
  }

  /** The registry object: a hash table from cell roots to records plus the list of records. */
  class Registrar {
    var table: map<int, nat>
    var list: seq<Record>

    ghost predicate Valid()
      reads this
    {
      RegistryValid(Registry(table, list))
    }

    constructor()
      ensures Valid() && table == map[] && list == []
    {
      table := map[];
      list := [];
    }

    method Multisplit(root: int, nd: int, sid: int, style: int) returns (out: RegOutcome)
      requires Valid()
      modifies this
      ensures Valid()
      ensures (Registry(table, list), out) == Register(Registry(old(table), old(list)), root, nd, sid, style)
    {
      RegisterValid(Registry(table, list), root, nd, sid, style);
      if sid < 0 {
        return ExchangeSetup;
      }
      if root in table {
        var k := table[root];
        var ms := list[k];
        if style == 2 {
          if ms.backboneStyle != 2 {
            return RegError(StyleMismatchMsg);
          }
        } else if style == 1 {
          ms := ms.(backboneStyle := 1);
        }
        ms := ms.(nd1 := Some(nd));
        ms := ms.(sid1 := sid);
        list := list[k := ms];
        if ms.sid1 == ms.sid0 {
          return RegError(SameSidMsg);
        }
        out := Registered;
      } else {
        var ms := Record(nd, None, sid, -1, style, -1, -1);
        table := table[root := |list|];
        list := list + [ms];
        out := Registered;
      }
    }
  }

  /*-------------------------------------------------------------------------
    bb_relation: 0 / 1 for backbone styles 0 / 1, and for style 2 the value
    2 for a single-sid piece or 3 + the other sid of a two-sid piece.
   -------------------------------------------------------------------------*/

  /** The sids of the local split points in list order (the sid[] vector of exchange_setup). */
  function Sids(list: seq<Record>): (r: seq<int>)
  {
    if list == [] then [] else RecordSids(list[0]) + Sids(list[1..])
  }

  /** The sids of one record: sid0, and sid1 when it has a second node. */
  function RecordSids(ms: Record): (r: seq<int>)
    ensures |r| == if ms.nd1.Some? then 2 else 1
  {
    if ms.nd1.Some? then [ms.sid0, ms.sid1] else [ms.sid0]
  }

  /** The bb_relation entries of one record. */
  function RecordRelations(ms: Record): (r: seq<int>)
    ensures |r| == if ms.nd1.Some? then 2 else 1
  {
    if ms.nd1.None? then [ms.backboneStyle]
    else if ms.backboneStyle == 2 then [ms.backboneStyle + 1 + ms.sid1, ms.backboneStyle + 1 + ms.sid0]
    else [ms.backboneStyle, ms.backboneStyle]
  }

  function Relations(list: seq<Record>): (r: seq<int>)
  {
    if list == [] then [] else RecordRelations(list[0]) + Relations(list[1..])
  }

  /** The partner sid a bb_relation value names, if any. */
  function Partner(bbr: int): Option<int> {
    if bbr > 2 then Some(bbr - 3) else None
  }

  /** Whether the value belongs to a backbone_style 2 piece. */
  predicate IsReducedTree(bbr: int) {
    bbr >= 2
  }

  /**
    Decoding a record's relations: a two-sid style-2 record names each sid as
    the other's partner, a single-sid style-2 record names no partner, and
    styles 0 and 1 keep their style and name no partner.
   */
  lemma RecordRelationsDecode(ms: Record)
    requires 0 <= ms.backboneStyle <= 2 && ms.sid0 >= 0 && ms.sid1 >= 0
    ensures var r := RecordRelations(ms);
            && (ms.backboneStyle == 2 && ms.nd1.Some? ==> Partner(r[0]) == Some(ms.sid1) && Partner(r[1]) == Some(ms.sid0))
            && (ms.backboneStyle == 2 && ms.nd1.None? ==> r == [2] && Partner(r[0]) == None)
            && (ms.backboneStyle < 2 ==> forall i :: 0 <= i < |r| ==> r[i] == ms.backboneStyle && Partner(r[i]) == None)
            && (forall i :: 0 <= i < |r| ==> (IsReducedTree(r[i]) <==> ms.backboneStyle == 2))
  {
  }

  lemma SidsAppend(a: seq<Record>, b: seq<Record>)
    ensures Sids(a + b) == Sids(a) + Sids(b)
    ensures Relations(a + b) == Relations(a) + Relations(b)
  {
    SidsOnlyAppend(a, b);
    RelationsAppend(a, b);
  }

  lemma {:induction false} SidsOnlyAppend(a: seq<Record>, b: seq<Record>)
    ensures Sids(a + b) == Sids(a) + Sids(b)
  {
    if a == [] {
      assert a + b == b;
    } else {
      var ab := a + b;
      assert ab[0] == a[0] && ab[1..] == a[1..] + b;
      assert Sids(ab) == RecordSids(a[0]) + Sids(a[1..] + b);
      SidsOnlyAppend(a[1..], b);
    }
  }

  lemma {:induction false} RelationsAppend(a: seq<Record>, b: seq<Record>)
    ensures Relations(a + b) == Relations(a) + Relations(b)
  {
    if a == [] {
      assert a + b == b;
    } else {
      var ab := a + b;
      assert ab[0] == a[0] && ab[1..] == a[1..] + b;
      RelationsAppend(a[1..], b);
    }
  }

  /**
    The loop of exchange_setup that turns the record list into the parallel
    sid and bb_relation vectors.
   */
  method ExchangeVectors(list: seq<Record>) returns (sid: array<int>, bbRelation: array<int>)
    ensures fresh(sid) && fresh(bbRelation)
    ensures sid[..] == Sids(list) && bbRelation[..] == Relations(list)
  {
    var n := |Sids(list)|;
    sid := new int[n];
    bbRelation := new int[n];
    var i := 0;
    var ii := 0;
    while ii < |list|
      invariant 0 <= ii <= |list|
      invariant i == |Sids(list[..ii])| <= n
      invariant sid[..i] == Sids(list[..ii]) && bbRelation[..i] == Relations(list[..ii])
    {
      SplitStep(list, ii);
      i := PutRecord(list[ii], sid, bbRelation, i);
      ii := ii + 1;
    }
    assert list[..|list|] == list;
  }

  /** One iteration of the loop: the entries of one record at position i. */
  method PutRecord(ms: Record, sid: array<int>, bbRelation: array<int>, i0: nat) returns (i: nat)
    requires sid != bbRelation && sid.Length == bbRelation.Length
    requires i0 + |Sids([ms])| <= sid.Length
    modifies sid, bbRelation
    ensures i == i0 + |Sids([ms])|
    ensures sid[..i] == old(sid[..i0]) + Sids([ms])
    ensures bbRelation[..i] == old(bbRelation[..i0]) + RecordRelations(ms)
  {
    assert [ms][1..] == [];
    i := i0;
    sid[i] := ms.sid0;
    bbRelation[i] := ms.backboneStyle;
    i := i + 1;
    if ms.nd1.Some? {
      sid[i] := ms.sid1;
      bbRelation[i] := ms.backboneStyle;
      if ms.backboneStyle == 2 {
        bbRelation[i - 1] := bbRelation[i - 1] + 1 + sid[i];
        bbRelation[i] := bbRelation[i] + 1 + sid[i - 1];
      }
      i := i + 1;
    }
    assert sid[..i] == sid[..i0] + sid[i0..i];
    assert bbRelation[..i] == bbRelation[..i0] + bbRelation[i0..i];
  }

  /** Moving one record from the unprocessed suffix to the processed prefix. */
  lemma SplitStep(list: seq<Record>, ii: nat)
    requires ii < |list|
    ensures Sids(list[..ii + 1]) == Sids(list[..ii]) + Sids([list[ii]])
    ensures Relations(list[..ii + 1]) == Relations(list[..ii]) + RecordRelations(list[ii])
    ensures |Sids(list[..ii + 1])| <= |Sids(list)|
  {
    assert list[..ii + 1] == list[..ii] + [list[ii]];
    SidsAppend(list[..ii], [list[ii]]);
    assert Relations([list[ii]]) == RecordRelations(list[ii]) by {
      assert [list[ii]][1..] == [];
    }
    assert list == list[..ii + 1] + list[ii + 1..];
    SidsAppend(list[..ii + 1], list[ii + 1..]);
  }

  /*-------------------------------------------------------------------------
    reduced_mark: mark every piece of one reduced tree with m.
   -------------------------------------------------------------------------*/

  /** Number of unmarked (-1) entries. */
  function Unmarked(s: seq<int>): nat {
    if s == [] then 0 else (if s[0] == -1 then 1 else 0) + Unmarked(s[1..])
  }

  /** new only turns -1 entries into m >= 0. */
  predicate OnlyMarks(old_: seq<int>, new_: seq<int>, m: int) {
    |old_| == |new_| && forall k :: 0 <= k < |old_| ==> new_[k] == old_[k] || (old_[k] == -1 && new_[k] == m)
  }

  lemma {:induction false} UnmarkedMonotone(a: seq<int>, b: seq<int>, m: int)
    requires m >= 0 && OnlyMarks(a, b, m)
    ensures Unmarked(b) <= Unmarked(a)
    ensures (exists k :: 0 <= k < |a| && a[k] == -1 && b[k] != -1) ==> Unmarked(b) < Unmarked(a)
  {
    if a != [] {
      UnmarkedMonotone(a[1..], b[1..], m);
      if exists k :: 0 <= k < |a| && a[k] == -1 && b[k] != -1 {
        var k :| 0 <= k < |a| && a[k] == -1 && b[k] != -1;
        if k > 0 {
          assert a[1..][k - 1] == -1 && b[1..][k - 1] != -1;
        }
      }
    }
  }

  /**
    v[i] is the partner sid named by an entry unmarked in marks whose own
    sid comes earlier in v: reduced_mark recurses from such an entry into it.
   */
  ghost predicate Justified(v: seq<int>, i: nat, marks: seq<int>, allsid: seq<int>, allBbRelation: seq<int>)
    requires i < |v| && |allsid| == |marks| && |allBbRelation| == |marks|
  {
    exists k, p :: 0 <= k < |marks| && 0 <= p < i && marks[k] == -1 && allBbRelation[k] > 2 && allBbRelation[k] - 3 == v[i] && allsid[k] == v[p]
  }
  /** v starts at sid, and every later sid is the partner of an earlier one. */
  ghost predicate Derivation(v: seq<int>, sid: int, marks: seq<int>, allsid: seq<int>, allBbRelation: seq<int>)
    requires |allsid| == |marks| && |allBbRelation| == |marks|
  {
    |v| >= 1 && v[0] == sid && forall i :: 0 < i < |v| ==> Justified(v, i, marks, allsid, allBbRelation)
  }
  /** c holds the partner of every entry unmarked in marks whose sid is in c. */
  ghost predicate PartnerClosed(c: set<int>, marks: seq<int>, allsid: seq<int>, allBbRelation: seq<int>)
    requires |allsid| == |marks| && |allBbRelation| == |marks|
  {
    forall k :: 0 <= k < |marks| && marks[k] == -1 && allsid[k] in c && allBbRelation[k] > 2 ==> allBbRelation[k] - 3 in c
  }
  /**
    A derivation stays inside every partner-closed set holding its start, so
    a derivation whose sids form a partner-closed set lists exactly the least
    such set: the partner closure of sid.
   */
  lemma {:induction false} DerivationLeast(v: seq<int>, sid: int, marks: seq<int>, allsid: seq<int>,
                                           allBbRelation: seq<int>, c: set<int>)
    requires |allsid| == |marks| && |allBbRelation| == |marks|
    requires Derivation(v, sid, marks, allsid, allBbRelation)
    requires sid in c && PartnerClosed(c, marks, allsid, allBbRelation)
    ensures forall i :: 0 <= i < |v| ==> v[i] in c
  {
    var last := |v| - 1;
    if last > 0 {
      var w := v[..last];
      forall i | 0 < i < |w| ensures Justified(w, i, marks, allsid, allBbRelation) {
        assert Justified(v, i, marks, allsid, allBbRelation);
        var k, p :| 0 <= k < |marks| && 0 <= p < i && marks[k] == -1 && allBbRelation[k] > 2 && allBbRelation[k] - 3 == v[i] && allsid[k] == v[p];
        assert w[p] == v[p];
      }
      DerivationLeast(w, sid, marks, allsid, allBbRelation, c);
      assert Justified(v, last, marks, allsid, allBbRelation);
      var k, p :| 0 <= k < |marks| && 0 <= p < last && marks[k] == -1 && allBbRelation[k] > 2 && allBbRelation[k] - 3 == v[last] && allsid[k] == v[p];
      assert w[p] in c;
    }
  }
  /** Appending the derivation of a partner, taken once more entries are marked, keeps a derivation. */
  lemma DerivationAppend(v1: seq<int>, sid: int, v2: seq<int>, sid2: int, start: seq<int>, before: seq<int>, m: int,
                         allsid: seq<int>, allBbRelation: seq<int>)
    requires |allsid| == |start| && |allBbRelation| == |start| && m >= 0
    requires OnlyMarks(start, before, m)
    requires Derivation(v1, sid, start, allsid, allBbRelation)
    requires Derivation(v2, sid2, before, allsid, allBbRelation)
    requires Justified(v1 + [sid2], |v1|, start, allsid, allBbRelation)
    ensures Derivation(v1 + v2, sid, start, allsid, allBbRelation)
  {
    var v := v1 + v2;
    forall i | 0 < i < |v| ensures Justified(v, i, start, allsid, allBbRelation) {
      if i < |v1| {
        assert Justified(v1, i, start, allsid, allBbRelation);
        var k, p :| 0 <= k < |start| && 0 <= p < i && start[k] == -1 && allBbRelation[k] > 2 && allBbRelation[k] - 3 == v1[i] && allsid[k] == v1[p];
        assert v[p] == v1[p] && v[i] == v1[i];
      } else if i == |v1| {
        var k, p :| 0 <= k < |start| && 0 <= p < i && start[k] == -1 && allBbRelation[k] > 2 && allBbRelation[k] - 3 == sid2 && allsid[k] == (v1 + [sid2])[p];
        assert v[p] == v1[p] && v[i] == sid2;
      } else {
        var j := i - |v1|;
        assert Justified(v2, j, before, allsid, allBbRelation);
        var k, p :| 0 <= k < |before| && 0 <= p < j && before[k] == -1 && allBbRelation[k] > 2 && allBbRelation[k] - 3 == v2[j] && allsid[k] == v2[p];
        assert v[p + |v1|] == v2[p] && v[i] == v2[j] && start[k] == -1;
      }
    }
  }

  /**
    reduced_mark(m, sid, ...): mark with m every entry of sid `sid`, and
    recursively every entry of the partner sid named by a newly marked entry.
    visited lists the sids it is called for: a derivation from sid whose sids
    form a partner-closed set, so by DerivationLeast the partner closure of
    sid. The entries that change are exactly the unmarked ones of those sids.
   */
  method ReducedMark(m: int, sid: int, mark: array<int>, allsid: seq<int>, allBbRelation: seq<int>)
    returns (ghost visited: seq<int>)
    requires m >= 0
    requires |allsid| == mark.Length && |allBbRelation| == mark.Length
    modifies mark
    ensures OnlyMarks(old(mark[..]), mark[..], m)
    ensures Derivation(visited, sid, old(mark[..]), allsid, allBbRelation)
    ensures PartnerClosed(set t | t in visited, old(mark[..]), allsid, allBbRelation)
    ensures forall k :: 0 <= k < mark.Length ==> (mark[k] != old(mark[k]) <==> old(mark[k]) == -1 && allsid[k] in visited)
    decreases Unmarked(mark[..])
  {
    var nt := mark.Length;
    ghost var start := mark[..];
    visited := [sid];
    for i := 0 to nt
      invariant OnlyMarks(start, mark[..], m)
      invariant Derivation(visited, sid, start, allsid, allBbRelation)
      invariant forall k :: 0 <= k < nt && mark[k] != start[k] ==> allsid[k] in visited
      invariant forall k :: 0 <= k < i && allsid[k] == sid ==> mark[k] != -1
      invariant forall k :: 0 <= k < nt && start[k] == -1 && mark[k] != -1 && allBbRelation[k] > 2 ==> allBbRelation[k] - 3 in visited
      invariant forall k :: 0 <= k < nt && allsid[k] in visited[1..] ==> mark[k] != -1
    {
      if mark[i] == -1 && allsid[i] == sid {
        mark[i] := m;
        if allBbRelation[i] > 2 {
          var sid2 := allBbRelation[i] - 3;
          ghost var before := mark[..];
          assert start[i] == -1 && before[i] != -1;
          UnmarkedMonotone(start, before, m);
          ghost var v2 := ReducedMark(m, sid2, mark, allsid, allBbRelation);
          assert Justified(visited + [sid2], |visited|, start, allsid, allBbRelation) by {
            assert (visited + [sid2])[0] == sid && (visited + [sid2])[|visited|] == sid2;
          }
          DerivationAppend(visited, sid, v2, sid2, start, before, m, allsid, allBbRelation);
          assert (visited + v2)[1..] == visited[1..] + v2;
          visited := visited + v2;
        }
      }
    }
    assert forall t :: t in visited ==> t == sid || t in visited[1..] by {
      assert visited == [sid] + visited[1..];
    }
  }

  lemma {:induction false} UnmarkedUpdate(s: seq<int>, i: nat, v: int)
    requires i < |s|
    ensures s[i] == -1 && v != -1 ==> Unmarked(s[i := v]) == Unmarked(s) - 1
    ensures s[i] != -1 && v == -1 ==> Unmarked(s[i := v]) == Unmarked(s) + 1
  {
    if i > 0 {
      assert s[i := v][1..] == s[1..][i - 1 := v];
      UnmarkedUpdate(s[1..], i - 1, v);
    } else {
      assert s[i := v][1..] == s[1..];
    }
  }

  lemma {:induction false} UnmarkedRange(s: seq<int>)
    ensures Unmarked(s) <= |s|
    ensures Unmarked(s) == |s| <==> forall k :: 0 <= k < |s| ==> s[k] == -1
    ensures Unmarked(s) == 0 <==> forall k :: 0 <= k < |s| ==> s[k] != -1
  {
    if s != [] {
      UnmarkedRange(s[1..]);
      assert forall k :: 1 <= k < |s| ==> s[k] == s[1..][k - 1];
    }
  }

  /*-------------------------------------------------------------------------
    ReducedTree: the matrix of one reduced tree and its exchange maps.
   -------------------------------------------------------------------------*/

  /** The null pointer among the integer handles the maps hold. */
  const Null := -1

  /** Every value is a distinct rank in 0..n-1. */
  predicate IsPermutation(order: seq<int>, n: nat) {
    && |order| == n
    && (forall x :: 0 <= x < n ==> 0 <= order[x] < n)
    && (forall x, y :: 0 <= x < y < n ==> order[x] != order[y])
  }

  /** The ranks table maps every sid to a rank of the tree. */
  predicate RanksIn(s2rt: map<int, int>, n: nat) {
    forall sid :: sid in s2rt ==> 0 <= s2rt[sid] < n
  }

  /**
    The receive-buffer cell a (sid1, sid2) piece is added into: RHS of rank i
    (sid2 < 0), D of rank i (sid2 == sid1), A of rank i (the parent of i is j)
    or B of rank j (the parent of j is i), where i and j are the ranks of the
    two sids. The four blocks are consecutive n-cells of one 4n buffer.
   */
  function RmapSlot(s2rt: map<int, int>, ip: seq<int>, n: nat, sid1: int, sid2: int): (r: Result<int>)
    requires RanksIn(s2rt, n) && |ip| == n
    ensures r.Ok? ==> 0 <= r.value < 4 * n
  {
    if sid1 !in s2rt then Err("s2rt->find(sid1, i)")
    else
      var i := s2rt[sid1];
      if sid2 < 0 then Ok(i)
      else if sid2 == sid1 then Ok(i + n)
      else if sid2 !in s2rt then Err("s2rt->find(sid2, j)")
      else
        var j := s2rt[sid2];
        if ip[i] == j then Ok(i + 2 * n)
        else if ip[j] == i then Ok(j + 3 * n)
        else Err("assert(0)")
  }

  /**
    Decoding a slot gives back what it was filled for: block (slot / n) says
    which of RHS, D, A, B, and slot % n is the rank the entry belongs to.
   */
  lemma RmapSlotDecode(s2rt: map<int, int>, ip: seq<int>, n: nat, sid1: int, sid2: int)
    requires RanksIn(s2rt, n) && |ip| == n && n > 0
    requires RmapSlot(s2rt, ip, n, sid1, sid2).Ok?
    ensures var slot := RmapSlot(s2rt, ip, n, sid1, sid2).value;
            var block, rank := slot / n, slot % n;
            && sid1 in s2rt
            && (block == 0 <==> sid2 < 0)
            && (block == 1 <==> sid2 >= 0 && sid2 == sid1)
            && (block == 0 || block == 1 ==> rank == s2rt[sid1])
            && (block == 2 ==> sid2 in s2rt && rank == s2rt[sid1] && ip[rank] == s2rt[sid2])
            && (block == 3 ==> sid2 in s2rt && rank == s2rt[sid2] && ip[rank] == s2rt[sid1])
  {
    var slot := RmapSlot(s2rt, ip, n, sid1, sid2).value;
    var i := s2rt[sid1];
    if sid2 < 0 {
      BlockOfSlot(0, i, n);
    } else if sid2 == sid1 {
      BlockOfSlot(1, i, n);
    } else {
      var j := s2rt[sid2];
      if ip[i] == j {
        BlockOfSlot(2, i, n);
      } else {
        BlockOfSlot(3, j, n);
      }
    }
  }

  /** Cell r of block b in a buffer of n-cell blocks. */
  lemma BlockOfSlot(b: int, r: int, n: int)
    requires 0 <= b <= 3 && 0 <= r < n
    ensures (b * n + r) / n == b && (b * n + r) % n == r
  {
    var x := b * n + r;
    var q, m := x / n, x % n;
    assert x == q * n + m;
    assert (b - q) * n == m - r;
    if b > q {
      MulAtLeast(b - q, n);
    } else if b < q {
      MulAtLeast(q - b, n);
    }
  }

  /** A positive multiple of n is at least n. */
  lemma {:induction false} MulAtLeast(d: int, n: int)
    requires d >= 1 && n > 0
    ensures d * n >= n
    decreases d
  {
    if d > 1 {
      MulAtLeast(d - 1, n);
      assert d * n == (d - 1) * n + n;
    }
  }

  /** The value gathered into buffer cell c by the first k receive-map entries. */
  function GatherCell(irmap: seq<int>, rmap: seq<int>, mem: seq<real>, c: int, k: nat): real
    requires k <= |irmap| && k <= |rmap|
    requires forall i :: 0 <= i < k ==> 0 <= rmap[i] < |mem|
  {
    if k == 0 then 0.0
    else GatherCell(irmap, rmap, mem, c, k - 1) + (if irmap[k - 1] == c then mem[rmap[k - 1]] else 0.0)
  }

  /** Sum of the values the first k receive-map entries point at. */
  function MappedTotal(rmap: seq<int>, mem: seq<real>, k: nat): real
    requires k <= |rmap| && forall i :: 0 <= i < k ==> 0 <= rmap[i] < |mem|
  {
    if k == 0 then 0.0 else MappedTotal(rmap, mem, k - 1) + mem[rmap[k - 1]]
  }

  /** Sum of cells 0..m-1 after k entries. */
  function CellsTotal(irmap: seq<int>, rmap: seq<int>, mem: seq<real>, m: nat, k: nat): real
    requires k <= |irmap| && k <= |rmap|
    requires forall i :: 0 <= i < k ==> 0 <= rmap[i] < |mem|
  {
    if m == 0 then 0.0 else CellsTotal(irmap, rmap, mem, m - 1, k) + GatherCell(irmap, rmap, mem, m - 1, k)
  }

  lemma {:induction false} CellsTotalStep(irmap: seq<int>, rmap: seq<int>, mem: seq<real>, m: nat, k: nat)
    requires k < |irmap| && k < |rmap|
    requires forall i :: 0 <= i <= k ==> 0 <= rmap[i] < |mem|
    ensures CellsTotal(irmap, rmap, mem, m, k + 1)
            == CellsTotal(irmap, rmap, mem, m, k) + (if 0 <= irmap[k] < m then mem[rmap[k]] else 0.0)
  {
    if m > 0 {
      CellsTotalStep(irmap, rmap, mem, m - 1, k);
    }
  }

  /** gather conserves the mapped values: the buffer's cells add up to the sum of everything mapped into it. */
  lemma {:induction false} GatherConserves(irmap: seq<int>, rmap: seq<int>, mem: seq<real>, n4: nat, k: nat)
    requires k <= |irmap| && k <= |rmap|
    requires forall i :: 0 <= i < k ==> 0 <= rmap[i] < |mem| && 0 <= irmap[i] < n4
    ensures CellsTotal(irmap, rmap, mem, n4, k) == MappedTotal(rmap, mem, k)
  {
    if k == 0 {
      ZeroCells(irmap, rmap, mem, n4);
    } else {
      GatherConserves(irmap, rmap, mem, n4, k - 1);
      CellsTotalStep(irmap, rmap, mem, n4, k - 1);
    }
  }

  lemma {:induction false} ZeroCells(irmap: seq<int>, rmap: seq<int>, mem: seq<real>, m: nat)
    ensures CellsTotal(irmap, rmap, mem, m, 0) == 0.0
  {
    if m > 0 {
      ZeroCells(irmap, rmap, mem, m - 1);
    }
  }

  /** reorder's test for a piece of reduced tree j that is a tree edge: its partner sid is larger. */
  predicate IsTreeEdge(j: int, mark: int, bbr: int, sid: int) {
    mark == j && bbr > 2 && sid < bbr - 3
  }

  /** The tree edges among the first upto pieces, in scan order, each as (sid, partner sid). */
  function TreeEdges(j: int, mark: seq<int>, allbbr: seq<int>, allsid: seq<int>, upto: nat): seq<(int, int)>
    requires upto <= |mark| && |allbbr| == |mark| && |allsid| == |mark|
  {
    if upto == 0 then []
    else
      var i := upto - 1;
      TreeEdges(j, mark, allbbr, allsid, i)
        + (if IsTreeEdge(j, mark[i], allbbr[i], allsid[i]) then [(allsid[i], allbbr[i] - 3)] else [])
  }

  /** The edges of a shorter scan are a prefix of those of a longer one. */
  lemma {:induction false} TreeEdgesPrefix(j: int, mark: seq<int>, allbbr: seq<int>, allsid: seq<int>, a: nat, b: nat)
    requires a <= b <= |mark| && |allbbr| == |mark| && |allsid| == |mark|
    ensures var ea, eb := TreeEdges(j, mark, allbbr, allsid, a), TreeEdges(j, mark, allbbr, allsid, b);
            |ea| <= |eb| && ea == eb[..|ea|]
    decreases b
  {
    if a < b {
      TreeEdgesPrefix(j, mark, allbbr, allsid, a, b - 1);
    }
  }

  /** The edges are exactly the (sid, partner sid) pairs of the pieces that are tree edges. */
  lemma {:induction false} TreeEdgesExact(j: int, mark: seq<int>, allbbr: seq<int>, allsid: seq<int>, upto: nat)
    requires upto <= |mark| && |allbbr| == |mark| && |allsid| == |mark|
    ensures forall e :: e in TreeEdges(j, mark, allbbr, allsid, upto) <==>
              exists i :: 0 <= i < upto && IsTreeEdge(j, mark[i], allbbr[i], allsid[i]) && e == (allsid[i], allbbr[i] - 3)
  {
    if upto > 0 {
      TreeEdgesExact(j, mark, allbbr, allsid, upto - 1);
    }
  }

  /** Both sids of every edge have a rank. */
  predicate EndsRanked(edges: seq<(int, int)>, s2rt: map<int, int>) {
    forall e :: 0 <= e < |edges| ==> edges[e].0 in s2rt && edges[e].1 in s2rt
  }

  /** Ranks a and b carry the numbers k and p, one each. */
  predicate ChildParent(order: seq<int>, a: int, b: int, k: int, p: int) {
    && 0 <= a < |order| && 0 <= b < |order|
    && ((order[a] == k && order[b] == p) || (order[b] == k && order[a] == p))
  }

  /** Ranks a and b are x and y, in either order. */
  predicate Joins(a: int, b: int, x: int, y: int) {
    (a == x && b == y) || (a == y && b == x)
  }

  /**
    Every numbered rank inv[k] but the root is joined by an edge (E1[e],
    E2[e]) to the rank numbered ipv[k], which comes earlier.
   */
  ghost predicate Linked(E1: seq<int>, E2: seq<int>, inv: seq<int>, ipv: seq<int>, ordered: int) {
    && |E1| == |E2| && |inv| == ordered && ordered <= |ipv|
    && forall k :: 1 <= k < ordered ==>
         0 <= ipv[k] < ordered && exists e :: 0 <= e < |E1| && Joins(E1[e], E2[e], inv[k], inv[ipv[k]])
  }

  /** Numbering one more rank through edge i, with parent ipv[ordered], keeps every rank linked. */
  lemma LinkedExtend(E1: seq<int>, E2: seq<int>, inv0: seq<int>, ip0: seq<int>, ordered: int,
                     inv: seq<int>, ip1: seq<int>, i: int)
    requires Linked(E1, E2, inv0, ip0, ordered) && ordered >= 1
    requires |inv| == ordered + 1 && inv[..ordered] == inv0
    requires |ip1| == |ip0| && ordered < |ip1| && forall k :: 0 <= k < ordered ==> ip1[k] == ip0[k]
    requires 0 <= ip1[ordered] < ordered && 0 <= i < |E1| && Joins(E1[i], E2[i], inv[ordered], inv[ip1[ordered]])
    ensures Linked(E1, E2, inv, ip1, ordered + 1)
  {
    forall k | 1 <= k < ordered + 1
      ensures 0 <= ip1[k] < ordered + 1 && exists e :: 0 <= e < |E1| && Joins(E1[e], E2[e], inv[k], inv[ip1[k]])
    {
      if k < ordered {
        var e :| 0 <= e < |E1| && Joins(E1[e], E2[e], inv0[k], inv0[ip0[k]]);
        assert inv[k] == inv0[k] && inv[ip1[k]] == inv0[ip0[k]];
      }
    }
  }

  /**
    Every number k but the root's is joined to its parent number ipv[k] by
    an edge: order gives the ranks of the edge's two sids those numbers.
   */
  ghost predicate TreeOrdered(order: seq<int>, edges: seq<(int, int)>, s2rt: map<int, int>, ipv: seq<int>)
    requires EndsRanked(edges, s2rt)
  {
    forall k :: 1 <= k < |order| && k < |ipv| ==> ParentEdge(order, edges, s2rt, k, ipv[k])
  }

  /** Some edge's two sids have ranks numbered k and p. */
  ghost predicate ParentEdge(order: seq<int>, edges: seq<(int, int)>, s2rt: map<int, int>, k: int, p: int)
    requires EndsRanked(edges, s2rt)
  {
    exists e :: 0 <= e < |edges| && ChildParent(order, s2rt[edges[e].0], s2rt[edges[e].1], k, p)
  }

  class ReducedTree {
    const n: nat
    const n2: nat
    const n4: nat
    const nmap: nat
    /** Parent rank of each rank; -1 at the root. */
    const ip: array<int>
    /** rhs, d, a and b as consecutive n-blocks of one 4n buffer. */
    const rhs: array<real>
    var smap: seq<int>
    var rmap: seq<int>
    var ismap: seq<int>
    var irmap: seq<int>
    var rmap2smapIndex: seq<int>
    /** sid to rank. */
    var s2rt: map<int, int>
    var nsmap: int
    var irfill: int
    var updateIx: seq<int>
    var updateRmap: seq<int>

    ghost predicate Valid()
      reads this
    {
      && n > 0 && nmap > 0 && n2 == 2 * n && n4 == 4 * n
      && ip.Length == n && rhs.Length == n4
      && |smap| == nmap && |rmap| == nmap && |ismap| == nmap && |irmap| == nmap && |rmap2smapIndex| == nmap
      && |updateIx| == 2 && |updateRmap| == 2
      && RanksIn(s2rt, n)
    }

    /** Offsets of the four blocks of the 4n buffer. */
    function D(k: int): int reads this { n + k }
    function A(k: int): int reads this { 2 * n + k }
    function B(k: int): int reads this { 3 * n + k }

    constructor(rank: int, mapsize: int)
      requires rank > 0 && mapsize > 0
      ensures Valid()
      ensures n == rank && nmap == mapsize && fresh(ip) && fresh(rhs)
      ensures smap == seq(nmap, _ => Null) && rmap == seq(nmap, _ => Null)
      ensures ismap == seq(nmap, _ => -1) && irmap == seq(nmap, _ => -1) && rmap2smapIndex == seq(nmap, _ => -1)
      ensures s2rt == map[] && nsmap == 0 && irfill == 0
      ensures updateIx == [-1, -1] && updateRmap == [-1, -1]
    {
      n := rank;
      ip := new int[rank];
      rhs := new real[4 * rank];
      n2 := 2 * rank;
      n4 := 4 * rank;
      nmap := mapsize;
      s2rt := map[];
      nsmap := 0;
      irfill := 0;
      updateIx := [-1, -1];
      updateRmap := [-1, -1];
      smap := seq(mapsize, _ => Null);
      ismap := seq(mapsize, _ => -1);
      rmap := seq(mapsize, _ => Null);
      irmap := seq(mapsize, _ => -1);
      rmap2smapIndex := seq(mapsize, _ => -1);
    }

    /**
      fillrmap: append one receive-map entry for the matrix element at handle
      pd, into the slot RmapSlot names, remembering the current send-map size.
     */
    method FillRmap(sid1: int, sid2: int, pd: int) returns (r: Result<()>)
      requires Valid() && 0 <= irfill < nmap
      modifies this
      ensures Valid()
      ensures var slot := RmapSlot(old(s2rt), ip[..], n, sid1, sid2);
              && (r.Ok? <==> slot.Ok?)
              && (slot.Ok? ==>
                    && irmap == old(irmap)[old(irfill) := slot.value]
                    && rmap == old(rmap)[old(irfill) := pd]
                    && rmap2smapIndex == old(rmap2smapIndex)[old(irfill) := old(nsmap)]
                    && irfill == old(irfill) + 1
                    && smap == old(smap) && ismap == old(ismap) && nsmap == old(nsmap)
                    && s2rt == old(s2rt) && updateIx == old(updateIx) && updateRmap == old(updateRmap))
    {
      if sid1 !in s2rt {
        return Err("s2rt->find(sid1, i)");
      }
      var i := s2rt[sid1];
      var j;
      if sid2 < 0 {
        j := i;
      } else if sid2 == sid1 {
        j := i + n;
      } else {
        if sid2 !in s2rt {
          return Err("s2rt->find(sid2, j)");
        }
        j := s2rt[sid2];
        if ip[i] == j {
          j := i + 2 * n;
        } else if ip[j] == i {
          j := j + 3 * n;
        } else {
          return Err("assert(0)");
        }
      }
      irmap := irmap[irfill := j];
      rmap := rmap[irfill := pd];
      rmap2smapIndex := rmap2smapIndex[irfill := nsmap];
      irfill := irfill + 1;
      r := Ok(());
    }

    /** fillsmap: append two send-map entries, the RHS and the diagonal of sid's rank. */
    method FillSmap(sid: int, prhs: int, pdiag: int) returns (r: Result<()>)
      requires Valid() && 0 <= nsmap && nsmap + 1 < nmap
      modifies this
      ensures Valid()
      ensures r.Ok? <==> sid in old(s2rt)
      ensures r.Ok? ==>
                && ismap == old(ismap)[old(nsmap) := old(s2rt)[sid]][old(nsmap) + 1 := old(s2rt)[sid]]
                && smap == old(smap)[old(nsmap) := prhs][old(nsmap) + 1 := pdiag]
                && nsmap == old(nsmap) + 2
                && rmap == old(rmap) && irmap == old(irmap) && rmap2smapIndex == old(rmap2smapIndex)
                && irfill == old(irfill) && s2rt == old(s2rt)
                && updateIx == old(updateIx) && updateRmap == old(updateRmap)
    {
      if sid !in s2rt {
        return Err("s2rt->find(sid, i)");
      }
      var i := s2rt[sid];
      ismap := ismap[nsmap := i];
      smap := smap[nsmap := prhs];
      ismap := ismap[nsmap + 1 := i];
      smap := smap[nsmap + 1 := pdiag];
      nsmap := nsmap + 2;
      r := Ok(());
    }

    /** update_rmap(i, ir): remember that the next receive entry of kind i sits at offset ir. */
    method UpdateRmapIndex(i: int, ir: int)
      requires Valid() && 0 <= i < 2
      modifies this
      ensures Valid()
      ensures updateIx == old(updateIx)[i := old(irfill)] && updateRmap == old(updateRmap)[i := ir]
      ensures smap == old(smap) && rmap == old(rmap) && ismap == old(ismap) && irmap == old(irmap)
      ensures rmap2smapIndex == old(rmap2smapIndex) && s2rt == old(s2rt)
      ensures nsmap == old(nsmap) && irfill == old(irfill)
    {
      updateIx := updateIx[i := irfill];
      updateRmap := updateRmap[i := ir];
    }

    /** update_rmap(a, b): repoint the two remembered receive entries into the new storage a and b. */
    method UpdateRmap(a: int, b: int)
      requires Valid() && 0 <= updateIx[0] < nmap && 0 <= updateIx[1] < nmap
      modifies this
      ensures Valid()
      ensures rmap == old(rmap)[old(updateIx)[0] := a + old(updateRmap)[0]][old(updateIx)[1] := b + old(updateRmap)[1]]
      ensures smap == old(smap) && ismap == old(ismap) && irmap == old(irmap)
      ensures rmap2smapIndex == old(rmap2smapIndex) && s2rt == old(s2rt)
      ensures nsmap == old(nsmap) && irfill == old(irfill)
      ensures updateIx == old(updateIx) && updateRmap == old(updateRmap)
    {
      rmap := rmap[updateIx[0] := a + updateRmap[0]];
      rmap := rmap[updateIx[1] := b + updateRmap[1]];
    }

    /**
      gather: clear the 4n buffer and add the value behind every receive-map
      entry into its cell. `mem` is the storage the handles point into.
     */
    method Gather(mem: seq<real>)
      requires Valid()
      requires forall i :: 0 <= i < nmap ==> 0 <= irmap[i] < n4 && 0 <= rmap[i] < |mem|
      modifies rhs
      ensures forall c :: 0 <= c < n4 ==> rhs[c] == GatherCell(irmap, rmap, mem, c, nmap)
    {
      for i := 0 to n4
        invariant forall c :: 0 <= c < i ==> rhs[c] == 0.0
      {
        rhs[i] := 0.0;
      }
      for i := 0 to nmap
        invariant forall c :: 0 <= c < n4 ==> rhs[c] == GatherCell(irmap, rmap, mem, c, i)
      {
        rhs[irmap[i]] := rhs[irmap[i]] + mem[rmap[i]];
      }
    }
  
    /**
      reorder: give the tree's ranks a parent order. The tree edges are the
      pieces marked j whose partner sid is larger; rank 0 stays the root,
      the other ranks are numbered in the order the edges reach them, ip gets
      each new rank's parent, and s2rt is relabelled by that numbering. Each
      C assert is an Err. On success every new number k but the root's is
      joined to its parent ip[k] by one of the tree edges.
     */
    method Reorder(j: int, mark: seq<int>, allbbr: seq<int>, allsid: seq<int>)
      returns (res: Result<()>, ghost order: seq<int>, ghost sids: seq<int>)
      requires Valid() && |mark| == |allbbr| == |allsid|
      modifies this, ip
      ensures Valid()
      ensures smap == old(smap) && rmap == old(rmap) && ismap == old(ismap) && irmap == old(irmap)
      ensures rmap2smapIndex == old(rmap2smapIndex) && nsmap == old(nsmap) && irfill == old(irfill)
      ensures updateIx == old(updateIx) && updateRmap == old(updateRmap)
      ensures n == 1 ==> res.Ok? && ip[0] == -1 && s2rt == old(s2rt)
      ensures res.Ok? ==> ip[0] == -1 && forall k :: 1 <= k < n ==> 0 <= ip[k] < k
      ensures res.Ok? && n > 1 ==>
                && IsPermutation(order, n) && order[0] == 0
                && |sids| == n
                && (forall r :: 0 <= r < n ==> sids[r] in old(s2rt) && old(s2rt)[sids[r]] == r)
                && s2rt.Keys == old(s2rt).Keys
                && (forall r :: 0 <= r < n ==> s2rt[sids[r]] == order[r])
                && (forall x :: x in old(s2rt) && x !in sids ==> s2rt[x] == old(s2rt)[x])
      ensures var edges := TreeEdges(j, mark, allbbr, allsid, |mark|);
              n > 1 && !(|edges| == n - 1 && EndsRanked(edges, old(s2rt))) ==> res.Err?
      ensures var edges := TreeEdges(j, mark, allbbr, allsid, |mark|);
              res.Ok? && n > 1 ==>
                && |edges| == n - 1 && EndsRanked(edges, old(s2rt))
                && TreeOrdered(order, edges, old(s2rt), ip[..])
    {
      order, sids := [], [];
      if n == 1 {
        ip[0] := -1;
        return Ok(()), [0], [];
      }
      var e1, e2, sid;
      ghost var filled;
      res, e1, e2, sid, filled := CollectEdges(j, mark, allbbr, allsid);
      if res.Err? {
        return;
      }
      ghost var edges := TreeEdges(j, mark, allbbr, allsid, |mark|);
      ghost var E1, E2 := e1[..], e2[..];
      var ord;
      res, ord := OrderRanks(e1, e2, filled);
      if res.Err? {
        return;
      }
      Relabel(sid, ord);
      order, sids := ord[..], sid[..];
      ghost var s0, ipv := old(s2rt), ip[..];
      forall k | 1 <= k < |order| && k < |ipv|
        ensures ParentEdge(order, edges, s0, k, ipv[k])
      {
        var e :| 0 <= e < n - 1 && ChildParent(order, E1[e], E2[e], k, ip[k]);
        assert E1[e] == s0[edges[e].0] && E2[e] == s0[edges[e].1];
      }
      assert TreeOrdered(order, edges, s0, ipv);
    }

    /** sid[r] is a sid whose rank is r, for every rank r filled so far. */
    ghost predicate SidsRecorded(sid: array<int>, filled: seq<bool>)
      reads this, sid
    {
      sid.Length == n && |filled| == n && forall r :: 0 <= r < n && filled[r] ==> sid[r] in s2rt && s2rt[sid[r]] == r
    }

    /** The first count edges hold the ranks of the sids of got's first count pairs, all filled. */
    ghost predicate EdgeRanks(e1: array<int>, e2: array<int>, got: seq<(int, int)>, filled: seq<bool>, count: int)
      reads this, e1, e2
    {
      && 0 <= count <= e1.Length && e2.Length == e1.Length && count <= |got| && |filled| == n
      && forall k :: 0 <= k < count ==>
           && got[k].0 in s2rt && got[k].1 in s2rt && e1[k] == s2rt[got[k].0] && e2[k] == s2rt[got[k].1]
           && 0 <= e1[k] < n && 0 <= e2[k] < n && filled[e1[k]] && filled[e2[k]]
    }

    /**
      The edge loop of reorder: edge k is the pair of ranks of the k-th tree
      edge's two sids. It fails unless there are exactly n-1 tree edges and
      every sid of them has a rank.
     */
    method CollectEdges(j: int, mark: seq<int>, allbbr: seq<int>, allsid: seq<int>)
      returns (res: Result<()>, e1: array<int>, e2: array<int>, sid: array<int>, ghost filled: seq<bool>)
      requires Valid() && n > 1 && |mark| == |allbbr| == |allsid|
      ensures fresh(e1) && fresh(e2) && fresh(sid) && e1 != e2
      ensures var edges := TreeEdges(j, mark, allbbr, allsid, |mark|);
              res.Ok? <==> |edges| == n - 1 && EndsRanked(edges, s2rt)
      ensures res.Ok? ==>
                && e1.Length == n - 1 && SidsRecorded(sid, filled)
                && EdgeRanks(e1, e2, TreeEdges(j, mark, allbbr, allsid, |mark|), filled, n - 1)
    {
      var ne := n - 1;
      e1 := new int[ne];
      e2 := new int[ne];
      sid := new int[n];
      filled := seq(n, _ => false);
      var ie := 0;
      ghost var got: seq<(int, int)> := [];
      for i := 0 to |mark|
        invariant 0 <= ie <= ne
        invariant got == TreeEdges(j, mark, allbbr, allsid, i) && ie == |got|
        invariant EdgeRanks(e1, e2, got, filled, ie) && SidsRecorded(sid, filled)
      {
        if IsTreeEdge(j, mark[i], allbbr[i], allsid[i]) {
          TreeEdgesPrefix(j, mark, allbbr, allsid, i + 1, |mark|);
          if ie >= ne {
            return Err("ie < ne"), e1, e2, sid, filled;
          }
          res, filled := RecordEdge(e1, e2, sid, ie, allsid[i], allbbr[i] - 3, got, filled);
          got := got + [(allsid[i], allbbr[i] - 3)];
          if res.Err? {
            assert TreeEdges(j, mark, allbbr, allsid, |mark|)[ie] == got[ie];
            return;
          }
          ie := ie + 1;
        }
      }
      if ie != ne {
        return Err("ie == ne"), e1, e2, sid, filled;
      }
      assert EndsRanked(got, s2rt);
      res := Ok(());
    }

    /**
      One tree edge of reorder's edge loop: e1[ie] and e2[ie] get the ranks
      of sids a and b, and sid[] records each rank's sid. An unranked sid is
      the failed find.
     */
    method RecordEdge(e1: array<int>, e2: array<int>, sid: array<int>, ie: int, a: int, b: int,
                      ghost got: seq<(int, int)>, ghost filled0: seq<bool>)
      returns (res: Result<()>, ghost filled: seq<bool>)
      requires Valid() && e1 != e2 && sid != e1 && sid != e2
      requires ie == |got| && ie < e1.Length
      requires EdgeRanks(e1, e2, got, filled0, ie) && SidsRecorded(sid, filled0)
      modifies e1, e2, sid
      ensures res.Ok? <==> a in s2rt && b in s2rt
      ensures SidsRecorded(sid, filled)
      ensures res.Ok? ==> EdgeRanks(e1, e2, got + [(a, b)], filled, ie + 1)
    {
      filled := filled0;
      if a !in s2rt {
        return Err("s2rt->find(allsid[i], e1[ie])"), filled;
      }
      var r1 := s2rt[a];
      e1[ie] := r1;
      sid[r1] := a;
      filled := filled[r1 := true];
      if b !in s2rt {
        return Err("s2rt->find(allbbr[i]-3, e2[ie])"), filled;
      }
      var r2 := s2rt[b];
      e2[ie] := r2;
      sid[r2] := b;
      filled := filled[r2 := true];
      res := Ok(());
    }

    /** The numbering built so far: ranks inv[0..ordered) carry numbers 0..ordered-1, others -1. */
    ghost predicate Numbering(order: array<int>, inv: seq<int>, ordered: int, filled: seq<bool>)
      reads this, order
    {
      && order.Length == n && |filled| == n
      && 1 <= ordered <= n && |inv| == ordered && inv[0] == 0 && order[0] == 0
      && (forall v :: 0 <= v < ordered ==> 0 <= inv[v] < n && order[inv[v]] == v)
      && (forall x :: 0 <= x < n ==> -1 <= order[x] < ordered)
      && (forall x :: 0 <= x < n && order[x] >= 0 ==> inv[order[x]] == x)
      && (forall x :: 0 <= x < n && order[x] >= 0 ==> filled[x] || ordered == 1)
      && Unmarked(order[..]) == n - ordered
    }

    /** Parents of the numbered ranks come earlier. */
    ghost predicate ParentsBefore(ordered: int)
      reads this, ip
    {
      ip.Length == n && 1 <= ordered <= n && ip[0] == -1 && forall k :: 1 <= k < ordered ==> 0 <= ip[k] < k
    }

    /** Each edge is either handled (both ends -1) or joins two filled ranks; ordered-1 are handled. */
    ghost predicate Edges(e1: array<int>, e2: array<int>, filled: seq<bool>, ordered: int)
      reads this, e1, e2
    {
      && e1.Length == n - 1 && e2.Length == n - 1 && |filled| == n
      && (forall k :: 0 <= k < n - 1 ==>
            (e1[k] == -1 && e2[k] == -1) || (0 <= e1[k] < n && 0 <= e2[k] < n && filled[e1[k]] && filled[e2[k]]))
      && Unmarked(e1[..]) == ordered - 1
    }

    /** An edge not yet handled still holds the ranks it was collected with. */
    ghost predicate Pristine(e1: array<int>, e2: array<int>, E1: seq<int>, E2: seq<int>)
      reads e1, e2
    {
      && e1.Length == |E1| && e2.Length == |E2| && |E1| == |E2|
      && forall k :: 0 <= k < e1.Length ==> e1[k] == -1 || (e1[k] == E1[k] && e2[k] == E2[k])
    }

    /**
      The while loop of reorder: starting from rank 0, repeatedly take every
      edge with exactly one end already numbered, number the other end next
      and make the numbered end its parent. On success every rank but the
      root is joined by one of the given edges to the rank numbered ip[k].
     */
    method OrderRanks(e1: array<int>, e2: array<int>, ghost filled: seq<bool>) returns (res: Result<()>, order: array<int>)
      requires Valid() && n > 1 && e1.Length == n - 1 && e2.Length == n - 1 && |filled| == n
      requires e1 != e2 && e1 != ip && e2 != ip
      requires forall k :: 0 <= k < n - 1 ==> 0 <= e1[k] < n && 0 <= e2[k] < n && filled[e1[k]] && filled[e2[k]]
      modifies ip, e1, e2
      ensures fresh(order)
      ensures res.Ok? ==>
                && order.Length == n && IsPermutation(order[..], n) && order[0] == 0
                && (forall x :: 0 <= x < n ==> filled[x])
                && ip[0] == -1 && (forall k :: 1 <= k < n ==> 0 <= ip[k] < k)
      ensures res.Ok? ==> forall k :: 1 <= k < n ==> exists e :: 0 <= e < n - 1 && ChildParent(order[..], old(e1[e]), old(e2[e]), k, ip[k])
    {
      ghost var E1, E2 := e1[..], e2[..];
      order := StartOrder(e1, e2, filled);
      var ordered := 1;
      ghost var inv: seq<int> := [0];
      while ordered < n
        invariant Numbering(order, inv, ordered, filled)
        invariant ParentsBefore(ordered)
        invariant Edges(e1, e2, filled, ordered)
        invariant Pristine(e1, e2, E1, E2) && Linked(E1, E2, inv, ip[..], ordered)
        decreases n - ordered
      {
        var old_ := ordered;
        res, ordered, inv := Sweep(e1, e2, order, ordered, inv, filled, E1, E2);
        if res.Err? {
          return;
        }
        if ordered <= old_ {
          return Err("ordered > old"), order;
        }
      }
      NumberingComplete(order, inv, filled);
      forall k | 1 <= k < n ensures exists e :: 0 <= e < n - 1 && ChildParent(order[..], E1[e], E2[e], k, ip[k]) {
        var e :| 0 <= e < |E1| && Joins(E1[e], E2[e], inv[k], inv[ip[k]]);
        assert ChildParent(order[..], E1[e], E2[e], k, ip[k]);
      }
      res := Ok(());
    }

    /** The start of reorder: rank 0 is numbered first and has no parent. */
    method StartOrder(e1: array<int>, e2: array<int>, ghost filled: seq<bool>) returns (order: array<int>)
      requires Valid() && n > 1 && e1.Length == n - 1 && e2.Length == n - 1 && |filled| == n
      requires forall k :: 0 <= k < n - 1 ==> 0 <= e1[k] < n && 0 <= e2[k] < n && filled[e1[k]] && filled[e2[k]]
      modifies ip
      ensures fresh(order)
      ensures Numbering(order, [0], 1, filled) && ParentsBefore(1) && Edges(e1, e2, filled, 1)
      ensures Linked(e1[..], e2[..], [0], ip[..], 1)
    {
      order := new int[n](_ => -1);
      UnmarkedRange(e1[..]);
      UnmarkedRange(order[..]);
      ip[0] := -1;
      UnmarkedUpdate(order[..], 0, 0);
      order[0] := 0;
    }

    /** Once every rank is numbered, the numbering is a permutation and every rank is filled. */
    lemma NumberingComplete(order: array<int>, inv: seq<int>, filled: seq<bool>)
      requires n > 1 && Numbering(order, inv, n, filled)
      ensures IsPermutation(order[..], n) && forall x :: 0 <= x < n ==> filled[x]
    {
      UnmarkedRange(order[..]);
      assert forall x :: 0 <= x < n ==> order[..][x] != -1;
    }

    /** The inner loop of reorder: one pass over every edge. */
    method Sweep(e1: array<int>, e2: array<int>, order: array<int>, ordered0: int,
                 ghost inv0: seq<int>, ghost filled: seq<bool>, ghost E1: seq<int>, ghost E2: seq<int>)
      returns (res: Result<()>, ordered: int, ghost inv: seq<int>)
      requires e1 != e2 && e1 != ip && e2 != ip && order != e1 && order != e2 && order != ip
      requires Numbering(order, inv0, ordered0, filled) && ParentsBefore(ordered0) && Edges(e1, e2, filled, ordered0)
      requires Pristine(e1, e2, E1, E2) && Linked(E1, E2, inv0, ip[..], ordered0)
      modifies ip, e1, e2, order
      ensures res.Ok? ==> ordered0 <= ordered
      ensures res.Ok? ==> Numbering(order, inv, ordered, filled) && ParentsBefore(ordered) && Edges(e1, e2, filled, ordered)
      ensures res.Ok? ==> Pristine(e1, e2, E1, E2) && Linked(E1, E2, inv, ip[..], ordered)
    {
      ordered, inv, res := ordered0, inv0, Ok(());
      for i := 0 to n - 1
        invariant ordered0 <= ordered
        invariant Numbering(order, inv, ordered, filled)
        invariant ParentsBefore(ordered)
        invariant Edges(e1, e2, filled, ordered)
        invariant Pristine(e1, e2, E1, E2) && Linked(E1, E2, inv, ip[..], ordered)
      {
        res, ordered, inv := TakeEdge(e1, e2, order, i, ordered, inv, filled, E1, E2);
        if res.Err? {
          return;
        }
      }
    }

    /**
      One pass of the inner loop of reorder over edge i. A live edge with
      exactly one numbered end numbers the other end next, with the numbered
      end as its parent, and is handled; a live edge with both ends numbered
      is the failed assert; any other edge changes nothing.
     */
    method TakeEdge(e1: array<int>, e2: array<int>, order: array<int>, i: int, ordered0: int,
                    ghost inv0: seq<int>, ghost filled: seq<bool>, ghost E1: seq<int>, ghost E2: seq<int>)
      returns (res: Result<()>, ordered: int, ghost inv: seq<int>)
      requires e1 != e2 && e1 != ip && e2 != ip && order != e1 && order != e2 && order != ip && 0 <= i < n - 1
      requires Numbering(order, inv0, ordered0, filled) && ParentsBefore(ordered0) && Edges(e1, e2, filled, ordered0)
      requires Pristine(e1, e2, E1, E2) && Linked(E1, E2, inv0, ip[..], ordered0)
      modifies ip, e1, e2, order
      ensures res.Err? <==> old(e1[i]) >= 0 && old(order[e1[i]]) >= 0 && old(order[e2[i]]) >= 0
      ensures res.Ok? ==> ordered0 <= ordered
      ensures res.Ok? ==> Numbering(order, inv, ordered, filled) && ParentsBefore(ordered) && Edges(e1, e2, filled, ordered)
      ensures res.Ok? ==> Pristine(e1, e2, E1, E2) && Linked(E1, E2, inv, ip[..], ordered)
      ensures old(e1[i]) == -1 || (old(order[e1[i]]) < 0 && old(order[e2[i]]) < 0) ==>
                ordered == ordered0 && unchanged(e1, e2, order, ip)
      ensures res.Ok? && old(e1[i]) >= 0 && old(order[e1[i]]) >= 0 ==>
                var from, to := old(e1[i]), old(e2[i]);
                ordered == ordered0 + 1 && order[to] == ordered0 && ip[ordered0] == old(order[from]) && e1[i] == -1 && e2[i] == -1
      ensures res.Ok? && old(e1[i]) >= 0 && old(order[e1[i]]) < 0 && old(order[e2[i]]) >= 0 ==>
                var from, to := old(e2[i]), old(e1[i]);
                ordered == ordered0 + 1 && order[to] == ordered0 && ip[ordered0] == old(order[from]) && e1[i] == -1 && e2[i] == -1
    {
      ordered, inv, res := ordered0, inv0, Ok(());
      if e1[i] >= 0 {
        var a, b := e1[i], e2[i];
        if order[a] >= 0 || order[b] >= 0 {
          var from, to := a, b;
          if order[a] < 0 {
            from, to := b, a;
          }
          if order[to] != -1 {
            return Err("order[e2[i]] == -1"), ordered, inv;
          }
          inv := NumberEnd(e1, e2, order, i, from, to, ordered, inv, filled, E1, E2);
          ordered := ordered + 1;
        }
      }
    }

    /**
      Taking edge i, whose end from is numbered and end to is not: to gets
      the next number, from's number becomes its parent, and the edge is
      handled.
     */
    method NumberEnd(e1: array<int>, e2: array<int>, order: array<int>, i: int, from: int, to: int, ordered: int,
                     ghost inv0: seq<int>, ghost filled: seq<bool>, ghost E1: seq<int>, ghost E2: seq<int>)
      returns (ghost inv: seq<int>)
      requires e1 != e2 && e1 != ip && e2 != ip && order != e1 && order != e2 && order != ip && 0 <= i < n - 1
      requires Numbering(order, inv0, ordered, filled) && ParentsBefore(ordered) && Edges(e1, e2, filled, ordered)
      requires Pristine(e1, e2, E1, E2) && Linked(E1, E2, inv0, ip[..], ordered)
      requires e1[i] >= 0 && Joins(e1[i], e2[i], from, to) && order[from] >= 0 && order[to] == -1
      modifies ip, e1, e2, order
      ensures Numbering(order, inv, ordered + 1, filled) && ParentsBefore(ordered + 1) && Edges(e1, e2, filled, ordered + 1)
      ensures Pristine(e1, e2, E1, E2) && Linked(E1, E2, inv, ip[..], ordered + 1)
      ensures order[to] == ordered && ip[ordered] == old(order[from]) && e1[i] == -1 && e2[i] == -1
    {
      assert ordered < n by {
        UnmarkedRange(e1[..]);
        assert e1[..][i] != -1;
      }
      assert ordered == 1 ==> from == 0 by {
        if ordered == 1 { assert inv0[order[from]] == from; }
      }
      assert filled[from] && filled[to];
      ghost var ip0 := ip[..];
      assert inv0[order[from]] == from;
      SetParent(ordered, order[from]);
      inv := NumberRank(order, to, ordered, inv0, filled);
      HandleEdge(e1, e2, i, ordered, filled);
      LinkedExtend(E1, E2, inv0, ip0, ordered, inv, ip[..], i);
    }

    /** ip[ordered] = the parent's number. */
    method SetParent(ordered: int, parent: int)
      requires ParentsBefore(ordered) && ordered < n && 0 <= parent < ordered
      modifies ip
      ensures ParentsBefore(ordered + 1)
      ensures ip[ordered] == parent && forall k :: 0 <= k < n && k != ordered ==> ip[k] == old(ip[k])
    {
      ip[ordered] := parent;
    }

    /** order[to] = ordered++: rank to takes the next number. */
    method NumberRank(order: array<int>, to: int, ordered: int, ghost inv0: seq<int>, ghost filled: seq<bool>)
      returns (ghost inv: seq<int>)
      requires Numbering(order, inv0, ordered, filled) && ordered < n
      requires 0 <= to < n && order[to] == -1 && filled[to]
      requires ordered == 1 ==> filled[0]
      modifies order
      ensures Numbering(order, inv, ordered + 1, filled) && inv == inv0 + [to]
      ensures order[to] == ordered && forall x :: 0 <= x < n && x != to ==> order[x] == old(order[x])
    {
      UnmarkedUpdate(order[..], to, ordered);
      order[to] := ordered;
      inv := inv0 + [to];
      forall x | 0 <= x < n && order[x] >= 0 ensures filled[x] {
        if ordered == 1 && x != to {
          assert inv0[old(order[x])] == x;
        }
      }
    }

    /** e1[i] = e2[i] = -1: the edge is handled. */
    method HandleEdge(e1: array<int>, e2: array<int>, i: int, ordered: int, ghost filled: seq<bool>)
      requires e1 != e2 && Edges(e1, e2, filled, ordered) && 0 <= i < n - 1 && e1[i] != -1
      modifies e1, e2
      ensures Edges(e1, e2, filled, ordered + 1)
      ensures e1[i] == -1 && e2[i] == -1
      ensures forall k :: 0 <= k < n - 1 && k != i ==> e1[k] == old(e1[k]) && e2[k] == old(e2[k])
    {
      UnmarkedUpdate(e1[..], i, -1);
      e1[i] := -1;
      e2[i] := -1;
    }

    /** The last loop of reorder: each sid takes the new number of its old rank. */
    method Relabel(sid: array<int>, order: array<int>)
      requires Valid() && sid.Length == n && order.Length == n && IsPermutation(order[..], n)
      requires forall r :: 0 <= r < n ==> sid[r] in s2rt && s2rt[sid[r]] == r
      modifies this
      ensures Valid()
      ensures smap == old(smap) && rmap == old(rmap) && ismap == old(ismap) && irmap == old(irmap)
      ensures rmap2smapIndex == old(rmap2smapIndex) && nsmap == old(nsmap) && irfill == old(irfill)
      ensures updateIx == old(updateIx) && updateRmap == old(updateRmap)
      ensures s2rt.Keys == old(s2rt).Keys
      ensures forall r :: 0 <= r < n ==> s2rt[sid[r]] == order[r]
      ensures forall x :: x in old(s2rt) && x !in sid[..] ==> s2rt[x] == old(s2rt)[x]
    {
      ghost var s0 := s2rt;
      for i := 0 to n
        invariant RanksIn(s2rt, n)
        invariant smap == old(smap) && rmap == old(rmap) && ismap == old(ismap) && irmap == old(irmap)
        invariant rmap2smapIndex == old(rmap2smapIndex) && nsmap == old(nsmap) && irfill == old(irfill)
        invariant updateIx == old(updateIx) && updateRmap == old(updateRmap)
        invariant s2rt.Keys == s0.Keys
        invariant forall r :: 0 <= r < i ==> s2rt[sid[r]] == order[r]
        invariant forall x :: x in s0 && x !in sid[..i] ==> s2rt[x] == s0[x]
      {
        s2rt := s2rt[sid[i] := order[i]];
        assert sid[..i + 1] == sid[..i] + [sid[i]];
      }
      assert sid[..n] == sid[..];
    }
  }
}
