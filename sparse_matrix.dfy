// The element structure of the kinetic-scheme solver's sparse matrix:
// elements linked into rows and columns ordered by the variable order,
// with the row-start and diagonal arrays, and the routines that find or
// insert an element and that set the matrix up.
module SparseMatrix {
  import opened Sparse

  /** The file-level matrix state. Elements are handles into the parallel
      sequences `erow`, `ecol`, `evalue` and the four link sequences, from
      0; `rowst`, `diag` and `varord` are indexed 1..neqn (entry 0 unused). */
  datatype Matrix = Matrix(
    erow: seq<int>, ecol: seq<int>, evalue: seq<real>,
    rUp: seq<int>, rDown: seq<int>, cLeft: seq<int>, cRight: seq<int>,
    rowst: seq<int>, diag: seq<int>, neqn: nat, varord: seq<int>)

  // Ghost `rows[i]` lists the elements of the row at solution position i,
  // left to right; ghost `cols[j]` those of the column at solution
  // position j, top to bottom.

  ghost predicate Sized(m: Matrix, rows: seq<seq<int>>, cols: seq<seq<int>>)
  {
    && |m.ecol| == |m.erow| && |m.evalue| == |m.erow| && |m.rUp| == |m.erow| && |m.rDown| == |m.erow|
    && |m.cLeft| == |m.erow| && |m.cRight| == |m.erow|
    && |rows| == m.neqn + 1 && |cols| == m.neqn + 1
    && (m.neqn > 0 ==> |m.rowst| == m.neqn + 1 && |m.diag| == m.neqn + 1 && |m.varord| == m.neqn + 1)
  }

  /** varord maps the equations 1..neqn one-to-one onto 1..neqn. */
  ghost predicate PermOk(varord: seq<int>, n: nat)
    requires n > 0 ==> |varord| == n + 1
  {
    && (forall r :: 1 <= r <= n ==> 1 <= varord[r] <= n)
    && (forall r1, r2 :: 1 <= r1 < r2 <= n ==> varord[r1] != varord[r2])
  }

  /** Row i is linked left to right through c_left/c_right, starts at
      rowst[i], holds elements of the equation at position i and
      increases strictly in varord of the column. */
  ghost predicate RowOk(m: Matrix, t: seq<int>, i: int)
    requires 1 <= i < |m.rowst|
  {
    Line(m.cRight, m.cLeft, m.erow, m.ecol, m.varord, m.neqn, t, i) && t != [] && m.rowst[i] == t[0]
  }

  /** Column j is linked top to bottom through r_up/r_down, holds elements
      of the variable at position j and increases strictly in varord of
      the row. */
  ghost predicate ColOk(m: Matrix, s: seq<int>, j: int)
  {
    Line(m.rDown, m.rUp, m.ecol, m.erow, m.varord, m.neqn, s, j) && s != []
  }

  /** diag[i] is an element with row == col standing on row i and column i. */
  ghost predicate DiagOk(m: Matrix, t: seq<int>, s: seq<int>, i: int)
    requires 1 <= i < |m.diag| && |m.ecol| == |m.erow|
  {
    0 <= m.diag[i] < |m.erow| && m.erow[m.diag[i]] == m.ecol[m.diag[i]] && m.diag[i] in t && m.diag[i] in s
  }

  ghost predicate LinesOk(m: Matrix, rows: seq<seq<int>>, cols: seq<seq<int>>)
    requires Sized(m, rows, cols)
  {
    forall i {:trigger RowOk(m, rows[i], i)} {:trigger ColOk(m, cols[i], i)} {:trigger DiagOk(m, rows[i], cols[i], i)} :: 1 <= i <= m.neqn ==>
      RowOk(m, rows[i], i) && ColOk(m, cols[i], i) && DiagOk(m, rows[i], cols[i], i)
  }

  /** Solution position of the variable of element h (0 when out of range). */
  ghost function ColOf(m: Matrix, h: int): (j: int)
    ensures 0 <= j <= m.neqn
  {
    if 0 <= h < |m.ecol| && 0 <= m.ecol[h] < |m.varord| && 0 <= m.varord[m.ecol[h]] <= m.neqn
    then m.varord[m.ecol[h]] else 0
  }

  /** Solution position of the equation of element h (0 when out of range). */
  ghost function RowOf(m: Matrix, h: int): (i: int)
    ensures 0 <= i <= m.neqn
  {
    if 0 <= h < |m.erow| && 0 <= m.erow[h] < |m.varord| && 0 <= m.varord[m.erow[h]] <= m.neqn
    then m.varord[m.erow[h]] else 0
  }

  /** Every element other than `x` on a row is on the column of its
      variable, and every element other than `x` on a column is on the
      row of its equation. */
  ghost predicate Corresponds(m: Matrix, rows: seq<seq<int>>, cols: seq<seq<int>>, x: int)
    requires Sized(m, rows, cols)
  {
    RowsInCols(m, rows, cols, x) && ColsInRows(m, rows, cols, x)
  }

  ghost predicate RowsInCols(m: Matrix, rows: seq<seq<int>>, cols: seq<seq<int>>, x: int)
    requires Sized(m, rows, cols)
  {
    forall i, k {:trigger ColOf(m, rows[i][k])} :: 1 <= i <= m.neqn && 0 <= k < |rows[i]| && rows[i][k] != x ==>
      rows[i][k] in cols[ColOf(m, rows[i][k])]
  }

  ghost predicate ColsInRows(m: Matrix, rows: seq<seq<int>>, cols: seq<seq<int>>, x: int)
    requires Sized(m, rows, cols)
  {
    forall j, k {:trigger RowOf(m, cols[j][k])} :: 1 <= j <= m.neqn && 0 <= k < |cols[j]| && cols[j][k] != x ==>
      cols[j][k] in rows[RowOf(m, cols[j][k])]
  }

  /** The structure `check_assert` inspects, except that element `x` may
      be missing from the line that should hold it. */
  ghost predicate MatrixOk(m: Matrix, rows: seq<seq<int>>, cols: seq<seq<int>>, x: int)
  {
    Sized(m, rows, cols) && PermOk(m.varord, m.neqn) && LinesOk(m, rows, cols) && Corresponds(m, rows, cols, x)
  }

  /** Element h lies on no row and no column. */
  ghost predicate Detached(m: Matrix, rows: seq<seq<int>>, cols: seq<seq<int>>, h: int)
    requires Sized(m, rows, cols)
  {
    forall i :: 1 <= i <= m.neqn ==> h !in rows[i] && h !in cols[i]
  }

  /** `b` agrees with `a` everywhere except possibly at `nw`, and may be longer. */
  ghost predicate AgreeBut(a: seq<int>, b: seq<int>, nw: int)
  {
    |b| >= |a| && forall h :: 0 <= h < |a| && h != nw ==> b[h] == a[h]
  }

  /** A line keeps its shape when its members' links and keys do. */
  lemma RowFrame(m: Matrix, m1: Matrix, t: seq<int>, i: int, nw: int)
    requires 1 <= i < |m.rowst| && RowOk(m, t, i) && nw !in t
    requires |m1.rowst| == |m.rowst| && m1.rowst[i] == m.rowst[i] && m1.neqn == m.neqn && m1.varord == m.varord
    requires |m1.erow| == |m1.cRight| && |m1.ecol| == |m1.cRight| && |m1.cLeft| == |m1.cRight|
    requires AgreeBut(m.erow, m1.erow, nw) && AgreeBut(m.ecol, m1.ecol, nw)
    requires AgreeBut(m.cLeft, m1.cLeft, nw) && AgreeBut(m.cRight, m1.cRight, nw)
    ensures RowOk(m1, t, i)
  {
    forall k | 0 <= k < |t|
      ensures m1.cRight[t[k]] == m.cRight[t[k]] && m1.cLeft[t[k]] == m.cLeft[t[k]]
      ensures m1.erow[t[k]] == m.erow[t[k]] && m1.ecol[t[k]] == m.ecol[t[k]]
    {
      assert t[k] != nw;
    }
    LineFrame(m.cRight, m.cLeft, m.erow, m.ecol, m1.cRight, m1.cLeft, m1.erow, m1.ecol,
              m.varord, m.neqn, t, i);
  }

  lemma ColFrame(m: Matrix, m1: Matrix, s: seq<int>, j: int, nw: int)
    requires ColOk(m, s, j) && nw !in s
    requires m1.neqn == m.neqn && m1.varord == m.varord
    requires |m1.erow| == |m1.rDown| && |m1.ecol| == |m1.rDown| && |m1.rUp| == |m1.rDown|
    requires AgreeBut(m.erow, m1.erow, nw) && AgreeBut(m.ecol, m1.ecol, nw)
    requires AgreeBut(m.rUp, m1.rUp, nw) && AgreeBut(m.rDown, m1.rDown, nw)
    ensures ColOk(m1, s, j)
  {
    forall k | 0 <= k < |s|
      ensures m1.rDown[s[k]] == m.rDown[s[k]] && m1.rUp[s[k]] == m.rUp[s[k]]
      ensures m1.erow[s[k]] == m.erow[s[k]] && m1.ecol[s[k]] == m.ecol[s[k]]
    {
      assert s[k] != nw;
    }
    LineFrame(m.rDown, m.rUp, m.ecol, m.erow, m1.rDown, m1.rUp, m1.ecol, m1.erow,
              m.varord, m.neqn, s, j);
  }

  /** Writing the fields of a detached element, or appending one, leaves
      every line as it was. */
  lemma ReallocOk(m: Matrix, m1: Matrix, rows: seq<seq<int>>, cols: seq<seq<int>>, nw: int)
    requires MatrixOk(m, rows, cols, Null) && Detached(m, rows, cols, nw)
    requires Sized(m1, rows, cols)
    requires m1.rowst == m.rowst && m1.diag == m.diag && m1.neqn == m.neqn && m1.varord == m.varord
    requires AgreeBut(m.erow, m1.erow, nw) && AgreeBut(m.ecol, m1.ecol, nw)
    requires AgreeBut(m.rUp, m1.rUp, nw) && AgreeBut(m.rDown, m1.rDown, nw)
    requires AgreeBut(m.cLeft, m1.cLeft, nw) && AgreeBut(m.cRight, m1.cRight, nw)
    ensures MatrixOk(m1, rows, cols, Null) && Detached(m1, rows, cols, nw)
  {
    ReallocLines(m, m1, rows, cols, nw);
    ReallocCorresponds(m, m1, rows, cols, nw);
  }

  lemma ReallocLines(m: Matrix, m1: Matrix, rows: seq<seq<int>>, cols: seq<seq<int>>, nw: int)
    requires Sized(m, rows, cols) && LinesOk(m, rows, cols) && Detached(m, rows, cols, nw)
    requires Sized(m1, rows, cols)
    requires m1.rowst == m.rowst && m1.diag == m.diag && m1.neqn == m.neqn && m1.varord == m.varord
    requires AgreeBut(m.erow, m1.erow, nw) && AgreeBut(m.ecol, m1.ecol, nw)
    requires AgreeBut(m.rUp, m1.rUp, nw) && AgreeBut(m.rDown, m1.rDown, nw)
    requires AgreeBut(m.cLeft, m1.cLeft, nw) && AgreeBut(m.cRight, m1.cRight, nw)
    ensures LinesOk(m1, rows, cols)
  {
    forall i | 1 <= i <= m.neqn
      ensures RowOk(m1, rows[i], i) && ColOk(m1, cols[i], i) && DiagOk(m1, rows[i], cols[i], i)
    {
      assert RowOk(m, rows[i], i) && ColOk(m, cols[i], i) && DiagOk(m, rows[i], cols[i], i);
      RowFrame(m, m1, rows[i], i, nw);
      ColFrame(m, m1, cols[i], i, nw);
    }
  }

  lemma ReallocCorresponds(m: Matrix, m1: Matrix, rows: seq<seq<int>>, cols: seq<seq<int>>, nw: int)
    requires Sized(m, rows, cols) && LinesOk(m, rows, cols) && Corresponds(m, rows, cols, Null)
    requires Detached(m, rows, cols, nw) && Sized(m1, rows, cols)
    requires m1.neqn == m.neqn && m1.varord == m.varord
    requires AgreeBut(m.erow, m1.erow, nw) && AgreeBut(m.ecol, m1.ecol, nw)
    ensures Corresponds(m1, rows, cols, Null)
  {
    forall i, k | 1 <= i <= m.neqn && 0 <= k < |rows[i]|
      ensures rows[i][k] in cols[ColOf(m1, rows[i][k])]
    {
      assert RowOk(m, rows[i], i);
      assert rows[i][k] != nw && ColOf(m1, rows[i][k]) == ColOf(m, rows[i][k]);
    }
    forall j, k | 1 <= j <= m.neqn && 0 <= k < |cols[j]|
      ensures cols[j][k] in rows[RowOf(m1, cols[j][k])]
    {
      assert ColOk(m, cols[j], j);
      assert cols[j][k] != nw && RowOf(m1, cols[j][k]) == RowOf(m, cols[j][k]);
    }
  }

  /** Linking `nw` into column `vcol` (as `s2`, which holds the old members
      and `nw`) through writes to r_up/r_down (`rd`, `ru`) of members of
      `s2` only. */
  lemma ColLinkedLines(m1: Matrix, rd: seq<int>, ru: seq<int>, rows: seq<seq<int>>, cols: seq<seq<int>>,
                       vcol: int, s2: seq<int>)
    requires Sized(m1, rows, cols) && LinesOk(m1, rows, cols) && 1 <= vcol <= m1.neqn
    requires |rd| == |m1.rDown| && |ru| == |m1.rUp|
    requires ColOk(m1.(rDown := rd, rUp := ru), s2, vcol)
    requires forall h :: h in cols[vcol] ==> h in s2
    requires forall h :: 0 <= h < |m1.erow| && h !in s2 ==> rd[h] == m1.rDown[h] && ru[h] == m1.rUp[h]
    ensures Sized(m1.(rDown := rd, rUp := ru), rows, cols[vcol := s2])
    ensures LinesOk(m1.(rDown := rd, rUp := ru), rows, cols[vcol := s2])
  {
    var m2 := m1.(rDown := rd, rUp := ru);
    var cols2 := cols[vcol := s2];
    forall j | 1 <= j <= m1.neqn
      ensures RowOk(m2, rows[j], j) && ColOk(m2, cols2[j], j) && DiagOk(m2, rows[j], cols2[j], j)
    {
      assert RowOk(m1, rows[j], j) && DiagOk(m1, rows[j], cols[j], j);
      if j != vcol {
        var s := cols[j];
        assert ColOk(m1, s, j);
        forall k | 0 <= k < |s|
          ensures rd[s[k]] == m1.rDown[s[k]] && ru[s[k]] == m1.rUp[s[k]]
        {
        }
        LineFrame(m1.rDown, m1.rUp, m1.ecol, m1.erow, rd, ru, m2.ecol, m2.erow,
                  m1.varord, m1.neqn, s, j);
      }
    }
  }

  lemma ColLinkedRowsIn(m1: Matrix, rd: seq<int>, ru: seq<int>, rows: seq<seq<int>>, cols: seq<seq<int>>,
                         vcol: int, s2: seq<int>, nw: int)
    requires Sized(m1, rows, cols) && LinesOk(m1, rows, cols) && RowsInCols(m1, rows, cols, Null)
    requires 1 <= vcol <= m1.neqn && |rd| == |m1.rDown| && |ru| == |m1.rUp|
    requires forall h :: h in cols[vcol] ==> h in s2
    ensures Sized(m1.(rDown := rd, rUp := ru), rows, cols[vcol := s2])
    ensures RowsInCols(m1.(rDown := rd, rUp := ru), rows, cols[vcol := s2], nw)
  {
    var m2 := m1.(rDown := rd, rUp := ru);
    var cols2 := cols[vcol := s2];
    forall i, k | 1 <= i <= m1.neqn && 0 <= k < |rows[i]| && rows[i][k] != nw
      ensures rows[i][k] in cols2[ColOf(m2, rows[i][k])]
    {
      assert RowOk(m1, rows[i], i);
      assert rows[i][k] in cols[ColOf(m1, rows[i][k])];
    }
  }

  lemma ColLinkedColsIn(m1: Matrix, rd: seq<int>, ru: seq<int>, rows: seq<seq<int>>, cols: seq<seq<int>>,
                        vcol: int, s2: seq<int>, nw: int)
    requires Sized(m1, rows, cols) && LinesOk(m1, rows, cols) && ColsInRows(m1, rows, cols, Null)
    requires 1 <= vcol <= m1.neqn && |rd| == |m1.rDown| && |ru| == |m1.rUp|
    requires forall h :: h in s2 ==> h in cols[vcol] || h == nw
    ensures Sized(m1.(rDown := rd, rUp := ru), rows, cols[vcol := s2])
    ensures ColsInRows(m1.(rDown := rd, rUp := ru), rows, cols[vcol := s2], nw)
  {
    var m2 := m1.(rDown := rd, rUp := ru);
    var cols2 := cols[vcol := s2];
    forall j, k | 1 <= j <= m1.neqn && 0 <= k < |cols2[j]| && cols2[j][k] != nw
      ensures cols2[j][k] in rows[RowOf(m2, cols2[j][k])]
    {
      if j == vcol {
        assert s2[k] in s2;
        var k1 :| 0 <= k1 < |cols[vcol]| && cols[vcol][k1] == s2[k];
        assert ColOk(m1, cols[vcol], vcol);
        assert cols[vcol][k1] in rows[RowOf(m1, cols[vcol][k1])];
      } else {
        assert ColOk(m1, cols[j], j);
        assert cols[j][k] in rows[RowOf(m1, cols[j][k])];
      }
    }
  }

  /** The three halves together: column `vcol` relinked as `s2` leaves a
      well-formed matrix in which only `nw` may lack its row. */
  lemma ColLinkedOk(m1: Matrix, rd: seq<int>, ru: seq<int>, rows: seq<seq<int>>, cols: seq<seq<int>>,
                    vcol: int, s2: seq<int>, nw: int)
    requires MatrixOk(m1, rows, cols, Null) && 1 <= vcol <= m1.neqn
    requires |rd| == |m1.rDown| && |ru| == |m1.rUp|
    requires ColOk(m1.(rDown := rd, rUp := ru), s2, vcol)
    requires forall h :: h in cols[vcol] ==> h in s2
    requires forall h :: h in s2 ==> h in cols[vcol] || h == nw
    requires forall h :: 0 <= h < |m1.erow| && h !in s2 ==> rd[h] == m1.rDown[h] && ru[h] == m1.rUp[h]
    ensures var m2 := m1.(rDown := rd, rUp := ru); MatrixOk(m2, rows, cols[vcol := s2], nw)
  {
    ColLinkedLines(m1, rd, ru, rows, cols, vcol, s2);
    ColLinkedRowsIn(m1, rd, ru, rows, cols, vcol, s2, nw);
    ColLinkedColsIn(m1, rd, ru, rows, cols, vcol, s2, nw);
  }

  /** Linking `nw` into row `vrow` (as `t2`, which holds the old members
      and `nw`) through writes to c_right/c_left (`cr`, `cl`) of members of
      `t2`, and to rowst[vrow] only (`rs`). */
  lemma RowLinkedLines(m2: Matrix, cr: seq<int>, cl: seq<int>, rs: seq<int>,
                       rows: seq<seq<int>>, cols: seq<seq<int>>, vrow: int, t2: seq<int>)
    requires Sized(m2, rows, cols) && LinesOk(m2, rows, cols) && 1 <= vrow <= m2.neqn
    requires |cr| == |m2.cRight| && |cl| == |m2.cLeft| && |rs| == |m2.rowst|
    requires forall i :: 1 <= i <= m2.neqn && i != vrow ==> rs[i] == m2.rowst[i]
    requires RowOk(m2.(cRight := cr, cLeft := cl, rowst := rs), t2, vrow)
    requires forall h :: h in rows[vrow] ==> h in t2
    requires forall h :: 0 <= h < |m2.erow| && h !in t2 ==> cr[h] == m2.cRight[h] && cl[h] == m2.cLeft[h]
    ensures Sized(m2.(cRight := cr, cLeft := cl, rowst := rs), rows[vrow := t2], cols)
    ensures LinesOk(m2.(cRight := cr, cLeft := cl, rowst := rs), rows[vrow := t2], cols)
  {
    var m3 := m2.(cRight := cr, cLeft := cl, rowst := rs);
    var rows2 := rows[vrow := t2];
    forall i | 1 <= i <= m2.neqn
      ensures RowOk(m3, rows2[i], i) && ColOk(m3, cols[i], i) && DiagOk(m3, rows2[i], cols[i], i)
    {
      assert ColOk(m2, cols[i], i) && DiagOk(m2, rows[i], cols[i], i);
      if i != vrow {
        var t := rows[i];
        assert RowOk(m2, t, i);
        forall k | 0 <= k < |t|
          ensures cr[t[k]] == m2.cRight[t[k]] && cl[t[k]] == m2.cLeft[t[k]]
        {
        }
        LineFrame(m2.cRight, m2.cLeft, m2.erow, m2.ecol, cr, cl, m3.erow, m3.ecol,
                  m2.varord, m2.neqn, t, i);
      }
    }
  }

  lemma RowLinkedRowsIn(m2: Matrix, cr: seq<int>, cl: seq<int>, rs: seq<int>,
                         rows: seq<seq<int>>, cols: seq<seq<int>>, vrow: int, t2: seq<int>, nw: int)
    requires Sized(m2, rows, cols) && RowsInCols(m2, rows, cols, nw)
    requires 1 <= vrow <= m2.neqn
    requires |cr| == |m2.cRight| && |cl| == |m2.cLeft| && |rs| == |m2.rowst|
    requires forall h :: h in t2 ==> h in rows[vrow] || h == nw
    requires nw in cols[ColOf(m2, nw)]
    ensures Sized(m2.(cRight := cr, cLeft := cl, rowst := rs), rows[vrow := t2], cols)
    ensures RowsInCols(m2.(cRight := cr, cLeft := cl, rowst := rs), rows[vrow := t2], cols, Null)
  {
    var m3 := m2.(cRight := cr, cLeft := cl, rowst := rs);
    var rows2 := rows[vrow := t2];
    forall i, k | 1 <= i <= m2.neqn && 0 <= k < |rows2[i]|
      ensures rows2[i][k] in cols[ColOf(m3, rows2[i][k])]
    {
      if rows2[i][k] != nw {
        if i == vrow {
          assert t2[k] in t2;
          var k1 :| 0 <= k1 < |rows[vrow]| && rows[vrow][k1] == t2[k];
          assert rows[vrow][k1] in cols[ColOf(m2, rows[vrow][k1])];
        } else {
          assert rows[i][k] in cols[ColOf(m2, rows[i][k])];
        }
      }
    }
  }

  lemma RowLinkedColsIn(m2: Matrix, cr: seq<int>, cl: seq<int>, rs: seq<int>,
                        rows: seq<seq<int>>, cols: seq<seq<int>>, vrow: int, t2: seq<int>, nw: int)
    requires Sized(m2, rows, cols) && ColsInRows(m2, rows, cols, nw)
    requires 1 <= vrow <= m2.neqn
    requires |cr| == |m2.cRight| && |cl| == |m2.cLeft| && |rs| == |m2.rowst|
    requires forall h :: h in rows[vrow] ==> h in t2
    requires nw in t2 && RowOf(m2, nw) == vrow
    ensures Sized(m2.(cRight := cr, cLeft := cl, rowst := rs), rows[vrow := t2], cols)
    ensures ColsInRows(m2.(cRight := cr, cLeft := cl, rowst := rs), rows[vrow := t2], cols, Null)
  {
    var m3 := m2.(cRight := cr, cLeft := cl, rowst := rs);
    var rows2 := rows[vrow := t2];
    forall j, k | 1 <= j <= m2.neqn && 0 <= k < |cols[j]|
      ensures cols[j][k] in rows2[RowOf(m3, cols[j][k])]
    {
      if cols[j][k] != nw {
        assert cols[j][k] in rows[RowOf(m2, cols[j][k])];
      }
    }
  }

  /** Row `vrow` relinked as `t2`, holding the old members and `nw`
      (already on its column): the matrix is whole again. */
  lemma RowLinkedOk(m2: Matrix, cr: seq<int>, cl: seq<int>, first: bool,
                    rows: seq<seq<int>>, cols: seq<seq<int>>, vrow: int, t2: seq<int>, nw: int)
    requires MatrixOk(m2, rows, cols, nw) && 1 <= vrow <= m2.neqn
    requires |cr| == |m2.cRight| && |cl| == |m2.cLeft|
    requires Line(cr, cl, m2.erow, m2.ecol, m2.varord, m2.neqn, t2, vrow) && t2 != []
    requires t2[0] == (if first then nw else m2.rowst[vrow])
    requires forall h :: h in rows[vrow] ==> h in t2
    requires forall h :: h in t2 ==> h in rows[vrow] || h == nw
    requires forall h :: 0 <= h < |m2.erow| && h !in t2 ==> cr[h] == m2.cRight[h] && cl[h] == m2.cLeft[h]
    requires nw in t2 && RowOf(m2, nw) == vrow && nw in cols[ColOf(m2, nw)]
    ensures var rs := if first then m2.rowst[vrow := nw] else m2.rowst;
            var m3 := m2.(cRight := cr, cLeft := cl, rowst := rs);
            MatrixOk(m3, rows[vrow := t2], cols, Null)
  {
    var rs := if first then m2.rowst[vrow := nw] else m2.rowst;
    assert RowOk(m2.(cRight := cr, cLeft := cl, rowst := rs), t2, vrow);
    RowLinkedLines(m2, cr, cl, rs, rows, cols, vrow, t2);
    RowLinkedRowsIn(m2, cr, cl, rs, rows, cols, vrow, t2, nw);
    RowLinkedColsIn(m2, cr, cl, rs, rows, cols, vrow, t2, nw);
  }

  /** Distinct equations have distinct solution positions. */
  lemma VarordInjective(m: Matrix, r1: int, r2: int)
    requires (m.neqn > 0 ==> |m.varord| == m.neqn + 1) && PermOk(m.varord, m.neqn)
    requires 1 <= r1 <= m.neqn && 1 <= r2 <= m.neqn && r1 != r2
    ensures m.varord[r1] != m.varord[r2]
  {
    if r1 > r2 {
      assert m.varord[r2] != m.varord[r1];
    }
  }

  // ---------------------------------------------------------------------
  // The four searches of `getelm`. Each walks a line from a diagonal
  // element; ghost `q` is the position reached.

  /** Down column `s` from `start` == s[p]: the element of `row`, or the
      last element above where it belongs. */
  method SearchDown(m: Matrix, start: int, ghost s: seq<int>, ghost p: int, row: int, ghost vcol: int)
    returns (el: int, found: bool, ghost q: int)
    requires (m.neqn > 0 ==> |m.varord| == m.neqn + 1) && PermOk(m.varord, m.neqn)
    requires ColOk(m, s, vcol) && 0 <= p < |s| && start == s[p]
    requires 1 <= row <= m.neqn && m.varord[m.erow[start]] < m.varord[row]
    ensures p <= q < |s| && el == s[q]
    ensures found ==> m.erow[el] == row
    ensures !found ==> (forall k :: 0 <= k <= q ==> m.varord[m.erow[s[k]]] < m.varord[row])
    ensures !found ==> (q + 1 < |s| ==> m.varord[row] < m.varord[m.erow[s[q + 1]]])
  {
    var vrow := m.varord[row];
    el, found, q := start, false, p;
    while true
      invariant p <= q < |s| && el == s[q]
      invariant forall k :: 0 <= k <= q ==> m.varord[m.erow[s[k]]] < vrow
      decreases |s| - q
    {
      ColNext(m, s, vcol, q);
      var elnext := m.rDown[el];
      if elnext == Null {
        return;
      }
      if m.erow[elnext] == row {
        el, found, q := elnext, true, q + 1;
        return;
      } else if m.varord[m.erow[elnext]] > vrow {
        return;
      }
      VarordInjective(m, m.erow[elnext], row);
      el, q := elnext, q + 1;
    }
  }

  /** The element below s[q] in column `s`: the next one, or Null at the bottom. */
  lemma ColNext(m: Matrix, s: seq<int>, vcol: int, q: int)
    requires ColOk(m, s, vcol) && 0 <= q < |s|
    ensures 0 <= s[q] < |m.rDown|
    ensures m.rDown[s[q]] == Null <==> q + 1 == |s|
    ensures q + 1 < |s| ==> m.rDown[s[q]] == s[q + 1] && 1 <= m.erow[s[q + 1]] <= m.neqn
  {
    assert m.rDown[s[q]] == (if q + 1 < |s| then s[q + 1] else Null);
    if q + 1 < |s| {
      assert 0 <= s[q + 1];
    }
  }

  /** Up column `s` from `start` == s[p]: the element of `row`, or the
      first element below where it belongs. */
  method SearchUp(m: Matrix, start: int, ghost s: seq<int>, ghost p: int, row: int, ghost vcol: int)
    returns (el: int, found: bool, ghost q: int)
    requires (m.neqn > 0 ==> |m.varord| == m.neqn + 1) && PermOk(m.varord, m.neqn)
    requires ColOk(m, s, vcol) && 0 <= p < |s| && start == s[p]
    requires 1 <= row <= m.neqn && m.varord[row] < m.varord[m.erow[start]]
    ensures 0 <= q <= p && el == s[q]
    ensures found ==> m.erow[el] == row
    ensures !found ==> (forall k :: q <= k < |s| ==> m.varord[row] < m.varord[m.erow[s[k]]])
    ensures !found ==> (q > 0 ==> m.varord[m.erow[s[q - 1]]] < m.varord[row])
  {
    var vrow := m.varord[row];
    el, found, q := start, false, p;
    while true
      invariant 0 <= q <= p && el == s[q]
      invariant forall k :: q <= k < |s| ==> vrow < m.varord[m.erow[s[k]]]
      decreases q
    {
      var elnext := m.rUp[el];
      if elnext == Null {
        return;
      }
      assert q > 0 && elnext == s[q - 1];
      if m.erow[elnext] == row {
        el, found, q := elnext, true, q - 1;
        return;
      } else if m.varord[m.erow[elnext]] < vrow {
        return;
      }
      VarordInjective(m, m.erow[elnext], row);
      el, q := elnext, q - 1;
    }
  }

  /** Left along row `t` from `start` == t[p], over the elements whose
      variable comes after position `vcol`. */
  method SearchLeft(m: Matrix, start: int, ghost t: seq<int>, ghost p: int, vcol: int, ghost vrow: int)
    returns (el: int, ghost q: int)
    requires |m.varord| == m.neqn + 1
    requires Line(m.cRight, m.cLeft, m.erow, m.ecol, m.varord, m.neqn, t, vrow)
    requires 0 <= p < |t| && start == t[p] && vcol < m.varord[m.ecol[start]]
    requires forall k :: 0 <= k < |t| ==> m.varord[m.ecol[t[k]]] != vcol
    ensures 0 <= q <= p && el == t[q]
    ensures vcol < m.varord[m.ecol[t[q]]]
    ensures q > 0 ==> m.varord[m.ecol[t[q - 1]]] < vcol
  {
    el, q := start, p;
    while true
      invariant 0 <= q <= p && el == t[q]
      invariant vcol < m.varord[m.ecol[t[q]]]
      decreases q
    {
      var elnext := m.cLeft[el];
      if elnext == Null {
        return;
      }
      assert q > 0 && elnext == t[q - 1];
      if m.varord[m.ecol[elnext]] < vcol {
        return;
      }
      el, q := elnext, q - 1;
    }
  }

  /** Right along row `t` from `start` == t[p], over the elements whose
      variable comes before position `vcol`. */
  method SearchRight(m: Matrix, start: int, ghost t: seq<int>, ghost p: int, vcol: int, ghost vrow: int)
    returns (el: int, ghost q: int)
    requires |m.varord| == m.neqn + 1
    requires Line(m.cRight, m.cLeft, m.erow, m.ecol, m.varord, m.neqn, t, vrow)
    requires 0 <= p < |t| && start == t[p] && m.varord[m.ecol[start]] < vcol
    requires forall k :: 0 <= k < |t| ==> m.varord[m.ecol[t[k]]] != vcol
    ensures p <= q < |t| && el == t[q]
    ensures m.varord[m.ecol[t[q]]] < vcol
    ensures q + 1 < |t| ==> vcol < m.varord[m.ecol[t[q + 1]]]
  {
    el, q := start, p;
    while true
      invariant p <= q < |t| && el == t[q]
      invariant m.varord[m.ecol[t[q]]] < vcol
      decreases |t| - q
    {
      var elnext := m.cRight[el];
      if elnext == Null {
        return;
      }
      assert q + 1 < |t| && elnext == t[q + 1];
      if m.varord[m.ecol[elnext]] > vcol {
        return;
      }
      el, q := elnext, q + 1;
    }
  }

  // ---------------------------------------------------------------------
  // Finding or inserting an element.

  /** `s2` is `s` with `x` spliced in at some position. */
  ghost predicate Spliced(s: seq<int>, s2: seq<int>, x: int)
  {
    exists p :: 0 <= p <= |s| && s2 == s[..p] + [x] + s[p..]
  }

  /** No element of row `row` in column `col` is on the lines. */
  ghost predicate Absent(m: Matrix, rows: seq<seq<int>>, cols: seq<seq<int>>, row: int, col: int)
    requires Sized(m, rows, cols) && PermOk(m.varord, m.neqn) && 1 <= row <= m.neqn && 1 <= col <= m.neqn
  {
    var t := rows[m.varord[row]];
    forall k :: 0 <= k < |t| && 0 <= t[k] < |m.ecol| ==> m.ecol[t[k]] != col
  }

  /** Element `e` is on the row and column its equation and variable name. */
  ghost predicate Holds(m: Matrix, rows: seq<seq<int>>, cols: seq<seq<int>>, row: int, col: int, e: int)
    requires Sized(m, rows, cols) && PermOk(m.varord, m.neqn) && 1 <= row <= m.neqn && 1 <= col <= m.neqn
  {
    && 0 <= e < |m.erow| && m.erow[e] == row && m.ecol[e] == col
    && e in rows[m.varord[row]] && e in cols[m.varord[col]]
  }

  /** The outcome of linking element `nw` in for (row, col): the structure
      holds, `nw` carries (row, col), it was spliced into exactly one row
      and one column, and nothing else changed. A fresh element is
      appended with value 0; a reused one keeps its value. */
  ghost predicate Inserted(m: Matrix, rows: seq<seq<int>>, cols: seq<seq<int>>, row: int, col: int, reuse: int,
                           m3: Matrix, rows3: seq<seq<int>>, cols3: seq<seq<int>>, nw: int)
    requires Sized(m, rows, cols) && PermOk(m.varord, m.neqn) && 1 <= row <= m.neqn && 1 <= col <= m.neqn
  {
    && MatrixOk(m3, rows3, cols3, Null)
    && nw == (if reuse == Null then |m.erow| else reuse)
    && m3.neqn == m.neqn && m3.varord == m.varord && m3.diag == m.diag
    && |m3.erow| == |m.erow| + (if reuse == Null then 1 else 0)
    && Holds(m3, rows3, cols3, row, col, nw)
    && AgreeBut(m.erow, m3.erow, nw) && AgreeBut(m.ecol, m3.ecol, nw)
    && m3.evalue == (if reuse == Null then m.evalue + [0.0] else m.evalue)
    && rows3 == rows[m.varord[row] := rows3[m.varord[row]]]
    && cols3 == cols[m.varord[col] := cols3[m.varord[col]]]
    && Spliced(rows[m.varord[row]], rows3[m.varord[row]], nw)
    && Spliced(cols[m.varord[col]], cols3[m.varord[col]], nw)
  }

  /** A handle past the end of the heap is on no line. */
  lemma FreshDetached(m: Matrix, rows: seq<seq<int>>, cols: seq<seq<int>>)
    requires Sized(m, rows, cols) && LinesOk(m, rows, cols)
    ensures Detached(m, rows, cols, |m.erow|)
  {
    forall i | 1 <= i <= m.neqn ensures |m.erow| !in rows[i] && |m.erow| !in cols[i] {
      assert RowOk(m, rows[i], i) && ColOk(m, cols[i], i);
    }
  }

  /** `emalloc` of a new element with value 0, or the caller's element;
      its row and column fields are set here. */
  method Alloc(m: Matrix, ghost rows: seq<seq<int>>, ghost cols: seq<seq<int>>, row: int, col: int, reuse: int)
    returns (m1: Matrix, nw: int)
    requires MatrixOk(m, rows, cols, Null)
    requires reuse == Null || (0 <= reuse < |m.erow| && Detached(m, rows, cols, reuse))
    ensures nw == (if reuse == Null then |m.erow| else reuse)
    ensures |m1.erow| == |m.erow| + (if reuse == Null then 1 else 0)
    ensures MatrixOk(m1, rows, cols, Null) && Detached(m1, rows, cols, nw) && 0 <= nw < |m1.erow|
    ensures m1.erow[nw] == row && m1.ecol[nw] == col
    ensures AgreeBut(m.erow, m1.erow, nw) && AgreeBut(m.ecol, m1.ecol, nw)
    ensures AgreeBut(m.rUp, m1.rUp, nw) && AgreeBut(m.rDown, m1.rDown, nw)
    ensures AgreeBut(m.cLeft, m1.cLeft, nw) && AgreeBut(m.cRight, m1.cRight, nw)
    ensures m1.rowst == m.rowst && m1.diag == m.diag && m1.neqn == m.neqn && m1.varord == m.varord
    ensures m1.evalue == (if reuse == Null then m.evalue + [0.0] else m.evalue)
  {
    if reuse == Null {
      nw := |m.erow|;
      FreshDetached(m, rows, cols);
      m1 := m.(erow := m.erow + [row], ecol := m.ecol + [col], evalue := m.evalue + [0.0],
               rUp := m.rUp + [Null], rDown := m.rDown + [Null], cLeft := m.cLeft + [Null], cRight := m.cRight + [Null]);
    } else {
      nw := reuse;
      m1 := m.(erow := m.erow[nw := row], ecol := m.ecol[nw := col]);
    }
    ReallocOk(m, m1, rows, cols, nw);
  }

  /** With no element of the row found on column `vcol`, none of the row's
      elements is in that column. */
  lemma AbsentFromRow(m: Matrix, rows: seq<seq<int>>, cols: seq<seq<int>>, vrow: int, vcol: int)
    requires MatrixOk(m, rows, cols, Null) && 1 <= vrow <= m.neqn && 1 <= vcol <= m.neqn
    requires forall k :: 0 <= k < |cols[vcol]| ==> RowOf(m, cols[vcol][k]) != vrow
    ensures forall k :: 0 <= k < |rows[vrow]| ==> ColOf(m, rows[vrow][k]) != vcol
  {
    forall k | 0 <= k < |rows[vrow]| ensures ColOf(m, rows[vrow][k]) != vcol {
      var h := rows[vrow][k];
      assert RowOk(m, rows[vrow], vrow);
    }
  }

  /** Links detached `nw` into column `vcol` just below `el` == column[q]
      (`new->r_down = el->r_down; el->r_down = new; new->r_up = el;
      new->r_down->r_up = new`). */
  method LinkBelow(m1: Matrix, ghost rows: seq<seq<int>>, ghost cols: seq<seq<int>>,
                   vcol: int, el: int, ghost q: int, nw: int)
    returns (m2: Matrix, ghost s2: seq<int>)
    requires MatrixOk(m1, rows, cols, Null) && Detached(m1, rows, cols, nw) && 0 <= nw < |m1.erow|
    requires 1 <= vcol <= m1.neqn && 1 <= m1.ecol[nw] <= m1.neqn && 1 <= m1.erow[nw] <= m1.neqn
    requires m1.varord[m1.ecol[nw]] == vcol
    requires 0 <= q < |cols[vcol]| && el == cols[vcol][q]
    requires RowOf(m1, el) < RowOf(m1, nw)
    requires q + 1 < |cols[vcol]| ==> RowOf(m1, nw) < RowOf(m1, cols[vcol][q + 1])
    ensures s2 == cols[vcol][..q + 1] + [nw] + cols[vcol][q + 1..]
    ensures MatrixOk(m2, rows, cols[vcol := s2], nw)
    ensures m2.erow == m1.erow && m2.ecol == m1.ecol && m2.evalue == m1.evalue
    ensures m2.cLeft == m1.cLeft && m2.cRight == m1.cRight && m2.rowst == m1.rowst
    ensures m2.diag == m1.diag && m2.neqn == m1.neqn && m2.varord == m1.varord
  {
    ghost var s := cols[vcol];
    assert ColOk(m1, s, vcol);
    var rd, ru := LinkAfter(m1.rDown, m1.rUp, m1.ecol, m1.erow, m1.varord, m1.neqn, s, vcol, q, el, nw);
    s2 := s[..q + 1] + [nw] + s[q + 1..];
    SpliceMembers(s, q + 1, nw);
    ColLinkedOk(m1, rd, ru, rows, cols, vcol, s2, nw);
    m2 := m1.(rDown := rd, rUp := ru);
  }

  /** Links detached `nw` into column `vcol` just above `el` == column[q]
      (`new->r_up = el->r_up; el->r_up = new; new->r_down = el;
      new->r_up->r_down = new`). */
  method LinkAbove(m1: Matrix, ghost rows: seq<seq<int>>, ghost cols: seq<seq<int>>,
                   vcol: int, el: int, ghost q: int, nw: int)
    returns (m2: Matrix, ghost s2: seq<int>)
    requires MatrixOk(m1, rows, cols, Null) && Detached(m1, rows, cols, nw) && 0 <= nw < |m1.erow|
    requires 1 <= vcol <= m1.neqn && 1 <= m1.ecol[nw] <= m1.neqn && 1 <= m1.erow[nw] <= m1.neqn
    requires m1.varord[m1.ecol[nw]] == vcol
    requires 0 <= q < |cols[vcol]| && el == cols[vcol][q]
    requires RowOf(m1, nw) < RowOf(m1, el)
    requires q > 0 ==> RowOf(m1, cols[vcol][q - 1]) < RowOf(m1, nw)
    ensures s2 == cols[vcol][..q] + [nw] + cols[vcol][q..]
    ensures MatrixOk(m2, rows, cols[vcol := s2], nw)
    ensures m2.erow == m1.erow && m2.ecol == m1.ecol && m2.evalue == m1.evalue
    ensures m2.cLeft == m1.cLeft && m2.cRight == m1.cRight && m2.rowst == m1.rowst
    ensures m2.diag == m1.diag && m2.neqn == m1.neqn && m2.varord == m1.varord
  {
    ghost var s := cols[vcol];
    assert ColOk(m1, s, vcol);
    var rd, ru, _ := LinkBefore(m1.rDown, m1.rUp, m1.ecol, m1.erow, m1.varord, m1.neqn, s, vcol, q, el, nw);
    s2 := s[..q] + [nw] + s[q..];
    SpliceMembers(s, q, nw);
    ColLinkedOk(m1, rd, ru, rows, cols, vcol, s2, nw);
    m2 := m1.(rDown := rd, rUp := ru);
  }

  /** Links `nw`, already on its column, into row `vrow` just left of
      `el` == row[q] (`new->c_left = el->c_left; el->c_left = new;
      new->c_right = el; new->c_left->c_right = new`, or rowst[vrow] = new
      when it becomes the first). */
  method LinkLeft(m2: Matrix, ghost rows: seq<seq<int>>, ghost cols: seq<seq<int>>,
                  vrow: int, el: int, ghost q: int, nw: int)
    returns (m3: Matrix, ghost t2: seq<int>)
    requires MatrixOk(m2, rows, cols, nw) && 0 <= nw < |m2.erow| && 1 <= vrow <= m2.neqn
    requires forall i :: 1 <= i <= m2.neqn ==> nw !in rows[i]
    requires 1 <= m2.ecol[nw] <= m2.neqn && 1 <= m2.erow[nw] <= m2.neqn && m2.varord[m2.erow[nw]] == vrow
    requires nw in cols[ColOf(m2, nw)]
    requires 0 <= q < |rows[vrow]| && el == rows[vrow][q]
    requires ColOf(m2, nw) < ColOf(m2, el)
    requires q > 0 ==> ColOf(m2, rows[vrow][q - 1]) < ColOf(m2, nw)
    ensures t2 == rows[vrow][..q] + [nw] + rows[vrow][q..]
    ensures MatrixOk(m3, rows[vrow := t2], cols, Null)
    ensures m3.erow == m2.erow && m3.ecol == m2.ecol && m3.evalue == m2.evalue
    ensures m3.rUp == m2.rUp && m3.rDown == m2.rDown
    ensures m3.diag == m2.diag && m3.neqn == m2.neqn && m3.varord == m2.varord
  {
    ghost var t := rows[vrow];
    assert RowOk(m2, t, vrow);
    var cr, cl, first := LinkBefore(m2.cRight, m2.cLeft, m2.erow, m2.ecol, m2.varord, m2.neqn, t, vrow, q, el, nw);
    t2 := t[..q] + [nw] + t[q..];
    SpliceMembers(t, q, nw);
    assert t2[0] == (if first then nw else m2.rowst[vrow]) by {
      if !first { assert t2[0] == t[0]; }
    }
    RowLinkedOk(m2, cr, cl, first, rows, cols, vrow, t2, nw);
    m3 := m2.(cRight := cr, cLeft := cl, rowst := if first then m2.rowst[vrow := nw] else m2.rowst);
  }

  /** Links `nw`, already on its column, into row `vrow` just right of
      `el` == row[q] (`new->c_right = el->c_right; el->c_right = new;
      new->c_left = el; new->c_right->c_left = new`). */
  method LinkRight(m2: Matrix, ghost rows: seq<seq<int>>, ghost cols: seq<seq<int>>,
                   vrow: int, el: int, ghost q: int, nw: int)
    returns (m3: Matrix, ghost t2: seq<int>)
    requires MatrixOk(m2, rows, cols, nw) && 0 <= nw < |m2.erow| && 1 <= vrow <= m2.neqn
    requires forall i :: 1 <= i <= m2.neqn ==> nw !in rows[i]
    requires 1 <= m2.ecol[nw] <= m2.neqn && 1 <= m2.erow[nw] <= m2.neqn && m2.varord[m2.erow[nw]] == vrow
    requires nw in cols[ColOf(m2, nw)]
    requires 0 <= q < |rows[vrow]| && el == rows[vrow][q]
    requires ColOf(m2, el) < ColOf(m2, nw)
    requires q + 1 < |rows[vrow]| ==> ColOf(m2, nw) < ColOf(m2, rows[vrow][q + 1])
    ensures t2 == rows[vrow][..q + 1] + [nw] + rows[vrow][q + 1..]
    ensures MatrixOk(m3, rows[vrow := t2], cols, Null)
    ensures m3.erow == m2.erow && m3.ecol == m2.ecol && m3.evalue == m2.evalue
    ensures m3.rUp == m2.rUp && m3.rDown == m2.rDown && m3.rowst == m2.rowst
    ensures m3.diag == m2.diag && m3.neqn == m2.neqn && m3.varord == m2.varord
  {
    ghost var t := rows[vrow];
    assert RowOk(m2, t, vrow);
    var cr, cl := LinkAfter(m2.cRight, m2.cLeft, m2.erow, m2.ecol, m2.varord, m2.neqn, t, vrow, q, el, nw);
    t2 := t[..q + 1] + [nw] + t[q + 1..];
    SpliceMembers(t, q + 1, nw);
    assert t2[0] == m2.rowst[vrow] by { assert t2[0] == t[0]; }
    RowLinkedOk(m2, cr, cl, false, rows, cols, vrow, t2, nw);
    m3 := m2.(cRight := cr, cLeft := cl);
  }

  // ---------------------------------------------------------------------
  // getelm.

  /** When varord[row] == varord[col] the diagonal of that position is the
      element asked for (and row == col). */
  lemma DiagHolds(m: Matrix, rows: seq<seq<int>>, cols: seq<seq<int>>, row: int, col: int)
    requires MatrixOk(m, rows, cols, Null) && 1 <= row <= m.neqn && 1 <= col <= m.neqn
    requires m.varord[row] == m.varord[col]
    ensures row == col && Holds(m, rows, cols, row, col, m.diag[m.varord[row]])
  {
    var i := m.varord[row];
    if row != col {
      VarordInjective(m, row, col);
    }
    assert RowOk(m, rows[i], i) && ColOk(m, cols[i], i) && DiagOk(m, rows[i], cols[i], i);
    var d := m.diag[i];
    var k :| 0 <= k < |rows[i]| && rows[i][k] == d;
    if m.erow[d] != row {
      VarordInjective(m, m.erow[d], row);
    }
  }

  /** An element of column position varord[col] whose row field is `row`
      is the (row, col) element, and it is on its row as well. */
  lemma FoundHolds(m: Matrix, rows: seq<seq<int>>, cols: seq<seq<int>>, row: int, col: int, q: int)
    requires MatrixOk(m, rows, cols, Null) && 1 <= row <= m.neqn && 1 <= col <= m.neqn
    requires 0 <= q < |cols[m.varord[col]]| && 0 <= cols[m.varord[col]][q] < |m.erow|
    requires m.erow[cols[m.varord[col]][q]] == row
    ensures Holds(m, rows, cols, row, col, cols[m.varord[col]][q])
  {
    var j := m.varord[col];
    var e := cols[j][q];
    assert ColOk(m, cols[j], j);
    assert e in rows[RowOf(m, e)];
  }

  /** A column position with no element of `row` leaves the row of `row`
      without an element of `col`. */
  lemma ColumnLacks(m: Matrix, rows: seq<seq<int>>, cols: seq<seq<int>>, row: int, col: int)
    requires MatrixOk(m, rows, cols, Null) && 1 <= row <= m.neqn && 1 <= col <= m.neqn
    requires forall k :: 0 <= k < |cols[m.varord[col]]| ==> RowOf(m, cols[m.varord[col]][k]) != m.varord[row]
    ensures Absent(m, rows, cols, row, col)
    ensures forall k :: 0 <= k < |rows[m.varord[row]]| ==> ColOf(m, rows[m.varord[row]][k]) != m.varord[col]
  {
    AbsentFromRow(m, rows, cols, m.varord[row], m.varord[col]);
  }

  /** Allocation keeps the downward search's verdict on the column. */
  lemma BelowKept(m: Matrix, m1: Matrix, s: seq<int>, vcol: int, q: int, row: int, nw: int)
    requires ColOk(m, s, vcol) && nw !in s && 0 <= q < |s| && PermOk(m.varord, m.neqn)
    requires AgreeBut(m.erow, m1.erow, nw) && m1.varord == m.varord && m1.neqn == m.neqn
    requires 0 <= nw < |m1.erow| && m1.erow[nw] == row && 1 <= row <= m.neqn
    requires RowOf(m, s[q]) < m.varord[row]
    requires q + 1 < |s| ==> m.varord[row] < RowOf(m, s[q + 1])
    ensures RowOf(m1, s[q]) < RowOf(m1, nw)
    ensures q + 1 < |s| ==> RowOf(m1, nw) < RowOf(m1, s[q + 1])
  {
  }

  /** Allocation keeps the upward search's verdict on the column. */
  lemma AboveKept(m: Matrix, m1: Matrix, s: seq<int>, vcol: int, q: int, row: int, nw: int)
    requires ColOk(m, s, vcol) && nw !in s && 0 <= q < |s| && PermOk(m.varord, m.neqn)
    requires AgreeBut(m.erow, m1.erow, nw) && m1.varord == m.varord && m1.neqn == m.neqn
    requires 0 <= nw < |m1.erow| && m1.erow[nw] == row && 1 <= row <= m.neqn
    requires m.varord[row] < RowOf(m, s[q])
    requires q > 0 ==> RowOf(m, s[q - 1]) < m.varord[row]
    ensures RowOf(m1, nw) < RowOf(m1, s[q])
    ensures q > 0 ==> RowOf(m1, s[q - 1]) < RowOf(m1, nw)
  {
  }

  /** The column half of the lower-triangle insertion of getelm: a new
      (or the caller's) element for (row, col) goes into its column right
      below `el`, where the downward search from diag[varord[col]] stopped. */
  method ColumnBelow(m: Matrix, ghost rows: seq<seq<int>>, ghost cols: seq<seq<int>>,
                     row: int, col: int, reuse: int, el: int, ghost q: int)
    returns (m2: Matrix, ghost s2: seq<int>, nw: int)
    requires MatrixOk(m, rows, cols, Null) && 1 <= row <= m.neqn && 1 <= col <= m.neqn
    requires reuse == Null || (0 <= reuse < |m.erow| && Detached(m, rows, cols, reuse))
    requires 0 <= q < |cols[m.varord[col]]| && el == cols[m.varord[col]][q]
    requires RowOf(m, el) < m.varord[row]
    requires q + 1 < |cols[m.varord[col]]| ==> m.varord[row] < RowOf(m, cols[m.varord[col]][q + 1])
    ensures s2 == cols[m.varord[col]][..q + 1] + [nw] + cols[m.varord[col]][q + 1..]
    ensures MatrixOk(m2, rows, cols[m.varord[col] := s2], nw)
    ensures nw == (if reuse == Null then |m.erow| else reuse) && 0 <= nw < |m2.erow|
    ensures |m2.erow| == |m.erow| + (if reuse == Null then 1 else 0)
    ensures forall i :: 1 <= i <= m.neqn ==> nw !in rows[i]
    ensures m2.erow[nw] == row && m2.ecol[nw] == col
    ensures AgreeBut(m.erow, m2.erow, nw) && AgreeBut(m.ecol, m2.ecol, nw)
    ensures m2.evalue == (if reuse == Null then m.evalue + [0.0] else m.evalue)
    ensures m2.rowst == m.rowst && m2.diag == m.diag && m2.neqn == m.neqn && m2.varord == m.varord
  {
    var vcol := m.varord[col];
    var m1;
    m1, nw := Alloc(m, rows, cols, row, col, reuse);
    assert ColOk(m, cols[vcol], vcol) && nw !in cols[vcol];
    BelowKept(m, m1, cols[vcol], vcol, q, row, nw);
    m2, s2 := LinkBelow(m1, rows, cols, vcol, el, q, nw);
  }

  /** The column half of the upper-triangle insertion of getelm: the new
      element goes into its column right above `el`, where the upward
      search from diag[varord[col]] stopped. */
  method ColumnAbove(m: Matrix, ghost rows: seq<seq<int>>, ghost cols: seq<seq<int>>,
                     row: int, col: int, reuse: int, el: int, ghost q: int)
    returns (m2: Matrix, ghost s2: seq<int>, nw: int)
    requires MatrixOk(m, rows, cols, Null) && 1 <= row <= m.neqn && 1 <= col <= m.neqn
    requires reuse == Null || (0 <= reuse < |m.erow| && Detached(m, rows, cols, reuse))
    requires 0 <= q < |cols[m.varord[col]]| && el == cols[m.varord[col]][q]
    requires m.varord[row] < RowOf(m, el)
    requires q > 0 ==> RowOf(m, cols[m.varord[col]][q - 1]) < m.varord[row]
    ensures s2 == cols[m.varord[col]][..q] + [nw] + cols[m.varord[col]][q..]
    ensures MatrixOk(m2, rows, cols[m.varord[col] := s2], nw)
    ensures nw == (if reuse == Null then |m.erow| else reuse) && 0 <= nw < |m2.erow|
    ensures |m2.erow| == |m.erow| + (if reuse == Null then 1 else 0)
    ensures forall i :: 1 <= i <= m.neqn ==> nw !in rows[i]
    ensures m2.erow[nw] == row && m2.ecol[nw] == col
    ensures AgreeBut(m.erow, m2.erow, nw) && AgreeBut(m.ecol, m2.ecol, nw)
    ensures m2.evalue == (if reuse == Null then m.evalue + [0.0] else m.evalue)
    ensures m2.rowst == m.rowst && m2.diag == m.diag && m2.neqn == m.neqn && m2.varord == m.varord
  {
    var vcol := m.varord[col];
    var m1;
    m1, nw := Alloc(m, rows, cols, row, col, reuse);
    assert ColOk(m, cols[vcol], vcol) && nw !in cols[vcol];
    AboveKept(m, m1, cols[vcol], vcol, q, row, nw);
    m2, s2 := LinkAbove(m1, rows, cols, vcol, el, q, nw);
  }

  /** diag[vrow] is on row vrow, and a row without an element of column
      position vcol has no member whose varord[col] is vcol. */
  lemma RowStart(m: Matrix, t: seq<int>, s: seq<int>, vrow: int, vcol: int) returns (p: int)
    requires |m.varord| == m.neqn + 1 && PermOk(m.varord, m.neqn) && |m.ecol| == |m.erow|
    requires 1 <= vrow < |m.diag| && vrow < |m.rowst|
    requires RowOk(m, t, vrow) && DiagOk(m, t, s, vrow)
    requires forall k :: 0 <= k < |t| ==> ColOf(m, t[k]) != vcol
    ensures 0 <= p < |t| && t[p] == m.diag[vrow] && m.varord[m.ecol[t[p]]] == vrow
    ensures forall k :: 0 <= k < |t| ==> m.varord[m.ecol[t[k]]] != vcol
  {
    p :| 0 <= p < |t| && t[p] == m.diag[vrow];
  }

  /** The leftward search's verdict, in terms of column positions. */
  lemma LeftOrder(m: Matrix, t: seq<int>, vrow: int, vcol: int, q: int, nw: int)
    requires Line(m.cRight, m.cLeft, m.erow, m.ecol, m.varord, m.neqn, t, vrow) && PermOk(m.varord, m.neqn)
    requires 0 <= nw < |m.ecol| && 1 <= m.ecol[nw] <= m.neqn && m.varord[m.ecol[nw]] == vcol
    requires 0 <= q < |t| && vcol < m.varord[m.ecol[t[q]]]
    requires q > 0 ==> m.varord[m.ecol[t[q - 1]]] < vcol
    ensures ColOf(m, nw) < ColOf(m, t[q])
    ensures q > 0 ==> ColOf(m, t[q - 1]) < ColOf(m, nw)
  {
  }

  /** The rightward search's verdict, in terms of column positions. */
  lemma RightOrder(m: Matrix, t: seq<int>, vrow: int, vcol: int, q: int, nw: int)
    requires Line(m.cRight, m.cLeft, m.erow, m.ecol, m.varord, m.neqn, t, vrow) && PermOk(m.varord, m.neqn)
    requires 0 <= nw < |m.ecol| && 1 <= m.ecol[nw] <= m.neqn && m.varord[m.ecol[nw]] == vcol
    requires 0 <= q < |t| && m.varord[m.ecol[t[q]]] < vcol
    requires q + 1 < |t| ==> vcol < m.varord[m.ecol[t[q + 1]]]
    ensures ColOf(m, t[q]) < ColOf(m, nw)
    ensures q + 1 < |t| ==> ColOf(m, nw) < ColOf(m, t[q + 1])
  {
  }

  /** The row half of the lower-triangle insertion: the element `nw`,
      already in its column, goes into row vrow left of where the leftward
      search from diag[vrow] stops. */
  method RowLeft(m2: Matrix, ghost rows: seq<seq<int>>, ghost cols: seq<seq<int>>,
                 vrow: int, vcol: int, nw: int)
    returns (m3: Matrix, ghost t2: seq<int>)
    requires MatrixOk(m2, rows, cols, nw) && 0 <= nw < |m2.erow| && 1 <= vcol < vrow <= m2.neqn
    requires forall i :: 1 <= i <= m2.neqn ==> nw !in rows[i]
    requires 1 <= m2.ecol[nw] <= m2.neqn && 1 <= m2.erow[nw] <= m2.neqn
    requires m2.varord[m2.erow[nw]] == vrow && m2.varord[m2.ecol[nw]] == vcol && nw in cols[vcol]
    requires forall k :: 0 <= k < |rows[vrow]| ==> ColOf(m2, rows[vrow][k]) != vcol
    ensures Spliced(rows[vrow], t2, nw) && nw in t2
    ensures MatrixOk(m3, rows[vrow := t2], cols, Null)
    ensures m3.erow == m2.erow && m3.ecol == m2.ecol && m3.evalue == m2.evalue
    ensures m3.diag == m2.diag && m3.neqn == m2.neqn && m3.varord == m2.varord
  {
    ghost var t := rows[vrow];
    assert RowOk(m2, t, vrow) && DiagOk(m2, t, cols[vrow], vrow);
    ghost var p := RowStart(m2, t, cols[vrow], vrow, vcol);
    var el, q := SearchLeft(m2, m2.diag[vrow], t, p, vcol, vrow);
    LeftOrder(m2, t, vrow, vcol, q, nw);
    m3, t2 := LinkLeft(m2, rows, cols, vrow, el, q, nw);
    assert t2[q] == nw;
  }

  /** The row half of the upper-triangle insertion: `nw` goes into row
      vrow right of where the rightward search from diag[vrow] stops. */
  method RowRight(m2: Matrix, ghost rows: seq<seq<int>>, ghost cols: seq<seq<int>>,
                  vrow: int, vcol: int, nw: int)
    returns (m3: Matrix, ghost t2: seq<int>)
    requires MatrixOk(m2, rows, cols, nw) && 0 <= nw < |m2.erow| && 1 <= vrow < vcol <= m2.neqn
    requires forall i :: 1 <= i <= m2.neqn ==> nw !in rows[i]
    requires 1 <= m2.ecol[nw] <= m2.neqn && 1 <= m2.erow[nw] <= m2.neqn
    requires m2.varord[m2.erow[nw]] == vrow && m2.varord[m2.ecol[nw]] == vcol && nw in cols[vcol]
    requires forall k :: 0 <= k < |rows[vrow]| ==> ColOf(m2, rows[vrow][k]) != vcol
    ensures Spliced(rows[vrow], t2, nw) && nw in t2
    ensures MatrixOk(m3, rows[vrow := t2], cols, Null)
    ensures m3.erow == m2.erow && m3.ecol == m2.ecol && m3.evalue == m2.evalue
    ensures m3.diag == m2.diag && m3.neqn == m2.neqn && m3.varord == m2.varord
  {
    ghost var t := rows[vrow];
    assert RowOk(m2, t, vrow) && DiagOk(m2, t, cols[vrow], vrow);
    ghost var p := RowStart(m2, t, cols[vrow], vrow, vcol);
    var el, q := SearchRight(m2, m2.diag[vrow], t, p, vcol, vrow);
    RightOrder(m2, t, vrow, vcol, q, nw);
    m3, t2 := LinkRight(m2, rows, cols, vrow, el, q, nw);
    assert t2[q + 1] == nw;
  }

  /** Allocation leaves the column positions of a row's members alone. */
  lemma RowColsKept(m: Matrix, m2: Matrix, t: seq<int>, i: int, nw: int)
    requires 1 <= i < |m.rowst| && RowOk(m, t, i) && nw !in t
    requires AgreeBut(m.ecol, m2.ecol, nw) && m2.varord == m.varord && m2.neqn == m.neqn
    ensures forall k :: 0 <= k < |t| ==> ColOf(m2, t[k]) == ColOf(m, t[k])
  {
  }

  /** getelm below the diagonal, once the downward search has failed:
      `el` is where it stopped. */
  method InsertLower(m: Matrix, ghost rows: seq<seq<int>>, ghost cols: seq<seq<int>>,
                     row: int, col: int, reuse: int, el: int, ghost q: int)
    returns (m3: Matrix, ghost rows3: seq<seq<int>>, ghost cols3: seq<seq<int>>, nw: int)
    requires MatrixOk(m, rows, cols, Null) && 1 <= row <= m.neqn && 1 <= col <= m.neqn
    requires reuse == Null || (0 <= reuse < |m.erow| && Detached(m, rows, cols, reuse))
    requires m.varord[col] < m.varord[row]
    requires 0 <= q < |cols[m.varord[col]]| && el == cols[m.varord[col]][q]
    requires RowOf(m, el) < m.varord[row]
    requires q + 1 < |cols[m.varord[col]]| ==> m.varord[row] < RowOf(m, cols[m.varord[col]][q + 1])
    requires forall k :: 0 <= k < |rows[m.varord[row]]| ==> ColOf(m, rows[m.varord[row]][k]) != m.varord[col]
    ensures Inserted(m, rows, cols, row, col, reuse, m3, rows3, cols3, nw)
  {
    var vrow, vcol := m.varord[row], m.varord[col];
    var m2;
    ghost var s2, t2;
    m2, s2, nw := ColumnBelow(m, rows, cols, row, col, reuse, el, q);
    assert RowOk(m, rows[vrow], vrow);
    RowColsKept(m, m2, rows[vrow], vrow, nw);
    m3, t2 := RowLeft(m2, rows, cols[vcol := s2], vrow, vcol, nw);
    rows3, cols3 := rows[vrow := t2], cols[vcol := s2];
    assert s2[q + 1] == nw;
  }

  /** getelm above the diagonal, once the upward search has failed:
      `el` is where it stopped. */
  method InsertUpper(m: Matrix, ghost rows: seq<seq<int>>, ghost cols: seq<seq<int>>,
                     row: int, col: int, reuse: int, el: int, ghost q: int)
    returns (m3: Matrix, ghost rows3: seq<seq<int>>, ghost cols3: seq<seq<int>>, nw: int)
    requires MatrixOk(m, rows, cols, Null) && 1 <= row <= m.neqn && 1 <= col <= m.neqn
    requires reuse == Null || (0 <= reuse < |m.erow| && Detached(m, rows, cols, reuse))
    requires m.varord[row] < m.varord[col]
    requires 0 <= q < |cols[m.varord[col]]| && el == cols[m.varord[col]][q]
    requires m.varord[row] < RowOf(m, el)
    requires q > 0 ==> RowOf(m, cols[m.varord[col]][q - 1]) < m.varord[row]
    requires forall k :: 0 <= k < |rows[m.varord[row]]| ==> ColOf(m, rows[m.varord[row]][k]) != m.varord[col]
    ensures Inserted(m, rows, cols, row, col, reuse, m3, rows3, cols3, nw)
  {
    var vrow, vcol := m.varord[row], m.varord[col];
    var m2;
    ghost var s2, t2;
    m2, s2, nw := ColumnAbove(m, rows, cols, row, col, reuse, el, q);
    assert RowOk(m, rows[vrow], vrow);
    RowColsKept(m, m2, rows[vrow], vrow, nw);
    m3, t2 := RowRight(m2, rows, cols[vcol := s2], vrow, vcol, nw);
    rows3, cols3 := rows[vrow := t2], cols[vcol := s2];
    assert s2[q] == nw;
  }

  /** diag[j] is on column j, at the row position j. */
  lemma ColStart(m: Matrix, t: seq<int>, s: seq<int>, j: int) returns (p: int)
    requires |m.varord| == m.neqn + 1 && |m.ecol| == |m.erow|
    requires 1 <= j < |m.diag| && j < |m.rowst|
    requires RowOk(m, t, j) && ColOk(m, s, j) && DiagOk(m, t, s, j)
    ensures 0 <= p < |s| && s[p] == m.diag[j] && m.varord[m.erow[s[p]]] == j
  {
    p :| 0 <= p < |s| && s[p] == m.diag[j];
  }

  /** The downward search's verdict: row position vrow is missing from the
      column, and `s[q]` is the last member above it. */
  lemma GapBelow(m: Matrix, s: seq<int>, j: int, q: int, vrow: int)
    requires ColOk(m, s, j) && PermOk(m.varord, m.neqn) && 0 <= q < |s|
    requires forall k :: 0 <= k <= q ==> m.varord[m.erow[s[k]]] < vrow
    requires q + 1 < |s| ==> vrow < m.varord[m.erow[s[q + 1]]]
    ensures RowOf(m, s[q]) < vrow && (q + 1 < |s| ==> vrow < RowOf(m, s[q + 1]))
    ensures forall k :: 0 <= k < |s| ==> RowOf(m, s[k]) != vrow
  {
    forall k | q + 1 < k < |s| ensures vrow < RowOf(m, s[k]) {
      assert m.varord[m.erow[s[q + 1]]] < m.varord[m.erow[s[k]]];
    }
  }

  /** The upward search's verdict: row position vrow is missing from the
      column, and `s[q]` is the first member below it. */
  lemma GapAbove(m: Matrix, s: seq<int>, j: int, q: int, vrow: int)
    requires ColOk(m, s, j) && PermOk(m.varord, m.neqn) && 0 <= q < |s|
    requires forall k :: q <= k < |s| ==> vrow < m.varord[m.erow[s[k]]]
    requires q > 0 ==> m.varord[m.erow[s[q - 1]]] < vrow
    ensures vrow < RowOf(m, s[q]) && (q > 0 ==> RowOf(m, s[q - 1]) < vrow)
    ensures forall k :: 0 <= k < |s| ==> RowOf(m, s[k]) != vrow
  {
    forall k | 0 <= k < q - 1 ensures RowOf(m, s[k]) < vrow {
      assert m.varord[m.erow[s[k]]] < m.varord[m.erow[s[q - 1]]];
    }
  }

  /** getelm below the diagonal: search column varord[col] downward from
      its diagonal, and insert when the row is not there. */
  method FindLower(m: Matrix, ghost rows: seq<seq<int>>, ghost cols: seq<seq<int>>,
                   row: int, col: int, reuse: int)
    returns (m3: Matrix, ghost rows3: seq<seq<int>>, ghost cols3: seq<seq<int>>, e: int, added: bool)
    requires MatrixOk(m, rows, cols, Null) && 1 <= row <= m.neqn && 1 <= col <= m.neqn
    requires reuse == Null || (0 <= reuse < |m.erow| && Detached(m, rows, cols, reuse))
    requires m.varord[col] < m.varord[row]
    ensures !added ==> m3 == m && rows3 == rows && cols3 == cols && Holds(m, rows, cols, row, col, e)
    ensures added ==> Absent(m, rows, cols, row, col) && Inserted(m, rows, cols, row, col, reuse, m3, rows3, cols3, e)
  {
    var vrow, vcol := m.varord[row], m.varord[col];
    ghost var s := cols[vcol];
    assert RowOk(m, rows[vcol], vcol) && ColOk(m, s, vcol) && DiagOk(m, rows[vcol], s, vcol);
    ghost var p := ColStart(m, rows[vcol], s, vcol);
    var el, found, q := SearchDown(m, m.diag[vcol], s, p, row, vcol);
    if found {
      FoundHolds(m, rows, cols, row, col, q);
      return m, rows, cols, el, false;
    }
    GapBelow(m, s, vcol, q, vrow);
    ColumnLacks(m, rows, cols, row, col);
    m3, rows3, cols3, e := InsertLower(m, rows, cols, row, col, reuse, el, q);
    added := true;
  }

  /** getelm above the diagonal: search column varord[col] upward from
      its diagonal, and insert when the row is not there. */
  method FindUpper(m: Matrix, ghost rows: seq<seq<int>>, ghost cols: seq<seq<int>>,
                   row: int, col: int, reuse: int)
    returns (m3: Matrix, ghost rows3: seq<seq<int>>, ghost cols3: seq<seq<int>>, e: int, added: bool)
    requires MatrixOk(m, rows, cols, Null) && 1 <= row <= m.neqn && 1 <= col <= m.neqn
    requires reuse == Null || (0 <= reuse < |m.erow| && Detached(m, rows, cols, reuse))
    requires m.varord[row] < m.varord[col]
    ensures !added ==> m3 == m && rows3 == rows && cols3 == cols && Holds(m, rows, cols, row, col, e)
    ensures added ==> Absent(m, rows, cols, row, col) && Inserted(m, rows, cols, row, col, reuse, m3, rows3, cols3, e)
  {
    var vrow, vcol := m.varord[row], m.varord[col];
    ghost var s := cols[vcol];
    assert RowOk(m, rows[vcol], vcol) && ColOk(m, s, vcol) && DiagOk(m, rows[vcol], s, vcol);
    ghost var p := ColStart(m, rows[vcol], s, vcol);
    var el, found, q := SearchUp(m, m.diag[vcol], s, p, row, vcol);
    if found {
      FoundHolds(m, rows, cols, row, col, q);
      return m, rows, cols, el, false;
    }
    GapAbove(m, s, vcol, q, vrow);
    ColumnLacks(m, rows, cols, row, col);
    m3, rows3, cols3, e := InsertUpper(m, rows, cols, row, col, reuse, el, q);
    added := true;
  }

  /** The matrix part of getelm (sparse.c): the (row, col) element if it
      is on the lines, else `reuse` or a fresh element linked in at its
      place in its column and its row. `added` tells which. */
  method FindOrLink(m: Matrix, ghost rows: seq<seq<int>>, ghost cols: seq<seq<int>>,
                    row: int, col: int, reuse: int)
    returns (m3: Matrix, ghost rows3: seq<seq<int>>, ghost cols3: seq<seq<int>>, e: int, added: bool)
    requires MatrixOk(m, rows, cols, Null) && 1 <= row <= m.neqn && 1 <= col <= m.neqn
    requires reuse == Null || (0 <= reuse < |m.erow| && Detached(m, rows, cols, reuse))
    ensures !added ==> m3 == m && rows3 == rows && cols3 == cols && Holds(m, rows, cols, row, col, e)
    ensures added ==> Absent(m, rows, cols, row, col) && Inserted(m, rows, cols, row, col, reuse, m3, rows3, cols3, e)
    ensures m.varord[row] == m.varord[col] ==> !added && e == m.diag[m.varord[row]]
  {
    var vrow, vcol := m.varord[row], m.varord[col];
    if vrow == vcol {
      DiagHolds(m, rows, cols, row, col);
      return m, rows, cols, m.diag[vrow], false;
    } else if vcol < vrow {
      m3, rows3, cols3, e, added := FindLower(m, rows, cols, row, col, reuse);
    } else {
      m3, rows3, cols3, e, added := FindUpper(m, rows, cols, row, col, reuse);
    }
  }

  // ---------------------------------------------------------------------
  // check_assert.

  /** The row walk of `check_assert`: from rowst[i] along c_right, the first
      element has no left neighbour and every other one is its left
      neighbour's right neighbour, with a larger varord[col]. */
  method CheckRow(m: Matrix, ghost t: seq<int>, i: int) returns (ok: bool)
    requires 1 <= i < |m.rowst| && RowOk(m, t, i)
    ensures ok
  {
    LineDistinct(m.cRight, m.cLeft, m.erow, m.ecol, m.varord, m.neqn, t, i);
    var el := m.rowst[i];
    ghost var k := 0;
    ok := true;
    while el != Null
      invariant 0 <= k <= |t| && el == (if k < |t| then t[k] else Null)
      invariant ok
      decreases |t| - k
    {
      if el == m.rowst[i] {
        ok := m.cLeft[el] == Null;
      } else {
        var left := m.cLeft[el];
        ok := 0 <= left < |m.cRight| && m.cRight[left] == el && m.varord[m.ecol[left]] < m.varord[m.ecol[el]];
      }
      el := m.cRight[el];
      k := k + 1;
    }
  }

  /** The walk of `check_assert` down column j from its diagonal s[p]:
      every element is its upper neighbour's lower neighbour, with a larger
      varord[row]. */
  method CheckDown(m: Matrix, ghost s: seq<int>, j: int, ghost p: int) returns (ok: bool)
    requires ColOk(m, s, j) && 0 <= p < |s| && 1 <= j < |m.diag| && s[p] == m.diag[j]
    ensures ok
  {
    var el := m.rDown[m.diag[j]];
    ghost var k := p + 1;
    ok := true;
    while el != Null
      invariant p < k <= |s| && el == (if k < |s| then s[k] else Null)
      invariant ok
      decreases |s| - k
    {
      var up := m.rUp[el];
      ok := 0 <= up < |m.rDown| && m.rDown[up] == el && m.varord[m.erow[up]] < m.varord[m.erow[el]];
      el := m.rDown[el];
      k := k + 1;
    }
  }

  /** The walk of `check_assert` up column j from its diagonal s[p]: every
      element is its lower neighbour's upper neighbour, with a smaller
      varord[row]. */
  method CheckUp(m: Matrix, ghost s: seq<int>, j: int, ghost p: int) returns (ok: bool)
    requires ColOk(m, s, j) && 0 <= p < |s| && 1 <= j < |m.diag| && s[p] == m.diag[j]
    ensures ok
  {
    var el := m.rUp[m.diag[j]];
    ghost var k := p - 1;
    ok := true;
    while el != Null
      invariant -1 <= k < p && el == (if k >= 0 then s[k] else Null)
      invariant ok
      decreases k
    {
      var down := m.rDown[el];
      ok := 0 <= down < |m.rUp| && m.rUp[down] == el && m.varord[m.erow[down]] > m.varord[m.erow[el]];
      el := m.rUp[el];
      k := k - 1;
    }
  }

  /** The diagonal checks of `check_assert` for position i. */
  method CheckDiag(m: Matrix, ghost t: seq<int>, ghost s: seq<int>, i: int) returns (ok: bool)
    requires |m.varord| == m.neqn + 1 && PermOk(m.varord, m.neqn) && |m.ecol| == |m.erow|
    requires 1 <= i < |m.diag| && i < |m.rowst|
    requires RowOk(m, t, i) && DiagOk(m, t, s, i)
    ensures ok
  {
    var d := m.diag[i];
    ghost var p :| 0 <= p < |t| && t[p] == d;
    var r := m.rowst[i];
    if m.erow[r] != m.erow[d] {
      VarordInjective(m, m.erow[r], m.erow[d]);
    }
    ok := d != Null && m.erow[d] == m.ecol[d] && m.varord[m.erow[d]] == i && m.erow[r] == m.erow[d];
  }

  /** `check_assert`: on a structure that satisfies the invariants, none of
      its assertions fails. */
  method CheckAssert(m: Matrix, ghost rows: seq<seq<int>>, ghost cols: seq<seq<int>>) returns (ok: bool)
    requires MatrixOk(m, rows, cols, Null)
    ensures ok
  {
    ok := true;
    var i := 1;
    while i <= m.neqn
      invariant 1 <= i <= m.neqn + 1 && ok
    {
      assert RowOk(m, rows[i], i) && ColOk(m, cols[i], i) && DiagOk(m, rows[i], cols[i], i);
      ghost var p :| 0 <= p < |cols[i]| && cols[i][p] == m.diag[i];
      var okDiag := CheckDiag(m, rows[i], cols[i], i);
      var okRow := CheckRow(m, rows[i], i);
      var okDown := CheckDown(m, cols[i], i, p);
      var okUp := CheckUp(m, cols[i], i, p);
      ok := okDiag && okRow && okDown && okUp;
      i := i + 1;
    }
  }

  // ---------------------------------------------------------------------
  // initeqn and init_coef_list.

  /** The matrix `initeqn` builds for n equations: element i - 1 is the
      value-0 diagonal of row i, unlinked, and varord is the identity. Slot
      0 of rowst, diag and varord is unused. */
  function FreshMatrix(n: nat): (m: Matrix)
    ensures |m.erow| == n && m.neqn == n
  {
    Matrix(seq(n, h => h + 1), seq(n, h => h + 1), seq(n, h => 0.0),
           seq(n, h => Null), seq(n, h => Null), seq(n, h => Null), seq(n, h => Null),
           seq(n + 1, i => i - 1), seq(n + 1, i => i - 1), n, seq(n + 1, i => i))
  }

  /** Its rows and columns: line i is the single diagonal element i - 1. */
  ghost function FreshLines(n: nat): seq<seq<int>>
  {
    seq(n + 1, i => if i == 0 then [] else [i - 1])
  }

  /** Line i of the fresh matrix: its diagonal alone, unlinked. */
  lemma FreshLine(n: nat, i: int)
    requires 1 <= i <= n
    ensures var m, ls := FreshMatrix(n), FreshLines(n);
            RowOk(m, ls[i], i) && ColOk(m, ls[i], i) && DiagOk(m, ls[i], ls[i], i)
  {
    var m, ls := FreshMatrix(n), FreshLines(n);
    var t := ls[i];
    assert t == [i - 1] && m.erow[i - 1] == i && m.ecol[i - 1] == i && m.varord[i] == i;
    assert m.cRight[i - 1] == Null && m.cLeft[i - 1] == Null && m.rDown[i - 1] == Null && m.rUp[i - 1] == Null;
    assert m.rowst[i] == i - 1 && m.diag[i] == i - 1;
  }

  lemma FreshLinesOk(n: nat)
    ensures Sized(FreshMatrix(n), FreshLines(n), FreshLines(n))
    ensures LinesOk(FreshMatrix(n), FreshLines(n), FreshLines(n))
  {
    var m, ls := FreshMatrix(n), FreshLines(n);
    forall i | 1 <= i <= n ensures RowOk(m, ls[i], i) && ColOk(m, ls[i], i) && DiagOk(m, ls[i], ls[i], i) {
      FreshLine(n, i);
    }
  }

  lemma FreshCorresponds(n: nat)
    ensures Sized(FreshMatrix(n), FreshLines(n), FreshLines(n))
    ensures Corresponds(FreshMatrix(n), FreshLines(n), FreshLines(n), Null)
  {
    var m, ls := FreshMatrix(n), FreshLines(n);
    forall i, k | 1 <= i <= n && 0 <= k < |ls[i]| ensures ls[i][k] in ls[ColOf(m, ls[i][k])] {
      assert ls[i][k] == i - 1 && ColOf(m, i - 1) == i;
    }
    forall j, k | 1 <= j <= n && 0 <= k < |ls[j]| ensures ls[j][k] in ls[RowOf(m, ls[j][k])] {
      assert ls[j][k] == j - 1 && RowOf(m, j - 1) == j;
    }
  }

  /** The fresh matrix satisfies the `check_assert` invariants, each line
      holds only its diagonal, with value 0, and varord[i] == i. */
  lemma FreshOk(n: nat)
    ensures MatrixOk(FreshMatrix(n), FreshLines(n), FreshLines(n), Null)
    ensures var m := FreshMatrix(n);
            forall i :: 1 <= i <= n ==>
              m.varord[i] == i && m.rowst[i] == m.diag[i] && FreshLines(n)[i] == [m.diag[i]] &&
              m.erow[m.diag[i]] == i && m.ecol[m.diag[i]] == i && m.evalue[m.diag[i]] == 0.0
  {
    FreshLinesOk(n);
    FreshCorresponds(n);
  }

  /** The loop of `initeqn`: one diagonal element per row, and rhs[1..n]
      cleared. */
  method DiagonalRun(n: nat, rhs: seq<real>) returns (m: Matrix, rhs2: seq<real>)
    requires n < |rhs|
    ensures m == FreshMatrix(n)
    ensures |rhs2| == |rhs| && forall r :: 0 <= r < |rhs| ==> rhs2[r] == (if 1 <= r <= n then 0.0 else rhs[r])
  {
    var rows: seq<int>, links: seq<int> := [], [];
    var zeros: seq<real> := [];
    var rs: seq<int>, dg: seq<int>, vo: seq<int> := [Null], [Null], [0];
    rhs2 := rhs;
    var i := 1;
    while i <= n
      invariant 1 <= i <= n + 1
      invariant rows == seq(i - 1, h => h + 1) && zeros == seq(i - 1, h => 0.0) && links == seq(i - 1, h => Null)
      invariant rs == seq(i, j => j - 1) && dg == rs && vo == seq(i, j => j)
      invariant |rhs2| == |rhs| && forall r :: 0 <= r < |rhs| ==> rhs2[r] == (if 1 <= r < i then 0.0 else rhs[r])
    {
      vo := vo + [i];
      dg := dg + [i - 1];
      rs := rs + [i - 1];
      rows, zeros, links := rows + [i], zeros + [0.0], links + [Null];
      rhs2 := rhs2[i := 0.0];
      i := i + 1;
    }
    m := Matrix(rows, rows, zeros, links, links, links, links, rs, dg, n, vo);
  }

  /** The element values after `init_coef_list`: every element on a row is 0. */
  ghost predicate OnRow(rows: seq<seq<int>>, h: int)
  {
    exists i :: 1 <= i < |rows| && h in rows[i]
  }

  /** The loops of `init_coef_list`: every element along every row, from
      rowst[i] through c_right, gets value 0; every other value is kept. */
  method ZeroValues(m: Matrix, ghost rows: seq<seq<int>>, ghost cols: seq<seq<int>>) returns (m2: Matrix)
    requires MatrixOk(m, rows, cols, Null)
    ensures m2 == m.(evalue := m2.evalue) && |m2.evalue| == |m.evalue|
    ensures forall h :: 0 <= h < |m.evalue| ==> m2.evalue[h] == (if OnRow(rows, h) then 0.0 else m.evalue[h])
  {
    var ev := m.evalue;
    var i := 1;
    while i <= m.neqn
      invariant 1 <= i <= m.neqn + 1 && |ev| == |m.evalue|
      invariant forall h :: 0 <= h < |ev| ==> ev[h] == (if OnRow(rows[..i], h) then 0.0 else m.evalue[h])
    {
      assert RowOk(m, rows[i], i);
      ghost var t := rows[i];
      var el := m.rowst[i];
      ghost var k := 0;
      while el != Null
        invariant 0 <= k <= |t| && el == (if k < |t| then t[k] else Null) && |ev| == |m.evalue|
        invariant forall h :: 0 <= h < |ev| ==>
                    ev[h] == (if OnRow(rows[..i], h) || h in t[..k] then 0.0 else m.evalue[h])
        decreases |t| - k
      {
        ev := ev[el := 0.0];
        el := m.cRight[el];
        k := k + 1;
      }
      assert forall h :: OnRow(rows[..i + 1], h) <==> OnRow(rows[..i], h) || h in t;
      i := i + 1;
    }
    assert rows[..i] == rows;
    m2 := m.(evalue := ev);
  }

  /** Values carry no structure: a matrix that differs only in its values
      (and keeps their number) satisfies the same invariants. */
  lemma ValuesKeepOk(m: Matrix, m2: Matrix, rows: seq<seq<int>>, cols: seq<seq<int>>, x: int)
    requires MatrixOk(m, rows, cols, x)
    requires m2 == m.(evalue := m2.evalue) && |m2.evalue| == |m.evalue|
    ensures MatrixOk(m2, rows, cols, x)
  {
    forall i | 1 <= i <= m.neqn
      ensures RowOk(m2, rows[i], i) && ColOk(m2, cols[i], i) && DiagOk(m2, rows[i], cols[i], i)
    {
      assert RowOk(m, rows[i], i) && ColOk(m, cols[i], i) && DiagOk(m, rows[i], cols[i], i);
    }
    forall h ensures RowOf(m2, h) == RowOf(m, h) && ColOf(m2, h) == ColOf(m, h) {
    }
  }
}
