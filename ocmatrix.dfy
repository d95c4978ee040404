/** The index logic of the hoc `Matrix` class (src/ivoc/ocmatrix.cpp): the
    full and sparse stores, the diagonal/row/column reads and writes that
    touch exactly the addressed entries, create-on-miss of sparse entries,
    and when `solv` reuses its cached LU factor. Doubles are `real`; the
    Meschach routines behind the dense arithmetic are not modelled. A full
    matrix is an `array2`; a sparse one is a map from (row, column) to the
    stored value, which is what `sp_get_val`, `sprow_idx` and `sp_set_val`
    observe of Meschach's row lists. */
module IvocMatrix {
  import opened Common

  /** Type codes of `OcMatrix`: MFULL is type 1, as the message of `full()`
      says; MSPARSE is 2 (ocmatrix.h is not part of this model). */
  const MFULL := 1
  const MSPARSE := 2

  // ---------------------------------------------------------------------
  // Lines of entries
  // ---------------------------------------------------------------------

  /** The entries one write addresses: row k, column k, or the k-th
      diagonal (above the main one for k > 0, below it for k < 0). */
  datatype Line = Row(k: int) | Col(k: int) | Diag(k: int)

  /** Entry (i, j) of an nrow x ncol matrix lies on the line. */
  predicate OnLine(line: Line, i: int, j: int, nrow: int, ncol: int)
  {
    0 <= i < nrow && 0 <= j < ncol &&
    match line
    case Row(k) => i == k
    case Col(k) => j == k
    case Diag(k) => j == i + k
  }

  /** The index of the vector element written to (i, j): the column along a
      row, the row along a column or a diagonal (`in->elem(i)`). */
  function Along(line: Line, i: int, j: int): int
  {
    match line
    case Row(_) => j
    case Col(_) => i
    case Diag(_) => i
  }

  /** How many elements a vector must offer to cover the line. */
  function Reach(line: Line, nrow: int, ncol: int): int
  {
    if line.Row? then ncol else nrow
  }

  /** The entries of the k-th diagonal have rows lo .. hi - 1: the loops
      start at (0, k) or at (-k, 0) and stop at the first row or column
      past the edge. */
  function DiagRows(k: int, nrow: nat, ncol: nat): (r: (int, int))
    ensures 0 <= r.0 <= r.1 <= nrow && r.1 - r.0 <= ncol
    ensures forall i, j :: OnLine(Diag(k), i, j, nrow, ncol) <==> r.0 <= i < r.1 && j == i + k
  {
    var lo := if k >= 0 then 0 else -k;
    var hi := if ncol - k < nrow then ncol - k else nrow;
    if hi <= lo then (0, 0) else (lo, hi)
  }

  // ---------------------------------------------------------------------
  // Matrix type
  // ---------------------------------------------------------------------

  /** A hoc Matrix: the object behind it and its type code. */
  datatype Matrix = FullM(full: OcFullMatrix) | SparseM(sparse: OcSparseMatrix)

  /** `type_`. */
  function TypeCode(mx: Matrix): int
  {
    if mx.FullM? then MFULL else MSPARSE
  }

  /** The type `instance` builds for a requested code: MSPARSE gives a
      sparse matrix and every other code, known or not, a full one. */
  function InstanceType(t: int): (r: int)
    ensures r == MFULL || r == MSPARSE
    ensures r == MSPARSE <==> t == MSPARSE
  {
    if t == MSPARSE then MSPARSE else MFULL
  }

  /** `OcMatrix::instance`: a new zero matrix of the requested shape, of
      the type `InstanceType` picks. */
  method Instance(nrow: nat, ncol: nat, t: int) returns (mx: Matrix)
    ensures TypeCode(mx) == InstanceType(t)
    ensures mx.FullM? ==> fresh(mx.full) && mx.full.Valid() && mx.full.Rows() == nrow && mx.full.Cols() == ncol
    ensures mx.SparseM? ==> fresh(mx.sparse) && mx.sparse.Valid() && mx.sparse.nrow == nrow && mx.sparse.ncol == ncol && mx.sparse.elts == map[]
  {
    if t == MSPARSE {
      var s := new OcSparseMatrix(nrow, ncol);
      mx := SparseM(s);
    } else {
      var f := new OcFullMatrix(nrow, ncol);
      mx := FullM(f);
    }
  }

  /** `OcMatrix::full`: the full matrix behind a type-1 Matrix, an error
      for any other type. */
  function AsFull(mx: Matrix): (r: Result<OcFullMatrix>)
    ensures r.Ok? <==> TypeCode(mx) == MFULL
    ensures r.Ok? ==> mx == FullM(r.value)
    ensures r.Err? ==> r.msg == "Matrix is not a FULL matrix (type 1)"
  {
    match mx
    case FullM(f) => Ok(f)
    case SparseM(_) => Err("Matrix is not a FULL matrix (type 1)")
  }

  // ---------------------------------------------------------------------
  // LU reuse
  // ---------------------------------------------------------------------

  /** Whether `solv` computes a new LU factor, given the row count of the
      cached one (None before the first call): unless the caller asks to
      reuse it and it has as many rows as the matrix now has. */
  function Refactors(cached: Option<int>, useLu: bool, nrow: int): (r: bool)
    ensures cached == None ==> r
    ensures !useLu ==> r
    ensures !r <==> useLu && cached == Some(nrow)
  {
    !(cached.Some? && useLu && cached.value == nrow)
  }

  /** After any solve the next one that asks to reuse the factor, on a
      matrix of unchanged size, does not factor again. */
  lemma ReuseAfterSolve(cached: Option<int>, useLu: bool, nrow: int)
    ensures !Refactors(Some(nrow), true, nrow)
    ensures Refactors(cached, useLu, nrow) || cached == Some(nrow)
  {
  }

  // ---------------------------------------------------------------------
  // Full matrix
  // ---------------------------------------------------------------------

  /** `OcFullMatrix`: the entries `m_` and the row count of the cached LU
      factor `lu_factor_` (None while it is nil). */
  class OcFullMatrix {
    var m: array2<real>
    var luRows: Option<int>

    ghost predicate Valid()
      reads this
    {
      luRows.Some? ==> luRows.value >= 0
    }

    function Rows(): nat
      reads this
    {
      m.Length0
    }

    function Cols(): nat
      reads this
    {
      m.Length1
    }

    /** `m_get` gives a zero matrix; no factor is cached yet. */
    constructor (nrow: nat, ncol: nat)
      ensures Valid() && fresh(m) && m.Length0 == nrow && m.Length1 == ncol && luRows == None
      ensures forall i, j :: 0 <= i < nrow && 0 <= j < ncol ==> m[i, j] == 0.0
    {
      m := new real[nrow, ncol]((i, j) => 0.0);
      luRows := None;
    }

    /** `getdiag(k, out)`: out[i] receives m[i][i + k] for every row i on
      the k-th diagonal; the other elements of out keep their values. */
    method GetDiag(k: int, out: array<real>)
      requires out.Length >= m.Length0
      modifies out
      ensures forall i :: 0 <= i < out.Length ==>
        out[i] == if OnLine(Diag(k), i, i + k, m.Length0, m.Length1) then m[i, i + k] else old(out[i])
    {
      var row, col := m.Length0, m.Length1;
      var i := if k >= 0 then 0 else -k;
      var j := i + k;
      while i < row && j < col
        invariant j == i + k && 0 <= i && 0 <= j
        invariant forall t :: 0 <= t < out.Length ==>
          out[t] == if OnLine(Diag(k), t, t + k, row, col) && t < i then m[t, t + k] else old(out[t])
        decreases row - i
      {
        out[i] := m[i, j];
        i, j := i + 1, j + 1;
      }
    }

    /** `setdiag(k, in)`: every entry of the k-th diagonal receives the
      element of `in` at its row; nothing else changes. */
    method SetDiag(k: int, inp: array<real>)
      requires inp.Length >= m.Length0
      modifies m
      ensures forall i, j :: 0 <= i < m.Length0 && 0 <= j < m.Length1 ==>
        m[i, j] == if OnLine(Diag(k), i, j, m.Length0, m.Length1) then inp[i] else old(m[i, j])
    {
      var row, col := m.Length0, m.Length1;
      var i := if k >= 0 then 0 else -k;
      var j := i + k;
      while i < row && j < col
        invariant j == i + k && 0 <= i && 0 <= j
        invariant forall a, b :: 0 <= a < row && 0 <= b < col ==>
          m[a, b] == if OnLine(Diag(k), a, b, row, col) && a < i then inp[a] else old(m[a, b])
        decreases row - i
      {
        m[i, j] := inp[i];
        i, j := i + 1, j + 1;
      }
    }

    /** `setdiag(k, x)`: every entry of the k-th diagonal becomes x; nothing
      else changes. */
    method SetDiagScalar(k: int, x: real)
      modifies m
      ensures forall i, j :: 0 <= i < m.Length0 && 0 <= j < m.Length1 ==>
        m[i, j] == if OnLine(Diag(k), i, j, m.Length0, m.Length1) then x else old(m[i, j])
    {
      var row, col := m.Length0, m.Length1;
      var i := if k >= 0 then 0 else -k;
      var j := i + k;
      while i < row && j < col
        invariant j == i + k && 0 <= i && 0 <= j
        invariant forall a, b :: 0 <= a < row && 0 <= b < col ==>
          m[a, b] == if OnLine(Diag(k), a, b, row, col) && a < i then x else old(m[a, b])
        decreases row - i
      {
        m[i, j] := x;
        i, j := i + 1, j + 1;
      }
    }

    /** `setrow(k, x)`: every entry of row k becomes x; nothing else
      changes. */
    method SetRowScalar(k: int, x: real)
      requires 0 <= k < m.Length0
      modifies m
      ensures forall i, j :: 0 <= i < m.Length0 && 0 <= j < m.Length1 ==>
        m[i, j] == if OnLine(Row(k), i, j, m.Length0, m.Length1) then x else old(m[i, j])
    {
      var col := m.Length1;
      var i := 0;
      while i < col
        invariant 0 <= i <= col
        invariant forall a, b :: 0 <= a < m.Length0 && 0 <= b < col ==>
          m[a, b] == if a == k && b < i then x else old(m[a, b])
      {
        m[k, i] := x;
        i := i + 1;
      }
    }

    /** `setcol(k, x)`: every entry of column k becomes x; nothing else
      changes. */
    method SetColScalar(k: int, x: real)
      requires 0 <= k < m.Length1
      modifies m
      ensures forall i, j :: 0 <= i < m.Length0 && 0 <= j < m.Length1 ==>
        m[i, j] == if OnLine(Col(k), i, j, m.Length0, m.Length1) then x else old(m[i, j])
    {
      var row := m.Length0;
      var i := 0;
      while i < row
        invariant 0 <= i <= row
        invariant forall a, b :: 0 <= a < row && 0 <= b < m.Length1 ==>
          m[a, b] == if b == k && a < i then x else old(m[a, b])
      {
        m[i, k] := x;
        i := i + 1;
      }
    }

    /** `solv`: reports whether it factors; afterwards a factor with the
      matrix's row count is cached. The entries are not changed. */
    method Solv(useLu: bool) returns (factored: bool)
      requires Valid()
      modifies this`luRows
      ensures Valid()
      ensures factored == Refactors(old(luRows), useLu, m.Length0)
      ensures luRows == Some(m.Length0)
    {
      factored := true;
      if luRows.None? {
        luRows := Some(m.Length0);
      } else if useLu && luRows.value == m.Length0 {
        factored := false;
      }
      if factored {
        luRows := Some(m.Length0);
      }
    }
  }

  // ---------------------------------------------------------------------
  // Sparse matrix
  // ---------------------------------------------------------------------

  /** `sp_get_val`: the stored value, or 0 for an entry that is absent. */
  function ValueAt(e: map<(int, int), real>, i: int, j: int): real
  {
    if (i, j) in e then e[(i, j)] else 0.0
  }

  /** The store after `mep(i, j)`: the entry exists, with value 0 if it
      was missing; what every entry reads is unchanged. */
  function Materialise(e: map<(int, int), real>, i: int, j: int): (r: map<(int, int), real>)
    ensures r.Keys == e.Keys + {(i, j)}
    ensures forall p :: p in e ==> r[p] == e[p]
    ensures forall a, b :: ValueAt(r, a, b) == ValueAt(e, a, b)
  {
    if (i, j) in e then e else e[(i, j) := 0.0]
  }

  /** One step of a sparse line write: `if ((p = pelm(i, j))) *p = x; else
      if (x) sp_set_val(...)` for a vector, or a plain `sp_set_val` (which
      always stores) for a scalar. */
  function Store(e: map<(int, int), real>, p: (int, int), x: real, always: bool): map<(int, int), real>
  {
    if p in e || always || x != 0.0 then e[p := x] else e
  }

  /** e1 is e0 after writing v (element Along(line, i, j) to (i, j)) to the
      entries of the line whose index is below `upto`: those entries are
      overwritten when present, and created when `always` holds or the
      value is nonzero; every other entry is as it was. */
  ghost predicate Written(e0: map<(int, int), real>, e1: map<(int, int), real>, line: Line, v: seq<real>,
                    nrow: int, ncol: int, upto: int, always: bool)
    requires |v| >= Reach(line, nrow, ncol)
  {
    (forall p :: p in e1 <==>
      (p in e0 || (OnLine(line, p.0, p.1, nrow, ncol) && Along(line, p.0, p.1) < upto
                   && (always || v[Along(line, p.0, p.1)] != 0.0)))) &&
    (forall p :: p in e1 ==>
      e1[p] == if OnLine(line, p.0, p.1, nrow, ncol) && Along(line, p.0, p.1) < upto
               then v[Along(line, p.0, p.1)] else e0[p])
  }

  /** Writing the next entry of the line extends a partial write by one. */
  lemma WrittenStep(e0: map<(int, int), real>, e: map<(int, int), real>, line: Line, v: seq<real>,
                    nrow: int, ncol: int, t: int, i: int, j: int, always: bool)
    requires |v| >= Reach(line, nrow, ncol)
    requires Written(e0, e, line, v, nrow, ncol, t, always)
    requires OnLine(line, i, j, nrow, ncol) && Along(line, i, j) == t
    ensures Written(e0, Store(e, (i, j), v[t], always), line, v, nrow, ncol, t + 1, always)
  {
    var e' := Store(e, (i, j), v[t], always);
    forall p
      ensures p in e' <==>
        (p in e0 || (OnLine(line, p.0, p.1, nrow, ncol) && Along(line, p.0, p.1) < t + 1
                     && (always || v[Along(line, p.0, p.1)] != 0.0)))
    {
      if OnLine(line, p.0, p.1, nrow, ncol) && Along(line, p.0, p.1) == t {
        assert p == (i, j);
      }
    }
    forall p | p in e'
      ensures e'[p] == if OnLine(line, p.0, p.1, nrow, ncol) && Along(line, p.0, p.1) < t + 1
                       then v[Along(line, p.0, p.1)] else e0[p]
    {
      if OnLine(line, p.0, p.1, nrow, ncol) && Along(line, p.0, p.1) == t {
        assert p == (i, j);
      }
    }
  }

  /** A vector write to a sparse matrix reads back exactly like the same
      write to a full one: skipping zeros for absent entries is invisible
      to `getval`. */
  lemma SparseWriteReadsDense(e0: map<(int, int), real>, e1: map<(int, int), real>, line: Line, v: seq<real>,
                              nrow: int, ncol: int, always: bool)
    requires |v| >= Reach(line, nrow, ncol)
    requires Written(e0, e1, line, v, nrow, ncol, Reach(line, nrow, ncol), always)
    ensures forall i, j :: 0 <= i < nrow && 0 <= j < ncol ==>
      ValueAt(e1, i, j) == if OnLine(line, i, j, nrow, ncol) then v[Along(line, i, j)] else ValueAt(e0, i, j)
  {
    forall i, j | 0 <= i < nrow && 0 <= j < ncol
      ensures ValueAt(e1, i, j) == if OnLine(line, i, j, nrow, ncol) then v[Along(line, i, j)] else ValueAt(e0, i, j)
    {
      var p := (i, j);
      assert OnLine(line, i, j, nrow, ncol) ==> Along(line, i, j) < Reach(line, nrow, ncol);
      if p in e1 {
        assert e1[p] == if OnLine(line, i, j, nrow, ncol) then v[Along(line, i, j)] else e0[p];
      }
    }
  }

  /** Every element x: the vector a scalar write stands for. */
  function Filled(x: real, n: int): (r: seq<real>)
    ensures |r| == (if n < 0 then 0 else n) && forall i :: 0 <= i < |r| ==> r[i] == x
  {
    if n <= 0 then [] else Filled(x, n - 1) + [x]
  }

  /** `OcSparseMatrix`: the shape, the stored entries, and the row count
      of the cached LU factor (None while `lu_factor_` is nil). */
  class OcSparseMatrix {
    var nrow: nat
    var ncol: nat
    var elts: map<(int, int), real>
    var luRows: Option<int>

    /** Every stored entry lies inside the matrix. */
    ghost predicate Valid()
      reads this
    {
      (forall p :: p in elts ==> 0 <= p.0 < nrow && 0 <= p.1 < ncol) &&
      (luRows.Some? ==> luRows.value >= 0)
    }

    /** `sp_get` gives a matrix with no stored entries. */
    constructor (r: nat, c: nat)
      ensures Valid() && nrow == r && ncol == c && elts == map[] && luRows == None
    {
      nrow, ncol := r, c;
      elts := map[];
      luRows := None;
    }

    /** `pelm(i, j)`: the stored entry, or nil (None) when it is absent. */
    function Pelm(i: int, j: int): (r: Option<real>)
      reads this
      ensures r.Some? <==> (i, j) in elts
      ensures r.Some? ==> r.value == elts[(i, j)] == ValueAt(elts, i, j)
      ensures r.None? ==> ValueAt(elts, i, j) == 0.0
    {
      if (i, j) in elts then Some(elts[(i, j)]) else None
    }

    /** `mep(i, j)`: on a miss the entry is created with value 0; the
      result is the entry's value, and every other entry is unchanged. */
    method Mep(i: int, j: int) returns (x: real)
      requires Valid() && 0 <= i < nrow && 0 <= j < ncol
      modifies this`elts
      ensures Valid()
      ensures (i, j) in elts && x == elts[(i, j)]
      ensures elts == Materialise(old(elts), i, j)
      ensures x == ValueAt(old(elts), i, j)
    {
      var p := Pelm(i, j);
      if p.Some? {
        return p.value;
      }
      elts := elts[(i, j) := 0.0];
      x := elts[(i, j)];
    }

    /** `getval(i, j)`. */
    function GetVal(i: int, j: int): (x: real)
      reads this
      ensures (i, j) in elts ==> x == elts[(i, j)]
      ensures (i, j) !in elts ==> x == 0.0
    {
      ValueAt(elts, i, j)
    }

    /** The body of the vector-write loops at entry (i, j), the element
      index t along the line. */
    method Put(line: Line, v: seq<real>, i: int, j: int, t: int, always: bool)
      requires Valid() && |v| >= Reach(line, nrow, ncol)
      requires OnLine(line, i, j, nrow, ncol) && Along(line, i, j) == t
      modifies this`elts
      ensures Valid()
      ensures elts == Store(old(elts), (i, j), v[t], always)
    {
      var p := Pelm(i, j);
      if p.Some? || always || v[t] != 0.0 {
        elts := elts[(i, j) := v[t]];
      }
    }

    /** `setrow(k, in)`: present entries of row k take in's values; absent
      ones are created only for nonzero values; nothing else changes. */
    method SetRow(k: int, inp: array<real>)
      requires Valid() && 0 <= k < nrow && inp.Length >= ncol
      modifies this`elts
      ensures Valid()
      ensures Written(old(elts), elts, Row(k), inp[..], nrow, ncol, ncol, false)
    {
      WriteRow(k, inp[..], false);
    }

    /** `setrow(k, x)`: every entry of row k is stored with value x. */
    method SetRowScalar(k: int, x: real)
      requires Valid() && 0 <= k < nrow
      modifies this`elts
      ensures Valid()
      ensures Written(old(elts), elts, Row(k), Filled(x, ncol), nrow, ncol, ncol, true)
    {
      WriteRow(k, Filled(x, ncol), true);
    }

    /** `setcol(k, in)`: present entries of column k take in's values;
      absent ones are created only for nonzero values. */
    method SetCol(k: int, inp: array<real>)
      requires Valid() && 0 <= k < ncol && inp.Length >= nrow
      modifies this`elts
      ensures Valid()
      ensures Written(old(elts), elts, Col(k), inp[..], nrow, ncol, nrow, false)
    {
      WriteCol(k, inp[..], false);
    }

    /** `setcol(k, x)`: every entry of column k is stored with value x. */
    method SetColScalar(k: int, x: real)
      requires Valid() && 0 <= k < ncol
      modifies this`elts
      ensures Valid()
      ensures Written(old(elts), elts, Col(k), Filled(x, nrow), nrow, ncol, nrow, true)
    {
      WriteCol(k, Filled(x, nrow), true);
    }

    /** `setdiag(k, in)`: present entries of the k-th diagonal take in's
      values; absent ones are created only for nonzero values. */
    method SetDiag(k: int, inp: array<real>)
      requires Valid() && inp.Length >= nrow
      modifies this`elts
      ensures Valid()
      ensures Written(old(elts), elts, Diag(k), inp[..], nrow, ncol, nrow, false)
    {
      WriteDiag(k, inp[..], false);
    }

    /** `setdiag(k, x)`: every entry of the k-th diagonal is stored with
      value x. */
    method SetDiagScalar(k: int, x: real)
      requires Valid()
      modifies this`elts
      ensures Valid()
      ensures Written(old(elts), elts, Diag(k), Filled(x, nrow), nrow, ncol, nrow, true)
    {
      WriteDiag(k, Filled(x, nrow), true);
    }

    /** The `for (i=0; i < ncol; ++i)` loop of both `setrow` forms. */
    method WriteRow(k: int, v: seq<real>, always: bool)
      requires Valid() && 0 <= k < nrow && |v| >= ncol
      modifies this`elts
      ensures Valid()
      ensures Written(old(elts), elts, Row(k), v, nrow, ncol, ncol, always)
    {
      var n := ncol;
      var i := 0;
      while i < n
        invariant 0 <= i <= n && Valid()
        invariant Written(old(elts), elts, Row(k), v, nrow, ncol, i, always)
      {
        WrittenStep(old(elts), elts, Row(k), v, nrow, ncol, i, k, i, always);
        Put(Row(k), v, k, i, i, always);
        i := i + 1;
      }
    }

    /** The `for (i=0; i < nrow; ++i)` loop of both `setcol` forms. */
    method WriteCol(k: int, v: seq<real>, always: bool)
      requires Valid() && 0 <= k < ncol && |v| >= nrow
      modifies this`elts
      ensures Valid()
      ensures Written(old(elts), elts, Col(k), v, nrow, ncol, nrow, always)
    {
      var n := nrow;
      var i := 0;
      while i < n
        invariant 0 <= i <= n && Valid()
        invariant Written(old(elts), elts, Col(k), v, nrow, ncol, i, always)
      {
        WrittenStep(old(elts), elts, Col(k), v, nrow, ncol, i, i, k, always);
        Put(Col(k), v, i, k, i, always);
        i := i + 1;
      }
    }

    /** The two diagonal loops of both `setdiag` forms: from (0, k) when
      k >= 0, from (-k, 0) otherwise, until a row or column runs out. */
    method WriteDiag(k: int, v: seq<real>, always: bool)
      requires Valid() && |v| >= nrow
      modifies this`elts
      ensures Valid()
      ensures Written(old(elts), elts, Diag(k), v, nrow, ncol, nrow, always)
    {
      var row, col := nrow, ncol;
      var i := if k >= 0 then 0 else -k;
      var j := i + k;
      while i < row && j < col
        invariant j == i + k && 0 <= i && 0 <= j && Valid()
        invariant Written(old(elts), elts, Diag(k), v, nrow, ncol, i, always)
        decreases row - i
      {
        WrittenStep(old(elts), elts, Diag(k), v, nrow, ncol, i, i, j, always);
        Put(Diag(k), v, i, j, i, always);
        i, j := i + 1, j + 1;
      }
      WrittenDone(old(elts), elts, k, v, nrow, ncol, i, always);
    }

    /** `solv`: the same reuse rule as the full matrix's. */
    method Solv(useLu: bool) returns (factored: bool)
      requires Valid()
      modifies this`luRows
      ensures Valid()
      ensures factored == Refactors(old(luRows), useLu, nrow)
      ensures luRows == Some(nrow)
    {
      factored := true;
      if luRows.None? {
        luRows := Some(nrow);
      } else if useLu && luRows.value == nrow {
        factored := false;
      }
      if factored {
        luRows := Some(nrow);
      }
    }
  }

  /** When the diagonal loop stops at row i, no entry of the diagonal lies
      at or below it, so the partial write is the whole write. */
  lemma WrittenDone(e0: map<(int, int), real>, e1: map<(int, int), real>, k: int, v: seq<real>,
                    nrow: int, ncol: int, i: int, always: bool)
    requires |v| >= nrow && 0 <= i && (i >= nrow || i + k >= ncol)
    requires Written(e0, e1, Diag(k), v, nrow, ncol, i, always)
    ensures Written(e0, e1, Diag(k), v, nrow, ncol, nrow, always)
  {
    forall a: int, b: int | OnLine(Diag(k), a, b, nrow, ncol)
      ensures a < i && a < nrow
    {
    }
  }
}
