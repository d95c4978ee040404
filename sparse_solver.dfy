// The global state of the kinetic-scheme sparse solver (sparse.c) around
// the matrix: the right-hand side, the `_getelm` phase and call counter
// with its list of value pointers, the row-order list with its `do_flag`,
// and the `SparseObj` record the globals are saved to and restored from.
//
// A pointer to an element's value (`&el->value`) is the element's handle.
module SparseSolver {
  import opened Sparse
  import opened SparseMatrix

  /** The matrix before any `initeqn`: no equations, no arrays. */
  function EmptyMatrix(): (m: Matrix)
    ensures m.neqn == 0 && |m.erow| == 0
  {
    Matrix([], [], [], [], [], [], [], [], [], 0, [])
  }

  lemma EmptyOk()
    ensures MatrixOk(EmptyMatrix(), [[]], [[]], Null)
  {
  }

  /** `struct SparseObj`: one saved copy of the solver globals.
      `oldfun` is kept as an opaque handle. */
  class SparseObj {
    var rowst: seq<int>
    var diag: seq<int>
    var neqn: nat
    var varord: seq<int>
    var oldfun: int
    var ngetcall: int
    var phase: int
    var coefList: seq<int>
    var nroworder: int
    var roworder: seq<int>
    var orderlist: OrderList?
    var doFlag: int
    ghost var rows: seq<seq<int>>
    ghost var cols: seq<seq<int>>

    /** `create_sparseobj`: every field zero or null. */
    constructor ()
      ensures rowst == [] && diag == [] && neqn == 0 && varord == [] && oldfun == 0
      ensures ngetcall == 0 && phase == 0 && coefList == []
      ensures roworder == [] && nroworder == 0 && orderlist == null && doFlag == 0
      ensures rows == [[]] && cols == [[]]
    {
      rowst, diag, neqn, varord, oldfun := [], [], 0, [], 0;
      ngetcall, phase, coefList := 0, 0, [];
      roworder, nroworder, orderlist, doFlag := [], 0, null, 0;
      rows, cols := [[]], [[]];
    }
  }

  class Solver {
    var mat: Matrix
    ghost var rows: seq<seq<int>>
    ghost var cols: seq<seq<int>>
    var rhs: seq<real>
    var ngetcall: int
    var phase: int
    var coefList: seq<int>
    var nroworder: int
    var roworder: seq<int>
    var orderlist: OrderList?
    var doFlag: int

    /** The matrix satisfies the `check_assert` invariants and the call
        counter is an unsigned value. */
    ghost predicate Valid()
      reads this
    {
      MatrixOk(mat, rows, cols, Null) && 0 <= ngetcall < UintMod
    }

    /** What `increase_order(row)` and `reduce_order(row)` rely on when
        `do_flag` is set: the row's order item is on the order list. */
    ghost predicate OrderReady(row: int)
      reads this, orderlist
    {
      doFlag != 0 ==>
        && orderlist != null && orderlist.Valid()
        && 0 <= row < |roworder| && roworder[row] in orderlist.order
        && 0 <= orderlist.norder[roworder[row]] < UintMod
    }

    /** The zero-initialised globals of the file. */
    constructor ()
      ensures Valid() && mat == EmptyMatrix() && rows == [[]] && cols == [[]]
      ensures rhs == [] && ngetcall == 0 && phase == 0 && coefList == []
      ensures nroworder == 0 && roworder == [] && orderlist == null && doFlag == 0
    {
      mat := EmptyMatrix();
      rows, cols := [[]], [[]];
      rhs, ngetcall, phase, coefList := [], 0, 0, [];
      nroworder, roworder, orderlist, doFlag := 0, [], null, 0;
      EmptyOk();
    }

    /** `increase_order(row)`: nothing when `do_flag` is 0; otherwise the
        row's order item gets norder + 1 and moves to its sorted place. */
    method IncreaseOrder(row: int)
      requires OrderReady(row)
      modifies orderlist
      ensures doFlag == 0 ==> orderlist == null || unchanged(orderlist)
      ensures doFlag != 0 ==>
                var item := roworder[row];
                && orderlist.Valid() && orderlist.head == old(orderlist.head) && orderlist.elm == old(orderlist.elm)
                && orderlist.norder == old(orderlist.norder)[item := Inc32(old(orderlist.norder[item]))]
                && item in orderlist.order
                && Without(orderlist.order, item) == Without(old(orderlist.order), item)
    {
      if doFlag == 0 {
        return;
      }
      var order := roworder[row];
      var _ := orderlist.Reorder(order, true);
    }

    /** `reduce_order(row)`: as `increase_order`, with norder - 1. */
    method ReduceOrder(row: int)
      requires OrderReady(row)
      modifies orderlist
      ensures doFlag == 0 ==> orderlist == null || unchanged(orderlist)
      ensures doFlag != 0 ==>
                var item := roworder[row];
                && orderlist.Valid() && orderlist.head == old(orderlist.head) && orderlist.elm == old(orderlist.elm)
                && orderlist.norder == old(orderlist.norder)[item := Dec32(old(orderlist.norder[item]))]
                && item in orderlist.order
                && Without(orderlist.order, item) == Without(old(orderlist.order), item)
    {
      if doFlag == 0 {
        return;
      }
      var order := roworder[row];
      var _ := orderlist.Reorder(order, false);
    }

    /** `getelm(row, col, new)`: the (row, col) element, found or linked in.
        A new element (when `new` is null) is counted in the row's order. */
    method GetElm(row: int, col: int, reuse: int) returns (e: int)
      requires Valid() && 1 <= row <= mat.neqn && 1 <= col <= mat.neqn
      requires reuse == Null || (0 <= reuse < |mat.erow| && Detached(mat, rows, cols, reuse))
      requires OrderReady(row)
      modifies this, orderlist
      ensures mat.neqn == old(mat.neqn) && mat.varord == old(mat.varord)
      ensures Valid() && Holds(mat, rows, cols, row, col, e)
      ensures (mat == old(mat) && rows == old(rows) && cols == old(cols)) ||
              (Absent(old(mat), old(rows), old(cols), row, col) &&
               Inserted(old(mat), old(rows), old(cols), row, col, reuse, mat, rows, cols, e))
      ensures old(mat.varord[row] == mat.varord[col]) ==> mat == old(mat) && e == mat.diag[mat.varord[row]]
      ensures rhs == old(rhs) && ngetcall == old(ngetcall) && phase == old(phase) && coefList == old(coefList)
      ensures nroworder == old(nroworder) && roworder == old(roworder) && orderlist == old(orderlist)
      ensures doFlag == old(doFlag)
      ensures !(Absent(old(mat), old(rows), old(cols), row, col) && reuse == Null) ==> orderlist == null || unchanged(orderlist)
      ensures Absent(old(mat), old(rows), old(cols), row, col) && reuse == Null && doFlag == 0 ==>
                orderlist == null || unchanged(orderlist)
      ensures Absent(old(mat), old(rows), old(cols), row, col) && reuse == Null && doFlag != 0 ==>
                var item := roworder[row];
                && orderlist.Valid() && orderlist.head == old(orderlist.head) && orderlist.elm == old(orderlist.elm)
                && orderlist.norder == old(orderlist.norder)[item := Inc32(old(orderlist.norder[item]))]
                && item in orderlist.order
                && Without(orderlist.order, item) == Without(old(orderlist.order), item)
    {
      var m3, added;
      ghost var rows3, cols3;
      ghost var m0, rows0, cols0 := mat, rows, cols;
      m3, rows3, cols3, e, added := FindOrLink(mat, rows, cols, row, col, reuse);
      if !added {
        ghost var t := rows0[m0.varord[row]];
        ghost var k :| 0 <= k < |t| && t[k] == e;
        assert !Absent(m0, rows0, cols0, row, col);
      }
      mat, rows, cols := m3, rows3, cols3;
      if added && reuse == Null {
        IncreaseOrder(row);
      }
    }

    /** `_getelm(row, col)`: in phase 0 the next recorded value pointer;
        otherwise `getelm`, counting the call in phase 1 and recording the
        pointer in phase 2. The counter is an unsigned increment. */
    method GetElmPointer(row: int, col: int) returns (p: int)
      requires Valid()
      requires phase == 0 ==> ngetcall < |coefList|
      requires phase != 0 ==> 1 <= row <= mat.neqn && 1 <= col <= mat.neqn && OrderReady(row)
      requires phase != 0 && phase != 1 ==> ngetcall < |coefList|
      modifies this, orderlist
      ensures mat.neqn == old(mat.neqn) && mat.varord == old(mat.varord)
      ensures Valid() && ngetcall == Inc32(old(ngetcall))
      ensures phase == old(phase) && rhs == old(rhs) && roworder == old(roworder) && orderlist == old(orderlist)
      ensures old(phase) == 0 ==> mat == old(mat) && coefList == old(coefList) && p == old(coefList[ngetcall])
      ensures old(phase) != 0 ==> Holds(mat, rows, cols, row, col, p)
      ensures old(phase) == 1 ==> coefList == old(coefList)
      ensures old(phase) != 0 && old(phase) != 1 ==> coefList == old(coefList)[old(ngetcall) := p]
    {
      if phase == 0 {
        p := coefList[ngetcall];
        ngetcall := Inc32(ngetcall);
        return;
      }
      var el := GetElm(row, col, Null);
      if phase == 1 {
        ngetcall := Inc32(ngetcall);
      } else {
        coefList := coefList[ngetcall := el];
        ngetcall := Inc32(ngetcall);
      }
      p := el;
    }

    /** `initeqn(maxeqn)`: nothing when the size is unchanged; otherwise the
        old elements are released and every row and column holds just its
        fresh value-0 diagonal element, varord is the identity and
        rhs[1..maxeqn] is 0. */
    method InitEqn(maxeqn: nat)
      requires Valid() && (maxeqn != mat.neqn ==> maxeqn < |rhs|)
      modifies this
      ensures Valid()
      ensures maxeqn == old(mat.neqn) ==> mat == old(mat) && rows == old(rows) && cols == old(cols) && rhs == old(rhs)
      ensures maxeqn != old(mat.neqn) ==> mat == FreshMatrix(maxeqn) && rows == FreshLines(maxeqn) && cols == rows
      ensures maxeqn != old(mat.neqn) ==>
                |rhs| == |old(rhs)| &&
                forall r :: 0 <= r < |rhs| ==> rhs[r] == (if 1 <= r <= maxeqn then 0.0 else old(rhs[r]))
      ensures ngetcall == old(ngetcall) && phase == old(phase) && coefList == old(coefList)
      ensures nroworder == old(nroworder) && roworder == old(roworder) && orderlist == old(orderlist)
      ensures doFlag == old(doFlag)
    {
      if maxeqn == mat.neqn {
        return;
      }
      var m, rh := DiagonalRun(maxeqn, rhs);
      mat, rhs := m, rh;
      rows := FreshLines(maxeqn);
      cols := rows;
      FreshOk(maxeqn);
    }

    /** `init_coef_list`: the call counter restarts and every element on
        the rows gets value 0. */
    method InitCoefList()
      requires Valid()
      modifies this
      ensures Valid() && ngetcall == 0
      ensures mat == old(mat).(evalue := mat.evalue) && |mat.evalue| == |old(mat.evalue)|
      ensures forall h :: 0 <= h < |mat.evalue| ==>
                mat.evalue[h] == (if OnRow(rows, h) then 0.0 else old(mat.evalue[h]))
      ensures rows == old(rows) && cols == old(cols) && rhs == old(rhs)
      ensures phase == old(phase) && coefList == old(coefList)
      ensures nroworder == old(nroworder) && roworder == old(roworder) && orderlist == old(orderlist)
      ensures doFlag == old(doFlag)
    {
      ngetcall := 0;
      var m2 := ZeroValues(mat, rows, cols);
      ValuesKeepOk(mat, m2, rows, cols, Null);
      mat := m2;
    }

    /** `local2sparseobj(so)`: the eleven globals are copied into `so`. */
    method Local2SparseObj(so: SparseObj)
      modifies so
      ensures so.rowst == mat.rowst && so.diag == mat.diag && so.neqn == mat.neqn && so.varord == mat.varord
      ensures so.ngetcall == ngetcall && so.phase == phase && so.coefList == coefList
      ensures so.roworder == roworder && so.nroworder == nroworder && so.orderlist == orderlist
      ensures so.doFlag == doFlag && so.rows == rows && so.cols == cols
      ensures so.oldfun == old(so.oldfun)
    {
      so.rowst := mat.rowst;
      so.diag := mat.diag;
      so.neqn := mat.neqn;
      so.varord := mat.varord;
      so.ngetcall := ngetcall;
      so.phase := phase;
      so.coefList := coefList;
      so.roworder := roworder;
      so.nroworder := nroworder;
      so.orderlist := orderlist;
      so.doFlag := doFlag;
      so.rows, so.cols := rows, cols;
    }

    /** `sparseobj2local(so)`: the eleven globals are copied back from `so`;
        the element heap and rhs are shared and stay as they are. */
    method SparseObj2Local(so: SparseObj)
      modifies this
      ensures mat == old(mat).(rowst := so.rowst, diag := so.diag, neqn := so.neqn, varord := so.varord)
      ensures ngetcall == so.ngetcall && phase == so.phase && coefList == so.coefList
      ensures roworder == so.roworder && nroworder == so.nroworder && orderlist == so.orderlist
      ensures doFlag == so.doFlag && rows == so.rows && cols == so.cols && rhs == old(rhs)
    {
      var m := mat.(rowst := so.rowst, diag := so.diag, neqn := so.neqn, varord := so.varord);
      mat, ngetcall, phase, coefList := m, so.ngetcall, so.phase, so.coefList;
      roworder, nroworder, orderlist, doFlag := so.roworder, so.nroworder, so.orderlist, so.doFlag;
      rows, cols := so.rows, so.cols;
    }

    /** Saving the globals and restoring them from the same record gives
        back every global, and with it the invariants. */
    method SaveRestore(so: SparseObj)
      requires Valid()
      modifies this, so
      ensures Valid()
      ensures mat == old(mat) && rows == old(rows) && cols == old(cols) && rhs == old(rhs)
      ensures ngetcall == old(ngetcall) && phase == old(phase) && coefList == old(coefList)
      ensures roworder == old(roworder) && nroworder == old(nroworder) && orderlist == old(orderlist)
      ensures doFlag == old(doFlag)
    {
      Local2SparseObj(so);
      SparseObj2Local(so);
    }
  }
}
