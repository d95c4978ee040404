/** The arithmetic of NEURON's MPI spike exchange (src/nrnmpi/mpispike.c):
    the (time, rank) minimum reduction used by the variable-step method,
    the receive counts, displacements and overflow sizes of the three
    all-gather exchanges, and the operator choice of the double allreduce.
    The collective calls themselves are not modelled: what an all-gather
    delivers is a parameter, and an all-reduce is a fold over the values
    every rank contributes. Doubles are modelled as `real`. */
module MpiSpike {
  import opened Common

  // ---------------------------------------------------------------------
  // pgvts: the least (time, rank) among all ranks
  // ---------------------------------------------------------------------

  /** A pgvts buffer is four doubles: time, operation, init flag, rank. */
  predicate IsPgvtsBuf(b: seq<real>)
  {
    |b| == 4
  }

  /** `a` comes strictly before `b`: earlier time, or the same time and a
      smaller rank. */
  predicate Precedes(a: seq<real>, b: seq<real>)
    requires IsPgvtsBuf(a) && IsPgvtsBuf(b)
  {
    a[0] < b[0] || (a[0] == b[0] && a[3] < b[3])
  }

  /** What `pgvts_op` leaves in `inout` when `in` is `a` and `inout` is
      `b`: the one of the two that nothing precedes, keeping `b` on a tie. */
  function Combine(a: seq<real>, b: seq<real>): (r: seq<real>)
    requires IsPgvtsBuf(a) && IsPgvtsBuf(b)
    ensures IsPgvtsBuf(r) && (r == a || r == b)
    ensures !Precedes(a, r) && !Precedes(b, r)
    ensures r == a ==> (Precedes(a, b) || a == b)
  {
    if Precedes(a, b) then a else b
  }

  /** With different ranks the operator is commutative, as its
      registration with the commute flag set declares. */
  lemma CombineCommutes(a: seq<real>, b: seq<real>)
    requires IsPgvtsBuf(a) && IsPgvtsBuf(b) && a[3] != b[3]
    ensures Combine(a, b) == Combine(b, a)
  {
  }

  /** With the same time and rank the operator keeps `inout`, so it is not
      commutative when two buffers carry one rank. */
  lemma CombineTieKeepsInout(a: seq<real>, b: seq<real>)
    requires IsPgvtsBuf(a) && IsPgvtsBuf(b) && a[0] == b[0] && a[3] == b[3]
    ensures Combine(a, b) == b && Combine(b, a) == a
  {
  }

  /** The operator is associative for any buffers. */
  lemma CombineAssociates(a: seq<real>, b: seq<real>, c: seq<real>)
    requires IsPgvtsBuf(a) && IsPgvtsBuf(b) && IsPgvtsBuf(c)
    ensures Combine(a, Combine(b, c)) == Combine(Combine(a, b), c)
  {
  }

  /** `pgvts_op`: the length assertion fails (false) unless `len` is 4; otherwise
      `inout` is overwritten by `in` exactly when `in` precedes it. */
  method PgvtsOp(inp: array<real>, inout: array<real>, len: int) returns (ok: bool)
    requires inp.Length == 4 && inout.Length == 4 && inp != inout
    modifies inout
    ensures ok <==> len == 4
    ensures ok ==> inout[..] == Combine(old(inp[..]), old(inout[..]))
    ensures ok ==> (inout[..] == old(inp[..]) <==> Precedes(old(inp[..]), old(inout[..])) || old(inp[..]) == old(inout[..]))
    ensures !ok ==> inout[..] == old(inout[..])
  {
    if len != 4 {
      return false;
    }
    ok := true;
    if inp[0] <= inout[0] {
      if inp[0] < inout[0] {
        CopyBuf(inp, inout);
      } else if inp[3] < inout[3] {
        CopyBuf(inp, inout);
      }
    }
  }

  /** The `for (i=0; i < 4; ++i) inout[i] = in[i]` loop. */
  method CopyBuf(src: array<real>, dst: array<real>)
    requires src.Length == dst.Length && src != dst
    modifies dst
    ensures dst[..] == src[..]
  {
    var i := 0;
    while i < dst.Length
      invariant 0 <= i <= dst.Length
      invariant forall k :: 0 <= k < i ==> dst[k] == src[k]
    {
      dst[i] := src[i];
      i := i + 1;
    }
  }

  /** Each rank's buffer carries its own rank in the last entry, as
      `nrnmpi_pgvts_least` fills it. */
  predicate RankStamped(bufs: seq<seq<real>>)
  {
    forall k :: 0 <= k < |bufs| ==> IsPgvtsBuf(bufs[k]) && bufs[k][3] == k as real
  }

  /** The all-reduce with `pgvts_op`, folded in rank order: the result is
      one of the buffers and no buffer precedes it. */
  function Reduce(bufs: seq<seq<real>>): (r: seq<real>)
    requires |bufs| >= 1 && forall k :: 0 <= k < |bufs| ==> IsPgvtsBuf(bufs[k])
    ensures IsPgvtsBuf(r) && r in bufs
    ensures forall k :: 0 <= k < |bufs| ==> !Precedes(bufs[k], r)
    decreases |bufs|
  {
    if |bufs| == 1 then bufs[0]
    else
      var acc := Reduce(bufs[..|bufs| - 1]);
      assert forall k :: 0 <= k < |bufs| - 1 ==> bufs[..|bufs| - 1][k] == bufs[k];
      Combine(bufs[|bufs| - 1], acc)
  }

  /** With stamped ranks at most one buffer is preceded by none. */
  lemma LeastUnique(bufs: seq<seq<real>>, i: int, j: int)
    requires RankStamped(bufs) && 0 <= i < |bufs| && 0 <= j < |bufs|
    requires !Precedes(bufs[i], bufs[j]) && !Precedes(bufs[j], bufs[i])
    ensures i == j
  {
  }

  /** The all-reduce does not depend on the order in which MPI combines the
      ranks' buffers: any reordering gives the same tuple. */
  lemma {:induction false} ReduceOrderFree(bufs: seq<seq<real>>, perm: seq<seq<real>>)
    requires |bufs| >= 1 && RankStamped(bufs) && multiset(perm) == multiset(bufs)
    ensures |perm| >= 1 && forall k :: 0 <= k < |perm| ==> IsPgvtsBuf(perm[k])
    ensures Reduce(perm) == Reduce(bufs)
  {
    assert |perm| == |multiset(perm)| == |bufs|;
    forall k | 0 <= k < |perm|
      ensures perm[k] in bufs
    {
      assert perm[k] in multiset(perm);
    }
    var x := Reduce(perm);
    var y := Reduce(bufs);
    assert x in multiset(bufs);
    var i :| 0 <= i < |bufs| && bufs[i] == x;
    var j :| 0 <= j < |bufs| && bufs[j] == y;
    assert y in multiset(perm);
    var jp :| 0 <= jp < |perm| && perm[jp] == y;
    var ip :| 0 <= ip < |bufs| && bufs[ip] == x;
    assert !Precedes(perm[jp], x);
    LeastUnique(bufs, i, j);
  }

  /** The buffer this rank contributes: `ibuf` of `nrnmpi_pgvts_least`. */
  function Ibuf(t: real, op: int, init: int, myid: int): (b: seq<real>)
    ensures IsPgvtsBuf(b) && b[0] == t && b[3] == myid as real
  {
    [t, op as real, init as real, myid as real]
  }

  /** What `nrnmpi_pgvts_least` writes back through its three pointers and
      returns. */
  datatype Least = Least(t: real, op: int, init: int, least: int)

  /** `nrnmpi_pgvts_least`: `bufs` are the buffers of all ranks (this rank's
      at `myid`). It returns 1 exactly on the rank whose tuple nothing
      precedes, and that rank gets back its own time, operation and flag. */
  function PgvtsLeast(t: real, op: int, init: int, myid: int, bufs: seq<seq<real>>): (r: Least)
    requires 0 <= myid < |bufs| && RankStamped(bufs) && bufs[myid] == Ibuf(t, op, init, myid)
    ensures r.least == 0 || r.least == 1
    ensures r.least == 1 <==> forall k :: 0 <= k < |bufs| ==> !Precedes(bufs[k], bufs[myid])
    ensures r.least == 1 ==> r.t == t && r.op == op && r.init == init
    ensures r.t <= t
  {
    var obuf := Reduce(bufs);
    var w :| 0 <= w < |bufs| && bufs[w] == obuf;
    TruncOfInt(w);
    TruncOfInt(op);
    TruncOfInt(init);
    assert Trunc(obuf[3]) == w;
    assert (forall k :: 0 <= k < |bufs| ==> !Precedes(bufs[k], bufs[myid])) ==> w == myid by {
      if forall k :: 0 <= k < |bufs| ==> !Precedes(bufs[k], bufs[myid]) {
        LeastUnique(bufs, w, myid);
      }
    }
    Least(obuf[0], Trunc(obuf[1]), Trunc(obuf[2]), if myid == Trunc(obuf[3]) then 1 else 0)
  }

  /** Exactly one rank is told it holds the least tuple. */
  lemma OneLeastRank(t: seq<real>, op: seq<int>, init: seq<int>, bufs: seq<seq<real>>, a: int, b: int)
    requires |bufs| == |t| == |op| == |init| && RankStamped(bufs)
    requires forall k :: 0 <= k < |bufs| ==> bufs[k] == Ibuf(t[k], op[k], init[k], k)
    requires 0 <= a < |bufs| && 0 <= b < |bufs|
    requires PgvtsLeast(t[a], op[a], init[a], a, bufs).least == 1
    requires PgvtsLeast(t[b], op[b], init[b], b, bufs).least == 1
    ensures a == b
  {
    LeastUnique(bufs, a, b);
  }

  /** Some rank is told it holds the least tuple. */
  lemma SomeLeastRank(t: seq<real>, op: seq<int>, init: seq<int>, bufs: seq<seq<real>>)
    requires |bufs| >= 1 && |bufs| == |t| == |op| == |init| && RankStamped(bufs)
    requires forall k :: 0 <= k < |bufs| ==> bufs[k] == Ibuf(t[k], op[k], init[k], k)
    ensures exists w :: 0 <= w < |bufs| && PgvtsLeast(t[w], op[w], init[w], w, bufs).least == 1
  {
    var obuf := Reduce(bufs);
    var w :| 0 <= w < |bufs| && bufs[w] == obuf;
    assert PgvtsLeast(t[w], op[w], init[w], w, bufs).least == 1;
  }

  // ---------------------------------------------------------------------
  // nrnmpi_dbl_allreduce
  // ---------------------------------------------------------------------

  datatype ReduceOp = SumOp | MaxOp | MinOp

  /** Type 1 is a sum, 2 a maximum and anything else a minimum. */
  function OpFor(kind: int): (op: ReduceOp)
    ensures op == SumOp <==> kind == 1
    ensures op == MaxOp <==> kind == 2
  {
    if kind == 1 then SumOp else if kind == 2 then MaxOp else MinOp
  }

  /** The sum of the ranks' values, first rank first. */
  function RealSum(xs: seq<real>): real
  {
    if xs == [] then 0.0 else xs[0] + RealSum(xs[1..])
  }

  /** Summing the last value onto the sum of the others gives the sum. */
  lemma {:induction false} RealSumSnoc(xs: seq<real>, x: real)
    ensures RealSum(xs + [x]) == RealSum(xs) + x
  {
    if xs != [] {
      assert (xs + [x])[1..] == xs[1..] + [x];
      RealSumSnoc(xs[1..], x);
    }
  }

  /** The all-reduce with `op`, combining the ranks last to first. */
  function Fold(op: ReduceOp, xs: seq<real>): (r: real)
    requires |xs| >= 1
    ensures op == MaxOp ==> r in xs && forall k :: 0 <= k < |xs| ==> xs[k] <= r
    ensures op == MinOp ==> r in xs && forall k :: 0 <= k < |xs| ==> r <= xs[k]
    ensures op == SumOp ==> r == RealSum(xs)
    decreases |xs|
  {
    var n := |xs|;
    if n == 1 then
      assert xs == [] + [xs[0]];
      RealSumSnoc([], xs[0]);
      xs[0]
    else
      var acc := Fold(op, xs[..n - 1]);
      assert xs == xs[..n - 1] + [xs[n - 1]];
      RealSumSnoc(xs[..n - 1], xs[n - 1]);
      assert forall k :: 0 <= k < n - 1 ==> xs[..n - 1][k] == xs[k];
      match op
      case SumOp => acc + xs[n - 1]
      case MaxOp => if acc < xs[n - 1] then xs[n - 1] else acc
      case MinOp => if xs[n - 1] < acc then xs[n - 1] else acc
  }

  /** `nrnmpi_dbl_allreduce`: `all` holds the value of every rank (this
      rank's `x` at `myid`). With one process `x` comes back unchanged;
      otherwise the result is the sum, the maximum or the minimum. */
  function DblAllreduce(x: real, kind: int, myid: int, all: seq<real>): (r: real)
    requires 0 <= myid < |all| && all[myid] == x
    ensures |all| < 2 ==> r == x
    ensures kind == 1 ==> r == RealSum(all)
    ensures kind == 2 ==> r in all && forall k :: 0 <= k < |all| ==> all[k] <= r
    ensures kind != 1 && kind != 2 ==> r in all && forall k :: 0 <= k < |all| ==> r <= all[k]
  {
    if |all| < 2 then
      assert all == [x];
      assert RealSum(all) == x + RealSum([]);
      x
    else Fold(OpFor(kind), all)
  }

  // ---------------------------------------------------------------------
  // spike exchange counts, displacements and overflow
  // ---------------------------------------------------------------------

  newtype byte = x: int | 0 <= x < 256

  /** A capacity after the check `if (need) if (capacity < need)
      capacity = need + 10`. */
  function Grown(cap: int, need: int): (c: int)
    ensures c >= cap && (need != 0 ==> c >= need)
    ensures c == cap || c == need + 10
  {
    if need != 0 && cap < need then need + 10 else cap
  }

  /** A growth happens only when the old capacity does not hold the need. */
  lemma GrownOnlyWhenShort(cap: int, need: int)
    requires cap >= need
    ensures Grown(cap, need) == cap
  {
  }

  /** Spikes of one rank past the `nrn_spikebuf_size` that travel in its
      fixed buffer. */
  function Overflow(nspike: int, bufsize: int): (o: int)
    ensures o >= 0
    ensures nspike > bufsize ==> o == nspike - bufsize
    ensures nspike <= bufsize ==> o == 0
  {
    if nspike > bufsize then nspike - bufsize else 0
  }

  /** Spikes of one rank that travel in its fixed buffer. */
  function Kept(nspike: int, bufsize: int): int
  {
    if nspike > bufsize then bufsize else nspike
  }

  function Overflows(nspike: seq<int>, bufsize: int): (o: seq<int>)
    ensures |o| == |nspike| && forall k :: 0 <= k < |o| ==> o[k] == Overflow(nspike[k], bufsize)
  {
    seq(|nspike|, k requires 0 <= k < |nspike| => Overflow(nspike[k], bufsize))
  }

  function KeptCounts(nspike: seq<int>, bufsize: int): (o: seq<int>)
    ensures |o| == |nspike| && forall k :: 0 <= k < |o| ==> o[k] == Kept(nspike[k], bufsize)
  {
    seq(|nspike|, k requires 0 <= k < |nspike| => Kept(nspike[k], bufsize))
  }

  /** Every spike travels either in a fixed buffer or in the overflow
      all-gather, so the returned total counts both. */
  lemma {:induction false} SpikesSplit(nspike: seq<int>, bufsize: int, n: int)
    requires 0 <= n <= |nspike|
    ensures Sum(nspike, 0, n) == Sum(KeptCounts(nspike, bufsize), 0, n) + Sum(Overflows(nspike, bufsize), 0, n)
    decreases n
  {
    if n > 0 {
      SpikesSplit(nspike, bufsize, n - 1);
    }
  }

  /** Receive blocks laid out by prefix sums of non-negative counts lie
      one after another inside the total. */
  lemma ReceiveBlockInside(counts: seq<int>, i: int)
    requires 0 <= i < |counts| && forall k :: 0 <= k < |counts| ==> counts[k] >= 0
    ensures 0 <= Sum(counts, 0, i)
    ensures Sum(counts, 0, i) + counts[i] == Sum(counts, 0, i + 1) <= Sum(counts, 0, |counts|)
  {
    SumBounds(counts, 0, i);
    SumMonotone(counts, 0, i + 1, |counts|);
  }

  /** The two-byte spike count at the head of each compressed buffer. */
  function DecodeCount(hi: byte, lo: byte): (n: int)
    ensures 0 <= n < 65536
  {
    hi as int * 256 + lo as int
  }

  function EncodeCount(n: int): (b: (byte, byte))
    requires 0 <= n < 65536
  {
    ((n / 256) as byte, (n % 256) as byte)
  }

  /** The count header round-trips in both directions. */
  lemma CountRoundTrip(n: int, hi: byte, lo: byte)
    requires 0 <= n < 65536
    ensures DecodeCount(EncodeCount(n).0, EncodeCount(n).1) == n
    ensures EncodeCount(DecodeCount(hi, lo)) == (hi, lo)
  {
  }

  /** The header of rank i's part of the gathered buffer: bytes
      `i*size` and `i*size + 1`. */
  function Header(b: seq<byte>, size: int, np: int, i: int): (n: int)
    requires size >= 2 && |b| == np * size && 0 <= i < np
    ensures 0 <= n < 65536
  {
    RowInside(i, np, size);
    DecodeCount(b[i * size], b[i * size + 1])
  }

  lemma RowInside(i: int, np: int, size: int)
    requires size >= 2 && 0 <= i < np
    ensures 0 <= i * size && i * size + 1 < np * size
  {
    MulMono(0, i, size);
    MulMono(i + 1, np, size);
    assert (i + 1) * size == i * size + size;
  }

  function Headers(b: seq<byte>, size: int, np: int): (hs: seq<int>)
    requires size >= 2 && np >= 0 && |b| == np * size
    ensures |hs| == np && forall k :: 0 <= k < np ==> hs[k] == Header(b, size, np, k)
  {
    seq(np, k requires 0 <= k < np => Header(b, size, np, k))
  }

  /** Rank i's entry of the decoded headers. */
  lemma HeaderAt(b: seq<byte>, size: int, np: int, i: int, idx: int)
    requires size >= 2 && |b| == np * size && 0 <= i < np && idx == i * size
    ensures 0 <= idx && idx + 1 < |b|
    ensures Headers(b, size, np)[i] == b[idx] as int * 256 + b[idx + 1] as int
  {
    RowInside(i, np, size);
  }

  /** Bytes of rank i's spikes that do not fit in its `ag_send_size_` bytes. */
  function ByteOvfl(n: int, agNspike: int, lgs: int, size: int): int
  {
    if n > agNspike then 2 + n * (1 + lgs) - size else 0
  }

  function ByteOvfls(hs: seq<int>, agNspike: int, lgs: int, size: int): (o: seq<int>)
    ensures |o| == |hs| && forall k :: 0 <= k < |o| ==> o[k] == ByteOvfl(hs[k], agNspike, lgs, size)
  {
    seq(|hs|, k requires 0 <= k < |hs| => ByteOvfl(hs[k], agNspike, lgs, size))
  }

  /** Rank i's entry of the overflow bytes. */
  lemma OvflAt(hs: seq<int>, agNspike: int, lgs: int, size: int, i: int)
    requires 0 <= i < |hs| && hs[i] > agNspike
    ensures ByteOvfls(hs, agNspike, lgs, size)[i] == 2 + hs[i] * (1 + lgs) - size
  {
  }

  /** Spikes of rank i that do not fit in its `ag_send_size_` bytes. */
  function Excesses(hs: seq<int>, agNspike: int): (o: seq<int>)
    ensures |o| == |hs| && forall k :: 0 <= k < |o| ==> o[k] == Overflow(hs[k], agNspike)
  {
    seq(|hs|, k requires 0 <= k < |hs| => Overflow(hs[k], agNspike))
  }

  /** When the fixed part is a two-byte count followed by `ag_send_nspike_`
      (time, local gid) pairs, the overflow of a rank is exactly its excess
      spikes, `1 + localgid_size_` bytes each. */
  lemma OvflBytesExact(n: int, agNspike: int, lgs: int, size: int)
    requires size == 2 + agNspike * (1 + lgs)
    ensures ByteOvfl(n, agNspike, lgs, size) == Overflow(n, agNspike) * (1 + lgs)
  {
    if n > agNspike {
      assert n * (1 + lgs) - agNspike * (1 + lgs) == (n - agNspike) * (1 + lgs);
    }
  }

  /** Under that layout, all overflow bytes together are the excess spike
      count times the pair size. */
  lemma {:induction false} OvflTotal(hs: seq<int>, agNspike: int, lgs: int, size: int, n: int)
    requires size == 2 + agNspike * (1 + lgs) && 0 <= n <= |hs|
    ensures Sum(ByteOvfls(hs, agNspike, lgs, size), 0, n) == Sum(Excesses(hs, agNspike), 0, n) * (1 + lgs)
    decreases n
  {
    if n > 0 {
      OvflTotal(hs, agNspike, lgs, size, n - 1);
      OvflBytesExact(hs[n - 1], agNspike, lgs, size);
      var e := Sum(Excesses(hs, agNspike), 0, n - 1);
      assert (e + Overflow(hs[n - 1], agNspike)) * (1 + lgs) == e * (1 + lgs) + Overflow(hs[n - 1], agNspike) * (1 + lgs);
    }
  }

  /** The file-scope state of the exchange: `nin_`, `displs` and `byteovfl`
      (allocated on first use), the capacities and `ovfl_`. The sizes of
      the compressed format are set elsewhere and fixed here. */
  class SpikeExchange {
    const numprocs: int
    /** `nrn_spikebuf_size`, a compile-time constant. */
    const spikebufSize: int
    /** `ag_send_size_`, `ag_send_nspike_`, `localgid_size_`. */
    const agSendSize: int
    const agSendNspike: int
    const localgidSize: int
    var nin: array<int>
    var displs: array?<int>
    var byteovfl: array?<int>
    var icapacity: int
    var ovflCapacity: int
    var ovfl: int

    ghost predicate Valid()
      reads this, displs
    {
      && numprocs >= 1 && spikebufSize >= 0 && nin.Length == numprocs
      && (displs != null ==> displs.Length == numprocs && displs[0] == 0 && displs != nin)
      && (byteovfl != null ==> byteovfl.Length == numprocs && byteovfl != nin && byteovfl != displs)
    }

    /** The state before the first exchange: `nin_` has a slot per rank,
        `displs` and `byteovfl` are null and the capacities are 0. */
    constructor (np: int, bufsize: int, agSize: int, agNspike: int, lgs: int)
      requires np >= 1 && bufsize >= 0
      ensures Valid() && fresh(nin)
      ensures numprocs == np && spikebufSize == bufsize
      ensures agSendSize == agSize && agSendNspike == agNspike && localgidSize == lgs
      ensures displs == null && byteovfl == null
      ensures icapacity == 0 && ovflCapacity == 0 && ovfl == 0
    {
      numprocs := np;
      spikebufSize := bufsize;
      agSendSize := agSize;
      agSendNspike := agNspike;
      localgidSize := lgs;
      nin := new int[np];
      displs := null;
      byteovfl := null;
      icapacity := 0;
      ovflCapacity := 0;
      ovfl := 0;
    }

    /** The `if (!displs)` allocation of the two plain exchanges. */
    method AllocateDispls()
      requires Valid()
      modifies this
      ensures Valid() && displs != null
      ensures old(displs) != null ==> displs == old(displs)
      ensures old(displs) == null ==> fresh(displs)
      ensures nin == old(nin) && byteovfl == old(byteovfl)
      ensures icapacity == old(icapacity) && ovflCapacity == old(ovflCapacity) && ovfl == old(ovfl)
    {
      if displs == null {
        var d := new int[numprocs];
        d[0] := 0;
        displs := d;
      }
    }

    /** `nrnmpi_spike_exchange` with `nrn_spikebuf_size == 0`: `gathered` is
        every rank's `nout_`. `nin_` receives them, `displs[i]` is the sum of
        the counts before rank i, the total is returned and the receive
        capacity grows to total + 10 when it is short. */
    method Exchange(gathered: seq<int>) returns (n: int)
      requires Valid() && spikebufSize == 0 && |gathered| == numprocs
      modifies this, nin, displs
      ensures Valid() && displs != null && nin == old(nin) && byteovfl == old(byteovfl)
      ensures old(displs) != null ==> displs == old(displs)
      ensures old(displs) == null ==> fresh(displs)
      ensures nin[..] == gathered
      ensures forall i :: 0 <= i < numprocs ==> displs[i] == Sum(gathered, 0, i)
      ensures n == Sum(gathered, 0, numprocs)
      ensures icapacity == Grown(old(icapacity), n)
      ensures ovflCapacity == old(ovflCapacity) && ovfl == old(ovfl)
    {
      AllocateDispls();
      forall i | 0 <= i < numprocs {
        nin[i] := gathered[i];
      }
      var d := displs;
      n := nin[0];
      var i := 1;
      while i < numprocs
        invariant 1 <= i <= numprocs
        invariant displs == d && Valid() && byteovfl == old(byteovfl) && nin == old(nin)
        invariant icapacity == old(icapacity) && ovflCapacity == old(ovflCapacity) && ovfl == old(ovfl)
        invariant nin[..] == gathered
        invariant forall k :: 0 <= k < i ==> d[k] == Sum(gathered, 0, k)
        invariant n == Sum(gathered, 0, i)
      {
        d[i] := n;
        n := n + nin[i];
        i := i + 1;
      }
      if n != 0 {
        if icapacity < n {
          icapacity := n + 10;
        }
      }
    }

    /** `nrnmpi_spike_exchange` with `nrn_spikebuf_size > 0`: `nspike` is
        the spike count in every rank's fixed buffer. `nin_[i]` is the
        overflow of rank i, `displs` are prefix sums of the overflows,
        `ovfl_` is their total and the returned value counts all spikes. */
    method ExchangeSpikebuf(nspike: seq<int>) returns (n: int)
      requires Valid() && spikebufSize > 0 && |nspike| == numprocs
      modifies this, nin, displs
      ensures Valid() && displs != null && nin == old(nin) && byteovfl == old(byteovfl)
      ensures old(displs) != null ==> displs == old(displs)
      ensures old(displs) == null ==> fresh(displs)
      ensures nin[..] == Overflows(nspike, spikebufSize)
      ensures forall i :: 0 <= i < numprocs ==> displs[i] == Sum(nin[..], 0, i)
      ensures ovfl == Sum(nin[..], 0, numprocs)
      ensures n == Sum(nspike, 0, numprocs)
      ensures icapacity == Grown(old(icapacity), ovfl)
      ensures ovflCapacity == old(ovflCapacity)
    {
      AllocateDispls();
      var d := displs;
      var novfl;
      novfl, n := SpikebufScan(nspike, d);
      if novfl != 0 {
        if icapacity < novfl {
          icapacity := novfl + 10;
        }
      }
      ovfl := novfl;
    }

    /** The spikebuf loop after `i` ranks, on the contents of `nin_` and
        `displs`: their overflows and displacements, and the running totals
        as sums. */
    ghost predicate SpikebufPrefix(nspike: seq<int>, i: int, ns: seq<int>, ds: seq<int>, novfl: int, n: int)
      requires |ns| == |nspike| && |ds| == |nspike| && 0 <= i <= |nspike|
    {
      var ov := Overflows(nspike, spikebufSize);
      && (forall k :: 0 <= k < i ==> ns[k] == ov[k] && ds[k] == Sum(ov, 0, k))
      && novfl == Sum(ov, 0, i) && n == Sum(nspike, 0, i)
    }

    /** Storing rank i's overflow and displacement extends the prefix by
        one rank. */
    lemma SpikebufStep(nspike: seq<int>, i: int, ns: seq<int>, ds: seq<int>, novfl: int, n: int)
      requires |ns| == |nspike| && |ds| == |nspike| && 0 <= i < |nspike|
      requires SpikebufPrefix(nspike, i, ns, ds, novfl, n)
      ensures var o := Overflow(nspike[i], spikebufSize);
              SpikebufPrefix(nspike, i + 1, ns[i := o], ds[i := novfl], novfl + o, n + nspike[i])
    {
    }

    /** One pass of the spikebuf loop, for rank `i`. */
    method SpikebufRank(nspike: seq<int>, i: int, d: array<int>, novfl: int, n: int) returns (novfl2: int, n2: int)
      requires |nspike| == nin.Length == d.Length && 0 <= i < |nspike| && nin != d
      requires SpikebufPrefix(nspike, i, nin[..], d[..], novfl, n)
      modifies nin, d
      ensures SpikebufPrefix(nspike, i + 1, nin[..], d[..], novfl2, n2)
    {
      ghost var ns0, ds0 := nin[..], d[..];
      d[i] := novfl;
      var n1 := nspike[i];
      n2 := n + n1;
      novfl2 := novfl;
      if n1 > spikebufSize {
        nin[i] := n1 - spikebufSize;
        novfl2 := novfl2 + nin[i];
      } else {
        nin[i] := 0;
      }
      assert nin[..] == ns0[i := nin[i]] && nin[i] == Overflow(nspike[i], spikebufSize);
      assert d[..] == ds0[i := novfl];
      SpikebufStep(nspike, i, ns0, ds0, novfl, n);
    }

    /** The spikebuf loop over all ranks, rank 0 first: `d[0]` stays 0. */
    method SpikebufScan(nspike: seq<int>, d: array<int>) returns (novfl: int, n: int)
      requires |nspike| == nin.Length == d.Length && |nspike| >= 1 && nin != d && d[0] == 0
      modifies nin, d
      ensures nin[..] == Overflows(nspike, spikebufSize)
      ensures forall i :: 0 <= i < |nspike| ==> d[i] == Sum(nin[..], 0, i)
      ensures novfl == Sum(nin[..], 0, |nspike|) && n == Sum(nspike, 0, |nspike|)
    {
      ghost var ns0, ds0 := nin[..], d[..];
      novfl := 0;
      n := nspike[0];
      if n > spikebufSize {
        nin[0] := n - spikebufSize;
        novfl := novfl + nin[0];
      } else {
        nin[0] := 0;
      }
      assert nin[..] == ns0[0 := Overflow(nspike[0], spikebufSize)];
      assert d[..] == ds0[0 := 0];
      SpikebufStep(nspike, 0, ns0, ds0, 0, 0);
      var i := 1;
      while i < |nspike|
        invariant 1 <= i <= |nspike|
        invariant SpikebufPrefix(nspike, i, nin[..], d[..], novfl, n)
      {
        novfl, n := SpikebufRank(nspike, i, d, novfl, n);
        i := i + 1;
      }
      assert nin[..] == Overflows(nspike, spikebufSize);
    }

    /** The compressed loop after `i` ranks, on the contents of the three
        arrays: the ranks' counts, overflow bytes and displacements, and
        the running totals as sums. */
    ghost predicate CompressedPrefix(b: seq<byte>, i: int, ns: seq<int>, ds: seq<int>, bs: seq<int>,
                                     bstot: int, novfl: int, ntot: int)
      requires agSendSize >= 2 && numprocs >= 0 && |b| == numprocs * agSendSize
      requires |ns| == numprocs && |ds| == numprocs && |bs| == numprocs && 0 <= i <= numprocs
    {
      var hs := Headers(b, agSendSize, numprocs);
      var bov := ByteOvfls(hs, agSendNspike, localgidSize, agSendSize);
      && (forall k :: 0 <= k < i ==> ns[k] == hs[k] && bs[k] == bov[k] && ds[k] == Sum(bov, 0, k))
      && bstot == Sum(bov, 0, i) && novfl == Sum(Excesses(hs, agSendNspike), 0, i) && ntot == Sum(hs, 0, i)
    }

    /** Storing rank i's count, overflow bytes and displacement extends the
        prefix by one rank. */
    lemma CompressedStep(b: seq<byte>, i: int, ns: seq<int>, ds: seq<int>, bs: seq<int>,
                         bstot: int, novfl: int, ntot: int, n: int, stored: int)
      requires agSendSize >= 2 && numprocs >= 0 && |b| == numprocs * agSendSize
      requires |ns| == numprocs && |ds| == numprocs && |bs| == numprocs && 0 <= i < numprocs
      requires CompressedPrefix(b, i, ns, ds, bs, bstot, novfl, ntot)
      requires n == Headers(b, agSendSize, numprocs)[i]
      requires stored == ByteOvfl(n, agSendNspike, localgidSize, agSendSize)
      ensures CompressedPrefix(b, i + 1, ns[i := n], ds[i := bstot], bs[i := stored],
                               bstot + stored, novfl + Overflow(n, agSendNspike), ntot + n)
    {
    }

    /** One pass of the compressed loop, for rank `i`. */
    method CompressedRank(b: seq<byte>, i: int, d: array<int>, bo: array<int>, bstot: int, novfl: int, ntot: int)
      returns (bstot2: int, novfl2: int, ntot2: int)
      requires agSendSize >= 2 && numprocs >= 0 && |b| == numprocs * agSendSize
      requires nin.Length == numprocs && d.Length == numprocs && bo.Length == numprocs && 0 <= i < numprocs
      requires nin != d && nin != bo && d != bo
      requires CompressedPrefix(b, i, nin[..], d[..], bo[..], bstot, novfl, ntot)
      modifies nin, d, bo
      ensures CompressedPrefix(b, i + 1, nin[..], d[..], bo[..], bstot2, novfl2, ntot2)
    {
      ghost var ns0, ds0, bs0 := nin[..], d[..], bo[..];
      d[i] := bstot;
      var idx := i * agSendSize;
      HeaderAt(b, agSendSize, numprocs, i, idx);
      var n := b[idx] as int * 256;
      n := n + b[idx + 1] as int;
      ntot2 := ntot + n;
      nin[i] := n;
      bstot2, novfl2 := bstot, novfl;
      ghost var stored := 0;
      if n > agSendNspike {
        var bs := 2 + n * (1 + localgidSize) - agSendSize;
        bo[i] := bs;
        stored := bs;
        bstot2 := bstot2 + bs;
        novfl2 := novfl2 + n - agSendNspike;
      } else {
        bo[i] := 0;
      }
      assert nin[..] == ns0[i := n];
      assert d[..] == ds0[i := bstot];
      assert bo[..] == bs0[i := stored];
      CompressedStep(b, i, ns0, ds0, bs0, bstot, novfl, ntot, n, stored);
    }

    /** The compressed loop over all ranks. */
    method CompressedScan(spfixin: seq<byte>, d: array<int>, bo: array<int>) returns (novfl: int, ntot: int)
      requires agSendSize >= 2 && numprocs >= 0 && |spfixin| == numprocs * agSendSize
      requires nin.Length == numprocs && d.Length == numprocs && bo.Length == numprocs
      requires nin != d && nin != bo && d != bo
      modifies nin, d, bo
      ensures nin[..] == Headers(spfixin, agSendSize, numprocs)
      ensures bo[..] == ByteOvfls(nin[..], agSendNspike, localgidSize, agSendSize)
      ensures forall i :: 0 <= i < numprocs ==> d[i] == Sum(bo[..], 0, i)
      ensures novfl == Sum(Excesses(nin[..], agSendNspike), 0, numprocs)
      ensures ntot == Sum(nin[..], 0, numprocs)
    {
      novfl := 0;
      ntot := 0;
      var bstot := 0;
      var i := 0;
      while i < numprocs
        invariant 0 <= i <= numprocs
        invariant CompressedPrefix(spfixin, i, nin[..], d[..], bo[..], bstot, novfl, ntot)
      {
        bstot, novfl, ntot := CompressedRank(spfixin, i, d, bo, bstot, novfl, ntot);
        i := i + 1;
      }
      assert nin[..] == Headers(spfixin, agSendSize, numprocs);
      assert bo[..] == ByteOvfls(nin[..], agSendNspike, localgidSize, agSendSize);
    }

    /** The allocation at the head of `nrnmpi_spike_exchange_compressed` as
        written: `byteovfl` is allocated only together with `displs`. */
    method AllocateCompressedAsWritten()
      requires Valid()
      modifies this
      ensures Valid() && displs != null
      ensures old(displs) != null ==> displs == old(displs) && byteovfl == old(byteovfl)
      ensures old(displs) == null ==> fresh(displs) && byteovfl != null && fresh(byteovfl)
      ensures nin == old(nin)
      ensures icapacity == old(icapacity) && ovflCapacity == old(ovflCapacity) && ovfl == old(ovfl)
    {
      if displs == null {
        var d := new int[numprocs];
        d[0] := 0;
        displs := d;
        byteovfl := new int[numprocs];
      }
    }

    /** The allocation as intended: each of the two arrays is allocated when
        it is missing. */
    method AllocateCompressed()
      requires Valid()
      modifies this
      ensures Valid() && displs != null && byteovfl != null
      ensures old(displs) != null ==> displs == old(displs)
      ensures old(displs) == null ==> fresh(displs)
      ensures old(byteovfl) != null ==> byteovfl == old(byteovfl)
      ensures old(byteovfl) == null ==> fresh(byteovfl)
      ensures nin == old(nin)
      ensures icapacity == old(icapacity) && ovflCapacity == old(ovflCapacity) && ovfl == old(ovfl)
    {
      if displs == null {
        var d := new int[numprocs];
        d[0] := 0;
        displs := d;
      }
      if byteovfl == null {
        byteovfl := new int[numprocs];
      }
    }

    /** `nrnmpi_spike_exchange_compressed` (with the intended allocation):
        `spfixin` is the gathered fixed parts, `ag_send_size_` bytes per
        rank. `nin_[i]` is rank i's two-byte count, `byteovfl[i]` its
        overflow bytes, `displs` their prefix sums, `ovfl_` the total of the
        excess spikes and the result the total of the counts; the overflow
        capacity grows to `ovfl_` + 10 when it is short. */
    method ExchangeCompressed(spfixin: seq<byte>) returns (ntot: int)
      requires Valid() && agSendSize >= 2 && |spfixin| == numprocs * agSendSize
      modifies this, nin, displs, byteovfl
      ensures Valid() && displs != null && byteovfl != null && nin == old(nin)
      ensures old(displs) != null ==> displs == old(displs)
      ensures old(byteovfl) != null ==> byteovfl == old(byteovfl)
      ensures nin[..] == Headers(spfixin, agSendSize, numprocs)
      ensures byteovfl[..] == ByteOvfls(nin[..], agSendNspike, localgidSize, agSendSize)
      ensures forall i :: 0 <= i < numprocs ==> displs[i] == Sum(byteovfl[..], 0, i)
      ensures ovfl == Sum(Excesses(nin[..], agSendNspike), 0, numprocs)
      ensures ntot == Sum(nin[..], 0, numprocs)
      ensures ovflCapacity == Grown(old(ovflCapacity), ovfl)
      ensures icapacity == old(icapacity)
    {
      AllocateCompressed();
      var d := displs;
      var bo := byteovfl;
      var novfl;
      novfl, ntot := CompressedScan(spfixin, d, bo);
      if novfl != 0 {
        if ovflCapacity < novfl {
          ovflCapacity := novfl + 10;
        }
      }
      ovfl := novfl;
    }
  }

  /** A run with the plain exchange followed by a switch to the compressed
      one: with the allocation as written, `byteovfl` is still null when the
      compressed loop stores `byteovfl[i]`. */
  method SwitchToCompressedAsWritten(np: int, gathered: seq<int>) returns (e: SpikeExchange)
    requires np >= 1 && |gathered| == np
    ensures e.displs != null && e.byteovfl == null
  {
    e := new SpikeExchange(np, 0, 2, 0, 1);
    var _ := e.Exchange(gathered);
    e.AllocateCompressedAsWritten();
  }

  /** The same run with the intended allocation: both arrays exist. */
  method SwitchToCompressed(np: int, gathered: seq<int>) returns (e: SpikeExchange)
    requires np >= 1 && |gathered| == np
    ensures e.Valid() && e.displs != null && e.byteovfl != null
    ensures e.byteovfl.Length == np
  {
    e := new SpikeExchange(np, 0, 2, 0, 1);
    var _ := e.Exchange(gathered);
    e.AllocateCompressed();
  }

  /** After any exchange that overflows, the receive buffer holds every
      overflow: for the compressed exchange, `ovfl_capacity_` pairs of
      `1 + localgid_size_` bytes cover all the bytes that `byteovfl` and
      `displs` lay out. */
  lemma CompressedOverflowFits(hs: seq<int>, agNspike: int, lgs: int, size: int, oldCap: int)
    requires size == 2 + agNspike * (1 + lgs) && lgs >= 0
    requires Sum(Excesses(hs, agNspike), 0, |hs|) != 0
    ensures Sum(ByteOvfls(hs, agNspike, lgs, size), 0, |hs|)
            <= Grown(oldCap, Sum(Excesses(hs, agNspike), 0, |hs|)) * (1 + lgs)
  {
    OvflTotal(hs, agNspike, lgs, size, |hs|);
    var e := Sum(Excesses(hs, agNspike), 0, |hs|);
    var cap := Grown(oldCap, e);
    MulMono(e, cap, 1 + lgs);
  }

  lemma MulMono(a: int, b: int, c: int)
    requires a <= b && c >= 0
    ensures a * c <= b * c
  {
    assert (b - a) * c >= 0;
  }
}
