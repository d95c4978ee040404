// The spike receive buffers, the gid encoding that routes a spike to one
// of two receive buffers, and the host bookkeeping of the DMA spike
// exchange (bgpdma.cpp): how the source gids are gathered in bounded
// chunks and how each source learns the hosts it sends to.
module Bgpdma {
  import opened Common

  /** A received spike: the gid of its source and the time it fired. */
  datatype Spike = Spike(gid: int, spiketime: real)

  /** BGP_RECEIVEBUFFER_SIZE, the initial capacity of a receive buffer. */
  const ReceiveBufferSize := 10000

  /** NSEND, the number of multicast descriptors `isend` cycles through. */
  const NSend := 10

  /** A spike handed to a presynaptic object: its handle and the spike time. */
  datatype Delivery = Delivery(presyn: int, spiketime: real)

  /** What `enqueue` hands on for the buffered spikes, in arrival order:
      the presynaptic object of each gid and its spike time. */
  function Deliveries(spikes: seq<Spike>, presyn: map<int, int>): (d: seq<Delivery>)
    requires forall k :: 0 <= k < |spikes| ==> spikes[k].gid in presyn
    ensures |d| == |spikes|
    ensures forall k :: 0 <= k < |d| ==> d[k] == Delivery(presyn[spikes[k].gid], spikes[k].spiketime)
  {
    if |spikes| == 0 then []
    else Deliveries(spikes[..|spikes| - 1], presyn) + [Delivery(presyn[spikes[|spikes| - 1].gid], spikes[|spikes| - 1].spiketime)]
  }

  /** `BGP_ReceiveBuffer`: an append-only array of spikes that doubles its
      capacity when full, with conservation counters. The spike pool is
      abstracted: a stored spike is its value. */
  class ReceiveBuffer {
    var size: int
    var count: int
    var maxcount: int
    var busy: int
    var nsend: int
    var nrecv: int
    var timebase: int
    var buffer: array<Spike>
    var psbuf: array<int>
    ghost var spikes: seq<Spike>
    ghost var Repr: set<object>

    /** The first `count` slots hold the received spikes; both arrays have
        `size` slots. */
    ghost predicate Valid()
      reads this, Repr
    {
      && Repr == {this, buffer, psbuf}
      && buffer.Length == size && psbuf.Length == size && size > 0
      && 0 <= count <= size && busy == 0
      && spikes == buffer[..count]
    }

    /** The constructor sets the capacity and empties the buffer; it does
        not set maxcount_, nsend_, nrecv_ or timebase_, so nothing is
        promised about them until `init`. */
    constructor ()
      ensures Valid() && fresh(Repr) && spikes == [] && size == ReceiveBufferSize
    {
      busy := 0;
      count := 0;
      size := ReceiveBufferSize;
      buffer := new Spike[ReceiveBufferSize];
      psbuf := new int[ReceiveBufferSize];
      spikes := [];
      Repr := {this, buffer, psbuf};
    }

    /** `init`: the buffer is emptied and the counters and the timer are 0;
        the capacity stays. */
    method Init()
      requires Valid()
      modifies this
      ensures Valid() && Repr == old(Repr) && spikes == [] && count == 0
      ensures timebase == 0 && nsend == 0 && nrecv == 0
      ensures size == old(size) && maxcount == old(maxcount)
    {
      timebase := 0;
      nsend, nrecv, busy := 0, 0, 0;
      count := 0;
      spikes := [];
    }

    /** The growth step of `incoming`: the capacity doubles, the held
        spikes are copied into the new array and psbuf_ is reallocated. */
    method Grow()
      requires Valid()
      modifies this
      ensures Valid() && fresh(Repr - {this}) && spikes == old(spikes) && count == old(count)
      ensures size == 2 * old(size)
      ensures maxcount == old(maxcount) && nrecv == old(nrecv) && nsend == old(nsend) && timebase == old(timebase)
    {
      var newsize := size * 2;
      var newbuf := new Spike[newsize];
      var i := 0;
      while i < count
        modifies newbuf
        invariant 0 <= i <= count && newbuf[..i] == buffer[..i]
      {
        newbuf[i] := buffer[i];
        i := i + 1;
      }
      assert newbuf[..count] == buffer[..count];
      size := newsize;
      buffer := newbuf;
      psbuf := new int[newsize];
      Repr := {this, buffer, psbuf};
    }

    /** `incoming(gid, spiketime)`: the spike is appended after the kept
        ones; a full buffer first doubles its capacity, copying what it
        holds. */
    method Incoming(gid: int, spiketime: real)
      requires Valid()
      modifies Repr
      ensures Valid() && fresh(Repr - old(Repr))
      ensures spikes == old(spikes) + [Spike(gid, spiketime)]
      ensures count == old(count) + 1 && nrecv == old(nrecv) + 1
      ensures size == (if old(count) >= old(size) then 2 * old(size) else old(size))
      ensures maxcount == (if old(maxcount) < count then count else old(maxcount))
      ensures nsend == old(nsend) && timebase == old(timebase)
    {
      if count >= size {
        Grow();
      }
      busy := 1;
      buffer[count] := Spike(gid, spiketime);
      count := count + 1;
      spikes := spikes + [Spike(gid, spiketime)];
      if maxcount < count {
        maxcount := count;
      }
      nrecv := nrecv + 1;
      busy := 0;
    }

    /** `enqueue`: every buffered spike goes to its presynaptic object in
        arrival order; then the buffer and its counters are cleared. The
        source asserts that every gid has one. */
    method Enqueue(presyn: map<int, int>) returns (sent: seq<Delivery>)
      requires Valid() && forall k :: 0 <= k < |spikes| ==> spikes[k].gid in presyn
      modifies this
      ensures Valid() && Repr == old(Repr) && spikes == [] && count == 0
      ensures sent == Deliveries(old(spikes), presyn)
      ensures nrecv == 0 && nsend == 0 && size == old(size) && maxcount == old(maxcount) && timebase == old(timebase)
    {
      busy := 1;
      sent := [];
      var i := 0;
      while i < count
        invariant 0 <= i <= count && sent == Deliveries(spikes[..i], presyn)
      {
        assert spikes[..i + 1][..i] == spikes[..i];
        sent := sent + [Delivery(presyn[buffer[i].gid], buffer[i].spiketime)];
        i := i + 1;
      }
      assert spikes[..count] == spikes;
      count := 0;
      nrecv := 0;
      nsend := 0;
      spikes := [];
      busy := 0;
    }

    /** `enqueue1`: the presynaptic object of each buffered spike is looked
        up into psbuf_, in arrival order. */
    method Enqueue1(presyn: map<int, int>)
      requires Valid() && forall k :: 0 <= k < |spikes| ==> spikes[k].gid in presyn
      modifies psbuf
      ensures Valid()
      ensures forall k :: 0 <= k < count ==> psbuf[k] == presyn[spikes[k].gid]
    {
      var i := 0;
      while i < count
        invariant 0 <= i <= count && spikes == buffer[..count]
        invariant forall k :: 0 <= k < i ==> psbuf[k] == presyn[spikes[k].gid]
      {
        psbuf[i] := presyn[buffer[i].gid];
        i := i + 1;
      }
    }

    /** `enqueue2`: each buffered spike goes to the object `enqueue1` found
        for it; then the buffer and its counters are cleared as in
        `enqueue`. */
    method Enqueue2() returns (sent: seq<Delivery>)
      requires Valid()
      modifies this
      ensures Valid() && Repr == old(Repr) && spikes == [] && count == 0
      ensures |sent| == |old(spikes)|
      ensures forall k :: 0 <= k < |sent| ==> sent[k] == Delivery(psbuf[k], old(spikes)[k].spiketime)
      ensures nrecv == 0 && nsend == 0 && size == old(size) && maxcount == old(maxcount) && timebase == old(timebase)
    {
      busy := 1;
      sent := [];
      var i := 0;
      while i < count
        invariant 0 <= i <= count && |sent| == i
        invariant forall k :: 0 <= k < i ==> sent[k] == Delivery(psbuf[k], spikes[k].spiketime)
      {
        sent := sent + [Delivery(psbuf[i], buffer[i].spiketime)];
        i := i + 1;
      }
      count := 0;
      nrecv := 0;
      nsend := 0;
      spikes := [];
      busy := 0;
    }

    /** The two-step path (`enqueue1` then `enqueue2`) hands on the same
        spikes to the same objects as `enqueue`. */
    method EnqueueInTwoSteps(presyn: map<int, int>) returns (sent: seq<Delivery>)
      requires Valid() && forall k :: 0 <= k < |spikes| ==> spikes[k].gid in presyn
      modifies Repr
      ensures Valid() && Repr == old(Repr) && spikes == [] && count == 0
      ensures sent == Deliveries(old(spikes), presyn)
      ensures nrecv == 0 && nsend == 0 && size == old(size) && maxcount == old(maxcount)
    {
      ghost var sp := spikes;
      Enqueue1(presyn);
      sent := Enqueue2();
      assert |sent| == |sp|;
      assert forall k :: 0 <= k < |sent| ==> sent[k] == Deliveries(sp, presyn)[k];
    }
  }

  /** `~x` on a two's-complement integer. */
  function Complement(x: int): int
  {
    -x - 1
  }

  /** The gid a sender puts on the wire for receive buffer `rbuf`:
      complemented for buffer 1. */
  function EncodeGid(gid: int, rbuf: int): int
  {
    if rbuf == 1 then Complement(gid) else gid
  }

  /** The receiving side: a negative word names buffer 1 and carries the
      complemented gid; any other word is a gid for buffer 0. */
  function DecodeGid(w: int): (r: (int, int))
    ensures r.0 >= 0 && (r.1 == 0 || r.1 == 1)
    ensures EncodeGid(r.0, r.1) == w
    ensures r.1 == 1 <==> w < 0
  {
    if w < 0 then (Complement(w), 1) else (w, 0)
  }

  /** Decoding undoes the sender's encoding for every gid >= 0 and each buffer. */
  lemma GidRoundTrip(gid: int, rbuf: int)
    requires gid >= 0 && (rbuf == 0 || rbuf == 1)
    ensures DecodeGid(EncodeGid(gid, rbuf)) == (gid, rbuf)
  {
  }

  /** The spikes of a polled sequence that the receiver routes to buffer
      `b`, with their gids decoded, in arrival order. */
  function Routed(polled: seq<Spike>, b: int): (r: seq<Spike>)
    ensures |r| <= |polled|
  {
    if |polled| == 0 then []
    else
      var last := polled[|polled| - 1];
      var d := DecodeGid(last.gid);
      Routed(polled[..|polled| - 1], b) + (if d.1 == b then [Spike(d.0, last.spiketime)] else [])
  }

  /** A polled sequence of non-negative wire gids is routed entirely to buffer 0. */
  lemma {:induction false} RoutedNonNegative(polled: seq<Spike>)
    requires forall k :: 0 <= k < |polled| ==> polled[k].gid >= 0
    ensures Routed(polled, 0) == polled && Routed(polled, 1) == []
    decreases |polled|
  {
    if |polled| > 0 {
      RoutedNonNegative(polled[..|polled| - 1]);
      assert polled[..|polled| - 1] + [polled[|polled| - 1]] == polled;
    }
  }

  /** Routing a prefix one spike longer appends that spike's routing. */
  lemma RoutedStep(polled: seq<Spike>, n: int)
    requires 0 <= n < |polled|
    ensures Routed(polled[..n + 1], 0) == Routed(polled[..n], 0) + Routed([polled[n]], 0)
    ensures Routed(polled[..n + 1], 1) == Routed(polled[..n], 1) + Routed([polled[n]], 1)
  {
    assert polled[..n + 1][..n] == polled[..n];
    assert [polled[n]][..0] == [];
  }

  /** `BGP_DMASend` after `determine_target_hosts`: the hosts a source's
      spikes are multicast to, and whether this host also gets them. */
  datatype DmaSend = DmaSend(targetHosts: seq<int>, send2self: bool)

  /** One multicast: the wire gid, the spike time and the target hosts. */
  datatype Multicast = Multicast(wireGid: int, spiketime: real, hosts: seq<int>)

  /** The file's exchange globals: the receive buffers (the second one only
      with two subintervals), the buffer being drained and the one new
      spikes are sent to, the descriptor cycle and netpar's spike counters. */
  class Exchange {
    var rbuf0: ReceiveBuffer
    var rbuf1: ReceiveBuffer?
    var nInterval: int
    var currentRbuf: int
    var nextRbuf: int
    var isend: int
    var nsend: int
    var nrecv: int
    ghost var Repr: set<object>

    /** The receive buffers exist, each valid and apart from the other. */
    ghost predicate Allocated()
      reads this, Repr
    {
      && this in Repr && rbuf0 in Repr && rbuf0.Repr <= Repr && this !in rbuf0.Repr && rbuf0.Valid()
      && (nInterval == 1 || nInterval == 2)
      && (nInterval == 2 ==>
            rbuf1 != null && rbuf1 in Repr && rbuf1.Repr <= Repr && this !in rbuf1.Repr && rbuf1.Valid()
            && rbuf0.Repr !! rbuf1.Repr)
      && 0 <= isend < NSend
    }

    /** After `bgp_dma_init`: the two buffer indices are in range and, with
        two subintervals, name different buffers. */
    ghost predicate Valid()
      reads this, Repr
    {
      && Allocated()
      && 0 <= currentRbuf < nInterval && 0 <= nextRbuf < nInterval
      && (nInterval == 2 ==> nextRbuf == 1 - currentRbuf)
    }

    /** `bgp_receive_buffer[i]`. */
    function Rbuf(i: int): ReceiveBuffer
      requires i == 0 || (i == 1 && rbuf1 != null)
      reads this
    {
      if i == 0 then rbuf0 else rbuf1
    }

    /** The receive buffers `bgp_dma_setup` allocates, with the file's
        zero-initialised indices. */
    constructor (nbgpInterval: int)
      requires nbgpInterval == 1 || nbgpInterval == 2
      ensures Allocated() && fresh(Repr) && nInterval == nbgpInterval
      ensures currentRbuf == 0 && nextRbuf == 0 && isend == 0 && nsend == 0 && nrecv == 0
      ensures rbuf0.spikes == [] && (nInterval == 2 ==> rbuf1.spikes == [])
    {
      nInterval := nbgpInterval;
      currentRbuf, nextRbuf, isend, nsend, nrecv := 0, 0, 0, 0, 0;
      rbuf0 := new ReceiveBuffer();
      if nbgpInterval == 2 {
        rbuf1 := new ReceiveBuffer();
      } else {
        rbuf1 := null;
      }
      new;
      Repr := {this} + rbuf0.Repr + (if rbuf1 != null then rbuf1.Repr else {});
    }

    /** `bgp_dma_init`: every buffer is initialised; buffer 0 is drained
        next and new spikes go to the last buffer. */
    method DmaInit()
      requires Allocated()
      modifies Repr
      ensures Valid() && Repr == old(Repr) && rbuf0 == old(rbuf0) && rbuf1 == old(rbuf1)
      ensures currentRbuf == 0 && nextRbuf == nInterval - 1 && nInterval == old(nInterval)
      ensures rbuf0.spikes == [] && rbuf0.nsend == 0 && rbuf0.nrecv == 0
      ensures nInterval == 2 ==> rbuf1.spikes == [] && rbuf1.nsend == 0 && rbuf1.nrecv == 0
      ensures isend == old(isend) && nsend == old(nsend) && nrecv == old(nrecv)
    {
      rbuf0.Init();
      if nInterval == 2 {
        rbuf1.Init();
      }
      currentRbuf := 0;
      nextRbuf := nInterval - 1;
    }

    /** The routing step shared by `msend_recv` and `bgp_advance`: the wire
        gid is decoded and the spike appended to the buffer it names. */
    method Route(w: int, spiketime: real)
      requires Valid() && (w < 0 ==> nInterval == 2)
      modifies Repr
      ensures Valid() && fresh(Repr - old(Repr)) && rbuf0 == old(rbuf0) && rbuf1 == old(rbuf1)
      ensures rbuf0.spikes == old(rbuf0.spikes) + Routed([Spike(w, spiketime)], 0)
      ensures nInterval == 2 ==> rbuf1.spikes == old(rbuf1.spikes) + Routed([Spike(w, spiketime)], 1)
      ensures var d := DecodeGid(w);
              && Rbuf(d.1).nrecv == old(Rbuf(d.1).nrecv) + 1
              && Rbuf(d.1).timebase == old(Rbuf(d.1).timebase)
      ensures nInterval == old(nInterval) && currentRbuf == old(currentRbuf) && nextRbuf == old(nextRbuf)
      ensures isend == old(isend) && nsend == old(nsend) && nrecv == old(nrecv)
    {
      assert [Spike(w, spiketime)][..0] == [];
      var gid, i := w, 0;
      if gid < 0 {
        gid := Complement(gid);
        i := 1;
      }
      if i == 0 {
        rbuf0.Incoming(gid, spiketime);
        Repr := Repr + rbuf0.Repr;
      } else {
        rbuf1.Incoming(gid, spiketime);
        Repr := Repr + rbuf1.Repr;
      }
    }

    /** `msend_recv`: the wire gid is decoded and the spike goes to the
        buffer it names; the receive counter and that buffer's receive time
        (`elapsed`, a clock reading) grow. */
    method MsendRecv(w: int, spiketime: real, elapsed: int)
      requires Valid() && (w < 0 ==> nInterval == 2)
      modifies Repr
      ensures Valid() && fresh(Repr - old(Repr)) && rbuf0 == old(rbuf0) && rbuf1 == old(rbuf1)
      ensures var d := DecodeGid(w);
              && Rbuf(d.1).spikes == old(Rbuf(d.1).spikes) + [Spike(d.0, spiketime)]
              && Rbuf(d.1).nrecv == old(Rbuf(d.1).nrecv) + 1
              && Rbuf(d.1).timebase == old(Rbuf(d.1).timebase) + elapsed
              && (nInterval == 2 ==> Rbuf(1 - d.1).spikes == old(Rbuf(1 - d.1).spikes))
      ensures nrecv == old(nrecv) + 1 && nsend == old(nsend)
      ensures nInterval == old(nInterval) && currentRbuf == old(currentRbuf) && nextRbuf == old(nextRbuf)
      ensures isend == old(isend)
    {
      assert [Spike(w, spiketime)][..0] == [];
      Route(w, spiketime);
      var rb := Rbuf(DecodeGid(w).1);
      rb.timebase := rb.timebase + elapsed;
      nrecv := nrecv + 1;
    }

    /** `bgp_advance`: every spike the messager delivers (`polled`, in
        order) is decoded into the buffer its wire gid names; the return
        value and the growth of the receive counter are their number. */
    method BgpAdvance(polled: seq<Spike>) returns (n: int)
      requires Valid() && (nInterval == 1 ==> forall k :: 0 <= k < |polled| ==> polled[k].gid >= 0)
      modifies Repr
      ensures Valid() && fresh(Repr - old(Repr)) && rbuf0 == old(rbuf0) && rbuf1 == old(rbuf1)
      ensures n == |polled| && nrecv == old(nrecv) + n
      ensures rbuf0.spikes == old(rbuf0.spikes) + Routed(polled, 0)
      ensures nInterval == 2 ==> rbuf1.spikes == old(rbuf1.spikes) + Routed(polled, 1)
      ensures nInterval == old(nInterval) && currentRbuf == old(currentRbuf) && nextRbuf == old(nextRbuf)
      ensures isend == old(isend) && nsend == old(nsend)
    {
      ghost var s0 := rbuf0.spikes;
      ghost var s1: seq<Spike> := if nInterval == 2 then rbuf1.spikes else [];
      n := 0;
      while n < |polled|
        invariant 0 <= n <= |polled| && Valid() && fresh(Repr - old(Repr))
        invariant rbuf0 == old(rbuf0) && rbuf1 == old(rbuf1) && nrecv == old(nrecv)
        invariant rbuf0.spikes == old(rbuf0.spikes) + Routed(polled[..n], 0)
        invariant nInterval == 2 ==> rbuf1.spikes == old(rbuf1.spikes) + Routed(polled[..n], 1)
        invariant nInterval == old(nInterval) && currentRbuf == old(currentRbuf) && nextRbuf == old(nextRbuf)
        invariant isend == old(isend) && nsend == old(nsend)
      {
        RouteNext(polled, n, s0, s1);
        n := n + 1;
      }
      assert polled[..n] == polled;
      nrecv := nrecv + n;
    }

    /** The body of the `bgp_advance` loop: spike n goes where its wire
        gid says, after spikes 0 .. n - 1. */
    method RouteNext(polled: seq<Spike>, n: int, ghost s0: seq<Spike>, ghost s1: seq<Spike>)
      requires Valid() && 0 <= n < |polled| && (nInterval == 1 ==> polled[n].gid >= 0)
      requires rbuf0.spikes == s0 + Routed(polled[..n], 0)
      requires nInterval == 2 ==> rbuf1.spikes == s1 + Routed(polled[..n], 1)
      modifies Repr
      ensures Valid() && fresh(Repr - old(Repr)) && rbuf0 == old(rbuf0) && rbuf1 == old(rbuf1)
      ensures rbuf0.spikes == s0 + Routed(polled[..n + 1], 0)
      ensures nInterval == 2 ==> rbuf1.spikes == s1 + Routed(polled[..n + 1], 1)
      ensures nInterval == old(nInterval) && currentRbuf == old(currentRbuf) && nextRbuf == old(nextRbuf)
      ensures isend == old(isend) && nsend == old(nsend) && nrecv == old(nrecv)
    {
      RoutedStep(polled, n);
      assert Spike(polled[n].gid, polled[n].spiketime) == polled[n];
      Route(polled[n].gid, polled[n].spiketime);
    }

    /** `BGP_DMASend::send(gid, t)`: with target hosts, the spike is
        multicast with its gid encoded for the buffer new spikes go to, and
        that buffer's expected count grows by the number of targets;
        `send2self_` also hands it to this host. The descriptor index
        cycles modulo NSEND. */
    method Send(ds: DmaSend, gid: int, t: real) returns (msg: Option<Multicast>, local: bool)
      requires Valid()
      modifies this, Rbuf(nextRbuf)
      ensures Valid() && Repr == old(Repr) && rbuf0 == old(rbuf0) && rbuf1 == old(rbuf1)
      ensures |ds.targetHosts| > 0 ==>
                && msg == Some(Multicast(EncodeGid(gid, nextRbuf), t, ds.targetHosts))
                && Rbuf(nextRbuf).nsend == old(Rbuf(nextRbuf).nsend) + |ds.targetHosts|
                && nsend == old(nsend) + 1
      ensures |ds.targetHosts| == 0 ==> msg == None && nsend == old(nsend) && Rbuf(nextRbuf).nsend == old(Rbuf(nextRbuf).nsend)
      ensures local == ds.send2self
      ensures isend == (old(isend) + 1) % NSend
      ensures rbuf0.spikes == old(rbuf0.spikes) && (nInterval == 2 ==> rbuf1.spikes == old(rbuf1.spikes))
      ensures nInterval == old(nInterval) && currentRbuf == old(currentRbuf) && nextRbuf == old(nextRbuf)
      ensures nrecv == old(nrecv)
    {
      msg := None;
      var ntarget := |ds.targetHosts|;
      if ntarget != 0 {
        var rb := Rbuf(nextRbuf);
        rb.nsend := rb.nsend + ntarget;
        var wire := gid;
        if nextRbuf == 1 {
          wire := Complement(wire);
        }
        nsend := nsend + 1;
        msg := Some(Multicast(wire, t, ds.targetHosts));
      }
      local := ds.send2self;
      isend := (isend + 1) % NSend;
    }

    /** The bookkeeping of `bgp_dma_receive` once the conservation check
        passes: the buffer being drained is enqueued and, with two
        subintervals, the two buffers change roles. */
    method Receive(presyn: map<int, int>) returns (sent: seq<Delivery>)
      requires Valid()
      requires forall k :: 0 <= k < |Rbuf(currentRbuf).spikes| ==> Rbuf(currentRbuf).spikes[k].gid in presyn
      modifies Repr
      ensures Valid() && Repr == old(Repr) && rbuf0 == old(rbuf0) && rbuf1 == old(rbuf1)
      ensures sent == Deliveries(old(Rbuf(currentRbuf).spikes), presyn)
      ensures Rbuf(old(currentRbuf)).spikes == [] && Rbuf(old(currentRbuf)).nsend == 0 && Rbuf(old(currentRbuf)).nrecv == 0
      ensures nInterval == 2 ==> Rbuf(old(nextRbuf)).spikes == old(Rbuf(nextRbuf).spikes)
      ensures nInterval == 2 ==> currentRbuf == old(nextRbuf) && nextRbuf == old(currentRbuf)
      ensures nInterval == 1 ==> currentRbuf == 0 && nextRbuf == 0
      ensures nInterval == old(nInterval) && isend == old(isend) && nsend == old(nsend) && nrecv == old(nrecv)
    {
      var rb := Rbuf(currentRbuf);
      sent := rb.Enqueue(presyn);
      if nInterval == 2 {
        currentRbuf := nextRbuf;
        nextRbuf := (nextRbuf + 1) % 2;
      }
    }
  }
}

module BgpdmaHosts {
  import opened Common

  /** The gather buffer size of `determine_source_hosts`, with the total
      and the largest per-host count it is chosen from: at least 10000 and
      the number of hosts, enough for the largest host, and no more than
      the total. */
  method ChooseBufSize(hostNsrcgid: seq<int>) returns (totalngid: int, maxngid: int, bufsize: int)
    requires forall i :: 0 <= i < |hostNsrcgid| ==> hostNsrcgid[i] >= 0
    ensures totalngid == Sum(hostNsrcgid, 0, |hostNsrcgid|)
    ensures forall i :: 0 <= i < |hostNsrcgid| ==> hostNsrcgid[i] <= maxngid
    ensures (|hostNsrcgid| == 0 && maxngid == 0) || exists i :: 0 <= i < |hostNsrcgid| && hostNsrcgid[i] == maxngid
    ensures bufsize <= totalngid
    ensures forall i :: 0 <= i < |hostNsrcgid| ==> hostNsrcgid[i] <= bufsize
    ensures bufsize == totalngid || (bufsize >= 10000 && bufsize >= |hostNsrcgid| && bufsize >= maxngid)
  {
    totalngid, maxngid := 0, 0;
    var i := 0;
    while i < |hostNsrcgid|
      invariant 0 <= i <= |hostNsrcgid| && totalngid == Sum(hostNsrcgid, 0, i)
      invariant forall k :: 0 <= k < i ==> hostNsrcgid[k] <= maxngid
      invariant (i == 0 && maxngid == 0) || exists k :: 0 <= k < i && hostNsrcgid[k] == maxngid
    {
      totalngid := totalngid + hostNsrcgid[i];
      if maxngid < hostNsrcgid[i] {
        maxngid := hostNsrcgid[i];
      }
      i := i + 1;
    }
    bufsize := 10000;
    bufsize := if bufsize < |hostNsrcgid| then |hostNsrcgid| else bufsize;
    bufsize := if maxngid < bufsize then bufsize else maxngid;
    if |hostNsrcgid| > 0 {
      SumBounds(hostNsrcgid, 0, |hostNsrcgid|);
    }
    bufsize := if totalngid < bufsize then totalngid else bufsize;
  }

  /** `gathersrcgid(hostbegin, ...)`: one chunk of the gather. Hosts before
      `hostbegin` and after the chunk send nothing; from `hostbegin` hosts
      are taken while their gids still fit in `bsize`; `displ` is the
      running total of `n`. `mine` says whether this host sends its gids.
      The source leaves the chunk end unset when the first host does not
      fit, so that host must fit. */
  method GatherSrcGid(hostbegin: int, ngid: seq<int>, n: array<int>, displ: array<int>, bsize: int, myid: int)
      returns (hostend: int, mine: bool)
    requires 0 <= hostbegin < |ngid| && n.Length == |ngid| && displ.Length == |ngid| + 1
    requires forall i :: 0 <= i < |ngid| ==> ngid[i] >= 0
    requires ngid[hostbegin] <= bsize
    modifies n, displ
    ensures hostbegin < hostend <= |ngid|
    ensures forall i :: 0 <= i < hostbegin ==> n[i] == 0
    ensures forall i :: hostbegin <= i < hostend ==> n[i] == ngid[i]
    ensures forall i :: hostend <= i < |ngid| ==> n[i] == 0
    ensures displ[0] == 0 && forall i :: 0 <= i < |ngid| ==> displ[i + 1] == displ[i] + n[i]
    ensures displ[|ngid|] == Sum(ngid, hostbegin, hostend) <= bsize
    ensures hostend == |ngid| || Sum(ngid, hostbegin, hostend) + ngid[hostend] > bsize
    ensures mine == (hostbegin <= myid < hostend)
    ensures ChunkOk(ngid, bsize, hostbegin, hostend)
  {
    ClearBefore(hostbegin, n, displ);
    displ[hostbegin] := 0;
    hostend := TakeGreedy(hostbegin, ngid, n, displ, bsize);
    ClearAfter(hostend, n, displ);
    mine := hostbegin <= myid && myid < hostend;
  }

  /** The middle loop of `gathersrcgid`: from `hostbegin`, hosts are taken
      while their gids still fit, `displ` running on from 0; what lies
      before `hostbegin` is kept. */
  method TakeGreedy(hostbegin: int, ngid: seq<int>, n: array<int>, displ: array<int>, bsize: int)
      returns (hostend: int)
    requires 0 <= hostbegin < |ngid| && n.Length == |ngid| && displ.Length == |ngid| + 1
    requires forall i :: 0 <= i < |ngid| ==> ngid[i] >= 0
    requires ngid[hostbegin] <= bsize && displ[hostbegin] == 0
    modifies n, displ
    ensures hostbegin < hostend <= |ngid|
    ensures forall k :: 0 <= k < hostbegin ==> n[k] == old(n[k])
    ensures forall k :: 0 <= k <= hostbegin ==> displ[k] == old(displ[k])
    ensures forall k :: hostbegin <= k < hostend ==> n[k] == ngid[k] && displ[k + 1] == displ[k] + n[k]
    ensures displ[hostend] == Sum(ngid, hostbegin, hostend) <= bsize
    ensures ChunkOk(ngid, bsize, hostbegin, hostend)
  {
    var i := hostbegin;
    hostend := hostbegin;
    while i < |ngid|
      invariant hostbegin <= i <= |ngid| && (i == hostbegin || hostend == i)
      invariant forall k :: 0 <= k < hostbegin ==> n[k] == old(n[k])
      invariant forall k :: 0 <= k <= hostbegin ==> displ[k] == old(displ[k])
      invariant forall k :: hostbegin <= k < i ==> n[k] == ngid[k] && displ[k + 1] == displ[k] + n[k]
      invariant displ[i] == Sum(ngid, hostbegin, i) <= bsize
    {
      if displ[i] + ngid[i] > bsize {
        break;
      }
      n[i] := ngid[i];
      displ[i + 1] := displ[i] + n[i];
      hostend := i + 1;
      i := i + 1;
    }
  }

  /** The first loop of `gathersrcgid`: hosts before the chunk send nothing. */
  method ClearBefore(hostbegin: int, n: array<int>, displ: array<int>)
    requires 0 <= hostbegin < n.Length && displ.Length == n.Length + 1
    modifies n, displ
    ensures forall k :: 0 <= k < hostbegin ==> n[k] == 0 && displ[k] == 0
  {
    var i := 0;
    while i < hostbegin
      invariant 0 <= i <= hostbegin
      invariant forall k :: 0 <= k < i ==> n[k] == 0 && displ[k] == 0
    {
      n[i] := 0;
      displ[i] := 0;
      i := i + 1;
    }
  }

  /** The last loop of `gathersrcgid`: hosts after the chunk send nothing
      and the running total stays; what came before is kept. */
  method ClearAfter(hostend: int, n: array<int>, displ: array<int>)
    requires 0 <= hostend <= n.Length && displ.Length == n.Length + 1
    modifies n, displ
    ensures forall k :: 0 <= k < hostend ==> n[k] == old(n[k])
    ensures forall k :: 0 <= k <= hostend ==> displ[k] == old(displ[k])
    ensures forall k :: hostend <= k < n.Length ==> n[k] == 0 && displ[k + 1] == displ[k]
    ensures forall k :: hostend <= k <= n.Length ==> displ[k] == displ[hostend]
  {
    var i := hostend;
    while i < n.Length
      invariant hostend <= i <= n.Length
      invariant forall k :: 0 <= k < hostend ==> n[k] == old(n[k])
      invariant forall k :: 0 <= k <= hostend ==> displ[k] == old(displ[k])
      invariant forall k :: hostend <= k < i ==> n[k] == 0 && displ[k + 1] == displ[k]
      invariant forall k :: hostend <= k <= i ==> displ[k] == old(displ[hostend])
    {
      n[i] := 0;
      displ[i + 1] := displ[i];
      i := i + 1;
    }
  }

  /** Where chunk c of a chunking starts: host 0, or the end of chunk c - 1. */
  function ChunkStart(ends: seq<int>, c: int): int
    requires 0 <= c < |ends|
  {
    if c == 0 then 0 else ends[c - 1]
  }

  /** Hosts a..b - 1 form a non-empty chunk taken greedily: their gids
      fit in `bsize` and those of host b would not. */
  ghost predicate ChunkOk(ngid: seq<int>, bsize: int, a: int, b: int)
  {
    && 0 <= a < b <= |ngid|
    && Sum(ngid, a, b) <= bsize
    && (b == |ngid| || Sum(ngid, a, b) + ngid[b] > bsize)
  }

  /** `ends` cuts hosts 0..|ngid| - 1 into consecutive greedy chunks. */
  ghost predicate Chunked(ngid: seq<int>, bsize: int, ends: seq<int>)
  {
    && (|ngid| == 0 <==> ends == [])
    && (ends != [] ==> ends[|ends| - 1] == |ngid|)
    && forall c :: 0 <= c < |ends| ==> ChunkOk(ngid, bsize, ChunkStart(ends, c), ends[c])
  }

  /** A greedy chunk starting where the last one ended extends a chunking. */
  lemma ChunksExtend(ngid: seq<int>, bsize: int, ends: seq<int>, a: int, b: int)
    requires forall c :: 0 <= c < |ends| ==> ChunkOk(ngid, bsize, ChunkStart(ends, c), ends[c])
    requires a == (if ends == [] then 0 else ends[|ends| - 1]) && ChunkOk(ngid, bsize, a, b)
    ensures forall c :: 0 <= c < |ends + [b]| ==> ChunkOk(ngid, bsize, ChunkStart(ends + [b], c), (ends + [b])[c])
  {
    var e2 := ends + [b];
    assert forall c :: 0 <= c < |ends| ==> e2[c] == ends[c];
    assert forall c :: 0 <= c < |ends| ==> ChunkStart(e2, c) == ChunkStart(ends, c);
    assert ChunkStart(e2, |ends|) == a;
  }

  /** The outer loop of `determine_source_hosts`: the buffer size is
      chosen, then `gathersrcgid` is called chunk after chunk from host 0
      until every host has been gathered. Returns the buffer size and the
      successive chunk ends. */
  method SourceHostChunks(hostNsrcgid: seq<int>, myid: int) returns (bufsize: int, ends: seq<int>)
    requires forall i :: 0 <= i < |hostNsrcgid| ==> hostNsrcgid[i] >= 0
    ensures Chunked(hostNsrcgid, bufsize, ends)
    ensures bufsize <= Sum(hostNsrcgid, 0, |hostNsrcgid|)
  {
    var totalngid, maxngid;
    totalngid, maxngid, bufsize := ChooseBufSize(hostNsrcgid);
    var nhost := |hostNsrcgid|;
    var n := new int[nhost];
    var displ := new int[nhost + 1];
    ends := [];
    var ihost := 0;
    while ihost < nhost
      invariant 0 <= ihost <= nhost
      invariant (ihost == 0 <==> ends == []) && (ends != [] ==> ends[|ends| - 1] == ihost)
      invariant forall c :: 0 <= c < |ends| ==> ChunkOk(hostNsrcgid, bufsize, ChunkStart(ends, c), ends[c])
      decreases nhost - ihost
    {
      var jhost, mine := GatherSrcGid(ihost, hostNsrcgid, n, displ, bufsize, myid);
      ChunksExtend(hostNsrcgid, bufsize, ends, ihost, jhost);
      ends := ends + [jhost];
      ihost := jhost;
    }
  }

  /** A target PreSyn of `gid2in_` in the table's iteration order: its gid
      and the host that sends its spikes (-1 for none). */
  datatype Target = Target(gid: int, srchost: int)

  /** How many targets take their spikes from host h. */
  function CountOn(entries: seq<Target>, h: int): nat
  {
    if |entries| == 0 then 0
    else CountOn(entries[..|entries| - 1], h) + (if entries[|entries| - 1].srchost == h then 1 else 0)
  }

  /** The gids of the targets fed by host h, in iteration order. */
  function GidsOn(entries: seq<Target>, h: int): (g: seq<int>)
    ensures |g| == CountOn(entries, h)
  {
    if |entries| == 0 then []
    else GidsOn(entries[..|entries| - 1], h) + (if entries[|entries| - 1].srchost == h then [entries[|entries| - 1].gid] else [])
  }

  /** One more target extends the counts and gid lists of its host only. */
  lemma OnStep(entries: seq<Target>, k: int)
    requires 0 <= k < |entries|
    ensures forall h :: CountOn(entries[..k + 1], h) == CountOn(entries[..k], h) + (if entries[k].srchost == h then 1 else 0)
    ensures forall h :: GidsOn(entries[..k + 1], h) == GidsOn(entries[..k], h) + (if entries[k].srchost == h then [entries[k].gid] else [])
  {
    assert entries[..k + 1][..k] == entries[..k];
  }

  /** The leading loops of `determine_target_hosts`: how many targets each
      host feeds, and how many are fed at all. */
  method CountSources(entries: seq<Target>, nhost: int) returns (count: array<int>, ntargid: int)
    requires nhost >= 0 && forall k :: 0 <= k < |entries| ==> -1 <= entries[k].srchost < nhost
    ensures fresh(count) && count.Length == nhost
    ensures forall h :: 0 <= h < nhost ==> count[h] == CountOn(entries, h)
    ensures ntargid == Sum(count[..], 0, nhost)
  {
    count := new int[nhost];
    var i := 0;
    while i < nhost
      invariant 0 <= i <= nhost && forall h :: 0 <= h < i ==> count[h] == 0
    {
      count[i] := 0;
      i := i + 1;
    }
    assert forall h :: 0 <= h < nhost ==> CountOn(entries[..0], h) == 0;
    SumZero(count[..], 0, nhost);
    ntargid := 0;
    var k := 0;
    while k < |entries|
      invariant 0 <= k <= |entries|
      invariant forall h :: 0 <= h < nhost ==> count[h] == CountOn(entries[..k], h)
      invariant ntargid == Sum(count[..], 0, nhost)
    {
      OnStep(entries, k);
      var src := entries[k].srchost;
      if src >= 0 {
        ntargid := ntargid + 1;
        ghost var before := count[..];
        SumBump(before, 0, nhost, src);
        count[src] := count[src] + 1;
        assert count[..] == before[src := before[src] + 1];
      }
      k := k + 1;
    }
    assert entries[..k] == entries;
  }

  /** The displacement loops (`srchost_displ`, `tardispl`): entry 0 is 0
      and each next entry adds one count, so entry i is the sum of the
      first i counts and, for non-negative counts, the entries never
      decrease. */
  method PrefixSums(xs: array<int>) returns (displ: array<int>)
    ensures fresh(displ) && displ.Length == xs.Length + 1
    ensures displ[0] == 0 && forall i :: 0 <= i < xs.Length ==> displ[i + 1] == displ[i] + xs[i]
    ensures forall i :: 0 <= i <= xs.Length ==> displ[i] == Sum(xs[..], 0, i)
  {
    ghost var s := xs[..];
    displ := new int[xs.Length + 1];
    displ[0] := 0;
    var i := 0;
    while i < xs.Length
      invariant 0 <= i <= xs.Length && displ[0] == 0
      invariant forall k :: 0 <= k < i ==> displ[k + 1] == displ[k] + s[k]
    {
      displ[i + 1] := displ[i] + xs[i];
      i := i + 1;
    }
    PrefixIsSum(displ[..], s, xs.Length);
  }

  /** Per host, how many targets it feeds: `srchost_count` after the
      counting loop. */
  function Counts(entries: seq<Target>, nhost: nat): (cs: seq<int>)
    ensures |cs| == nhost && forall h :: 0 <= h < nhost ==> cs[h] == CountOn(entries, h)
  {
    seq(nhost, h requires 0 <= h < nhost => CountOn(entries, h))
  }

  /** `srchost_displ`: entry h is where host h's block of targets starts,
      the counts of the hosts before it added up. */
  predicate Blocks(displ: seq<int>, entries: seq<Target>, nhost: nat)
  {
    |displ| == nhost + 1 && forall h :: 0 <= h <= nhost ==> displ[h] == Sum(Counts(entries, nhost), 0, h)
  }

  /** Block h runs from displ[h] to displ[h + 1], inside the whole table. */
  lemma BlockOf(displ: seq<int>, entries: seq<Target>, nhost: nat, h: int)
    requires Blocks(displ, entries, nhost) && 0 <= h < nhost
    ensures 0 <= displ[h] && displ[h + 1] == displ[h] + CountOn(entries, h) && displ[h + 1] <= displ[nhost]
  {
    var cs := Counts(entries, nhost);
    SumBounds(cs, 0, h);
    SumMonotone(cs, 0, h + 1, nhost);
  }

  /** Blocks come in host order. */
  lemma BlockOrder(displ: seq<int>, entries: seq<Target>, nhost: nat, a: int, b: int)
    requires Blocks(displ, entries, nhost) && 0 <= a <= b <= nhost
    ensures displ[a] <= displ[b]
  {
    SumMonotone(Counts(entries, nhost), 0, a, b);
  }

  /** Slots start .. start + |gids| - 1 of table t hold gids, in order. */
  predicate BlockLaid(t: seq<int>, start: int, gids: seq<int>)
  {
    0 <= start && start + |gids| <= |t| &&
    forall j :: 0 <= j < |gids| ==> t[start + j] == gids[j]
  }

  /** Writing outside a block leaves it laid. */
  lemma BlockWrite(t: seq<int>, start: int, gids: seq<int>, p: int, x: int)
    requires BlockLaid(t, start, gids) && 0 <= p < |t| && (p < start || start + |gids| <= p)
    ensures BlockLaid(t[p := x], start, gids)
  {
    forall j | 0 <= j < |gids|
      ensures t[p := x][start + j] == gids[j]
    {
      assert start + j != p;
    }
  }

  /** Writing just past a block extends it by that value. */
  lemma BlockAppend(t: seq<int>, start: int, gids: seq<int>, x: int)
    requires BlockLaid(t, start, gids) && 0 <= start + |gids| < |t|
    ensures BlockLaid(t[start + |gids| := x], start, gids + [x])
  {
    var t' := t[start + |gids| := x];
    forall j | 0 <= j < |gids + [x]|
      ensures t'[start + j] == (gids + [x])[j]
    {
      if j < |gids| {
        assert start + j != start + |gids|;
        assert t'[start + j] == t[start + j] == gids[j];
      }
    }
  }

  /** The table t holds, for each host h, the gids fed by h so far in its
      block, and cnt[h] is how many targets es feeds from h. */
  predicate Laid(t: seq<int>, displ: seq<int>, cnt: seq<int>, es: seq<Target>)
  {
    |displ| == |cnt| + 1 &&
    forall h :: 0 <= h < |cnt| ==> cnt[h] == CountOn(es, h) && BlockLaid(t, displ[h], GidsOn(es, h))
  }

  /** Placing target k, fed by host src, in the next free slot p of that
      host's block keeps the table laid out for one target more. */
  lemma LaidPlace(t: seq<int>, displ: seq<int>, cnt: seq<int>, entries: seq<Target>, k: int, src: int, p: int)
    requires 0 <= k < |entries| && src == entries[k].srchost && 0 <= src < |cnt|
    requires Blocks(displ, entries, |cnt|) && |t| == displ[|cnt|]
    requires Laid(t, displ, cnt, entries[..k]) && p == displ[src] + cnt[src]
    ensures 0 <= p < |t|
    ensures Laid(t[p := entries[k].gid], displ, cnt[src := cnt[src] + 1], entries[..k + 1])
  {
    BlockOf(displ, entries, |cnt|, src);
    assert p < displ[src + 1] by {
      CountPrefix(entries, k + 1);
      OnHost(entries, k, src);
    }
    var t2 := t[p := entries[k].gid];
    var c2 := cnt[src := cnt[src] + 1];
    forall h | 0 <= h < |c2|
      ensures c2[h] == CountOn(entries[..k + 1], h) && BlockLaid(t2, displ[h], GidsOn(entries[..k + 1], h))
    {
      assert cnt[h] == CountOn(entries[..k], h) && BlockLaid(t, displ[h], GidsOn(entries[..k], h));
      CountPrefix(entries, k);
      BlockOf(displ, entries, |cnt|, h);
      if h < src {
        BlockOrder(displ, entries, |cnt|, h + 1, src);
      } else if src < h {
        BlockOrder(displ, entries, |cnt|, src + 1, h);
      }
      LaidHost(t, displ[h], cnt[h], entries, k, h, p);
    }
  }

  /** A target without a source host changes nothing. */
  lemma LaidSkip(t: seq<int>, displ: seq<int>, cnt: seq<int>, entries: seq<Target>, k: int)
    requires 0 <= k < |entries| && entries[k].srchost < 0
    requires Laid(t, displ, cnt, entries[..k])
    ensures Laid(t, displ, cnt, entries[..k + 1])
  {
    forall h | 0 <= h < |cnt|
      ensures cnt[h] == CountOn(entries[..k + 1], h) && BlockLaid(t, displ[h], GidsOn(entries[..k + 1], h))
    {
      assert cnt[h] == CountOn(entries[..k], h) && BlockLaid(t, displ[h], GidsOn(entries[..k], h));
      OnHost(entries, k, h);
      assert GidsOn(entries[..k + 1], h) == GidsOn(entries[..k], h);
    }
  }

  /** Target k touches host h's count and gids only when h feeds it. */
  lemma OnHost(entries: seq<Target>, k: int, h: int)
    requires 0 <= k < |entries|
    ensures CountOn(entries[..k + 1], h) == CountOn(entries[..k], h) + (if entries[k].srchost == h then 1 else 0)
    ensures GidsOn(entries[..k + 1], h) == GidsOn(entries[..k], h) + (if entries[k].srchost == h then [entries[k].gid] else [])
  {
    assert entries[..k + 1][..k] == entries[..k];
  }

  /** `LaidStep` for one host h: its block (count c, from displ[h]) is
      extended when h feeds target k, which the next free slot p of its
      source's block receives, and is untouched otherwise, since the two
      blocks then do not overlap. */
  lemma LaidHost(t: seq<int>, start: int, c: int, entries: seq<Target>, k: int, h: int, p: int)
    requires 0 <= k < |entries| && 0 <= p < |t|
    requires c == CountOn(entries[..k], h) && BlockLaid(t, start, GidsOn(entries[..k], h))
    requires entries[k].srchost == h ==> p == start + c
    requires entries[k].srchost != h ==> p < start || start + c <= p
    ensures (if entries[k].srchost == h then c + 1 else c) == CountOn(entries[..k + 1], h)
    ensures BlockLaid(t[p := entries[k].gid], start, GidsOn(entries[..k + 1], h))
  {
    OnHost(entries, k, h);
    if entries[k].srchost == h {
      BlockAppend(t, start, GidsOn(entries[..k], h), entries[k].gid);
    } else {
      assert GidsOn(entries[..k + 1], h) == GidsOn(entries[..k], h);
      BlockWrite(t, start, GidsOn(entries[..k], h), p, entries[k].gid);
    }
  }

  /** A table that starts at 0 and adds one term per entry holds the
      running sums of those terms. */
  lemma {:induction false} PrefixIsSum(d: seq<int>, xs: seq<int>, n: int)
    requires 0 <= n <= |xs| && |d| == |xs| + 1 && d[0] == 0
    requires forall k :: 0 <= k < n ==> d[k + 1] == d[k] + xs[k]
    ensures forall k :: 0 <= k <= n ==> d[k] == Sum(xs, 0, k)
    decreases n
  {
    if n > 0 {
      PrefixIsSum(d, xs, n - 1);
      assert d[n] == d[n - 1] + xs[n - 1];
    }
  }

  /** The placing loop of `determine_target_hosts`: the counts are redone
      while each fed target's gid goes to the next free slot of its host's
      block, so block h lists the gids fed by host h in iteration order. */
  method PlaceTargets(entries: seq<Target>, displ: seq<int>, nhost: nat) returns (count: array<int>, targ: array<int>)
    requires forall k :: 0 <= k < |entries| ==> -1 <= entries[k].srchost < nhost
    requires Blocks(displ, entries, nhost)
    ensures fresh(count) && fresh(targ) && count.Length == nhost && targ.Length == displ[nhost]
    ensures Laid(targ[..], displ, count[..], entries)
  {
    BlockOrder(displ, entries, nhost, 0, nhost);
    targ := new int[displ[nhost]];
    count := new int[nhost];
    var i := 0;
    while i < nhost
      invariant 0 <= i <= nhost && forall h :: 0 <= h < i ==> count[h] == 0
    {
      count[i] := 0;
      i := i + 1;
    }
    assert entries[..0] == [];
    forall h | 0 <= h < nhost
      ensures BlockLaid(targ[..], displ[h], GidsOn(entries[..0], h))
    {
      BlockOf(displ, entries, nhost, h);
      BlockOrder(displ, entries, nhost, h, nhost);
    }
    var k := 0;
    while k < |entries|
      invariant 0 <= k <= |entries|
      invariant Laid(targ[..], displ, count[..], entries[..k])
    {
      PlaceOne(entries, displ, nhost, k, count, targ);
      k := k + 1;
    }
    assert entries[..k] == entries;
  }

  /** The body of the placing loop, for target k. */
  method PlaceOne(entries: seq<Target>, displ: seq<int>, nhost: nat, k: int, count: array<int>, targ: array<int>)
    requires 0 <= k < |entries| && -1 <= entries[k].srchost < nhost
    requires Blocks(displ, entries, nhost) && count.Length == nhost && targ.Length == displ[nhost] && count != targ
    requires Laid(targ[..], displ, count[..], entries[..k])
    modifies count, targ
    ensures Laid(targ[..], displ, count[..], entries[..k + 1])
  {
    ghost var t0 := targ[..];
    ghost var c0 := count[..];
    var src := entries[k].srchost;
    if src >= 0 {
      assert |displ| == nhost + 1 && c0[src] == count[src];
      var p := displ[src] + count[src];
      LaidPlace(t0, displ, c0, entries, k, src, p);
      Store(targ, count, src, p, entries[k].gid);
    } else {
      LaidSkip(t0, displ, c0, entries, k);
    }
  }

  /** `targid_on_src[displ[src] + cnt[src]++] = gid`. */
  method Store(targ: array<int>, count: array<int>, src: int, p: int, gid: int)
    requires 0 <= src < count.Length && 0 <= p < targ.Length && count != targ
    modifies targ, count
    ensures targ[..] == old(targ[..])[p := gid]
    ensures count[..] == old(count[..])[src := old(count[src]) + 1]
  {
    targ[p] := gid;
    count[src] := count[src] + 1;
  }

  /** A prefix feeds each host at most as many targets as the whole. */
  lemma {:induction false} CountPrefix(entries: seq<Target>, k: int)
    requires 0 <= k <= |entries|
    ensures forall h :: CountOn(entries[..k], h) <= CountOn(entries, h)
    decreases |entries| - k
  {
    if k < |entries| {
      OnStep(entries, k);
      CountPrefix(entries, k + 1);
    } else {
      assert entries[..k] == entries;
    }
  }

  /** How often source s occurs among slots a .. b - 1 of `targid_on_src`,
      where slot j holds the index of the sending PreSyn its gid names. */
  function Occ(srcOf: seq<int>, s: int, a: int, b: int): nat
    requires 0 <= a <= b <= |srcOf|
    decreases b - a
  {
    if a == b then 0 else Occ(srcOf, s, a, b - 1) + (if srcOf[b - 1] == s then 1 else 0)
  }

  /** Occurrences over adjacent ranges add up. */
  lemma {:induction false} OccSplit(srcOf: seq<int>, s: int, a: int, b: int, c: int)
    requires 0 <= a <= b <= c <= |srcOf|
    ensures Occ(srcOf, s, a, b) + Occ(srcOf, s, b, c) == Occ(srcOf, s, a, c)
    decreases c - b
  {
    if b < c {
      OccSplit(srcOf, s, a, b, c - 1);
    }
  }

  /** k copies of host h. */
  function Repeat(h: int, k: nat): (r: seq<int>)
    ensures |r| == k && forall x :: 0 <= x < k ==> r[x] == h
  {
    seq(k, _ => h)
  }

  /** `tardispl`: block i of the received slots runs from td[i] to
      td[i + 1], and the blocks cover the n slots in host order. */
  predicate Displ(td: seq<int>, n: int)
  {
    |td| >= 1 && td[0] == 0 && td[|td| - 1] == n &&
    forall a, b :: 0 <= a <= b < |td| ==> 0 <= td[a] <= td[b] <= n
  }

  /** The hosts source s sends to, from the blocks of hosts 0 .. i - 1:
      every host but this one, as often as s occurs in its block. */
  function HostList(td: seq<int>, srcOf: seq<int>, s: int, myid: int, i: int): seq<int>
    requires Displ(td, |srcOf|) && 0 <= i < |td|
    decreases i
  {
    if i == 0 then []
    else HostList(td, srcOf, s, myid, i - 1) +
         (if i - 1 == myid then [] else Repeat(i - 1, Occ(srcOf, s, td[i - 1], td[i])))
  }

  /** Whether source s has met this host's own block by slot j of block i. */
  predicate SelfSeen(td: seq<int>, srcOf: seq<int>, s: int, myid: int, i: int, j: int)
    requires Displ(td, |srcOf|) && 0 <= myid < |td| - 1 && 0 <= i < |td| && td[i] <= j <= |srcOf|
  {
    if myid < i then Occ(srcOf, s, td[myid], td[myid + 1]) > 0
    else if myid == i then Occ(srcOf, s, td[i], j) > 0
    else false
  }

  /** Each host other than this one appears in source s's list as often as
      s occurs in that host's block; this host never appears. */
  lemma {:induction false} HostListCount(td: seq<int>, srcOf: seq<int>, s: int, myid: int, i: int, h: int)
    requires Displ(td, |srcOf|) && 0 <= i < |td|
    ensures multiset(HostList(td, srcOf, s, myid, i))[h] ==
              if 0 <= h < i && h != myid then Occ(srcOf, s, td[h], td[h + 1]) else 0
    decreases i
  {
    if i > 0 {
      HostListCount(td, srcOf, s, myid, i - 1, h);
      if i - 1 != myid {
        var k := Occ(srcOf, s, td[i - 1], td[i]);
        RepeatCount(i - 1, k, h);
      }
    }
  }

  /** k copies of x hold h k times if x is h, otherwise never. */
  lemma {:induction false} RepeatCount(x: int, k: nat, h: int)
    ensures multiset(Repeat(x, k))[h] == if x == h then k else 0
    decreases k
  {
    if k > 0 {
      RepeatCount(x, k - 1, h);
      assert Repeat(x, k) == Repeat(x, k - 1) + [x];
    }
  }

  /** Source s's list is as long as its occurrences outside this host's
      block: `ntarget_hosts_` once the own-host entries are taken back. */
  lemma {:induction false} HostListLength(td: seq<int>, srcOf: seq<int>, s: int, myid: int, i: int)
    requires Displ(td, |srcOf|) && 0 <= myid < |td| - 1 && 0 <= i < |td|
    ensures |HostList(td, srcOf, s, myid, i)| ==
              Occ(srcOf, s, 0, td[i]) - (if myid < i then Occ(srcOf, s, td[myid], td[myid + 1]) else 0)
    decreases i
  {
    if i > 0 {
      HostListLength(td, srcOf, s, myid, i - 1);
      OccSplit(srcOf, s, 0, td[i - 1], td[i]);
    }
  }

  /** Slot j of host i's block is a point the filling loops pass. */
  predicate At(td: seq<int>, srcOf: seq<int>, myid: int, i: int, j: int)
  {
    Displ(td, |srcOf|) && 0 <= myid < |td| - 1 && 0 <= i < |td| && td[i] <= j <= |srcOf| &&
    (i < |td| - 1 ==> j <= td[i + 1])
  }

  /** Source s at that point: its list so far (the first cnt entries of
      its buffer buf) holds its hosts up to there, the buffer has room for
      the slots still to come, and `send2self_` records whether it met
      this host's own block. */
  predicate SrcFilled(cnt: int, buf: seq<int>, self: bool, td: seq<int>, srcOf: seq<int>, myid: int, i: int, j: int, s: int)
    requires At(td, srcOf, myid, i, j)
  {
    0 <= cnt && cnt + Occ(srcOf, s, j, |srcOf|) <= |buf| &&
    buf[..cnt] == HostList(td, srcOf, s, myid, i) + (if i == myid then [] else Repeat(i, Occ(srcOf, s, td[i], j))) &&
    (self <==> SelfSeen(td, srcOf, s, myid, i, j))
  }

  /** The state of the filling loops at slot j of host i's block, for
      every source. */
  predicate Filling(nt: seq<int>, hs: seq<seq<int>>, sf: seq<bool>, td: seq<int>, srcOf: seq<int>, myid: int, i: int, j: int)
  {
    At(td, srcOf, myid, i, j) && |nt| == |hs| == |sf| &&
    forall s :: 0 <= s < |nt| ==> SrcFilled(nt[s], hs[s], sf[s], td, srcOf, myid, i, j, s)
  }

  /** Visiting slot j of host i's block: its source's list gets host i at
      the next position, which is then given back when i is this host,
      setting `send2self_` instead. */
  lemma FillStep(nt: seq<int>, hs: seq<seq<int>>, sf: seq<bool>, td: seq<int>, srcOf: seq<int>, myid: int, i: int, j: int)
    requires Filling(nt, hs, sf, td, srcOf, myid, i, j) && i < |td| - 1 && j < td[i + 1]
    requires forall x :: 0 <= x < |srcOf| ==> 0 <= srcOf[x] < |nt|
    ensures var s := srcOf[j];
            0 <= nt[s] < |hs[s]| &&
            Filling(nt[s := if i == myid then nt[s] else nt[s] + 1], hs[s := hs[s][nt[s] := i]],
                    if i == myid then sf[s := true] else sf, td, srcOf, myid, i, j + 1)
  {
    var s := srcOf[j];
    assert SrcFilled(nt[s], hs[s], sf[s], td, srcOf, myid, i, j, s);
    SrcVisited(nt[s], hs[s], sf[s], td, srcOf, myid, i, j, s);
    var nt2 := nt[s := if i == myid then nt[s] else nt[s] + 1];
    var hs2 := hs[s := hs[s][nt[s] := i]];
    var sf2 := if i == myid then sf[s := true] else sf;
    forall u | 0 <= u < |nt2|
      ensures SrcFilled(nt2[u], hs2[u], sf2[u], td, srcOf, myid, i, j + 1, u)
    {
      if u != s {
        assert SrcFilled(nt[u], hs[u], sf[u], td, srcOf, myid, i, j, u);
        SrcPassed(nt[u], hs[u], sf[u], td, srcOf, myid, i, j, u);
      }
    }
  }

  /** Slot j names source s: s's list gains host i, or `send2self_` when
      i is this host. */
  lemma SrcVisited(cnt: int, buf: seq<int>, self: bool, td: seq<int>, srcOf: seq<int>, myid: int, i: int, j: int, s: int)
    requires At(td, srcOf, myid, i, j) && i < |td| - 1 && j < td[i + 1] && srcOf[j] == s
    requires SrcFilled(cnt, buf, self, td, srcOf, myid, i, j, s)
    ensures 0 <= cnt < |buf|
    ensures SrcFilled(if i == myid then cnt else cnt + 1, buf[cnt := i], if i == myid then true else self,
                      td, srcOf, myid, i, j + 1, s)
  {
    OccSplit(srcOf, s, j, j + 1, |srcOf|);
    var buf2 := buf[cnt := i];
    if i != myid {
      assert Repeat(i, Occ(srcOf, s, td[i], j + 1)) == Repeat(i, Occ(srcOf, s, td[i], j)) + [i];
      assert buf2[..cnt + 1] == buf[..cnt] + [i];
    } else {
      assert buf2[..cnt] == buf[..cnt];
    }
  }

  /** Slot j names another source: s's state carries over. */
  lemma SrcPassed(cnt: int, buf: seq<int>, self: bool, td: seq<int>, srcOf: seq<int>, myid: int, i: int, j: int, s: int)
    requires At(td, srcOf, myid, i, j) && i < |td| - 1 && j < td[i + 1] && srcOf[j] != s
    requires SrcFilled(cnt, buf, self, td, srcOf, myid, i, j, s)
    ensures SrcFilled(cnt, buf, self, td, srcOf, myid, i, j + 1, s)
  {
    OccSplit(srcOf, s, j, j + 1, |srcOf|);
  }

  /** Leaving host i's block for host i + 1's. */
  lemma NextHost(nt: seq<int>, hs: seq<seq<int>>, sf: seq<bool>, td: seq<int>, srcOf: seq<int>, myid: int, i: int)
    requires 0 <= i < |td| - 1 && Filling(nt, hs, sf, td, srcOf, myid, i, td[i + 1])
    ensures Filling(nt, hs, sf, td, srcOf, myid, i + 1, td[i + 1])
  {
    forall u | 0 <= u < |nt|
      ensures SrcFilled(nt[u], hs[u], sf[u], td, srcOf, myid, i + 1, td[i + 1], u)
    {
      assert SrcFilled(nt[u], hs[u], sf[u], td, srcOf, myid, i, td[i + 1], u);
      assert Repeat(i + 1, 0) == [];
    }
  }

  /** Past the last block, source s's list holds all its hosts, counted
      without this host's block, and `send2self_` says whether that block
      named it. */
  lemma FilledEnd(cnt: int, buf: seq<int>, self: bool, td: seq<int>, srcOf: seq<int>, myid: int, s: int)
    requires At(td, srcOf, myid, |td| - 1, |srcOf|)
    requires SrcFilled(cnt, buf, self, td, srcOf, myid, |td| - 1, |srcOf|, s)
    ensures 0 <= cnt <= |buf|
    ensures cnt == Occ(srcOf, s, 0, |srcOf|) - Occ(srcOf, s, td[myid], td[myid + 1])
    ensures buf[..cnt] == HostList(td, srcOf, s, myid, |td| - 1)
    ensures self <==> Occ(srcOf, s, td[myid], td[myid + 1]) > 0
  {
    HostListLength(td, srcOf, s, myid, |td| - 1);
  }

  /** The counting loop of `determine_target_hosts`: each slot of
      `targid_on_src` adds one to its source's `ntarget_hosts_`, which
      the DMASend constructor started at 0. */
  method CountTargetHosts(srcOf: seq<int>, nsrc: nat) returns (ntarget: array<int>)
    requires forall x :: 0 <= x < |srcOf| ==> 0 <= srcOf[x] < nsrc
    ensures fresh(ntarget) && ntarget.Length == nsrc
    ensures forall s :: 0 <= s < nsrc ==> ntarget[s] == Occ(srcOf, s, 0, |srcOf|)
  {
    ntarget := new int[nsrc](_ => 0);
    var j := 0;
    while j < |srcOf|
      invariant 0 <= j <= |srcOf|
      invariant forall s :: 0 <= s < nsrc ==> ntarget[s] == Occ(srcOf, s, 0, j)
    {
      ntarget[srcOf[j]] := ntarget[srcOf[j]] + 1;
      j := j + 1;
    }
  }

  /** The allocation loop: each source gets a `target_hosts_` buffer of
      its count, `max_ntarget_host` becomes the largest count (0 when
      there is none), and the counts go back to 0. */
  method AllocateTargetHosts(ntarget: array<int>) returns (hosts: array<seq<int>>, maxn: int)
    requires forall s :: 0 <= s < ntarget.Length ==> ntarget[s] >= 0
    modifies ntarget
    ensures fresh(hosts) && hosts.Length == ntarget.Length
    ensures forall s :: 0 <= s < ntarget.Length ==> |hosts[s]| == old(ntarget[s]) && ntarget[s] == 0
    ensures 0 <= maxn && forall s :: 0 <= s < ntarget.Length ==> old(ntarget[s]) <= maxn
    ensures maxn == 0 || exists s :: 0 <= s < ntarget.Length && old(ntarget[s]) == maxn
  {
    hosts := new seq<int>[ntarget.Length](_ => []);
    maxn := 0;
    var s := 0;
    while s < ntarget.Length
      invariant 0 <= s <= ntarget.Length && 0 <= maxn
      invariant forall u :: 0 <= u < s ==> |hosts[u]| == old(ntarget[u]) && ntarget[u] == 0 && old(ntarget[u]) <= maxn
      invariant forall u :: s <= u < ntarget.Length ==> ntarget[u] == old(ntarget[u])
      invariant maxn == 0 || exists u :: 0 <= u < s && old(ntarget[u]) == maxn
    {
      hosts[s] := seq(ntarget[s], _ => 0);
      if maxn < ntarget[s] {
        maxn := ntarget[s];
      }
      ntarget[s] := 0;
      s := s + 1;
    }
  }

  /** The filling loops: for each host i and each slot j of its block,
      the slot's source records i as a target host, except that this
      host's own block sets `send2self_` instead. */
  method FillTargetHosts(td: seq<int>, srcOf: seq<int>, myid: int, ntarget: array<int>, hosts: array<seq<int>>, self: array<bool>)
    requires Displ(td, |srcOf|) && 0 <= myid < |td| - 1
    requires ntarget.Length == hosts.Length == self.Length
    requires forall x :: 0 <= x < |srcOf| ==> 0 <= srcOf[x] < ntarget.Length
    requires forall s :: 0 <= s < ntarget.Length ==> ntarget[s] == 0 && |hosts[s]| == Occ(srcOf, s, 0, |srcOf|) && !self[s]
    modifies ntarget, hosts, self
    ensures Filling(ntarget[..], hosts[..], self[..], td, srcOf, myid, |td| - 1, |srcOf|)
    ensures forall s :: 0 <= s < hosts.Length ==> |hosts[s]| == old(|hosts[s]|)
  {
    assert Filling(ntarget[..], hosts[..], self[..], td, srcOf, myid, 0, 0);
    var i := 0;
    while i < |td| - 1
      invariant 0 <= i < |td| && Filling(ntarget[..], hosts[..], self[..], td, srcOf, myid, i, td[i])
      invariant forall s :: 0 <= s < hosts.Length ==> |hosts[s]| == old(|hosts[s]|)
    {
      FillBlock(td, srcOf, myid, i, ntarget, hosts, self);
      NextHost(ntarget[..], hosts[..], self[..], td, srcOf, myid, i);
      i := i + 1;
    }
  }

  /** The inner filling loop, over the slots of host i's block. */
  method FillBlock(td: seq<int>, srcOf: seq<int>, myid: int, i: int, ntarget: array<int>, hosts: array<seq<int>>, self: array<bool>)
    requires 0 <= i < |td| - 1 && Filling(ntarget[..], hosts[..], self[..], td, srcOf, myid, i, td[i])
    requires forall x :: 0 <= x < |srcOf| ==> 0 <= srcOf[x] < ntarget.Length
    modifies ntarget, hosts, self
    ensures Filling(ntarget[..], hosts[..], self[..], td, srcOf, myid, i, td[i + 1])
    ensures forall s :: 0 <= s < hosts.Length ==> |hosts[s]| == old(|hosts[s]|)
  {
    var j := td[i];
    while j < td[i + 1]
      invariant td[i] <= j <= td[i + 1]
      invariant Filling(ntarget[..], hosts[..], self[..], td, srcOf, myid, i, j)
      invariant forall s :: 0 <= s < hosts.Length ==> |hosts[s]| == old(|hosts[s]|)
    {
      FillSlot(td, srcOf, myid, i, j, ntarget, hosts, self);
      j := j + 1;
    }
  }

  /** The body of the inner filling loop, at slot j. */
  method FillSlot(td: seq<int>, srcOf: seq<int>, myid: int, i: int, j: int, ntarget: array<int>, hosts: array<seq<int>>, self: array<bool>)
    requires 0 <= i < |td| - 1 && j < td[i + 1] && Filling(ntarget[..], hosts[..], self[..], td, srcOf, myid, i, j)
    requires forall x :: 0 <= x < |srcOf| ==> 0 <= srcOf[x] < ntarget.Length
    modifies ntarget, hosts, self
    ensures Filling(ntarget[..], hosts[..], self[..], td, srcOf, myid, i, j + 1)
    ensures forall s :: 0 <= s < hosts.Length ==> |hosts[s]| == old(|hosts[s]|)
  {
    ghost var nt0 := ntarget[..];
    ghost var hs0 := hosts[..];
    ghost var sf0 := self[..];
    FillStep(nt0, hs0, sf0, td, srcOf, myid, i, j);
    Visit(srcOf[j], i, myid, ntarget, hosts, self);
  }

  /** One slot of the filling loops: source s records host i at its next
      position, and takes it back, setting `send2self_`, when i is this
      host. */
  method Visit(s: int, i: int, myid: int, ntarget: array<int>, hosts: array<seq<int>>, self: array<bool>)
    requires 0 <= s < ntarget.Length == hosts.Length == self.Length && 0 <= ntarget[s] < |hosts[s]|
    modifies ntarget, hosts, self
    ensures hosts[..] == old(hosts[..])[s := old(hosts[s])[old(ntarget[s]) := i]]
    ensures ntarget[..] == old(ntarget[..])[s := if i == myid then old(ntarget[s]) else old(ntarget[s]) + 1]
    ensures self[..] == if i == myid then old(self[..])[s := true] else old(self[..])
  {
    hosts[s] := hosts[s][ntarget[s] := i];
    ntarget[s] := ntarget[s] + 1;
    if i == myid {
      ntarget[s] := ntarget[s] - 1;
      self[s] := true;
    }
  }

  /** The first half of `determine_target_hosts`: count the targets per
      source host, lay out one block per host, and fill each block with
      the gids that host feeds, in iteration order. */
  method TargidOnTar(entries: seq<Target>, nhost: nat) returns (count: array<int>, displ: array<int>, targ: array<int>)
    requires forall k :: 0 <= k < |entries| ==> -1 <= entries[k].srchost < nhost
    ensures fresh(count) && fresh(displ) && fresh(targ)
    ensures Blocks(displ[..], entries, nhost) && targ.Length == displ[nhost]
    ensures Laid(targ[..], displ[..], count[..], entries)
  {
    var ntargid;
    count, ntargid := CountSources(entries, nhost);
    assert count[..] == Counts(entries, nhost);
    displ := PrefixSums(count);
    targ, count := PlaceTargetsInto(entries, displ);
  }

  /** `PlaceTargets` on the displacement array. */
  method PlaceTargetsInto(entries: seq<Target>, displ: array<int>) returns (targ: array<int>, count: array<int>)
    requires displ.Length >= 1 && forall k :: 0 <= k < |entries| ==> -1 <= entries[k].srchost < displ.Length - 1
    requires forall h :: 0 <= h < displ.Length ==> displ[h] == Sum(Counts(entries, displ.Length - 1), 0, h)
    ensures fresh(count) && fresh(targ) && targ.Length == displ[displ.Length - 1]
    ensures Blocks(displ[..], entries, displ.Length - 1)
    ensures Laid(targ[..], displ[..], count[..], entries)
  {
    assert Blocks(displ[..], entries, displ.Length - 1);
    count, targ := PlaceTargets(entries, displ[..], displ.Length - 1);
  }

  /** The second half of `determine_target_hosts`, once every host has
      sent this one the gids it needs (slot j of `targid_on_src` names
      the sending PreSyn srcOf[j], and block i came from host i): each
      source ends with a buffer sized for all its slots, the hosts other
      than this one to send to (each as often as the source occurs in its
      block), `send2self_` set exactly when this host's own block names
      it, and `max_ntarget_host` the largest buffer. */
  method DetermineTargetHosts(td: seq<int>, srcOf: seq<int>, nsrc: nat, myid: int)
      returns (ntarget: array<int>, hosts: array<seq<int>>, self: array<bool>, maxn: int)
    requires Displ(td, |srcOf|) && 0 <= myid < |td| - 1
    requires forall x :: 0 <= x < |srcOf| ==> 0 <= srcOf[x] < nsrc
    ensures fresh(ntarget) && fresh(hosts) && fresh(self)
    ensures ntarget.Length == hosts.Length == self.Length == nsrc
    ensures forall s :: 0 <= s < nsrc ==>
              |hosts[s]| == Occ(srcOf, s, 0, |srcOf|) <= maxn && 0 <= ntarget[s] <= |hosts[s]| &&
              ntarget[s] == Occ(srcOf, s, 0, |srcOf|) - Occ(srcOf, s, td[myid], td[myid + 1]) &&
              hosts[s][..ntarget[s]] == HostList(td, srcOf, s, myid, |td| - 1) &&
              (self[s] <==> Occ(srcOf, s, td[myid], td[myid + 1]) > 0)
    ensures maxn == 0 || exists s :: 0 <= s < nsrc && Occ(srcOf, s, 0, |srcOf|) == maxn
  {
    ntarget := CountTargetHosts(srcOf, nsrc);
    hosts, maxn := AllocateTargetHosts(ntarget);
    self := new bool[nsrc](_ => false);
    FillTargetHosts(td, srcOf, myid, ntarget, hosts, self);
    forall s | 0 <= s < nsrc
      ensures 0 <= ntarget[s] <= |hosts[s]|
      ensures ntarget[s] == Occ(srcOf, s, 0, |srcOf|) - Occ(srcOf, s, td[myid], td[myid + 1])
      ensures hosts[s][..ntarget[s]] == HostList(td, srcOf, s, myid, |td| - 1)
      ensures self[s] <==> Occ(srcOf, s, td[myid], td[myid + 1]) > 0
    {
      assert SrcFilled(ntarget[s], hosts[s], self[s], td, srcOf, myid, |td| - 1, |srcOf|, s);
      FilledEnd(ntarget[s], hosts[s], self[s], td, srcOf, myid, s);
    }
  }
}
