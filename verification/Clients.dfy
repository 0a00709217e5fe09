/** The connection table and idle list of src/server/server.cpp, with Conn from include/server/conn.h. */
module Clients {
  import opened Base
  import opened Ring
  import opened Timers
  import Framing

  datatype Conn = Conn(wantRead: bool, wantWrite: bool, wantClose: bool, incoming: Bytes, outgoing: Bytes,
      lastActive: nat)

  /** Between steps: exactly one direction is wanted, writing exactly while something is left to write, and no
      complete or oversized frame is waiting. */
  predicate Quiet(c: Conn) {
    && !c.wantClose && c.wantRead != c.wantWrite && c.wantWrite == (c.outgoing != [])
    && Framing.NextFrame(c.incoming) == Framing.Incomplete
  }

  /** The idle node embedded in the connection of descriptor fd. */
  function Node(fd: nat): Ptr { fd + 1 }

  ghost predicate At(conns: map<nat, Conn>, order: seq<Ptr>, i: nat)
    requires i < |order|
  {
    order[i] > 0 && (order[i] - 1) in conns
  }

  ghost predicate InOrder(conns: map<nat, Conn>, order: seq<Ptr>, i: nat, j: nat)
    requires i < |order| && j < |order|
  {
    && At(conns, order, i) && At(conns, order, j)
    && conns[order[i] - 1].lastActive <= conns[order[j] - 1].lastActive
  }

  ghost predicate Listed(order: seq<Ptr>, fd: nat) { Node(fd) in order }

  /** The list holds exactly the live connections, longest idle first. */
  ghost predicate IdleOk(conns: map<nat, Conn>, order: seq<Ptr>) {
    && (forall i | 0 <= i < |order| :: At(conns, order, i))
    && (forall fd: nat | fd in conns :: Listed(order, fd))
    && (forall i, j | 0 <= i < j < |order| :: InOrder(conns, order, i, j))
  }

  /** idle past the timeout */
  ghost predicate Idle(c: Conn, timeout: nat, now: nat) { c.lastActive + timeout <= now }

  ghost predicate NoLater(conns: map<nat, Conn>, t: nat) {
    forall fd: nat :: fd in conns ==> conns[fd].lastActive <= t
  }

  lemma {:induction false} Joined(conns: map<nat, Conn>, order: seq<Ptr>, fd: nat, c: Conn)
    requires IdleOk(conns, order) && fd !in conns && NoLater(conns, c.lastActive)
    ensures IdleOk(conns[fd := c], order + [Node(fd)]) && Node(fd) !in order
  {
    assert forall i | 0 <= i < |order| :: At(conns, order, i) ==> order[i] != Node(fd);
    var conns', order' := conns[fd := c], order + [Node(fd)];
    forall i | 0 <= i < |order'| ensures At(conns', order', i) {
      assert i < |order| ==> At(conns, order, i);
    }
    forall f: nat | f in conns' ensures Listed(order', f) {
      assert f != fd ==> Listed(order, f);
      assert order'[|order|] == Node(fd);
    }
    forall i, j | 0 <= i < j < |order'| ensures InOrder(conns', order', i, j) {
      assert At(conns, order, i);
      if j < |order| { assert At(conns, order, j) && InOrder(conns, order, i, j); }
    }
  }

  lemma {:induction false} Left(conns: map<nat, Conn>, order: seq<Ptr>, fd: nat, k: nat)
    requires IdleOk(conns, order) && Distinct(order) && k < |order| && order[k] == Node(fd)
    ensures IdleOk(conns - {fd}, RemoveAt(order, k))
  {
    NoDupRemove(order, k);
    var conns', order' := conns - {fd}, RemoveAt(order, k);
    forall i | 0 <= i < |order'| ensures At(conns', order', i) {
      assert At(conns, order, Skip(k, i)) && order'[i] in order';
    }
    forall f: nat | f in conns' ensures Listed(order', f) {
      assert Listed(order, f);
    }
    forall i, j | 0 <= i < j < |order'| ensures InOrder(conns', order', i, j) {
      assert InOrder(conns, order, Skip(k, i), Skip(k, j));
      assert At(conns', order', i) && At(conns', order', j);
    }
  }

  /** The front of the list has been idle for at least as long as anyone. */
  lemma {:induction false} FrontFirst(conns: map<nat, Conn>, order: seq<Ptr>, fd: nat)
    requires IdleOk(conns, order) && fd in conns
    ensures order != [] && At(conns, order, 0) && conns[order[0] - 1].lastActive <= conns[fd].lastActive
  {
    assert Listed(order, fd);
    var k :| 0 <= k < |order| && order[k] == Node(fd);
    assert At(conns, order, 0);
    assert k > 0 ==> InOrder(conns, order, 0, k);
  }

  /** Mentioning Open unfolds Clients.Valid. */
  ghost predicate Open(z: int) { true }

  class Clients {
    const idleTimeout: nat
    const ring: IdleRing
    var conns: map<nat, Conn>
    /** The latest clock reading used. */
    ghost var clock: nat

    /** The invariant Inv, available only where Open is asserted. */
    ghost predicate Valid()
      reads this, ring
    {
      forall z {:trigger Open(z)} :: Open(z) ==> Inv()
    }

    ghost predicate Inv()
      reads this, ring
    {
      && ring.Valid() && IdleOk(conns, ring.order) && NoLater(conns, clock) && clock < TWO63 && idleTimeout < TWO63
      && forall fd: nat :: fd in conns ==> Node(fd) < |ring.mem|
    }

    constructor (idleTimeout: nat)
      requires idleTimeout < TWO63
      ensures Valid() && conns == map[] && this.idleTimeout == idleTimeout && fresh(ring) && clock == 0
    {
      this.idleTimeout := idleTimeout;
      ring := new IdleRing();
      conns, clock := map[], 0;
    }

    /** accept_new once the kernel has handed out a descriptor: the newest connection goes to the back. */
    method Accept(fd: nat, now: nat)
      requires Valid() && fd !in conns && clock <= now < TWO63
      modifies this, ring
      ensures Valid() && clock == now
      ensures conns == old(conns)[fd := Conn(true, false, false, [], [], now)]
    {
      assert Open(0);
      var c := Conn(true, false, false, [], [], now);
      ring.Grow(Node(fd));
      Joined(conns, ring.order, fd, c);
      ring.PushBack(Node(fd));
      conns, clock := conns[fd := c], now;
    }

    /** ~Conn by way of conns_[fd].reset(): off the list and out of the table. */
    method Close(fd: nat)
      requires Valid() && fd in conns
      modifies this, ring
      ensures Valid() && conns == old(conns) - {fd} && clock == old(clock)
    {
      assert Open(0);
      assert Listed(ring.order, fd);
      ghost var k :| 0 <= k < |ring.order| && ring.order[k] == Node(fd);
      Left(conns, ring.order, fd, k);
      ring.Detach(Node(fd), k);
      conns := conns - {fd};
    }

    /** Any readiness counts as activity: to the back of the list. */
    method Touch(fd: nat, now: nat)
      requires Valid() && fd in conns && clock <= now < TWO63
      modifies this, ring
      ensures Valid() && clock == now && conns == old(conns)[fd := old(conns[fd]).(lastActive := now)]
    {
      assert Open(0);
      var c := conns[fd].(lastActive := now);
      assert Listed(ring.order, fd);
      ghost var k :| 0 <= k < |ring.order| && ring.order[k] == Node(fd);
      Left(conns, ring.order, fd, k);
      ring.Detach(Node(fd), k);
      Joined(conns - {fd}, ring.order, fd, c);
      ring.PushBack(Node(fd));
      assert (conns - {fd})[fd := c] == conns[fd := c];
      conns, clock := conns[fd := c], now;
    }

    /** One round of process_timers' first loop: close the front of the list if it is idle; if not, nobody is. */
    method CloseFront(now: nat) returns (closed: Option<nat>)
      requires Valid() && now < TWO63
      modifies this, ring
      ensures Valid() && clock == old(clock)
      ensures closed.Some? ==> closed.value in old(conns) && conns == old(conns) - {closed.value}
      ensures closed.Some? ==> Idle(old(conns[closed.value]), idleTimeout, now)
      ensures closed.None? ==> conns == old(conns)
      ensures closed.None? ==> forall fd: nat :: fd in conns ==> !Idle(conns[fd], idleTimeout, now)
    {
      assert Open(0);
      closed := None;
      forall fd: nat | fd in conns
        ensures ring.order != [] && At(conns, ring.order, 0)
        ensures conns[ring.order[0] - 1].lastActive <= conns[fd].lastActive
      {
        FrontFirst(conns, ring.order, fd);
      }
      var empty := ring.Empty();
      if empty { return; }
      var p := ring.Front();
      assert At(conns, ring.order, 0);
      NoWrap(conns[p - 1].lastActive, idleTimeout);
      if Add64(conns[p - 1].lastActive, idleTimeout) > now { return; }
      closed := Some(p - 1);
      Close(p - 1);
    }

    /** process_timers, connection half: stopping at the first live connection closes exactly the idle ones. */
    method ReapIdle(now: nat)
      requires Valid() && clock <= now < TWO63
      modifies this, ring
      ensures Valid() && clock == old(clock)
      ensures forall fd: nat :: fd in conns <==> fd in old(conns) && !Idle(old(conns[fd]), idleTimeout, now)
      ensures forall fd: nat :: fd in conns ==> conns[fd] == old(conns[fd])
    {
      while true
        invariant Valid() && clock == old(clock)
        invariant forall fd: nat :: fd in conns ==> fd in old(conns) && conns[fd] == old(conns[fd])
        invariant forall fd: nat :: fd in old(conns) && fd !in conns ==> Idle(old(conns[fd]), idleTimeout, now)
        decreases |conns|
      {
        var closed := CloseFront(now);
        if closed.None? { break; }
      }
    }

    /** The front of the list is the connection that times out next. */
    method NextIdle() returns (r: Option<nat>)
      requires Valid()
      ensures r.None? <==> conns == map[]
      ensures r.Some? ==> exists fd: nat :: fd in conns && conns[fd].lastActive + idleTimeout == r.value
      ensures r.Some? ==> r.value < TWO64 - 1
      ensures r.Some? ==> forall fd: nat :: fd in conns ==> r.value <= conns[fd].lastActive + idleTimeout
    {
      assert Open(0);
      r := None;
      var empty := ring.Empty();
      if !empty {
        var p := ring.Front();
        assert At(conns, ring.order, 0);
        NoWrap(conns[p - 1].lastActive, idleTimeout);
        r := Some(Add64(conns[p - 1].lastActive, idleTimeout));
      }
      forall fd: nat | fd in conns ensures r.Some? && r.value <= conns[fd].lastActive + idleTimeout {
        FrontFirst(conns, ring.order, fd);
      }
    }

    /** A step that changed only flags and buffers of one connection. */
    method Put(fd: nat, c: Conn)
      requires Valid() && fd in conns && c.lastActive == conns[fd].lastActive
      modifies this`conns
      ensures Valid() && conns == old(conns)[fd := c]
    {
      assert Open(0);
      Replaced(conns, ring.order, fd, c);
      conns := conns[fd := c];
    }
  }

  lemma {:induction false} Replaced(conns: map<nat, Conn>, order: seq<Ptr>, fd: nat, c: Conn)
    requires IdleOk(conns, order) && fd in conns && c.lastActive == conns[fd].lastActive
    ensures IdleOk(conns[fd := c], order)
  {
    var conns' := conns[fd := c];
    forall i | 0 <= i < |order| ensures At(conns', order, i) { assert At(conns, order, i); }
    forall f: nat | f in conns' ensures Listed(order, f) { assert f in conns && Listed(order, f); }
    forall i, j | 0 <= i < j < |order| ensures InOrder(conns', order, i, j) {
      assert InOrder(conns, order, i, j);
    }
  }
}
