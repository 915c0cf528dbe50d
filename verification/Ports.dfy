/**
 The cyclic port allocator (FDSet.NextFD in pkg/udp/udp.go). The operating system is the set of ports
 that can be bound during a call; a socket that is bound cannot be bound again.
 */
module Ports {
  import opened Wrappers

  datatype Range = Range(min: nat, max: nat) {
    predicate Valid() { min <= max }

    function Size(): nat
      requires Valid()
    {
      max - min + 1
    }

    predicate Has(p: int) { min <= p <= max }

    /** The port after p, in cyclic order. */
    function After(p: int): int { if p == max then min else p + 1 }

    /** i ports further. */
    function Walk(p: int, i: nat): int
      decreases i
    {
      if i == 0 then p else After(Walk(p, i - 1))
    }

    /** The first i ports from p on. */
    function Ports(p: int, i: nat): seq<int> {
      seq(i, k requires 0 <= k < i => Walk(p, k))
    }

    /** The distance to the first port from the i-th on that is free. */
    function FirstFree(p: int, free: set<int>, i: nat): (d: Option<nat>)
      requires Valid() && i <= Size()
      ensures d.Some? ==> i <= d.value < Size() && Walk(p, d.value) in free
                          && forall k | i <= k < d.value :: Walk(p, k) !in free
      ensures d.None? ==> forall k | i <= k < Size() :: Walk(p, k) !in free
      decreases Size() - i
    {
      if i == Size() then None
      else if Walk(p, i) in free then Some(i)
      else FirstFree(p, free, i + 1)
    }
  }

  /** What one call does: the port returned, and how many ports it tried to bind. */
  datatype Outcome = Outcome(port: Option<int>, tries: nat)

  /** The first free port in cyclic order, unless that is port 0: a bind of port 0 succeeds without the
      allocator noticing, and then no other bind on that socket can. */
  function Call(r: Range, current: int, free: set<int>): Outcome
    requires r.Valid()
  {
    match r.FirstFree(current, free, 0)
    case None => Outcome(None, r.Size())
    case Some(d) =>
      if r.Walk(current, d) == 0 then Outcome(None, r.Size()) else Outcome(Some(r.Walk(current, d)), d + 1)
  }

  class FDSet {
    const min: nat
    const max: nat
    var current: int
    ghost var tried: seq<int>

    constructor (min: nat, max: nat)
      requires min <= max
      ensures Valid() && this.min == min && this.max == max && current == min && tried == []
    {
      this.min, this.max, current, tried := min, max, min, [];
    }

    predicate Valid()
      reads this
    {
      min <= current <= max
    }

    ghost function R(): Range { Range(min, max) }

    /** None is the error return; socketOk says whether the socket could be created and configured. */
    method NextFD(socketOk: bool, free: set<int>) returns (port: Option<int>)
      requires Valid()
      modifies this
      ensures Valid()
      ensures !socketOk ==> port == None && current == old(current) && tried == old(tried)
      ensures socketOk ==>
                var call := Call(R(), old(current), free);
                && port == call.port
                && current == R().Walk(old(current), call.tries)
                && tried == old(tried) + R().Ports(old(current), call.tries)
                && (port == None ==> current == old(current))
    {
      if !socketOk {
        return None;
      }
      hide Range.Walk;
      WalkOn(R(), current, 0);
      var bound := false;
      var boundPort := 0;
      var startPort := current;
      var i := 0;
      ghost var boundAt := 0;
      while true
        invariant 0 <= i <= R().Size()
        invariant current == R().Walk(startPort, i)
        invariant Valid() && boundPort == 0
        invariant tried == old(tried) + R().Ports(startPort, i)
        invariant !bound ==> forall k | 0 <= k < i :: R().Walk(startPort, k) !in free
        invariant bound ==> 0 <= boundAt < i && R().Walk(startPort, boundAt) == 0
                            && R().FirstFree(startPort, free, 0) == Some(boundAt)
        decreases R().Size() - i
      {
        var port' := current;
        WalkOnce(R(), startPort, i);
        if i != 0 && startPort == port' {
          break;
        }
        if !bound && port' in free {
          bound := true;
          boundPort := port';
          boundAt := i;
          FirstFreeIs(R(), startPort, free, i);
        }
        if port' == max {
          current := min;
        } else {
          current := current + 1;
        }
        tried := tried + [port'];
        OneMore(R(), startPort, i);
        WalkOn(R(), startPort, i);
        if boundPort != 0 {
          return Some(boundPort);
        }
        i := i + 1;
      }
      return None;
    }
  }

  // Walking round the range

  lemma {:induction false} WalkInRange(r: Range, p: int, i: nat)
    requires r.Valid() && r.Has(p)
    ensures r.Has(r.Walk(p, i))
    decreases i
  {
    if i > 0 { WalkInRange(r, p, i - 1); }
  }

  lemma {:induction false} WalkOnce(r: Range, p: int, i: nat)
    requires r.Valid() && r.Has(p) && i <= r.Size()
    ensures r.Walk(p, i) == if p + i <= r.max then p + i else p + i - r.Size()
    decreases i
  {
    if i > 0 { WalkOnce(r, p, i - 1); }
  }

  lemma WalkOn(r: Range, p: int, i: nat)
    ensures r.Walk(p, 0) == p && r.Walk(p, i + 1) == r.After(r.Walk(p, i))
  {
  }

  lemma OneMore(r: Range, p: int, i: nat)
    ensures r.Ports(p, i + 1) == r.Ports(p, i) + [r.Walk(p, i)]
  {
  }

  lemma FirstFreeIs(r: Range, p: int, free: set<int>, d: nat)
    requires r.Valid() && d < r.Size() && r.Walk(p, d) in free
    requires forall k | 0 <= k < d :: r.Walk(p, k) !in free
    ensures r.FirstFree(p, free, 0) == Some(d)
  {
  }

  lemma {:induction false} WalkWalk(r: Range, p: int, i: nat, k: nat)
    ensures r.Walk(p, i + k) == r.Walk(r.Walk(p, i), k)
    decreases k
  {
    if k > 0 { WalkWalk(r, p, i, k - 1); }
  }

  /** Coming back to a port takes at least a full circle, in which every port is passed. */
  lemma Circle(r: Range, p: int, i: nat, j: nat, q: int)
    requires r.Valid() && r.Has(p) && i < j && r.Walk(p, i) == r.Walk(p, j) && r.Has(q)
    ensures exists c | i < c <= j :: r.Walk(p, c) == q
    ensures q != r.Walk(p, i) ==> exists c | i < c < j :: r.Walk(p, c) == q
  {
    var x := r.Walk(p, i);
    WalkInRange(r, p, i);
    WalkWalk(r, p, i, j - i);
    if j - i < r.Size() { WalkOnce(r, x, j - i); }
    assert j - i >= r.Size();
    var d := if q > x then q - x else q - x + r.Size();
    WalkOnce(r, x, d);
    WalkWalk(r, p, i, d);
    assert r.Walk(p, i + d) == q;
  }

  // One call

  /** A call fails exactly when nothing is free, or port 0 comes first; what it returns is free and every
      port it tried before is not. With min >= 1 it fails exactly when nothing in the range is free. */
  lemma CallOutcome(r: Range, current: int, free: set<int>)
    requires r.Valid() && r.Has(current)
    ensures var c := Call(r, current, free);
            && 1 <= c.tries <= r.Size()
            && r.Has(r.Walk(current, c.tries))
            && (c.port.Some? ==>
                  && r.Has(c.port.value) && c.port.value in free && c.port.value != 0
                  && c.port.value == r.Walk(current, c.tries - 1)
                  && forall k | 0 <= k < c.tries - 1 :: r.Walk(current, k) !in free)
            && (c.port.None? ==> c.tries == r.Size() && r.Walk(current, c.tries) == current)
            && (r.min >= 1 ==> (c.port.None? <==> forall q | r.Has(q) :: q !in free))
    ensures forall i, j | 0 <= i < j < Call(r, current, free).tries :: r.Walk(current, i) != r.Walk(current, j)
  {
    var c := Call(r, current, free);
    var first := r.FirstFree(current, free, 0);
    if first.Some? { WalkInRange(r, current, first.value); }
    WalkInRange(r, current, c.tries);
    WalkInRange(r, current, c.tries - 1);
    WalkOnce(r, current, r.Size());
    if c.port.None? && r.min >= 1 {
      forall q | r.Has(q)
        ensures q !in free
      {
        var d := if q >= current then q - current else q - current + r.Size();
        WalkOnce(r, current, d);
      }
    }
    forall i, j | 0 <= i < j < c.tries
      ensures r.Walk(current, i) != r.Walk(current, j)
    {
      WalkOnce(r, current, i);
      WalkOnce(r, current, j);
    }
  }

  /** The allocator misses a free port exactly when the first free one in cyclic order is port 0. */
  lemma PortZero(r: Range, current: int, free: set<int>)
    requires r.Valid() && r.Has(current)
    ensures var d := r.FirstFree(current, free, 0);
            d.Some? ==>
              (Call(r, current, free).port == Some(r.Walk(current, d.value)) <==> r.Walk(current, d.value) != 0)
  {
  }

  /** With ports 0 and 1 both free, a call that starts at 0 fails. */
  lemma PortZeroLost()
    ensures Call(Range(0, 1), 0, {0, 1}) == Outcome(None, 2)
  {
    FirstFreeIs(Range(0, 1), 0, {0, 1}, 0);
  }

  // Runs of calls, each in its own environment

  /** Where the allocator stands before call k, as a number of tries since the start. */
  function Position(r: Range, p: int, envs: seq<set<int>>, k: nat): nat
    requires r.Valid() && k <= |envs|
  {
    if k == 0 then 0
    else
      var before := Position(r, p, envs, k - 1);
      before + Call(r, r.Walk(p, before), envs[k - 1]).tries
  }

  function Result(r: Range, p: int, envs: seq<set<int>>, k: nat): Option<int>
    requires r.Valid() && k < |envs|
  {
    Call(r, r.Walk(p, Position(r, p, envs, k)), envs[k]).port
  }

  /** The tries of a run are one unbroken walk: call k makes tries number Position(k) up to
      Position(k + 1), and returns the port of the last. */
  lemma CallInRun(r: Range, p: int, envs: seq<set<int>>, k: nat)
    requires r.Valid() && r.Has(p) && k < |envs|
    ensures Position(r, p, envs, k) < Position(r, p, envs, k + 1)
    ensures Result(r, p, envs, k).Some? ==>
              Result(r, p, envs, k).value == r.Walk(p, Position(r, p, envs, k + 1) - 1)
  {
    var at := Position(r, p, envs, k);
    WalkInRange(r, p, at);
    CallOutcome(r, r.Walk(p, at), envs[k]);
    WalkWalk(r, p, at, Call(r, r.Walk(p, at), envs[k]).tries - 1);
  }

  /** Before the port it returns, a call tries no port that is free for it. */
  lemma NotFreeBefore(r: Range, p: int, envs: seq<set<int>>, k: nat, c: nat)
    requires r.Valid() && r.Has(p) && k < |envs| && Result(r, p, envs, k).Some?
    requires Position(r, p, envs, k) <= c < Position(r, p, envs, k + 1) - 1
    ensures r.Walk(p, c) !in envs[k]
  {
    var at := Position(r, p, envs, k);
    WalkInRange(r, p, at);
    CallOutcome(r, r.Walk(p, at), envs[k]);
    WalkWalk(r, p, at, c - at);
  }

  lemma {:induction false} PositionsGrow(r: Range, p: int, envs: seq<set<int>>, i: nat, j: nat)
    requires r.Valid() && r.Has(p) && i <= j <= |envs|
    ensures Position(r, p, envs, i) + (j - i) <= Position(r, p, envs, j)
    decreases j
  {
    if i < j {
      CallInRun(r, p, envs, j - 1);
      PositionsGrow(r, p, envs, i, j - 1);
    }
  }

  /** Some call makes each try. */
  lemma {:induction false} CallOfTry(r: Range, p: int, envs: seq<set<int>>, i: nat, j: nat, c: nat) returns (k: nat)
    requires r.Valid() && i < j <= |envs|
    requires Position(r, p, envs, i) <= c < Position(r, p, envs, j)
    ensures i <= k < j && Position(r, p, envs, k) <= c < Position(r, p, envs, k + 1)
    decreases j
  {
    if c >= Position(r, p, envs, j - 1) {
      k := j - 1;
    } else {
      k := CallOfTry(r, p, envs, i, j - 1, c);
    }
  }

  /** Round robin: if two calls return the same port, every other port of the range was tried in
      between, whatever was free when. */
  lemma RoundRobin(r: Range, p: int, envs: seq<set<int>>, i: nat, j: nat, q: int)
    requires r.Valid() && r.Has(p) && i < j < |envs| && r.Has(q)
    requires Result(r, p, envs, i).Some? && Result(r, p, envs, i) == Result(r, p, envs, j)
    ensures q != Result(r, p, envs, i).value ==>
              exists c | Position(r, p, envs, i + 1) <= c < Position(r, p, envs, j + 1) - 1 :: r.Walk(p, c) == q
  {
    CallInRun(r, p, envs, i);
    CallInRun(r, p, envs, j);
    PositionsGrow(r, p, envs, i + 1, j + 1);
    Circle(r, p, Position(r, p, envs, i + 1) - 1, Position(r, p, envs, j + 1) - 1, q);
  }

  /** While the same ports stay free, a port is not returned again before every free port of the range
      was returned. */
  lemma FixedEnvironment(r: Range, p: int, envs: seq<set<int>>, free: set<int>, i: nat, j: nat, q: int)
    requires r.Valid() && r.min >= 1 && r.Has(p) && i < j < |envs| && r.Has(q) && q in free
    requires forall k | 0 <= k < |envs| :: envs[k] == free
    requires Result(r, p, envs, i).Some? && Result(r, p, envs, i) == Result(r, p, envs, j)
    ensures exists k | i < k <= j :: Result(r, p, envs, k) == Some(q)
  {
    if q == Result(r, p, envs, i).value {
      assert Result(r, p, envs, j) == Some(q);
    } else {
      RoundRobin(r, p, envs, i, j, q);
      var c :| Position(r, p, envs, i + 1) <= c < Position(r, p, envs, j + 1) - 1 && r.Walk(p, c) == q;
      var k := CallOfTry(r, p, envs, i + 1, j + 1, c);
      Succeeds(r, p, envs, k, q);
      CallInRun(r, p, envs, k);
      if c < Position(r, p, envs, k + 1) - 1 {
        NotFreeBefore(r, p, envs, k, c);
      }
    }
  }

  lemma Succeeds(r: Range, p: int, envs: seq<set<int>>, k: nat, q: int)
    requires r.Valid() && r.min >= 1 && r.Has(p) && k < |envs| && r.Has(q) && q in envs[k]
    ensures Result(r, p, envs, k).Some?
  {
    WalkInRange(r, p, Position(r, p, envs, k));
    CallOutcome(r, r.Walk(p, Position(r, p, envs, k)), envs[k]);
  }
}
