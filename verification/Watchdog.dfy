/**
 Registration and the no-traffic watchdog (gateway.go), one atomic operation at a time: the
 re-registering loop and the packet receiver interleave freely over the OFR address and the
 no-traffic counter.
 */
module Watchdog {
  import opened Wrappers
  import opened Bits
  import opened Modular

  const TWO31: int := 0x8000_0000

  /** Conversion to int32, and int32 addition. */
  function Int32(x: int): int {
    var m := x % TWO32;
    if m < TWO31 then m else m - TWO32
  }

  /** Go's remainder, which takes the sign of the dividend. */
  function Rem(a: int, b: int): int
    requires b != 0
  {
    var d := if b < 0 then -b else b;
    if a >= 0 then a % d else -((-a) % d)
  }

  datatype Addr = Addr(ip: U32, port: U16)

  datatype RegError = InvalidConfig | Unauthorized | OtherError {
    predicate Fatal() { InvalidConfig? || Unauthorized? }
  }

  /** What the registration endpoint answers. */
  datatype Reply = Granted(addr: Addr) | Refused(error: RegError)

  datatype Reason = NoTraffic | DivisionByZero | FatalReply(error: RegError)

  /** Where the re-registering loop is: waiting for the ticker, address cleared and endpoint called,
      about to store the address, about to count, about to check the count. */
  datatype LoopPc = Waiting | Calling | Storing(addr: Addr) | Adding | Checking | Panicked(reason: Reason)

  /** Where the receiver is: reading, past the zero check, past the source comparison. */
  datatype RecvPc = Reading | Comparing(ip: U32) | Accepting(ip: U32)

  /** What has happened, oldest first. */
  datatype Act = Begun | Succeeded(addr: Addr) | Counted | Matched(ip: U32) | Accepted(ip: U32)

  datatype State = State(addr: Option<Addr>, counter: int, loop: LoopPc, recv: RecvPc, log: seq<Act>)

  datatype Event =
    | Tick | Answer(reply: Reply) | Store | Add | Check
    | Packet(ip: U32) | Compare | Accept

  function Step(limit: nat, s: State, e: Event): State {
    if s.loop.Panicked? then s
    else
      match e
      case Tick =>
        if s.loop.Waiting? then s.(addr := None, loop := Calling, log := s.log + [Begun]) else s
      case Answer(reply) =>
        if !s.loop.Calling? then s
        else if reply.Granted? then s.(loop := Storing(reply.addr))
        else if reply.error.Fatal() then s.(loop := Panicked(FatalReply(reply.error)))
        else s.(loop := Waiting)
      case Store =>
        if s.loop.Storing?
        then s.(addr := Some(s.loop.addr), loop := Adding, log := s.log + [Succeeded(s.loop.addr)])
        else s
      case Add =>
        if s.loop.Adding? then s.(counter := Int32(s.counter + 1), loop := Checking, log := s.log + [Counted])
        else s
      case Check =>
        if !s.loop.Checking? then s
        else if Int32(limit) == 0 then s.(loop := Panicked(DivisionByZero))
        else if Rem(s.counter, Int32(limit)) == 0 then s.(loop := Panicked(NoTraffic))
        else s.(loop := Waiting)
      case Packet(ip) =>
        if s.recv.Reading? && s.addr.Some? then s.(recv := Comparing(ip)) else s
      case Compare =>
        if !s.recv.Comparing? then s
        else if s.addr.Some? && s.addr.value.ip == s.recv.ip
        then s.(recv := Accepting(s.recv.ip), log := s.log + [Matched(s.recv.ip)])
        else s.(recv := Reading)
      case Accept =>
        if s.recv.Accepting? then s.(counter := 0, recv := Reading, log := s.log + [Accepted(s.recv.ip)]) else s
  }

  function Run(limit: nat, s: State, es: seq<Event>): State
    decreases |es|
  {
    if es == [] then s else Run(limit, Step(limit, s, es[0]), es[1..])
  }

  /** Right after Start: registered once, both goroutines about to begin. */
  function Initial(addr: Addr): State {
    State(Some(addr), 0, Waiting, Reading, [Begun, Succeeded(addr)])
  }

  // What each step does to the goroutine that takes it, and to what both share

  /** A registration clears the address first. An answer without an error is stored and counted; an invalid
      configuration and a missing authorization end the program, every other error is waited out. */
  lemma LoopSteps(limit: nat, s: State, reply: Reply, a: Addr)
    ensures s.loop == Waiting ==>
              var t := Step(limit, s, Tick); t.loop == Calling && t.addr == None && t.counter == s.counter
    ensures s.loop == Calling ==>
              var t := Step(limit, s, Answer(reply));
              && t.addr == s.addr && t.counter == s.counter
              && t.loop == match reply
                           case Granted(b) => Storing(b)
                           case Refused(OtherError) => Waiting
                           case Refused(InvalidConfig) => Panicked(FatalReply(InvalidConfig))
                           case Refused(Unauthorized) => Panicked(FatalReply(Unauthorized))
    ensures s.loop == Storing(a) ==>
              var t := Step(limit, s, Store); t.loop == Adding && t.addr == Some(a) && t.counter == s.counter
    ensures s.loop == Adding && -0x8000_0000 <= s.counter < 0x8000_0000 ==>
              var t := Step(limit, s, Add);
              && t.loop == Checking && t.addr == s.addr
              && t.counter == if s.counter == 0x7FFF_FFFF then -0x8000_0000 else s.counter + 1
    ensures s.loop == Checking ==>
              var t := Step(limit, s, Check);
              (t.loop == Waiting || t.loop.Panicked?) && t.addr == s.addr && t.counter == s.counter
  {
  }

  /** A packet is looked at when there is an address, accepted when it comes from the IP registered at its
      comparison, and then resets the counter. */
  lemma ReceiverSteps(limit: nat, s: State, ip: U32)
    requires !s.loop.Panicked?
    ensures s.recv == Reading ==>
              Step(limit, s, Packet(ip)) == if s.addr.Some? then s.(recv := Comparing(ip)) else s
    ensures s.recv == Comparing(ip) ==>
              var t := Step(limit, s, Compare);
              && t.addr == s.addr && t.counter == s.counter && t.loop == s.loop
              && t.recv == if s.addr.Some? && s.addr.value.ip == ip then Accepting(ip) else Reading
    ensures s.recv == Accepting(ip) ==>
              var t := Step(limit, s, Accept);
              t.recv == Reading && t.addr == s.addr && t.counter == 0 && t.loop == s.loop
  {
  }

  // Readings of the log

  /** The address of the latest successful registration, if none was begun since. */
  function Registered(log: seq<Act>): Option<Addr> {
    if log == [] then None
    else
      match log[|log| - 1]
      case Begun => None
      case Succeeded(a) => Some(a)
      case _ => Registered(log[..|log| - 1])
  }

  /** Successful re-registrations counted since the last accepted packet. */
  function SinceAccepted(log: seq<Act>): nat {
    if log == [] then 0
    else
      match log[|log| - 1]
      case Accepted(_) => 0
      case Counted => SinceAccepted(log[..|log| - 1]) + 1
      case _ => SinceAccepted(log[..|log| - 1])
  }

  /** A packet was accepted after the last count. */
  predicate AcceptedSinceCount(log: seq<Act>) {
    log != [] &&
    match log[|log| - 1]
    case Accepted(_) => true
    case Counted => false
    case _ => AcceptedSinceCount(log[..|log| - 1])
  }

  /** A packet has matched the registered address and was not accepted yet. */
  function Pending(log: seq<Act>): Option<U32> {
    if log == [] then None
    else
      match log[|log| - 1]
      case Accepted(_) => None
      case Matched(ip) => Some(ip)
      case _ => Pending(log[..|log| - 1])
  }

  /** Only packets that come from the registered address are matched, and only matched packets are
      accepted, once each. */
  ghost predicate Guarded(log: seq<Act>) {
    && (forall i | 0 <= i < |log| && log[i].Matched? ::
          Registered(log[..i]).Some? && Registered(log[..i]).value.ip == log[i].ip)
    && (forall i | 0 <= i < |log| && log[i].Accepted? :: Pending(log[..i]) == Some(log[i].ip))
  }

  /** The number of consecutive counts at which the check fires. */
  function Threshold(limit: nat): nat {
    var w := Int32(limit);
    if w < 0 then -w else w
  }

  ghost predicate Inv(limit: nat, s: State) {
    && s.addr == Registered(s.log)
    && s.counter == Int32(SinceAccepted(s.log))
    && (s.recv.Accepting? ==> Pending(s.log) == Some(s.recv.ip))
    && (!s.recv.Accepting? ==> Pending(s.log) == None)
    && Guarded(s.log)
    && (s.loop.Calling? || s.loop.Storing? ==> s.addr.None?)
    && (s.loop.Checking? && !AcceptedSinceCount(s.log) ==> SinceAccepted(s.log) > 0)
    && (AcceptedSinceCount(s.log) ==> SinceAccepted(s.log) == 0)
    && (s.loop.Checking? ==> SinceAccepted(s.log) <= Threshold(limit) || Threshold(limit) == 0)
    && (!s.loop.Checking? && !s.loop.Panicked? && Threshold(limit) > 0 ==> SinceAccepted(s.log) < Threshold(limit))
  }

  lemma CheckFires(limit: nat, n: nat)
    requires 0 < Threshold(limit) && n <= Threshold(limit)
    ensures Rem(Int32(n), Int32(limit)) == 0 <==> n == 0 || n == Threshold(limit)
  {
    Int32OfSmall(n);
    MultipleWithin(n, Threshold(limit));
  }

  lemma Int32OfSmall(n: nat)
    requires n <= TWO31
    ensures Int32(n) == if n == TWO31 then -TWO31 else n
  {
  }

  lemma Snoc(log: seq<Act>, a: Act)
    ensures (log + [a])[..|log|] == log
    ensures Guarded(log) &&
            (a.Matched? ==> Registered(log).Some? && Registered(log).value.ip == a.ip) &&
            (a.Accepted? ==> Pending(log) == Some(a.ip))
            ==> Guarded(log + [a])
  {
    var r := log + [a];
    assert forall i | 0 <= i <= |log| :: r[..i] == log[..i];
    assert log[..|log|] == log;
  }

  predicate FromLoop(e: Event) { e.Tick? || e.Answer? || e.Store? || e.Add? || e.Check? }

  lemma LoopKeepsInv(limit: nat, s: State, e: Event)
    requires Inv(limit, s) && FromLoop(e)
    ensures Inv(limit, Step(limit, s, e))
  {
    var t := Step(limit, s, e);
    if |t.log| > |s.log| {
      Snoc(s.log, t.log[|s.log|]);
    }
    if s.loop.Checking? && e.Check? && Threshold(limit) > 0 {
      CheckFires(limit, SinceAccepted(s.log));
    }
  }

  lemma MatchKeepsInv(limit: nat, s: State)
    requires Inv(limit, s)
    ensures Inv(limit, Step(limit, s, Compare))
  {
    if s.recv.Comparing? { Snoc(s.log, Matched(s.recv.ip)); }
  }

  lemma AcceptKeepsInv(limit: nat, s: State)
    requires Inv(limit, s)
    ensures Inv(limit, Step(limit, s, Accept))
  {
    if s.recv.Accepting? { Snoc(s.log, Accepted(s.recv.ip)); }
  }

  lemma ReceiverKeepsInv(limit: nat, s: State, e: Event)
    requires Inv(limit, s) && !FromLoop(e)
    ensures Inv(limit, Step(limit, s, e))
  {
    match e {
      case Compare => MatchKeepsInv(limit, s);
      case Accept => AcceptKeepsInv(limit, s);
      case Packet(_) =>
    }
  }

  lemma StepKeepsInv(limit: nat, s: State, e: Event)
    requires Inv(limit, s)
    ensures Inv(limit, Step(limit, s, e))
  {
    if FromLoop(e) { LoopKeepsInv(limit, s, e); } else { ReceiverKeepsInv(limit, s, e); }
  }

  lemma {:induction false} RunKeepsInv(limit: nat, s: State, es: seq<Event>)
    requires Inv(limit, s)
    ensures Inv(limit, Run(limit, s, es))
    decreases |es|
  {
    if es != [] {
      StepKeepsInv(limit, s, es[0]);
      RunKeepsInv(limit, Step(limit, s, es[0]), es[1..]);
    }
  }

  lemma InitialInv(limit: nat, addr: Addr)
    ensures Inv(limit, Initial(addr))
  {
    var log := [Begun, Succeeded(addr)];
    assert log[..1] == [Begun];
    assert Registered([Begun]) == None && SinceAccepted([Begun]) == 0 && Pending([Begun]) == None;
    assert [Begun][..0] == [];
    assert !AcceptedSinceCount([Begun]);
  }

  /** In every interleaving: a non-zero OFR address is the one of the latest successful registration and
      none was begun since; only packets from the address registered at their comparison are
      accepted; and the counter is the number of re-registrations since the last accepted packet. */
  lemma AddressSafety(limit: nat, addr: Addr, es: seq<Event>)
    ensures var s := Run(limit, Initial(addr), es);
            && s.addr == Registered(s.log)
            && Guarded(s.log)
            && s.counter == Int32(SinceAccepted(s.log))
  {
    InitialInv(limit, addr);
    RunKeepsInv(limit, Initial(addr), es);
  }

  /** When the check fires, in every interleaving: at the threshold, or because a packet was accepted
      between the count and the check. Otherwise the count stays below the threshold. */
  lemma PanicCauses(limit: nat, addr: Addr, es: seq<Event>)
    requires Run(limit, Initial(addr), es).loop.Checking?
    ensures var s := Run(limit, Initial(addr), es);
            var t := Step(limit, s, Check);
            && (t.loop == Panicked(DivisionByZero) <==> limit % TWO32 == 0)
            && (t.loop == Panicked(NoTraffic) <==>
                  && limit % TWO32 != 0
                  && (AcceptedSinceCount(s.log) || SinceAccepted(s.log) == Threshold(limit)))
            && (t.loop == Waiting ==> 0 < SinceAccepted(t.log) < Threshold(limit))
  {
    var s := Run(limit, Initial(addr), es);
    InitialInv(limit, addr);
    RunKeepsInv(limit, Initial(addr), es);
    if Threshold(limit) > 0 {
      CheckFires(limit, SinceAccepted(s.log));
    }
  }

  /** With one packet between the count and the check, the gateway panics for lack of traffic after a
      single re-registration, whatever the limit. */
  lemma SpuriousPanic(limit: nat, addr: Addr)
    requires limit % TWO32 != 0
    ensures var es := [Tick, Answer(Granted(addr)), Store, Packet(addr.ip), Compare, Add, Accept, Check];
            var s := Run(limit, Initial(addr), es);
            s.loop == Panicked(NoTraffic) && SinceAccepted(s.log) == 0 && AcceptedSinceCount(s.log)
  {
    var s0 := Initial(addr);
    var s1 := Step(limit, s0, Tick);
    var s2 := Step(limit, s1, Answer(Granted(addr)));
    var s3 := Step(limit, s2, Store);
    var s4 := Step(limit, s3, Packet(addr.ip));
    var s5 := Step(limit, s4, Compare);
    var s6 := Step(limit, s5, Add);
    var s7 := Step(limit, s6, Accept);
    var s8 := Step(limit, s7, Check);
    assert s7.counter == 0 && Rem(0, Int32(limit)) == 0;
    RunUnfolds(limit, s0, Tick, [Answer(Granted(addr)), Store, Packet(addr.ip), Compare, Add, Accept, Check]);
    RunUnfolds(limit, s1, Answer(Granted(addr)), [Store, Packet(addr.ip), Compare, Add, Accept, Check]);
    RunUnfolds(limit, s2, Store, [Packet(addr.ip), Compare, Add, Accept, Check]);
    RunUnfolds(limit, s3, Packet(addr.ip), [Compare, Add, Accept, Check]);
    RunUnfolds(limit, s4, Compare, [Add, Accept, Check]);
    RunUnfolds(limit, s5, Add, [Accept, Check]);
    RunUnfolds(limit, s6, Accept, [Check]);
    RunUnfolds(limit, s7, Check, []);
  }

  lemma RunUnfolds(limit: nat, s: State, e: Event, es: seq<Event>)
    ensures Run(limit, s, [e] + es) == Run(limit, Step(limit, s, e), es)
  {
    assert ([e] + es)[1..] == es;
  }

  // Counting and checking in one step

  /** Every count is checked before anything else happens. */
  predicate CheckedAtOnce(es: seq<Event>) {
    forall i | 0 <= i < |es| && es[i].Add? :: i + 1 < |es| && es[i + 1].Check?
  }

  /** Between count-and-check pairs. */
  ghost predicate Exact(limit: nat, s: State) {
    && Inv(limit, s) && !s.loop.Checking? && s.loop != Panicked(DivisionByZero)
    && SinceAccepted(s.log) <= Threshold(limit)
    && (s.loop == Panicked(NoTraffic) <==> SinceAccepted(s.log) == Threshold(limit))
  }

  lemma CountAndCheck(limit: nat, s: State)
    requires limit % TWO32 != 0 && Exact(limit, s)
    ensures Exact(limit, Step(limit, Step(limit, s, Add), Check))
  {
    var t := Step(limit, s, Add);
    StepKeepsInv(limit, s, Add);
    StepKeepsInv(limit, t, Check);
    if s.loop.Adding? {
      Snoc(s.log, Counted);
      CheckFires(limit, SinceAccepted(t.log));
    }
  }

  lemma OtherStep(limit: nat, s: State, e: Event)
    requires limit % TWO32 != 0 && Exact(limit, s) && !e.Add?
    ensures Exact(limit, Step(limit, s, e))
  {
    var t := Step(limit, s, e);
    StepKeepsInv(limit, s, e);
    if |t.log| > |s.log| { Snoc(s.log, t.log[|s.log|]); }
  }

  /** Then the loop panics for lack of traffic exactly when the threshold is reached, and a live
      gateway is always below it. */
  lemma {:induction false} AtomicWatchdogFrom(limit: nat, s: State, es: seq<Event>)
    requires limit % TWO32 != 0 && Exact(limit, s) && CheckedAtOnce(es)
    ensures Exact(limit, Run(limit, s, es))
    decreases |es|
  {
    if es != [] {
      if es[0].Add? {
        assert es[1].Check?;
        CountAndCheck(limit, s);
        assert es[1..][1..] == es[2..];
        AtomicWatchdogFrom(limit, Step(limit, Step(limit, s, Add), Check), es[2..]);
      } else {
        OtherStep(limit, s, es[0]);
        AtomicWatchdogFrom(limit, Step(limit, s, es[0]), es[1..]);
      }
    }
  }

  lemma AtomicWatchdog(limit: nat, addr: Addr, es: seq<Event>)
    requires limit % TWO32 != 0 && CheckedAtOnce(es)
    ensures var t := Run(limit, Initial(addr), es);
            && (t.loop == Panicked(NoTraffic) <==> SinceAccepted(t.log) == Threshold(limit))
            && SinceAccepted(t.log) <= Threshold(limit)
  {
    InitialInv(limit, addr);
    AtomicWatchdogFrom(limit, Initial(addr), es);
  }

  /** The threshold is the configured limit exactly when that lies in 1..2^31. */
  lemma ThresholdIsLimit(limit: nat)
    ensures limit % TWO32 != 0 && Threshold(limit) == limit <==> 1 <= limit <= TWO31
  {
  }
}
