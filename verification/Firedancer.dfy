/**
 The Firedancer sniffer (firedancer-sniffer.go): drains the ring, deduplicates against the shared cache
 and forwards towards OFR, keeping running totals. The producer of the ring, the other users of the cache
 and the reader of the channel are at work all the time.
 */
module FiredancerSniffers {
  import opened Wrappers
  import Shreds
  import Ring
  import AlterKeyCache
  import opened Forwarding

  /** A forwarded ring shred: it is number at of the pulled ones, with the parsed variant. */
  datatype Out = Out(at: nat, info: Ring.Info, variant: Shreds.Variant)

  function KeyOf(info: Ring.Info, v: Shreds.Variant): AlterKeyCache.Key {
    Shreds.Key(info.shred.slot, info.shred.idx, v.code)
  }

  /** Pulled shred number at is offered to cache and channel; an unknown variant changes neither. */
  function Forward(cache: AlterKeyCache.Generations, out: seq<Out>, full: bool, at: nat, info: Ring.Info)
    : (AlterKeyCache.Generations, seq<Out>)
  {
    match Shreds.ParseVariant(info.shred.variant)
    case Err(_) => (cache, out)
    case Ok(v) => Offer(cache, out, if full then |out| else |out| + 1, KeyOf(info, v), Out(at, info, v))
  }

  /** What one turn of the loop finds: the ring and its batches, the cache, and whether the channel has no
      room. */
  datatype View = View(ring: Ring.Slots, memory: Ring.Workspace, cache: AlterKeyCache.Generations, full: bool)

  /** The loop between two turns: the cursor, what was pulled, what was forwarded, whether it was left. */
  datatype Loop = Loop(cursor: Ring.Cursor, pulled: seq<Ring.Info>, out: seq<Out>, failed: bool)

  /** One turn, with the cache it leaves. */
  function Turn(l: Loop, v: View): (Loop, AlterKeyCache.Generations) {
    var (c, got) := Ring.GetNext(l.cursor, v.ring, v.memory);
    match got
    case GotShred(info) =>
      var (cache, out) := Forward(v.cache, l.out, v.full, |l.pulled|, info);
      (Loop(c, l.pulled + [info], out, false), cache)
    case NoShred => (l.(cursor := c), v.cache)
    case Failed => (l.(cursor := c, failed := true), v.cache)
  }

  /** One turn per view, ending early at an error; cache is what it is before the first. */
  function Turns(l: Loop, cache: AlterKeyCache.Generations, views: seq<View>): (Loop, AlterKeyCache.Generations) {
    if views == [] then (l, cache)
    else
      var (m, g) := Turns(l, cache, views[..|views| - 1]);
      if m.failed then (m, g) else Turn(m, views[|views| - 1])
  }

  class FiredancerSniffer {
    const cache: AlterKeyCache.AlterKey
    var totalShreds: nat
    var lastSecondCount: nat
    /** Everything put on the channel; its reader takes from it at will. */
    var ch: seq<Out>

    constructor (cache: AlterKeyCache.AlterKey)
      ensures this.cache == cache && totalShreds == lastSecondCount == 0 && ch == []
    {
      this.cache, totalShreds, lastSecondCount, ch := cache, 0, 0, [];
    }

    /** What is done with pulled shred number at; elapsed says that a second has passed, full that the channel
        has no room. */
    method Handle(info: Ring.Info, at: nat, elapsed: bool, full: bool)
      modifies this`totalShreds, this`lastSecondCount, this`ch, cache
      ensures (cache.Contents(), ch) == Forward(old(cache.Contents()), old(ch), full, at, info)
      ensures totalShreds + lastSecondCount == old(totalShreds + lastSecondCount) + 1
      ensures elapsed ==> lastSecondCount == 0
      ensures !elapsed ==> totalShreds == old(totalShreds)
    {
      lastSecondCount := lastSecondCount + 1;
      if elapsed {
        totalShreds := totalShreds + lastSecondCount;
        lastSecondCount := 0;
      }
      var variant := Shreds.ParseVariant(info.shred.variant);
      if variant.Err? {
        return;
      }
      var accepted := cache.Set(Shreds.Key(info.shred.slot, info.shred.idx, variant.value.code));
      if !accepted {
        return;
      }
      if !full {
        ch := ch + [Out(at, info, variant.value)];
      }
    }

    /** One turn of the polling loop, on ring, batches, cache and channel as in view; pulled is how many shreds
        were pulled before. */
    method OneTurn(m: Ring.Monitor, view: View, pulled: nat, elapsed: bool) returns (got: Ring.Got)
      requires m.mcache.Length == |view.ring| && view.memory.size == m.workspaceSize
      modifies this`totalShreds, this`lastSecondCount, this`ch, cache, m.mcache,
               m`batches, m`currentBatch, m`currentBatchSeq, m`currentShredIdx, m`lastSeq
      ensures (m.State(), got) == Ring.GetNext(old(m.State()), view.ring, view.memory)
      ensures (cache.Contents(), ch) ==
              if got.GotShred? then Forward(view.cache, old(ch), view.full, pulled, got.info)
              else (view.cache, old(ch))
      ensures totalShreds + lastSecondCount ==
              old(totalShreds + lastSecondCount) + if got.GotShred? then 1 else 0
    {
      m.Refresh(view.ring, view.memory.batches);
      cache.Refresh(view.cache);
      got := m.Next();
      if got.GotShred? {
        Handle(got.info, pulled, elapsed, view.full);
      }
    }

    /** The polling loop for |views| turns, or until the monitor fails or is stopped; views[i] is what the
        others have made of ring, batches, cache and channel by turn i. */
    method Recv(m: Ring.Monitor, views: seq<View>, elapsed: seq<bool>) returns (pulled: seq<Ring.Info>, failed: bool)
      requires m.mcache.Length > 0 && |elapsed| == |views|
      requires forall v | v in views :: |v.ring| == m.mcache.Length && v.memory.size == m.workspaceSize
      modifies this`totalShreds, this`lastSecondCount, this`ch, cache, m.mcache,
               m`batches, m`currentBatch, m`currentBatchSeq, m`currentShredIdx, m`lastSeq
      ensures (Loop(m.State(), pulled, ch, failed), cache.Contents()) ==
              Turns(Loop(old(m.State()), [], old(ch), false), old(cache.Contents()), if m.running then views else [])
      ensures totalShreds + lastSecondCount == old(totalShreds + lastSecondCount) + |pulled|
    {
      pulled, failed := [], false;
      var i := 0;
      ghost var start := Loop(m.State(), [], ch, false);
      while i < |views| && m.running && !failed
        invariant 0 <= i <= |views|
        invariant m.running == old(m.running) && (!m.running ==> i == 0)
        invariant (Loop(m.State(), pulled, ch, failed), cache.Contents()) ==
                  Turns(start, old(cache.Contents()), views[..i])
        invariant totalShreds + lastSecondCount == old(totalShreds + lastSecondCount) + |pulled|
      {
        assert views[..i + 1][..i] == views[..i] && views[i] in views;
        var got := OneTurn(m, views[i], |pulled|, elapsed[i]);
        match got {
          case GotShred(info) =>
            pulled := pulled + [info];
          case NoShred =>
          case Failed =>
            failed := true;
        }
        i := i + 1;
      }
      if failed { FailureEndsTurns(start, old(cache.Contents()), views, i); }
      assert views[..|views|] == views;
    }
  }

  lemma {:induction false} FailureEndsTurns(l: Loop, cache: AlterKeyCache.Generations, views: seq<View>, i: nat)
    requires i <= |views| && Turns(l, cache, views[..i]).0.failed
    ensures Turns(l, cache, views) == Turns(l, cache, views[..i])
    decreases |views|
  {
    if i < |views| {
      var init := views[..|views| - 1];
      assert init[..i] == views[..i];
      FailureEndsTurns(l, cache, init, i);
    } else {
      assert views[..i] == views;
    }
  }

  // The sniffer beside the producer, the other users of the cache and the reader of the channel

  /** Outside is whatever else happens to the cache: rotations, and the keys of the other forwarders. */
  datatype Event = Publish(p: Ring.Publication) | Poll(full: bool) | Outside(cache: AlterKeyCache.Generations)

  /** Producer and consumer, the shared cache, what was forwarded, and whether the loop was left. */
  datatype Sniffing = Sniffing(ring: Ring.System, cache: AlterKeyCache.Generations, out: seq<Out>, ended: bool) {
    function AsLoop(): Loop { Loop(ring.cursor, ring.log, out, ended) }

    function Sees(full: bool): View { View(ring.ring, ring.memory, cache, full) }
  }

  function Step(j: Sniffing, e: Event): Sniffing {
    match e
    case Publish(p) => j.(ring := Ring.Step(j.ring, Ring.Publish(p)))
    case Poll(full) =>
      if j.ended then j
      else
        var (l, cache) := Turn(j.AsLoop(), j.Sees(full));
        Sniffing(Ring.Step(j.ring, Ring.Poll), cache, l.out, l.failed)
    case Outside(cache) => j.(cache := cache)
  }

  function Run(j: Sniffing, es: seq<Event>): Sniffing {
    if es == [] then j else Step(Run(j, es[..|es| - 1]), es[|es| - 1])
  }

  /** What the polls of a run find. */
  function Views(j: Sniffing, es: seq<Event>): seq<View> {
    if es == [] then []
    else
      var init, e := es[..|es| - 1], es[|es| - 1];
      Views(j, init) + if e.Poll? then [Run(j, init).Sees(e.full)] else []
  }

  /** The part of a run that is about the ring. */
  function RingEvents(es: seq<Event>): seq<Ring.Event> {
    if es == [] then []
    else
      RingEvents(es[..|es| - 1]) +
      match es[|es| - 1]
      case Publish(p) => [Ring.Publish(p)]
      case Poll(_) => [Ring.Poll]
      case Outside(_) => []
  }

  /** The polling loop, given what its turns find, does what the sniffer does in the run. */
  lemma {:induction false} LoopIsRun(j: Sniffing, es: seq<Event>)
    ensures Run(j, es).AsLoop() == Turns(j.AsLoop(), j.cache, Views(j, es)).0
  {
    if es != [] {
      var init, e := es[..|es| - 1], es[|es| - 1];
      LoopIsRun(j, init);
      LoopStep(Run(j, init), e);
      if e.Poll? {
        var v := Run(j, init).Sees(e.full);
        assert (Views(j, init) + [v])[..|Views(j, init)|] == Views(j, init);
      } else {
        assert Views(j, init) + [] == Views(j, init);
      }
    }
  }

  lemma LoopStep(j: Sniffing, e: Event)
    ensures Step(j, e).AsLoop() == if e.Poll? && !j.ended then Turn(j.AsLoop(), j.Sees(e.full)).0 else j.AsLoop()
  {
  }

  /** Left for good: the monitor was stopped, or no later poll can get anything. */
  predicate Final(s: Ring.System) { !s.cursor.running || Ring.Stuck(s) }

  lemma FinalStep(s: Ring.System, e: Ring.Event)
    requires Ring.Inv(s) && Ring.Allowed(s, e) && Final(s)
    ensures Final(Ring.Step(s, e)) && (e.Poll? ==> Ring.Step(s, e) == s)
  {
    match e {
      case Publish(p) => if Ring.Stuck(s) { Ring.StuckPublish(s, p); }
      case Poll => if Ring.Stuck(s) { Ring.IdlePoll(s); }
    }
  }

  lemma FinalAfterFailure(s: Ring.System)
    requires Ring.Inv(s) && Ring.GetNext(s.cursor, s.ring, s.memory).1.Failed?
    ensures Final(Ring.Step(s, Ring.Poll))
  {
    if s.cursor.running {
      Ring.StuckAfterFailure(s);
      FinalStep(s, Ring.Poll);
    }
  }

  /** Leaving the loop at an error loses nothing: ring, cursor and log go on as if the sniffer had stayed. */
  lemma {:induction false} LeavingLosesNothing(j: Sniffing, es: seq<Event>)
    requires Ring.Inv(j.ring) && Ring.AllowedRun(j.ring, RingEvents(es)) && !j.ended
    ensures Run(j, es).ring == Ring.Run(j.ring, RingEvents(es))
    ensures Run(j, es).ended ==> Final(Run(j, es).ring)
  {
    if es != [] {
      var init, e := es[..|es| - 1], es[|es| - 1];
      if e.Outside? {
        assert RingEvents(es) == RingEvents(init) + [] == RingEvents(init);
        LeavingLosesNothing(j, init);
      } else {
        var r := if e.Publish? then Ring.Publish(e.p) else Ring.Poll;
        Ring.RunSnoc(j.ring, RingEvents(init), r);
        LeavingLosesNothing(j, init);
        Ring.RunKeepsInv(j.ring, RingEvents(init));
        OneMore(Run(j, init), e, r);
      }
    }
  }

  lemma OneMore(j: Sniffing, e: Event, r: Ring.Event)
    requires !e.Outside? && r == (if e.Publish? then Ring.Publish(e.p) else Ring.Poll)
    requires Ring.Inv(j.ring) && Ring.Allowed(j.ring, r) && (j.ended ==> Final(j.ring))
    ensures Step(j, e).ring == Ring.Step(j.ring, r)
    ensures Step(j, e).ended ==> Final(Step(j, e).ring)
  {
    if j.ended {
      FinalStep(j.ring, r);
    } else if e.Poll? && Step(j, e).ended {
      FinalAfterFailure(j.ring);
    }
  }

  // What is forwarded

  /** The event pulls a shred from the ring. */
  predicate Pulls(j: Sniffing, e: Event) {
    e.Poll? && !j.ended && Ring.GetNext(j.ring.cursor, j.ring.ring, j.ring.memory).1.GotShred?
  }

  function Next(j: Sniffing, e: Event): Ring.Info
    requires Pulls(j, e)
  {
    Ring.GetNext(j.ring.cursor, j.ring.ring, j.ring.memory).1.info
  }

  /** It pulls one with a known variant whose key is not in the cache, and the channel has room. */
  predicate Admits(j: Sniffing, e: Event) {
    && Pulls(j, e) && !e.full
    && var v := Shreds.ParseVariant(Next(j, e).shred.variant);
       v.Ok? && !j.cache.Has(KeyOf(Next(j, e), v.value))
  }

  /** An in-order selection of the pulled shreds, with parsed variants. */
  ghost predicate Selection(out: seq<Out>, pulled: seq<Ring.Info>) {
    && (forall k | 0 <= k < |out| ::
          && out[k].at < |pulled| && out[k].info == pulled[out[k].at]
          && Shreds.ParseVariant(out[k].info.shred.variant) == Ok(out[k].variant))
    && (forall k | 0 < k < |out| :: out[k - 1].at < out[k].at)
  }

  predicate SentAt(out: seq<Out>, k: nat) { exists i | 0 <= i < |out| :: out[i].at == k }

  lemma StepLog(j: Sniffing, e: Event)
    ensures Step(j, e).ring.log == if Pulls(j, e) then j.ring.log + [Next(j, e)] else j.ring.log
  {
  }

  lemma StepOut(j: Sniffing, e: Event)
    ensures Step(j, e).out ==
            if !Admits(j, e) then j.out
            else j.out + [Out(|j.ring.log|, Next(j, e), Shreds.ParseVariant(Next(j, e).shred.variant).value)]
  {
  }

  /** Of the events, the others' use of the cache aside, only a pulled shred of a known variant changes the cache: its
      key is claimed. */
  lemma StepCache(j: Sniffing, e: Event)
    ensures !e.Outside? ==>
              Step(j, e).cache ==
              if Pulls(j, e) && Shreds.ParseVariant(Next(j, e).shred.variant).Ok?
              then AlterKeyCache.Insert(j.cache, KeyOf(Next(j, e), Shreds.ParseVariant(Next(j, e).shred.variant).value))
              else j.cache
  {
  }

  lemma SelectionStep(j: Sniffing, e: Event)
    requires Selection(j.out, j.ring.log)
    ensures Selection(Step(j, e).out, Step(j, e).ring.log)
  {
    StepLog(j, e);
    StepOut(j, e);
  }

  lemma {:induction false} SelectionRun(j: Sniffing, es: seq<Event>)
    requires j.out == []
    ensures Selection(Run(j, es).out, Run(j, es).ring.log)
  {
    if es != [] {
      SelectionRun(j, es[..|es| - 1]);
      SelectionStep(Run(j, es[..|es| - 1]), es[|es| - 1]);
    }
  }

  lemma PulledInOrder(j: Sniffing, es: seq<Event>)
    requires Ring.Attached(j.ring) && Ring.AllowedRun(j.ring, RingEvents(es)) && !j.ended
    ensures Ring.InOrder(Run(j, es).ring, Run(j, es).ring.log)
  {
    LeavingLosesNothing(j, es);
    Ring.RingDelivery(j.ring, RingEvents(es));
  }

  /** In every interleaving with the producer, the other users of the cache and the reader of the channel, what
      an attached sniffer pulls is in order, without gap or repeat, and carries what was published; and
      what it forwards is an in-order selection of that. */
  lemma SniffedInOrder(j: Sniffing, es: seq<Event>)
    requires Ring.Attached(j.ring) && Ring.AllowedRun(j.ring, RingEvents(es)) && !j.ended && j.out == []
    ensures var t := Run(j, es);
            var pulled := Turns(j.AsLoop(), j.cache, Views(j, es)).0.pulled;
            Ring.InOrder(t.ring, pulled) && t.ring.log == pulled && Selection(t.out, pulled)
  {
    LoopIsRun(j, es);
    PulledInOrder(j, es);
    SelectionRun(j, es);
  }

  /** The event that pulled shred number k. */
  function PullOf(j: Sniffing, es: seq<Event>, k: nat): nat {
    if es == [] then 0
    else if k < |Run(j, es[..|es| - 1]).ring.log| then PullOf(j, es[..|es| - 1], k)
    else |es| - 1
  }

  lemma SentByStep(j: Sniffing, e: Event, k: nat)
    ensures SentAt(Step(j, e).out, k) <==> SentAt(j.out, k) || (k == |j.ring.log| && Admits(j, e))
  {
    StepOut(j, e);
    if Admits(j, e) {
      var t := Step(j, e);
      assert t.out[|j.out|].at == |j.ring.log|;
      assert forall i | 0 <= i < |j.out| :: t.out[i] == j.out[i];
    }
  }

  /** Shred number k was pulled by event n of the run, and is forwarded exactly if that event admits it. */
  ghost predicate Decided(j: Sniffing, es: seq<Event>, k: nat, n: nat) {
    && n < |es|
    && var t := Run(j, es[..n]);
       && Pulls(t, es[n]) && |t.ring.log| == k
       && k < |Run(j, es).ring.log| && Next(t, es[n]) == Run(j, es).ring.log[k]
       && (SentAt(Run(j, es).out, k) <==> Admits(t, es[n]))
  }

  /** Over every run, each pulled shred is forwarded exactly when, at the event that pulled it, its variant is
      known, its key is not in the cache, whoever put it there, and the channel has room. */
  lemma {:induction false} ForwardedExactly(j: Sniffing, es: seq<Event>, k: nat)
    requires j.out == [] && |j.ring.log| <= k < |Run(j, es).ring.log|
    ensures Decided(j, es, k, PullOf(j, es, k))
  {
    var init, e := es[..|es| - 1], es[|es| - 1];
    var t := Run(j, init);
    StepLog(t, e);
    SentByStep(t, e, k);
    if k < |t.ring.log| {
      ForwardedExactly(j, init, k);
      var n := PullOf(j, init, k);
      assert init[..n] == es[..n];
    } else {
      SelectionRun(j, init);
      assert es[..|es| - 1] == init;
    }
  }
}
