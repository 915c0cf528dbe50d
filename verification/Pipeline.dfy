/**
 Three forwarders sharing one deduplication cache: shreds from OFR go to the node, shreds from Turbine
 and from the Firedancer ring go to OFR (processShred, NetworkListener.Recv, FiredancerSniffer.Recv).
 Each forwarder parses, claims the key under the cache's mutex, and then sends; these steps and the
 cache's rotations interleave freely.
 */
module Pipeline {
  import opened Wrappers
  import opened Bits
  import opened Shreds
  import opened AlterKeyCache
  import opened Forwarding
  import FiredancerSniffers
  import Ring

  datatype Source = OFR | Turbine | Firedancer

  /** What identifies a shred. */
  datatype Id = Id(slot: U64, index: U32, code: U8) {
    function Key(): AlterKeyCache.Key { Shreds.Key(slot, index, code) }
  }

  /** What a forwarder receives: UDP payloads, or fields read from the shared-memory ring. */
  datatype Input = Datagram(payload: Payload, length: int) | RingShred(slot: U64, index: U32, variant: U8) {
    function Parsed(): Option<Id> {
      match this
      case Datagram(p, n) =>
        (match ParsePartial(p, n)
         case Ok(s) => Some(Id(s.slot, s.index, s.variant.code))
         case Err(_) => None)
      case RingShred(slot, index, variant) =>
        match ParseVariant(variant)
        case Ok(v) => Some(Id(slot, index, v.code))
        case Err(_) => None
    }
  }

  /** A forwarder is idle, holds a parsed shred, or has won the claim recorded at this index. */
  datatype Pc = Idle | Holding(id: Id) | Won(at: nat)

  datatype Accept = Accept(src: Source, id: Id, key: AlterKeyCache.Key, epoch: nat)

  /** at is the index of the accept that let it through; epoch is the rotation it was sent in, and seen the
      number of accepts there had been by then. */
  datatype Sent = Sent(src: Source, at: nat, epoch: nat, seen: nat)

  datatype State = State(
    cache: Generations,
    epoch: nat,
    ofr: Pc,
    turbine: Pc,
    firedancer: Pc,
    accepts: seq<Accept>,
    sent: seq<Sent>)
  {
    function Pc(src: Source): Pc {
      match src case OFR => ofr case Turbine => turbine case Firedancer => firedancer
    }

    function With(src: Source, pc: Pc): State {
      match src
      case OFR => this.(ofr := pc)
      case Turbine => this.(turbine := pc)
      case Firedancer => this.(firedancer := pc)
    }
  }

  datatype Event =
    | Receive(src: Source, input: Input)
    | Claim(src: Source)
    | Send(src: Source, full: bool)
    | Rotation

  const INITIAL := State(EMPTY, 0, Idle, Idle, Idle, [], [])

  function Step(s: State, e: Event): State {
    match e
    case Receive(src, input) =>
      var id := input.Parsed();
      if s.Pc(src).Idle? && (src.Firedancer? <==> input.RingShred?) && id.Some?
      then s.With(src, Holding(id.value))
      else s
    case Claim(src) =>
      if !s.Pc(src).Holding? then s
      else
        var id := s.Pc(src).id;
        if s.cache.Has(id.Key()) then s.With(src, Idle)
        else s.With(src, Won(|s.accepts|)).(cache := Insert(s.cache, id.Key()),
                                            accepts := s.accepts + [Accept(src, id, id.Key(), s.epoch)])
    case Send(src, full) =>
      if !s.Pc(src).Won? then s
      else
        var sent := Sent(src, s.Pc(src).at, s.epoch, |s.accepts|);
        s.With(src, Idle).(sent := if full then s.sent else s.sent + [sent])
    case Rotation => s.(cache := Rotate(s.cache), epoch := s.epoch + 1)
  }

  function Run(s: State, es: seq<Event>): State
    decreases |es|
  {
    if es == [] then s else Run(Step(s, es[0]), es[1..])
  }

  // What every run keeps

  /** Per key, the rotation of its latest accept. */
  function LastAccepts(accepts: seq<Accept>): map<AlterKeyCache.Key, nat> {
    if accepts == [] then map[]
    else
      var a := accepts[|accepts| - 1];
      LastAccepts(accepts[..|accepts| - 1])[a.key := a.epoch]
  }

  /** Accepts of one key are at least two rotations apart, and time does not run backwards. */
  ghost predicate Spaced(accepts: seq<Accept>, epoch: nat) {
    && (forall i | 0 <= i < |accepts| :: accepts[i].epoch <= epoch)
    && (forall i, j | 0 <= i < j < |accepts| && accepts[i].key == accepts[j].key ::
          accepts[i].epoch + 2 <= accepts[j].epoch)
  }

  /** Every send uses an accept of its own forwarder, later than the accepts of its earlier sends. */
  ghost predicate Accounted(s: State) {
    && (forall i | 0 <= i < |s.sent| ::
          && s.sent[i].at < |s.accepts|
          && s.accepts[s.sent[i].at].src == s.sent[i].src
          && s.accepts[s.sent[i].at].epoch <= s.sent[i].epoch)
    && (forall i, j | 0 <= i < j < |s.sent| && s.sent[i].src == s.sent[j].src :: s.sent[i].at < s.sent[j].at)
    && (forall src | s.Pc(src).Won? ::
          && s.Pc(src).at < |s.accepts|
          && s.accepts[s.Pc(src).at].src == src
          && forall i | 0 <= i < |s.sent| && s.sent[i].src == src :: s.sent[i].at < s.Pc(src).at)
  }

  /** A send comes after its own accept, and in no earlier rotation than any accept before it. */
  ghost predicate Timed(s: State) {
    && (forall i | 0 <= i < |s.sent| :: s.sent[i].at < s.sent[i].seen <= |s.accepts|)
    && (forall i, k | 0 <= i < |s.sent| && 0 <= k < s.sent[i].seen :: s.accepts[k].epoch <= s.sent[i].epoch)
  }

  ghost predicate Keyed(accepts: seq<Accept>) {
    forall i | 0 <= i < |accepts| :: accepts[i].key == accepts[i].id.Key()
  }

  ghost predicate Inv(s: State) {
    && Keyed(s.accepts)
    && Refines(s.cache, Stamps(s.epoch, LastAccepts(s.accepts)))
    && Spaced(s.accepts, s.epoch)
    && Accounted(s)
    && Timed(s)
  }

  lemma {:induction false} LastAcceptsMeaning(accepts: seq<Accept>, epoch: nat, key: AlterKeyCache.Key)
    requires Spaced(accepts, epoch)
    ensures key in LastAccepts(accepts) <==> exists i | 0 <= i < |accepts| :: accepts[i].key == key
    ensures key in LastAccepts(accepts) ==>
              && (exists i | 0 <= i < |accepts| ::
                    accepts[i].key == key && accepts[i].epoch == LastAccepts(accepts)[key])
              && (forall i | 0 <= i < |accepts| && accepts[i].key == key ::
                    accepts[i].epoch <= LastAccepts(accepts)[key])
  {
    if accepts != [] {
      var init := accepts[..|accepts| - 1];
      assert forall i | 0 <= i < |init| :: accepts[i] == init[i];
      LastAcceptsMeaning(init, epoch, key);
    }
  }

  /** A claim is refused exactly when the same key was accepted in this rotation or the one before. */
  lemma ClaimOutcome(s: State, key: AlterKeyCache.Key)
    requires Inv(s)
    ensures s.cache.Has(key) <==>
              exists i | 0 <= i < |s.accepts| :: s.accepts[i].key == key && s.epoch < s.accepts[i].epoch + 2
  {
    LastAcceptsMeaning(s.accepts, s.epoch, key);
    var last := LastAccepts(s.accepts);
    if key in last {
      var m :| 0 <= m < |s.accepts| && s.accepts[m].key == key && s.accepts[m].epoch == last[key];
      assert s.cache.Has(key) <==> s.epoch < last[key] + 2;
    }
  }

  lemma ClaimKeepsSpaced(s: State, a: Accept)
    requires Spaced(s.accepts, s.epoch) && a.epoch == s.epoch
    requires forall i | 0 <= i < |s.accepts| && s.accepts[i].key == a.key :: s.accepts[i].epoch + 2 <= s.epoch
    ensures Spaced(s.accepts + [a], s.epoch)
  {
  }

  lemma ClaimKeepsRefines(s: State, a: Accept)
    requires Refines(s.cache, Stamps(s.epoch, LastAccepts(s.accepts)))
    requires a.epoch == s.epoch && !s.cache.Has(a.key)
    ensures Refines(Insert(s.cache, a.key), Stamps(s.epoch, LastAccepts(s.accepts + [a])))
  {
    assert (s.accepts + [a])[..|s.accepts|] == s.accepts;
  }

  lemma OthersUnmoved(s: State, e: Event, other: Source)
    requires e.Rotation? || other != e.src
    ensures Step(s, e).Pc(other) == s.Pc(other)
  {
  }

  lemma SendKeepsAccounted(s: State, src: Source, full: bool)
    requires Accounted(s) && Spaced(s.accepts, s.epoch)
    ensures Accounted(Step(s, Send(src, full)))
  {
    var e := Send(src, full);
    var t := Step(s, e);
    forall other | t.Pc(other).Won?
      ensures other != src && t.Pc(other) == s.Pc(other)
    {
      if other != src { OthersUnmoved(s, e, other); }
    }
    if s.Pc(src).Won? && !full {
      var last := t.sent[|s.sent|];
      assert last.src == src && last.at == s.Pc(src).at;
    }
  }

  lemma ClaimKeepsAccounted(s: State, src: Source)
    requires Accounted(s)
    ensures Accounted(Step(s, Claim(src)))
  {
    var e := Claim(src);
    var t := Step(s, e);
    forall other | t.Pc(other).Won?
      ensures t.Pc(other) == s.Pc(other)
              || (other == src && t.Pc(other) == Won(|s.accepts|) && t.accepts[|s.accepts|].src == src)
    {
      if other != src { OthersUnmoved(s, e, other); }
    }
  }

  lemma StepKeepsAccounted(s: State, e: Event)
    requires Accounted(s) && Spaced(s.accepts, s.epoch)
    ensures Accounted(Step(s, e))
  {
    match e {
      case Send(src, full) => SendKeepsAccounted(s, src, full);
      case Claim(src) => ClaimKeepsAccounted(s, src);
      case Receive(src, _) =>
        forall other | Step(s, e).Pc(other).Won?
          ensures Step(s, e).Pc(other) == s.Pc(other)
        {
          if other != src { OthersUnmoved(s, e, other); }
        }
      case Rotation =>
        forall other ensures Step(s, e).Pc(other) == s.Pc(other) { OthersUnmoved(s, e, other); }
    }
  }

  lemma SendKeepsTimed(s: State, src: Source, full: bool)
    requires Timed(s) && Accounted(s) && Spaced(s.accepts, s.epoch)
    ensures Timed(Step(s, Send(src, full)))
  {
  }

  lemma StepKeepsTimed(s: State, e: Event)
    requires Timed(s) && Accounted(s) && Spaced(s.accepts, s.epoch)
    ensures Timed(Step(s, e))
  {
    match e {
      case Send(src, full) => SendKeepsTimed(s, src, full);
      case Claim(src) => assert s.accepts <= Step(s, e).accepts;
      case _ =>
    }
  }

  lemma ClaimKeepsCache(s: State, src: Source)
    requires Inv(s)
    ensures var t := Step(s, Claim(src));
            && Keyed(t.accepts) && Spaced(t.accepts, t.epoch)
            && Refines(t.cache, Stamps(t.epoch, LastAccepts(t.accepts)))
  {
    hide Shreds.Key;
    if s.Pc(src).Holding? && !s.cache.Has(s.Pc(src).id.Key()) {
      var id := s.Pc(src).id;
      var a := Accept(src, id, id.Key(), s.epoch);
      ClaimOutcome(s, a.key);
      ClaimKeepsSpaced(s, a);
      ClaimKeepsRefines(s, a);
    }
  }

  lemma StepKeepsInv(s: State, e: Event)
    requires Inv(s)
    ensures Inv(Step(s, e))
  {
    StepKeepsAccounted(s, e);
    StepKeepsTimed(s, e);
    if e.Claim? {
      ClaimKeepsCache(s, e.src);
    }
  }

  lemma {:induction false} RunKeepsInv(s: State, es: seq<Event>)
    requires Inv(s)
    ensures Inv(Run(s, es))
    decreases |es|
  {
    if es != [] {
      StepKeepsInv(s, es[0]);
      RunKeepsInv(Step(s, es[0]), es[1..]);
    }
  }

  lemma InvAtStart()
    ensures Inv(INITIAL)
  {
  }

  /** Every reachable state satisfies the invariants. */
  lemma EveryRun(es: seq<Event>)
    ensures Inv(Run(INITIAL, es))
  {
    InvAtStart();
    RunKeepsInv(INITIAL, es);
  }

  // The theorems

  /** Over every interleaving, shreds with the same key that were let through were accepted at least two
      rotations apart, whatever forwarders they went through. */
  lemma AtMostOnce(es: seq<Event>, i: nat, j: nat)
    requires i < |Run(INITIAL, es).sent| && j < |Run(INITIAL, es).sent| && i != j
    ensures var s := Run(INITIAL, es);
            && s.sent[i].at < |s.accepts| && s.sent[j].at < |s.accepts|
            && var a, b := s.accepts[s.sent[i].at], s.accepts[s.sent[j].at];
               a.id == b.id || a.key == b.key ==> a.epoch + 2 <= b.epoch || b.epoch + 2 <= a.epoch
  {
    EveryRun(es);
    var s := Run(INITIAL, es);
    assert s.sent[i].at != s.sent[j].at;
  }

  /** The same key fields, whatever the index. */
  predicate SameFields(a: Id, b: Id) {
    && Or(a.slot % TWO36, a.index / TWO20) == Or(b.slot % TWO36, b.index / TWO20)
    && a.index % TWO20 == b.index % TWO20
    && a.code == b.code
  }

  /** The same shred, up to 2^36 slots. */
  predicate SameShred(a: Id, b: Id) {
    a.slot % TWO36 == b.slot % TWO36 && a.index == b.index && a.code == b.code
  }

  lemma SameKey(a: Id, b: Id)
    ensures a.Key() == b.Key() <==> SameFields(a, b)
    ensures a.index < TWO20 && b.index < TWO20 ==> (a.Key() == b.Key() <==> SameShred(a, b))
  {
    KeyCollisions(a.slot, a.index, a.code, b.slot, b.index, b.code);
    if a.index < TWO20 && b.index < TWO20 {
      KeyPacking(a.slot, a.index, a.code, b.slot, b.index, b.code);
    }
  }

  /** Everything that came as a datagram has an index below 2^20; only the ring does not bound it. */
  ghost predicate Bounded(s: State) {
    && (forall src | src != Firedancer && s.Pc(src).Holding? :: s.Pc(src).id.index < TWO20)
    && (forall i | 0 <= i < |s.accepts| && s.accepts[i].src != Firedancer :: s.accepts[i].id.index < TWO20)
  }

  lemma StepKeepsBounded(s: State, e: Event)
    requires Bounded(s)
    ensures Bounded(Step(s, e))
  {
    var t := Step(s, e);
    if e.Receive? && e.input.Datagram? {
      ParserAgreement(e.input.payload, e.input.length);
    }
    forall src | src != Firedancer && t.Pc(src).Holding?
      ensures t.Pc(src).id.index < TWO20
    {
      if e.Rotation? || src != e.src {
        OthersUnmoved(s, e, src);
      } else {
        assert e.Receive? || t.Pc(src) == s.Pc(src);
      }
    }
  }

  lemma {:induction false} DatagramIndexBound(s: State, es: seq<Event>)
    requires Bounded(s)
    ensures Bounded(Run(s, es))
    decreases |es|
  {
    if es != [] {
      StepKeepsBounded(s, es[0]);
      DatagramIndexBound(Step(s, es[0]), es[1..]);
    }
  }

  lemma BoundedAtStart()
    ensures Bounded(INITIAL)
  {
  }

  lemma EveryRunBounded(es: seq<Event>)
    ensures Bounded(Run(INITIAL, es))
  {
    BoundedAtStart();
    DatagramIndexBound(INITIAL, es);
  }

  /** A shred with these key fields was accepted in this rotation or the one before. */
  ghost predicate SuppressedNow(s: State, id: Id) {
    exists i | 0 <= i < |s.accepts| :: s.epoch < s.accepts[i].epoch + 2 && SameFields(s.accepts[i].id, id)
  }

  /** Different shreds do not suppress each other: after every run, a claim is refused exactly when a shred
      with the same key fields was accepted in this rotation or the one before. */
  lemma SuppressedOnlyByItself(es: seq<Event>, id: Id)
    ensures Run(INITIAL, es).cache.Has(id.Key()) <==> SuppressedNow(Run(INITIAL, es), id)
  {
    EveryRun(es);
    SuppressedBy(Run(INITIAL, es), id);
  }

  lemma SuppressedBy(s: State, id: Id)
    requires Inv(s)
    ensures s.cache.Has(id.Key()) <==> SuppressedNow(s, id)
  {
    var key := id.Key();
    ClaimOutcome(s, key);
    forall i | 0 <= i < |s.accepts|
      ensures s.accepts[i].key == key <==> SameFields(s.accepts[i].id, id)
    {
      SameKey(s.accepts[i].id, id);
    }
  }

  /** For a datagram's shred, same key fields as an accepted datagram means the same index, variant and slot
      modulo 2^36; only a shred from the ring can collide in another way. */
  lemma SuppressedByDatagram(es: seq<Event>, id: Id, i: nat)
    requires id.index < TWO20 && i < |Run(INITIAL, es).accepts| && Run(INITIAL, es).accepts[i].src != Firedancer
    ensures SameFields(Run(INITIAL, es).accepts[i].id, id) <==> SameShred(Run(INITIAL, es).accepts[i].id, id)
  {
    EveryRunBounded(es);
    SameKey(Run(INITIAL, es).accepts[i].id, id);
  }

  // Sending is not part of the claim

  predicate Apart(x: nat, y: nat) { x + 2 <= y || y + 2 <= x }

  /** Sends i and j are of one key, i was accepted first, and i took d rotations from claim to send. */
  ghost predicate Repeat(s: State, i: nat, j: nat, d: nat) {
    && i < |s.sent| && j < |s.sent| && s.sent[i].at < s.sent[j].at
    && s.sent[i].at < |s.accepts| && s.sent[j].at < |s.accepts|
    && s.accepts[s.sent[i].at].key == s.accepts[s.sent[j].at].key
    && s.sent[i].epoch == s.accepts[s.sent[i].at].epoch + d
  }

  /** Accept i came from OFR and send j goes to OFR, with the same key; j took d rotations from claim to
      send. */
  ghost predicate Echo(s: State, i: nat, j: nat, d: nat) {
    && i < |s.accepts| && j < |s.sent| && s.sent[j].at < |s.accepts|
    && s.accepts[i].src == OFR && s.sent[j].src != OFR
    && s.accepts[i].key == s.accepts[s.sent[j].at].key
    && s.sent[j].epoch == s.accepts[s.sent[j].at].epoch + d
  }

  lemma GapOf(s: State, i: nat, j: nat, d: nat)
    requires Inv(s) && Repeat(s, i, j, d)
    ensures s.sent[i].epoch + 2 <= s.sent[j].epoch + d
  {
  }

  lemma EchoGap(s: State, i: nat, j: nat, d: nat)
    requires Inv(s) && Echo(s, i, j, d)
    ensures i < s.sent[j].at ==> s.accepts[i].epoch + 2 <= s.sent[j].epoch
    ensures i >= s.sent[j].at ==> s.sent[j].epoch + 2 <= s.accepts[i].epoch + d
    ensures i < s.sent[j].seen ==> s.accepts[i].epoch <= s.sent[j].epoch
  {
    assert s.accepts[s.sent[j].at].src == s.sent[j].src;
  }

  /** In every run, of two sends of one key the one accepted later goes out at least g rotations after the
      other, if that one took d rotations from claim to send. */
  ghost predicate AlwaysBehind(d: nat, g: int) {
    forall es, i: nat, j: nat | Repeat(Run(INITIAL, es), i, j, d) ::
      Run(INITIAL, es).sent[i].epoch + g <= Run(INITIAL, es).sent[j].epoch
  }

  /** In every run, they go out two rotations apart, in whatever order. */
  ghost predicate AlwaysApart(d: nat) {
    forall es, i: nat, j: nat | Repeat(Run(INITIAL, es), i, j, d) ::
      Apart(Run(INITIAL, es).sent[i].epoch, Run(INITIAL, es).sent[j].epoch)
  }

  /** In every run, what was already accepted from OFR goes back to OFR, with a delay of d rotations from
      claim to send, only two rotations or more after it was accepted. */
  ghost predicate NeverBack(d: nat) {
    forall es, i: nat, j: nat | Echo(Run(INITIAL, es), i, j, d) && i < Run(INITIAL, es).sent[j].seen ::
      Run(INITIAL, es).accepts[i].epoch + 2 <= Run(INITIAL, es).sent[j].epoch
  }

  /** In every run, accepting from OFR and sending to OFR are two rotations apart, in whatever order. */
  ghost predicate NeverNear(d: nat) {
    forall es, i: nat, j: nat | Echo(Run(INITIAL, es), i, j, d) ::
      Apart(Run(INITIAL, es).accepts[i].epoch, Run(INITIAL, es).sent[j].epoch)
  }

  /** At most once, at the time of sending: a delay of d rotations between claim and send of the shred
      accepted first costs exactly d of the two rotations. */
  lemma SendGap(d: nat, g: int)
    ensures AlwaysBehind(d, g) <==> g + d <= 2
  {
    if g + d <= 2 {
      forall es, i: nat, j: nat | Repeat(Run(INITIAL, es), i, j, d)
        ensures Run(INITIAL, es).sent[i].epoch + g <= Run(INITIAL, es).sent[j].epoch
      {
        EveryRun(es);
        GapOf(Run(INITIAL, es), i, j, d);
      }
    } else {
      var es := SlowSample(OFR, Turbine, 2, d);
      var i, j := if d < 2 then 0 else 1, if d < 2 then 1 else 0;
      assert Repeat(Run(INITIAL, es), i, j, d);
    }
  }

  /** Two sends of one key are two rotations apart in every run exactly when the one accepted first is sent in
      the rotation that accepted it. */
  lemma SendsApart(d: nat)
    ensures AlwaysApart(d) <==> d == 0
  {
    if d == 0 {
      forall es, i: nat, j: nat | Repeat(Run(INITIAL, es), i, j, d)
        ensures Apart(Run(INITIAL, es).sent[i].epoch, Run(INITIAL, es).sent[j].epoch)
      {
        EveryRun(es);
        GapOf(Run(INITIAL, es), i, j, d);
      }
    } else {
      var c := if d < 2 then 2 else d;
      var es := SlowSample(OFR, Turbine, c, d);
      var i, j := if d < c then 0 else 1, if d < c then 1 else 0;
      assert Repeat(Run(INITIAL, es), i, j, d);
    }
  }

  /** What was accepted from OFR goes back to OFR within two rotations in some run exactly when a forwarder
      towards OFR can take two rotations or more from claim to send. Accepting and sending are two
      rotations apart, whichever comes first, exactly when it takes none. */
  lemma NoReflection(d: nat)
    ensures NeverBack(d) <==> d < 2
    ensures NeverNear(d) <==> d == 0
  {
    forall es, i: nat, j: nat | Echo(Run(INITIAL, es), i, j, d)
      ensures d == 0 ==> Apart(Run(INITIAL, es).accepts[i].epoch, Run(INITIAL, es).sent[j].epoch)
      ensures d < 2 && i < Run(INITIAL, es).sent[j].seen ==>
                Run(INITIAL, es).accepts[i].epoch + 2 <= Run(INITIAL, es).sent[j].epoch
    {
      EveryRun(es);
      EchoGap(Run(INITIAL, es), i, j, d);
    }
    if d > 0 {
      var c := if d < 2 then 2 else d;
      var es := SlowSample(Turbine, OFR, c, d);
      var j := if d < c then 0 else |Run(INITIAL, es).sent| - 1;
      assert Echo(Run(INITIAL, es), 1, j, d);
    }
  }

  // The runs that show it

  predicate Fits(src: Source, x: Input) { src.Firedancer? <==> x.RingShred? }

  function Turns(k: nat): seq<Event> { seq(k, _ => Rotation) }

  /** The first forwarder claims at once and sends d rotations later; the second receives the same shred in
      rotation c and sends it at once. */
  function SlowRun(first: Source, x: Input, second: Source, y: Input, c: nat, d: nat): seq<Event> {
    if d < c
    then [Receive(first, x), Claim(first)] + Turns(d) + [Send(first, false)] + Turns(c - d)
         + [Receive(second, y), Claim(second)] + [Send(second, false)]
    else [Receive(first, x), Claim(first)] + Turns(c) + [Receive(second, y), Claim(second)] + [Send(second, false)]
         + Turns(d - c) + [Send(first, false)]
  }

  /** For every shred and every two forwarders, once two rotations have passed the second claims it again,
      however long the first takes to send it. */
  lemma SlowSender(first: Source, x: Input, second: Source, y: Input, id: Id, c: nat, d: nat)
    requires first != second && Fits(first, x) && Fits(second, y) && c >= 2
    requires x.Parsed() == y.Parsed() == Some(id)
    ensures var s := Run(INITIAL, SlowRun(first, x, second, y, c, d));
            && s.accepts == [Accept(first, id, id.Key(), 0), Accept(second, id, id.Key(), c)]
            && s.sent == if d < c then [Sent(first, 0, d, 1), Sent(second, 1, c, 2)]
                         else [Sent(second, 1, c, 2), Sent(first, 0, d, 2)]
  {
    if d < c {
      PromptRun(first, x, second, y, id, c, d);
    } else {
      LateRun(first, x, second, y, id, c, d);
    }
  }

  lemma PromptRun(first: Source, x: Input, second: Source, y: Input, id: Id, c: nat, d: nat)
    requires first != second && Fits(first, x) && Fits(second, y) && c >= 2 && d < c
    requires x.Parsed() == y.Parsed() == Some(id)
    ensures var s := Run(INITIAL, SlowRun(first, x, second, y, c, d));
            && s.accepts == [Accept(first, id, id.Key(), 0), Accept(second, id, id.Key(), c)]
            && s.sent == [Sent(first, 0, d, 1), Sent(second, 1, c, 2)]
  {
    hide Shreds.ParsePartial;
    FirstWait(first, x, id, d);
    var es := [Receive(first, x), Claim(first)] + Turns(d) + [Send(first, false)];
    RunSend(INITIAL, [Receive(first, x), Claim(first)] + Turns(d), first);
    TurnedTwice(Insert(EMPTY, id.Key()), d, c - d);
    SecondForward(es, second, y, id, c - d);
    assert SlowRun(first, x, second, y, c, d) ==
           es + Turns(c - d) + [Receive(second, y), Claim(second)] + [Send(second, false)];
  }

  lemma LateRun(first: Source, x: Input, second: Source, y: Input, id: Id, c: nat, d: nat)
    requires first != second && Fits(first, x) && Fits(second, y) && 2 <= c <= d
    requires x.Parsed() == y.Parsed() == Some(id)
    ensures var s := Run(INITIAL, SlowRun(first, x, second, y, c, d));
            && s.accepts == [Accept(first, id, id.Key(), 0), Accept(second, id, id.Key(), c)]
            && s.sent == [Sent(second, 1, c, 2), Sent(first, 0, d, 2)]
  {
    hide Shreds.ParsePartial;
    FirstClaim(first, x, id);
    TurnedTwice(Insert(EMPTY, id.Key()), 0, c);
    SecondForward([Receive(first, x), Claim(first)], second, y, id, c);
    var es := [Receive(first, x), Claim(first)] + Turns(c) + [Receive(second, y), Claim(second)]
              + [Send(second, false)];
    LateSend(es, first, d - c);
    assert SlowRun(first, x, second, y, c, d) == es + Turns(d - c) + [Send(first, false)];
  }

  lemma LateSend(es: seq<Event>, src: Source, k: nat)
    requires Run(INITIAL, es).Pc(src).Won?
    ensures var t, u := Run(INITIAL, es), Run(INITIAL, es + Turns(k) + [Send(src, false)]);
            && u.accepts == t.accepts
            && u.sent == t.sent + [Sent(src, t.Pc(src).at, t.epoch + k, |t.accepts|)]
  {
    RunTurns(INITIAL, es, k);
    RunSend(INITIAL, es + Turns(k), src);
  }

  lemma SecondForward(es: seq<Event>, src: Source, x: Input, id: Id, k: nat)
    requires Run(INITIAL, es).Pc(src).Idle? && Fits(src, x) && x.Parsed() == Some(id)
    requires !TurnedCache(Run(INITIAL, es).cache, k).Has(id.Key())
    ensures var t := Run(INITIAL, es);
            var u := Run(INITIAL, es + Turns(k) + [Receive(src, x), Claim(src)] + [Send(src, false)]);
            && (forall other | other != src :: u.Pc(other) == t.Pc(other))
            && u.accepts == t.accepts + [Accept(src, id, id.Key(), t.epoch + k)]
            && u.sent == t.sent + [Sent(src, |t.accepts|, t.epoch + k, |t.accepts| + 1)]
            && u.epoch == t.epoch + k
  {
    hide Shreds.ParsePartial;
    RunTurns(INITIAL, es, k);
    RunClaimAndSend(INITIAL, es + Turns(k), src, x, id);
  }

  lemma FirstWait(src: Source, x: Input, id: Id, k: nat)
    requires Fits(src, x) && x.Parsed() == Some(id)
    ensures var t := Run(INITIAL, [Receive(src, x), Claim(src)] + Turns(k));
            && t.Pc(src) == Won(0) && (forall other | other != src :: t.Pc(other).Idle?)
            && t.accepts == [Accept(src, id, id.Key(), 0)] && t.sent == [] && t.epoch == k
            && t.cache == TurnedCache(Insert(EMPTY, id.Key()), k)
  {
    FirstClaim(src, x, id);
    RunTurns(INITIAL, [Receive(src, x), Claim(src)], k);
  }

  lemma FirstClaim(src: Source, x: Input, id: Id)
    requires Fits(src, x) && x.Parsed() == Some(id)
    ensures var t := Run(INITIAL, [Receive(src, x), Claim(src)]);
            && t.Pc(src) == Won(0) && (forall other | other != src :: t.Pc(other).Idle?)
            && t.accepts == [Accept(src, id, id.Key(), 0)] && t.sent == [] && t.epoch == 0
            && t.cache == Insert(EMPTY, id.Key())
  {
    assert [] + [Receive(src, x), Claim(src)] == [Receive(src, x), Claim(src)];
    RunClaim(INITIAL, [], src, x, id);
    assert forall other | other != src :: INITIAL.Pc(other) == Idle;
  }

  /** A coding shred of slot 0 and index 0. */
  const SAMPLE: Payload := seq(UDP_SHRED_SIZE, k => if k == SIZE_OF_SIGNATURE then MERKLE_CODE else 0)

  lemma SampleParses()
    ensures ParsePartial(SAMPLE, UDP_SHRED_SIZE).Ok?
  {
    assert SAMPLE[INDEX_AT..VERSION_AT] == [0, 0, 0, 0];
  }

  lemma SlowSample(first: Source, second: Source, c: nat, d: nat) returns (es: seq<Event>)
    requires first != second && !first.Firedancer? && !second.Firedancer? && c >= 2
    ensures var s := Run(INITIAL, es);
            && |s.accepts| == 2 && s.accepts[0].key == s.accepts[1].key
            && s.accepts[0].src == first && s.accepts[0].epoch == 0
            && s.accepts[1].src == second && s.accepts[1].epoch == c
            && s.sent == if d < c then [Sent(first, 0, d, 1), Sent(second, 1, c, 2)]
                         else [Sent(second, 1, c, 2), Sent(first, 0, d, 2)]
  {
    SampleParses();
    var x := Datagram(SAMPLE, UDP_SHRED_SIZE);
    SlowSender(first, x, second, x, x.Parsed().value, c, d);
    es := SlowRun(first, x, second, x, c, d);
  }

  // Unfolding runs

  function TurnedCache(g: Generations, k: nat): Generations {
    if k == 0 then g else Rotate(TurnedCache(g, k - 1))
  }

  /** After two rotations nothing is left, however they are divided. */
  lemma {:induction false} TurnedTwice(g: Generations, k: nat, m: nat)
    ensures k + m >= 2 ==> TurnedCache(TurnedCache(g, k), m) == EMPTY
    ensures k + m >= 1 ==> TurnedCache(TurnedCache(g, k), m).current == {}
    decreases k + m, k
  {
    if m > 0 { TurnedTwice(g, k, m - 1); } else if k > 0 { TurnedTwice(g, 0, k); }
  }

  lemma {:induction false} RunSnoc(s: State, es: seq<Event>, e: Event)
    ensures Run(s, es + [e]) == Step(Run(s, es), e)
    decreases |es|
  {
    if es == [] {
      assert [e][1..] == [];
      assert es + [e] == [e];
    } else {
      assert (es + [e])[1..] == es[1..] + [e];
      RunSnoc(Step(s, es[0]), es[1..], e);
    }
  }

  /** Rotations touch only the cache and the clock. */
  lemma {:induction false} RunTurns(s: State, es: seq<Event>, k: nat)
    ensures var t, u := Run(s, es), Run(s, es + Turns(k));
            && u.cache == TurnedCache(t.cache, k) && u.epoch == t.epoch + k
            && u.accepts == t.accepts && u.sent == t.sent
            && forall src :: u.Pc(src) == t.Pc(src)
    decreases k
  {
    if k == 0 {
      assert es + Turns(0) == es;
    } else {
      RunTurns(s, es, k - 1);
      assert es + Turns(k) == es + Turns(k - 1) + [Rotation];
      RunSnoc(s, es + Turns(k - 1), Rotation);
    }
  }

  lemma RunClaim(s: State, es: seq<Event>, src: Source, x: Input, id: Id)
    requires Run(s, es).Pc(src).Idle? && Fits(src, x) && x.Parsed() == Some(id)
    requires !Run(s, es).cache.Has(id.Key())
    ensures var t, u := Run(s, es), Run(s, es + [Receive(src, x), Claim(src)]);
            && u.Pc(src) == Won(|t.accepts|) && (forall other | other != src :: u.Pc(other) == t.Pc(other))
            && u.accepts == t.accepts + [Accept(src, id, id.Key(), t.epoch)]
            && u.cache == Insert(t.cache, id.Key()) && u.epoch == t.epoch && u.sent == t.sent
  {
    RunSnoc(s, es, Receive(src, x));
    RunSnoc(s, es + [Receive(src, x)], Claim(src));
    assert es + [Receive(src, x), Claim(src)] == es + [Receive(src, x)] + [Claim(src)];
  }

  lemma RunSend(s: State, es: seq<Event>, src: Source)
    requires Run(s, es).Pc(src).Won?
    ensures var t, u := Run(s, es), Run(s, es + [Send(src, false)]);
            && u.Pc(src).Idle? && (forall other | other != src :: u.Pc(other) == t.Pc(other))
            && u.sent == t.sent + [Sent(src, t.Pc(src).at, t.epoch, |t.accepts|)]
            && u.accepts == t.accepts && u.cache == t.cache && u.epoch == t.epoch
  {
    RunSnoc(s, es, Send(src, false));
  }

  lemma RunClaimAndSend(s: State, es: seq<Event>, src: Source, x: Input, id: Id)
    requires Run(s, es).Pc(src).Idle? && Fits(src, x) && x.Parsed() == Some(id)
    requires !Run(s, es).cache.Has(id.Key())
    ensures var t, u := Run(s, es), Run(s, es + [Receive(src, x), Claim(src)] + [Send(src, false)]);
            && (forall other | other != src :: u.Pc(other) == t.Pc(other))
            && u.accepts == t.accepts + [Accept(src, id, id.Key(), t.epoch)]
            && u.sent == t.sent + [Sent(src, |t.accepts|, t.epoch, |t.accepts| + 1)]
            && u.epoch == t.epoch
  {
    RunClaim(s, es, src, x, id);
    RunSend(s, es + [Receive(src, x), Claim(src)], src);
  }

  lemma Unfold2(s: State, e: Event, f: Event, es: seq<Event>)
    ensures Run(s, [e, f] + es) == Run(Step(Step(s, e), f), es)
  {
    assert ([e, f] + es)[1..] == [f] + es;
    assert ([f] + es)[1..] == es;
  }

  /** The shred a datagram is taken for has the fields the parser reads, and the key under which the handlers of
      OFR and Turbine put it into the cache. */
  lemma DatagramIdentity(p: Payload, n: int)
    ensures match ParsePartial(p, n)
            case Err(_) => Datagram(p, n).Parsed() == None
            case Ok(shred) =>
              && Datagram(p, n).Parsed() == Some(Id(shred.slot, shred.index, shred.variant.code))
              && Datagram(p, n).Parsed().value.Key() == Key64(shred)
  {
  }

  /** The same for a shred from the ring. */
  lemma RingIdentity(info: Ring.Info)
    ensures var x := RingShred(info.shred.slot, info.shred.idx, info.shred.variant);
            match ParseVariant(info.shred.variant)
            case Err(_) => x.Parsed() == None
            case Ok(v) =>
              && x.Parsed() == Some(Id(info.shred.slot, info.shred.idx, v.code))
              && x.Parsed().value.Key() == FiredancerSniffers.KeyOf(info, v)
  {
  }

  /** A forwarder that is not interrupted does to cache and channel what the handlers of the three sources
      do, which all offer the parsed shred to them: Gateway.ProcessShred, NetworkListener.Recv and
      FiredancerSniffer.Handle. */
  lemma UninterruptedForward<T>(s: State, src: Source, input: Input, ch: seq<T>, capacity: nat, item: T)
    requires s.Pc(src).Idle? && (src.Firedancer? <==> input.RingShred?)
    ensures var full := |ch| >= capacity;
            var t := Run(s, [Receive(src, input), Claim(src), Send(src, full)]);
            match input.Parsed()
            case None => t == s
            case Some(id) =>
              var (cache, ch') := Offer(s.cache, ch, capacity, id.Key(), item);
              var isNew := !s.cache.Has(id.Key());
              && t.cache == cache && t.Pc(src) == Idle && t.epoch == s.epoch
              && (forall other | other != src :: t.Pc(other) == s.Pc(other))
              && ch' == (if isNew && !full then ch + [item] else ch)
              && t.accepts == s.accepts + (if isNew then [Accept(src, id, id.Key(), s.epoch)] else [])
              && t.sent == s.sent + (if isNew && !full
                                     then [Sent(src, |s.accepts|, s.epoch, |s.accepts| + 1)] else [])
  {
    hide Shreds.ParsePartial;
    var full := |ch| >= capacity;
    Unfold2(s, Receive(src, input), Claim(src), [Send(src, full)]);
    var t := Step(Step(s, Receive(src, input)), Claim(src));
    assert [Send(src, full)][1..] == [];
    assert Run(t, [Send(src, full)]) == Run(Step(t, Send(src, full)), []);
  }
}
