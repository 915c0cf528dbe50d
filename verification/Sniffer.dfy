/**
 The packet sniffer loop (pkg/packet/sniffer.go): decode, count valid and invalid packets, and stop a
 strict sniffer when the share of invalid packets reaches the threshold.
 */
module Sniffers {
  import opened Wrappers
  import opened Bits
  import opened Shreds

  /** What the layer decoder makes of a captured frame. */
  datatype Layers = Undecodable | WrongLayers | BadAddress | Udp(src: U32, payload: seq<U8>)

  datatype SniffPacket = SniffPacket(src: U32, handleName: string, payload: Payload, length: nat)

  /** What one turn of the loop meets. full and cancelled are what the send finds. */
  datatype Event =
    | Cancelled
    | EndOfFile
    | ReadError
    | Frame(layers: Layers, cancelled: bool, full: bool)

  datatype Config = Config(handleName: string, intolerant: bool, dynamic: bool, validated: bool) {
    predicate Strict() { intolerant || dynamic }
  }

  /** The validator of the network listener: only sizes a shred can have. */
  predicate Validates(payload: seq<U8>) {
    ValidateSizeSimple(|payload|).None?
  }

  /** copy(pkt.Payload[:], data): what fits, and zeros after it. */
  function Copied(data: seq<U8>): Payload {
    if |data| >= UDP_SHRED_SIZE then data[..UDP_SHRED_SIZE]
    else data + seq(UDP_SHRED_SIZE - |data|, _ => 0)
  }

  function Decode(c: Config, layers: Layers): Option<SniffPacket> {
    if !layers.Udp? || (c.validated && !Validates(layers.payload)) then None
    else
      var n := if |layers.payload| < UDP_SHRED_SIZE then |layers.payload| else UDP_SHRED_SIZE;
      Some(SniffPacket(layers.src, c.handleName, Copied(layers.payload), n))
  }

  datatype Status = Running | Done | TooManyInvalid

  datatype State = State(counter: nat, invalid: nat, out: seq<SniffPacket>, status: Status)

  const START := State(0, 0, [], Running)

  predicate BelowThreshold(invalid: nat, counter: nat) {
    counter > 0 && (invalid as real) / (counter as real) < 0.01
  }

  function Step(c: Config, s: State, e: Event): State {
    if !s.status.Running? then s
    else
      match e
      case Cancelled => s.(status := Done)
      case EndOfFile => s.(status := Done)
      case ReadError => s
      case Frame(layers, cancelled, full) =>
        match Decode(c, layers)
        case None =>
          if c.Strict() && !BelowThreshold(s.invalid + 1, s.counter)
          then s.(invalid := s.invalid + 1, status := TooManyInvalid)
          else s.(invalid := s.invalid + 1)
        case Some(pkt) =>
          if cancelled then s.(counter := s.counter + 1, status := Done)
          else s.(counter := s.counter + 1, out := if full then s.out else s.out + [pkt])
  }

  function Run(c: Config, es: seq<Event>): State {
    if es == [] then START else Step(c, Run(c, es[..|es| - 1]), es[|es| - 1])
  }

  class Sniffer {
    const config: Config
    var counter: nat
    var invalidPackets: nat
    var ch: seq<SniffPacket>
    /** Sources for which the invalid-packets counter was bumped. */
    var counted: seq<Option<U32>>

    constructor (config: Config)
      ensures this.config == config && counter == 0 && invalidPackets == 0 && ch == [] && counted == []
    {
      this.config, counter, invalidPackets, ch, counted := config, 0, 0, [], [];
    }

    /** DecodePacket; on failure the source address, if it was reached. */
    method DecodePacket(layers: Layers) returns (r: Result<SniffPacket, Option<U32>>)
      ensures r.Ok? ==> Decode(config, layers) == Some(r.value)
      ensures r.Err? ==> Decode(config, layers) == None
      ensures r.Err? ==> r.error == if layers.Udp? then Some(layers.src) else None
    {
      if !layers.Udp? {
        return Err(None);
      }
      if config.validated && !Validates(layers.payload) {
        return Err(Some(layers.src));
      }
      var n := if |layers.payload| < UDP_SHRED_SIZE then |layers.payload| else UDP_SHRED_SIZE;
      return Ok(SniffPacket(layers.src, config.handleName, Copied(layers.payload), n));
    }

    /** SniffUDPNetworkNoClose on these events; consumed is how many it looked at. */
    method Sniff(es: seq<Event>) returns (consumed: nat, status: Status)
      requires counter == 0 && invalidPackets == 0 && ch == []
      modifies this
      ensures consumed <= |es|
      ensures State(counter, invalidPackets, ch, status) == Run(config, es)
      ensures status.Running? ==> consumed == |es|
      ensures !status.Running? ==> consumed > 0 && Run(config, es[..consumed - 1]).status.Running?
      ensures config.Strict() ==> counted == old(counted)
    {
      consumed, status := 0, Running;
      while consumed < |es|
        invariant 0 <= consumed <= |es|
        invariant status.Running? && State(counter, invalidPackets, ch, status) == Run(config, es[..consumed])
        invariant config.Strict() ==> counted == old(counted)
      {
        var e := es[consumed];
        assert es[..consumed + 1][..consumed] == es[..consumed];
        consumed := consumed + 1;
        if e.Cancelled? || e.EndOfFile? {
          status := Done;
          break;
        }
        if e.ReadError? {
          continue;
        }
        var pkt := DecodePacket(e.layers);
        if pkt.Err? {
          invalidPackets := invalidPackets + 1;
          if config.intolerant || config.dynamic {
            if counter > 0 && (invalidPackets as real) / (counter as real) < 0.01 {
              continue;
            }
            status := TooManyInvalid;
            break;
          }
          if pkt.error != Some(0) {
            counted := counted + [pkt.error];
          }
          continue;
        }
        counter := counter + 1;
        if e.cancelled {
          status := Done;
          break;
        }
        if !e.full {
          ch := ch + [pkt.value];
        }
      }
      if status.Running? {
        assert es[..consumed] == es;
      } else {
        StoppedStays(config, es, consumed);
      }
    }
  }

  lemma {:induction false} StoppedStays(c: Config, es: seq<Event>, k: nat)
    requires k <= |es| && !Run(c, es[..k]).status.Running?
    ensures Run(c, es) == Run(c, es[..k])
    decreases |es|
  {
    if k < |es| {
      var init := es[..|es| - 1];
      assert init[..k] == es[..k];
      StoppedStays(c, init, k);
    } else {
      assert es[..k] == es;
    }
  }

  // Counting, from the events alone

  predicate IsInvalid(c: Config, e: Event) { e.Frame? && Decode(c, e.layers).None? }

  predicate IsValid(c: Config, e: Event) { e.Frame? && Decode(c, e.layers).Some? }

  predicate Ends(c: Config, e: Event) {
    e.Cancelled? || e.EndOfFile? || (IsValid(c, e) && e.cancelled)
  }

  function CountInvalid(c: Config, es: seq<Event>): nat {
    if es == [] then 0
    else CountInvalid(c, es[..|es| - 1]) + (if IsInvalid(c, es[|es| - 1]) then 1 else 0)
  }

  function CountValid(c: Config, es: seq<Event>): nat {
    if es == [] then 0
    else CountValid(c, es[..|es| - 1]) + (if IsValid(c, es[|es| - 1]) then 1 else 0)
  }

  lemma ScaledOrder(q: real, c: real)
    requires c > 0.0
    ensures q < 0.01 <==> q * c < 0.01 * c
  {
    var gap := 0.01 - q;
    assert gap * c == 0.01 * c - q * c;
    assert gap > 0.0 ==> gap * c > 0.0;
    assert gap <= 0.0 ==> gap * c <= 0.0;
  }

  lemma RealRatio(i: real, c: real)
    requires c > 0.0
    ensures i / c < 0.01 <==> 100.0 * i < c
  {
    var q := i / c;
    assert q * c == i;
    ScaledOrder(q, c);
  }

  lemma RatioOverIntegers(invalid: nat, counter: nat)
    ensures BelowThreshold(invalid, counter) <==> 100 * invalid < counter
  {
    if counter > 0 {
      RealRatio(invalid as real, counter as real);
      assert (100 * invalid) as real == 100.0 * (invalid as real);
    }
  }

  /** At every loop head of every run of a strict sniffer, there were no invalid packets, or fewer than
      one for every hundred valid ones. */
  lemma {:induction false} ToleranceInvariant(c: Config, es: seq<Event>)
    requires c.Strict() && Run(c, es).status.Running?
    ensures var s := Run(c, es);
            s.invalid == 0 || 100 * s.invalid < s.counter
  {
    if es != [] {
      var init := es[..|es| - 1];
      ToleranceInvariant(c, init);
      RatioOverIntegers(Run(c, init).invalid + 1, Run(c, init).counter);
    }
  }

  /** The invalid packet at k is within what a strict sniffer tolerates. */
  ghost predicate Tolerated(c: Config, es: seq<Event>, k: nat)
    requires k < |es|
  {
    IsInvalid(c, es[k]) ==> 100 * CountInvalid(c, es[..k + 1]) < CountValid(c, es[..k + 1])
  }

  /** A strict sniffer is still running exactly when nothing ended it and every invalid packet so far was
      within the threshold when it came: it stops at the first one that is not, and never later. */
  lemma {:induction false} StopsExactlyAtThreshold(c: Config, es: seq<Event>)
    requires c.Strict()
    ensures Run(c, es).status.Running? <==>
              forall k | 0 <= k < |es| :: !Ends(c, es[k]) && Tolerated(c, es, k)
    ensures Run(c, es).status.Running? ==>
              Run(c, es).counter == CountValid(c, es) && Run(c, es).invalid == CountInvalid(c, es)
  {
    if es != [] {
      var n := |es| - 1;
      var init := es[..n];
      StopsExactlyAtThreshold(c, init);
      assert forall k | 0 <= k < n :: init[k] == es[k] && init[..k + 1] == es[..k + 1];
      assert forall k | 0 <= k < n :: Tolerated(c, init, k) <==> Tolerated(c, es, k);
      assert es[..n + 1] == es;
      RatioOverIntegers(CountInvalid(c, init) + 1, CountValid(c, init));
    }
  }

  /** A tolerant sniffer never stops because of invalid packets. */
  lemma {:induction false} TolerantNeverStops(c: Config, es: seq<Event>)
    requires !c.Strict()
    ensures Run(c, es).status != TooManyInvalid
    ensures Run(c, es).status.Running? <==> forall k | 0 <= k < |es| :: !Ends(c, es[k])
  {
    if es != [] {
      TolerantNeverStops(c, es[..|es| - 1]);
    }
  }

  /** Every packet a validating sniffer puts out is the whole captured payload, zero-extended, of a size
      a shred can have. */
  lemma {:induction false} NothingTruncated(c: Config, es: seq<Event>, i: nat)
    requires c.validated && i < |Run(c, es).out|
    ensures var pkt := Run(c, es).out[i];
            && MIN_MERKLE_SIZE <= pkt.length <= UDP_SHRED_SIZE
            && pkt.handleName == c.handleName
            && (exists k | 0 <= k < |es| :: es[k].Frame? && es[k].layers == Udp(pkt.src, pkt.payload[..pkt.length]))
            && forall j | pkt.length <= j < UDP_SHRED_SIZE :: pkt.payload[j] == 0
  {
    var n := |es| - 1;
    var init := es[..n];
    var s := Run(c, init);
    if i < |s.out| {
      NothingTruncated(c, init, i);
      var pkt := s.out[i];
      var k :| 0 <= k < n && init[k].Frame? && init[k].layers == Udp(pkt.src, pkt.payload[..pkt.length]);
      assert es[k] == init[k];
    } else {
      var pkt := Run(c, es).out[i];
      assert es[n].layers == Udp(pkt.src, pkt.payload[..pkt.length]);
    }
  }

  /** What becomes of a captured frame: only UDP is looked at, a validating sniffer takes only payloads of 1203 to
      1228 bytes, and of the payload at most 1228 bytes are kept, zero-extended. */
  lemma DecodedFrames(c: Config, layers: Layers)
    ensures Decode(c, layers).Some? <==> layers.Udp? && (c.validated ==> 1203 <= |layers.payload| <= 1228)
    ensures Decode(c, layers).Some? ==>
              var pkt := Decode(c, layers).value;
              && pkt.src == layers.src && pkt.handleName == c.handleName
              && pkt.length == (if |layers.payload| < 1228 then |layers.payload| else 1228)
              && pkt.payload[..pkt.length] == layers.payload[..pkt.length]
              && forall i | pkt.length <= i < 1228 :: pkt.payload[i] == 0
  {
  }

  /** The packet of the event is put out if the sniffer gets to it. */
  predicate Puts(c: Config, e: Event) { IsValid(c, e) && !e.cancelled && !e.full }

  /** The events of a list that put something out, in order. */
  function Putting(c: Config, es: seq<Event>): seq<Event> {
    if es == [] then []
    else Putting(c, es[..|es| - 1]) + (if Puts(c, es[|es| - 1]) then [es[|es| - 1]] else [])
  }

  /** Nothing is lost: as long as a sniffer runs, strict or not, it has put out exactly one packet for every valid
      frame that found room, in order, and counted every valid and every invalid frame. */
  lemma {:induction false} EveryValidFrame(c: Config, es: seq<Event>)
    requires Run(c, es).status.Running?
    ensures var s := Run(c, es);
            && |s.out| == |Putting(c, es)|
            && (forall i | 0 <= i < |s.out| ::
                  Putting(c, es)[i].Frame? && Decode(c, Putting(c, es)[i].layers) == Some(s.out[i]))
            && s.counter == CountValid(c, es) && s.invalid == CountInvalid(c, es)
  {
    if es != [] { EveryValidFrame(c, es[..|es| - 1]); }
  }

  /** Why a running sniffer stops at an event, and that stopping puts nothing out. */
  lemma StopReason(c: Config, s: State, e: Event)
    requires s.status.Running?
    ensures Step(c, s, e).status == Done <==> Ends(c, e)
    ensures Step(c, s, e).status == TooManyInvalid <==>
              IsInvalid(c, e) && (c.intolerant || c.dynamic) && 100 * (s.invalid + 1) >= s.counter
    ensures !Step(c, s, e).status.Running? ==> Step(c, s, e).out == s.out
  {
    RatioOverIntegers(s.invalid + 1, s.counter);
  }
}
