/**
 The gateway object (gateway.go): registration, one turn of the re-registering loop, and the handling
 of one packet from OFR, each tied to the steps of module Watchdog run without interference.
 */
module Gateways {
  import opened Wrappers
  import opened Bits
  import opened Shreds
  import opened Watchdog
  import opened Forwarding
  import AlterKeyCache

  const REGISTER_RETRY_COUNT: nat := 3

  datatype ShredData = ShredData(payload: Payload, length: int, shred: PartialShred, src: U32)

  /** The result of one read on the server socket. */
  datatype Read = ReadFailed | Received(payload: Payload, n: int, src: U32)

  datatype Write = Write(data: seq<U8>, to: Addr)

  class Gateway {
    const limit: nat
    const cache: AlterKeyCache.AlterKey
    const noValidator: bool
    const tvu: Addr
    const extraAddrs: seq<Addr>
    const extraFromOFROnly: bool
    var ofrUDPAddr: Option<Addr>
    var noTrafficCounter: int
    var panicked: Option<Reason>
    var broadcastCh: seq<ShredData>
    ghost var log: seq<Act>

    constructor (limit: nat, cache: AlterKeyCache.AlterKey, noValidator: bool, tvu: Addr, extraAddrs: seq<Addr>,
                 extraFromOFROnly: bool)
      ensures Valid() && this.limit == limit && this.cache == cache && broadcastCh == []
      ensures View() == State(None, 0, Waiting, Reading, [])
    {
      this.limit, this.cache, this.noValidator, this.tvu := limit, cache, noValidator, tvu;
      this.extraAddrs, this.extraFromOFROnly := extraAddrs, extraFromOFROnly;
      ofrUDPAddr, noTrafficCounter, panicked, broadcastCh, log := None, 0, None, [], [];
    }

    /** Every queued shred has a length that its payload has. */
    predicate Valid()
      reads this`broadcastCh
    {
      forall d | d in broadcastCh :: 0 <= d.length <= UDP_SHRED_SIZE
    }

    /** The gateway between two turns of either goroutine. */
    ghost function View(): State
      reads this
    {
      State(ofrUDPAddr, noTrafficCounter, if panicked.Some? then Panicked(panicked.value) else Waiting, Reading, log)
    }

    /** Register clears the address, asks, and stores the answer only if there is one. */
    method Register(reply: Reply) returns (r: Result<Addr, RegError>)
      modifies this`ofrUDPAddr, this`log
      ensures reply.Granted? ==> r == Ok(reply.addr) && ofrUDPAddr == Some(reply.addr)
                                 && log == old(log) + [Begun, Succeeded(reply.addr)]
      ensures reply.Refused? ==> r == Err(reply.error) && ofrUDPAddr == None && log == old(log) + [Begun]
    {
      ofrUDPAddr := None;
      log := log + [Begun];
      if reply.Refused? {
        return Err(reply.error);
      }
      ofrUDPAddr := Some(reply.addr);
      log := log + [Succeeded(reply.addr)];
      return Ok(reply.addr);
    }

    /** The registration part of Start. replies are the answers the endpoint would give. */
    method Start(replies: seq<Reply>) returns (err: Option<RegError>, attempts: nat)
      requires |replies| == REGISTER_RETRY_COUNT
      modifies this`ofrUDPAddr, this`log
      ensures 1 <= attempts <= 3
      ensures forall i | 0 <= i < attempts - 1 :: replies[i] == Refused(OtherError)
      ensures attempts < 3 ==> replies[attempts - 1] != Refused(OtherError)
      ensures replies[attempts - 1].Granted? ==>
                err == None && ofrUDPAddr == Some(replies[attempts - 1].addr)
      ensures replies[attempts - 1].Refused? ==>
                err == Some(replies[attempts - 1].error) && ofrUDPAddr == None
      ensures err == None ==> Registered(log) == ofrUDPAddr
    {
      err, attempts := None, 0;
      while attempts < REGISTER_RETRY_COUNT
        invariant 0 <= attempts <= REGISTER_RETRY_COUNT
        invariant forall i | 0 <= i < attempts :: replies[i] == Refused(OtherError)
        invariant attempts > 0 ==> err == Some(replies[attempts - 1].error) && ofrUDPAddr == None
      {
        var r := Register(replies[attempts]);
        attempts := attempts + 1;
        match r {
          case Err(e) =>
            err := Some(e);
            if e.Fatal() {
              break;
            }
          case Ok(_) =>
            err := None;
            break;
        }
      }
    }

    /** One firing of the no-traffic ticker, from start to end. */
    method ReRegister(reply: Reply)
      requires panicked.None?
      modifies this`ofrUDPAddr, this`log, this`noTrafficCounter, this`panicked
      ensures View() == Run(limit, old(View()), [Tick, Answer(reply), Store, Add, Check])
      ensures reply.Granted? ==> ofrUDPAddr == Some(reply.addr)
      ensures reply.Granted? && -0x8000_0000 <= old(noTrafficCounter) < 0x7FFF_FFFF ==>
                noTrafficCounter == old(noTrafficCounter) + 1
      ensures reply.Refused? ==> ofrUDPAddr == None && noTrafficCounter == old(noTrafficCounter)
      ensures reply == Refused(OtherError) ==> panicked == None
      ensures reply == Refused(InvalidConfig) || reply == Refused(Unauthorized) ==>
                panicked == Some(FatalReply(reply.error))
    {
      ghost var s0 := View();
      var r := Register(reply);
      TurnUnfolds(limit, s0, reply);
      assert s0.log + [Begun] + (if reply.Granted? then [Succeeded(reply.addr)] else []) == log;
      if r.Err? {
        if r.error.Fatal() {
          panicked := Some(FatalReply(r.error));
        }
        return;
      }
      noTrafficCounter := Int32(noTrafficCounter + 1);
      log := log + [Counted];
      if Int32(limit) == 0 {
        panicked := Some(DivisionByZero);
      } else if Rem(noTrafficCounter, Int32(limit)) == 0 {
        panicked := Some(NoTraffic);
      }
    }

    /** One packet read from the server socket. */
    method ProcessShred(read: Read)
      requires Valid() && panicked.None?
      modifies this`noTrafficCounter, this`broadcastCh, this`log, cache
      ensures Valid()
      ensures read.ReadFailed? ==>
                View() == old(View()) && broadcastCh == old(broadcastCh) && cache.Contents() == old(cache.Contents())
      ensures read.Received? ==>
                View() == Run(limit, old(View()), [Packet(read.src), Compare, Accept])
      ensures read.Received? ==>
                var from := old(ofrUDPAddr).Some? && old(ofrUDPAddr).value.ip == read.src;
                noTrafficCounter == if from then 0 else old(noTrafficCounter)
      ensures |broadcastCh| > |old(broadcastCh)| ==> |broadcastCh| == |old(broadcastCh)| + 1 <= 100_000
      ensures |broadcastCh| == |old(broadcastCh)| && cache.Contents() != old(cache.Contents()) ==>
                |old(broadcastCh)| >= 100_000
      ensures read.Received? ==>
                var from := old(ofrUDPAddr).Some? && old(ofrUDPAddr).value.ip == read.src;
                var p := ParsePartial(read.payload, read.n);
                (cache.Contents(), broadcastCh) ==
                if from && p.Ok?
                then Offer(old(cache.Contents()), old(broadcastCh), CHANNEL_CAPACITY, Key64(p.value),
                           ShredData(read.payload, read.n, p.value, read.src))
                else (old(cache.Contents()), old(broadcastCh))
    {
      match read {
        case ReadFailed =>
        case Received(payload, n, src) =>
          PacketUnfolds(limit, View(), src);
          if ofrUDPAddr == None {
            return;
          }
          if src != ofrUDPAddr.value.ip {
            return;
          }
          log := log + [Matched(src)];
          noTrafficCounter := 0;
          log := log + [Accepted(src)];
          var parsed := ParsePartial(payload, n);
          if parsed.Err? {
            return;
          }
          var shred := parsed.value;
          var accepted := cache.Set(Key(shred.slot, shred.index, shred.variant.code));
          if !accepted {
            return;
          }
          if |broadcastCh| < CHANNEL_CAPACITY {
            broadcastCh := broadcastCh + [ShredData(payload, n, shred, src)];
          }
      }
    }

    /** Take one shred from the channel towards the node and write it out. */
    method BroadcastToNode() returns (writes: seq<Write>)
      requires Valid() && broadcastCh != []
      modifies this`broadcastCh
      ensures Valid()
      ensures broadcastCh == old(broadcastCh)[1..]
      ensures var data := old(broadcastCh)[0].payload[..old(broadcastCh)[0].length];
              var to := (if noValidator then [] else [tvu]) + extraAddrs;
              writes == seq(|to|, i requires 0 <= i < |to| => Write(data, to[i]))
    {
      var shred := broadcastCh[0];
      var data := shred.payload[..shred.length];
      broadcastCh := broadcastCh[1..];
      writes := [];
      if !noValidator {
        writes := writes + [Write(data, tvu)];
      }
      ghost var first := |writes|;
      for i := 0 to |extraAddrs|
        invariant |writes| == first + i
        invariant first == 1 ==> writes[0] == Write(data, tvu)
        invariant forall j | 0 <= j < i :: writes[first + j] == Write(data, extraAddrs[j])
      {
        writes := writes + [Write(data, extraAddrs[i])];
      }
    }

    /** Write one shred from the node side to OFR; nothing goes out before registration. */
    method BroadcastToOFR(payload: Payload, length: nat) returns (writes: seq<Write>)
      requires length <= UDP_SHRED_SIZE
      ensures ofrUDPAddr == None ==> writes == []
      ensures ofrUDPAddr.Some? ==>
                var to := [ofrUDPAddr.value] + (if extraFromOFROnly then [] else extraAddrs);
                writes == seq(|to|, i requires 0 <= i < |to| => Write(payload[..length], to[i]))
    {
      var addr := ofrUDPAddr;
      if addr == None {
        return [];
      }
      writes := [Write(payload[..length], addr.value)];
      if !extraFromOFROnly {
        for i := 0 to |extraAddrs|
          invariant |writes| == 1 + i
          invariant writes[0] == Write(payload[..length], addr.value)
          invariant forall j | 0 <= j < i :: writes[1 + j] == Write(payload[..length], extraAddrs[j])
        {
          writes := writes + [Write(payload[..length], extraAddrs[i])];
        }
      }
    }
  }

  lemma TurnUnfolds(limit: nat, s: State, reply: Reply)
    ensures Run(limit, s, [Tick, Answer(reply), Store, Add, Check]) ==
            Step(limit, Step(limit, Step(limit, Step(limit, Step(limit, s, Tick), Answer(reply)), Store), Add), Check)
  {
    var s1 := Step(limit, s, Tick);
    var s2 := Step(limit, s1, Answer(reply));
    var s3 := Step(limit, s2, Store);
    RunUnfolds(limit, s, Tick, [Answer(reply), Store, Add, Check]);
    RunUnfolds(limit, s1, Answer(reply), [Store, Add, Check]);
    RunUnfolds(limit, s2, Store, [Add, Check]);
    RunUnfolds(limit, s3, Add, [Check]);
    RunUnfolds(limit, Step(limit, s3, Add), Check, []);
  }

  lemma PacketUnfolds(limit: nat, s: State, ip: U32)
    ensures Run(limit, s, [Packet(ip), Compare, Accept]) ==
            Step(limit, Step(limit, Step(limit, s, Packet(ip)), Compare), Accept)
  {
    var s1 := Step(limit, s, Packet(ip));
    RunUnfolds(limit, s, Packet(ip), [Compare, Accept]);
    RunUnfolds(limit, s1, Compare, [Accept]);
    RunUnfolds(limit, Step(limit, s1, Compare), Accept, []);
  }
}
