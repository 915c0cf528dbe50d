/**
 The sniffer registry and the Turbine-side forwarder (netlisten.go): two maps that have to agree, from
 capture handle to port and from port to capture handle.
 */
module Registry {
  import opened Wrappers
  import opened Bits
  import opened Shreds
  import opened Decimals
  import opened AlterKeyCache
  import opened Forwarding

  datatype PortData = PortData(outgoing: bool, dynamic: bool, port: U16)

  /** The text of a port, the key of portHandleMap. */
  function PortText(outgoing: bool, port: U16): string {
    (if outgoing then "out" else "in") + " port " + Decimal(port)
  }

  function Dir(outgoing: bool): string { if outgoing then "src" else "dst" }

  function FilterHead(outgoing: bool): (p: string)
    ensures |p| == 17 && p[8] == if outgoing then 's' else 'd'
  {
    "udp and " + Dir(outgoing) + " port "
  }

  function FilterTail(host: string, outgoing: bool): (x: string)
    ensures NoDigitFirst(x)
  {
    " and " + Dir(outgoing) + " host " + host
  }

  /** The filter expression that names a capture handle, the key of listenPorts. */
  function HandleName(host: string, outgoing: bool, port: U16): string {
    FilterHead(outgoing) + (Decimal(port) + FilterTail(host, outgoing))
  }

  function TextOf(pd: PortData): string { PortText(pd.outgoing, pd.port) }

  function NameOf(host: string, pd: PortData): string { HandleName(host, pd.outgoing, pd.port) }

  predicate SamePort(a: PortData, b: PortData) { a.outgoing == b.outgoing && a.port == b.port }

  /** What the two kinds of key look like. */
  lemma KeyTexts(host: string, pd: PortData)
    ensures pd.outgoing ==>
              && TextOf(pd) == "out port " + Decimal(pd.port)
              && NameOf(host, pd) == "udp and src port " + Decimal(pd.port) + " and src host " + host
    ensures !pd.outgoing ==>
              && TextOf(pd) == "in port " + Decimal(pd.port)
              && NameOf(host, pd) == "udp and dst port " + Decimal(pd.port) + " and dst host " + host
  {
    var d := Dir(pd.outgoing);
    assert NameOf(host, pd) == "udp and " + d + " port " + Decimal(pd.port) + (" and " + d + " host " + host);
    assert "udp and " + "src" + " port " == "udp and src port ";
    assert "udp and " + "dst" + " port " == "udp and dst port ";
    assert " and " + "src" + " host " == " and src host ";
    assert " and " + "dst" + " host " == " and dst host ";
  }

  /** Both kinds of key tell ports and directions apart. */
  lemma KeysInjective(host: string, a: PortData, b: PortData)
    ensures TextOf(a) == TextOf(b) <==> SamePort(a, b)
    ensures NameOf(host, a) == NameOf(host, b) <==> SamePort(a, b)
  {
    if TextOf(a) == TextOf(b) {
      TextInjective(a, b);
    }
    if NameOf(host, a) == NameOf(host, b) {
      NameInjective(host, a, b);
    }
  }

  lemma TextInjective(a: PortData, b: PortData)
    requires TextOf(a) == TextOf(b)
    ensures SamePort(a, b)
  {
    assert TextOf(a)[0] == (if a.outgoing then 'o' else 'i');
    assert TextOf(b)[0] == (if b.outgoing then 'o' else 'i');
    var n := if a.outgoing then 9 else 8;
    assert TextOf(a)[n..] == Decimal(a.port) && TextOf(b)[n..] == Decimal(b.port);
    ValueOfDecimal(a.port);
    ValueOfDecimal(b.port);
  }

  lemma SameHeads(p: string, x: string, q: string, y: string)
    requires p + x == q + y && |p| == |q|
    ensures p == q && x == y
  {
    assert p == (p + x)[..|p|] && x == (p + x)[|p|..];
    assert q == (q + y)[..|q|] && y == (q + y)[|q|..];
  }

  lemma NameInjective(host: string, a: PortData, b: PortData)
    requires NameOf(host, a) == NameOf(host, b)
    ensures SamePort(a, b)
  {
    var x, y := FilterTail(host, a.outgoing), FilterTail(host, b.outgoing);
    SameHeads(FilterHead(a.outgoing), Decimal(a.port) + x, FilterHead(b.outgoing), Decimal(b.port) + y);
    DecimalThenText(a.port, x, b.port, y);
  }

  /** A registered port and whether its capture handle is there; none means closed. */
  datatype Entry = Entry(pd: PortData, open: bool)

  /** A forwarded packet; at is the number of the event that brought it. */
  datatype Out = Out(at: nat, name: string, payload: Payload, length: int, shred: PartialShred)

  /** live is the set of handle names whose sniffer is running. */
  datatype Net = Net(
    listenPorts: map<string, PortData>,
    portHandleMap: map<string, Entry>,
    live: set<string>,
    cache: Generations,
    out: seq<Out>,
    clock: nat)

  const NO_PORTS := Net(map[], map[], {}, EMPTY, [], 0)

  /** ok says whether a capture handle could be created. */
  datatype Event =
    | Register(outgoing: bool, port: U16, ok: bool)
    | Discover(port: U16, ok: bool)
    | Exit(name: string)
    | Stop(name: string)
    | Packet(name: string, payload: Payload, length: int, full: bool)
    | Reopen(key: string, ok: bool)
    | Outside(cache: Generations)

  /** registerNewSniffer. */
  function Opened(host: string, s: Net, pd: PortData, ok: bool): Net {
    if !ok then s
    else s.(listenPorts := s.listenPorts[NameOf(host, pd) := pd],
            portHandleMap := s.portHandleMap[TextOf(pd) := Entry(pd, true)],
            live := s.live + {NameOf(host, pd)})
  }

  function Closed(host: string, s: Net, pd: PortData): Net {
    s.(listenPorts := s.listenPorts - {NameOf(host, pd)},
       portHandleMap := s.portHandleMap[TextOf(pd) := Entry(pd, false)],
       live := s.live - {NameOf(host, pd)})
  }

  function Removed(host: string, s: Net, pd: PortData): Net {
    s.(listenPorts := s.listenPorts - {NameOf(host, pd)},
       portHandleMap := s.portHandleMap - {TextOf(pd)},
       live := s.live - {NameOf(host, pd)})
  }

  function Forwarded(s: Net, e: Event, shred: PartialShred): Net
    requires e.Packet?
  {
    var (cache, out) := Offer(s.cache, s.out, if e.full then |s.out| else |s.out| + 1, Key64(shred),
                              Out(s.clock, e.name, e.payload, e.length, shred));
    s.(cache := cache, out := out)
  }

  function Effect(host: string, s: Net, e: Event): Net {
    match e
    case Register(outgoing, port, ok) =>
      var pd := PortData(outgoing, false, port);
      if TextOf(pd) in s.portHandleMap && s.portHandleMap[TextOf(pd)].pd.dynamic then s
      else Opened(host, s, pd, ok)
    case Discover(port, ok) =>
      var pd := PortData(false, true, port);
      if TextOf(pd) in s.portHandleMap then s else Opened(host, s, pd, ok)
    case Exit(name) =>
      if name in s.live && name in s.listenPorts && s.listenPorts[name].dynamic
      then s.(listenPorts := s.listenPorts - {name},
              portHandleMap := s.portHandleMap - {TextOf(s.listenPorts[name])},
              live := s.live - {name})
      else s
    case Stop(name) =>
      if name in s.listenPorts && s.listenPorts[name].dynamic then s else s.(live := s.live - {name})
    case Packet(name, payload, length, full) =>
      if name !in s.listenPorts then s
      else
        (match ParsePartial(payload, length)
         case Err(_) =>
           var pd := s.listenPorts[name];
           if pd.outgoing
           then s.(listenPorts := s.listenPorts - {name},
                   portHandleMap := s.portHandleMap[TextOf(pd) := Entry(pd, false)],
                   live := s.live - {name})
           else s
         case Ok(shred) => Forwarded(s, e, shred))
    case Reopen(key, ok) =>
      if key in s.portHandleMap && !s.portHandleMap[key].open
      then Opened(host, s, s.portHandleMap[key].pd, ok)
      else s
    case Outside(cache) => s.(cache := cache)
  }

  function Step(host: string, s: Net, e: Event): Net {
    Effect(host, s, e).(clock := s.clock + 1)
  }

  function Run(host: string, s: Net, es: seq<Event>): Net {
    if es == [] then s else Step(host, Run(host, s, es[..|es| - 1]), es[|es| - 1])
  }

  // Agreement

  /** Every name that is listened on has an open entry with the same port data. */
  ghost predicate Handled(host: string, s: Net) {
    forall n | n in s.listenPorts ::
      var pd := s.listenPorts[n];
      n == NameOf(host, pd) && TextOf(pd) in s.portHandleMap && s.portHandleMap[TextOf(pd)] == Entry(pd, true)
  }

  /** The name of an entry is listened on exactly when the entry is open, with the same port data; only
      outgoing ports are closed; dynamic ports are not outgoing. */
  ghost predicate Listed(host: string, s: Net) {
    forall k | k in s.portHandleMap ::
      var en := s.portHandleMap[k];
      && k == TextOf(en.pd)
      && (en.pd.dynamic ==> !en.pd.outgoing)
      && (!en.open ==> en.pd.outgoing)
      && (en.open <==> NameOf(host, en.pd) in s.listenPorts)
      && (en.open ==> s.listenPorts[NameOf(host, en.pd)] == en.pd)
  }

  /** A name is listened on exactly when the port map holds a handle for the same port data. */
  ghost predicate Agree(host: string, s: Net) { Handled(host, s) && Listed(host, s) }

  /** Running sniffers are registered, and registered dynamic sniffers are running. */
  ghost predicate Attended(s: Net) {
    && s.live <= s.listenPorts.Keys
    && forall n | n in s.listenPorts && s.listenPorts[n].dynamic :: n in s.live
  }

  ghost predicate Inv(host: string, s: Net) {
    Agree(host, s) && Attended(s)
  }

  lemma OpenedKeepsHandled(host: string, s: Net, pd: PortData, ok: bool)
    requires Agree(host, s)
    ensures Handled(host, Opened(host, s, pd, ok))
  {
    OnlyEntries(host, s, pd);
  }

  lemma OpenedKeepsListed(host: string, s: Net, pd: PortData, ok: bool)
    requires Agree(host, s) && (pd.dynamic ==> !pd.outgoing)
    ensures Listed(host, Opened(host, s, pd, ok))
  {
    OnlyEntries(host, s, pd);
  }

  lemma OpenedKeepsInv(host: string, s: Net, pd: PortData, ok: bool)
    requires Inv(host, s) && (pd.dynamic ==> !pd.outgoing)
    ensures Inv(host, Opened(host, s, pd, ok))
  {
    OpenedKeepsHandled(host, s, pd, ok);
    OpenedKeepsListed(host, s, pd, ok);
  }

  /** The only entries that name the port of pd are its own. */
  lemma OnlyEntries(host: string, s: Net, pd: PortData)
    requires Agree(host, s)
    ensures forall n | n in s.listenPorts :: n == NameOf(host, pd) <==> TextOf(s.listenPorts[n]) == TextOf(pd)
    ensures forall k | k in s.portHandleMap ::
              k == TextOf(pd) <==> NameOf(host, s.portHandleMap[k].pd) == NameOf(host, pd)
  {
    forall n | n in s.listenPorts ensures n == NameOf(host, pd) <==> TextOf(s.listenPorts[n]) == TextOf(pd) {
      KeysInjective(host, pd, s.listenPorts[n]);
    }
    forall k | k in s.portHandleMap
      ensures k == TextOf(pd) <==> NameOf(host, s.portHandleMap[k].pd) == NameOf(host, pd)
    {
      KeysInjective(host, pd, s.portHandleMap[k].pd);
    }
  }

  lemma ClosedKeepsInv(host: string, s: Net, pd: PortData)
    requires Inv(host, s) && NameOf(host, pd) in s.listenPorts && s.listenPorts[NameOf(host, pd)] == pd
    requires pd.outgoing
    ensures Inv(host, Closed(host, s, pd))
  {
    OnlyEntries(host, s, pd);
  }

  lemma RemovedKeepsHandled(host: string, s: Net, pd: PortData)
    requires Agree(host, s)
    ensures Handled(host, Removed(host, s, pd))
  {
    OnlyEntries(host, s, pd);
  }

  lemma RemovedKeepsListed(host: string, s: Net, pd: PortData)
    requires Agree(host, s)
    ensures Listed(host, Removed(host, s, pd))
  {
    OnlyEntries(host, s, pd);
  }

  lemma RemovedKeepsInv(host: string, s: Net, pd: PortData)
    requires Inv(host, s)
    ensures Inv(host, Removed(host, s, pd))
  {
    RemovedKeepsHandled(host, s, pd);
    RemovedKeepsListed(host, s, pd);
  }

  lemma PacketKeepsInv(host: string, s: Net, e: Event)
    requires Inv(host, s) && e.Packet?
    ensures Inv(host, Effect(host, s, e))
  {
    if e.name in s.listenPorts && s.listenPorts[e.name].outgoing {
      ClosedKeepsInv(host, s, s.listenPorts[e.name]);
    }
  }

  lemma ExitKeepsInv(host: string, s: Net, name: string)
    requires Inv(host, s)
    ensures Inv(host, Effect(host, s, Exit(name)))
  {
    if name in s.listenPorts { RemovedKeepsInv(host, s, s.listenPorts[name]); }
  }

  lemma ReopenKeepsInv(host: string, s: Net, key: string, ok: bool)
    requires Inv(host, s)
    ensures Inv(host, Effect(host, s, Reopen(key, ok)))
  {
    if key in s.portHandleMap { OpenedKeepsInv(host, s, s.portHandleMap[key].pd, ok); }
  }

  lemma RegisterKeepsInv(host: string, s: Net, e: Event)
    requires Inv(host, s) && (e.Register? || e.Discover?)
    ensures Inv(host, Effect(host, s, e))
  {
    OpenedKeepsInv(host, s, if e.Register? then PortData(e.outgoing, false, e.port) else PortData(false, true, e.port),
                   e.ok);
  }

  lemma EffectKeepsInv(host: string, s: Net, e: Event)
    requires Inv(host, s)
    ensures Inv(host, Effect(host, s, e))
  {
    match e {
      case Register(_, _, _) => RegisterKeepsInv(host, s, e);
      case Discover(_, _) => RegisterKeepsInv(host, s, e);
      case Exit(name) => ExitKeepsInv(host, s, name);
      case Packet(_, _, _, _) => PacketKeepsInv(host, s, e);
      case Reopen(key, ok) => ReopenKeepsInv(host, s, key, ok);
      case Stop(name) => StopKeepsInv(host, s, name);
      case Outside(_) =>
    }
  }

  lemma StopKeepsInv(host: string, s: Net, name: string)
    requires Inv(host, s)
    ensures Inv(host, Effect(host, s, Stop(name)))
  {
  }

  lemma StepKeepsInv(host: string, s: Net, e: Event)
    requires Inv(host, s)
    ensures Inv(host, Step(host, s, e))
  {
    EffectKeepsInv(host, s, e);
  }

  lemma {:induction false} RunKeepsInv(host: string, s: Net, es: seq<Event>)
    requires Inv(host, s)
    ensures Inv(host, Run(host, s, es))
  {
    if es != [] {
      RunKeepsInv(host, s, es[..|es| - 1]);
      StepKeepsInv(host, Run(host, s, es[..|es| - 1]), es[|es| - 1]);
    }
  }

  /** In every reachable state the two maps agree, only outgoing ports are closed, dynamic ports are
      never outgoing and always have a running sniffer. */
  lemma RegistryAgreement(host: string, es: seq<Event>)
    ensures Agree(host, Run(host, NO_PORTS, es)) && Attended(Run(host, NO_PORTS, es))
  {
    RunKeepsInv(host, NO_PORTS, es);
  }

  // What the events do to their own port, and that they leave the others alone

  /** A registration that succeeds puts the port into both maps with a running sniffer; one that does not changes
      nothing. */
  lemma RegisteredPort(host: string, s: Net, pd: PortData, ok: bool)
    requires pd.dynamic ==> !pd.outgoing && TextOf(pd) !in s.portHandleMap
    requires !pd.dynamic && TextOf(pd) in s.portHandleMap ==> !s.portHandleMap[TextOf(pd)].pd.dynamic
    ensures var e := if pd.dynamic then Discover(pd.port, ok) else Register(pd.outgoing, pd.port, ok);
            var t := Effect(host, s, e);
            if !ok then t == s
            else
              && NameOf(host, pd) in t.listenPorts && t.listenPorts[NameOf(host, pd)] == pd
              && TextOf(pd) in t.portHandleMap && t.portHandleMap[TextOf(pd)] == Entry(pd, true)
              && NameOf(host, pd) in t.live
  {
  }

  /** When the sniffer of a dynamic port returns, the port is forgotten. */
  lemma ExitForgets(host: string, s: Net, pd: PortData)
    requires Inv(host, s) && pd.dynamic && NameOf(host, pd) in s.listenPorts && s.listenPorts[NameOf(host, pd)] == pd
    ensures var t := Effect(host, s, Exit(NameOf(host, pd)));
            && NameOf(host, pd) !in t.listenPorts && TextOf(pd) !in t.portHandleMap && NameOf(host, pd) !in t.live
  {
  }

  /** A packet changes nothing when its handle is not registered, or when it does not parse and came in; one that
      does not parse and went out closes its port; one that parses closes nothing. */
  lemma PacketOutcome(host: string, s: Net, e: Event)
    requires e.Packet?
    ensures e.name !in s.listenPorts ==> Effect(host, s, e) == s
    ensures e.name in s.listenPorts && ParsePartial(e.payload, e.length).Err? ==>
              var t, pd := Effect(host, s, e), s.listenPorts[e.name];
              if !pd.outgoing then t == s
              else
                && e.name !in t.listenPorts && e.name !in t.live
                && TextOf(pd) in t.portHandleMap && t.portHandleMap[TextOf(pd)] == Entry(pd, false)
                && t.cache == s.cache && t.out == s.out
    ensures ParsePartial(e.payload, e.length).Ok? ==>
              var t := Effect(host, s, e);
              t.listenPorts == s.listenPorts && t.portHandleMap == s.portHandleMap && t.live == s.live
    ensures e.name in s.listenPorts && ParsePartial(e.payload, e.length).Ok? ==>
              Effect(host, s, e).cache == Insert(s.cache, Key64(ParsePartial(e.payload, e.length).value))
  {
  }

  /** A sniffer that stops by itself is no longer running; if it is dynamic, its exit sees to the rest. */
  lemma StopOutcome(host: string, s: Net, name: string)
    ensures var t := Effect(host, s, Stop(name));
            && t.listenPorts == s.listenPorts && t.portHandleMap == s.portHandleMap
            && t.live == if name in s.listenPorts && s.listenPorts[name].dynamic then s.live else s.live - {name}
  {
  }

  /** The event is about this port. */
  predicate Concerns(host: string, e: Event, pd: PortData) {
    Registers(e, pd) || ((e.Exit? || e.Stop? || e.Packet?) && e.name == NameOf(host, pd))
  }

  /** A port has the same entry, the same listing and the same sniffer before and after. */
  ghost predicate SameFor(host: string, s: Net, t: Net, pd: PortData) {
    && (TextOf(pd) in s.portHandleMap <==> TextOf(pd) in t.portHandleMap)
    && (TextOf(pd) in s.portHandleMap ==> s.portHandleMap[TextOf(pd)] == t.portHandleMap[TextOf(pd)])
    && (NameOf(host, pd) in s.listenPorts <==> NameOf(host, pd) in t.listenPorts)
    && (NameOf(host, pd) in s.listenPorts ==> s.listenPorts[NameOf(host, pd)] == t.listenPorts[NameOf(host, pd)])
    && (NameOf(host, pd) in s.live <==> NameOf(host, pd) in t.live)
  }

  lemma OpenedOther(host: string, s: Net, q: PortData, ok: bool, pd: PortData)
    requires !SamePort(pd, q)
    ensures SameFor(host, s, Opened(host, s, q, ok), pd)
  {
    KeysInjective(host, pd, q);
  }

  lemma ExitOther(host: string, s: Net, name: string, pd: PortData)
    requires Inv(host, s) && name != NameOf(host, pd)
    ensures SameFor(host, s, Effect(host, s, Exit(name)), pd)
  {
    if name in s.listenPorts { KeysInjective(host, pd, s.listenPorts[name]); }
  }

  lemma PacketOther(host: string, s: Net, e: Event, pd: PortData)
    requires Inv(host, s) && e.Packet? && e.name != NameOf(host, pd)
    ensures SameFor(host, s, Effect(host, s, e), pd)
  {
    PacketOutcome(host, s, e);
    if e.name in s.listenPorts { KeysInjective(host, pd, s.listenPorts[e.name]); }
  }

  /** No event touches a port it is not about. */
  lemma OtherPortsUntouched(host: string, s: Net, e: Event, pd: PortData)
    requires Inv(host, s) && !Concerns(host, e, pd)
    ensures SameFor(host, s, Effect(host, s, e), pd)
  {
    match e {
      case Register(outgoing, port, ok) => OpenedOther(host, s, PortData(outgoing, false, port), ok, pd);
      case Discover(port, ok) => OpenedOther(host, s, PortData(false, true, port), ok, pd);
      case Reopen(key, ok) =>
        if key in s.portHandleMap && !s.portHandleMap[key].open {
          KeysInjective(host, pd, s.portHandleMap[key].pd);
          OpenedOther(host, s, s.portHandleMap[key].pd, ok, pd);
        }
      case Outside(_) =>
      case Exit(name) => ExitOther(host, s, name, pd);
      case Stop(name) => StopOutcome(host, s, name);
      case Packet(_, _, _, _) => PacketOther(host, s, e, pd);
    }
  }

  // Closed ports

  /** The event is about registering this port. */
  predicate Registers(e: Event, pd: PortData) {
    match e
    case Register(outgoing, port, _) => outgoing == pd.outgoing && port == pd.port
    case Discover(port, _) => !pd.outgoing && port == pd.port
    case Reopen(key, _) => key == TextOf(pd)
    case _ => false
  }

  lemma NotRegistered(host: string, s: Net, e: Event, pd: PortData)
    requires Inv(host, s) && !Registers(e, pd) && NameOf(host, pd) !in s.listenPorts
    ensures NameOf(host, pd) !in Step(host, s, e).listenPorts
  {
    match e {
      case Register(outgoing, port, _) => KeysInjective(host, pd, PortData(outgoing, false, port));
      case Discover(port, _) => KeysInjective(host, pd, PortData(false, true, port));
      case Reopen(key, _) =>
        if key in s.portHandleMap { KeysInjective(host, pd, s.portHandleMap[key].pd); }
      case _ =>
    }
  }

  lemma {:induction false} SilentWhileUnregistered(host: string, s: Net, es: seq<Event>, pd: PortData)
    requires Inv(host, s) && NameOf(host, pd) !in s.listenPorts
    requires forall e | e in es :: !Registers(e, pd)
    ensures var t := Run(host, s, es);
            && NameOf(host, pd) !in t.listenPorts
            && s.out <= t.out && forall k | |s.out| <= k < |t.out| :: t.out[k].name != NameOf(host, pd)
  {
    if es != [] {
      var init := es[..|es| - 1];
      SilentWhileUnregistered(host, s, init, pd);
      RunKeepsInv(host, s, init);
      var t := Run(host, s, init);
      var u := Run(host, s, es);
      NotRegistered(host, t, es[|es| - 1], pd);
      OutputGrows(host, t, es[|es| - 1]);
      if u.out != t.out {
        assert u.out == t.out + [u.out[|t.out|]];
      }
    }
  }

  /** A packet that does not parse closes its outgoing port, and from then on nothing with that handle
      name is forwarded before an event that registers the port again. */
  lemma ClosedPortSilence(host: string, s: Net, bad: Event, es: seq<Event>, pd: PortData)
    requires Inv(host, s) && pd.outgoing && bad.Packet? && bad.name == NameOf(host, pd)
    requires ParsePartial(bad.payload, bad.length).Err?
    requires NameOf(host, pd) in s.listenPorts && forall e | e in es :: !Registers(e, pd)
    ensures var t := Step(host, s, bad);
            var u := Run(host, t, es);
            && TextOf(pd) in t.portHandleMap && !t.portHandleMap[TextOf(pd)].open
            && t.out == s.out && s.out <= u.out
            && forall k | |s.out| <= k < |u.out| :: u.out[k].name != NameOf(host, pd)
  {
    KeysInjective(host, pd, s.listenPorts[NameOf(host, pd)]);
    StepKeepsInv(host, s, bad);
    SilentWhileUnregistered(host, Step(host, s, bad), es, pd);
  }

  // Sniffers that stop by themselves

  predicate BadPacket(e: Event, name: string) {
    e.Packet? && e.name == name && ParsePartial(e.payload, e.length).Err?
  }

  /** An outgoing sniffer that stops by itself, at end of file or for too many invalid packets, stays
      registered as open; no later silence reopens it, only a packet already under way that does not parse
      can close it. */
  lemma {:induction false} StoppedStaysOpen(host: string, s: Net, es: seq<Event>, pd: PortData)
    requires Inv(host, s) && pd.outgoing && NameOf(host, pd) in s.listenPorts && NameOf(host, pd) !in s.live
    requires forall e | e in es :: !BadPacket(e, NameOf(host, pd)) && !(e.Register? && Registers(e, pd))
    ensures var t := Run(host, s, es);
            && NameOf(host, pd) in t.listenPorts && NameOf(host, pd) !in t.live
            && t.listenPorts[NameOf(host, pd)] == s.listenPorts[NameOf(host, pd)]
  {
    if es != [] {
      var init := es[..|es| - 1];
      StoppedStaysOpen(host, s, init, pd);
      RunKeepsInv(host, s, init);
      UntouchedByStep(host, Run(host, s, init), es[|es| - 1], pd);
    }
  }

  lemma UntouchedByStep(host: string, s: Net, e: Event, pd: PortData)
    requires Inv(host, s) && pd.outgoing && NameOf(host, pd) in s.listenPorts && NameOf(host, pd) !in s.live
    requires !BadPacket(e, NameOf(host, pd)) && !(e.Register? && Registers(e, pd))
    ensures var t := Step(host, s, e);
            && NameOf(host, pd) in t.listenPorts && NameOf(host, pd) !in t.live
            && t.listenPorts[NameOf(host, pd)] == s.listenPorts[NameOf(host, pd)]
  {
    KeysInjective(host, pd, s.listenPorts[NameOf(host, pd)]);
    match e {
      case Register(outgoing, port, _) => KeysInjective(host, pd, PortData(outgoing, false, port));
      case Discover(port, _) => KeysInjective(host, pd, PortData(false, true, port));
      case Reopen(key, _) =>
        if key in s.portHandleMap { KeysInjective(host, pd, s.portHandleMap[key].pd); }
      case _ =>
    }
  }

  // The output

  lemma OutputGrows(host: string, s: Net, e: Event)
    ensures var t := Step(host, s, e);
            t.out == s.out ||
            (&& |t.out| == |s.out| + 1 && t.out[..|s.out|] == s.out
             && var o := t.out[|s.out|];
                && e == Packet(o.name, o.payload, o.length, false) && o.at == s.clock
                && ParsePartial(o.payload, o.length) == Ok(o.shred)
                && o.name in s.listenPorts)
  {
  }

  /** The forwarded packet is packet number at of the run, with the fields its payload parses to. */
  predicate CameFrom(o: Out, es: seq<Event>) {
    && o.at < |es|
    && es[o.at] == Packet(o.name, o.payload, o.length, false)
    && ParsePartial(o.payload, o.length) == Ok(o.shred)
  }

  predicate Selection(out: seq<Out>, es: seq<Event>) {
    && (forall k | 0 <= k < |out| :: CameFrom(out[k], es))
    && (forall k | 0 < k < |out| :: out[k - 1].at < out[k].at)
  }

  lemma LongerRun(out: seq<Out>, es: seq<Event>, e: Event)
    requires Selection(out, es)
    ensures Selection(out, es + [e])
  {
    forall k | 0 <= k < |out|
      ensures CameFrom(out[k], es + [e])
    {
      assert CameFrom(out[k], es);
    }
  }

  lemma OneMore(out: seq<Out>, es: seq<Event>, o: Out)
    requires Selection(out, es) && CameFrom(o, es) && forall k | 0 <= k < |out| :: out[k].at < o.at
    ensures Selection(out + [o], es)
  {
  }

  /** What is forwarded is an in-order selection of the packets that came in, each with the fields its
      own payload parses to, and none while its channel was full. */
  lemma {:induction false} OutputIsSelection(host: string, s: Net, es: seq<Event>)
    requires s.out == [] && s.clock == 0
    ensures Run(host, s, es).clock == |es| && Selection(Run(host, s, es).out, es)
  {
    if es != [] {
      var init, e := es[..|es| - 1], es[|es| - 1];
      OutputIsSelection(host, s, init);
      var t := Run(host, s, init);
      OutputGrows(host, t, e);
      LongerRun(t.out, init, e);
      assert init + [e] == es;
      var u := Step(host, t, e);
      if u.out != t.out {
        forall k | 0 <= k < |t.out| ensures t.out[k].at < t.clock { assert CameFrom(t.out[k], init); }
        OneMore(t.out, es, u.out[|t.out|]);
        assert u.out == t.out + [u.out[|t.out|]];
      }
    }
  }

  /** The event is a packet on a registered handle that parses, is new to the cache and finds room. */
  predicate Admits(s: Net, e: Event) {
    && e.Packet? && !e.full && e.name in s.listenPorts
    && var parsed := ParsePartial(e.payload, e.length);
       parsed.Ok? && !s.cache.Has(Key64(parsed.value))
  }

  predicate SentAt(out: seq<Out>, k: nat) { exists j | 0 <= j < |out| :: out[j].at == k }

  lemma SentSnoc(out: seq<Out>, o: Out, k: nat)
    ensures SentAt(out + [o], k) <==> SentAt(out, k) || o.at == k
  {
    var r := out + [o];
    assert r[|out|] == o;
    assert forall j | 0 <= j < |out| :: r[j] == out[j];
  }

  lemma SentByStep(host: string, s: Net, e: Event, k: nat)
    ensures SentAt(Step(host, s, e).out, k) <==> SentAt(s.out, k) || (k == s.clock && Admits(s, e))
  {
    if Admits(s, e) {
      var shred := ParsePartial(e.payload, e.length).value;
      var o := Out(s.clock, e.name, e.payload, e.length, shred);
      assert Step(host, s, e).out == s.out + [o];
      SentSnoc(s.out, o, k);
    } else {
      assert Step(host, s, e).out == s.out;
    }
  }

  lemma NotSentYet(out: seq<Out>, es: seq<Event>)
    requires Selection(out, es)
    ensures !SentAt(out, |es|)
  {
    assert forall j | 0 <= j < |out| :: CameFrom(out[j], es);
  }

  lemma SentInRun(host: string, s: Net, es: seq<Event>, e: Event, k: nat)
    requires s.out == [] && s.clock == 0
    ensures SentAt(Run(host, s, es + [e]).out, k) <==>
              if k == |es| then Admits(Run(host, s, es), e) else SentAt(Run(host, s, es).out, k)
  {
    var t := Run(host, s, es);
    assert (es + [e])[..|es|] == es;
    OutputIsSelection(host, s, es);
    NotSentYet(t.out, es);
    SentByStep(host, t, e, k);
  }

  /** Nothing else decides what is forwarded: over every run, a packet goes out exactly when at that moment
      its handle is registered, it parses, its key is not in the cache and the channel has room. */
  lemma {:induction false} ForwardedExactly(host: string, s: Net, es: seq<Event>, k: nat)
    requires s.out == [] && s.clock == 0 && k < |es|
    ensures SentAt(Run(host, s, es).out, k) <==> Admits(Run(host, s, es[..k]), es[k])
  {
    var init, e := es[..|es| - 1], es[|es| - 1];
    assert es == init + [e];
    SentInRun(host, s, init, e, k);
    if k < |init| {
      ForwardedExactly(host, s, init, k);
      assert init[..k] == es[..k];
    }
  }

  /** Every forwarded packet has a length that its payload has. */
  lemma ForwardedLength(host: string, s: Net, es: seq<Event>, k: nat)
    requires s.out == [] && s.clock == 0 && k < |Run(host, s, es).out|
    ensures 0 <= Run(host, s, es).out[k].length <= UDP_SHRED_SIZE
  {
    OutputIsSelection(host, s, es);
    assert CameFrom(Run(host, s, es).out[k], es);
  }
}
