/**
 The network listener object (netlisten.go): each method does to the two maps what the events of module
 Registry do.
 */
module NetListen {
  import opened Wrappers
  import opened Bits
  import opened Shreds
  import opened Registry
  import AlterKeyCache
  import opened Forwarding

  /** The ports of a discovery that have no entry yet. */
  function Unknown(known: map<string, Entry>, ports: seq<U16>): seq<U16> {
    if ports == [] then []
    else
      var p := ports[|ports| - 1];
      Unknown(known, ports[..|ports| - 1]) + (if PortText(false, p) in known then [] else [p])
  }

  /** One discovery event after the other. */
  function DiscoverAll(host: string, s: Net, ports: seq<U16>, ok: set<U16>): Net {
    if ports == [] then s
    else
      var p := ports[|ports| - 1];
      Effect(host, DiscoverAll(host, s, ports[..|ports| - 1], ok), Discover(p, p in ok))
  }

  function OpenAll(host: string, s: Net, ports: seq<U16>, ok: set<U16>): Net {
    if ports == [] then s
    else
      var p := ports[|ports| - 1];
      Opened(host, OpenAll(host, s, ports[..|ports| - 1], ok), PortData(false, true, p), p in ok)
  }

  function ReopenAll(host: string, s: Net, keys: seq<string>, ok: set<string>): Net {
    if keys == [] then s
    else
      var k := keys[|keys| - 1];
      Effect(host, ReopenAll(host, s, keys[..|keys| - 1], ok), Reopen(k, k in ok))
  }

  function RegisterAll(host: string, s: Net, outgoing: bool, ports: seq<U16>): Net {
    if ports == [] then s
    else Effect(host, RegisterAll(host, s, outgoing, ports[..|ports| - 1]),
                Register(outgoing, ports[|ports| - 1], true))
  }

  ghost predicate Distinct<T>(s: seq<T>) {
    forall i, j | 0 <= i < j < |s| :: s[i] != s[j]
  }

  /** Discovering other ports does not make a port known. */
  lemma {:induction false} StillUnknown(host: string, s: Net, ports: seq<U16>, ok: set<U16>, p: U16)
    requires p !in ports
    ensures PortText(false, p) in DiscoverAll(host, s, ports, ok).portHandleMap <==>
            PortText(false, p) in s.portHandleMap
  {
    if ports != [] {
      var q := ports[|ports| - 1];
      StillUnknown(host, s, ports[..|ports| - 1], ok, p);
      KeysInjective(host, PortData(false, true, p), PortData(false, true, q));
    }
  }

  /** Collecting the unknown ports first and registering them afterwards is the same as discovering the
      ports one by one, since the ports are distinct. */
  lemma {:induction false} CollectThenOpen(host: string, s: Net, ports: seq<U16>, ok: set<U16>)
    requires Distinct(ports)
    ensures DiscoverAll(host, s, ports, ok) == OpenAll(host, s, Unknown(s.portHandleMap, ports), ok)
  {
    if ports != [] {
      var init, p := ports[..|ports| - 1], ports[|ports| - 1];
      CollectThenOpen(host, s, init, ok);
      StillUnknown(host, s, init, ok, p);
      var u := Unknown(s.portHandleMap, init);
      assert (u + [p])[..|u|] == u && u + [] == u;
    }
  }

  ghost predicate AllStatic(entries: map<string, Entry>) {
    forall k | k in entries :: !entries[k].pd.dynamic
  }

  /** Every port of a static registration ends up in both maps, with a running sniffer. */
  lemma {:induction false} AllListed(host: string, s: Net, outgoing: bool, ports: seq<U16>, p: U16)
    requires p in ports && AllStatic(s.portHandleMap)
    ensures var t := RegisterAll(host, s, outgoing, ports);
            var pd := PortData(outgoing, false, p);
            && NameOf(host, pd) in t.listenPorts && t.listenPorts[NameOf(host, pd)] == pd
            && TextOf(pd) in t.portHandleMap && t.portHandleMap[TextOf(pd)] == Entry(pd, true)
            && NameOf(host, pd) in t.live
  {
    var init, q := ports[..|ports| - 1], ports[|ports| - 1];
    NoneDynamic(host, s, outgoing, init);
    KeysInjective(host, PortData(outgoing, false, p), PortData(outgoing, false, q));
    if p != q {
      assert p in init;
      AllListed(host, s, outgoing, init, p);
    }
  }

  lemma {:induction false} NoneDynamic(host: string, s: Net, outgoing: bool, ports: seq<U16>)
    requires AllStatic(s.portHandleMap)
    ensures AllStatic(RegisterAll(host, s, outgoing, ports).portHandleMap)
  {
    if ports != [] {
      var init, q := ports[..|ports| - 1], ports[|ports| - 1];
      NoneDynamic(host, s, outgoing, init);
      var u, t := RegisterAll(host, s, outgoing, init), RegisterAll(host, s, outgoing, ports);
      var pd := PortData(outgoing, false, q);
      assert t == Opened(host, u, pd, true);
      assert forall k | k in t.portHandleMap && k != TextOf(pd) :: k in u.portHandleMap;
    }
  }

  /** Every discovered port that was unknown and could be opened ends up in both maps, with a running sniffer. */
  lemma {:induction false} DiscoveredListed(host: string, s: Net, ports: seq<U16>, ok: set<U16>, p: U16)
    requires p in ports && p in ok && PortText(false, p) !in s.portHandleMap
    ensures var t := DiscoverAll(host, s, ports, ok);
            var pd := PortData(false, true, p);
            && NameOf(host, pd) in t.listenPorts && t.listenPorts[NameOf(host, pd)] == pd
            && TextOf(pd) in t.portHandleMap && t.portHandleMap[TextOf(pd)] == Entry(pd, true)
            && NameOf(host, pd) in t.live
  {
    var init, q := ports[..|ports| - 1], ports[|ports| - 1];
    KeysInjective(host, PortData(false, true, p), PortData(false, true, q));
    if p in init {
      DiscoveredListed(host, s, init, ok, p);
    } else {
      StillUnknown(host, s, init, ok, p);
    }
  }

  lemma TheseListed(host: string, s: Net, outgoing: bool, ports: seq<U16>, n: nat, t: Net)
    requires n <= |ports| && t == RegisterAll(host, s, outgoing, ports[..n]) && AllStatic(s.portHandleMap)
    ensures forall i | 0 <= i < n ::
              var pd := PortData(outgoing, false, ports[i]);
              && NameOf(host, pd) in t.listenPorts && t.listenPorts[NameOf(host, pd)] == pd
              && TextOf(pd) in t.portHandleMap && t.portHandleMap[TextOf(pd)] == Entry(pd, true)
              && NameOf(host, pd) in t.live
  {
    forall i | 0 <= i < n
      ensures var pd := PortData(outgoing, false, ports[i]);
              && NameOf(host, pd) in t.listenPorts && t.listenPorts[NameOf(host, pd)] == pd
              && TextOf(pd) in t.portHandleMap && t.portHandleMap[TextOf(pd)] == Entry(pd, true)
              && NameOf(host, pd) in t.live
    {
      assert ports[..n][i] == ports[i];
      AllListed(host, s, outgoing, ports[..n], ports[i]);
    }
  }

  lemma CreatedListed(host: string, s: Net, ports: seq<U16>, ok: set<U16>, created: seq<U16>, t: Net)
    requires t == DiscoverAll(host, s, ports, ok)
    requires forall p | p in created :: p in ports && p in ok && PortText(false, p) !in s.portHandleMap
    ensures forall p | p in created ::
              var pd := PortData(false, true, p);
              && NameOf(host, pd) in t.listenPorts && t.listenPorts[NameOf(host, pd)] == pd
              && TextOf(pd) in t.portHandleMap && t.portHandleMap[TextOf(pd)] == Entry(pd, true)
              && NameOf(host, pd) in t.live
  {
    forall p | p in created
      ensures var pd := PortData(false, true, p);
              && NameOf(host, pd) in t.listenPorts && t.listenPorts[NameOf(host, pd)] == pd
              && TextOf(pd) in t.portHandleMap && t.portHandleMap[TextOf(pd)] == Entry(pd, true)
              && NameOf(host, pd) in t.live
    {
      DiscoveredListed(host, s, ports, ok, p);
    }
  }

  class NetworkListener {
    const host: string
    const cache: AlterKeyCache.AlterKey
    var listenPorts: map<string, PortData>
    var portHandleMap: map<string, Entry>
    var ch: seq<Out>
    ghost var live: set<string>
    /** The number of the event being handled. */
    var clock: nat

    constructor (host: string, cache: AlterKeyCache.AlterKey)
      ensures this.host == host && this.cache == cache
      ensures View() == NO_PORTS.(cache := cache.Contents())
    {
      this.host, this.cache := host, cache;
      listenPorts, portHandleMap, ch, live, clock := map[], map[], [], {}, 0;
    }

    ghost function View(): Net
      reads this, cache
    {
      Net(listenPorts, portHandleMap, live, cache.Contents(), ch, clock)
    }

    /** ok says whether the capture handle could be created. */
    method RegisterNewSniffer(pd: PortData, ok: bool) returns (err: bool)
      modifies this`listenPorts, this`portHandleMap, this`live
      ensures View() == Opened(host, old(View()), pd, ok) && err == !ok
      ensures ok ==>
                && listenPorts == old(listenPorts)[NameOf(host, pd) := pd]
                && portHandleMap == old(portHandleMap)[TextOf(pd) := Entry(pd, true)]
                && live == old(live) + {NameOf(host, pd)}
      ensures !ok ==> View() == old(View())
    {
      if !ok {
        return true;
      }
      var handleName := NameOf(host, pd);
      listenPorts := listenPorts[handleName := pd];
      portHandleMap := portHandleMap[TextOf(pd) := Entry(pd, true)];
      live := live + {handleName};
      return false;
    }

    /** Register static ports at start-up; stops at the first that fails. */
    method RegisterNewSniffers(outgoing: bool, ports: seq<U16>, ok: seq<bool>) returns (err: bool, n: nat)
      requires |ok| == |ports|
      requires AllStatic(portHandleMap)
      modifies this`listenPorts, this`portHandleMap, this`live
      ensures n <= |ports| && (err <==> n < |ports|) && (forall i | 0 <= i < n :: ok[i]) && (err ==> !ok[n])
      ensures View() == RegisterAll(host, old(View()), outgoing, ports[..n])
      ensures forall i | 0 <= i < n ::
                var pd := PortData(outgoing, false, ports[i]);
                && NameOf(host, pd) in listenPorts && listenPorts[NameOf(host, pd)] == pd
                && TextOf(pd) in portHandleMap && portHandleMap[TextOf(pd)] == Entry(pd, true)
                && NameOf(host, pd) in live
    {
      n := 0;
      while n < |ports|
        invariant n <= |ports| && forall i | 0 <= i < n :: ok[i]
        invariant AllStatic(portHandleMap)
        invariant View() == RegisterAll(host, old(View()), outgoing, ports[..n])
      {
        var failed := RegisterNewSniffer(PortData(outgoing, false, ports[n]), ok[n]);
        if failed {
          break;
        }
        assert ports[..n + 1][..n] == ports[..n];
        n := n + 1;
      }
      err := n < |ports|;
      TheseListed(host, old(View()), outgoing, ports, n, View());
    }

    /** The first pass of the discovery. */
    method UnknownPorts(ports: seq<U16>) returns (pds: seq<U16>)
      ensures pds == Unknown(portHandleMap, ports)
      ensures forall p :: p in pds <==> p in ports && PortText(false, p) !in portHandleMap
    {
      pds := [];
      for i := 0 to |ports|
        invariant pds == Unknown(portHandleMap, ports[..i])
        invariant forall p :: p in pds <==> p in ports[..i] && PortText(false, p) !in portHandleMap
      {
        assert ports[..i + 1][..i] == ports[..i];
        if PortText(false, ports[i]) !in portHandleMap {
          pds := pds + [ports[i]];
        }
      }
      assert ports[..|ports|] == ports;
    }

    /** ports is what was seen on the interface, without the excluded ones; no port twice. */
    method CreateDynamicSniffers(ports: seq<U16>, ok: set<U16>) returns (created: seq<U16>)
      requires Distinct(ports)
      modifies this`listenPorts, this`portHandleMap, this`live
      ensures View() == DiscoverAll(host, old(View()), ports, ok)
      ensures forall p :: p in created <==> p in ports && p in ok && PortText(false, p) !in old(portHandleMap)
      ensures forall p | p in created ::
                var pd := PortData(false, true, p);
                && NameOf(host, pd) in listenPorts && listenPorts[NameOf(host, pd)] == pd
                && TextOf(pd) in portHandleMap && portHandleMap[TextOf(pd)] == Entry(pd, true)
                && NameOf(host, pd) in live
    {
      var pds := UnknownPorts(ports);
      created := [];
      for i := 0 to |pds|
        invariant View() == OpenAll(host, old(View()), pds[..i], ok)
        invariant forall p :: p in created <==> p in pds[..i] && p in ok
      {
        assert pds[..i + 1][..i] == pds[..i];
        var failed := RegisterNewSniffer(PortData(false, true, pds[i]), pds[i] in ok);
        if !failed {
          created := created + [pds[i]];
        }
      }
      assert pds[..|pds|] == pds;
      CollectThenOpen(host, old(View()), ports, ok);
      CreatedListed(host, old(View()), ports, ok, created, View());
    }

    /** What the goroutine of a dynamic sniffer does when the sniffer has returned. */
    method Cleanup(handleName: string)
      requires handleName in live && (handleName in listenPorts ==> listenPorts[handleName].dynamic)
      modifies this`listenPorts, this`portHandleMap, this`live
      ensures View() == Effect(host, old(View()), Exit(handleName))
    {
      if handleName in listenPorts {
        var pd := listenPorts[handleName];
        portHandleMap := portHandleMap - {TextOf(pd)};
        listenPorts := listenPorts - {handleName};
        live := live - {handleName};
      }
    }

    /** One captured packet; full says whether the outgoing channel is. */
    method Recv(handleName: string, payload: Payload, length: int, full: bool)
      modifies this`listenPorts, this`portHandleMap, this`live, this`ch, cache
      ensures View() == Effect(host, old(View()), Packet(handleName, payload, length, full))
    {
      if handleName !in listenPorts {
        return;
      }
      var pd := listenPorts[handleName];
      var parsed := ParsePartial(payload, length);
      if parsed.Err? {
        if pd.outgoing {
          portHandleMap := portHandleMap[TextOf(pd) := Entry(pd, false)];
          listenPorts := listenPorts - {handleName};
          live := live - {handleName};
        }
        return;
      }
      var shred := parsed.value;
      var accepted := cache.Set(Key(shred.slot, shred.index, shred.variant.code));
      if !accepted {
        return;
      }
      if !full {
        ch := ch + [Out(clock, handleName, payload, length, shred)];
      }
    }

    /** Six hours without outgoing traffic: try every closed port again, in the order of the map. */
    method ReopenClosed(ok: set<string>) returns (ghost order: seq<string>)
      modifies this`listenPorts, this`portHandleMap, this`live
      ensures View() == ReopenAll(host, old(View()), order, ok)
      ensures Distinct(order) && forall k :: k in order <==> k in old(portHandleMap)
    {
      order := [];
      var keys := portHandleMap.Keys;
      while keys != {}
        invariant keys <= old(portHandleMap).Keys
        invariant Distinct(order) && forall k :: k in order <==> k in old(portHandleMap) && k !in keys
        invariant View() == ReopenAll(host, old(View()), order, ok)
        decreases |keys|
      {
        var key :| key in keys;
        keys := keys - {key};
        ghost var before := order;
        order := order + [key];
        assert order[..|order| - 1] == before;
        if key in portHandleMap && !portHandleMap[key].open {
          var _ := RegisterNewSniffer(portHandleMap[key].pd, key in ok);
        }
      }
    }
  }

  ghost predicate HasEntry(s: Net, pd: PortData, open: bool) {
    TextOf(pd) in s.portHandleMap && s.portHandleMap[TextOf(pd)] == Entry(pd, open)
  }

  lemma ReopenOne(host: string, s: Net, key: string, ok: bool, pd: PortData, open: bool)
    requires Inv(host, s) && HasEntry(s, pd, open)
    ensures var t := Effect(host, s, Reopen(key, ok));
            Inv(host, t) && HasEntry(t, pd, open || (key == TextOf(pd) && ok))
  {
    ReopenKeepsInv(host, s, key, ok);
    if key in s.portHandleMap { KeysInjective(host, pd, s.portHandleMap[key].pd); }
  }

  lemma ReopenStarts(host: string, s: Net, key: string, ok: bool, pd: PortData, open: bool)
    requires Inv(host, s) && HasEntry(s, pd, open)
    ensures NameOf(host, pd) in Effect(host, s, Reopen(key, ok)).live <==>
              NameOf(host, pd) in s.live || (!open && key == TextOf(pd) && ok)
  {
    if key in s.portHandleMap { KeysInjective(host, pd, s.portHandleMap[key].pd); }
  }

  /** After a silence, exactly the ports that were open and the closed ones whose handle could be created
      are open, and the maps still agree. Exactly the sniffers that were running and those of the reopened
      ports are running: a port that is open without a running sniffer is passed over. */
  lemma {:induction false} SilenceReopens(host: string, s: Net, keys: seq<string>, ok: set<string>, pd: PortData,
                                          open: bool)
    requires Inv(host, s) && HasEntry(s, pd, open)
    ensures var t := ReopenAll(host, s, keys, ok);
            && Inv(host, t) && HasEntry(t, pd, open || (TextOf(pd) in keys && TextOf(pd) in ok))
            && (NameOf(host, pd) in t.live <==>
                  NameOf(host, pd) in s.live || (!open && TextOf(pd) in keys && TextOf(pd) in ok))
  {
    if keys != [] {
      var key, init := keys[|keys| - 1], keys[..|keys| - 1];
      SilenceReopens(host, s, init, ok, pd, open);
      var isOpen := open || (TextOf(pd) in init && TextOf(pd) in ok);
      ReopenOne(host, ReopenAll(host, s, init, ok), key, key in ok, pd, isOpen);
      ReopenStarts(host, ReopenAll(host, s, init, ok), key, key in ok, pd, isOpen);
    }
  }
}
