/**
 The keyed counter and the recorder of the first shred per slot and type (pkg/ofr/stats.go).
 */
module Counters {
  import opened Bits
  import opened Decimals

  // KeyedCounter

  function Get<T>(m: map<T, nat>, key: T): nat {
    if key in m then m[key] else 0
  }

  datatype Op<T> = Increment(key: T) | Take

  function Counts<T>(ops: seq<Op<T>>): map<T, nat> {
    if ops == [] then map[]
    else
      var m := Counts(ops[..|ops| - 1]);
      match ops[|ops| - 1]
      case Increment(key) => m[key := Get(m, key) + 1]
      case Take => map[]
  }

  /** What all the flushes of a run returned for a key, added up. */
  function Taken<T(==)>(ops: seq<Op<T>>, key: T): nat {
    if ops == [] then 0
    else
      var init := ops[..|ops| - 1];
      Taken(init, key) + (if ops[|ops| - 1].Take? then Get(Counts(init), key) else 0)
  }

  function Increments<T(==)>(ops: seq<Op<T>>, key: T): nat {
    if ops == [] then 0
    else Increments(ops[..|ops| - 1], key) + (if ops[|ops| - 1] == Increment(key) then 1 else 0)
  }

  /** No increment is lost or counted twice across flushes. */
  lemma {:induction false} CounterConserves<T>(ops: seq<Op<T>>, key: T)
    ensures Increments(ops, key) == Get(Counts(ops), key) + Taken(ops, key)
  {
    if ops != [] {
      CounterConserves(ops[..|ops| - 1], key);
    }
  }

  class KeyedCounter<T(==)> {
    var counter: map<T, nat>
    ghost var ops: seq<Op<T>>

    constructor ()
      ensures Valid() && ops == []
    {
      counter, ops := map[], [];
    }

    ghost predicate Valid()
      reads this
    {
      counter == Counts(ops)
    }

    method Bump(key: T)
      requires Valid()
      modifies this
      ensures Valid() && ops == old(ops) + [Increment(key)]
      ensures counter == old(counter)[key := if key in old(counter) then old(counter)[key] + 1 else 1]
    {
      counter := counter[key := Get(counter, key) + 1];
      ghost var before := ops;
      ops := ops + [Increment(key)];
      assert ops[..|ops| - 1] == before;
    }

    method Flush() returns (ret: map<T, nat>)
      requires Valid()
      modifies this
      ensures Valid() && ops == old(ops) + [Take] && ret == old(counter) && counter == map[]
    {
      ret := counter;
      counter := map[];
      ops := ops + [Take];
    }
  }

  // First shreds

  const MINUTE: nat := 60_000_000_000

  function BuildKey(slot: U64, typ: U8): string {
    Decimal(slot) + [typ as char]
  }

  /** Slots and types are told apart by their keys. */
  lemma BuildKeyInjective(slot1: U64, typ1: U8, slot2: U64, typ2: U8)
    requires BuildKey(slot1, typ1) == BuildKey(slot2, typ2)
    ensures slot1 == slot2 && typ1 == typ2
  {
    var k := BuildKey(slot1, typ1);
    assert k[..|k| - 1] == Decimal(slot1) == Decimal(slot2);
    assert k[|k| - 1] == typ1 as char == typ2 as char;
    ValueOfDecimal(slot1);
    ValueOfDecimal(slot2);
  }

  datatype First = First(slot: U64, typ: U8, at: int)

  datatype Event = Seen(slot: U64, typ: U8, now: int) | Clean(now: int)

  /** first is what was reported as the first shred of its slot and type. */
  datatype Firsts = Firsts(mp: map<string, int>, first: seq<First>)

  function Kept(mp: map<string, int>, now: int): map<string, int> {
    map k | k in mp && now - mp[k] <= MINUTE :: mp[k]
  }

  function Step(s: Firsts, e: Event): Firsts {
    match e
    case Seen(slot, typ, now) =>
      var key := BuildKey(slot, typ);
      if key in s.mp then s else Firsts(s.mp[key := now], s.first + [First(slot, typ, now)])
    case Clean(now) => s.(mp := Kept(s.mp, now))
  }

  function Run(es: seq<Event>): Firsts {
    if es == [] then Firsts(map[], []) else Step(Run(es[..|es| - 1]), es[|es| - 1])
  }

  class FirstShredRecorder {
    var mp: map<string, int>
    ghost var first: seq<First>

    constructor ()
      ensures View() == Firsts(map[], [])
    {
      mp, first := map[], [];
    }

    ghost function View(): Firsts
      reads this
    {
      Firsts(mp, first)
    }

    /** One turn of run; true when the shred is reported as the first of its slot and type. */
    method See(slot: U64, typ: U8, now: int) returns (isFirst: bool)
      modifies this
      ensures View() == Step(old(View()), Seen(slot, typ, now))
      ensures isFirst <==> BuildKey(slot, typ) !in old(mp)
      ensures isFirst ==> mp == old(mp)[BuildKey(slot, typ) := now] && first == old(first) + [First(slot, typ, now)]
      ensures !isFirst ==> mp == old(mp) && first == old(first)
    {
      var key := BuildKey(slot, typ);
      isFirst := key !in mp;
      if isFirst {
        first := first + [First(slot, typ, now)];
        mp := mp[key := now];
      }
    }

    method Clean(now: int)
      modifies this`mp
      ensures View() == Step(old(View()), Event.Clean(now))
      ensures forall k :: k in mp <==> k in old(mp) && now - old(mp)[k] <= 60_000_000_000
      ensures forall k | k in mp :: mp[k] == old(mp)[k]
    {
      var keys := mp.Keys;
      while keys != {}
        invariant keys <= mp.Keys <= old(mp).Keys
        invariant forall k | k in mp :: mp[k] == old(mp)[k]
        invariant forall k | k in old(mp) && k !in keys :: k in mp <==> now - old(mp)[k] <= MINUTE
        decreases |keys|
      {
        var k :| k in keys;
        if now - mp[k] > MINUTE {
          mp := mp - {k};
        }
        keys := keys - {k};
      }
      assert mp == Kept(old(mp), now);
    }
  }

  /** The clock does not run backwards. */
  ghost predicate Ordered(es: seq<Event>) {
    forall i | 0 < i < |es| :: es[i - 1].now <= es[i].now
  }

  function KeyOf(f: First): string { BuildKey(f.slot, f.typ) }

  /** The map still holds a report that is no older than f for the key of f. */
  ghost predicate Remembered(mp: map<string, int>, f: First) {
    KeyOf(f) in mp && f.at <= mp[KeyOf(f)]
  }

  /** Every report is remembered or more than a minute old. */
  ghost predicate Accounted(s: Firsts, now: int) {
    forall f | f in s.first :: f.at <= now && (Remembered(s.mp, f) || now - f.at > MINUTE)
  }

  /** Everything remembered was reported. */
  ghost predicate Reported(s: Firsts) {
    forall k | k in s.mp :: exists f | f in s.first :: KeyOf(f) == k && f.at == s.mp[k]
  }

  ghost predicate SpacedOut(first: seq<First>) {
    forall i, j | 0 <= i < j < |first| && KeyOf(first[i]) == KeyOf(first[j]) :: first[j].at - first[i].at > MINUTE
  }

  ghost predicate Inv(s: Firsts, now: int) {
    Accounted(s, now) && Reported(s) && SpacedOut(s.first)
  }

  lemma SeeKeepsInv(s: Firsts, now: int, f: First)
    requires Inv(s, now) && now <= f.at && KeyOf(f) !in s.mp
    ensures Inv(Firsts(s.mp[KeyOf(f) := f.at], s.first + [f]), f.at)
  {
    var t := Firsts(s.mp[KeyOf(f) := f.at], s.first + [f]);
    forall g | g in s.first
      ensures Remembered(t.mp, g) || f.at - g.at > MINUTE
      ensures KeyOf(g) == KeyOf(f) ==> f.at - g.at > MINUTE
    {
      assert Remembered(s.mp, g) || now - g.at > MINUTE;
    }
    assert f in t.first;
    assert forall g | g in s.first :: g in t.first;
  }

  lemma CleanKeepsInv(s: Firsts, now: int, later: int)
    requires Inv(s, now) && now <= later
    ensures Inv(s.(mp := Kept(s.mp, later)), later)
  {
  }

  lemma StepKeepsInv(s: Firsts, now: int, e: Event)
    requires Inv(s, now) && now <= e.now
    ensures Inv(Step(s, e), e.now)
  {
    match e {
      case Seen(slot, typ, at) =>
        if BuildKey(slot, typ) !in s.mp { SeeKeepsInv(s, now, First(slot, typ, at)); }
      case Clean(at) => CleanKeepsInv(s, now, at);
    }
  }

  lemma {:induction false} RunKeepsInv(es: seq<Event>)
    requires es != [] && Ordered(es)
    ensures Inv(Run(es), es[|es| - 1].now)
  {
    var init := es[..|es| - 1];
    var now := if init == [] then es[0].now else init[|init| - 1].now;
    if init != [] { RunKeepsInv(init); }
    assert Inv(Run(init), now);
    StepKeepsInv(Run(init), now, es[|es| - 1]);
  }

  /** Over every run, two reports for one slot and type are more than a minute apart; and a shred goes
      unreported exactly when one of its own slot and type was reported and is still remembered. */
  lemma FirstReports(es: seq<Event>, slot: U64, typ: U8)
    requires es != [] && Ordered(es)
    ensures SpacedOut(Run(es).first)
    ensures BuildKey(slot, typ) in Step(Run(es), Seen(slot, typ, es[|es| - 1].now)).mp
    ensures var s := Run(es);
            BuildKey(slot, typ) in s.mp <==>
              exists f | f in s.first :: f.slot == slot && f.typ == typ && Remembered(s.mp, f)
  {
    RunKeepsInv(es);
    var s := Run(es);
    var key := BuildKey(slot, typ);
    if key in s.mp {
      var f :| f in s.first && KeyOf(f) == key && f.at == s.mp[key];
      BuildKeyInjective(slot, typ, f.slot, f.typ);
      assert Remembered(s.mp, f);
    }
  }
}
