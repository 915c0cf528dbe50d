/**
 The statistics recorders (pkg/ofr/stats.go): counts per source behind a bounded lossy channel, a keyed
 counter, and the recorder of the first shred per slot and type.
 */
module Stats {
  import opened Bits

  const CHANNEL_CAPACITY: nat := 10_000

  datatype NodeInfo = NodeInfo(src: U32, nodeType: string, name: string)

  // The recorder as a value

  /** queue is the channel, counts the map; the rest is what has gone where, per source. */
  datatype Book = Book(
    queue: seq<NodeInfo>,
    counts: map<U32, nat>,
    recorded: multiset<U32>,
    dropped: multiset<U32>,
    flushed: multiset<U32>)

  const EMPTY_BOOK := Book([], map[], multiset{}, multiset{}, multiset{})

  function Sources(q: seq<NodeInfo>): multiset<U32> {
    if q == [] then multiset{} else multiset{q[0].src} + Sources(q[1..])
  }

  function CountOf(counts: map<U32, nat>, src: U32): nat {
    if src in counts then counts[src] else 0
  }

  datatype Op = Record(info: NodeInfo) | Drain | Flush

  ghost function Flushed(b: Book): multiset<U32> {
    Added(b.flushed, b.counts)
  }

  /** A multiset with the counts of a map added to it. */
  ghost function Added(m: multiset<U32>, counts: map<U32, nat>): (r: multiset<U32>)
    ensures forall s: U32 :: r[s] == m[s] + CountOf(counts, s)
  {
    if counts == map[] then m
    else
      var s :| s in counts;
      var rest := counts - {s};
      var r := Added(m, rest);
      r[s := r[s] + counts[s]]
  }

  ghost function Step(b: Book, op: Op): Book {
    match op
    case Record(info) =>
      if |b.queue| < CHANNEL_CAPACITY
      then b.(queue := b.queue + [info], recorded := b.recorded + multiset{info.src})
      else b.(dropped := b.dropped + multiset{info.src}, recorded := b.recorded + multiset{info.src})
    case Drain =>
      if b.queue == [] then b
      else b.(queue := b.queue[1..],
              counts := b.counts[b.queue[0].src := CountOf(b.counts, b.queue[0].src) + 1])
    case Flush => b.(counts := map[], flushed := Flushed(b))
  }

  ghost function Run(ops: seq<Op>): Book {
    if ops == [] then EMPTY_BOOK else Step(Run(ops[..|ops| - 1]), ops[|ops| - 1])
  }

  ghost predicate Conserved(b: Book) {
    forall s: U32 :: b.recorded[s] == b.dropped[s] + Sources(b.queue)[s] + CountOf(b.counts, s) + b.flushed[s]
  }

  lemma {:induction false} SourcesSnoc(q: seq<NodeInfo>, info: NodeInfo)
    ensures Sources(q + [info]) == Sources(q) + multiset{info.src}
  {
    if q == [] {
      assert [info][1..] == [];
    } else {
      assert (q + [info])[1..] == q[1..] + [info];
      SourcesSnoc(q[1..], info);
    }
  }

  lemma StepConserves(b: Book, op: Op)
    requires Conserved(b)
    ensures Conserved(Step(b, op))
  {
    match op {
      case Record(info) => SourcesSnoc(b.queue, info);
      case Drain =>
      case Flush => FlushConserves(b);
    }
  }

  lemma FlushConserves(b: Book)
    requires Conserved(b)
    ensures Conserved(Step(b, Flush))
  {
  }

  /** Over every run, per source: recorded = dropped on a full channel + queued + counted + flushed. */
  lemma {:induction false} Conservation(ops: seq<Op>)
    ensures Conserved(Run(ops))
  {
    if ops != [] {
      Conservation(ops[..|ops| - 1]);
      StepConserves(Run(ops[..|ops| - 1]), ops[|ops| - 1]);
    }
  }

  /** The channel never overfills, it drops only when full, and every source in the map has a count. */
  lemma {:induction false} Bounds(ops: seq<Op>)
    ensures |Run(ops).queue| <= CHANNEL_CAPACITY
    ensures forall s | s in Run(ops).counts :: Run(ops).counts[s] > 0
  {
    if ops != [] {
      Bounds(ops[..|ops| - 1]);
    }
  }

  /** The records of a source in a run, and those of them that met a full channel. */
  function Records(ops: seq<Op>, src: U32): nat {
    if ops == [] then 0
    else
      var op := ops[|ops| - 1];
      Records(ops[..|ops| - 1], src) + (if op.Record? && op.info.src == src then 1 else 0)
  }

  ghost function Overflows(ops: seq<Op>, src: U32): nat {
    if ops == [] then 0
    else
      var init, op := ops[..|ops| - 1], ops[|ops| - 1];
      Overflows(init, src)
      + (if op.Record? && op.info.src == src && |Run(init).queue| >= 10_000 then 1 else 0)
  }

  /** Every record is accounted for, and dropped exactly when it meets ten thousand waiting ones. */
  lemma {:induction false} DroppedOnlyWhenFull(ops: seq<Op>, src: U32)
    ensures Run(ops).recorded[src] == Records(ops, src)
    ensures Run(ops).dropped[src] == Overflows(ops, src)
  {
    if ops != [] { DroppedOnlyWhenFull(ops[..|ops| - 1], src); }
  }

  /** Draining takes the oldest waiting record and counts it for its source, and nothing else; a flush takes all
      counts. */
  lemma DrainedInOrder(b: Book)
    ensures b.queue == [] ==> Step(b, Drain) == b
    ensures b.queue != [] ==>
              var t, src := Step(b, Drain), b.queue[0].src;
              && b.queue == [b.queue[0]] + t.queue
              && CountOf(t.counts, src) == CountOf(b.counts, src) + 1
              && (forall other | other != src :: CountOf(t.counts, other) == CountOf(b.counts, other))
              && t.flushed == b.flushed
    ensures var t := Step(b, Flush);
            && t.counts == map[] && t.queue == b.queue
            && forall src: U32 :: t.flushed[src] == b.flushed[src] + CountOf(b.counts, src)
  {
  }

  // The recorder object

  class ShredsBySrcRecord {
    var shreds: nat
    const nodeInfo: NodeInfo

    constructor (nodeInfo: NodeInfo)
      ensures shreds == 1 && this.nodeInfo == nodeInfo
    {
      shreds, this.nodeInfo := 1, nodeInfo;
    }
  }

  /** Largest count first. */
  ghost predicate Descending(s: seq<ShredsBySrcRecord>)
    reads s
  {
    forall i | 0 < i < |s| :: s[i - 1].shreds >= s[i].shreds
  }

  class ShredsBySrcRecorder {
    var ch: seq<NodeInfo>
    var mp: map<U32, ShredsBySrcRecord>
    ghost var recorded: multiset<U32>
    ghost var dropped: multiset<U32>
    ghost var flushed: multiset<U32>

    constructor ()
      ensures Valid() && View() == EMPTY_BOOK
    {
      ch, mp := [], map[];
      recorded, dropped, flushed := multiset{}, multiset{}, multiset{};
    }

    /** No two sources share a record. */
    ghost predicate Valid()
      reads this
    {
      && (forall s | s in mp :: mp[s].nodeInfo.src == s)
      && forall s, t | s in mp && t in mp && mp[s] == mp[t] :: s == t
    }

    ghost function View(): Book
      reads this, mp.Values
    {
      Book(ch, map s | s in mp :: mp[s].shreds, recorded, dropped, flushed)
    }

    method Record(info: NodeInfo)
      requires Valid()
      modifies this`ch, this`recorded, this`dropped
      ensures Valid() && mp == old(mp) && View() == Step(old(View()), Op.Record(info))
      ensures ch == if |old(ch)| < 10_000 then old(ch) + [info] else old(ch)
    {
      ghost var counts := View().counts;
      recorded := recorded + multiset{info.src};
      if |ch| < CHANNEL_CAPACITY {
        ch := ch + [info];
      } else {
        dropped := dropped + multiset{info.src};
      }
      assert View().counts == counts;
    }

    /** One turn of run. */
    method RunOnce()
      requires Valid()
      modifies this`ch, this`mp, mp.Values
      ensures Valid() && View() == Step(old(View()), Drain)
      ensures ch == if old(ch) == [] then [] else old(ch)[1..]
      ensures forall s | s in old(mp) :: s in mp && mp[s] == old(mp)[s]
      ensures forall s | s in mp && s !in old(mp) :: fresh(mp[s])
    {
      if ch == [] {
        return;
      }
      ghost var counts := View().counts;
      var info := ch[0];
      ch := ch[1..];
      assert View().counts == counts;
      Count(info);
    }

    /** Count one more for a source: its record is updated in place, or made. */
    method Count(info: NodeInfo)
      requires Valid()
      modifies this`mp, mp.Values
      ensures Valid()
      ensures View().counts == old(View()).counts[info.src := CountOf(old(View()).counts, info.src) + 1]
      ensures forall s | s in old(mp) :: s in mp && mp[s] == old(mp)[s]
      ensures forall s | s in mp && s !in old(mp) :: fresh(mp[s])
    {
      if info.src in mp {
        mp[info.src].shreds := mp[info.src].shreds + 1;
        assert forall s | s in mp && s != info.src :: mp[s].shreds == old(mp[s].shreds);
      } else {
        var r := new ShredsBySrcRecord(info);
        mp := mp[info.src := r];
        assert forall s | s in old(mp) :: mp[s] == old(mp)[s] && mp[s].shreds == old(mp[s].shreds);
      }
    }

    /** Take every record out of the map, largest count first. The records are handed over: nothing in
        the recorder refers to them afterwards. */
    method FlushAll() returns (stats: seq<ShredsBySrcRecord>)
      requires Valid()
      modifies this`mp, this`flushed
      ensures Valid() && View() == Step(old(View()), Op.Flush) && mp == map[]
      ensures Descending(stats) && |stats| == |old(mp)|
      ensures forall r | r in stats :: r.nodeInfo.src in old(mp) && old(mp)[r.nodeInfo.src] == r
      ensures forall s | s in old(mp) :: old(mp)[s] in stats
    {
      flushed := Flushed(View());
      var taken := TakeAll();
      stats := SortByCount(taken);
      SameElements(stats, taken);
      assert View().counts == map[];
    }

    method TakeAll() returns (taken: seq<ShredsBySrcRecord>)
      requires Valid()
      modifies this`mp
      ensures mp == map[] && |taken| == |old(mp)|
      ensures forall r | r in taken :: r.nodeInfo.src in old(mp) && old(mp)[r.nodeInfo.src] == r
      ensures forall s | s in old(mp) :: old(mp)[s] in taken
    {
      taken := [];
      while mp != map[]
        invariant mp.Keys <= old(mp).Keys && forall s | s in mp :: mp[s] == old(mp)[s]
        invariant |taken| + |mp| == |old(mp)|
        invariant forall r | r in taken :: r.nodeInfo.src in old(mp) && old(mp)[r.nodeInfo.src] == r
        invariant forall s | s in old(mp) && s !in mp :: old(mp)[s] in taken
        decreases |mp|
      {
        var s :| s in mp;
        ghost var before := taken;
        taken := taken + [mp[s]];
        assert taken[|before|] == mp[s];
        assert |mp - {s}| == |mp| - 1;
        mp := mp - {s};
      }
    }
  }

  /** sort.Slice with the comparison of flush: some descending arrangement. */
  method SortByCount(s: seq<ShredsBySrcRecord>) returns (r: seq<ShredsBySrcRecord>)
    ensures multiset(r) == multiset(s) && Descending(r)
  {
    r := [];
    for i := 0 to |s|
      invariant multiset(r) == multiset(s[..i]) && Descending(r)
    {
      assert s[..i + 1] == s[..i] + [s[i]];
      r := Insert(r, s[i]);
    }
    assert s[..|s|] == s;
  }

  method Insert(s: seq<ShredsBySrcRecord>, x: ShredsBySrcRecord) returns (r: seq<ShredsBySrcRecord>)
    requires Descending(s)
    ensures multiset(r) == multiset(s) + multiset{x} && Descending(r)
  {
    var k := 0;
    while k < |s| && s[k].shreds >= x.shreds
      invariant 0 <= k <= |s|
      invariant forall j | 0 <= j < k :: s[j].shreds >= x.shreds
    {
      k := k + 1;
    }
    r := Inserted(s, k, x);
  }

  function Inserted<T>(s: seq<T>, k: nat, x: T): (r: seq<T>)
    requires k <= |s|
    ensures |r| == |s| + 1
    ensures forall i | 0 <= i < |r| :: r[i] == if i < k then s[i] else if i == k then x else s[i - 1]
    ensures multiset(r) == multiset(s) + multiset{x}
  {
    assert s == s[..k] + s[k..];
    s[..k] + [x] + s[k..]
  }

  lemma SameElements<T>(a: seq<T>, b: seq<T>)
    requires multiset(a) == multiset(b)
    ensures |a| == |b| && forall x :: x in a <==> x in b
  {
    assert |multiset(a)| == |a| && |multiset(b)| == |b|;
    assert forall x :: (x in a <==> x in multiset(a)) && (x in b <==> x in multiset(b));
  }
}
