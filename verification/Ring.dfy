/**
 The Firedancer ring consumer (fd_shred_monitor.c): a producer overwrites slot seq % depth of a ring of
 fragments, each pointing at a batch of shreds, and a non-blocking consumer walks batches and the
 shreds inside them with a nested cursor.
 */
module Ring {
  import opened Wrappers
  import opened Bits
  import opened Modular

  const SHRED_STORE_MTU: nat := 41792
  const SIZE_OF_SHRED34: nat := 41792
  const CHUNK_SIZE: nat := 64
  const SHRED34_MAX_COUNT: nat := 34

  datatype Frag = Frag(seqNo: U64, sz: U16, chunk: U32) {
    predicate GoodSize() { 0 < sz <= SHRED_STORE_MTU }
  }

  /** The slots of the ring; its depth is their number. */
  type Slots = r: seq<Frag> | |r| > 0 witness [Frag(0, 0, 0)]

  datatype FdShred = FdShred(slot: U64, idx: U32, variant: U8)

  datatype RawBatch = RawBatch(count: U64, shreds: seq<FdShred>)

  type Batch = b: RawBatch | |b.shreds| == SHRED34_MAX_COUNT
    witness RawBatch(0, seq(SHRED34_MAX_COUNT, _ => FdShred(0, 0, 0)))

  /** Batches at these chunks do not overlap: 653 chunks hold one batch. */
  predicate Apart(a: U32, b: U32) {
    a * CHUNK_SIZE + SIZE_OF_SHRED34 <= b * CHUNK_SIZE || b * CHUNK_SIZE + SIZE_OF_SHRED34 <= a * CHUNK_SIZE
  }

  /** The number of shreds the consumer takes from a batch. */
  function Capped(b: Batch): nat {
    if b.count > SHRED34_MAX_COUNT then SHRED34_MAX_COUNT else b.count
  }

  /** The mapped workspace: batches by chunk number. Memory that was never written reads as zero. */
  datatype Workspace = Workspace(size: nat, batches: map<U32, Batch>) {
    predicate InBounds(chunk: U32) { chunk * CHUNK_SIZE + SIZE_OF_SHRED34 <= size }

    function At(chunk: U32): Batch {
      if chunk in batches then batches[chunk]
      else RawBatch(0, seq(SHRED34_MAX_COUNT, _ => FdShred(0, 0, 0)))
    }

    /** load_batch_from_chunk returns a batch. */
    predicate Loads(chunk: U32) { InBounds(chunk) && At(chunk).count != 0 }
  }

  /** One shred_info_t. */
  datatype Info = Info(batchSeq: U64, at: nat, shred: FdShred)

  datatype Got = GotShred(info: Info) | NoShred | Failed

  datatype Cursor = Cursor(running: bool, batch: Option<U32>, batchSeq: U64, shredIdx: nat, lastSeq: U64) {
    /** In the middle of a batch. */
    predicate Unread(w: Workspace) {
      batch.Some? && shredIdx < Capped(w.At(batch.value))
    }

    function NextSeq(): U64 { (lastSeq + 1) % TWO64 }
  }

  function GetNext(c: Cursor, ring: Slots, w: Workspace): (Cursor, Got)
    decreases if c.Unread(w) then 0 else 1
  {
    if !c.running then (c, Failed)
    else if c.Unread(w) then
      (c.(shredIdx := c.shredIdx + 1),
       GotShred(Info(c.batchSeq, c.shredIdx, w.At(c.batch.value).shreds[c.shredIdx])))
    else
      var frag := ring[c.NextSeq() % |ring|];
      if frag.seqNo == c.NextSeq() && frag.GoodSize() then
        if w.Loads(frag.chunk)
        then GetNext(c.(batch := Some(frag.chunk), batchSeq := frag.seqNo, shredIdx := 0, lastSeq := c.NextSeq()),
                     ring, w)
        else (c, Failed)
      else (c, NoShred)
  }

  // The consumer object

  class Monitor {
    const mcache: array<Frag>
    const workspaceSize: nat
    var batches: map<U32, Batch>
    var running: bool
    var currentBatch: Option<U32>
    var currentBatchSeq: U64
    var currentShredIdx: nat
    var lastSeq: U64

    ghost function State(): Cursor
      reads this
    {
      Cursor(running, currentBatch, currentBatchSeq, currentShredIdx, lastSeq)
    }

    function Memory(): Workspace
      reads this
    {
      Workspace(workspaceSize, batches)
    }

    /** shred_monitor_init once the workspace is attached: scan for the largest sequence number. found[i] is
        what slot i holds when the scan comes to it. */
    constructor (mcache: array<Frag>, found: seq<Frag>, workspaceSize: nat, batches: map<U32, Batch>)
      requires mcache.Length > 0 && |found| == mcache.Length
      ensures this.mcache == mcache && Memory() == Workspace(workspaceSize, batches)
      ensures State() == Cursor(true, None, 0, 0, MaxSeq(found))
    {
      var maxSeq: U64 := 0;
      var i := 0;
      while i < mcache.Length
        invariant 0 <= i <= mcache.Length
        invariant maxSeq == MaxSeq(found[..i])
      {
        assert found[..i + 1][..i] == found[..i];
        if found[i].seqNo > maxSeq {
          maxSeq := found[i].seqNo;
        }
        i := i + 1;
      }
      assert found[..i] == found;
      this.mcache, this.workspaceSize, this.batches := mcache, workspaceSize, batches;
      running, currentBatch, currentBatchSeq, currentShredIdx, lastSeq := true, None, 0, 0, maxSeq;
    }

    /** load_batch_from_chunk; the cap on the count is applied where the count is read. */
    method LoadBatch(chunk: U32) returns (loaded: bool)
      ensures loaded == Memory().Loads(chunk)
      ensures loaded <==> chunk * 64 + 41792 <= workspaceSize && Memory().At(chunk).count > 0
    {
      var offset := chunk * CHUNK_SIZE;
      if offset + SIZE_OF_SHRED34 > workspaceSize {
        return false;
      }
      if Memory().At(chunk).count == 0 {
        return false;
      }
      return true;
    }

    /** shred_monitor_get_next. */
    method Next() returns (got: Got)
      requires mcache.Length > 0
      modifies this`currentBatch, this`currentBatchSeq, this`currentShredIdx, this`lastSeq
      ensures (State(), got) == GetNext(old(State()), mcache[..], Memory())
      decreases if State().Unread(Memory()) then 0 else 1
    {
      if !running {
        return Failed;
      }
      if currentBatch.Some? && currentShredIdx < Capped(Memory().At(currentBatch.value)) {
        var batch := Memory().At(currentBatch.value);
        var shredIdx := currentShredIdx;
        currentShredIdx := currentShredIdx + 1;
        return GotShred(Info(currentBatchSeq, shredIdx, batch.shreds[shredIdx]));
      }
      var nextSeq := (lastSeq + 1) % TWO64;
      var frag := mcache[nextSeq % mcache.Length];
      if frag.seqNo == nextSeq && frag.sz > 0 && frag.sz <= SHRED_STORE_MTU {
        var loaded := LoadBatch(frag.chunk);
        if !loaded {
          return Failed;
        }
        currentBatch := Some(frag.chunk);
        currentBatchSeq := frag.seqNo;
        currentShredIdx := 0;
        lastSeq := nextSeq;
        got := Next();
        return;
      }
      return NoShred;
    }

    /** What the other process has made of the shared memory by now. */
    method Refresh(ring: Slots, batches: map<U32, Batch>)
      requires |ring| == mcache.Length
      modifies mcache, this`batches
      ensures mcache[..] == ring && Memory() == Workspace(workspaceSize, batches)
    {
      for i := 0 to mcache.Length
        invariant mcache[..i] == ring[..i]
      {
        mcache[i] := ring[i];
      }
      this.batches := batches;
    }

    method Stop()
      modifies this`running
      ensures State() == old(State()).(running := false)
    {
      running := false;
    }
  }

  function MaxSeq(ring: seq<Frag>): (m: U64)
    ensures forall i | 0 <= i < |ring| :: ring[i].seqNo <= m
    ensures m == 0 || exists i | 0 <= i < |ring| :: ring[i].seqNo == m
  {
    if ring == [] then 0
    else
      var rest := MaxSeq(ring[..|ring| - 1]);
      var last := ring[|ring| - 1].seqNo;
      if last > rest then last else rest
  }

  // Producer and consumer together

  /** What the producer put out under one sequence number. */
  datatype Publication = Publication(sz: U16, chunk: U32, batch: Batch)

  /**
   hist is everything published so far: its entry k has sequence number base + 1 + k. start is where the
   consumer attached and log is everything it was given since.
   */
  datatype System = System(
    ring: Slots,
    memory: Workspace,
    base: nat,
    hist: seq<Publication>,
    start: nat,
    cursor: Cursor,
    log: seq<Info>)
  {
    function Newest(): nat { base + |hist| }

    predicate Published(s: int) { base < s <= Newest() }

    function Pub(s: nat): Publication
      requires Published(s)
    {
      hist[s - base - 1]
    }

    /** Sequence number s is still in the ring. */
    predicate Live(s: int) { Published(s) && Newest() < s + |ring| }

    /** The slot of a sequence number. */
    function Slot(s: nat): nat { s % |ring| }

    predicate LiveAt(s: nat, i: nat) { Live(s) && Slot(s) == i }

    predicate Good(s: nat)
      requires Published(s)
    {
      && Frag(0, Pub(s).sz, Pub(s).chunk).GoodSize()
      && memory.InBounds(Pub(s).chunk)
      && Pub(s).batch.count != 0
    }
  }

  /** The ring mirrors the producer: every live publication is in its slot with its batch in memory, and
      every other slot still holds a number from before. */
  ghost predicate Mirrors(s: System) {
    && s.Newest() < TWO64 - 1
    && (forall n: nat | s.Live(n) :: s.ring[s.Slot(n)] == Frag(n, s.Pub(n).sz, s.Pub(n).chunk))
    && (forall n: nat | s.Live(n) && s.memory.InBounds(s.Pub(n).chunk) ::
          s.memory.At(s.Pub(n).chunk) == s.Pub(n).batch)
    && (forall i | 0 <= i < |s.ring| :: s.ring[i].seqNo <= s.base || s.LiveAt(s.ring[i].seqNo, i))
  }

  /** The position after one delivery: the next shred of the batch, or the first of the next batch. */
  predicate Follows(s: System, prev: Info, next: Info) {
    && s.Published(prev.batchSeq)
    && var count := s.Pub(prev.batchSeq).batch.count;
       if prev.at + 1 < count && prev.at + 1 < SHRED34_MAX_COUNT
       then next.batchSeq == prev.batchSeq && next.at == prev.at + 1
       else next.batchSeq == prev.batchSeq + 1 && next.at == 0
  }

  /** The delivery carries what the producer published there. */
  predicate Genuine(s: System, info: Info) {
    && s.Published(info.batchSeq)
    && info.at < s.Pub(info.batchSeq).batch.count && info.at < SHRED34_MAX_COUNT
    && info.shred == s.Pub(info.batchSeq).batch.shreds[info.at]
  }

  /** A log of deliveries with no gap, no repeat and no reorder, from the first batch after start. */
  ghost predicate InOrder(s: System, log: seq<Info>) {
    && (log != [] ==> log[0].batchSeq == s.start + 1 && log[0].at == 0)
    && (forall k | 0 <= k < |log| :: Genuine(s, log[k]))
    && (forall k | 0 < k < |log| :: Follows(s, log[k - 1], log[k]))
  }

  /** The current batch is still what was published, or is used up and stays used up. */
  ghost predicate BatchSettled(s: System)
    requires s.cursor.batch.Some? && s.Published(s.cursor.lastSeq)
  {
    var b := s.Pub(s.cursor.lastSeq).batch;
    var now := s.memory.At(s.cursor.batch.value);
    && 1 <= s.cursor.shredIdx <= Capped(b)
    && (now == b || (s.cursor.shredIdx == Capped(b) && Capped(now) <= Capped(b)))
  }

  ghost predicate Inv(s: System) {
    && Mirrors(s)
    && s.base <= s.start <= s.cursor.lastSeq <= s.Newest()
    && InOrder(s, s.log)
    && (s.cursor.batch.None? ==> s.log == [] && s.cursor.lastSeq == s.start)
    && (s.cursor.batch.Some? ==>
          && s.start < s.cursor.lastSeq
          && s.cursor.batchSeq == s.cursor.lastSeq
          && BatchSettled(s)
          && s.log != []
          && s.log[|s.log| - 1].batchSeq == s.cursor.lastSeq
          && s.log[|s.log| - 1].at == s.cursor.shredIdx - 1)
  }

  datatype Event = Publish(p: Publication) | Poll

  function Step(s: System, e: Event): System
  {
    match e
    case Publish(p) =>
      var n := (s.Newest() + 1) % TWO64;
      s.(ring := s.ring[s.Slot(n) := Frag(n, p.sz, p.chunk)],
         memory := if s.memory.InBounds(p.chunk) then s.memory.(batches := s.memory.batches[p.chunk := p.batch])
                   else s.memory,
         hist := s.hist + [p])
    case Poll =>
      var (c, got) := GetNext(s.cursor, s.ring, s.memory);
      s.(cursor := c, log := if got.GotShred? then s.log + [got.info] else s.log)
  }

  /**
   Where the producer may write, because the consumer reads batches in place. The memory of a batch may be
   written over only once its ring slot is gone too; and the batch the cursor points at only once it is
   used up, by a batch in the same place.
   */
  ghost predicate AllowedPlace(s: System, p: Publication) {
    && s.Newest() + 1 < TWO64 - 1
    && (s.memory.InBounds(p.chunk) ==>
          && (forall n: nat | s.Live(n) && s.Newest() + 1 < n + |s.ring| && s.memory.InBounds(s.Pub(n).chunk) ::
                Apart(s.Pub(n).chunk, p.chunk))
          && (s.cursor.batch.Some? && !Apart(s.cursor.batch.value, p.chunk) ==>
                s.cursor.batch.value == p.chunk && !s.cursor.Unread(s.memory)))
  }

  /** What is asked of the producer: that, and that a batch written over the current one is no longer than
      what was consumed. */
  ghost predicate Allowed(s: System, e: Event) {
    e.Publish? ==>
      && AllowedPlace(s, e.p)
      && (s.memory.InBounds(e.p.chunk) && s.cursor.batch == Some(e.p.chunk) ==>
            Capped(e.p.batch) <= s.cursor.shredIdx)
  }

  function Run(s: System, es: seq<Event>): System
    decreases |es|
  {
    if es == [] then s else Run(Step(s, es[0]), es[1..])
  }

  ghost predicate AllowedRun(s: System, es: seq<Event>)
    decreases |es|
  {
    es == [] || (Allowed(s, es[0]) && AllowedRun(Step(s, es[0]), es[1..]))
  }

  lemma {:induction false} RunSnoc(s: System, es: seq<Event>, e: Event)
    ensures Run(s, es + [e]) == Step(Run(s, es), e)
    ensures AllowedRun(s, es + [e]) <==> AllowedRun(s, es) && Allowed(Run(s, es), e)
    decreases |es|
  {
    if es == [] {
      assert es + [e] == [e] && [e][1..] == [];
    } else {
      assert (es + [e])[1..] == es[1..] + [e];
      RunSnoc(Step(s, es[0]), es[1..], e);
    }
  }

  lemma PublishKeepsMirrors(s: System, p: Publication)
    requires Mirrors(s) && Allowed(s, Publish(p))
    ensures Mirrors(Step(s, Publish(p)))
  {
    var t := Step(s, Publish(p));
    forall m: nat | t.Live(m)
      ensures t.ring[t.Slot(m)] == Frag(m, t.Pub(m).sz, t.Pub(m).chunk)
      ensures t.memory.InBounds(t.Pub(m).chunk) ==> t.memory.At(t.Pub(m).chunk) == t.Pub(m).batch
    {
      PublishedSlot(s, p, m);
    }
    forall i | 0 <= i < |t.ring| && t.ring[i].seqNo > t.base
      ensures t.LiveAt(t.ring[i].seqNo, i)
    {
      OtherSlot(s, p, i);
    }
  }

  lemma SlotsApart(s: System, m: nat, n: nat)
    requires m < n && s.Slot(m) == s.Slot(n)
    ensures m + |s.ring| <= n
  {
    SameSlotApart(m, n, |s.ring|);
  }

  lemma SlotComesBack(s: System, m: nat)
    ensures s.Slot(m + |s.ring|) == s.Slot(m)
  {
    NextLap(m, |s.ring|);
  }

  lemma PublishedSlot(s: System, p: Publication, m: nat)
    requires Mirrors(s) && Allowed(s, Publish(p)) && Step(s, Publish(p)).Live(m)
    ensures var t := Step(s, Publish(p));
            && t.ring[t.Slot(m)] == Frag(m, t.Pub(m).sz, t.Pub(m).chunk)
            && (t.memory.InBounds(t.Pub(m).chunk) ==> t.memory.At(t.Pub(m).chunk) == t.Pub(m).batch)
  {
    var n := s.Newest() + 1;
    if m < n {
      assert s.Live(m) && Step(s, Publish(p)).Pub(m) == s.Pub(m);
      if s.Slot(m) == s.Slot(n) { SlotsApart(s, m, n); }
    }
    SlotInRing(s, m);
    SlotInRing(s, n);
    assert Step(s, Publish(p)).Slot(m) == s.Slot(m);
  }

  lemma SlotInRing(s: System, m: nat)
    ensures s.Slot(m) < |s.ring|
  {
  }

  lemma StaysLive(s: System, m: nat)
    requires s.Live(m) && s.Slot(m) != s.Slot(s.Newest() + 1)
    ensures s.Newest() + 1 < m + |s.ring|
  {
    if s.Newest() + 1 == m + |s.ring| { SlotComesBack(s, m); }
  }

  lemma OtherSlot(s: System, p: Publication, i: nat)
    requires Mirrors(s) && Allowed(s, Publish(p)) && i < |s.ring|
    ensures var t := Step(s, Publish(p));
            t.ring[i].seqNo > t.base ==> t.LiveAt(t.ring[i].seqNo, i)
  {
    var t := Step(s, Publish(p));
    var n := s.Newest() + 1;
    assert t.ring == s.ring[s.Slot(n) := Frag(n, p.sz, p.chunk)];
    if i != s.Slot(n) && s.ring[i].seqNo > s.base {
      assert s.LiveAt(s.ring[i].seqNo, i);
      StaysLive(s, s.ring[i].seqNo);
    }
  }

  lemma LongerHistory(s: System, t: System, log: seq<Info>)
    requires s.base == t.base && s.start == t.start && s.hist <= t.hist
    requires InOrder(s, log)
    ensures InOrder(t, log)
  {
    assert forall n | s.Published(n) :: t.Published(n) && t.Pub(n) == s.Pub(n);
    assert forall k | 0 <= k < |log| :: Genuine(s, log[k]) ==> Genuine(t, log[k]);
    assert forall k | 0 < k < |log| :: Follows(s, log[k - 1], log[k]) ==> Follows(t, log[k - 1], log[k]);
  }

  lemma PublishKeepsInv(s: System, p: Publication)
    requires Inv(s) && Allowed(s, Publish(p))
    ensures Inv(Step(s, Publish(p)))
  {
    PublishKeepsMirrors(s, p);
    LongerHistory(s, Step(s, Publish(p)), s.log);
  }

  /** What a poll does, in terms of the producer's history instead of the ring: it delivers when the current
      batch has an unread shred among its first 34, or when the next number is not overwritten yet and has an
      entry of legal size with a batch that lies in the workspace and is not empty. */
  lemma PollOutcome(s: System)
    requires Inv(s) && s.cursor.running
    ensures var next := s.cursor.lastSeq + 1;
            var unread := s.cursor.batch.Some? && s.cursor.shredIdx < 34
                          && s.cursor.shredIdx < s.memory.At(s.cursor.batch.value).count;
            var live := next <= s.base + |s.hist| < next + |s.ring|;
            var sized := live && 0 < s.Pub(next).sz <= 41792;
            var loads := sized && s.Pub(next).chunk * 64 + 41792 <= s.memory.size && s.Pub(next).batch.count > 0;
            var got := GetNext(s.cursor, s.ring, s.memory).1;
            && (got.GotShred? <==> unread || loads)
            && (got.Failed? <==> !unread && sized && !loads)
  {
    NextSlot(s);
  }

  /** Which positions follow each other: every shred of a batch among its first 34, then the next batch. */
  lemma DeliveredPositions(s: System, log: seq<Info>, k: nat)
    requires InOrder(s, log) && 0 < k < |log|
    ensures s.Published(log[k - 1].batchSeq)
    ensures var a, b := log[k - 1], log[k];
            var count := s.Pub(a.batchSeq).batch.count;
            && (b.batchSeq == a.batchSeq <==> a.at + 1 < count && a.at + 1 < 34)
            && b.at == (if b.batchSeq == a.batchSeq then a.at + 1 else 0)
            && (b.batchSeq == a.batchSeq || b.batchSeq == a.batchSeq + 1)
  {
    assert Follows(s, log[k - 1], log[k]);
  }

  /** The producer puts number n into slot n modulo the depth and its batch where the entry says, and touches
      nothing else of the ring. */
  lemma PublishedWhere(s: System, p: Publication)
    requires Mirrors(s) && Allowed(s, Publish(p))
    ensures var t := Step(s, Publish(p));
            var n := s.base + |s.hist| + 1;
            && |t.ring| == |s.ring| && t.ring[n % |s.ring|] == Frag(n, p.sz, p.chunk)
            && (forall i | 0 <= i < |s.ring| && i != n % |s.ring| :: t.ring[i] == s.ring[i])
            && (p.chunk * 64 + 41792 <= s.memory.size ==> t.memory.At(p.chunk) == p.batch)
  {
    SlotInRing(s, s.Newest() + 1);
  }

  /** The slot of the next number holds that number exactly while it is live. */
  lemma NextSlot(s: System)
    requires Inv(s)
    ensures var next := s.cursor.lastSeq + 1;
            && s.cursor.NextSeq() == next
            && (s.ring[s.Slot(next)].seqNo == next <==> s.Live(next))
  {
    SlotOfNumber(s, s.cursor.lastSeq + 1);
  }

  lemma SlotOfNumber(s: System, n: nat)
    requires Mirrors(s) && n > s.base
    ensures s.ring[s.Slot(n)].seqNo == n <==> s.Live(n)
  {
    if s.ring[s.Slot(n)].seqNo == n {
      assert s.LiveAt(n, s.Slot(n));
    }
  }

  lemma PollKeepsInv(s: System)
    requires Inv(s)
    ensures Inv(Step(s, Poll))
  {
    if s.cursor.running {
      if s.cursor.Unread(s.memory) {
        ContinueKeepsInv(s);
      } else if s.Live(s.cursor.lastSeq + 1) && s.Good(s.cursor.lastSeq + 1) {
        LoadStep(s);
        LoadKeepsInv(s);
      } else {
        IdlePoll(s);
      }
    } else {
      assert Step(s, Poll) == s;
    }
  }

  lemma IdlePoll(s: System)
    requires Inv(s) && !s.cursor.Unread(s.memory)
    requires !(s.Live(s.cursor.lastSeq + 1) && s.Good(s.cursor.lastSeq + 1))
    ensures Step(s, Poll) == s
  {
    NextSlot(s);
  }

  lemma ExtendLog(s: System, log: seq<Info>, info: Info)
    requires InOrder(s, log) && Genuine(s, info)
    requires log == [] ==> info.batchSeq == s.start + 1 && info.at == 0
    requires log != [] ==> Follows(s, log[|log| - 1], info)
    ensures InOrder(s, log + [info])
  {
  }

  lemma ContinueKeepsInv(s: System)
    requires Inv(s) && s.cursor.running && s.cursor.Unread(s.memory)
    ensures Inv(Step(s, Poll))
  {
    var t := Step(s, Poll);
    SameRing(s, t);
    ExtendLog(s, s.log, t.log[|s.log|]);
    LongerHistory(s, t, t.log);
  }

  lemma LoadStep(s: System)
    requires Inv(s) && s.cursor.running && !s.cursor.Unread(s.memory)
    requires s.Live(s.cursor.lastSeq + 1) && s.Good(s.cursor.lastSeq + 1)
    ensures Step(s, Poll) == Loaded(s)
  {
    NextSlot(s);
    var t := Loaded(s);
    var frag := s.ring[s.Slot(s.cursor.lastSeq + 1)];
    assert s.memory.Loads(frag.chunk);
    assert GetNext(s.cursor, s.ring, s.memory) == (t.cursor, GotShred(t.log[|s.log|]));
  }

  lemma LoadKeepsInv(s: System)
    requires Inv(s) && !s.cursor.Unread(s.memory)
    requires s.Live(s.cursor.lastSeq + 1) && s.Good(s.cursor.lastSeq + 1)
    ensures Inv(Loaded(s))
  {
    var t := Loaded(s);
    if s.log != [] {
      assert Genuine(s, s.log[|s.log| - 1]);
    }
    ExtendLog(s, s.log, t.log[|s.log|]);
    SameRing(s, t);
    LongerHistory(s, t, t.log);
  }

  lemma SameRing(s: System, t: System)
    requires Mirrors(s)
    requires s.ring == t.ring && s.memory == t.memory && s.base == t.base && s.hist == t.hist
    ensures Mirrors(t)
  {
    assert forall n: nat | t.Live(n) :: s.Live(n) && s.Pub(n) == t.Pub(n);
    assert forall i, n | 0 <= i < |s.ring| && s.LiveAt(n, i) :: t.LiveAt(n, i);
  }

  /** The state after the next batch was loaded and its first shred delivered. */
  function Loaded(s: System): System
    requires s.Live(s.cursor.lastSeq + 1) && s.Newest() < TWO64 - 1
  {
    var next := s.cursor.lastSeq + 1;
    var p := s.Pub(next);
    s.(cursor := s.cursor.(batch := Some(p.chunk), batchSeq := next, shredIdx := 1, lastSeq := next),
       log := s.log + [Info(next, 0, p.batch.shreds[0])])
  }

  /** A consumer that has just attached. */
  ghost predicate Attached(s: System) {
    && Mirrors(s)
    && s.base <= s.start <= s.Newest()
    && s.log == []
    && s.cursor == Cursor(true, None, 0, 0, s.start)
  }

  lemma {:induction false} RunKeepsInv(s: System, es: seq<Event>)
    requires Inv(s) && AllowedRun(s, es)
    ensures Inv(Run(s, es))
    ensures Run(s, es).start == s.start && Run(s, es).base == s.base && s.hist <= Run(s, es).hist
    decreases |es|
  {
    if es != [] {
      match es[0] {
        case Publish(p) => PublishKeepsInv(s, p);
        case Poll => PollKeepsInv(s);
      }
      RunKeepsInv(Step(s, es[0]), es[1..]);
    }
  }

  /** In every interleaving of publications and polls, what the consumer is given is in order, without
      gap or repeat, from the first batch after the start, and carries what was published. */
  lemma RingDelivery(s: System, es: seq<Event>)
    requires Attached(s) && AllowedRun(s, es)
    ensures InOrder(Run(s, es), Run(s, es).log)
  {
    RunKeepsInv(s, es);
  }

  /** Being in order determines the log: of two such logs one is a prefix of the other. */
  lemma {:induction false} OrderIsUnique(s: System, a: seq<Info>, b: seq<Info>, k: nat)
    requires InOrder(s, a) && InOrder(s, b)
    requires k < |a| && k < |b|
    ensures a[k] == b[k]
  {
    if k > 0 {
      OrderIsUnique(s, a, b, k - 1);
      assert Follows(s, a[k - 1], a[k]) && Follows(s, b[k - 1], b[k]);
    }
  }

  /** A drained consumer whose next number is published but cannot be had: already overwritten, or with a
      bad size, or with a batch that does not load. */
  predicate Stuck(s: System) {
    var next := s.cursor.lastSeq + 1;
    !s.cursor.Unread(s.memory) && s.Published(next) && !(s.Live(next) && s.Good(next))
  }

  /** The first two of these. */
  predicate Stalled(s: System) {
    var next := s.cursor.lastSeq + 1;
    && !s.cursor.Unread(s.memory)
    && s.Published(next)
    && !(s.Live(next) && Frag(0, s.Pub(next).sz, s.Pub(next).chunk).GoodSize())
  }

  lemma StuckPublish(s: System, p: Publication)
    requires Inv(s) && Allowed(s, Publish(p)) && Stuck(s)
    ensures Stuck(Step(s, Publish(p))) && (Stalled(s) ==> Stalled(Step(s, Publish(p))))
  {
    assert Step(s, Publish(p)).Pub(s.cursor.lastSeq + 1) == s.Pub(s.cursor.lastSeq + 1);
  }

  /** Once stuck, the consumer never gets another shred and its cursor never moves, whatever is published
      and however often it polls. */
  lemma {:induction false} StuckIsForever(s: System, es: seq<Event>)
    requires Inv(s) && AllowedRun(s, es) && Stuck(s)
    ensures Run(s, es).cursor == s.cursor && Run(s, es).log == s.log
    ensures Inv(Run(s, es)) && Stuck(Run(s, es)) && (Stalled(s) ==> Stalled(Run(s, es)))
    decreases |es|
  {
    if es != [] {
      match es[0] {
        case Publish(p) =>
          PublishKeepsInv(s, p);
          StuckPublish(s, p);
        case Poll =>
          IdlePoll(s);
      }
      StuckIsForever(Step(s, es[0]), es[1..]);
    }
  }

  /** The next number is published with a size the consumer accepts. */
  predicate GoodSizeNext(s: System) {
    var next := s.cursor.lastSeq + 1;
    s.Published(next) && Frag(0, s.Pub(next).sz, s.Pub(next).chunk).GoodSize()
  }

  lemma StuckPoll(s: System)
    requires Inv(s) && Stuck(s) && s.cursor.running
    ensures GetNext(s.cursor, s.ring, s.memory).1 ==
            if s.Live(s.cursor.lastSeq + 1) && GoodSizeNext(s) then Failed else NoShred
  {
    PollOutcome(s);
  }

  lemma StuckAfterFailure(s: System)
    requires Inv(s) && s.cursor.running && GetNext(s.cursor, s.ring, s.memory).1.Failed?
    ensures Stuck(s) && GoodSizeNext(s)
  {
    PollOutcome(s);
  }

  lemma StillGoodSize(s: System, t: System)
    requires s.base == t.base && s.hist <= t.hist && s.cursor == t.cursor && GoodSizeNext(s)
    ensures GoodSizeNext(t)
  {
    assert t.Pub(s.cursor.lastSeq + 1) == s.Pub(s.cursor.lastSeq + 1);
  }

  /** After a lap or a bad size, every later poll of a running consumer says that there is nothing new. */
  lemma StallIsForever(s: System, es: seq<Event>)
    requires Inv(s) && AllowedRun(s, es) && Stalled(s)
    ensures var t := Run(s, es);
            && t.cursor == s.cursor && t.log == s.log && Stalled(t)
            && (s.cursor.running ==> GetNext(t.cursor, t.ring, t.memory).1.NoShred?)
  {
    StuckIsForever(s, es);
    if s.cursor.running { StuckPoll(Run(s, es)); }
  }

  /** After a failed poll no later one would have got anything, so a caller that gives up there misses nothing:
      polls fail as long as the bad entry is in the ring and say that there is nothing new from then on. */
  lemma FailureIsFinal(s: System, es: seq<Event>)
    requires Inv(s) && AllowedRun(s, es) && s.cursor.running
    requires GetNext(s.cursor, s.ring, s.memory).1.Failed?
    ensures var t := Run(s, es);
            && t.cursor == s.cursor && t.log == s.log
            && GetNext(t.cursor, t.ring, t.memory).1 == if t.Live(s.cursor.lastSeq + 1) then Failed else NoShred
  {
    StuckAfterFailure(s);
    StuckIsForever(s, es);
    RunKeepsInv(s, es);
    StillGoodSize(s, Run(s, es));
    StuckPoll(Run(s, es));
  }

  // Catching up

  /** The shreds of the batches from sequence number n on. */
  function Backlog(s: System, n: nat): nat
    requires s.base < n <= s.Newest() + 1
    decreases s.Newest() + 1 - n
  {
    if n == s.Newest() + 1 then 0
    else
      var count := s.Pub(n).batch.count;
      (if count < SHRED34_MAX_COUNT then count else SHRED34_MAX_COUNT) + Backlog(s, n + 1)
  }

  /** The shreds left in the current batch, of which there are at most 34. */
  function LeftInBatch(s: System): nat {
    if s.cursor.batch.None? then 0
    else
      var count := s.memory.At(s.cursor.batch.value).count;
      var size := if count < SHRED34_MAX_COUNT then count else SHRED34_MAX_COUNT;
      if s.cursor.shredIdx < size then size - s.cursor.shredIdx else 0
  }

  /** Everything the consumer has not been given yet. */
  function Waiting(s: System): nat
    requires s.base <= s.cursor.lastSeq <= s.Newest()
  {
    LeftInBatch(s) + Backlog(s, s.cursor.lastSeq + 1)
  }

  /** Not lapped, and everything ahead can be loaded. */
  predicate Clear(s: System) {
    forall n: nat | s.cursor.lastSeq < n <= s.Newest() :: s.Live(n) && s.Good(n)
  }

  lemma PollDelivers(s: System)
    requires Inv(s) && s.cursor.running && Clear(s) && Waiting(s) > 0
    ensures var t := Step(s, Poll);
            && Inv(t) && t.cursor.running && Clear(t) && t.hist == s.hist
            && |t.log| == |s.log| + 1 && s.log <= t.log
            && Waiting(t) == Waiting(s) - 1
  {
    var t := Step(s, Poll);
    PollKeepsInv(s);
    if s.cursor.Unread(s.memory) {
      ContinuedWaiting(s);
    } else {
      WaitingUntilLevel(s);
      assert s.Live(s.cursor.lastSeq + 1) && s.Good(s.cursor.lastSeq + 1);
      LoadStep(s);
      LoadedWaiting(s);
    }
    StillClear(s, t);
  }

  lemma ContinuedWaiting(s: System)
    requires Inv(s) && s.cursor.running && s.cursor.Unread(s.memory)
    ensures Waiting(Step(s, Poll)) == Waiting(s) - 1
  {
    BacklogSame(s, Step(s, Poll), s.cursor.lastSeq + 1);
  }

  lemma LoadedWaiting(s: System)
    requires Inv(s) && !s.cursor.Unread(s.memory)
    requires s.Live(s.cursor.lastSeq + 1) && s.Good(s.cursor.lastSeq + 1)
    ensures Waiting(Loaded(s)) == Waiting(s) - 1
  {
    var t := Loaded(s);
    BacklogSame(s, t, s.cursor.lastSeq + 2);
    assert t.memory.At(t.cursor.batch.value) == s.Pub(t.cursor.lastSeq).batch;
  }

  lemma StillClear(s: System, t: System)
    requires Clear(s)
    requires s.base == t.base && s.hist == t.hist && s.ring == t.ring && s.memory == t.memory
    requires s.cursor.lastSeq <= t.cursor.lastSeq
    ensures Clear(t)
  {
    forall n: nat | t.cursor.lastSeq < n <= t.Newest()
      ensures t.Live(n) && t.Good(n)
    {
      assert s.Live(n) && s.Good(n);
    }
  }

  lemma {:induction false} BacklogSame(s: System, t: System, n: nat)
    requires s.base == t.base && s.hist == t.hist
    requires s.base < n <= s.Newest() + 1
    ensures Backlog(s, n) == Backlog(t, n)
    decreases s.Newest() + 1 - n
  {
    if n <= s.Newest() { BacklogSame(s, t, n + 1); }
  }

  function PollTimes(s: System, n: nat): System
    decreases n
  {
    if n == 0 then s else PollTimes(Step(s, Poll), n - 1)
  }

  lemma PollUnfolds(s: System, n: nat)
    ensures PollTimes(s, n) == if n == 0 then s else PollTimes(Step(s, Poll), n - 1)
  {
  }

  lemma CursorWithin(s: System)
    requires Inv(s)
    ensures s.base <= s.cursor.lastSeq <= s.Newest()
  {
  }

  /** Progress: with nothing lost and no bad entry, exactly as many polls as there are unread shreds
      deliver all of them, and then the consumer is level with the producer. */
  lemma {:induction false} CatchUp(s: System)
    requires Inv(s) && s.cursor.running && Clear(s)
    ensures var t := PollTimes(s, Waiting(s));
            && |t.log| == |s.log| + Waiting(s) && s.log <= t.log
            && t.hist == s.hist
            && t.cursor.lastSeq == t.base + |t.hist| && LeftInBatch(t) == 0
    decreases Waiting(s)
  {
    hide *;
    CursorWithin(s);
    PollUnfolds(s, Waiting(s));
    if Waiting(s) > 0 {
      PollDelivers(s);
      var u := Step(s, Poll);
      CursorWithin(u);
      CatchUp(u);
      PrefixTransitive(s.log, u.log, PollTimes(u, Waiting(u)).log);
    } else {
      WaitingUntilLevel(s);
    }
  }

  lemma PrefixTransitive<T>(a: seq<T>, b: seq<T>, c: seq<T>)
    requires a <= b && b <= c
    ensures a <= c
  {
  }

  lemma WaitingUntilLevel(s: System)
    requires Inv(s) && Clear(s)
    ensures Waiting(s) == 0 <==> s.cursor.lastSeq == s.base + |s.hist| && LeftInBatch(s) == 0
  {
    if s.cursor.lastSeq < s.Newest() {
      assert s.Good(s.cursor.lastSeq + 1);
    }
  }

  // Attaching

  /** The scan at start finds the newest number exactly when no slot outside the mirrored ones holds a
      larger one and, if nothing was published yet, the slots do hold the number before the first. */
  lemma StartPoint(s: System)
    requires forall n: nat | s.Live(n) :: s.ring[s.Slot(n)].seqNo == n
    ensures MaxSeq(s.ring) == s.Newest() <==>
              && (forall i | 0 <= i < |s.ring| :: s.ring[i].seqNo <= s.Newest())
              && (s.hist == [] && s.base > 0 ==> exists i | 0 <= i < |s.ring| :: s.ring[i].seqNo == s.base)
  {
    if s.hist != [] {
      assert s.Live(s.Newest());
      assert s.ring[s.Slot(s.Newest())].seqNo == s.Newest();
    }
  }

  /** Where a consumer that has just run the scan stands. */
  function Scanned(s: System): System
    requires s.Newest() < TWO64 - 1
  {
    s.(start := s.Newest(), cursor := Cursor(true, None, 0, 0, MaxSeq(s.ring)), log := [])
  }

  /** On a mirrored ring the scan attaches the consumer at the newest number, so that the first batch it
      is given is the next one published. The exception is a ring on which nothing was published since it
      was mirrored and whose slots do not hold the number before. */
  lemma ScanAttaches(s: System)
    requires Mirrors(s)
    ensures Attached(Scanned(s)) <==>
              (s.hist == [] && s.base > 0 ==> exists i | 0 <= i < |s.ring| :: s.ring[i].seqNo == s.base)
  {
    SameRing(s, Scanned(s));
    forall i | 0 <= i < |s.ring|
      ensures s.ring[i].seqNo <= s.Newest()
    {
      assert s.ring[i].seqNo <= s.base || s.LiveAt(s.ring[i].seqNo, i);
    }
    StartPoint(s);
  }

  // The producer goes on publishing while the scan reads slot after slot

  /** found is what the slots read so far held when they were read. */
  datatype Scan = Scan(s: System, found: seq<Frag>)

  datatype ScanEvent = Read | Write(p: Publication)

  function ScanStep(c: Scan, e: ScanEvent): Scan {
    match e
    case Read => if |c.found| < |c.s.ring| then c.(found := c.found + [c.s.ring[|c.found|]]) else c
    case Write(p) => c.(s := Step(c.s, Publish(p)))
  }

  function ScanRun(c: Scan, es: seq<ScanEvent>): Scan
    decreases |es|
  {
    if es == [] then c else ScanRun(ScanStep(c, es[0]), es[1..])
  }

  ghost predicate AllowedScan(c: Scan, es: seq<ScanEvent>)
    decreases |es|
  {
    es == [] || ((es[0].Write? ==> Allowed(c.s, Publish(es[0].p))) && AllowedScan(ScanStep(c, es[0]), es[1..]))
  }

  /** Nothing found is newer than the newest, and slot i is not read yet or held n or a later number. */
  ghost predicate ScanInv(c: Scan, n: nat, i: nat) {
    && Mirrors(c.s) && |c.found| <= |c.s.ring|
    && (forall k | 0 <= k < |c.found| :: c.found[k].seqNo <= c.s.Newest())
    && i < |c.s.ring| && c.s.ring[i].seqNo >= n
    && (i < |c.found| ==> c.found[i].seqNo >= n)
  }

  lemma SlotsAreOld(s: System, i: nat)
    requires Mirrors(s) && i < |s.ring|
    ensures s.ring[i].seqNo <= s.Newest()
  {
    assert s.ring[i].seqNo <= s.base || s.LiveAt(s.ring[i].seqNo, i);
  }

  lemma ScanStepKeepsInv(c: Scan, e: ScanEvent, n: nat, i: nat)
    requires ScanInv(c, n, i) && (e.Write? ==> Allowed(c.s, Publish(e.p)))
    ensures ScanInv(ScanStep(c, e), n, i)
  {
    match e {
      case Read => if |c.found| < |c.s.ring| { SlotsAreOld(c.s, |c.found|); }
      case Write(p) =>
        PublishKeepsMirrors(c.s, p);
        SlotsAreOld(c.s, i);
    }
  }

  lemma {:induction false} ScanRunKeepsInv(c: Scan, es: seq<ScanEvent>, n: nat, i: nat)
    requires ScanInv(c, n, i) && AllowedScan(c, es)
    ensures ScanInv(ScanRun(c, es), n, i)
    ensures var t := ScanRun(c, es).s;
            t.base == c.s.base && |t.ring| == |c.s.ring| && |c.s.hist| <= |t.hist|
    decreases |es|
  {
    if es != [] {
      ScanStepKeepsInv(c, es[0], n, i);
      ScanRunKeepsInv(ScanStep(c, es[0]), es[1..], n, i);
    }
  }

  /** The newest number is in the ring. */
  ghost predicate NewestInRing(s: System) {
    exists i | 0 <= i < |s.ring| :: s.ring[i].seqNo == s.Newest()
  }

  /** In every interleaving of slot reads and publications, a finished scan has found a number between the newest
      at its start and the newest at its end, and attaches the consumer there: no batch published after the
      scan is skipped, and none from before its start is delivered. */
  lemma ScanBesideProducer(s: System, es: seq<ScanEvent>)
    requires Mirrors(s) && NewestInRing(s) && AllowedScan(Scan(s, []), es)
    ensures var t := ScanRun(Scan(s, []), es);
            var m := MaxSeq(t.found);
            |t.found| == |t.s.ring| ==>
              && s.Newest() <= m <= t.s.Newest()
              && Attached(t.s.(start := m, cursor := Cursor(true, None, 0, 0, m), log := []))
  {
    var i :| 0 <= i < |s.ring| && s.ring[i].seqNo == s.Newest();
    ScanRunKeepsInv(Scan(s, []), es, s.Newest(), i);
    var t := ScanRun(Scan(s, []), es);
    var m := MaxSeq(t.found);
    SameRing(t.s, t.s.(start := m, cursor := Cursor(true, None, 0, 0, m), log := []));
  }

  // Why the producer must leave a used-up batch alone

  /** The length of the current batch is read again on every poll. So the clause on the length is needed: if the
      used-up batch is written over by a longer one than what was consumed, and only then, the very next poll
      breaks the order of delivery, with a shred of the new batch under the number of the old. */
  lemma UsedUpBatchRevives(s: System, p: Publication)
    requires Inv(s) && s.cursor.running && AllowedPlace(s, p)
    requires s.cursor.batch == Some(p.chunk) && s.memory.InBounds(p.chunk)
    ensures var u := Step(Step(s, Publish(p)), Poll);
            && (InOrder(u, u.log) <==> p.batch.count <= s.cursor.shredIdx || 34 <= s.cursor.shredIdx)
            && (p.batch.count > s.cursor.shredIdx && 34 > s.cursor.shredIdx ==>
                  u.log == s.log + [Info(s.cursor.lastSeq, s.cursor.shredIdx, p.batch.shreds[s.cursor.shredIdx])])
  {
    var t := Step(s, Publish(p));
    if Capped(p.batch) <= s.cursor.shredIdx {
      PublishKeepsInv(s, p);
      PollKeepsInv(t);
    } else {
      RevivedPoll(s, p);
      var u := Step(t, Poll);
      assert !Genuine(u, u.log[|s.log|]);
    }
  }

  lemma RevivedPoll(s: System, p: Publication)
    requires Inv(s) && s.cursor.running && AllowedPlace(s, p)
    requires s.cursor.batch == Some(p.chunk) && s.memory.InBounds(p.chunk) && Capped(p.batch) > s.cursor.shredIdx
    ensures var u := Step(Step(s, Publish(p)), Poll);
            var info := Info(s.cursor.lastSeq, s.cursor.shredIdx, p.batch.shreds[s.cursor.shredIdx]);
            u.log == s.log + [info] && !Genuine(u, info)
  {
    var t := Step(s, Publish(p));
    assert t.Pub(s.cursor.lastSeq) == s.Pub(s.cursor.lastSeq);
    assert t.cursor.Unread(t.memory) && t.memory.At(p.chunk) == p.batch;
  }
}
