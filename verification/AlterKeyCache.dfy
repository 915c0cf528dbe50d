/**
 The two-generation set of shred keys (pkg/cache/alterkey.go) and its refinement of a map from key
 to the rotation in which the key was last accepted.
 */
module AlterKeyCache {

  type Key = nat

  /** The contents of the two Go maps. */
  datatype Generations = Generations(current: set<Key>, altered: set<Key>) {
    predicate Has(key: Key) { key in current || key in altered }
  }

  const EMPTY := Generations({}, {})

  function Insert(g: Generations, key: Key): Generations {
    if g.Has(key) then g else g.(current := g.current + {key})
  }

  function Rotate(g: Generations): Generations {
    Generations({}, g.current)
  }

  class AlterKey {
    var current: set<Key>
    var altered: set<Key>

    constructor ()
      ensures Contents() == EMPTY
    {
      current, altered := {}, {};
    }

    ghost function Contents(): Generations
      reads this
    {
      Generations(current, altered)
    }

    method Set(key: Key) returns (accepted: bool)
      modifies this
      ensures accepted == !old(Contents()).Has(key)
      ensures Contents() == Insert(old(Contents()), key)
    {
      if key in current {
        return false;
      }
      if key in altered {
        return false;
      }
      current := current + {key};
      return true;
    }

    /** One turn of the cleanup loop: clear altered, then swap the two maps. */
    method Cleanup()
      modifies this
      ensures Contents() == Rotate(old(Contents()))
    {
      altered := {};
      altered, current := current, altered;
    }

    /** What the other users of the cache have made of it by now. */
    method Refresh(g: Generations)
      modifies this
      ensures Contents() == g
    {
      current, altered := g.current, g.altered;
    }
  }

  // Whole runs

  datatype Op = Set(key: Key) | Cleanup

  function Apply(g: Generations, op: Op): Generations {
    match op
    case Set(key) => Insert(g, key)
    case Cleanup => Rotate(g)
  }

  function After(ops: seq<Op>): Generations {
    if ops == [] then EMPTY else Apply(After(ops[..|ops| - 1]), ops[|ops| - 1])
  }

  /** Operation i of the run is a Set that returned true. */
  predicate Accepted(ops: seq<Op>, i: nat) {
    i < |ops| && ops[i].Set? && !After(ops[..i]).Has(ops[i].key)
  }

  /** The number of rotations in a run. */
  function Rotations(ops: seq<Op>): nat {
    if ops == [] then 0 else Rotations(ops[..|ops| - 1]) + (if ops[|ops| - 1].Cleanup? then 1 else 0)
  }

  /** The simple form: a clock of rotations and, per key, the rotation that last accepted it. */
  datatype Stamps = Stamps(epoch: nat, last: map<Key, nat>) {
    /** Accepted in this rotation or the one before. */
    predicate Fresh(key: Key) { key in last && epoch < last[key] + 2 }
  }

  function ApplyStamps(s: Stamps, op: Op): Stamps {
    match op
    case Set(key) => if s.Fresh(key) then s else s.(last := s.last[key := s.epoch])
    case Cleanup => s.(epoch := s.epoch + 1)
  }

  function StampsAfter(ops: seq<Op>): Stamps {
    if ops == [] then Stamps(0, map[]) else ApplyStamps(StampsAfter(ops[..|ops| - 1]), ops[|ops| - 1])
  }

  ghost predicate Refines(g: Generations, s: Stamps) {
    && (forall k :: k in g.current <==> k in s.last && s.last[k] == s.epoch)
    && (forall k :: k in g.altered <==> k in s.last && s.last[k] + 1 == s.epoch)
    && (forall k | k in s.last :: s.last[k] <= s.epoch)
  }

  /** The two-generation set behaves as the stamped map, over every run: it holds a key exactly while
      the stamp is fresh, and no key is ever in both generations. */
  lemma {:induction false} CacheRefinement(ops: seq<Op>)
    ensures Refines(After(ops), StampsAfter(ops))
    ensures forall k :: After(ops).Has(k) <==> StampsAfter(ops).Fresh(k)
    ensures After(ops).current !! After(ops).altered
  {
    if ops != [] {
      CacheRefinement(ops[..|ops| - 1]);
    }
  }

  /** What the stamps mean: the clock counts rotations, and a stamp is the clock at the last accepted
      Set of that key. Rejected Sets leave no trace. */
  lemma {:induction false} StampMeaning(ops: seq<Op>, key: Key)
    ensures StampsAfter(ops).epoch == Rotations(ops)
    ensures key !in StampsAfter(ops).last ==>
              forall i | 0 <= i < |ops| && ops[i] == Set(key) :: !Accepted(ops, i)
    ensures key in StampsAfter(ops).last ==>
              exists i | 0 <= i < |ops| ::
                && ops[i] == Set(key) && Accepted(ops, i)
                && StampsAfter(ops).last[key] == Rotations(ops[..i])
                && forall j | i < j < |ops| && ops[j] == Set(key) :: !Accepted(ops, j)
  {
    if ops != [] {
      var n := |ops| - 1;
      var init := ops[..n];
      StampMeaning(init, key);
      CacheRefinement(init);
      assert forall j | 0 <= j < n :: ops[j] == init[j];
      assert forall j | 0 <= j <= n :: ops[..j] == init[..j];
      if ops[n] == Set(key) && Accepted(ops, n) {
        assert StampsAfter(ops).last[key] == Rotations(ops[..n]);
      }
    }
  }

  lemma {:induction false} RotationsMonotone(ops: seq<Op>, i: nat, j: nat)
    requires i <= j <= |ops|
    ensures Rotations(ops[..i]) <= Rotations(ops[..j])
    decreases j
  {
    if i < j {
      assert ops[..j][..j - 1] == ops[..j - 1];
      RotationsMonotone(ops, i, j - 1);
    }
  }

  /** The contract of Set in terms of the run alone: it returns true exactly when every earlier accepted
      Set of the same key is at least two rotations back. */
  lemma SetHistory(ops: seq<Op>, j: nat)
    requires j < |ops| && ops[j].Set?
    ensures Accepted(ops, j) <==>
              forall i | 0 <= i < j && ops[i] == ops[j] && Accepted(ops, i) ::
                Rotations(ops[..i]) + 2 <= Rotations(ops[..j])
  {
    var key := ops[j].key;
    var init := ops[..j];
    CacheRefinement(init);
    StampMeaning(init, key);
    assert forall i | 0 <= i < j :: init[i] == ops[i] && init[..i] == ops[..i];
    assert forall i | 0 <= i < j :: Accepted(init, i) == Accepted(ops, i);
    if key in StampsAfter(init).last {
      var m :| 0 <= m < j && init[m] == Set(key) && Accepted(init, m)
               && StampsAfter(init).last[key] == Rotations(init[..m])
               && forall i | m < i < j && init[i] == Set(key) :: !Accepted(init, i);
      forall i | 0 <= i < j && ops[i] == ops[j] && Accepted(ops, i)
        ensures Rotations(ops[..i]) <= Rotations(ops[..m])
      {
        assert i <= m;
        RotationsMonotone(ops, i, m);
      }
    }
  }
}
