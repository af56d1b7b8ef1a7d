/**
 * The filter for replayed invalidations: a ring of the most recently inserted (parent, name) keys
 * with the highest version seen for each.
 */
module ReplayFilter {
  const SLOTS: nat := 256

  datatype Key = Key(parent: nat, name: string)

  datatype Slot = Empty | Used(key: Key, version: nat)

  // ------------------------------------------------------------ the ring as a queue

  /** Keys in the order of insertion, oldest first. */
  type Queue = seq<Slot>

  ghost predicate IsQueue(q: Queue) {
    && |q| <= SLOTS && (forall i :: 0 <= i < |q| ==> q[i].Used?)
    && (forall i, j :: 0 <= i < j < |q| ==> q[i].key != q[j].key)
  }

  ghost predicate HoldsAt(q: Queue, i: int, k: Key) {
    0 <= i < |q| && q[i].Used? && q[i].key == k
  }

  ghost predicate Holds(q: Queue, k: Key) {
    exists i :: HoldsAt(q, i, k)
  }

  /** A fresh key goes to the end; a full ring loses its oldest key. */
  function Push(q: Queue, s: Slot): Queue {
    (if |q| < SLOTS then q else q[1..]) + [s]
  }

  /** A notification is dropped if its key is held with this version or a later one. */
  ghost predicate IsReplay(q: Queue, k: Key, version: nat) {
    exists i :: HoldsAt(q, i, k) && version <= q[i].version
  }

  /** What a notification does to the queue. */
  ghost predicate Records(q: Queue, k: Key, version: nat, q': Queue) {
    if Holds(q, k) then
      exists i :: HoldsAt(q, i, k) && q' == if version <= q[i].version then q else q[i := Used(k, version)]
    else q' == Push(q, Used(k, version))
  }

  class Filter {
    const slots: array<Slot>
    var cursor: nat
    ghost var filled: nat

    /** Slots fill from the front; the cursor moves only when all are in use. */
    ghost predicate Valid()
      reads this, slots
    {
      && slots.Length == SLOTS && cursor < SLOTS && filled <= SLOTS && (filled < SLOTS ==> cursor == 0)
      && (forall i :: 0 <= i < SLOTS ==> (slots[i].Used? <==> i < filled))
      && (forall i, j :: 0 <= i < j < filled ==> slots[i].key != slots[j].key)
    }

    constructor ()
      ensures Valid() && fresh(slots) && Order() == []
    {
      slots := new Slot[SLOTS](_ => Empty);
      cursor, filled := 0, 0;
    }

    ghost function Order(): Queue
      requires Valid()
      reads this, slots
    {
      if filled < SLOTS then slots[..filled] else slots[cursor..] + slots[..cursor]
    }

    lemma OrderIsQueue()
      requires Valid()
      ensures IsQueue(Order())
      ensures forall k :: Holds(Order(), k) <==> exists i :: 0 <= i < filled && slots[i].key == k
    {
      var q := Order();
      forall k
        ensures Holds(q, k) <==> exists i :: 0 <= i < filled && slots[i].key == k
      {
        if i :| 0 <= i < filled && slots[i].key == k {
          assert HoldsAt(q, if filled < SLOTS then i else if i >= cursor then i - cursor else i + SLOTS - cursor, k);
        }
        if i :| HoldsAt(q, i, k) {
          var j := if filled < SLOTS then i else if i < SLOTS - cursor then i + cursor else i - (SLOTS - cursor);
          assert 0 <= j < filled && slots[j].key == k;
        }
      }
    }

    /** The scan for the key; also finds the first empty slot. */
    method Scan(k: Key) returns (hit: nat, free: nat)
      requires Valid()
      ensures hit <= SLOTS && (hit == SLOTS ==> free == filled)
      ensures hit < SLOTS ==> slots[hit].Used? && slots[hit].key == k
      ensures hit == SLOTS ==> forall i :: 0 <= i < SLOTS && slots[i].Used? ==> slots[i].key != k
    {
      hit, free := SLOTS, SLOTS;
      for i := 0 to SLOTS
        invariant hit == SLOTS && free == (if filled < i then filled else SLOTS)
        invariant forall j :: 0 <= j < i && slots[j].Used? ==> slots[j].key != k
      {
        if slots[i].Empty? {
          if free == SLOTS {
            free := i;
          }
        } else if slots[i].key == k {
          hit := i;
          return;
        }
      }
    }

    /** Where a slot stands in the order of insertion. */
    ghost function Place(i: nat): nat
      requires Valid() && i < filled
      reads this, slots
    {
      if filled < SLOTS then i else if i >= cursor then i - cursor else i + SLOTS - cursor
    }

    method Update(hit: nat, version: nat)
      requires Valid() && hit < filled
      modifies slots
      ensures Valid() && filled == old(filled) && cursor == old(cursor)
      ensures Order() == old(Order())[old(Place(hit)) := Used(old(slots[hit].key), version)]
    {
      slots[hit] := Used(slots[hit].key, version);
    }

    /** Insert a fresh key into the first empty slot, or over the oldest key. */
    method Insert(k: Key, version: nat, free: nat)
      requires Valid() && free == filled && forall i :: 0 <= i < filled ==> slots[i].key != k
      modifies this, slots
      ensures Valid() && Order() == Push(old(Order()), Used(k, version))
    {
      var at := free;
      if free == SLOTS {
        at := cursor;
        cursor := (cursor + 1) % SLOTS;
      } else {
        filled := filled + 1;
      }
      slots[at] := Used(k, version);
    }

    /** dentry_dedup_check_and_record_locked, with memory for the name available. */
    method CheckAndRecord(k: Key, version: nat) returns (skip: bool)
      requires Valid()
      modifies this, slots
      ensures Valid()
      ensures skip <==> IsReplay(old(Order()), k, version)
      ensures Records(old(Order()), k, version, Order())
    {
      OrderIsQueue();
      ghost var q := Order();
      var hit, free := Scan(k);
      if hit < SLOTS {
        assert HoldsAt(q, Place(hit), k) && q[Place(hit)].version == slots[hit].version;
        if version <= slots[hit].version {
          return true;
        }
        Update(hit, version);
        return false;
      }
      assert !Holds(q, k);
      Insert(k, version, free);
      return false;
    }
  }

  // ------------------------------------------------------------ runs of notifications

  datatype Note = Note(key: Key, version: nat)

  /** The queue before each notification and at the end. */
  ghost predicate IsRun(run: seq<Queue>, notes: seq<Note>) {
    && |run| == |notes| + 1 && IsQueue(run[0])
    && forall t :: 0 <= t < |notes| ==> Records(run[t], notes[t].key, notes[t].version, run[t + 1])
  }

  lemma RecordsKeepsQueue(q: Queue, k: Key, version: nat, q': Queue)
    requires IsQueue(q) && Records(q, k, version, q')
    ensures IsQueue(q')
  {
    if !Holds(q, k) {
      assert forall i :: 0 <= i < |q| ==> HoldsAt(q, i, q[i].key);
    }
  }

  /** At every moment each key has at most one slot. */
  lemma {:induction false} RunIsQueue(run: seq<Queue>, notes: seq<Note>, t: nat)
    requires IsRun(run, notes) && t < |run|
    ensures IsQueue(run[t])
  {
    if t > 0 {
      RunIsQueue(run, notes, t - 1);
      RecordsKeepsQueue(run[t - 1], notes[t - 1].key, notes[t - 1].version, run[t]);
    }
  }

  /** Fresh keys among the first t notifications. */
  ghost function Fresh(run: seq<Queue>, notes: seq<Note>, t: nat): nat
    requires IsRun(run, notes) && t <= |notes|
  {
    if t == 0 then 0 else Fresh(run, notes, t - 1) + (if Holds(run[t - 1], notes[t - 1].key) then 0 else 1)
  }

  /** A key at a place moves one place forward for each fresh key, once the ring is full. */
  lemma PlaceMoves(q: Queue, k: Key, version: nat, q': Queue, i: nat, other: Key)
    requires IsQueue(q) && Records(q, k, version, q') && HoldsAt(q, i, other)
    ensures Holds(q, k) ==> HoldsAt(q', i, other) && |q'| == |q|
    ensures !Holds(q, k) && |q| - i < SLOTS ==> HoldsAt(q', |q'| - (|q| - i + 1), other)
    ensures !Holds(q, k) && |q| - i == SLOTS && k != other ==> !Holds(q', other)
  {
  }

  /**
   * Eviction is in the order of insertion: a key that has `age` keys from itself to the end of the
   * queue is held after t further notifications exactly if age plus the fresh keys among them is at
   * most 256 (as long as it is not itself notified). A new key has age 1 and so survives the next 255
   * fresh keys, and no more.
   */
  lemma {:induction false} SurvivesFreshKeys(run: seq<Queue>, notes: seq<Note>, t: nat, i: nat, k: Key)
    requires IsRun(run, notes) && t <= |notes| && HoldsAt(run[0], i, k)
    requires forall j :: 0 <= j < t ==> notes[j].key != k
    ensures Holds(run[t], k) <==> |run[0]| - i + Fresh(run, notes, t) <= SLOTS
    ensures Holds(run[t], k) ==> HoldsAt(run[t], |run[t]| - (|run[0]| - i + Fresh(run, notes, t)), k)
  {
    RunIsQueue(run, notes, 0);
    if t > 0 {
      SurvivesFreshKeys(run, notes, t - 1, i, k);
      RunIsQueue(run, notes, t - 1);
      var q, n := run[t - 1], notes[t - 1];
      var age := |run[0]| - i + Fresh(run, notes, t - 1);
      if Holds(q, k) {
        PlaceMoves(q, n.key, n.version, run[t], |q| - age, k);
      } else {
        NotHeldStays(q, n.key, n.version, run[t], k);
      }
    }
  }

  lemma NotHeldStays(q: Queue, k: Key, version: nat, q': Queue, other: Key)
    requires Records(q, k, version, q') && !Holds(q, other) && k != other
    ensures !Holds(q', other)
  {
    forall j
      ensures !HoldsAt(q', j, other)
    {
      assert HoldsAt(q', j, other) ==> HoldsAt(q, if Holds(q, k) || |q| < SLOTS then j else j + 1, other);
    }
  }

  // ------------------------------------------------------------ accepted versions rise

  /** The recorded version of a key that stays held does not fall, and an accepted one is recorded. */
  lemma VersionStep(q: Queue, k: Key, version: nat, q': Queue, other: Key, low: nat)
    requires IsQueue(q) && Records(q, k, version, q') && Holds(q', other)
    requires forall i :: HoldsAt(q, i, other) ==> q[i].version >= low
    requires Holds(q, other) || (k == other && version >= low)
    ensures forall i :: HoldsAt(q', i, other) ==> q'[i].version >= low
    ensures k == other && !IsReplay(q, k, version) ==> forall i :: HoldsAt(q', i, other) ==> q'[i].version >= version
  {
    RecordsKeepsQueue(q, k, version, q');
    if Holds(q, k) {
      var h :| HoldsAt(q, h, k) && q' == if version <= q[h].version then q else q[h := Used(k, version)];
      forall i | HoldsAt(q', i, other)
        ensures q'[i].version >= low && (k == other && !IsReplay(q, k, version) ==> q'[i].version >= version)
      {
        assert HoldsAt(q, i, other);
      }
    } else {
      forall i | HoldsAt(q', i, other)
        ensures q'[i].version >= low && (k == other && !IsReplay(q, k, version) ==> q'[i].version >= version)
      {
        if i < |q'| - 1 {
          assert HoldsAt(q, if |q| < SLOTS then i else i + 1, other);
        }
      }
    }
  }

  lemma {:induction false} VersionsStay(run: seq<Queue>, notes: seq<Note>, x: nat, t: nat, k: Key)
    requires IsRun(run, notes) && x < t <= |notes| && notes[x].key == k && !IsReplay(run[x], k, notes[x].version)
    requires forall j :: x < j <= t ==> Holds(run[j], k)
    ensures forall i :: HoldsAt(run[t], i, k) ==> run[t][i].version >= notes[x].version
  {
    RunIsQueue(run, notes, t - 1);
    if t == x + 1 {
      VersionStep(run[x], k, notes[x].version, run[t], k, 0);
    } else {
      VersionsStay(run, notes, x, t - 1, k);
      VersionStep(run[t - 1], notes[t - 1].key, notes[t - 1].version, run[t], k, notes[x].version);
    }
  }

  /** While a key is held, the versions accepted for it are strictly increasing. */
  lemma AcceptedVersionsRise(run: seq<Queue>, notes: seq<Note>, x: nat, y: nat, k: Key)
    requires IsRun(run, notes) && x < y < |notes| && notes[x].key == notes[y].key == k
    requires !IsReplay(run[x], k, notes[x].version) && !IsReplay(run[y], k, notes[y].version)
    requires forall j :: x < j <= y ==> Holds(run[j], k)
    ensures notes[x].version < notes[y].version
  {
    VersionsStay(run, notes, x, y, k);
    var i :| HoldsAt(run[y], i, k);
    assert run[y][i].version >= notes[x].version;
  }
}
