/**
 * The cached entries of a directory: a list in which removed entries stay as tombstones, so that
 * readers can hold a position in it. A refetch merges the server's pages into the list and then
 * sweeps entries that the server no longer has.
 */
module DirCache {
  type Name = string

  /** epoch is the refetch that last saw the entry, or zero for a local entry that none has seen. */
  datatype Entry = Entry(name: Name, ino: nat, kind: nat, deleted: bool, epoch: nat)

  datatype Listed = Listed(name: Name, ino: nat, kind: nat)

  const ENOENT: int := -2
  const COMPACT_MIN: nat := 64

  // ------------------------------------------------------------ the state of one name

  datatype NameState = Absent | Active(ino: nat, kind: nat, epoch: nat) | Dead(ino: nat)

  function EntryState(e: Entry): NameState {
    if e.deleted then Dead(e.ino) else Active(e.ino, e.kind, e.epoch)
  }

  function StateOf(entries: seq<Entry>, n: Name): NameState {
    if entries == [] then Absent
    else if entries[0].name == n then EntryState(entries[0])
    else StateOf(entries[1..], n)
  }

  ghost predicate Unique(entries: seq<Entry>) {
    forall i, j :: 0 <= i < j < |entries| ==> entries[i].name != entries[j].name
  }

  lemma {:induction false} StateFound(entries: seq<Entry>, i: nat)
    requires Unique(entries) && i < |entries|
    ensures StateOf(entries, entries[i].name) == EntryState(entries[i])
  {
    if i > 0 {
      StateFound(entries[1..], i - 1);
    }
  }

  lemma {:induction false} StateMissing(entries: seq<Entry>, n: Name)
    requires forall i :: 0 <= i < |entries| ==> entries[i].name != n
    ensures StateOf(entries, n) == Absent
  {
    if entries != [] {
      StateMissing(entries[1..], n);
    }
  }

  /** An entry with changed contents changes the state of its own name only. */
  lemma {:induction false} StateUpdate(entries: seq<Entry>, i: nat, e: Entry, n: Name)
    requires Unique(entries) && i < |entries| && e.name == entries[i].name
    ensures StateOf(entries[i := e], n) == if n == e.name then EntryState(e) else StateOf(entries, n)
  {
    if i > 0 {
      StateUpdate(entries[1..], i - 1, e, n);
      assert entries[i := e][1..] == entries[1..][i - 1 := e];
    } else {
      assert entries[i := e][1..] == entries[1..];
    }
  }

  lemma {:induction false} StateAppend(entries: seq<Entry>, e: Entry, n: Name)
    requires forall i :: 0 <= i < |entries| ==> entries[i].name != e.name
    ensures StateOf(entries + [e], n) == if n == e.name then EntryState(e) else StateOf(entries, n)
  {
    if entries != [] {
      StateAppend(entries[1..], e, n);
      assert (entries + [e])[1..] == entries[1..] + [e];
    } else {
      assert (entries + [e])[1..] == [];
    }
  }

  /** Positions in the list keep their names; entries are only added at the end. */
  ghost predicate Extends(before: seq<Entry>, after: seq<Entry>) {
    |before| <= |after| && forall i :: 0 <= i < |before| ==> after[i].name == before[i].name
  }

  // ------------------------------------------------------------ what each operation does to a name

  datatype Event = Added(name: Name, ino: nat, kind: nat) | Removed(name: Name) | Page(listed: seq<Listed>)

  /** The server lists the name with this inode, in refetch `epoch`. */
  function See(st: NameState, ino: nat, kind: nat, epoch: nat): NameState {
    match st
    case Absent => Active(ino, kind, epoch)
    case Active(i, k, _) => Active(i, k, epoch)
    case Dead(i) => if i != ino then Active(ino, kind, epoch) else st
  }

  function SeeAll(st: NameState, listed: seq<Listed>, n: Name, epoch: nat): NameState {
    if listed == [] then st else SeeOne(SeeAll(st, listed[..|listed| - 1], n, epoch), listed[|listed| - 1], n, epoch)
  }

  function SeeOne(st: NameState, l: Listed, n: Name, epoch: nat): NameState {
    if l.name == n then See(st, l.ino, l.kind, epoch) else st
  }

  /** Compaction forgets tombstones. */
  function Forgotten(st: NameState): NameState {
    if st.Dead? then Absent else st
  }

  function Step(st: NameState, ev: Event, n: Name, epoch: nat): NameState {
    match ev
    case Added(m, ino, kind) => if m == n then Active(ino, kind, 0) else st
    case Removed(m) => if m == n && st.Active? then Dead(st.ino) else st
    case Page(listed) => SeeAll(st, listed, n, epoch)
  }

  /** A refetch that reached the server drops what it did not see, unless it is local and unseen. */
  function Swept(st: NameState, epoch: nat): NameState {
    if st.Active? && st.epoch != 0 && st.epoch != epoch then Dead(st.ino) else st
  }

  function SweptIf(reached: bool, st: NameState, epoch: nat): NameState {
    if reached then Swept(st, epoch) else st
  }

  /** The first i pages, each with the local changes that came before it. */
  function Interleaved(pages: seq<seq<Listed>>, local: seq<seq<Event>>, i: nat): seq<Event>
    requires i <= |pages| < |local|
  {
    if i == 0 then [] else Interleaved(pages, local, i - 1) + local[i - 1] + [Page(pages[i - 1])]
  }

  // ------------------------------------------------------------ what each operation does to the list

  /** The slot of a name, or the end of the list. */
  function IndexOf(entries: seq<Entry>, n: Name): (i: nat)
    ensures i <= |entries| && (i < |entries| ==> entries[i].name == n)
    ensures forall k :: 0 <= k < i ==> entries[k].name != n
  {
    if entries == [] || entries[0].name == n then 0 else 1 + IndexOf(entries[1..], n)
  }

  /** An entry takes the slot of its name, or a new one at the end. */
  function Set(entries: seq<Entry>, e: Entry): (after: seq<Entry>)
    ensures Unique(entries) ==> Unique(after) && Extends(entries, after)
  {
    var i := IndexOf(entries, e.name);
    if i < |entries| then entries[i := e] else entries + [e]
  }

  function AddTo(entries: seq<Entry>, name: Name, ino: nat, kind: nat): seq<Entry> {
    Set(entries, Entry(name, ino, kind, false, 0))
  }

  function RemoveFrom(entries: seq<Entry>, name: Name): seq<Entry> {
    var i := IndexOf(entries, name);
    if i < |entries| then Set(entries, entries[i].(deleted := true)) else entries
  }

  function MergeInto(entries: seq<Entry>, l: Listed, epoch: nat): seq<Entry> {
    var i := IndexOf(entries, l.name);
    if i == |entries| || (entries[i].deleted && entries[i].ino != l.ino) then
      Set(entries, Entry(l.name, l.ino, l.kind, false, epoch))
    else if entries[i].deleted then entries
    else Set(entries, entries[i].(epoch := epoch))
  }

  function SweptEntry(e: Entry, epoch: nat): Entry {
    if !e.deleted && e.epoch != 0 && e.epoch != epoch then e.(deleted := true) else e
  }

  function SweepOf(entries: seq<Entry>, epoch: nat): seq<Entry> {
    seq(|entries|, i requires 0 <= i < |entries| => SweptEntry(entries[i], epoch))
  }

  class Directory {
    var entries: seq<Entry>
    var fetchEpoch: nat

    ghost predicate Valid()
      reads this
    {
      Unique(entries) && forall i :: 0 <= i < |entries| ==> entries[i].epoch <= fetchEpoch
    }

    constructor ()
      ensures Valid() && entries == [] && fetchEpoch == 0
    {
      entries, fetchEpoch := [], 0;
    }

    method Find(name: Name) returns (i: int)
      requires Valid()
      ensures -1 <= i < |entries|
      ensures i >= 0 ==> entries[i].name == name && i == IndexOf(entries, name)
      ensures i < 0 ==>
        IndexOf(entries, name) == |entries| && forall k :: 0 <= k < |entries| ==> entries[k].name != name
    {
      for k := 0 to |entries|
        invariant forall j :: 0 <= j < k ==> entries[j].name != name
      {
        if entries[k].name == name {
          return k;
        }
      }
      return -1;
    }

    /** Replace entry i by one of the same name, and say what that means for all names. */
    method Put(i: nat, e: Entry)
      requires Valid() && i < |entries| && e.name == entries[i].name && e.epoch <= fetchEpoch
      modifies this`entries
      ensures Valid() && Extends(old(entries), entries) && entries == old(entries)[i := e]
      ensures forall n :: StateOf(entries, n) == if n == e.name then EntryState(e) else StateOf(old(entries), n)
    {
      ghost var before := entries;
      entries := entries[i := e];
      assert forall k :: 0 <= k < |entries| ==> entries[k].name == before[k].name;
      forall n ensures StateOf(entries, n) == if n == e.name then EntryState(e) else StateOf(before, n) {
        StateUpdate(before, i, e, n);
      }
    }

    method Append(e: Entry)
      requires Valid() && e.epoch <= fetchEpoch && forall k :: 0 <= k < |entries| ==> entries[k].name != e.name
      modifies this`entries
      ensures Valid() && Extends(old(entries), entries) && entries == old(entries) + [e]
      ensures forall n :: StateOf(entries, n) == if n == e.name then EntryState(e) else StateOf(old(entries), n)
    {
      forall n ensures StateOf(entries + [e], n) == if n == e.name then EntryState(e) else StateOf(entries, n) {
        StateAppend(entries, e, n);
      }
      entries := entries + [e];
    }

    /** powerfs_add_dir_entry. */
    method Add(name: Name, ino: nat, kind: nat)
      requires Valid()
      modifies this`entries
      ensures Valid() && Extends(old(entries), entries) && entries == AddTo(old(entries), name, ino, kind)
      ensures forall n :: StateOf(entries, n) == Step(StateOf(old(entries), n), Added(name, ino, kind), n, fetchEpoch)
    {
      var i := Find(name);
      if i >= 0 {
        Put(i, Entry(name, ino, kind, false, 0));
      } else {
        Append(Entry(name, ino, kind, false, 0));
      }
    }

    /** powerfs_remove_dir_entry. */
    method Remove(name: Name) returns (ret: int)
      requires Valid()
      modifies this`entries
      ensures Valid() && Extends(old(entries), entries) && entries == RemoveFrom(old(entries), name)
      ensures forall n :: StateOf(entries, n) == Step(StateOf(old(entries), n), Removed(name), n, fetchEpoch)
      ensures ret == (if StateOf(old(entries), name).Active? then 0 else ENOENT)
    {
      var i := Find(name);
      if i >= 0 {
        StateFound(entries, i);
        if !entries[i].deleted {
          Put(i, entries[i].(deleted := true));
          return 0;
        }
      } else {
        StateMissing(entries, name);
      }
      return ENOENT;
    }

    /** One entry of a page. */
    method Merge(l: Listed, epoch: nat)
      requires Valid() && 0 < epoch <= fetchEpoch
      modifies this`entries
      ensures Valid() && Extends(old(entries), entries) && entries == MergeInto(old(entries), l, epoch)
      ensures forall n :: StateOf(entries, n) == SeeOne(StateOf(old(entries), n), l, n, epoch)
    {
      var i := Find(l.name);
      if i >= 0 {
        StateFound(entries, i);
        var e := entries[i];
        if e.deleted && e.ino != l.ino {
          Put(i, Entry(l.name, l.ino, l.kind, false, epoch));
        } else if !e.deleted {
          Put(i, e.(epoch := epoch));
        }
      } else {
        StateMissing(entries, l.name);
        Append(Entry(l.name, l.ino, l.kind, false, epoch));
      }
    }

    /** The locked region that merges a page of the server's listing. */
    method MergePage(listed: seq<Listed>, epoch: nat)
      requires Valid() && 0 < epoch <= fetchEpoch
      modifies this`entries
      ensures Valid() && Extends(old(entries), entries)
      ensures forall n :: StateOf(entries, n) == Step(StateOf(old(entries), n), Page(listed), n, epoch)
    {
      for i := 0 to |listed|
        invariant Valid() && Extends(old(entries), entries)
        invariant forall n :: StateOf(entries, n) == SeeAll(StateOf(old(entries), n), listed[..i], n, epoch)
      {
        Merge(listed[i], epoch);
        assert listed[..i + 1][..i] == listed[..i];
      }
      assert listed[..|listed|] == listed;
    }

    method BeginFetch() returns (epoch: nat)
      requires Valid()
      modifies this`fetchEpoch
      ensures Valid() && epoch == fetchEpoch == old(fetchEpoch) + 1
    {
      fetchEpoch := fetchEpoch + 1;
      epoch := fetchEpoch;
    }

    /** The locked region that drops entries the server no longer lists. */
    method Sweep(epoch: nat)
      requires Valid()
      modifies this`entries
      ensures Valid() && Extends(old(entries), entries) && entries == SweepOf(old(entries), epoch)
      ensures forall n :: StateOf(entries, n) == Swept(StateOf(old(entries), n), epoch)
    {
      ghost var before := entries;
      for i := 0 to |entries|
        invariant Valid() && |entries| == |before| && Extends(before, entries)
        invariant forall k :: 0 <= k < i ==> entries[k] == SweptEntry(before[k], epoch)
        invariant forall k :: i <= k < |entries| ==> entries[k] == before[k]
      {
        var e := entries[i];
        if !e.deleted && e.epoch != 0 && e.epoch != epoch {
          entries := entries[i := e.(deleted := true)];
        }
      }
      forall n ensures StateOf(entries, n) == Swept(StateOf(before, n), epoch) {
        SweptStates(before, entries, epoch, n);
      }
    }

    /** Local changes that take the lock one after the other. */
    method Apply(evs: seq<Event>, epoch: nat)
      requires Valid() && forall i :: 0 <= i < |evs| ==> !evs[i].Page?
      modifies this`entries
      ensures Valid() && Extends(old(entries), entries)
      ensures forall n :: StateOf(entries, n) == After(StateOf(old(entries), n), evs, n, epoch)
    {
      for i := 0 to |evs|
        invariant Valid() && Extends(old(entries), entries)
        invariant forall n :: StateOf(entries, n) == After(StateOf(old(entries), n), evs[..i], n, epoch)
      {
        assert evs[..i + 1][..i] == evs[..i];
        match evs[i] {
          case Added(name, ino, kind) => Add(name, ino, kind);
          case Removed(name) => var _ := Remove(name);
        }
      }
      assert evs[..|evs|] == evs;
    }

    /**
     * The refetch of powerfs_readdir: pages are merged one by one, with local changes before each
     * page and before the sweep. If no page arrives nothing is swept.
     */
    method Refetch(pages: seq<seq<Listed>>, local: seq<seq<Event>>) returns (epoch: nat, ghost evs: seq<Event>)
      requires Valid() && |local| == |pages| + 1
      requires forall i, j :: 0 <= i < |local| && 0 <= j < |local[i]| ==> !local[i][j].Page?
      modifies this
      ensures Valid() && Extends(old(entries), entries) && epoch == fetchEpoch == old(fetchEpoch) + 1
      ensures evs == Interleaved(pages, local, |pages|) + local[|pages|]
      ensures forall n ::
        StateOf(entries, n) == SweptIf(pages != [], After(StateOf(old(entries), n), evs, n, epoch), epoch)
    {
      epoch := BeginFetch();
      evs := [];
      for i := 0 to |pages|
        invariant Valid() && Extends(old(entries), entries) && epoch == fetchEpoch == old(fetchEpoch) + 1
        invariant evs == Interleaved(pages, local, i)
        invariant forall n :: StateOf(entries, n) == After(StateOf(old(entries), n), evs, n, epoch)
      {
        evs := FetchPage(local[i], pages[i], epoch, old(entries), evs);
      }
      ghost var before := entries;
      Apply(local[|pages|], epoch);
      forall n ensures StateOf(entries, n) == After(StateOf(old(entries), n), evs + local[|pages|], n, epoch) {
        AfterSplit(StateOf(old(entries), n), evs, local[|pages|], n, epoch);
        assert StateOf(before, n) == After(StateOf(old(entries), n), evs, n, epoch);
      }
      evs := evs + local[|pages|];
      if |pages| > 0 {
        Sweep(epoch);
      }
    }

    /** Some local changes, then one page. */
    method FetchPage(local: seq<Event>, page: seq<Listed>, epoch: nat, ghost first: seq<Entry>, ghost evs: seq<Event>)
      returns (ghost evs': seq<Event>)
      requires Valid() && 0 < epoch <= fetchEpoch && Extends(first, entries)
      requires forall j :: 0 <= j < |local| ==> !local[j].Page?
      requires forall n :: StateOf(entries, n) == After(StateOf(first, n), evs, n, epoch)
      modifies this`entries
      ensures Valid() && Extends(first, entries) && evs' == evs + local + [Page(page)]
      ensures forall n :: StateOf(entries, n) == After(StateOf(first, n), evs', n, epoch)
    {
      ghost var before := entries;
      Apply(local, epoch);
      ghost var mid := entries;
      MergePage(page, epoch);
      evs' := evs + local + [Page(page)];
      forall n ensures StateOf(entries, n) == After(StateOf(first, n), evs', n, epoch) {
        assert StateOf(mid, n) == After(StateOf(before, n), local, n, epoch);
        AfterSplit(StateOf(first, n), evs, local, n, epoch);
        assert evs'[..|evs'| - 1] == evs + local;
      }
    }

    /** powerfs_compact_dir_entries: drop the tombstones once they are many. */
    method Compact() returns (removed: nat)
      requires Valid()
      modifies this`entries
      ensures Valid()
      ensures removed == |old(entries)| - |entries|
      ensures removed > 0 <==> IsCrowded(old(entries))
      ensures entries == if IsCrowded(old(entries)) then LiveOf(old(entries), 0, |old(entries)|) else old(entries)
      ensures removed > 0 ==> forall n :: StateOf(entries, n) == Forgotten(StateOf(old(entries), n))
    {
      var deleted := 0;
      for i := 0 to |entries|
        invariant deleted == i - |LiveOf(entries, 0, i)|
      {
        if entries[i].deleted {
          deleted := deleted + 1;
        }
      }
      if deleted < COMPACT_MIN || deleted * 2 < |entries| {
        return 0;
      }
      var kept: seq<Entry> := [];
      for i := 0 to |entries|
        invariant kept == LiveOf(entries, 0, i)
      {
        if !entries[i].deleted {
          kept := kept + [entries[i]];
        }
      }
      LiveOfUnique(entries, |entries|);
      forall n ensures StateOf(kept, n) == Forgotten(StateOf(entries, n)) {
        LiveOfStates(entries, |entries|, n);
        assert entries[..|entries|] == entries;
      }
      entries := kept;
      return deleted;
    }
  }

  lemma {:induction false} SweptStates(before: seq<Entry>, after: seq<Entry>, epoch: nat, n: Name)
    requires |before| == |after| && Extends(before, after)
    requires forall k :: 0 <= k < |before| ==> EntryState(after[k]) == Swept(EntryState(before[k]), epoch)
    ensures StateOf(after, n) == Swept(StateOf(before, n), epoch)
  {
    if before != [] {
      SweptStates(before[1..], after[1..], epoch, n);
    }
  }

  /** The live entries at positions from lo up to hi, in order. */
  function LiveOf(entries: seq<Entry>, lo: nat, hi: nat): seq<Entry>
    requires lo <= hi <= |entries|
  {
    if lo == hi then []
    else if entries[hi - 1].deleted then LiveOf(entries, lo, hi - 1)
    else LiveOf(entries, lo, hi - 1) + [entries[hi - 1]]
  }

  /** Tombstones are at least COMPACT_MIN and half of the list. */
  predicate IsCrowded(entries: seq<Entry>) {
    var t := |entries| - |LiveOf(entries, 0, |entries|)|;
    t >= COMPACT_MIN && 2 * t >= |entries|
  }

  /** Live entries come from the list. */
  lemma {:induction false} LiveOfMember(entries: seq<Entry>, lo: nat, hi: nat, k: nat)
    requires lo <= hi <= |entries| && k < |LiveOf(entries, lo, hi)|
    ensures exists i :: lo <= i < hi && LiveOf(entries, lo, hi)[k] == entries[i] && !entries[i].deleted
  {
    if k < |LiveOf(entries, lo, hi - 1)| {
      LiveOfMember(entries, lo, hi - 1, k);
    }
  }

  lemma {:induction false} LiveOfUnique(entries: seq<Entry>, hi: nat)
    requires hi <= |entries| && Unique(entries)
    ensures Unique(LiveOf(entries, 0, hi))
    ensures forall k :: 0 <= k < |LiveOf(entries, 0, hi)| ==> LiveOf(entries, 0, hi)[k] in entries
  {
    if hi > 0 {
      LiveOfUnique(entries, hi - 1);
      var live := LiveOf(entries, 0, hi - 1);
      forall k | 0 <= k < |live|
        ensures live[k].name != entries[hi - 1].name
      {
        LiveOfMember(entries, 0, hi - 1, k);
      }
    }
  }

  lemma {:induction false} LiveOfStates(entries: seq<Entry>, hi: nat, n: Name)
    requires hi <= |entries| && Unique(entries)
    ensures StateOf(LiveOf(entries, 0, hi), n) == Forgotten(StateOf(entries[..hi], n))
  {
    if hi > 0 {
      LiveOfStates(entries, hi - 1, n);
      var e, live := entries[hi - 1], LiveOf(entries, 0, hi - 1);
      assert entries[..hi] == entries[..hi - 1] + [e];
      StateAppend(entries[..hi - 1], e, n);
      forall k | 0 <= k < |live|
        ensures live[k].name != e.name
      {
        LiveOfMember(entries, 0, hi - 1, k);
      }
      StateAppend(live, e, n);
      StateMissing(live, e.name);
    }
  }

  // ------------------------------------------------------------ what a refetch leaves

  /** The state of a name after the events of a refetch, in the order in which they took the lock. */
  function After(st: NameState, evs: seq<Event>, n: Name, epoch: nat): NameState {
    if evs == [] then st else Step(After(st, evs[..|evs| - 1], n, epoch), evs[|evs| - 1], n, epoch)
  }

  /** No local change of the name. */
  ghost predicate OnlyFetched(evs: seq<Event>, n: Name) {
    forall i :: 0 <= i < |evs| ==> evs[i].Page? || evs[i].name != n
  }

  /** The listings of the name in a page, in order. */
  function ListingsIn(listed: seq<Listed>, n: Name): (ls: seq<Listed>)
    ensures forall i :: 0 <= i < |ls| ==> ls[i].name == n
  {
    if listed == [] then []
    else ListingsIn(listed[..|listed| - 1], n) + (if listed[|listed| - 1].name == n then [listed[|listed| - 1]] else [])
  }

  /** The listings of the name in all pages. */
  function Listings(evs: seq<Event>, n: Name): (ls: seq<Listed>)
    ensures forall i :: 0 <= i < |ls| ==> ls[i].name == n
  {
    if evs == [] then []
    else Listings(evs[..|evs| - 1], n) + (if evs[|evs| - 1].Page? then ListingsIn(evs[|evs| - 1].listed, n) else [])
  }

  lemma {:induction false} SeeAllAppend(st: NameState, a: seq<Listed>, b: seq<Listed>, n: Name, epoch: nat)
    ensures SeeAll(st, a + b, n, epoch) == SeeAll(SeeAll(st, a, n, epoch), b, n, epoch)
  {
    if b == [] {
      assert a + b == a;
    } else {
      SeeAllAppend(st, a, b[..|b| - 1], n, epoch);
      assert (a + b)[..|a + b| - 1] == a + b[..|b| - 1];
    }
  }

  lemma {:induction false} SeeAllIsListings(st: NameState, listed: seq<Listed>, n: Name, epoch: nat)
    ensures SeeAll(st, listed, n, epoch) == SeeAll(st, ListingsIn(listed, n), n, epoch)
  {
    if listed != [] {
      var k := |listed| - 1;
      SeeAllIsListings(st, listed[..k], n, epoch);
      if listed[k].name == n {
        SeeAllAppend(st, ListingsIn(listed[..k], n), [listed[k]], n, epoch);
        assert [listed[k]][..0] == [];
      } else {
        assert ListingsIn(listed[..k], n) + [] == ListingsIn(listed[..k], n);
      }
    }
  }

  /** Without local changes only the listings of the name matter. */
  lemma {:induction false} AfterFetched(st: NameState, evs: seq<Event>, n: Name, epoch: nat)
    requires OnlyFetched(evs, n)
    ensures After(st, evs, n, epoch) == SeeAll(st, Listings(evs, n), n, epoch)
  {
    if evs != [] {
      var k := |evs| - 1;
      AfterFetched(st, evs[..k], n, epoch);
      if evs[k].Page? {
        SeeAllIsListings(After(st, evs[..k], n, epoch), evs[k].listed, n, epoch);
        SeeAllAppend(st, Listings(evs[..k], n), ListingsIn(evs[k].listed, n), n, epoch);
      } else {
        assert Listings(evs[..k], n) + [] == Listings(evs[..k], n);
      }
    }
  }

  /** The state is a tombstone of every inode listed. */
  ghost predicate Buried(st: NameState, ls: seq<Listed>) {
    st.Dead? && forall i :: 0 <= i < |ls| ==> ls[i].ino == st.ino
  }

  /** Once seen alive in this refetch, or seen with another inode, the name is active. */
  lemma {:induction false} SeenIsActive(st: NameState, ls: seq<Listed>, n: Name, epoch: nat)
    requires forall i :: 0 <= i < |ls| ==> ls[i].name == n
    ensures SeeAll(st, ls, n, epoch).Active? && SeeAll(st, ls, n, epoch).epoch == epoch <==>
      (st.Active? && st.epoch == epoch) || (ls != [] && !Buried(st, ls))
    ensures ls == [] || Buried(st, ls) ==> SeeAll(st, ls, n, epoch) == st
  {
    if ls != [] {
      SeenIsActive(st, ls[..|ls| - 1], n, epoch);
    }
  }

  /**
   * The outcome of a refetch for a name, split at its last local change. If the server listed the
   * name afterwards, it is active unless it was a tombstone of the listed inode. If not, it is active
   * exactly when it was active and either local and unseen, or already seen by this refetch.
   */
  lemma RefetchOutcome(st: NameState, before: seq<Event>, after: seq<Event>, n: Name, epoch: nat)
    requires OnlyFetched(after, n) && epoch > 0
    ensures Swept(After(st, before + after, n, epoch), epoch).Active? <==>
      ActiveAfter(After(st, before, n, epoch), Listings(after, n), epoch)
  {
    var mid, ls := After(st, before, n, epoch), Listings(after, n);
    AfterSplit(st, before, after, n, epoch);
    AfterFetched(mid, after, n, epoch);
    SeenIsActive(mid, ls, n, epoch);
  }

  ghost predicate ActiveAfter(st: NameState, ls: seq<Listed>, epoch: nat) {
    if ls != [] then !Buried(st, ls) else st.Active? && (st.epoch == 0 || st.epoch == epoch)
  }

  lemma {:induction false} AfterSplit(st: NameState, before: seq<Event>, after: seq<Event>, n: Name, epoch: nat)
    ensures After(st, before + after, n, epoch) == After(After(st, before, n, epoch), after, n, epoch)
  {
    if after == [] {
      assert before + after == before;
    } else {
      AfterSplit(st, before, after[..|after| - 1], n, epoch);
      assert (before + after)[..|before + after| - 1] == before + after[..|after| - 1];
    }
  }

  /**
   * Without local changes of the name: it is active exactly when the server lists it and it is not a
   * local tombstone of that inode, or it is not listed but active, local and never fetched.
   */
  lemma QuietRefetch(st: NameState, evs: seq<Event>, n: Name, epoch: nat)
    requires OnlyFetched(evs, n) && (st.Active? ==> st.epoch < epoch)
    ensures Swept(After(st, evs, n, epoch), epoch).Active? <==>
      if Listings(evs, n) != [] then !Buried(st, Listings(evs, n)) else st.Active? && st.epoch == 0
  {
    AfterFetched(st, evs, n, epoch);
    SeenIsActive(st, Listings(evs, n), n, epoch);
  }

  // ------------------------------------------------------------ a listing that breaks off

  function PagesOf(pages: seq<seq<Listed>>): seq<Event> {
    seq(|pages|, i requires 0 <= i < |pages| => Page(pages[i]))
  }

  lemma {:induction false} QuietPages(pages: seq<seq<Listed>>, local: seq<seq<Event>>, i: nat)
    requires i <= |pages| < |local| && forall k :: 0 <= k < |local| ==> local[k] == []
    ensures Interleaved(pages, local, i) + [] == PagesOf(pages[..i])
  {
    if i > 0 {
      QuietPages(pages, local, i - 1);
      assert PagesOf(pages[..i]) == PagesOf(pages[..i - 1]) + [Page(pages[i - 1])];
    }
  }

  /** The pages list the name, always under this inode. */
  ghost predicate ListsAs(pages: seq<seq<Listed>>, n: Name, ino: nat) {
    var ls := Listings(PagesOf(pages), n);
    ls != [] && forall i :: 0 <= i < |ls| ==> ls[i].ino == ino
  }

  /**
   * The server lists an active name, and the first pages of the listing arrive before a call fails.
   * The name stays active exactly when no page arrived, or it is local and was never fetched, or one
   * of the pages that arrived has it. If not, no later full listing brings it back.
   */
  lemma PartialRefetch(st: NameState, pages: seq<seq<Listed>>, arrived: nat, n: Name, epoch: nat)
    requires st.Active? && st.epoch < epoch && ListsAs(pages, n, st.ino) && arrived <= |pages|
    ensures var t := SweptIf(arrived > 0, After(st, PagesOf(pages[..arrived]), n, epoch), epoch);
      && (t.Active? <==> arrived == 0 || st.epoch == 0 || Listings(PagesOf(pages[..arrived]), n) != [])
      && (!t.Active? ==> forall later :: Swept(After(t, PagesOf(pages), n, later), later) == Dead(st.ino))
  {
    var got := PagesOf(pages[..arrived]);
    AfterFetched(st, got, n, epoch);
    SeenIsActive(st, Listings(got, n), n, epoch);
    forall later ensures Swept(After(Dead(st.ino), PagesOf(pages), n, later), later) == Dead(st.ino) {
      AfterFetched(Dead(st.ino), PagesOf(pages), n, later);
      SeenIsActive(Dead(st.ino), Listings(PagesOf(pages), n), n, later);
    }
  }

  lemma OneListing(st: NameState, l: Listed, n: Name, epoch: nat)
    ensures SeeAll(st, [l], n, epoch) == SeeOne(st, l, n, epoch)
    ensures After(st, PagesOf([[l]]), n, epoch) == SeeOne(st, l, n, epoch)
  {
    assert [l][..0] == [] && PagesOf([[l]]) == [Page([l])] && [Page([l])][..0] == [];
  }

  lemma TwoListings(st: NameState, l: Listed, m: Listed, n: Name, epoch: nat)
    ensures After(st, PagesOf([[l], [m]]), n, epoch) == SeeOne(SeeOne(st, l, n, epoch), m, n, epoch)
  {
    OneListing(st, l, n, epoch);
    OneListing(SeeOne(st, l, n, epoch), m, n, epoch);
    assert PagesOf([[l], [m]])[..1] == PagesOf([[l]]);
  }

  /** Two names on two pages: a refetch that loses the second page buries its name for good. */
  method LostPageBuries(l: Listed, m: Listed) returns (d: Directory)
    requires l.name != m.name
    ensures d.Valid() && StateOf(d.entries, m.name) == Dead(m.ino)
  {
    d := new Directory();
    var first := FetchTwo(d, l, m);
    var second, evs := d.Refetch([[l]], [[], []]);
    QuietPages([[l]], [[], []], 1);
    assert [[l]][..1] == [[l]];
    OneListing(Active(m.ino, m.kind, first), l, m.name, second);
    assert StateOf(d.entries, m.name) == Dead(m.ino);
    var third := FetchTwo(d, l, m);
  }

  method FetchTwo(d: Directory, l: Listed, m: Listed) returns (epoch: nat)
    requires d.Valid() && l.name != m.name
    modifies d
    ensures d.Valid() && epoch == d.fetchEpoch == old(d.fetchEpoch) + 1
    ensures StateOf(d.entries, m.name) == Swept(See(StateOf(old(d.entries), m.name), m.ino, m.kind, epoch), epoch)
  {
    ghost var before := StateOf(d.entries, m.name);
    ghost var evs;
    epoch, evs := d.Refetch([[l], [m]], [[], [], []]);
    QuietPages([[l], [m]], [[], [], []], 2);
    assert [[l], [m]][..2] == [[l], [m]];
    TwoListings(before, l, m, m.name, epoch);
  }

  // ------------------------------------------------------------ several refetches at a time

  /** What the refetches of several readers do to one name, in the order in which they take the lock. */
  datatype Turn = Lists(epoch: nat, ino: nat, kind: nat) | Sweeps(epoch: nat)

  function Turned(st: NameState, turns: seq<Turn>): NameState {
    if turns == [] then st
    else
      var k := |turns| - 1;
      match turns[k]
      case Lists(epoch, ino, kind) => See(Turned(st, turns[..k]), ino, kind, epoch)
      case Sweeps(epoch) => Swept(Turned(st, turns[..k]), epoch)
  }

  /** The refetch that listed the name last, or what its entry held before. */
  function LastSeen(st: NameState, turns: seq<Turn>): nat {
    if turns == [] then (if st.Active? then st.epoch else 0)
    else
      var k := |turns| - 1;
      if turns[k].Lists? then turns[k].epoch else LastSeen(st, turns[..k])
  }

  ghost predicate IsListed(turns: seq<Turn>) {
    exists k :: 0 <= k < |turns| && turns[k].Lists?
  }

  /** Each sweep comes from the refetch that listed the name last, or no refetch has listed it. */
  ghost predicate SweepsAgree(st: NameState, turns: seq<Turn>) {
    forall k :: 0 <= k < |turns| && turns[k].Sweeps? ==> LastSeen(st, turns[..k]) in {0, turns[k].epoch}
  }

  lemma {:induction false} TurnedState(st: NameState, turns: seq<Turn>, ino: nat)
    requires st == Absent || (st.Active? && st.ino == ino)
    requires forall k :: 0 <= k < |turns| ==> turns[k].epoch > 0 && (turns[k].Lists? ==> turns[k].ino == ino)
    ensures var t := Turned(st, turns);
      if !SweepsAgree(st, turns) then t == Dead(ino)
      else if st.Active? || IsListed(turns) then t.Active? && t.ino == ino && t.epoch == LastSeen(st, turns)
      else t == Absent && LastSeen(st, turns) == 0
  {
    if turns != [] {
      var k := |turns| - 1;
      TurnedState(st, turns[..k], ino);
      assert forall j :: 0 <= j < k ==> turns[..k][..j] == turns[..j];
      assert SweepsAgree(st, turns) <==>
        SweepsAgree(st, turns[..k]) && (turns[k].Sweeps? ==> LastSeen(st, turns[..k]) in {0, turns[k].epoch});
    }
  }

  /**
   * A name that the servers list all the time, under one inode, by any number of refetches: it is
   * active in the end exactly when no sweep of one refetch met the mark of another.
   */
  lemma OverlappingRefetches(st: NameState, turns: seq<Turn>, ino: nat)
    requires st == Absent || (st.Active? && st.ino == ino)
    requires forall k :: 0 <= k < |turns| ==> turns[k].epoch > 0 && (turns[k].Lists? ==> turns[k].ino == ino)
    requires IsListed(turns)
    ensures Turned(st, turns).Active? <==> SweepsAgree(st, turns)
  {
    TurnedState(st, turns, ino);
  }

  /** Two refetches that overlap bury a name both have listed, and a third does not bring it back. */
  method OverlapBuries(l: Listed) returns (d: Directory)
    ensures d.Valid() && StateOf(d.entries, l.name) == Dead(l.ino)
  {
    d := new Directory();
    var older := d.BeginFetch();
    var newer := d.BeginFetch();
    d.Merge(l, older);
    d.Merge(l, newer);
    d.Sweep(older);
    assert StateOf(d.entries, l.name) == Dead(l.ino);
    d.Sweep(newer);
    var third := d.BeginFetch();
    d.Merge(l, third);
    d.Sweep(third);
  }
}
