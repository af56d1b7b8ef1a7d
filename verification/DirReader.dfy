/**
 * Reading a directory by position. A reader's position counts list slots (two more for the dot
 * entries), tombstones included, and survives changes of the list between calls.
 */
module DirReader {
  import opened DirCache

  const WINDOW: nat := 256
  const DOTS: nat := 2

  /** The number of tombstones at positions from lo up to hi. */
  function Tombs(entries: seq<Entry>, lo: nat, hi: nat): nat
    requires lo <= hi <= |entries|
  {
    if lo == hi then 0 else Tombs(entries, lo, hi - 1) + (if entries[hi - 1].deleted then 1 else 0)
  }

  lemma {:induction false} TombsAndLive(entries: seq<Entry>, lo: nat, hi: nat)
    requires lo <= hi <= |entries|
    ensures Tombs(entries, lo, hi) + |LiveOf(entries, lo, hi)| == hi - lo
  {
    if lo < hi { TombsAndLive(entries, lo, hi - 1); }
  }

  /** The slot at which a call starts; a position beyond the list finds nothing. */
  function Slot(entries: seq<Entry>, pos: nat): (i: nat)
    requires pos >= DOTS
    ensures i <= |entries|
  {
    if pos - DOTS < |entries| then pos - DOTS else |entries|
  }

  /**
   * A call that emits under the lock: all live entries from the old to the new position go out, in
   * order. It ends at the end of the list, or at a live entry with the caller's buffer full.
   */
  ghost predicate LockedCall(entries: seq<Entry>, pos: nat, room: nat, out: seq<Entry>, next: nat)
    requires pos >= DOTS
  {
    && pos <= next && |out| <= room
    && (pos - DOTS >= |entries| ==> next == pos && out == [])
    && (pos - DOTS < |entries| ==> next - DOTS <= |entries| && out == LiveOf(entries, pos - DOTS, next - DOTS))
    && (next - DOTS < |entries| ==> |out| == room && !entries[next - DOTS].deleted)
  }

  /**
   * Emission under the lock, used when no buffer can be had. The caller's buffer has room for `room`
   * more entries.
   */
  method EmitLocked(entries: seq<Entry>, pos: nat, room: nat) returns (out: seq<Entry>, next: nat)
    requires pos >= DOTS
    ensures LockedCall(entries, pos, room, out, next)
  {
    out, next := [], pos;
    while next - DOTS < |entries|
      invariant pos <= next && |out| <= room
      invariant pos - DOTS < |entries| ==> next - DOTS <= |entries| && out == LiveOf(entries, pos - DOTS, next - DOTS)
      invariant pos - DOTS >= |entries| ==> next == pos && out == []
    {
      var e := entries[next - DOTS];
      if !e.deleted {
        if |out| == room {
          return;
        }
        out := out + [e];
      }
      next := next + 1;
    }
  }

  /** The locked region of the buffered path: copy up to a window of live entries. */
  method CopyWindow(entries: seq<Entry>, from: nat) returns (buf: seq<Entry>, skipped: nat, end: nat)
    requires from <= |entries|
    ensures from <= end <= |entries| && buf == LiveOf(entries, from, end) && skipped == Tombs(entries, from, end)
    ensures |buf| <= WINDOW && (end < |entries| ==> |buf| == WINDOW)
  {
    buf, skipped, end := [], 0, from;
    while end < |entries| && |buf| < WINDOW
      invariant from <= end <= |entries| && buf == LiveOf(entries, from, end) && skipped == Tombs(entries, from, end)
      invariant |buf| <= WINDOW
    {
      if entries[end].deleted {
        skipped := skipped + 1;
      } else {
        buf := buf + [entries[end]];
      }
      end := end + 1;
    }
  }

  /** The position of the k-th live entry at or after lo, below hi. */
  ghost predicate IsLiveAt(entries: seq<Entry>, lo: nat, hi: nat, k: nat, i: nat)
    requires lo <= hi <= |entries|
  {
    lo <= i < hi && !entries[i].deleted && |LiveOf(entries, lo, i)| == k
  }

  lemma {:induction false} LiveAt(entries: seq<Entry>, lo: nat, hi: nat, k: nat) returns (i: nat)
    requires lo <= hi <= |entries| && k < |LiveOf(entries, lo, hi)|
    ensures IsLiveAt(entries, lo, hi, k, i)
    decreases hi
  {
    if k < |LiveOf(entries, lo, hi - 1)| {
      i := LiveAt(entries, lo, hi - 1, k);
    } else {
      i := hi - 1;
    }
  }

  lemma {:induction false} TombsSplit(entries: seq<Entry>, lo: nat, mid: nat, hi: nat)
    requires lo <= mid <= hi <= |entries|
    ensures Tombs(entries, lo, hi) == Tombs(entries, lo, mid) + Tombs(entries, mid, hi)
  {
    if mid < hi { TombsSplit(entries, lo, mid, hi - 1); }
  }

  /** Tombstones of the window move the position at once, emitted entries one by one. */
  function ResumeAt(entries: seq<Entry>, pos: nat, end: nat, emitted: nat): nat
    requires DOTS <= pos && Slot(entries, pos) <= end <= |entries|
  {
    pos + Tombs(entries, Slot(entries, pos), end) + emitted
  }

  /** A call of the buffered path, whose window reaches up to slot end. */
  ghost predicate BufferedCall(entries: seq<Entry>, pos: nat, room: nat, out: seq<Entry>, next: nat, end: nat)
    requires pos >= DOTS
  {
    && Slot(entries, pos) <= end <= |entries|
    && out <= LiveOf(entries, Slot(entries, pos), end) && next == ResumeAt(entries, pos, end, |out|)
    && |out| == (var n := |LiveOf(entries, Slot(entries, pos), end)|; if n <= room then n else room)
    && |LiveOf(entries, Slot(entries, pos), end)| <= WINDOW
    && (end < |entries| ==> |LiveOf(entries, Slot(entries, pos), end)| == WINDOW)
  }

  /**
   * The buffered path: copy a window under the lock, then emit it without the lock. If the whole
   * window fits, the position moves past it. If the caller's buffer fills up first, the position is
   * the slot of the first entry not emitted exactly when no tombstone of the window comes after it.
   */
  method EmitBuffered(entries: seq<Entry>, pos: nat, room: nat) returns (out: seq<Entry>, next: nat, end: nat)
    requires pos >= DOTS
    ensures BufferedCall(entries, pos, room, out, next, end)
    ensures |LiveOf(entries, Slot(entries, pos), end)| <= room ==>
      out == LiveOf(entries, Slot(entries, pos), end) && next - pos == end - Slot(entries, pos)
    ensures |LiveOf(entries, Slot(entries, pos), end)| > room ==> (forall i: nat ::
      IsLiveAt(entries, Slot(entries, pos), end, room, i) ==>
        (next - pos == i - Slot(entries, pos) <==> Tombs(entries, i, end) == 0))
  {
    var from := Slot(entries, pos);
    var buf, skipped, w := CopyWindow(entries, from);
    end := w;
    out, next := [], pos + skipped;
    for i := 0 to |buf|
      invariant out == buf[..i] && i <= room && next == pos + skipped + i
    {
      if i == room {
        forall k: nat | IsLiveAt(entries, from, end, room, k)
          ensures next - pos == k - from <==> Tombs(entries, k, end) == 0
        {
          TombsAndLive(entries, from, k);
          TombsSplit(entries, from, k, end);
        }
        return;
      }
      out := out + [buf[i]];
      next := next + 1;
    }
    TombsAndLive(entries, from, end);
  }

  // ------------------------------------------------------------ what a call emits

  function Times(out: seq<Entry>, n: Name): nat {
    if out == [] then 0 else Times(out[..|out| - 1], n) + (if out[|out| - 1].name == n then 1 else 0)
  }

  lemma {:induction false} TimesAppend(a: seq<Entry>, b: seq<Entry>, n: Name)
    ensures Times(a + b, n) == Times(a, n) + Times(b, n)
  {
    if b == [] {
      assert a + b == a;
    } else {
      TimesAppend(a, b[..|b| - 1], n);
      assert (a + b)[..|a + b| - 1] == a + b[..|b| - 1];
    }
  }

  /** In a stretch of a list without duplicates a name is emitted once if its slot is live there. */
  lemma {:induction false} TimesInStretch(entries: seq<Entry>, lo: nat, hi: nat, i: nat)
    requires lo <= hi <= |entries| && i < |entries| && Unique(entries)
    ensures Times(LiveOf(entries, lo, hi), entries[i].name) == if lo <= i < hi && !entries[i].deleted then 1 else 0
    decreases hi
  {
    if lo < hi {
      TimesInStretch(entries, lo, hi - 1, i);
      var e, n := entries[hi - 1], entries[i].name;
      if !e.deleted {
        TimesAppend(LiveOf(entries, lo, hi - 1), [e], n);
        assert Times([e], n) == if e.name == n then 1 else 0 by {
          assert [e][..0] == [];
        }
      }
    }
  }

  lemma {:induction false} LivePrefix(entries: seq<Entry>, lo: nat, mid: nat, hi: nat)
    requires lo <= mid <= hi <= |entries|
    ensures LiveOf(entries, lo, mid) <= LiveOf(entries, lo, hi)
  {
    if mid < hi {
      LivePrefix(entries, lo, mid, hi - 1);
    }
  }

  /** Names that do not occur are not counted. */
  lemma {:induction false} TimesZero(out: seq<Entry>, n: Name)
    requires forall k :: 0 <= k < |out| ==> out[k].name != n
    ensures Times(out, n) == 0
  {
    if out != [] {
      TimesZero(out[..|out| - 1], n);
    }
  }

  // ------------------------------------------------------------ runs of a reader

  /** A reader at its position, with what it has emitted so far, and the list at that time. */
  datatype Reader = Reader(entries: seq<Entry>, pos: nat, out: seq<Entry>)

  /** Changes of the list by anyone, and the calls of this reader. */
  datatype Act =
    | Add(name: Name, ino: nat, kind: nat)
    | Remove(name: Name)
    | Merge(listed: Listed, epoch: nat)
    | Sweep(epoch: nat)
    | ReadLocked(room: nat)
    | ReadBuffered(room: nat, end: nat)
  {
    predicate IsCall() {
      ReadLocked? || ReadBuffered?
    }
  }

  ghost predicate Valid(s: Reader) {
    && Unique(s.entries) && DOTS <= s.pos <= DOTS + |s.entries|
    && forall k :: 0 <= k < |s.out| ==> IndexOf(s.entries, s.out[k].name) < |s.entries|
  }

  function Changed(entries: seq<Entry>, act: Act): seq<Entry> {
    match act
    case Add(name, ino, kind) => AddTo(entries, name, ino, kind)
    case Remove(name) => RemoveFrom(entries, name)
    case Merge(listed, epoch) => MergeInto(entries, listed, epoch)
    case Sweep(epoch) => SweepOf(entries, epoch)
    case _ => entries
  }

  ghost predicate Steps(s: Reader, act: Act, s': Reader)
    requires s.pos >= DOTS
  {
    && s'.entries == Changed(s.entries, act) && s.out <= s'.out
    && match act
       case ReadLocked(room) => LockedCall(s.entries, s.pos, room, s'.out[|s.out|..], s'.pos)
       case ReadBuffered(room, end) => BufferedCall(s.entries, s.pos, room, s'.out[|s.out|..], s'.pos, end)
       case _ => s'.pos == s.pos && s'.out == s.out
  }

  /** The step moved the position past the slot. */
  predicate Passes(s: Reader, s': Reader, i: nat) {
    s.pos <= i + DOTS < s'.pos
  }

  predicate IsLive(s: Reader, i: nat) {
    i < |s.entries| && !s.entries[i].deleted
  }

  /** The slot is among the first live ones, as many as the step emitted. */
  ghost predicate Takes(s: Reader, s': Reader, i: nat)
    requires DOTS <= s.pos
  {
    IsLive(s, i) && s.pos <= i + DOTS && |LiveOf(s.entries, s.pos - DOTS, i)| < |s'.out| - |s.out|
  }

  /** No tombstone of the window comes after the first entry that does not fit. */
  ghost predicate IsCleanCut(entries: seq<Entry>, from: nat, room: nat, end: nat)
    requires from <= end <= |entries|
  {
    forall i: nat :: IsLiveAt(entries, from, end, room, i) ==> Tombs(entries, i, end) == 0
  }

  ghost predicate IsClean(s: Reader, act: Act)
    requires DOTS <= s.pos
  {
    act.ReadBuffered? && s.pos - DOTS <= act.end <= |s.entries| ==>
      IsCleanCut(s.entries, s.pos - DOTS, act.room, act.end)
  }

  /** The lists that the operations make keep names unique and slots in place. */
  lemma ChangedKeeps(entries: seq<Entry>, act: Act)
    requires Unique(entries)
    ensures Unique(Changed(entries, act)) && Extends(entries, Changed(entries, act))
  {
  }

  /** A slot that keeps its name keeps being found. */
  lemma FoundStays(before: seq<Entry>, after: seq<Entry>, n: Name)
    requires Extends(before, after) && IndexOf(before, n) < |before|
    ensures IndexOf(after, n) < |after|
  {
    assert after[IndexOf(before, n)].name == n;
  }

  /** Fewer live entries come before a live slot than there are in all. */
  lemma RankBelow(entries: seq<Entry>, lo: nat, hi: nat, i: nat)
    requires lo <= hi <= |entries|
    ensures lo <= i < hi && !entries[i].deleted ==> |LiveOf(entries, lo, i)| < |LiveOf(entries, lo, hi)|
  {
    if lo <= i < hi && !entries[i].deleted {
      LivePrefix(entries, lo, i + 1, hi);
    }
  }

  /** The entry of a given rank is in one slot. */
  lemma OneSlot(entries: seq<Entry>, lo: nat, hi: nat, k: nat, i: nat, j: nat)
    requires lo <= hi <= |entries| && IsLiveAt(entries, lo, hi, k, i) && IsLiveAt(entries, lo, hi, k, j)
    ensures i == j
  {
    RankBelow(entries, lo, i, j);
    RankBelow(entries, lo, j, i);
  }

  /** A cut at slot c moves the position past c by the tombstones that come after it. */
  lemma CutAt(entries: seq<Entry>, from: nat, room: nat, end: nat, c: nat)
    requires from <= end <= |entries| && IsLiveAt(entries, from, end, room, c)
    ensures from + Tombs(entries, from, end) + room == c + Tombs(entries, c, end)
    ensures Tombs(entries, c, end) == 0 <==> IsCleanCut(entries, from, room, end)
    ensures LiveOf(entries, from, c) <= LiveOf(entries, from, end)
  {
    TombsAndLive(entries, from, c);
    TombsSplit(entries, from, c, end);
    LivePrefix(entries, from, c, end);
    forall i: nat | IsLiveAt(entries, from, end, room, i)
      ensures Tombs(entries, i, end) == Tombs(entries, c, end)
    {
      OneSlot(entries, from, end, room, i, c);
    }
  }

  /** Where the emission of a buffered call ended: everything live up to there went out. */
  lemma BufferedStretch(entries: seq<Entry>, pos: nat, room: nat, out: seq<Entry>, next: nat, end: nat) returns (c: nat)
    requires DOTS <= pos <= DOTS + |entries| && BufferedCall(entries, pos, room, out, next, end)
    ensures pos - DOTS <= c <= next - DOTS <= |entries| && out == LiveOf(entries, pos - DOTS, c)
    ensures c < next - DOTS ==> !entries[c].deleted
    ensures c == next - DOTS <==> IsCleanCut(entries, pos - DOTS, room, end)
  {
    var from := pos - DOTS;
    TombsAndLive(entries, from, end);
    if |LiveOf(entries, from, end)| <= room {
      c := end;
      forall i: nat ensures !IsLiveAt(entries, from, end, room, i) {
        RankBelow(entries, from, end, i);
      }
    } else {
      c := LiveAt(entries, from, end, room);
      CutAt(entries, from, room, end, c);
    }
  }

  lemma CallStretch(s: Reader, act: Act, s': Reader) returns (c: nat)
    requires Valid(s) && Steps(s, act, s') && act.IsCall()
    ensures s.pos - DOTS <= c <= s'.pos - DOTS <= |s.entries|
    ensures s'.out == s.out + LiveOf(s.entries, s.pos - DOTS, c)
    ensures c < s'.pos - DOTS ==> IsLive(s, c)
    ensures c == s'.pos - DOTS <==> IsClean(s, act)
  {
    var emitted := s'.out[|s.out|..];
    assert s'.out == s.out + emitted;
    if act.ReadLocked? {
      c := s'.pos - DOTS;
    } else {
      c := BufferedStretch(s.entries, s.pos, act.room, emitted, s'.pos, act.end);
    }
  }

  /** A call takes the live slots up to where its emission ended, and passes all it takes. */
  lemma CallTakes(s: Reader, s': Reader, c: nat, i: nat)
    requires Valid(s) && s.pos - DOTS <= c <= |s.entries| && s'.out == s.out + LiveOf(s.entries, s.pos - DOTS, c)
    ensures Takes(s, s', i) <==> IsLive(s, i) && s.pos - DOTS <= i < c
  {
    if IsLive(s, i) && s.pos - DOTS <= i {
      RankBelow(s.entries, s.pos - DOTS, c, i);
      if i >= c {
        LivePrefix(s.entries, s.pos - DOTS, c, i);
      }
    }
  }

  lemma StretchTimes(out: seq<Entry>, entries: seq<Entry>, lo: nat, hi: nat, i: nat)
    requires lo <= hi <= |entries| && i < |entries| && Unique(entries)
    ensures Times(out + LiveOf(entries, lo, hi), entries[i].name) ==
      Times(out, entries[i].name) + if lo <= i < hi && !entries[i].deleted then 1 else 0
  {
    TimesAppend(out, LiveOf(entries, lo, hi), entries[i].name);
    TimesInStretch(entries, lo, hi, i);
  }

  /** A step emits the name of a slot once if it takes the slot, and else not at all. */
  lemma StepEmits(s: Reader, act: Act, s': Reader, i: nat)
    requires Valid(s) && Steps(s, act, s') && i < |s.entries|
    ensures Times(s'.out, s.entries[i].name) == Times(s.out, s.entries[i].name) + if Takes(s, s', i) then 1 else 0
    ensures Takes(s, s', i) ==> Passes(s, s', i)
    ensures IsClean(s, act) && Passes(s, s', i) && IsLive(s, i) ==> Takes(s, s', i)
  {
    if act.IsCall() {
      var c := CallStretch(s, act, s');
      CallTakes(s, s', c, i);
      StretchTimes(s.out, s.entries, s.pos - DOTS, c, i);
    }
  }

  /** What a step passes is in the list. */
  lemma PassedIsThere(s: Reader, act: Act, s': Reader, i: nat)
    requires Valid(s) && Steps(s, act, s')
    ensures Passes(s, s', i) ==> i < |s.entries|
  {
    if act.IsCall() {
      var c := CallStretch(s, act, s');
    }
  }

  lemma StepValid(s: Reader, act: Act, s': Reader)
    requires Valid(s) && Steps(s, act, s')
    ensures Valid(s') && Extends(s.entries, s'.entries) && s.pos <= s'.pos
  {
    ChangedKeeps(s.entries, act);
    if act.IsCall() {
      var c := CallStretch(s, act, s');
      var live := LiveOf(s.entries, s.pos - DOTS, c);
      forall k | 0 <= k < |live| ensures IndexOf(s.entries, live[k].name) < |s.entries| {
        LiveOfMember(s.entries, s.pos - DOTS, c, k);
      }
    } else {
      forall k | 0 <= k < |s.out| ensures IndexOf(s'.entries, s.out[k].name) < |s'.entries| {
        FoundStays(s.entries, s'.entries, s.out[k].name);
      }
    }
  }

  /** A step that adds a slot emits nothing, and the new name has not been emitted before. */
  lemma NewIsNotEmitted(s: Reader, act: Act, s': Reader, i: nat)
    requires Valid(s) && Steps(s, act, s') && |s.entries| <= i < |s'.entries|
    ensures Times(s'.out, s'.entries[i].name) == 0
  {
    ChangedKeeps(s.entries, act);
    forall k | 0 <= k < |s.out| ensures s.out[k].name != s'.entries[i].name {
      assert s'.entries[IndexOf(s.entries, s.out[k].name)].name == s.out[k].name;
    }
    TimesZero(s.out, s'.entries[i].name);
  }

  // ------------------------------------------------------------ a whole enumeration

  ghost predicate IsRun(run: seq<Reader>, acts: seq<Act>) {
    && |run| == |acts| + 1 && Valid(run[0]) && run[0].out == []
    && forall j {:trigger acts[j]} :: 0 <= j < |acts| ==> run[j].pos >= DOTS && Steps(run[j], acts[j], run[j + 1])
  }

  ghost predicate TakesAt(run: seq<Reader>, j: nat, i: nat)
    requires j + 1 < |run|
  {
    run[j].pos >= DOTS && Takes(run[j], run[j + 1], i)
  }

  /** When the position went past the slot, its entry was live. */
  ghost predicate LiveWhenPassed(run: seq<Reader>, j: nat, i: nat)
    requires j + 1 < |run|
  {
    Passes(run[j], run[j + 1], i) && IsLive(run[j], i)
  }

  lemma {:induction false} RunValid(run: seq<Reader>, acts: seq<Act>, j: nat, k: nat)
    requires IsRun(run, acts) && j <= k < |run|
    ensures Valid(run[j]) && Valid(run[k]) && Extends(run[j].entries, run[k].entries) && run[j].pos <= run[k].pos
    decreases k
  {
    if j < k {
      RunValid(run, acts, j, k - 1);
      StepValid(run[k - 1], acts[k - 1], run[k]);
    } else if k > 0 {
      RunValid(run, acts, k - 1, k - 1);
      StepValid(run[k - 1], acts[k - 1], run[k]);
    }
  }

  /** A slot is passed once. */
  lemma PassedOnce(run: seq<Reader>, acts: seq<Act>, i: nat, j: nat, k: nat)
    requires IsRun(run, acts) && j < |acts| && k < |acts|
    requires Passes(run[j], run[j + 1], i) && Passes(run[k], run[k + 1], i)
    ensures j == k
  {
    if j < k {
      RunValid(run, acts, j + 1, k);
    } else if k < j {
      RunValid(run, acts, k + 1, j);
    }
  }

  /** No two calls take the same slot, since each passes what it takes. */
  lemma TakenOnce(run: seq<Reader>, acts: seq<Act>, i: nat, j: nat, k: nat)
    requires IsRun(run, acts) && j < |acts| && k < |acts|
    ensures TakesAt(run, j, i) && Passes(run[k], run[k + 1], i) ==> j == k
    ensures TakesAt(run, k, i) ==> Passes(run[k], run[k + 1], i)
  {
    RunValid(run, acts, j, j);
    RunValid(run, acts, k, k);
    if i < |run[j].entries| {
      StepEmits(run[j], acts[j], run[j + 1], i);
    }
    if i < |run[k].entries| {
      StepEmits(run[k], acts[k], run[k + 1], i);
    }
    if TakesAt(run, j, i) && Passes(run[k], run[k + 1], i) {
      PassedOnce(run, acts, i, j, k);
    }
  }

  /** One of the first m steps took the slot. */
  ghost predicate IsTaken(run: seq<Reader>, m: nat, i: nat)
    requires m < |run|
  {
    exists j: nat :: j < m && TakesAt(run, j, i)
  }

  lemma TakenNext(run: seq<Reader>, acts: seq<Act>, m: nat, i: nat)
    requires IsRun(run, acts) && m < |acts|
    ensures IsTaken(run, m + 1, i) <==> IsTaken(run, m, i) || TakesAt(run, m, i)
    ensures !(IsTaken(run, m, i) && TakesAt(run, m, i))
    ensures i >= |run[m].entries| ==> !IsTaken(run, m + 1, i)
  {
    forall j: nat | j < m + 1 && TakesAt(run, j, i)
      ensures i < |run[m].entries| && (j < m ==> !TakesAt(run, m, i))
    {
      RunValid(run, acts, j, m);
      TakenOnce(run, acts, i, j, m);
    }
  }

  lemma NextTimes(run: seq<Reader>, acts: seq<Act>, m: nat, i: nat)
    requires IsRun(run, acts) && m < |acts| && i < |run[m + 1].entries|
    ensures Times(run[m + 1].out, run[m + 1].entries[i].name) ==
      if i >= |run[m].entries| then 0
      else Times(run[m].out, run[m].entries[i].name) + (if TakesAt(run, m, i) then 1 else 0)
  {
    RunValid(run, acts, m, m + 1);
    if i < |run[m].entries| {
      StepEmits(run[m], acts[m], run[m + 1], i);
    } else {
      NewIsNotEmitted(run[m], acts[m], run[m + 1], i);
    }
  }

  /** The name of a slot has gone out once if some call took the slot, and else never. */
  lemma {:induction false} RunEmits(run: seq<Reader>, acts: seq<Act>, m: nat, i: nat)
    requires IsRun(run, acts) && m < |run| && i < |run[m].entries|
    ensures Times(run[m].out, run[m].entries[i].name) == if IsTaken(run, m, i) then 1 else 0
    decreases m
  {
    if m > 0 {
      NextTimes(run, acts, m - 1, i);
      TakenNext(run, acts, m - 1, i);
      if i < |run[m - 1].entries| {
        RunEmits(run, acts, m - 1, i);
      }
    }
  }

  ghost predicate CleanAt(run: seq<Reader>, acts: seq<Act>, j: nat)
    requires j < |acts| && j < |run|
  {
    run[j].pos >= DOTS && IsClean(run[j], acts[j])
  }

  /** A clean call takes what is live where it passes. */
  lemma CleanCallEmits(run: seq<Reader>, acts: seq<Act>, j: nat, i: nat)
    requires IsRun(run, acts) && j < |acts| && CleanAt(run, acts, j) && LiveWhenPassed(run, j, i)
    ensures i < |run[|acts|].entries| && run[|acts|].entries[i].name == run[j].entries[i].name
    ensures Times(run[|acts|].out, run[j].entries[i].name) == 1
  {
    RunValid(run, acts, j, |acts|);
    StepEmits(run[j], acts[j], run[j + 1], i);
    assert TakesAt(run, j, i);
    RunEmits(run, acts, |acts|, i);
  }

  /** A call that is not clean passes over a live entry, which no other call emits. */
  lemma DirtyCallLoses(run: seq<Reader>, acts: seq<Act>, j: nat) returns (i: nat)
    requires IsRun(run, acts) && j < |acts| && !CleanAt(run, acts, j)
    ensures LiveWhenPassed(run, j, i) && Times(run[|acts|].out, run[j].entries[i].name) == 0
  {
    RunValid(run, acts, j, |acts|);
    i := CallStretch(run[j], acts[j], run[j + 1]);
    CallTakes(run[j], run[j + 1], i, i);
    forall k: nat | k < |acts| ensures !TakesAt(run, k, i) {
      TakenOnce(run, acts, i, k, j);
    }
    RunEmits(run, acts, |acts|, i);
  }

  /**
   * Over any run, with any changes between the calls: every entry that is live when its slot is
   * passed goes out exactly once, if and only if no buffered call is cut before a tombstone of its
   * window that has a live entry that did not fit before it.
   */
  lemma ReadingCondition(run: seq<Reader>, acts: seq<Act>)
    requires IsRun(run, acts)
    ensures (forall j: nat, i: nat :: j < |acts| && LiveWhenPassed(run, j, i) ==>
      Times(run[|acts|].out, run[j].entries[i].name) == 1) <==> (forall j: nat :: j < |acts| ==> CleanAt(run, acts, j))
  {
    if j: nat :| j < |acts| && !CleanAt(run, acts, j) {
      var i := DirtyCallLoses(run, acts, j);
    } else {
      forall j: nat, i: nat | j < |acts| && LiveWhenPassed(run, j, i)
        ensures Times(run[|acts|].out, run[j].entries[i].name) == 1
      {
        CleanCallEmits(run, acts, j, i);
      }
    }
  }

  /** A slot between the first and the last position was passed by some step. */
  lemma {:induction false} PassedSometime(run: seq<Reader>, acts: seq<Act>, m: nat, i: nat) returns (j: nat)
    requires IsRun(run, acts) && m < |run| && run[0].pos <= i + DOTS < run[m].pos
    ensures j < m && Passes(run[j], run[j + 1], i)
    decreases m
  {
    if i + DOTS < run[m - 1].pos {
      j := PassedSometime(run, acts, m - 1, i);
    } else {
      j := m - 1;
    }
  }

  /** The slot's entry is live in every list that has it. */
  ghost predicate LiveThroughout(run: seq<Reader>, i: nat) {
    forall j: nat :: j < |run| && i < |run[j].entries| ==> IsLive(run[j], i)
  }

  /**
   * An entry that is live throughout goes out exactly once if its slot was passed, and not at all
   * otherwise, whatever happens to other entries in between. No call may be cut before a tombstone.
   */
  lemma ExactlyOnce(run: seq<Reader>, acts: seq<Act>, i: nat)
    requires IsRun(run, acts) && forall j: nat :: j < |acts| ==> CleanAt(run, acts, j)
    requires i < |run[|acts|].entries| && LiveThroughout(run, i)
    ensures Times(run[|acts|].out, run[|acts|].entries[i].name) ==
      if run[0].pos <= i + DOTS < run[|acts|].pos then 1 else 0
  {
    if run[0].pos <= i + DOTS < run[|acts|].pos {
      var j := PassedSometime(run, acts, |acts|, i);
      RunValid(run, acts, j, j);
      PassedIsThere(run[j], acts[j], run[j + 1], i);
      CleanCallEmits(run, acts, j, i);
    } else {
      forall j: nat | j < |acts| ensures !TakesAt(run, j, i) {
        TakenOnce(run, acts, i, j, j);
        RunValid(run, acts, 0, j);
        RunValid(run, acts, j + 1, |acts|);
      }
      RunEmits(run, acts, |acts|, i);
    }
  }

  /** Calls under the lock are clean, so a reader that has only those misses nothing. */
  lemma LockedReading(run: seq<Reader>, acts: seq<Act>, i: nat)
    requires IsRun(run, acts) && forall j: nat :: j < |acts| ==> !acts[j].ReadBuffered?
    requires i < |run[|acts|].entries| && LiveThroughout(run, i)
    ensures Times(run[|acts|].out, run[|acts|].entries[i].name) ==
      if run[0].pos <= i + DOTS < run[|acts|].pos then 1 else 0
  {
    forall j: nat | j < |acts| ensures CleanAt(run, acts, j) {
      RunValid(run, acts, j, j);
    }
    ExactlyOnce(run, acts, i);
  }

  const THREE := [Entry("a", 1, 0, false, 0), Entry("b", 2, 0, false, 0), Entry("c", 3, 0, true, 0)]

  lemma ThreeEntries()
    ensures LiveOf(THREE, 0, 3) == [THREE[0], THREE[1]] && Tombs(THREE, 0, 3) == 1
    ensures LiveOf(THREE, 2, 3) == [] && Tombs(THREE, 2, 3) == 1
  {
    assert LiveOf(THREE, 0, 0) == [] && Tombs(THREE, 0, 0) == 0;
    assert LiveOf(THREE, 0, 1) == [THREE[0]] && Tombs(THREE, 0, 1) == 0;
    assert LiveOf(THREE, 0, 2) == [THREE[0], THREE[1]] && Tombs(THREE, 0, 2) == 0;
    assert LiveOf(THREE, 2, 2) == [] && Tombs(THREE, 2, 2) == 0;
  }

  /** Three entries, the last one removed, and room for one: the second is never emitted. */
  lemma CutLosesEntry() returns (run: seq<Reader>, acts: seq<Act>)
    ensures IsRun(run, acts) && |acts| == 2 && LiveThroughout(run, 1)
    ensures run[0].pos == DOTS && run[2].pos == DOTS + |run[2].entries|
    ensures |run[2].entries| > 1 && Times(run[2].out, run[2].entries[1].name) == 0
  {
    ThreeEntries();
    var a := THREE[0];
    acts := [ReadBuffered(1, 3), ReadBuffered(1, 3)];
    run := [Reader(THREE, DOTS, []), Reader(THREE, DOTS + 2, [a]), Reader(THREE, DOTS + 3, [a])];
    assert run[1].out[|run[0].out|..] == [a] && Steps(run[0], acts[0], run[1]);
    assert run[2].out[|run[1].out|..] == [] && Steps(run[1], acts[1], run[2]);
    TimesZero([a], "b");
  }

  // ------------------------------------------------------------ compaction under a reader

  lemma {:induction false} LiveSplit(entries: seq<Entry>, lo: nat, mid: nat, hi: nat)
    requires lo <= mid <= hi <= |entries|
    ensures LiveOf(entries, lo, hi) == LiveOf(entries, lo, mid) + LiveOf(entries, mid, hi)
  {
    if mid < hi {
      LiveSplit(entries, lo, mid, hi - 1);
    } else {
      assert LiveOf(entries, mid, hi) == [];
    }
  }

  lemma {:induction false} AllLive(entries: seq<Entry>, lo: nat, hi: nat)
    requires lo <= hi <= |entries| && forall k :: 0 <= k < |entries| ==> !entries[k].deleted
    ensures LiveOf(entries, lo, hi) == entries[lo..hi]
  {
    if lo < hi {
      AllLive(entries, lo, hi - 1);
    }
  }

  /** The list after another reader has started: compacted if crowded. */
  function Compacted(entries: seq<Entry>): seq<Entry> {
    if IsCrowded(entries) then LiveOf(entries, 0, |entries|) else entries
  }

  /**
   * Another reader starts. What is still ahead of this reader stays ahead of it exactly when the list
   * is not crowded, or this reader has passed no tombstone, or nothing live is left to read.
   */
  lemma CompactionSkips(entries: seq<Entry>, pos: nat)
    requires DOTS <= pos <= DOTS + |entries|
    ensures var kept := Compacted(entries);
      LiveOf(kept, Slot(kept, pos), |kept|) == LiveOf(entries, pos - DOTS, |entries|) <==>
      !IsCrowded(entries) || Tombs(entries, 0, pos - DOTS) == 0 || LiveOf(entries, pos - DOTS, |entries|) == []
  {
    if IsCrowded(entries) {
      var kept, p := LiveOf(entries, 0, |entries|), pos - DOTS;
      var rest := LiveOf(entries, p, |entries|);
      LiveSplit(entries, 0, p, |entries|);
      TombsAndLive(entries, 0, p);
      forall k | 0 <= k < |kept| ensures !kept[k].deleted {
        LiveOfMember(entries, 0, |entries|, k);
      }
      AllLive(kept, Slot(kept, pos), |kept|);
      var ahead := kept[Slot(kept, pos)..|kept|];
      assert Tombs(entries, 0, p) == 0 ==> ahead == rest;
      assert |kept| == p - Tombs(entries, 0, p) + |rest|;
    }
  }

  /** Names that differ in length. */
  function NameOf(i: nat): Name {
    seq(i, _ => 'a')
  }

  function Tombstones(n: nat): (entries: seq<Entry>)
    ensures |entries| == n && Unique(entries)
  {
    seq(n, i requires 0 <= i < n => Entry(NameOf(i), 1, 0, true, 0))
  }

  lemma {:induction false} NoneLive(n: nat, hi: nat)
    requires hi <= n
    ensures LiveOf(Tombstones(n), 0, hi) == []
  {
    if hi > 0 {
      NoneLive(n, hi - 1);
    }
  }

  /** One more name comes and goes. */
  lemma NextTombstone(n: nat)
    ensures RemoveFrom(AddTo(Tombstones(n), NameOf(n), 1, 0), NameOf(n)) == Tombstones(n + 1)
  {
    var list, e := Tombstones(n), Entry(NameOf(n), 1, 0, false, 0);
    forall k | 0 <= k < n ensures |list[k].name| != |NameOf(n)| {
    }
    assert AddTo(list, NameOf(n), 1, 0) == list + [e];
    forall k | 0 <= k < n ensures |(list + [e])[k].name| != |NameOf(n)| {
    }
    assert (list + [e])[n].name == NameOf(n);
    assert IndexOf(list + [e], NameOf(n)) == n;
  }

  /**
   * A directory from which as many files have been removed as compaction asks for, one that is still
   * there, and a reader that has passed the removed ones: after a compaction it never sees the file.
   */
  method CompactionLosesEntry() returns (d: Directory, pos: nat, before: seq<Entry>)
    ensures d.Valid() && IsCrowded(before) && DOTS <= pos <= DOTS + |before|
    ensures d.entries == LiveOf(before, pos - DOTS, |before|) && |d.entries| == 1
    ensures LiveOf(d.entries, Slot(d.entries, pos), |d.entries|) == []
  {
    d := new Directory();
    for i := 0 to COMPACT_MIN
      invariant d.Valid() && d.entries == Tombstones(i)
    {
      d.Add(NameOf(i), 1, 0);
      var _ := d.Remove(NameOf(i));
      NextTombstone(i);
    }
    pos := DOTS + COMPACT_MIN;
    d.Add(NameOf(COMPACT_MIN), 1, 0);
    before := d.entries;
    LastIsLive();
    var removed := d.Compact();
  }

  /** The list that the method above has when it compacts. */
  lemma LastIsLive()
    ensures var list := AddTo(Tombstones(COMPACT_MIN), NameOf(COMPACT_MIN), 1, 0);
      |list| == COMPACT_MIN + 1 && IsCrowded(list) && |LiveOf(list, 0, |list|)| == 1
      && LiveOf(list, COMPACT_MIN, |list|) == LiveOf(list, 0, |list|)
  {
    var n, old_ := COMPACT_MIN, Tombstones(COMPACT_MIN);
    var e := Entry(NameOf(n), 1, 0, false, 0);
    forall k | 0 <= k < n ensures |old_[k].name| != |NameOf(n)| {
    }
    var list := old_ + [e];
    assert AddTo(old_, NameOf(n), 1, 0) == list;
    SamePrefix(old_, list, n);
    NoneLive(n, n);
    assert LiveOf(list, n, n) == [] && LiveOf(list, n, n + 1) == [e] && LiveOf(list, 0, n + 1) == [e];
  }

  lemma {:induction false} SamePrefix(a: seq<Entry>, b: seq<Entry>, hi: nat)
    requires hi <= |a| <= |b| && forall k :: 0 <= k < hi ==> a[k] == b[k]
    ensures LiveOf(a, 0, hi) == LiveOf(b, 0, hi)
  {
    if hi > 0 {
      SamePrefix(a, b, hi - 1);
    }
  }
}
