/**
 * Dirty capability bits under concurrent marking, flushing and revoking. Each region under the
 * inode lock is one step; network calls succeed or fail as they like.
 */
module CapFlush {
  import opened Basics
  import opened CapBits
  import opened Machines

  /**
   * The layout is fixed. For inline data, `quiet` says that no write lands between a flush's copy of
   * the data and the outcome of its sync, and that no flush copies while a write that grows the data
   * has detached it. `ordered` says that data bits are marked only while inline data is there and
   * flagged.
   */
  datatype Config = Config(inlineLayout: bool, quiet: bool, ordered: bool)

  /**
   * What is owed to the server: a bit marked dirty at a moment, or bytes put into the inline data,
   * which are owed as a file write. A sync covers what came before it read the state it sends.
   */
  datatype Debt = Debt(bit: Bit, id: nat)

  /** Where a flush is; AtSync has copied the inline data at moment `copied`. */
  datatype Step = AtData | AtAttr | AtXattr | AtInline | AtSync(copied: nat) | AtEnd

  /** A record on the list of flushes: the bits it took, when, and whether inline data goes with it. */
  datatype Flush = Flush(caps: Mask, taken: nat, withInline: bool, step: Step)

  datatype State = State(
    dirty: Mask, inlineDirty: bool, hasData: bool, detached: bool, flushes: map<nat, Flush>, clock: nat,
    debts: set<Debt>)

  datatype Action =
    | Mark(bits: Mask)          // powerfs_cap_mark_dirty
    | Detach                    // a write that grows the inline data takes the buffer away
    | Install                   // a write puts bytes into the inline data, and a detached buffer back
    | Discard                   // a revoke drops clean inline data
    | Take(t: nat, mask: Mask)  // a flush takes dirty bits and appends its record
    | Data(t: nat, ok: bool)    // page writeback, and size and chunks unless inline
    | Attr(t: nat, ok: bool)
    | Xattr(t: nat, ok: bool)
    | Copy(t: nat)              // snapshot of the inline data
    | InlineFails(t: nat)
    | InlineSynced(t: nat)
    | End(t: nat)               // the record leaves the list

  function Init(): State {
    State({}, false, false, false, map[], 0, {})
  }

  predicate NeedsInline(cfg: Config, s: State, bits: Mask) {
    cfg.inlineLayout && bits * WR_DATA != {} && s.inlineDirty
  }

  /** Some flush has copied the inline data and waits for the outcome of its sync. */
  predicate Copied(s: State) {
    exists t :: t in s.flushes && s.flushes[t].step.AtSync?
  }

  predicate MayWrite(cfg: Config, s: State) {
    cfg.quiet ==> !Copied(s)
  }

  predicate Enabled(cfg: Config, s: State, act: Action) {
    match act
    case Mark(bits) =>
      bits <= ANY_DIRTY &&
      (cfg.inlineLayout && bits * WR_DATA != {} ==> MayWrite(cfg, s) && (cfg.ordered ==> s.inlineDirty && s.hasData))
    case Detach => cfg.inlineLayout && MayWrite(cfg, s) && !s.detached
    case Install => cfg.inlineLayout && MayWrite(cfg, s)
    case Discard => cfg.inlineLayout
    case Take(t, mask) => t !in s.flushes && s.dirty * mask != {}
    case Data(t, _) => t in s.flushes && s.flushes[t].step == AtData
    case Attr(t, _) => t in s.flushes && s.flushes[t].step == AtAttr
    case Xattr(t, _) => t in s.flushes && s.flushes[t].step == AtXattr
    case Copy(t) =>
      t in s.flushes && s.flushes[t].step == AtInline && (cfg.quiet && s.flushes[t].withInline ==> !s.detached)
    case InlineFails(t) =>
      t in s.flushes && s.flushes[t].withInline && (s.flushes[t].step == AtInline || s.flushes[t].step.AtSync?)
    case InlineSynced(t) => t in s.flushes && s.flushes[t].step.AtSync?
    case End(t) => t in s.flushes && s.flushes[t].step == AtEnd
  }

  function At(s: State, t: nat, step: Step): State
    requires t in s.flushes
  {
    s.(flushes := s.flushes[t := s.flushes[t].(step := step)])
  }

  /** A sync of some of the flush's bits failed (they are dirty again) or covers what was marked before. */
  function Outcome(s: State, f: Flush, bits: Mask, ok: bool): State {
    if ok then s.(debts := set d | d in s.debts && !(d.bit in f.caps * bits && d.id < f.taken))
    else s.(dirty := s.dirty + f.caps * bits)
  }

  function Do(cfg: Config, s: State, act: Action): State
    requires Enabled(cfg, s, act)
  {
    match act
    case Mark(bits) =>
      s.(dirty := s.dirty + bits, debts := s.debts + (set b | b in bits :: Debt(b, s.clock)), clock := s.clock + 1)
    case Detach => s.(hasData := false, detached := true)
    case Install =>
      s.(hasData := true, detached := false, inlineDirty := true, debts := s.debts + {Debt(FileWr, s.clock)},
         clock := s.clock + 1)
    case Discard => if s.inlineDirty then s else s.(hasData := false)
    case Take(t, mask) =>
      var bits := s.dirty * mask;
      s.(dirty := s.dirty - bits, flushes := s.flushes[t := Flush(bits, s.clock, NeedsInline(cfg, s, bits), AtData)])
    case Data(t, ok) =>
      var f := s.flushes[t];
      var u := At(s, t, AtAttr);
      // writing back the pages of an inline file sends nothing: its data goes out with the inline sync
      if ok && cfg.inlineLayout then u else Outcome(u, f, WR_DATA, ok)
    case Attr(t, ok) => Outcome(At(s, t, AtXattr), s.flushes[t], {AuthExcl}, ok)
    case Xattr(t, ok) => Outcome(At(s, t, AtInline), s.flushes[t], {XattrExcl}, ok)
    case Copy(t) =>
      if !s.flushes[t].withInline then At(s, t, AtEnd)
      else if !s.hasData then At(s, t, AtEnd).(inlineDirty := false)
      else At(s, t, AtSync(s.clock))
    case InlineFails(t) => At(s, t, AtEnd).(inlineDirty := true)
    case InlineSynced(t) =>
      var copied := s.flushes[t].step.copied;
      At(s, t, AtEnd).(inlineDirty := false, debts := set d | d in s.debts && !(d.bit in WR_DATA && d.id < copied))
    case End(t) => s.(flushes := s.flushes - {t})
  }

  /** Every uncovered dirty bit is dirty still, or in a record on the list, or guarded by inlineDirty. */
  ghost predicate Safe(cfg: Config, s: State) {
    forall d :: d in s.debts ==>
      || d.bit in s.dirty
      || (exists t :: t in s.flushes && d.bit in s.flushes[t].caps)
      || (cfg.inlineLayout && d.bit in WR_DATA && s.inlineDirty)
  }

  // ------------------------------------------------------------ the invariant

  /** The flush has yet to sync the bit; inline data is not counted here. */
  predicate Unfinished(f: Flush, bit: Bit) {
    match f.step
    case AtData => true
    case AtAttr => bit == AuthExcl || bit == XattrExcl
    case AtXattr => bit == XattrExcl
    case _ => false
  }

  predicate Carries(f: Flush, d: Debt) {
    d.bit in f.caps && d.id < f.taken && Unfinished(f, d.bit)
  }

  ghost predicate Held(s: State, d: Debt) {
    d.bit in s.dirty || exists t :: t in s.flushes && Carries(s.flushes[t], d)
  }

  predicate IsInlineData(cfg: Config, d: Debt) {
    cfg.inlineLayout && d.bit in WR_DATA
  }

  /** Inline data that is owed is there or with a writer, flagged, and in the copy of every sync under way. */
  ghost predicate Flagged(s: State, d: Debt) {
    && s.inlineDirty && (s.hasData || s.detached)
    && forall t :: t in s.flushes && s.flushes[t].step.AtSync? ==> d.id < s.flushes[t].step.copied
  }

  ghost predicate Kept(cfg: Config, s: State, d: Debt) {
    if IsInlineData(cfg, d) then Flagged(s, d) else Held(s, d)
  }

  ghost predicate Inv(cfg: Config, s: State) {
    && (forall d :: d in s.debts ==> d.id < s.clock && d.bit in ANY_DIRTY && Kept(cfg, s, d))
    && (forall t :: t in s.flushes ==> s.flushes[t].taken <= s.clock)
  }

  /** The writes that the two conditions leave. */
  predicate Disciplined(cfg: Config) {
    !cfg.inlineLayout || (cfg.quiet && cfg.ordered)
  }

  lemma InvIsSafe(cfg: Config, s: State)
    requires Inv(cfg, s)
    ensures Safe(cfg, s)
  {
    forall d | d in s.debts
      ensures d.bit in s.dirty || (exists t :: t in s.flushes && d.bit in s.flushes[t].caps)
        || (cfg.inlineLayout && d.bit in WR_DATA && s.inlineDirty)
    {
      assert Kept(cfg, s, d);
    }
  }

  /** A debt stays with its holder, and the flag with inline data. */
  lemma StillKept(cfg: Config, s: State, s': State, d: Debt)
    requires Kept(cfg, s, d) && s.dirty <= s'.dirty
    requires forall t :: t in s.flushes && Carries(s.flushes[t], d) ==>
      d.bit in s'.dirty || (t in s'.flushes && Carries(s'.flushes[t], d))
    requires IsInlineData(cfg, d) ==> s'.inlineDirty && (s'.hasData || s'.detached)
    requires forall t :: t in s'.flushes && s'.flushes[t].step.AtSync? ==>
      (t in s.flushes && s'.flushes[t].step == s.flushes[t].step) || d.id < s'.flushes[t].step.copied
    ensures Kept(cfg, s', d)
  {
  }

  lemma MarkKept(cfg: Config, s: State, bits: Mask)
    requires Inv(cfg, s) && Enabled(cfg, s, Mark(bits)) && Disciplined(cfg)
    ensures Inv(cfg, Do(cfg, s, Mark(bits)))
  {
    var s' := Do(cfg, s, Mark(bits));
    forall d | d in s'.debts
      ensures Kept(cfg, s', d)
    {
      if d in s.debts {
        StillKept(cfg, s, s', d);
      } else {
        assert d.bit in bits;
        assert d.bit in WR_DATA ==> d.bit in bits * WR_DATA;
      }
    }
  }

  lemma InstallKept(cfg: Config, s: State)
    requires Inv(cfg, s) && Enabled(cfg, s, Install) && Disciplined(cfg)
    ensures Inv(cfg, Do(cfg, s, Install))
  {
    var s' := Do(cfg, s, Install);
    forall d | d in s'.debts
      ensures Kept(cfg, s', d)
    {
      if d in s.debts { StillKept(cfg, s, s', d); }
    }
  }

  lemma DetachKept(cfg: Config, s: State)
    requires Inv(cfg, s) && Enabled(cfg, s, Detach)
    ensures Inv(cfg, Do(cfg, s, Detach))
  {
    var s' := Do(cfg, s, Detach);
    forall d | d in s'.debts
      ensures Kept(cfg, s', d)
    {
      assert Kept(cfg, s, d);
      StillKept(cfg, s, s', d);
    }
  }

  lemma DiscardKept(cfg: Config, s: State)
    requires Inv(cfg, s) && Enabled(cfg, s, Discard)
    ensures Inv(cfg, Do(cfg, s, Discard))
  {
    var s' := Do(cfg, s, Discard);
    forall d | d in s'.debts
      ensures Kept(cfg, s', d)
    {
      assert Kept(cfg, s, d);
      StillKept(cfg, s, s', d);
    }
  }

  lemma TakeKept(cfg: Config, s: State, t: nat, mask: Mask)
    requires Inv(cfg, s) && Enabled(cfg, s, Take(t, mask))
    ensures Inv(cfg, Do(cfg, s, Take(t, mask)))
  {
    var s' := Do(cfg, s, Take(t, mask));
    forall d | d in s'.debts
      ensures Kept(cfg, s', d)
    {
      assert Kept(cfg, s, d);
      if IsInlineData(cfg, d) {
      } else if d.bit in s.dirty && d.bit in mask {
        assert Carries(s'.flushes[t], d);
      } else if d.bit !in s.dirty {
        var u :| u in s.flushes && Carries(s.flushes[u], d);
        assert s'.flushes[u] == s.flushes[u];
      }
    }
  }

  /** A sync step: the bits it is about become dirty again or lose their older debts. */
  lemma SyncKept(cfg: Config, s: State, t: nat, next: Step, bits: Mask, ok: bool)
    requires Inv(cfg, s) && t in s.flushes && s.flushes[t].step != AtEnd && !s.flushes[t].step.AtSync?
    requires !next.AtSync? && next != AtEnd
    requires forall b :: b in ANY_DIRTY && Unfinished(s.flushes[t], b) && b !in bits ==>
      Unfinished(s.flushes[t].(step := next), b)
    ensures Inv(cfg, Outcome(At(s, t, next), s.flushes[t], bits, ok))
  {
    var f := s.flushes[t];
    var s' := Outcome(At(s, t, next), f, bits, ok);
    forall d | d in s'.debts
      ensures Kept(cfg, s', d)
    {
      assert d in s.debts && Kept(cfg, s, d);
      SyncKeeps(cfg, s, t, next, bits, ok, d);
    }
  }

  lemma SyncKeeps(cfg: Config, s: State, t: nat, next: Step, bits: Mask, ok: bool, d: Debt)
    requires t in s.flushes && !s.flushes[t].step.AtSync? && !next.AtSync? && Kept(cfg, s, d)
    requires d.bit !in bits && Unfinished(s.flushes[t], d.bit) ==> Unfinished(s.flushes[t].(step := next), d.bit)
    requires d in Outcome(At(s, t, next), s.flushes[t], bits, ok).debts
    ensures Kept(cfg, Outcome(At(s, t, next), s.flushes[t], bits, ok), d)
  {
    var f := s.flushes[t];
    assert Carries(f, d) && d.bit !in bits ==> Carries(f.(step := next), d);
    StillKept(cfg, s, Outcome(At(s, t, next), f, bits, ok), d);
  }

  /** Page writeback of an inline file discharges nothing. */
  lemma InlineDataKept(cfg: Config, s: State, t: nat)
    requires Inv(cfg, s) && cfg.inlineLayout && Enabled(cfg, s, Data(t, true))
    ensures Inv(cfg, At(s, t, AtAttr))
  {
    var s' := At(s, t, AtAttr);
    forall d | d in s'.debts
      ensures Kept(cfg, s', d)
    {
      assert Kept(cfg, s, d);
      if !IsInlineData(cfg, d) { StillKept(cfg, s, s', d); }
    }
  }

  lemma CopyKept(cfg: Config, s: State, t: nat)
    requires Inv(cfg, s) && Enabled(cfg, s, Copy(t)) && Disciplined(cfg)
    ensures Inv(cfg, Do(cfg, s, Copy(t)))
  {
    var s' := Do(cfg, s, Copy(t));
    forall d | d in s'.debts
      ensures Kept(cfg, s', d)
    {
      assert Kept(cfg, s, d);
      StillKept(cfg, s, s', d);
    }
  }

  lemma InlineFailsKept(cfg: Config, s: State, t: nat)
    requires Inv(cfg, s) && Enabled(cfg, s, InlineFails(t))
    ensures Inv(cfg, Do(cfg, s, InlineFails(t)))
  {
    var s' := Do(cfg, s, InlineFails(t));
    forall d | d in s'.debts
      ensures Kept(cfg, s', d)
    {
      assert Kept(cfg, s, d);
      StillKept(cfg, s, s', d);
    }
  }

  /** All inline data that was owed was in the copy, whatever other flushes do. */
  lemma InlineSyncedKept(cfg: Config, s: State, t: nat)
    requires Inv(cfg, s) && Enabled(cfg, s, InlineSynced(t))
    ensures Inv(cfg, Do(cfg, s, InlineSynced(t)))
  {
    var s' := Do(cfg, s, InlineSynced(t));
    forall d | d in s'.debts
      ensures Kept(cfg, s', d)
    {
      assert Kept(cfg, s, d);
      assert !IsInlineData(cfg, d);
      StillKept(cfg, s, s', d);
    }
  }

  lemma EndKept(cfg: Config, s: State, t: nat)
    requires Inv(cfg, s) && Enabled(cfg, s, End(t))
    ensures Inv(cfg, Do(cfg, s, End(t)))
  {
    var s' := Do(cfg, s, End(t));
    forall d | d in s'.debts
      ensures Kept(cfg, s', d)
    {
      assert Kept(cfg, s, d);
      StillKept(cfg, s, s', d);
    }
  }

  lemma StepKept(cfg: Config, s: State, act: Action)
    requires Inv(cfg, s) && Enabled(cfg, s, act) && Disciplined(cfg)
    ensures Inv(cfg, Do(cfg, s, act))
  {
    match act
    case Mark(bits) => MarkKept(cfg, s, bits);
    case Detach => DetachKept(cfg, s);
    case Install => InstallKept(cfg, s);
    case Discard => DiscardKept(cfg, s);
    case Take(t, mask) => TakeKept(cfg, s, t, mask);
    case Data(t, ok) =>
      if ok && cfg.inlineLayout {
        InlineDataKept(cfg, s, t);
      } else {
        SyncKept(cfg, s, t, AtAttr, WR_DATA, ok);
      }
    case Attr(t, ok) => SyncKept(cfg, s, t, AtXattr, {AuthExcl}, ok);
    case Xattr(t, ok) => SyncKept(cfg, s, t, AtInline, {XattrExcl}, ok);
    case Copy(t) => CopyKept(cfg, s, t);
    case InlineFails(t) => InlineFailsKept(cfg, s, t);
    case InlineSynced(t) => InlineSyncedKept(cfg, s, t);
    case End(t) => EndKept(cfg, s, t);
  }

  // ------------------------------------------------------------ runs

  function Next(cfg: Config): (State, Action) -> Option<State> {
    (s, act) => if Enabled(cfg, s, act) then Some(Do(cfg, s, act)) else None
  }

  /** The states that runs reach. */
  ghost predicate Occurs(cfg: Config, s: State) {
    Reachable(Next(cfg), Init(), s)
  }

  lemma OccursInv(cfg: Config, s: State)
    requires Occurs(cfg, s) && Disciplined(cfg)
    ensures Inv(cfg, s)
  {
    var acts :| Runs(Next(cfg), Init(), acts, s);
    forall u, act | Inv(cfg, u) && Next(cfg)(u, act).Some?
      ensures Inv(cfg, Next(cfg)(u, act).value)
    {
      StepKept(cfg, u, act);
    }
    InvariantHolds(Next(cfg), u => Inv(cfg, u), Init(), acts, s);
  }

  /** One more step of a run. */
  lemma Then(cfg: Config, s: State, act: Action) returns (s': State)
    requires Occurs(cfg, s) && Enabled(cfg, s, act)
    ensures Occurs(cfg, s') && s' == Do(cfg, s, act)
  {
    Reach(Next(cfg), Init(), s, act);
    s' := Do(cfg, s, act);
  }

  // ------------------------------------------------------------ writes that are lost

  /** A flush whose only bit is a file write runs up to its inline step. */
  lemma UpToInline(cfg: Config, s: State, t: nat) returns (s': State)
    requires cfg.inlineLayout && Occurs(cfg, s) && t in s.flushes
    requires s.flushes[t].caps == {FileWr} && s.flushes[t].step == AtData
    ensures Occurs(cfg, s') && s' == At(s, t, AtInline)
  {
    var d := Then(cfg, s, Data(t, true));
    var e := Then(cfg, d, Attr(t, true));
    assert e.debts == d.debts by { assert {FileWr} * {AuthExcl} == {}; }
    s' := Then(cfg, e, Xattr(t, true));
    assert s'.debts == e.debts by { assert {FileWr} * {XattrExcl} == {}; }
  }

  /** The dirty file write is taken by flush t, which runs up to its inline step. */
  lemma TakeWrite(cfg: Config, s: State, t: nat) returns (s': State)
    requires cfg.inlineLayout && Occurs(cfg, s) && t !in s.flushes && s.dirty == {FileWr}
    ensures Occurs(cfg, s')
    ensures s' == s.(dirty := {}, flushes := s.flushes[t := Flush({FileWr}, s.clock, s.inlineDirty, AtInline)])
  {
    assert s.dirty * {FileWr} == {FileWr} && {FileWr} * WR_DATA == {FileWr} && {FileWr} - {FileWr} == {};
    var a := Then(cfg, s, Take(t, {FileWr}));
    s' := UpToInline(cfg, a, t);
  }

  /** A write: bytes are put into the inline data, then the bit is marked. */
  lemma WriteInline(cfg: Config, s: State) returns (s': State)
    requires cfg.inlineLayout && MayWrite(cfg, s) && Occurs(cfg, s) && s.dirty == {}
    ensures Occurs(cfg, s')
    ensures s' == s.(dirty := {FileWr}, inlineDirty := true, hasData := true, detached := false, clock := s.clock + 2,
                     debts := s.debts + {Debt(FileWr, s.clock), Debt(FileWr, s.clock + 1)})
  {
    var a := Then(cfg, s, Install);
    s' := Then(cfg, a, Mark({FileWr}));
    assert s'.debts == a.debts + {Debt(FileWr, s.clock + 1)};
  }

  /** A flush that carries no inline data takes the bit, sends nothing and ends. */
  lemma EmptyFlush(cfg: Config, s: State) returns (s': State)
    requires cfg.inlineLayout && Occurs(cfg, s) && s.flushes == map[] && s.dirty == {FileWr} && !s.inlineDirty
    ensures Occurs(cfg, s') && s' == s.(dirty := {})
  {
    var a := TakeWrite(cfg, s, 0);
    var b := Then(cfg, a, Copy(0));
    s' := Then(cfg, b, End(0));
    assert s'.flushes == map[];
  }

  /**
   * A mark that precedes its bytes, as write_end makes it: a flush takes the bit while the flag is
   * still down. No flushes overlap.
   */
  lemma EarlyMarkLosesBit(cfg: Config) returns (s: State)
    requires cfg.inlineLayout && !cfg.ordered
    ensures Occurs(cfg, s) && !Safe(cfg, s)
  {
    ReachInit(Next(cfg), Init());
    var a := Then(cfg, Init(), Mark({FileWr}));
    assert Debt(FileWr, 0) in a.debts;
    s := EmptyFlush(cfg, a);
    assert Debt(FileWr, 0) in s.debts;
  }

  /**
   * A write that lands between a flush's copy and its success: the flag is cleared although the
   * write was not in the copy, and the next flush sends nothing. No flushes overlap.
   */
  lemma LateWriteLosesBit(cfg: Config) returns (s: State)
    requires cfg.inlineLayout && !cfg.quiet
    ensures Occurs(cfg, s) && !Safe(cfg, s)
  {
    ReachInit(Next(cfg), Init());
    var a := WriteInline(cfg, Init());
    var b := TakeWrite(cfg, a, 0);
    var c := Then(cfg, b, Copy(0));
    assert c.flushes[0].step == AtSync(2);
    var d := WriteInline(cfg, c);
    var e := Then(cfg, d, InlineSynced(0));
    var f := Then(cfg, e, End(0));
    assert f.flushes == map[] && Debt(FileWr, 2) in f.debts;
    s := EmptyFlush(cfg, f);
    assert Debt(FileWr, 2) in s.debts;
  }

  /**
   * The same window with overlapping flushes: the second write is taken by a flush of its own, which
   * fails, before the first flush succeeds and clears the flag.
   */
  lemma OverlapLosesBit(cfg: Config) returns (s: State)
    requires cfg.inlineLayout && !cfg.quiet
    ensures Occurs(cfg, s) && !Safe(cfg, s)
  {
    ReachInit(Next(cfg), Init());
    var a := WriteInline(cfg, Init());
    var b := TakeWrite(cfg, a, 0);
    var c := Then(cfg, b, Copy(0));
    assert c.flushes[0].step == AtSync(2);
    var d := WriteInline(cfg, c);
    var e := TakeWrite(cfg, d, 1);
    var f := Then(cfg, e, InlineFails(1));
    var g := Then(cfg, f, End(1));
    assert g.flushes == c.flushes && Debt(FileWr, 2) in g.debts;
    var h := Then(cfg, g, InlineSynced(0));
    s := Then(cfg, h, End(0));
    assert s.flushes == map[] && Debt(FileWr, 2) in s.debts;
  }

  /**
   * No uncovered dirty bit is ever lost, in any run, exactly if the layout is not inline, or writes
   * keep apart from copies and data bits are marked only while inline data is there and flagged.
   * Overlapping flushes make no difference.
   */
  lemma DirtyBitsAreKept(cfg: Config)
    ensures (forall s :: Occurs(cfg, s) ==> Safe(cfg, s)) <==> !cfg.inlineLayout || (cfg.quiet && cfg.ordered)
  {
    if Disciplined(cfg) {
      forall s | Occurs(cfg, s)
        ensures Safe(cfg, s)
      {
        OccursInv(cfg, s);
        InvIsSafe(cfg, s);
      }
    } else if !cfg.quiet {
      var s := LateWriteLosesBit(cfg);
    } else {
      var s := EarlyMarkLosesBit(cfg);
    }
  }
}
