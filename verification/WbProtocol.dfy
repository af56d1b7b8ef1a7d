/**
 * The completion protocol of one writeback batch: the worker and the completion callbacks share a
 * counter, and whoever brings it to zero cleans the batch up.
 */
module WbProtocol {

  /** A stretch of pages [lo, hi) that goes out as one request; first and last in its needle group. */
  datatype Extent = Extent(lo: nat, hi: nat, first: bool, last: bool, direct: bool)

  /** empty[p] says that page p has no bytes to write, or no place to write them to. */
  datatype Batch = Batch(empty: seq<bool>, plan: seq<Extent>) {
    /** Requests are apart from each other. */
    ghost predicate Disjoint() {
      forall k, l :: 0 <= k < l < |plan| ==> plan[k].hi <= plan[l].lo
    }

    /** Every page with bytes belongs to a request. */
    ghost predicate Covered() {
      forall p :: 0 <= p < |empty| && !empty[p] ==> exists k :: 0 <= k < |plan| && plan[k].lo <= p < plan[k].hi
    }

    /** The groups follow each other; a whole-needle write is a group of its own. */
    ghost predicate Marked() {
      && (plan != [] ==> plan[0].first && plan[|plan| - 1].last)
      && (forall k :: 0 <= k < |plan| - 1 ==> (plan[k].last <==> plan[k + 1].first))
      && (forall k :: 0 <= k < |plan| && plan[k].direct ==> plan[k].first && plan[k].last)
    }

    ghost predicate Valid() {
      (forall k :: 0 <= k < |plan| ==> plan[k].lo < plan[k].hi <= |empty|) && Disjoint() && Covered() && Marked()
    }
  }

  /** A request: not sent, answered up to page `at`, or done. */
  datatype Status = Idle | Sent(at: nat) | Done

  /** Where the worker is; `bumped` says that the counter was raised for request k. */
  datatype Pc = Scanning(i: nat) | Sending(k: nat, bumped: bool) | Closing(next: nat) | Finished

  /** `sent` counts the requests of the current group; `ended` how often each page left writeback. */
  datatype State = State(pc: Pc, sent: nat, status: seq<Status>, pending: int, ended: seq<nat>, cleaned: nat)

  datatype Action = ScanPage | Arm | Bump | Send | Refuse | Close | Release | EndPage(e: nat) | Finish(request: nat)

  function Groups(plan: seq<Extent>, k: nat): nat
    requires k <= |plan|
    decreases |plan| - k
  {
    if k == |plan| then 0 else (if plan[k].first then 1 else 0) + Groups(plan, k + 1)
  }

  function Init(b: Batch): State {
    State(Scanning(0), 0, seq(|b.plan|, _ => Idle), 0, seq(|b.empty|, _ => 0), 0)
  }

  /** Sizes match and indices are in range. */
  ghost predicate Shaped(b: Batch, s: State) {
    && |s.status| == |b.plan| && |s.ended| == |b.empty|
    && (forall k :: 0 <= k < |b.plan| ==> b.plan[k].lo < b.plan[k].hi <= |b.empty|)
    && match s.pc
       case Scanning(i) => i <= |b.empty|
       case Sending(k, _) => k <= |b.plan|
       case Closing(k) => 0 < k <= |b.plan|
       case Finished => true
  }

  ghost predicate Enabled(b: Batch, s: State, act: Action)
    requires Shaped(b, s)
  {
    match act
    case ScanPage => s.pc.Scanning? && s.pc.i < |b.empty|
    case Arm => s.pc == Scanning(|b.empty|)
    case Bump => s.pc.Sending? && s.pc.k < |b.plan| && s.sent > 0 && !s.pc.bumped
    case Send => s.pc.Sending? && s.pc.k < |b.plan| && (s.sent == 0 || s.pc.bumped)
    case Refuse => s.pc.Sending? && s.pc.k < |b.plan| && (s.sent == 0 || s.pc.bumped)
    case Close => s.pc.Closing?
    case Release => s.pc.Sending? && s.pc.k == |b.plan|
    case EndPage(e) => e < |b.plan| && s.status[e].Sent? && b.plan[e].lo <= s.status[e].at < b.plan[e].hi
    case Finish(e) => e < |b.plan| && s.status[e] == Sent(b.plan[e].hi)
  }

  /** atomic_dec_and_test, and the final cleanup if the counter reaches zero. */
  function Drop(s: State): State {
    s.(pending := s.pending - 1, cleaned := if s.pending == 1 then s.cleaned + 1 else s.cleaned)
  }

  /** End writeback of page p unless it is empty. */
  function EndOne(b: Batch, ended: seq<nat>, p: nat): seq<nat>
    requires |ended| == |b.empty| && p < |ended|
  {
    if b.empty[p] then ended else ended[p := ended[p] + 1]
  }

  /** End writeback of all the pages of a request. */
  function EndAll(b: Batch, ended: seq<nat>, x: Extent): (r: seq<nat>)
    requires |ended| == |b.empty|
    ensures |r| == |ended|
  {
    seq(|ended|, p requires 0 <= p < |ended| => if x.lo <= p < x.hi && !b.empty[p] then ended[p] + 1 else ended[p])
  }

  function AfterRequest(x: Extent, k: nat): Pc {
    if x.last && !x.direct then Closing(k + 1) else Sending(k + 1, false)
  }

  ghost function Do(b: Batch, s: State, act: Action): State
    requires Shaped(b, s) && Enabled(b, s, act)
  {
    match act
    case ScanPage =>
      var i := s.pc.i;
      s.(pc := Scanning(i + 1), ended := if b.empty[i] then s.ended[i := s.ended[i] + 1] else s.ended)
    case Arm =>
      if Groups(b.plan, 0) == 0 then s.(pc := Finished, cleaned := s.cleaned + 1)
      else s.(pc := Sending(0, false), pending := Groups(b.plan, 0) + 1)
    case Bump => s.(pc := Sending(s.pc.k, true), pending := s.pending + 1)
    case Send =>
      var x := b.plan[s.pc.k];
      s.(pc := AfterRequest(x, s.pc.k), sent := if x.direct then 0 else s.sent + 1,
         status := s.status[s.pc.k := Sent(x.lo)])
    case Refuse =>
      var x := b.plan[s.pc.k];
      Drop(s.(pc := AfterRequest(x, s.pc.k), status := s.status[s.pc.k := Done],
              ended := EndAll(b, s.ended, x)))
    case Close =>
      var t := if s.sent == 0 then Drop(s) else s;
      t.(pc := Sending(s.pc.next, false), sent := 0)
    case Release => Drop(s.(pc := Finished))
    case EndPage(e) =>
      var p := s.status[e].at;
      s.(status := s.status[e := Sent(p + 1)], ended := EndOne(b, s.ended, p))
    case Finish(e) => Drop(s.(status := s.status[e := Done]))
  }

  // ------------------------------------------------------------ the invariant

  /** Requests that were sent and have not dropped their count. */
  function Outstanding(status: seq<Status>): nat {
    if status == [] then 0
    else Outstanding(status[..|status| - 1]) + (if status[|status| - 1].Sent? then 1 else 0)
  }

  lemma {:induction false} OutstandingUpdate(status: seq<Status>, e: nat, x: Status)
    requires e < |status|
    ensures Outstanding(status[e := x]) ==
      Outstanding(status) - (if status[e].Sent? then 1 else 0) + (if x.Sent? then 1 else 0)
  {
    var n := |status| - 1;
    if e < n {
      OutstandingUpdate(status[..n], e, x);
      assert status[e := x][..n] == status[..n][e := x];
    } else {
      assert status[e := x][..n] == status[..n];
    }
  }

  lemma {:induction false} OutstandingNone(status: seq<Status>)
    requires forall e :: 0 <= e < |status| ==> !status[e].Sent?
    ensures Outstanding(status) == 0
  {
    if status != [] { OutstandingNone(status[..|status| - 1]); }
  }

  lemma {:induction false} OutstandingSome(status: seq<Status>, e: nat)
    requires e < |status| && status[e].Sent?
    ensures Outstanding(status) > 0
  {
    if e < |status| - 1 { OutstandingSome(status[..|status| - 1], e); }
  }

  /** What the worker still holds of the counter. */
  ghost function WorkerShare(b: Batch, pc: Pc): nat
    requires pc.Sending? ==> pc.k <= |b.plan|
    requires pc.Closing? ==> pc.next <= |b.plan|
  {
    match pc
    case Scanning(_) => 0
    case Sending(k, bumped) => 1 + Groups(b.plan, k) + (if bumped then 1 else 0)
    case Closing(k) => 1 + Groups(b.plan, k)
    case Finished => 0
  }

  /** The position of the worker in its list of requests. */
  function Position(b: Batch, pc: Pc): nat {
    match pc
    case Scanning(_) => 0
    case Sending(k, _) => k
    case Closing(k) => k
    case Finished => |b.plan|
  }

  /**
   * One while a group is open none of whose requests was accepted: its first refusal has used up the
   * count of the group, and the worker takes it to be there still.
   */
  ghost function Skew(b: Batch, s: State): nat
    requires Shaped(b, s)
  {
    match s.pc
    case Sending(k, _) => if k < |b.plan| && !b.plan[k].first && s.sent == 0 then 1 else 0
    case Closing(_) => if s.sent == 0 then 1 else 0
    case _ => 0
  }

  /** The counter after `short` unbalanced refusals. */
  ghost predicate Counted(b: Batch, s: State, short: nat)
    requires Shaped(b, s)
  {
    && s.pending == WorkerShare(b, s.pc) + Outstanding(s.status) - short + Skew(b, s)
    && (s.pc.Scanning? ==> s.sent == 0 && short == 0)
    && (s.pc.Sending? && s.pc.k < |b.plan| && b.plan[s.pc.k].first ==> s.sent == 0)
    && (s.pc.Sending? && s.pc.bumped ==> s.pc.k < |b.plan| && s.sent > 0)
    && (s.pc.Closing? && s.pc.next < |b.plan| ==> b.plan[s.pc.next].first)
  }

  /** Requests before the worker's position were sent, the others were not. */
  ghost predicate Ordered(b: Batch, s: State)
    requires Shaped(b, s)
  {
    forall e :: 0 <= e < |b.plan| ==>
      && (s.status[e].Idle? <==> e >= Position(b, s.pc))
      && (s.status[e].Sent? ==> b.plan[e].lo <= s.status[e].at <= b.plan[e].hi)
  }

  ghost predicate Passed(st: Status, p: nat) {
    st.Done? || (st.Sent? && p < st.at)
  }

  /** Every page has left writeback at most once, and exactly when its turn came. */
  ghost predicate PagesOk(b: Batch, s: State)
    requires Shaped(b, s)
  {
    && (forall p :: 0 <= p < |b.empty| && b.empty[p] ==>
      s.ended[p] == if s.pc.Scanning? && p >= s.pc.i then 0 else 1)
    && (forall p, e :: 0 <= p < |b.empty| && !b.empty[p] && 0 <= e < |b.plan| && b.plan[e].lo <= p < b.plan[e].hi ==>
      s.ended[p] == if Passed(s.status[e], p) then 1 else 0)
  }

  ghost predicate Inv(b: Batch, s: State) {
    b.Valid() && Shaped(b, s) && Ordered(b, s) && PagesOk(b, s)
  }

  lemma InitInv(b: Batch)
    requires b.Valid()
    ensures Inv(b, Init(b)) && Counted(b, Init(b), 0)
  {
    OutstandingNone(Init(b).status);
  }

  lemma {:induction false} NoGroups(plan: seq<Extent>)
    requires plan != [] ==> plan[0].first
    ensures Groups(plan, 0) == 0 <==> plan == []
  {
  }

  // ------------------------------------------------------------ steps that remain

  /** Steps that a request still takes. */
  function RequestSteps(x: Extent, st: Status): int {
    match st
    case Idle => x.hi - x.lo + 1
    case Sent(at) => x.hi - at + 1
    case Done => 0
  }

  function RequestsLeft(plan: seq<Extent>, status: seq<Status>): int
    requires |plan| == |status|
  {
    if plan == [] then 0
    else RequestsLeft(plan[..|plan| - 1], status[..|plan| - 1]) + RequestSteps(plan[|plan| - 1], status[|plan| - 1])
  }

  function WorkerSteps(b: Batch, pc: Pc): int {
    match pc
    case Scanning(i) => |b.empty| - i + 3 * |b.plan| + 4
    case Sending(k, bumped) => 3 * (|b.plan| - k) + if bumped then 2 else 3
    case Closing(k) => 3 * (|b.plan| - k) + 4
    case Finished => 0
  }

  ghost function StepsLeft(b: Batch, s: State): int
    requires Shaped(b, s)
  {
    WorkerSteps(b, s.pc) + RequestsLeft(b.plan, s.status)
  }

  lemma {:induction false} RequestsLeftUpdate(plan: seq<Extent>, status: seq<Status>, e: nat, x: Status)
    requires |plan| == |status| && e < |plan|
    ensures RequestsLeft(plan, status[e := x]) ==
      RequestsLeft(plan, status) - RequestSteps(plan[e], status[e]) + RequestSteps(plan[e], x)
  {
    var n := |plan| - 1;
    if e < n {
      RequestsLeftUpdate(plan[..n], status[..n], e, x);
      assert status[e := x][..n] == status[..n][e := x];
    } else {
      assert status[e := x][..n] == status[..n];
    }
  }

  lemma {:induction false} RequestsLeftNonnegative(plan: seq<Extent>, status: seq<Status>)
    requires |plan| == |status|
    requires forall e :: 0 <= e < |plan| ==> RequestSteps(plan[e], status[e]) >= 0
    ensures RequestsLeft(plan, status) >= 0
  {
    if plan != [] { RequestsLeftNonnegative(plan[..|plan| - 1], status[..|plan| - 1]); }
  }

  // ------------------------------------------------------------ every step

  ghost predicate Shrinks(b: Batch, s: State, t: State)
    requires Shaped(b, s)
  {
    Shaped(b, t) && StepsLeft(b, t) < StepsLeft(b, s)
  }

  /** Every step, refusals included, brings the batch closer to its end. */
  lemma StepShrinks(b: Batch, s: State, act: Action)
    requires Shaped(b, s) && Ordered(b, s) && Enabled(b, s, act)
    ensures Shrinks(b, s, Do(b, s, act))
  {
    match act
    case Send => RequestShrinks(b, s, Sent(b.plan[s.pc.k].lo));
    case Refuse => RequestShrinks(b, s, Done);
    case EndPage(e) => RequestsLeftUpdate(b.plan, s.status, e, Sent(s.status[e].at + 1));
    case Finish(e) => RequestsLeftUpdate(b.plan, s.status, e, Done);
    case _ =>
  }

  lemma RequestShrinks(b: Batch, s: State, x: Status)
    requires Shaped(b, s) && Ordered(b, s) && s.pc.Sending? && s.pc.k < |b.plan|
    requires x == Done || x == Sent(b.plan[s.pc.k].lo)
    ensures RequestsLeft(b.plan, s.status[s.pc.k := x]) <= RequestsLeft(b.plan, s.status)
  {
    assert s.status[s.pc.k].Idle?;
    RequestsLeftUpdate(b.plan, s.status, s.pc.k, x);
  }

  lemma StepOrdered(b: Batch, s: State, act: Action)
    requires b.Marked() && Shaped(b, s) && Ordered(b, s) && Enabled(b, s, act)
    requires Shaped(b, Do(b, s, act))
    ensures Ordered(b, Do(b, s, act))
  {
    if act == Arm { NoGroups(b.plan); }
  }

  /** The page that leaves writeback belongs to no other request. */
  lemma EndPagePages(b: Batch, s: State, e: nat)
    requires b.Disjoint() && Shaped(b, s) && PagesOk(b, s) && Enabled(b, s, EndPage(e))
    requires Shaped(b, Do(b, s, EndPage(e)))
    ensures PagesOk(b, Do(b, s, EndPage(e)))
  {
    var q, t := s.status[e].at, Do(b, s, EndPage(e));
    forall p, k | 0 <= p < |b.empty| && !b.empty[p] && 0 <= k < |b.plan| && b.plan[k].lo <= p < b.plan[k].hi
      ensures t.ended[p] == if Passed(t.status[k], p) then 1 else 0
    {
      assert k == e || p != q;
      assert s.ended[p] == if Passed(s.status[k], p) then 1 else 0;
    }
  }

  lemma RefusePages(b: Batch, s: State)
    requires b.Disjoint() && Shaped(b, s) && Ordered(b, s) && PagesOk(b, s) && Enabled(b, s, Refuse)
    requires Shaped(b, Do(b, s, Refuse))
    ensures PagesOk(b, Do(b, s, Refuse))
  {
    var e, t := s.pc.k, Do(b, s, Refuse);
    assert s.status[e].Idle?;
    forall p, k | 0 <= p < |b.empty| && !b.empty[p] && 0 <= k < |b.plan| && b.plan[k].lo <= p < b.plan[k].hi
      ensures t.ended[p] == if Passed(t.status[k], p) then 1 else 0
    {
      assert k == e || !(b.plan[e].lo <= p < b.plan[e].hi);
      assert s.ended[p] == if Passed(s.status[k], p) then 1 else 0;
    }
  }

  lemma StepPages(b: Batch, s: State, act: Action)
    requires b.Disjoint() && Shaped(b, s) && Ordered(b, s) && PagesOk(b, s) && Enabled(b, s, act)
    requires Shaped(b, Do(b, s, act))
    ensures PagesOk(b, Do(b, s, act))
  {
    match act
    case EndPage(e) => EndPagePages(b, s, e);
    case Refuse => RefusePages(b, s);
    case _ =>
  }

  lemma StepProgress(b: Batch, s: State, act: Action)
    requires Inv(b, s) && Enabled(b, s, act)
    ensures Inv(b, Do(b, s, act)) && StepsLeft(b, Do(b, s, act)) < StepsLeft(b, s)
  {
    StepShrinks(b, s, act);
    StepOrdered(b, s, act);
    StepPages(b, s, act);
  }

  // ------------------------------------------------------------ the counter, step by step

  /**
   * A refusal is accounted for if it hits a whole-needle write, or an extent for which the counter
   * was raised first.
   */
  ghost predicate Balanced(b: Batch, s: State, act: Action)
    requires Shaped(b, s) && Enabled(b, s, act)
  {
    act == Refuse ==> b.plan[s.pc.k].direct || s.pc.bumped
  }

  ghost function Shortfall(b: Batch, s: State, act: Action): nat
    requires Shaped(b, s) && Enabled(b, s, act)
  {
    if Balanced(b, s, act) then 0 else 1
  }

  ghost predicate CountsOn(b: Batch, s: State, act: Action, short: nat)
    requires Shaped(b, s) && Enabled(b, s, act)
  {
    Shaped(b, Do(b, s, act)) && Counted(b, Do(b, s, act), short + Shortfall(b, s, act))
  }

  lemma WorkerCounts(b: Batch, s: State, act: Action, short: nat)
    requires b.Marked() && Shaped(b, s) && Counted(b, s, short) && Enabled(b, s, act)
    requires act == ScanPage || act == Bump || act == Close || act == Release
    ensures CountsOn(b, s, act, short)
  {
  }

  lemma ArmCounts(b: Batch, s: State, short: nat)
    requires b.Marked() && Shaped(b, s) && Counted(b, s, short) && Ordered(b, s) && Enabled(b, s, Arm)
    ensures CountsOn(b, s, Arm, short)
  {
    NoGroups(b.plan);
    OutstandingNone(s.status);
  }

  lemma SendCounts(b: Batch, s: State, short: nat)
    requires b.Marked() && Shaped(b, s) && Counted(b, s, short) && Ordered(b, s) && Enabled(b, s, Send)
    ensures CountsOn(b, s, Send, short)
  {
    assert s.status[s.pc.k].Idle?;
    OutstandingUpdate(s.status, s.pc.k, Sent(b.plan[s.pc.k].lo));
  }

  lemma RefuseCounts(b: Batch, s: State, short: nat)
    requires b.Marked() && Shaped(b, s) && Counted(b, s, short) && Ordered(b, s) && Enabled(b, s, Refuse)
    ensures CountsOn(b, s, Refuse, short)
  {
    assert s.status[s.pc.k].Idle?;
    OutstandingUpdate(s.status, s.pc.k, Done);
  }

  lemma CallbackCounts(b: Batch, s: State, act: Action, short: nat)
    requires Shaped(b, s) && Counted(b, s, short) && Enabled(b, s, act) && (act.EndPage? || act.Finish?)
    ensures CountsOn(b, s, act, short)
  {
    match act
    case EndPage(e) => OutstandingUpdate(s.status, e, Sent(s.status[e].at + 1));
    case Finish(e) => OutstandingUpdate(s.status, e, Done);
  }

  /** Every step keeps the count, short by one more for each unbalanced refusal. */
  lemma StepCounts(b: Batch, s: State, act: Action, short: nat)
    requires b.Marked() && Shaped(b, s) && Counted(b, s, short) && Ordered(b, s) && Enabled(b, s, act)
    ensures CountsOn(b, s, act, short)
  {
    match act
    case Arm => ArmCounts(b, s, short);
    case Send => SendCounts(b, s, short);
    case Refuse => RefuseCounts(b, s, short);
    case EndPage(_) => CallbackCounts(b, s, act, short);
    case Finish(_) => CallbackCounts(b, s, act, short);
    case _ => WorkerCounts(b, s, act, short);
  }

  /** Once the worker has set the counter: a step lowers it by at most one, and cleans up as it reaches zero. */
  lemma StepDrops(b: Batch, s: State, act: Action)
    requires Shaped(b, s) && Enabled(b, s, act) && !s.pc.Scanning?
    ensures Do(b, s, act).pending >= s.pending - 1 && !Do(b, s, act).pc.Scanning?
    ensures Do(b, s, act).cleaned == s.cleaned + (if s.pending == 1 && Do(b, s, act).pending == 0 then 1 else 0)
  {
  }

  // ------------------------------------------------------------ runs

  /** The states of a run that performs the actions one after the other. */
  ghost predicate IsRun(b: Batch, run: seq<State>, acts: seq<Action>) {
    && |run| == |acts| + 1 && run[0] == Init(b)
    && forall i :: 0 <= i < |acts| ==>
      Shaped(b, run[i]) && Enabled(b, run[i], acts[i]) && run[i + 1] == Do(b, run[i], acts[i])
  }

  /** No refusal of the run upsets the counter; in particular, runs without refusals. */
  ghost predicate IsBalanced(b: Batch, run: seq<State>, acts: seq<Action>)
    requires IsRun(b, run, acts)
  {
    forall i :: 0 <= i < |acts| ==> Balanced(b, run[i], acts[i])
  }

  lemma {:induction false} RunInv(b: Batch, run: seq<State>, acts: seq<Action>, i: nat)
    requires b.Valid() && IsRun(b, run, acts) && i < |run|
    ensures Inv(b, run[i]) && Inv(b, Init(b))
    ensures i + StepsLeft(b, run[i]) <= StepsLeft(b, Init(b))
  {
    InitInv(b);
    if i > 0 {
      RunInv(b, run, acts, i - 1);
      StepProgress(b, run[i - 1], acts[i - 1]);
    }
  }

  /** Nothing is left to do: the worker is through and every callback has dropped its count. */
  ghost predicate AllOver(b: Batch, s: State) {
    Shaped(b, s) && s.pc.Finished? && forall e :: 0 <= e < |s.status| ==> s.status[e].Done?
  }

  lemma NothingAfterwards(b: Batch, s: State, act: Action)
    requires AllOver(b, s)
    ensures !Enabled(b, s, act)
  {
  }

  /** As long as the batch is not over, some step is possible. */
  lemma NotStuck(b: Batch, s: State) returns (act: Action)
    requires Inv(b, s) && !AllOver(b, s)
    ensures Enabled(b, s, act) && act != Refuse
  {
    match s.pc
    case Scanning(i) => act := if i < |b.empty| then ScanPage else Arm;
    case Sending(k, bumped) => act := if k == |b.plan| then Release else if s.sent > 0 && !bumped then Bump else Send;
    case Closing(_) => act := Close;
    case Finished =>
      var e :| 0 <= e < |s.status| && !s.status[e].Done?;
      act := if s.status[e].at < b.plan[e].hi then EndPage(e) else Finish(e);
  }

  lemma OverMeansEnded(b: Batch, s: State)
    requires Inv(b, s)
    ensures forall p :: 0 <= p < |b.empty| ==> s.ended[p] <= 1
    ensures AllOver(b, s) ==> forall p :: 0 <= p < |b.empty| ==> s.ended[p] == 1
  {
    forall p | 0 <= p < |b.empty|
      ensures s.ended[p] <= 1 && (AllOver(b, s) ==> s.ended[p] == 1)
    {
      if !b.empty[p] {
        var k :| 0 <= k < |b.plan| && b.plan[k].lo <= p < b.plan[k].hi;
        assert s.ended[p] == if Passed(s.status[k], p) then 1 else 0;
      }
    }
  }

  /**
   * In every run, whatever is refused, at every moment: each page has left writeback at most once; the
   * run is bounded; as long as the worker or a callback is not through, some step is possible; and
   * when all are through, every page has left writeback and nothing more happens.
   */
  lemma EveryRun(b: Batch, run: seq<State>, acts: seq<Action>, i: nat)
    requires b.Valid() && IsRun(b, run, acts) && i < |run|
    ensures Shaped(b, run[i]) && Shaped(b, Init(b)) && |acts| <= StepsLeft(b, Init(b))
    ensures forall p :: 0 <= p < |b.empty| ==> run[i].ended[p] <= 1
    ensures !AllOver(b, run[i]) ==> exists act :: Enabled(b, run[i], act) && act != Refuse
    ensures AllOver(b, run[i]) ==> i == |acts| && forall p :: 0 <= p < |b.empty| ==> run[i].ended[p] == 1
  {
    RunInv(b, run, acts, i);
    RunInv(b, run, acts, |acts|);
    RequestsLeftNonnegative(b.plan, run[|acts|].status);
    OverMeansEnded(b, run[i]);
    if AllOver(b, run[i]) {
      if i < |acts| { NothingAfterwards(b, run[i], acts[i]); }
    } else {
      var act := NotStuck(b, run[i]);
    }
  }

  // ------------------------------------------------------------ when cleanup is right

  /** Unbalanced refusals among the first i actions. */
  ghost function Unbalanced(b: Batch, run: seq<State>, acts: seq<Action>, i: nat): nat
    requires IsRun(b, run, acts) && i <= |acts|
  {
    if i == 0 then 0 else Unbalanced(b, run, acts, i - 1) + Shortfall(b, run[i - 1], acts[i - 1])
  }

  lemma {:induction false} RunCounted(b: Batch, run: seq<State>, acts: seq<Action>, i: nat)
    requires b.Valid() && IsRun(b, run, acts) && i < |run|
    ensures Inv(b, run[i]) && Counted(b, run[i], Unbalanced(b, run, acts, i))
  {
    InitInv(b);
    RunInv(b, run, acts, i);
    if i > 0 {
      RunCounted(b, run, acts, i - 1);
      StepCounts(b, run[i - 1], acts[i - 1], Unbalanced(b, run, acts, i - 1));
    }
  }

  /** At the end the counter is below zero by the number of unbalanced refusals. */
  lemma CountAtEnd(b: Batch, s: State, short: nat)
    requires Inv(b, s) && Counted(b, s, short) && !s.pc.Scanning?
    ensures AllOver(b, s) ==> s.pending == 0 - short
    ensures !AllOver(b, s) && short == 0 ==> s.pending >= 1
  {
    if AllOver(b, s) {
      OutstandingNone(s.status);
    } else if s.pc.Finished? {
      var e :| 0 <= e < |s.status| && !s.status[e].Done?;
      OutstandingSome(s.status, e);
    }
  }

  /** Cleanup has happened exactly when everything is over, and then once. */
  ghost predicate CleanedRight(b: Batch, s: State) {
    s.cleaned == if AllOver(b, s) then 1 else 0
  }

  /** The worker's last step of the first pass. */
  lemma ArmIsRight(b: Batch, s: State)
    requires Inv(b, s) && Enabled(b, s, Arm) && s.cleaned == 0
    ensures Do(b, s, Arm).cleaned == (if AllOver(b, Do(b, s, Arm)) then 1 else 0)
    ensures !AllOver(b, Do(b, s, Arm)) ==> Do(b, s, Arm).pending >= 1
  {
    NoGroups(b.plan);
  }

  /** Without unbalanced refusals cleanup is right at every moment. */
  lemma {:induction false} BalancedIsRight(b: Batch, run: seq<State>, acts: seq<Action>, i: nat)
    requires b.Valid() && IsRun(b, run, acts) && i < |run| && Unbalanced(b, run, acts, i) == 0
    ensures CleanedRight(b, run[i])
  {
    if i > 0 {
      BalancedIsRight(b, run, acts, i - 1);
      RunCounted(b, run, acts, i - 1);
      RunCounted(b, run, acts, i);
      var s, act := run[i - 1], acts[i - 1];
      if AllOver(b, s) { NothingAfterwards(b, s, act); }
      if !s.pc.Scanning? {
        StepDrops(b, s, act);
        CountAtEnd(b, s, 0);
        CountAtEnd(b, run[i], 0);
      } else if act == Arm {
        ArmIsRight(b, s);
      }
    }
  }

  /**
   * If cleanup is right at every moment, the counter is positive from the moment it is set until
   * everything is over, and zero then, so that no refusal can have been unbalanced.
   */
  lemma {:induction false} RightIsBalanced(b: Batch, run: seq<State>, acts: seq<Action>, i: nat)
    requires b.Valid() && IsRun(b, run, acts) && i < |run|
    requires forall j :: 0 <= j <= i ==> CleanedRight(b, run[j])
    ensures !run[i].pc.Scanning? && !AllOver(b, run[i]) ==> run[i].pending >= 1
    ensures AllOver(b, run[i]) ==> Unbalanced(b, run, acts, i) == 0
  {
    if i > 0 {
      RightIsBalanced(b, run, acts, i - 1);
      RunCounted(b, run, acts, i - 1);
      RunCounted(b, run, acts, i);
      var s, act := run[i - 1], acts[i - 1];
      if AllOver(b, s) { NothingAfterwards(b, s, act); }
      if !s.pc.Scanning? {
        StepDrops(b, s, act);
        CountAtEnd(b, run[i], Unbalanced(b, run, acts, i));
      } else if act == Arm {
        ArmIsRight(b, s);
      }
    }
  }

  lemma {:induction false} NoShortfall(b: Batch, run: seq<State>, acts: seq<Action>, n: nat)
    requires IsRun(b, run, acts) && n <= |acts|
    ensures Unbalanced(b, run, acts, n) == 0 <==> forall i :: 0 <= i < n ==> Balanced(b, run[i], acts[i])
  {
    if n > 0 { NoShortfall(b, run, acts, n - 1); }
  }

  /**
   * For every run to its end: cleanup happens once and exactly when the worker and all callbacks are
   * through, if and only if no refused extent was one for which the counter had not been raised.
   */
  lemma CleanupCondition(b: Batch, run: seq<State>, acts: seq<Action>)
    requires b.Valid() && IsRun(b, run, acts) && AllOver(b, run[|acts|])
    ensures (forall i :: 0 <= i < |run| ==> CleanedRight(b, run[i])) <==> IsBalanced(b, run, acts)
  {
    var n := |acts|;
    NoShortfall(b, run, acts, n);
    if IsBalanced(b, run, acts) {
      forall i | 0 <= i < |run|
        ensures CleanedRight(b, run[i])
      {
        NoShortfall(b, run, acts, i);
        BalancedIsRight(b, run, acts, i);
      }
    }
    if forall i :: 0 <= i < |run| ==> CleanedRight(b, run[i]) {
      RightIsBalanced(b, run, acts, n);
    }
  }

  // ------------------------------------------------------------ what a refused extent does

  /** Two pages of one needle with a gap between them: one group of two extents. */
  function TwoExtents(): Batch {
    Batch([false, false], [Extent(0, 1, true, false, false), Extent(1, 2, false, true, false)])
  }

  /** The first pass over the two pages, the counter set to two, and the first extent refused. */
  lemma UpToRefusal() returns (run: seq<State>, acts: seq<Action>)
    ensures IsRun(TwoExtents(), run, acts) && run[|acts|] == State(Sending(1, false), 0, [Done, Idle], 1, [1, 0], 0)
  {
    var b := TwoExtents();
    assert Groups(b.plan, 1) == 0 && Groups(b.plan, 0) == 1;
    assert Init(b) == State(Scanning(0), 0, [Idle, Idle], 0, [0, 0], 0);
    run, acts := [Init(b)], [];
    run, acts := Extended(b, run, acts, ScanPage, State(Scanning(1), 0, [Idle, Idle], 0, [0, 0], 0));
    run, acts := Extended(b, run, acts, ScanPage, State(Scanning(2), 0, [Idle, Idle], 0, [0, 0], 0));
    run, acts := Extended(b, run, acts, Arm, State(Sending(0, false), 0, [Idle, Idle], 2, [0, 0], 0));
    run, acts := Extended(b, run, acts, Refuse, State(Sending(1, false), 0, [Done, Idle], 1, [1, 0], 0));
  }

  /**
   * A refused first extent uses up the count of its group, which the second one does not raise again:
   * the batch is cleaned up although the second extent is still out.
   */
  lemma RefusalCleansEarly() returns (run: seq<State>, acts: seq<Action>)
    ensures TwoExtents().Valid() && IsRun(TwoExtents(), run, acts)
    ensures run[|acts|] == State(Finished, 0, [Done, Sent(1)], 0, [1, 0], 1)
  {
    var b := TwoExtents();
    run, acts := UpToRefusal();
    run, acts := Extended(b, run, acts, Send, State(Closing(2), 1, [Done, Sent(1)], 1, [1, 0], 0));
    run, acts := Extended(b, run, acts, Close, State(Sending(2, false), 0, [Done, Sent(1)], 1, [1, 0], 0));
    run, acts := Extended(b, run, acts, Release, State(Finished, 0, [Done, Sent(1)], 0, [1, 0], 1));
    assert b.plan[0].lo <= 0 < b.plan[0].hi && b.plan[1].lo <= 1 < b.plan[1].hi;
  }

  /** A run goes on with one more action. */
  lemma Extended(b: Batch, run: seq<State>, acts: seq<Action>, act: Action, t: State)
    returns (run': seq<State>, acts': seq<Action>)
    requires IsRun(b, run, acts) && Shaped(b, run[|acts|]) && Enabled(b, run[|acts|], act)
    requires t == Do(b, run[|acts|], act)
    ensures run' == run + [t] && acts' == acts + [act] && IsRun(b, run', acts')
  {
    run', acts' := run + [t], acts + [act];
  }
}
