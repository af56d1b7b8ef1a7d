/**
 * Granting and recalling capabilities. A recall withdraws bits at once, drops the lock to write
 * back dirty data, and takes effect when it has the lock again.
 */
module CapIssue {
  import opened Basics
  import opened CapBits
  import opened Machines

  datatype Cap = Cap(issuer: nat, issued: Mask, implemented: Mask, valid: bool)

  // ------------------------------------------------------------ what is reported as issued

  /** Bits that the auth capability is losing. */
  function Losing(caps: seq<Cap>, auth: Option<nat>): Mask {
    if auth.Some? && auth.value < |caps| then caps[auth.value].implemented - caps[auth.value].issued else {}
  }

  ghost predicate IssuedBySome(caps: seq<Cap>, snap: Mask, b: Bit) {
    b in snap || exists i :: 0 <= i < |caps| && caps[i].valid && b in caps[i].issued
  }

  /**
   * powerfs_caps_issued: what some valid capability grants, without the bits that the auth
   * capability is losing. The second result is what valid capabilities still implement.
   */
  method CapsIssued(caps: seq<Cap>, auth: Option<nat>, snap: Mask) returns (have: Mask, implemented: Mask)
    requires auth.Some? ==> auth.value < |caps|
    ensures forall b :: b in have <==> IssuedBySome(caps, snap, b) && b !in Losing(caps, auth)
    ensures forall b :: b in implemented <==> exists i :: 0 <= i < |caps| && caps[i].valid && b in caps[i].implemented
  {
    have, implemented := snap, {};
    for k := 0 to |caps|
      invariant forall b :: b in have <==> b in snap || exists i :: 0 <= i < k && caps[i].valid && b in caps[i].issued
      invariant forall b :: b in implemented <==> exists i :: 0 <= i < k && caps[i].valid && b in caps[i].implemented
    {
      if caps[k].valid {
        have := have + caps[k].issued;
        implemented := implemented + caps[k].implemented;
      }
    }
    if auth.Some? {
      have := have - (caps[auth.value].implemented - caps[auth.value].issued);
    }
  }

  // ------------------------------------------------------------ the machine

  /**
   * `single`: capabilities are only ever requested for issuer 0, as the client does. `serial`: a
   * capability is not recalled while an earlier recall of it is under way, which nothing enforces.
   */
  datatype Config = Config(single: bool, serial: bool)

  /** A recall between its first and its last step, with the bits it took and nobody gave back. */
  datatype Recall = Recall(cap: nat, withdrawn: Mask)

  /** limits[c]: what the last recall of capability c retained, and all that was granted since. */
  datatype State = State(caps: seq<Cap>, auth: Option<nat>, snap: Mask, recalls: map<nat, Recall>, limits: seq<Mask>)

  datatype Action =
    | Add(issuer: nat)                   // the issuer's capability, created without bits if new
    | Issue(c: nat, bits: Mask)          // powerfs_cap_issue
    | Expire(c: nat)                     // lease or session runs out
    | Begin(t: nat, c: nat, retain: Mask) // a recall withdraws what is not retained
    | Finish(t: nat)                     // and takes effect

  function Init(): State {
    State([], None, {}, map[], [])
  }

  predicate Enabled(cfg: Config, s: State, act: Action) {
    |s.limits| == |s.caps| &&
    match act
    case Add(issuer) => cfg.single ==> issuer == 0
    case Issue(c, _) => c < |s.caps|
    case Expire(c) => c < |s.caps|
    case Begin(t, c, _) =>
      c < |s.caps| && t !in s.recalls && (cfg.serial ==> forall u :: u in s.recalls ==> s.recalls[u].cap != c)
    case Finish(t) => t in s.recalls && s.recalls[t].cap < |s.caps|
  }

  predicate HasIssuer(caps: seq<Cap>, issuer: nat) {
    exists i :: 0 <= i < |caps| && caps[i].issuer == issuer
  }

  function Regranted(recalls: map<nat, Recall>, c: nat, bits: Mask): map<nat, Recall> {
    map t | t in recalls ::
      if recalls[t].cap == c then recalls[t].(withdrawn := recalls[t].withdrawn - bits) else recalls[t]
  }

  function Do(cfg: Config, s: State, act: Action): State
    requires Enabled(cfg, s, act)
  {
    match act
    case Add(issuer) =>
      if HasIssuer(s.caps, issuer) then s
      else s.(caps := s.caps + [Cap(issuer, {}, {}, true)], limits := s.limits + [{}],
              auth := if s.auth == None then Some(|s.caps|) else s.auth)
    case Issue(c, bits) =>
      var cap := s.caps[c];
      s.(caps := s.caps[c := Cap(cap.issuer, cap.issued + bits, cap.implemented + bits, true)],
         auth := if s.auth == None then Some(c) else s.auth,
         recalls := Regranted(s.recalls, c, bits), limits := s.limits[c := s.limits[c] + bits])
    case Expire(c) => s.(caps := s.caps[c := s.caps[c].(valid := false)])
    case Begin(t, c, retain) =>
      var cap := s.caps[c];
      var revoking := cap.issued - retain;
      if revoking == {} then s.(limits := s.limits[c := retain])
      else s.(caps := s.caps[c := cap.(issued := cap.issued - revoking)],
              recalls := s.recalls[t := Recall(c, revoking)], limits := s.limits[c := retain])
    case Finish(t) =>
      var c := s.recalls[t].cap;
      s.(caps := s.caps[c := s.caps[c].(implemented := s.caps[c].issued)], recalls := s.recalls - {t})
  }

  /** Issued is part of implemented, and they differ only while a recall is under way. */
  ghost predicate CapOk(s: State, c: nat)
    requires c < |s.caps|
  {
    && s.caps[c].issued <= s.caps[c].implemented
    && (s.caps[c].issued != s.caps[c].implemented ==> exists t :: t in s.recalls && s.recalls[t].cap == c)
  }

  ghost predicate Inv(cfg: Config, s: State) {
    && |s.limits| == |s.caps| && (s.auth.Some? ==> s.auth.value < |s.caps|)
    && (forall t :: t in s.recalls ==> s.recalls[t].cap < |s.caps|)
    && (forall c :: 0 <= c < |s.caps| ==> CapOk(s, c) && s.caps[c].issued <= s.limits[c])
    && (forall t :: t in s.recalls ==> s.recalls[t].withdrawn !! s.caps[s.recalls[t].cap].issued)
    && (cfg.serial ==> SerialInv(s))
    && s.snap == {} && (cfg.single ==> |s.caps| <= 1 && forall c :: 0 <= c < |s.caps| ==> s.caps[c].issuer == 0)
  }

  /** Without overlap, what a recall withdrew is exactly what its capability is losing. */
  ghost predicate SerialInv(s: State) {
    && (forall t, u :: t in s.recalls && u in s.recalls && s.recalls[t].cap == s.recalls[u].cap ==> t == u)
    && (forall t :: t in s.recalls && s.recalls[t].cap < |s.caps| ==>
      s.recalls[t].withdrawn <= s.caps[s.recalls[t].cap].implemented)
  }

  lemma AddKept(cfg: Config, s: State, issuer: nat)
    requires Inv(cfg, s) && Enabled(cfg, s, Add(issuer))
    ensures Inv(cfg, Do(cfg, s, Add(issuer)))
  {
    var s' := Do(cfg, s, Add(issuer));
    if cfg.single && s.caps != [] {
      assert s.caps[0].issuer == issuer;
    }
    forall c | 0 <= c < |s'.caps|
      ensures CapOk(s', c)
    {
      if c < |s.caps| { assert CapOk(s, c); }
    }
  }

  lemma IssueKept(cfg: Config, s: State, k: nat, bits: Mask)
    requires Inv(cfg, s) && Enabled(cfg, s, Issue(k, bits))
    ensures Inv(cfg, Do(cfg, s, Issue(k, bits)))
  {
    var s' := Do(cfg, s, Issue(k, bits));
    forall c | 0 <= c < |s'.caps|
      ensures CapOk(s', c)
    {
      assert CapOk(s, c);
      if s'.caps[c].issued != s'.caps[c].implemented {
        var t :| t in s.recalls && s.recalls[t].cap == c;
        assert t in s'.recalls && s'.recalls[t].cap == c;
      }
    }
  }

  lemma ExpireKept(cfg: Config, s: State, k: nat)
    requires Inv(cfg, s) && Enabled(cfg, s, Expire(k))
    ensures Inv(cfg, Do(cfg, s, Expire(k)))
  {
    var s' := Do(cfg, s, Expire(k));
    forall c | 0 <= c < |s'.caps|
      ensures CapOk(s', c)
    {
      assert CapOk(s, c);
    }
  }

  /** A recall leaves exactly the retained bits issued. */
  lemma RecallRetains(cfg: Config, s: State, t: nat, c: nat, retain: Mask)
    requires Enabled(cfg, s, Begin(t, c, retain))
    ensures Do(cfg, s, Begin(t, c, retain)).caps[c].issued == s.caps[c].issued * retain
  {
    var issued := s.caps[c].issued;
    assert issued - (issued - retain) == issued * retain;
    if issued - retain == {} {
      forall b | b in issued ensures b in retain {
        assert b in retain || b in issued - retain;
      }
      assert issued == issued * retain;
    }
  }

  lemma BeginSerial(cfg: Config, s: State, t: nat, k: nat, retain: Mask)
    requires Inv(cfg, s) && cfg.serial && Enabled(cfg, s, Begin(t, k, retain))
    ensures SerialInv(Do(cfg, s, Begin(t, k, retain)))
  {
    assert CapOk(s, k);
  }

  lemma BeginKept(cfg: Config, s: State, t: nat, k: nat, retain: Mask)
    requires Inv(cfg, s) && Enabled(cfg, s, Begin(t, k, retain))
    ensures Inv(cfg, Do(cfg, s, Begin(t, k, retain)))
  {
    var s' := Do(cfg, s, Begin(t, k, retain));
    RecallRetains(cfg, s, t, k, retain);
    if cfg.serial { BeginSerial(cfg, s, t, k, retain); }
    forall c | 0 <= c < |s'.caps|
      ensures CapOk(s', c)
    {
      assert CapOk(s, c);
      if c == k && s'.recalls != s.recalls {
        assert t in s'.recalls && s'.recalls[t].cap == c;
      } else if s'.caps[c].issued != s'.caps[c].implemented {
        var u :| u in s.recalls && s.recalls[u].cap == c;
        assert u in s'.recalls && s'.recalls[u].cap == c;
      }
    }
  }

  lemma FinishKept(cfg: Config, s: State, t: nat)
    requires Inv(cfg, s) && Enabled(cfg, s, Finish(t))
    ensures Inv(cfg, Do(cfg, s, Finish(t)))
  {
    var s' := Do(cfg, s, Finish(t));
    forall c | 0 <= c < |s'.caps|
      ensures CapOk(s', c)
    {
      assert CapOk(s, c);
      if s'.caps[c].issued != s'.caps[c].implemented {
        var u :| u in s.recalls && s.recalls[u].cap == c;
        assert u in s'.recalls && s'.recalls[u].cap == c;
      }
    }
  }

  lemma StepKept(cfg: Config, s: State, act: Action)
    requires Inv(cfg, s) && Enabled(cfg, s, act)
    ensures Inv(cfg, Do(cfg, s, act))
  {
    match act
    case Add(issuer) => AddKept(cfg, s, issuer);
    case Issue(c, bits) => IssueKept(cfg, s, c, bits);
    case Expire(c) => ExpireKept(cfg, s, c);
    case Begin(t, c, retain) => BeginKept(cfg, s, t, c, retain);
    case Finish(t) => FinishKept(cfg, s, t);
  }

  function Next(cfg: Config): (State, Action) -> Option<State> {
    (s, act) => if Enabled(cfg, s, act) then Some(Do(cfg, s, act)) else None
  }

  /** The states that runs reach. */
  ghost predicate Occurs(cfg: Config, s: State) {
    Reachable(Next(cfg), Init(), s)
  }

  lemma OccursInv(cfg: Config, s: State)
    requires Occurs(cfg, s)
    ensures Inv(cfg, s)
  {
    var acts :| Runs(Next(cfg), Init(), acts, s);
    forall u, act | Inv(cfg, u) && Next(cfg)(u, act).Some?
      ensures Inv(cfg, Next(cfg)(u, act).value)
    {
      StepKept(cfg, u, act);
    }
    InvariantHolds(Next(cfg), u => Inv(cfg, u), Init(), acts, s);
  }

  // ------------------------------------------------------------ what holds in every run

  /**
   * At every lock release issued is part of implemented; the two differ only while a recall is
   * under way; nothing is issued beyond what the last recall retained and later grants added.
   */
  lemma EveryRun(cfg: Config, s: State, c: nat)
    requires Occurs(cfg, s) && c < |s.caps|
    ensures s.caps[c].issued <= s.caps[c].implemented
    ensures s.caps[c].issued != s.caps[c].implemented ==> exists t :: t in s.recalls && s.recalls[t].cap == c
    ensures |s.limits| == |s.caps| && s.caps[c].issued <= s.limits[c]
  {
    OccursInv(cfg, s);
    assert CapOk(s, c);
  }

  /** After a recall no bit outside the retained set is issued, until it is granted again. */
  lemma {:induction false} RecalledStaysRecalled(cfg: Config, s: State, acts: seq<Action>, s': State, c: nat, b: Bit)
    requires Runs(Next(cfg), s, acts, s') && c < |s.caps| && b !in s.caps[c].issued
    requires forall i :: 0 <= i < |acts| && acts[i].Issue? && acts[i].c == c ==> b !in acts[i].bits
    ensures c < |s'.caps| && b !in s'.caps[c].issued
    decreases |acts|
  {
    if acts != [] {
      RecalledStaysRecalled(cfg, Do(cfg, s, acts[0]), acts[1..], s', c, b);
    }
  }

  // ------------------------------------------------------------ bits under recall are not reported

  ghost predicate Reported(s: State, b: Bit) {
    IssuedBySome(s.caps, s.snap, b) && b !in Losing(s.caps, s.auth)
  }

  /** No bit that a recall is taking from the auth capability is reported as issued. */
  ghost predicate Hidden(s: State) {
    forall t, b :: t in s.recalls && s.auth == Some(s.recalls[t].cap) && b in s.recalls[t].withdrawn ==> !Reported(s, b)
  }

  /**
   * With the one capability that the client ever has, a bit under recall is never reported, however
   * many recalls and grants overlap.
   */
  lemma RecalledBitsAreHidden(cfg: Config, s: State)
    requires cfg.single && Occurs(cfg, s)
    ensures Hidden(s)
  {
    OccursInv(cfg, s);
  }

  // ------------------------------------------------------------ several issuers

  /** Two capabilities that both grant writing and caching. */
  lemma TwoCaps(cfg: Config) returns (s: State)
    requires !cfg.single
    ensures Occurs(cfg, s) && |s.caps| == |s.limits| == 2 && s.recalls == map[] && s.auth == Some(0)
    ensures s.caps[0].issued == {FileWr, FileCache} && s.caps[1].issued == {FileWr, FileCache} && s.caps[1].valid
  {
    var bits := {FileWr, FileCache};
    ReachInit(Next(cfg), Init());
    Reach(Next(cfg), Init(), Init(), Add(0));
    var a := Do(cfg, Init(), Add(0));
    Reach(Next(cfg), Init(), a, Add(1));
    var b := Do(cfg, a, Add(1));
    Reach(Next(cfg), Init(), b, Issue(0, bits));
    var c := Do(cfg, b, Issue(0, bits));
    Reach(Next(cfg), Init(), c, Issue(1, bits));
    s := Do(cfg, c, Issue(1, bits));
    assert {} + bits == bits;
    assert s.recalls == map[];
  }

  /** Then the first of two overlapping recalls to finish makes the other's bits look granted again. */
  lemma OverlapReports(cfg: Config) returns (s: State)
    requires !cfg.single && !cfg.serial
    ensures Occurs(cfg, s) && !Hidden(s)
  {
    var a := TwoCaps(cfg);
    Reach(Next(cfg), Init(), a, Begin(0, 0, {FileCache}));
    var b := Do(cfg, a, Begin(0, 0, {FileCache}));
    assert a.caps[0].issued - {FileCache} == {FileWr};
    assert b.caps[0].issued == {FileCache};
    Reach(Next(cfg), Init(), b, Begin(1, 0, {}));
    var c := Do(cfg, b, Begin(1, 0, {}));
    assert b.caps[0].issued - {} == {FileCache};
    Reach(Next(cfg), Init(), c, Finish(0));
    s := Do(cfg, c, Finish(0));
    assert s.recalls[1] == Recall(0, {FileCache});
    assert FileCache in s.caps[1].issued && s.caps[1].valid;
    assert Reported(s, FileCache);
  }

  /**
   * If capabilities of several issuers were requested: bits under recall are never reported, in any
   * run, exactly if there is one issuer or recalls of a capability do not overlap.
   */
  lemma HiddenCondition(cfg: Config)
    ensures (forall s :: Occurs(cfg, s) ==> Hidden(s)) <==> cfg.single || cfg.serial
  {
    if cfg.single || cfg.serial {
      forall s | Occurs(cfg, s)
        ensures Hidden(s)
      {
        OccursInv(cfg, s);
      }
    } else {
      var s := OverlapReports(cfg);
    }
  }
}
