/** The failover controllers of a redundancy group, which agree through ephemeral znodes below the
    group's Active znode on who drives its server. A controller looks at the children of Active, and
    leaves a one-shot watch on them; it may then create its own lock znode. Looking and creating are
    separate steps, so that those of different controllers may interleave. */
module Failover {

  /** The name of a lock znode: a URL-encoded server URI. */
  type Name = seq<bv8>

  datatype Phase = Down | Deciding | Ready

  /** owns: the controller's session has created its lock znode. pending: watch events not yet handled.
      snapshot: the children of Active when the controller last looked. */
  datatype Controller = Controller(uri: Name, rSupport: int, phase: Phase, monitoring: bool, owns: bool,
                                   armed: bool, pending: nat, snapshot: set<Name>)

  datatype System = System(active: set<Name>, controllers: seq<Controller>)

  /** Touch: the watch that the check for Active's existence leaves on the global watcher fires.
      Expire: a lock znode vanishes after the session that created it has ended. */
  datatype Action = Start(c: nat) | Deliver(c: nat) | Decide(c: nat) | MonitorEnds(c: nat) | Touch(c: nat)
                  | Crash(c: nat) | Expire(uri: Name)

  /** Whether a controller that saw the given children tries to create its lock. Standalone, cold and
      warm controllers do only if there are none, the other kinds if their own is not among them. */
  predicate TriesLock(rSupport: int, uri: Name, children: set<Name>) {
    if 0 <= rSupport <= 2 then children == {}
    else 3 <= rSupport <= 5 && uri !in children
  }

  /** The watch on the children of Active fires, once, if it is armed. */
  function Fired(c: Controller): Controller {
    if c.armed then c.(armed := false, pending := c.pending + 1) else c
  }

  function AllFired(cs: seq<Controller>): seq<Controller> {
    seq(|cs|, i requires 0 <= i < |cs| => Fired(cs[i]))
  }

  /** The children of Active change. */
  function Change(s: System, active: set<Name>): System {
    System(active, AllFired(s.controllers))
  }

  function Set(s: System, i: nat, c: Controller): System
    requires i < |s.controllers|
  {
    s.(controllers := s.controllers[i := c])
  }

  /** The children are read and the watch on them is set, in one request. */
  function Look(s: System, i: nat): System
    requires i < |s.controllers|
  {
    Set(s, i, s.controllers[i].(phase := Deciding, armed := true, snapshot := s.active))
  }

  /** The lock znode is created, unless it exists. */
  function Create(s: System, i: nat): System
    requires i < |s.controllers|
  {
    var uri := s.controllers[i].uri;
    if uri in s.active then s
    else
      var s' := Change(s, s.active + {uri});
      Set(s', i, s'.controllers[i].(owns := true))
  }

  predicate Enabled(s: System, a: Action) {
    if a.Expire? then
      a.uri in s.active && forall i :: 0 <= i < |s.controllers| && s.controllers[i].uri == a.uri ==>
          !s.controllers[i].owns
    else
      a.c < |s.controllers| &&
      match a
      case Start(i) => s.controllers[i].phase == Down
      case Deliver(i) => s.controllers[i].phase == Ready && s.controllers[i].pending > 0
      case Decide(i) => s.controllers[i].phase == Deciding
      case MonitorEnds(i) => s.controllers[i].monitoring
      case Touch(i) => s.controllers[i].phase == Ready
      case Crash(i) => s.controllers[i].phase != Down
      case Expire(_) => false
  }

  /** A standalone controller creates its lock at once, without looking and whatever the outcome. */
  function StartUp(s: System, i: nat): System
    requires i < |s.controllers|
  {
    var s' := Set(s, i, s.controllers[i].(phase := Ready, monitoring := s.controllers[i].rSupport == 0));
    if s.controllers[i].rSupport == 0 then Create(s', i) else Look(s', i)
  }

  function Resolve(s: System, i: nat): System
    requires i < |s.controllers|
  {
    var c := s.controllers[i];
    var s' := Set(s, i, c.(phase := Ready));
    if !TriesLock(c.rSupport, c.uri, c.snapshot) || c.uri in s.active then s'
    else
      var s'' := Create(s', i);
      Set(s'', i, s''.controllers[i].(monitoring := true))
  }

  function Apply(s: System, a: Action): System
    requires Enabled(s, a)
  {
    match a
    case Start(i) => StartUp(s, i)
    case Deliver(i) => Look(Set(s, i, s.controllers[i].(pending := s.controllers[i].pending - 1)), i)
    case Decide(i) => Resolve(s, i)
    case MonitorEnds(i) => Set(s, i, s.controllers[i].(monitoring := false))
    case Touch(i) => Set(s, i, s.controllers[i].(pending := s.controllers[i].pending + 1))
    case Crash(i) => Set(s, i, Stopped(s.controllers[i].uri, s.controllers[i].rSupport))
    case Expire(uri) => Change(s, s.active - {uri})
  }

  function Stopped(uri: Name, rSupport: int): Controller {
    Controller(uri, rSupport, Down, false, false, false, 0, {})
  }

  /** No controller runs. Lock znodes of earlier sessions may be left. */
  ghost predicate Initial(s: System) {
    && (forall i :: 0 <= i < |s.controllers| ==>
        s.controllers[i] == Stopped(s.controllers[i].uri, s.controllers[i].rSupport))
    && Separate(s.controllers)
  }

  /** No two controllers have the same URI. */
  ghost predicate Separate(cs: seq<Controller>) {
    forall i, j :: 0 <= i < j < |cs| ==> cs[i].uri != cs[j].uri
  }

  predicate Possible(s: System, run: seq<Action>)
    decreases |run|, 0
  {
    run == [] || (Possible(s, run[..|run| - 1]) && Enabled(After(s, run[..|run| - 1]), run[|run| - 1]))
  }

  function After(s: System, run: seq<Action>): System
    requires Possible(s, run)
    decreases |run|, 1
  {
    if run == [] then s else Apply(After(s, run[..|run| - 1]), run[|run| - 1])
  }

  lemma Extend(s: System, run: seq<Action>, a: Action)
    requires Possible(s, run) && Enabled(After(s, run), a)
    ensures Possible(s, run + [a]) && After(s, run + [a]) == Apply(After(s, run), a)
  {
  }

  // ---------- No wake-up is lost ----------

  /** A controller that runs and is up to date: it has events to handle, or its watch is armed and the
      children are as it last saw them. Its own lock never appears behind its back. */
  predicate Awake(active: set<Name>, c: Controller) {
    && (c.owns ==> c.uri in active)
    && (c.phase == Down ==> !c.armed && c.pending == 0 && !c.owns && !c.monitoring)
    && (c.phase != Down && c.rSupport != 0 ==>
          && (c.pending == 0 ==> c.armed && c.snapshot == active)
          && (c.pending == 0 && c.phase == Ready ==> !TriesLock(c.rSupport, c.uri, active))
          && (c.phase == Deciding && c.uri in active ==> c.uri in c.snapshot))
  }

  ghost predicate AllAwake(s: System) {
    Separate(s.controllers) && forall i :: 0 <= i < |s.controllers| ==> Awake(s.active, s.controllers[i])
  }

  lemma AwakeAfterChange(active: set<Name>, active': set<Name>, c: Controller)
    requires Awake(active, c) && (c.uri in active <==> c.uri in active')
    ensures Awake(active', Fired(c))
  {
  }

  lemma AwakeAfterExpiry(active: set<Name>, uri: Name, c: Controller)
    requires Awake(active, c) && (c.uri == uri ==> !c.owns)
    ensures Awake(active - {uri}, Fired(c))
  {
  }

  lemma SetAwake(s: System, i: nat, c: Controller)
    requires AllAwake(s) && i < |s.controllers| && c.uri == s.controllers[i].uri && Awake(s.active, c)
    ensures AllAwake(Set(s, i, c))
  {
  }

  lemma ResolveAwake(s: System, i: nat)
    requires AllAwake(s) && i < |s.controllers| && s.controllers[i].phase == Deciding
    ensures AllAwake(Resolve(s, i))
  {
    var c := s.controllers[i];
    var s' := Resolve(s, i);
    forall j | 0 <= j < |s.controllers|
      ensures Awake(s'.active, s'.controllers[j]) && s'.controllers[j].uri == s.controllers[j].uri
    {
      var d := s.controllers[j];
      assert Awake(s.active, d);
      if j != i {
        assert d.uri != c.uri;
        if TriesLock(c.rSupport, c.uri, c.snapshot) && c.uri !in s.active {
          AwakeAfterChange(s.active, s.active + {c.uri}, d);
        }
      }
    }
  }

  lemma StartAwake(s: System, i: nat)
    requires AllAwake(s) && i < |s.controllers| && s.controllers[i].phase == Down
    ensures AllAwake(StartUp(s, i))
  {
    var c := s.controllers[i];
    var s' := StartUp(s, i);
    forall j | 0 <= j < |s.controllers|
      ensures Awake(s'.active, s'.controllers[j]) && s'.controllers[j].uri == s.controllers[j].uri
    {
      var d := s.controllers[j];
      assert Awake(s.active, d);
      if j != i {
        assert d.uri != c.uri;
        if c.rSupport == 0 && c.uri !in s.active {
          AwakeAfterChange(s.active, s.active + {c.uri}, d);
        }
      }
    }
  }

  lemma StepAwake(s: System, a: Action)
    requires AllAwake(s) && Enabled(s, a)
    ensures AllAwake(Apply(s, a))
  {
    match a
    case Start(i) => StartAwake(s, i);
    case Decide(i) => ResolveAwake(s, i);
    case Expire(uri) =>
      var s' := Apply(s, a);
      forall j | 0 <= j < |s.controllers|
        ensures Awake(s'.active, s'.controllers[j])
      {
        AwakeAfterExpiry(s.active, uri, s.controllers[j]);
      }
    case Deliver(i) =>
      var c := s.controllers[i];
      assert Apply(s, a) ==
             Set(s, i, c.(pending := c.pending - 1, phase := Deciding, armed := true, snapshot := s.active));
      SetAwake(s, i, c.(pending := c.pending - 1, phase := Deciding, armed := true, snapshot := s.active));
    case Crash(i) => SetAwake(s, i, Stopped(s.controllers[i].uri, s.controllers[i].rSupport));
    case MonitorEnds(i) => SetAwake(s, i, s.controllers[i].(monitoring := false));
    case Touch(i) => SetAwake(s, i, s.controllers[i].(pending := s.controllers[i].pending + 1));
  }

  lemma {:induction false} RunAwake(s: System, run: seq<Action>)
    requires Initial(s) && Possible(s, run)
    ensures AllAwake(After(s, run))
  {
    if run != [] {
      RunAwake(s, run[..|run| - 1]);
      StepAwake(After(s, run[..|run| - 1]), run[|run| - 1]);
    }
  }

  /** In every state that a run reaches, a running controller with no event left to handle has its
      watch armed, has seen the children as they are, and would decline to create a lock if it looked
      again. So while Active is empty, every cold or warm controller that waits has an event coming. */
  lemma NoWakeUpIsLost(s: System, run: seq<Action>, i: nat)
    requires Initial(s) && Possible(s, run) && i < |s.controllers| == |After(s, run).controllers|
    ensures var now := After(s, run);
            var c := now.controllers[i];
            c.phase == Ready && c.rSupport != 0 && c.pending == 0 ==>
              && c.armed && c.snapshot == now.active && !TriesLock(c.rSupport, c.uri, now.active)
              && (1 <= c.rSupport <= 2 ==> now.active != {})
              && (3 <= c.rSupport <= 5 ==> c.uri in now.active)
  {
    RunAwake(s, run);
    assert Awake(After(s, run).active, After(s, run).controllers[i]);
  }

  /** A controller that decides to create its lock never finds it taken: the create succeeds. */
  lemma CreateNeverFails(s: System, run: seq<Action>, i: nat)
    requires Initial(s) && Possible(s, run) && Enabled(After(s, run), Decide(i))
    ensures var now := After(s, run);
            var c := now.controllers[i];
            c.rSupport != 0 && TriesLock(c.rSupport, c.uri, c.snapshot) ==>
              && c.uri !in now.active
              && Apply(now, Decide(i)).active == now.active + {c.uri}
              && Apply(now, Decide(i)).controllers[i].owns && Apply(now, Decide(i)).controllers[i].monitoring
  {
    RunAwake(s, run);
    assert Awake(After(s, run).active, After(s, run).controllers[i]);
  }

  /** Failover happens: once Active is empty, any cold or warm controller that waits has an event to
      handle, and if it handles it before anything else happens it becomes the one active controller. */
  lemma FailoverHappens(s: System, run: seq<Action>, i: nat)
    requires Initial(s) && Possible(s, run) && i < |After(s, run).controllers|
    requires After(s, run).active == {} && After(s, run).controllers[i].phase == Ready
    requires 1 <= After(s, run).controllers[i].rSupport <= 2
    ensures Enabled(After(s, run), Deliver(i)) && Enabled(Apply(After(s, run), Deliver(i)), Decide(i))
    ensures var s' := Apply(Apply(After(s, run), Deliver(i)), Decide(i));
            s'.active == {After(s, run).controllers[i].uri} && s'.controllers[i].monitoring && s'.controllers[i].owns
  {
    RunAwake(s, run);
    assert Awake(After(s, run).active, After(s, run).controllers[i]);
  }

  // ---------- Exclusivity ----------

  /** All controllers are cold or warm. */
  ghost predicate ColdOrWarm(s: System) {
    forall i :: 0 <= i < |s.controllers| ==> 1 <= s.controllers[i].rSupport <= 2
  }

  /** No two controllers are between looking and deciding. */
  ghost predicate OneDecides(s: System) {
    forall i, j :: 0 <= i < j < |s.controllers| ==>
        !(s.controllers[i].phase == Deciding && s.controllers[j].phase == Deciding)
  }

  ghost predicate Serial(s: System, run: seq<Action>)
    requires Possible(s, run)
  {
    OneDecides(After(s, run)) && (run == [] || Serial(s, run[..|run| - 1]))
  }

  ghost predicate Exclusive(s: System) {
    && ColdOrWarm(s) && |s.active| <= 1
    && forall i :: 0 <= i < |s.controllers| && s.controllers[i].phase == Deciding ==>
         s.active <= s.controllers[i].snapshot
  }

  lemma SmallerSet(a: set<Name>, b: set<Name>)
    requires a <= b
    ensures |a| <= |b|
  {
    assert b == a + (b - a);
  }

  lemma ResolveExclusive(s: System, i: nat)
    requires Exclusive(s) && Enabled(s, Decide(i)) && OneDecides(s)
    ensures Exclusive(Resolve(s, i))
  {
    var c := s.controllers[i];
    var s' := Resolve(s, i);
    forall j | 0 <= j < |s.controllers|
      ensures 1 <= s'.controllers[j].rSupport <= 2
      ensures s'.controllers[j].phase == Deciding ==> s'.active <= s'.controllers[j].snapshot
    {
    }
  }

  lemma SetExclusive(s: System, i: nat, c: Controller)
    requires Exclusive(s) && i < |s.controllers| && 1 <= c.rSupport <= 2
    requires c.phase == Deciding ==> s.active <= c.snapshot
    ensures Exclusive(Set(s, i, c))
  {
  }

  lemma StepExclusive(s: System, a: Action)
    requires Exclusive(s) && Enabled(s, a) && OneDecides(s)
    ensures Exclusive(Apply(s, a))
  {
    hide Exclusive, OneDecides, ColdOrWarm;
    match a
    case Decide(i) => ResolveExclusive(s, i);
    case Expire(uri) =>
      SmallerSet(s.active - {uri}, s.active);
      ChangeExclusive(s, uri);
    case Start(i) =>
      KindOf(s, i);
      var c := s.controllers[i];
      SetExclusive(s, i, c.(phase := Deciding, monitoring := false, armed := true, snapshot := s.active));
      assert Apply(s, a) == Set(s, i, c.(phase := Deciding, monitoring := false, armed := true, snapshot := s.active));
    case Deliver(i) =>
      KindOf(s, i);
      var c := s.controllers[i];
      SetExclusive(s, i, c.(pending := c.pending - 1, phase := Deciding, armed := true, snapshot := s.active));
      assert Apply(s, a) ==
             Set(s, i, c.(pending := c.pending - 1, phase := Deciding, armed := true, snapshot := s.active));
    case Crash(i) =>
      KindOf(s, i);
      SetExclusive(s, i, Stopped(s.controllers[i].uri, s.controllers[i].rSupport));
    case MonitorEnds(i) =>
      KindOf(s, i);
      SetExclusive(s, i, s.controllers[i].(monitoring := false));
    case Touch(i) =>
      KindOf(s, i);
      SetExclusive(s, i, s.controllers[i].(pending := s.controllers[i].pending + 1));
  }

  lemma KindOf(s: System, i: nat)
    requires Exclusive(s) && i < |s.controllers|
    ensures 1 <= s.controllers[i].rSupport <= 2
    ensures s.controllers[i].phase == Deciding ==> s.active <= s.controllers[i].snapshot
  {
  }

  lemma ChangeExclusive(s: System, uri: Name)
    requires Exclusive(s) && |s.active - {uri}| <= |s.active|
    ensures Exclusive(Change(s, s.active - {uri}))
  {
  }

  /** Mutual exclusion: with cold and warm controllers only, of which no two are ever between looking
      and deciding at the same time, and at most one lock left over, there is never more than one. */
  lemma {:induction false} AtMostOneActive(s: System, run: seq<Action>)
    requires Initial(s) && ColdOrWarm(s) && |s.active| <= 1 && Possible(s, run) && Serial(s, run)
    ensures |After(s, run).active| <= 1 && Exclusive(After(s, run))
  {
    if run != [] {
      AtMostOneActive(s, run[..|run| - 1]);
      StepExclusive(After(s, run[..|run| - 1]), run[|run| - 1]);
    }
  }

  ghost predicate Leads(s: System, a: Action, s': System) {
    Enabled(s, a) && Apply(s, a) == s'
  }

  lemma RunOf4(s: System, a1: Action, a2: Action, a3: Action, a4: Action, s1: System, s2: System, s3: System,
               s4: System)
    requires Leads(s, a1, s1) && Leads(s1, a2, s2) && Leads(s2, a3, s3) && Leads(s3, a4, s4)
    ensures Possible(s, [a1, a2, a3, a4]) && After(s, [a1, a2, a3, a4]) == s4
  {
    hide Enabled, Apply;
    Extend(s, [], a1);
    assert [] + [a1] == [a1] && [a1] + [a2] == [a1, a2] && [a1, a2] + [a3] == [a1, a2, a3];
    assert [a1, a2, a3] + [a4] == [a1, a2, a3, a4];
    Extend(s, [a1], a2);
    Extend(s, [a1, a2], a3);
    Extend(s, [a1, a2, a3], a4);
  }

  /** Two cold controllers that both look before either decides both become active. */
  lemma InterleavedLooksGiveTwoActive(a: Name, b: Name)
    requires a != b
    ensures var s := System({}, [Stopped(a, 1), Stopped(b, 1)]);
            var run := [Start(0), Start(1), Decide(0), Decide(1)];
            && Initial(s) && ColdOrWarm(s) && Possible(s, run)
            && After(s, run) == System({a, b}, [Controller(a, 1, Ready, true, true, false, 1, {}),
                                                Controller(b, 1, Ready, true, true, false, 1, {})])
  {
    var s := System({}, [Stopped(a, 1), Stopped(b, 1)]);
    var looked := (uri: Name) => Controller(uri, 1, Deciding, false, false, true, 0, {});
    RunOf4(s, Start(0), Start(1), Decide(0), Decide(1),
           System({}, [looked(a), Stopped(b, 1)]),
           System({}, [looked(a), looked(b)]),
           System({a}, [Controller(a, 1, Ready, true, true, false, 1, {}),
                        Controller(b, 1, Deciding, false, false, false, 1, {})]),
           System({a, b}, [Controller(a, 1, Ready, true, true, false, 1, {}),
                           Controller(b, 1, Ready, true, true, false, 1, {})]));
  }

  /** A decision to create keeps the lock exclusive exactly if Active is still empty by then. */
  lemma StaysExclusiveIff(s: System, i: nat)
    requires Enabled(s, Decide(i)) && |s.active| <= 1
    requires TriesLock(s.controllers[i].rSupport, s.controllers[i].uri, s.controllers[i].snapshot)
    requires s.controllers[i].uri !in s.active
    ensures |Apply(s, Decide(i)).active| <= 1 <==> s.active == {}
  {
  }

  /** The action creates a lock. */
  predicate Creates(s: System, a: Action) {
    a.Decide? && a.c < |s.controllers| && s.controllers[a.c].uri !in s.active
    && TriesLock(s.controllers[a.c].rSupport, s.controllers[a.c].uri, s.controllers[a.c].snapshot)
  }

  lemma KindsStay(s: System, a: Action)
    requires Enabled(s, a) && ColdOrWarm(s)
    ensures ColdOrWarm(Apply(s, a))
  {
  }

  lemma StepKeepsOneIff(s: System, a: Action)
    requires Enabled(s, a) && ColdOrWarm(s) && |s.active| <= 1
    ensures |Apply(s, a).active| <= 1 <==> (Creates(s, a) ==> s.active == {})
  {
    if Creates(s, a) {
      StaysExclusiveIff(s, a.c);
    } else if a.Expire? {
      SmallerSet(s.active - {a.uri}, s.active);
    }
  }

  ghost predicate OneThroughout(s: System, run: seq<Action>)
    requires Possible(s, run)
  {
    |After(s, run).active| <= 1 && (run == [] || OneThroughout(s, run[..|run| - 1]))
  }

  ghost predicate CreatesFindNone(s: System, run: seq<Action>)
    requires Possible(s, run)
  {
    run == [] ||
    (&& CreatesFindNone(s, run[..|run| - 1])
     && (Creates(After(s, run[..|run| - 1]), run[|run| - 1]) ==> After(s, run[..|run| - 1]).active == {}))
  }

  lemma {:induction false} KindsStayInRun(s: System, run: seq<Action>)
    requires ColdOrWarm(s) && Possible(s, run)
    ensures ColdOrWarm(After(s, run))
  {
    if run != [] {
      KindsStayInRun(s, run[..|run| - 1]);
      KindsStay(After(s, run[..|run| - 1]), run[|run| - 1]);
    }
  }

  /** With cold and warm controllers only, and at most one lock left over, there is at most one lock in
      every state of a run exactly if every creation in it finds Active empty. */
  lemma {:induction false} OneActiveIffCreatesFindNone(s: System, run: seq<Action>)
    requires ColdOrWarm(s) && |s.active| <= 1 && Possible(s, run)
    ensures OneThroughout(s, run) <==> CreatesFindNone(s, run)
  {
    if run != [] {
      var front := run[..|run| - 1];
      OneActiveIffCreatesFindNone(s, front);
      KindsStayInRun(s, front);
      if |After(s, front).active| <= 1 {
        StepKeepsOneIff(After(s, front), run[|run| - 1]);
      }
    }
  }

  // ---------- Standalone controllers ----------

  /** Starting up, a standalone controller comes to own its lock exactly if nothing stands in its place. */
  lemma StandaloneOwnsIff(s: System, i: nat)
    requires Enabled(s, Start(i)) && s.controllers[i].rSupport == 0 && Awake(s.active, s.controllers[i])
    ensures Apply(s, Start(i)).controllers[i].owns <==> s.controllers[i].uri !in s.active
    ensures Apply(s, Start(i)).controllers[i].uri == s.controllers[i].uri
  {
  }

  /** In every state that a run reaches, a lock stands exactly if the controller with its name owns it, or
      it is left over from an earlier session and may vanish at any time. */
  lemma LockIsOwnedOrExpires(s: System, run: seq<Action>, i: nat)
    requires Initial(s) && Possible(s, run) && i < |After(s, run).controllers|
    ensures var now := After(s, run);
            var c := now.controllers[i];
            c.uri in now.active <==> c.owns || Enabled(now, Expire(c.uri))
  {
    RunAwake(s, run);
    var now := After(s, run);
    assert Awake(now.active, now.controllers[i]);
    assert forall j :: 0 <= j < |now.controllers| && now.controllers[j].uri == now.controllers[i].uri ==> j == i;
  }

  lemma OwnsOn(s: System, a: Action, i: nat)
    requires AllAwake(s) && Enabled(s, a) && i < |s.controllers| && s.controllers[i].owns && a != Crash(i)
    ensures i < |Apply(s, a).controllers| && Apply(s, a).controllers[i].owns
            && Apply(s, a).controllers[i].uri == s.controllers[i].uri
  {
    assert Awake(s.active, s.controllers[i]);
  }

  /** An owner that does not crash goes on owning its lock. */
  lemma {:induction false} OwnerStaysListed(s: System, run: seq<Action>, i: nat)
    requires AllAwake(s) && Possible(s, run) && Crash(i) !in run && i < |s.controllers| && s.controllers[i].owns
    ensures AllAwake(After(s, run)) && i < |After(s, run).controllers|
    ensures After(s, run).controllers[i].owns && After(s, run).controllers[i].uri == s.controllers[i].uri
    ensures s.controllers[i].uri in After(s, run).active
  {
    if run != [] {
      hide Awake, Apply, Enabled;
      var front, last := run[..|run| - 1], run[|run| - 1];
      assert last in run;
      OwnerStaysListed(s, front, i);
      OwnsOn(After(s, front), last, i);
      StepAwake(After(s, front), last);
    }
    OwnersAreListed(After(s, run), i);
  }

  lemma OwnersAreListed(s: System, i: nat)
    requires AllAwake(s) && i < |s.controllers| && s.controllers[i].owns
    ensures s.controllers[i].uri in s.active
  {
    assert Awake(s.active, s.controllers[i]);
  }

  /** A standalone controller that starts up stays listed, whatever happens until it crashes, exactly if
      no lock is left over from an earlier session when it starts. */
  lemma StandaloneStaysListedIff(s: System, run: seq<Action>, i: nat)
    requires Initial(s) && Possible(s, run) && Enabled(After(s, run), Start(i))
    requires After(s, run).controllers[i].rSupport == 0
    ensures var now := After(s, run);
            var started, uri := Apply(now, Start(i)), now.controllers[i].uri;
            (forall more :: Possible(started, more) && Crash(i) !in more ==> uri in After(started, more).active) <==>
            uri !in now.active
  {
    hide Apply, Awake;
    var now := After(s, run);
    var started, uri := Apply(now, Start(i)), now.controllers[i].uri;
    RunAwake(s, run);
    StartAwakeAt(now, i);
    Extend(s, run, Start(i));
    LockIsOwnedOrExpires(s, run + [Start(i)], i);
    if uri !in now.active {
      forall more | Possible(started, more) && Crash(i) !in more
        ensures uri in After(started, more).active
      {
        OwnerStaysListed(started, more, i);
      }
    } else {
      var more := if uri in started.active then [Expire(uri)] else [];
      assert [] + [Expire(uri)] == [Expire(uri)];
      if uri in started.active {
        Extend(started, [], Expire(uri));
        ExpiryUnlists(started, uri);
      }
      assert Possible(started, more) && Crash(i) !in more && uri !in After(started, more).active;
    }
  }

  lemma ExpiryUnlists(s: System, uri: Name)
    requires Enabled(s, Expire(uri))
    ensures uri !in Apply(s, Expire(uri)).active
  {
  }

  lemma StartAwakeAt(s: System, i: nat)
    requires AllAwake(s) && Enabled(s, Start(i)) && s.controllers[i].rSupport == 0
    ensures AllAwake(Apply(s, Start(i))) && i < |Apply(s, Start(i)).controllers|
    ensures Apply(s, Start(i)).controllers[i].owns <==> s.controllers[i].uri !in s.active
    ensures Apply(s, Start(i)).controllers[i].uri == s.controllers[i].uri
  {
    StepAwake(s, Start(i));
    assert Awake(s.active, s.controllers[i]);
    StandaloneOwnsIff(s, i);
  }

  /** A standalone controller that restarts before its earlier session has expired fails to create its
      lock, monitors nevertheless, and once the old lock has gone Active stays empty: it has no event. */
  lemma StandaloneRestartGoesUnlisted(a: Name)
    ensures var s := System({}, [Stopped(a, 0)]);
            var run := [Start(0), Crash(0), Start(0), Expire(a)];
            && Initial(s) && Possible(s, run)
            && After(s, run) == System({}, [Controller(a, 0, Ready, true, false, false, 0, {})])
  {
    RunOf4(System({}, [Stopped(a, 0)]), Start(0), Crash(0), Start(0), Expire(a),
           System({a}, [Controller(a, 0, Ready, true, true, false, 0, {})]),
           System({a}, [Stopped(a, 0)]),
           System({a}, [Controller(a, 0, Ready, true, false, false, 0, {})]),
           System({}, [Controller(a, 0, Ready, true, false, false, 0, {})]));
  }
}
