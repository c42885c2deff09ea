/** The code that the controllers run, over the znodes of their group: what each handler does is one
    look and one decision of the controllers' state machine, with nothing in between. */
module FailoverGroups {
  import opened Failover

  /** How often a controller tries to connect to the server that it has become active for. */
  const ATTEMPTS := 10

  /** The decision of controller i; the program exits, holding its lock, if it has created the lock and
      none of its attempts to connect to the server succeeds. */
  function Evaluated(s: System, i: nat, reached: bool): System
    requires Enabled(s, Decide(i))
  {
    var s' := Apply(s, Decide(i));
    if Creates(s, Decide(i)) && !reached then Apply(s', Crash(i)) else s'
  }

  /** Nothing keeps controller i from creating its lock: a standalone, cold or warm one has seen no children,
      another kind has not seen its own, and no lock of its name exists. */
  predicate Clear(s: System, i: nat)
    requires i < |s.controllers|
  {
    var c := s.controllers[i];
    && c.uri !in s.active
    && (if c.rSupport <= 2 then 0 <= c.rSupport && c.snapshot == {} else c.rSupport <= 5 && c.uri !in c.snapshot)
  }

  /** What an evaluation comes to. If nothing stands in its way the controller creates its lock; it then
      monitors its server if an attempt to connect succeeds, and otherwise the program exits, and the lock
      stays until it expires. If something does, nothing but its phase changes. */
  ghost predicate Outcome(s: System, i: nat, reached: bool, s': System)
    requires i < |s.controllers|
  {
    var c := s.controllers[i];
    && |s'.controllers| == |s.controllers|
    && if !Clear(s, i) then s'.active == s.active && s'.controllers == s.controllers[i := c.(phase := Ready)]
       else
         && s'.active == s.active + {c.uri}
         && (forall j :: 0 <= j < |s.controllers| && j != i ==>
               s'.controllers[j] ==
               var d := s.controllers[j];
               if d.armed then d.(armed := false, pending := d.pending + 1) else d)
         && var c' := s'.controllers[i];
            c'.uri == c.uri && c'.rSupport == c.rSupport
            && if reached then
                 && c'.phase == Ready && c'.monitoring && c'.owns
                 && c'.pending == c.pending + (if c.armed then 1 else 0) && !c'.armed
               else
                 && c'.phase == Down && !c'.monitoring && !c'.owns && !c'.armed && c'.pending == 0
                 && (Separate(s.controllers) ==> Enabled(s', Expire(c.uri)))
  }

  /** So once Active is empty, a cold or warm controller that handles an event becomes the one active. */
  lemma OutcomeOfFailover(s: System, i: nat, s': System)
    requires i < |s.controllers| && Outcome(s, i, true, s')
    requires s.active == {} && s.controllers[i].snapshot == {} && 1 <= s.controllers[i].rSupport <= 2
    ensures |s'.controllers| == |s.controllers| && s'.active == {s.controllers[i].uri}
    ensures var c' := s'.controllers[i];
            c'.uri == s.controllers[i].uri && c'.phase == Ready && c'.monitoring && c'.owns
  {
  }

  lemma EvaluatedOutcome(s: System, i: nat, reached: bool)
    requires Enabled(s, Decide(i))
    ensures Outcome(s, i, reached, Evaluated(s, i, reached))
  {
    var s' := Evaluated(s, i, reached);
    if Clear(s, i) && !reached && Separate(s.controllers) {
      forall j | 0 <= j < |s'.controllers| && s'.controllers[j].uri == s.controllers[i].uri
        ensures !s'.controllers[j].owns
      {
        assert s'.controllers[j].uri == s.controllers[j].uri;
        assert j == i;
      }
    }
  }

  class Group {
    var active: set<Name>
    var controllers: seq<Controller>

    ghost function State(): System
      reads this
    {
      System(active, controllers)
    }

    constructor (controllers: seq<Controller>, left: set<Name>)
      ensures State() == System(left, controllers)
    {
      this.controllers := controllers;
      active := left;
    }

    /** The watches on the children of Active fire. */
    method Notify()
      modifies this`controllers
      ensures controllers == AllFired(old(controllers))
    {
      for i := 0 to |controllers|
        invariant |controllers| == |old(controllers)|
        invariant forall j :: 0 <= j < |controllers| ==>
          controllers[j] == if j < i then Fired(old(controllers)[j]) else old(controllers)[j]
      {
        if controllers[i].armed {
          controllers := controllers[i := controllers[i].(armed := false, pending := controllers[i].pending + 1)];
        }
      }
    }

    /** List the children of Active, in some order, and set the watch. */
    method GetChildren(i: nat) returns (strings: seq<Name>)
      requires i < |controllers|
      modifies this`controllers
      ensures State() == Look(old(State()), i)
      ensures forall x :: x in strings <==> x in active
    {
      strings := [];
      var rest := active;
      while rest != {}
        invariant forall x :: x in active <==> x in rest || x in strings
        decreases |rest|
      {
        var x :| x in rest;
        strings := strings + [x];
        rest := rest - {x};
      }
      controllers := controllers[i := controllers[i].(phase := Deciding, armed := true, snapshot := active)];
    }

    /** zkUA_getActiveNodeLock: create the controller's znode. The result is 0 if it did not exist. */
    method GetActiveNodeLock(i: nat) returns (rc: int)
      requires i < |controllers|
      modifies this
      ensures State() == Create(old(State()), i)
      ensures rc == 0 <==> controllers[i].uri !in old(active)
    {
      var uri := controllers[i].uri;
      if uri in active {
        return -110;
      }
      active := active + {uri};
      Notify();
      controllers := controllers[i := controllers[i].(owns := true)];
      return 0;
    }

    /** zkUA_zkEvaluateActiveNodes, on the children that the controller has just listed. */
    method EvaluateActiveNodes(i: nat, strings: seq<Name>, answers: seq<bool>)
      requires Enabled(State(), Decide(i)) && |answers| == 10
      requires forall x :: x in strings <==> x in controllers[i].snapshot
      modifies this
      ensures State() == Evaluated(old(State()), i, true in answers)
      ensures Outcome(old(State()), i, true in answers, State())
    {
      EvaluatedOutcome(State(), i, true in answers);
      var c := controllers[i];
      controllers := controllers[i := c.(phase := Ready)];
      assert c.snapshot == {} <==> |strings| == 0 by {
        if |strings| > 0 {
          assert strings[0] in c.snapshot;
        }
      }
      if c.rSupport < 0 || c.rSupport > 5 {
        return;
      }
      if c.rSupport <= 2 && |strings| > 0 {
        return;
      }
      for k := 0 to |strings|
        invariant c.uri !in strings[..k]
        invariant State() == Set(old(State()), i, c.(phase := Ready))
      {
        if strings[k] == c.uri {
          assert c.uri in strings;
          return;
        }
      }
      assert strings[..|strings|] == strings;
      var rc := GetActiveNodeLock(i);
      if rc != 0 {
        return;
      }
      var good, attempts := false, 0;
      while !good && attempts < ATTEMPTS
        invariant 0 <= attempts <= ATTEMPTS && (good <==> true in answers[..attempts])
      {
        good := answers[attempts];
        attempts := attempts + 1;
      }
      assert attempts == ATTEMPTS ==> answers[..attempts] == answers;
      if good {
        controllers := controllers[i := controllers[i].(monitoring := true)];
      } else {
        controllers := controllers[i := Stopped(controllers[i].uri, controllers[i].rSupport)];
      }
    }

    /** zkUA_activeNodesWatcher, for an event that names a path. */
    method ActiveNodesWatcher(i: nat, answers: seq<bool>)
      requires Enabled(State(), Deliver(i)) && |answers| == 10
      modifies this
      ensures Enabled(Apply(old(State()), Deliver(i)), Decide(i))
      ensures State() == Evaluated(Apply(old(State()), Deliver(i)), i, true in answers)
      ensures var c, s := old(controllers)[i], old(State());
              var looked := s.(controllers := s.controllers[i := c.(phase := Deciding, armed := true,
                                                                    pending := c.pending - 1, snapshot := s.active)]);
              Outcome(looked, i, true in answers, State())
      ensures old(active) == {} && 1 <= old(controllers)[i].rSupport <= 2 && true in answers ==>
                && active == {controllers[i].uri} && controllers[i].uri == old(controllers)[i].uri
                && controllers[i].phase == Ready && controllers[i].monitoring && controllers[i].owns
    {
      hide Outcome, Evaluated;
      controllers := controllers[i := controllers[i].(pending := controllers[i].pending - 1)];
      var strings := GetChildren(i);
      ghost var c, looked := old(controllers)[i], State();
      assert controllers == old(controllers)[i := c.(phase := Deciding, armed := true, pending := c.pending - 1,
                                                     snapshot := active)];
      EvaluateActiveNodes(i, strings, answers);
      if old(active) == {} && 1 <= old(controllers)[i].rSupport <= 2 && true in answers {
        OutcomeOfFailover(looked, i, State());
      }
    }

    /** The registration that init_UA_client makes when the program starts. */
    method Register(i: nat, answers: seq<bool>)
      requires Enabled(State(), Start(i)) && |answers| == 10
      modifies this
      ensures old(controllers)[i].rSupport == 0 ==> State() == Apply(old(State()), Start(i))
      ensures old(controllers)[i].rSupport != 0 ==>
                && Enabled(Apply(old(State()), Start(i)), Decide(i))
                && State() == Evaluated(Apply(old(State()), Start(i)), i, true in answers)
      ensures var c, s := old(controllers)[i], old(State());
              if c.rSupport == 0 then
                && controllers[i].phase == Ready && controllers[i].monitoring
                && active == s.active + {c.uri} && (c.uri !in s.active ==> controllers[i].owns)
                && (c.uri in s.active ==> controllers[i].owns == c.owns)
              else
                var looked := s.(controllers := s.controllers[i := c.(phase := Deciding, monitoring := false,
                                                                      armed := true, snapshot := s.active)]);
                Outcome(looked, i, true in answers, State())
    {
      if controllers[i].rSupport == 0 {
        controllers := controllers[i := controllers[i].(phase := Ready, monitoring := true)];
        var rc := GetActiveNodeLock(i);
      } else {
        controllers := controllers[i := controllers[i].(phase := Ready, monitoring := false)];
        var strings := GetChildren(i);
        EvaluateActiveNodes(i, strings, answers);
      }
    }
  }
}
