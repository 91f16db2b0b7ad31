/** That every variable can be created, that a thread at the address of one that has ended takes the
    buffer over, and that later calls of a thread return at once. */
module Reuse {
  import opened Common
  import opened GlobalVars
  import opened Progress
  import opened Deadlocks

  // ---------------------------------------------------------------------------------------
  // One thread alone
  // ---------------------------------------------------------------------------------------

  ghost predicate Alone(s: State, t: nat) {
    s.threads.Keys == {t}
  }

  ghost predicate Owned(s: State, v: nat) {
    v < |s.vars| && s.vars[v].owner.Some?
  }

  /** A thread alone never waits: it would wait for itself. */
  lemma AloneMoves(prio: Priorities, s: State, t: nat)
    requires Inv(prio, s) && Alone(s, t) && s.threads[t].stack != []
    ensures Moves(s, t)
  {
    hide Inv, Times;
    AtV(prio, s, t, s.threads[t].stack[Top(s, t)].v, s.threads[t].stack[Top(s, t)].phase);
  }

  lemma AloneStays(prio: Priorities, s: State, t: nat)
    requires Inv(prio, s) && Alone(s, t) && s.threads[t].stack != []
    ensures Alone(Apply(prio, s, Step(t, 1)), t)
  {
    hide Inv, Apply, StackWork, Unbegun, StaysTidy;
    AloneMoves(prio, s, t);
    StepShrinks(prio, [], s, t, 1);
  }

  /** Who creates a variable never changes. */
  lemma OwnerKept(prio: Priorities, s: State, t: nat, addr: nat, v: nat)
    requires Inv(prio, s) && t in s.threads && s.threads[t].stack != [] && Owned(s, v)
    ensures var s' := Apply(prio, s, Step(t, addr)); Owned(s', v) && s'.vars[v].owner == s.vars[v].owner
  {
    hide Inv, InCreation, BeforeBuffer, PointerInv, Resume, Times;
    TopInRange(prio, s, t);
    AtV(prio, s, t, s.threads[t].stack[Top(s, t)].v, s.threads[t].stack[Top(s, t)].phase);
  }

  /** All calls of a thread alone come to their return, whatever the priority variables are. */
  lemma {:induction false} AloneReturns(prio: Priorities, actions: seq<Action>, t: nat, v: nat)
    returns (longer: seq<Action>)
    requires WellFormed(prio) && Alone(Run(prio, actions), t) && Owned(Run(prio, actions), v)
    ensures actions <= longer
    ensures Alone(Run(prio, longer), t) && Run(prio, longer).threads[t].stack == [] && Owned(Run(prio, longer), v)
    decreases AllWork(Run(prio, actions))
  {
    hide Inv, WellFormed, Run, Apply, AllWork, Owned;
    longer := actions;
    if Run(prio, actions).threads[t].stack != [] {
      AloneMoves(prio, Run(prio, actions), t);
      AloneStays(prio, Run(prio, actions), t);
      OwnerKept(prio, Run(prio, actions), t, 1, v);
      MoveShrinks(prio, actions, t, 1);
      Longer(prio, [], actions, Step(t, 1));
      longer := AloneReturns(prio, actions + [Step(t, 1)], t, v);
    }
  }

  /** When no call is under way, a variable that somebody has begun to create exists. */
  lemma IdleCreated(prio: Priorities, s: State, v: nat)
    requires Inv(prio, s) && Idle(s) && Owned(s, v)
    ensures s.vars[v].flag == 2
  {
    hide Times;
    assert GlobalInv(s, v);
  }

  /** Every variable can be created, by the first thread alone. */
  lemma Creates(prio: Priorities, v: nat) returns (actions: seq<Action>)
    requires WellFormed(prio) && v < |prio|
    ensures var s := Run(prio, actions); v < |s.vars| && s.vars[v].flag == 2 && Idle(s)
  {
    var none: seq<Action> := [];
    var s0 := Run(prio, none);
    assert s0 == Initial(prio);
    hide Inv, Run, Goto, Initial;
    actions := Starts(prio, none, v);
    var s1 := Run(prio, actions);
    var t := s0.nextThread;
    assert Alone(s1, t) && s1.vars[v].flag == 0;
    actions := Begins(prio, actions, t, v);
    actions := AloneReturns(prio, actions, t, v);
    IdleCreated(prio, Run(prio, actions), v);
  }

  lemma Begins(prio: Priorities, actions: seq<Action>, t: nat, v: nat) returns (longer: seq<Action>)
    requires WellFormed(prio) && v < |prio| && OnTop(Run(prio, actions), t, v, Enter)
    requires Alone(Run(prio, actions), t) && Run(prio, actions).vars[v].flag == 0
    ensures Alone(Run(prio, longer), t) && Owned(Run(prio, longer), v)
  {
    hide Inv, Run, Goto, MayCall;
    var s := Run(prio, actions);
    longer := ToPriority(prio, actions, t, v);
    OnlyReaches(s, Run(prio, longer), t, v, Global(1, Some(s.threads[t].block), 0, Some(Owner(t, Top(s, t))), 0), 0,
                InitPriority, v);
  }

  // ---------------------------------------------------------------------------------------
  // An address that is used again
  // ---------------------------------------------------------------------------------------

  /** The last action is the return of a call for variable `v`: the thread that created the variable
      has ended, the one that returns is another one with its address, and it takes the buffer. */
  ghost predicate TakesOver(prio: Priorities, actions: seq<Action>, v: nat, r: Returned)
    requires WellFormed(prio)
  {
    && actions != []
    && var s, before := Run(prio, actions), Run(prio, actions[..|actions| - 1]);
       && v < |s.vars| && s.vars[v].owner.Some? && s.vars[v].owner.value.thread !in s.threads
       && r.thread in s.threads && r.thread != s.vars[v].owner.value.thread
       && s.vars[v].mark == Some(s.threads[r.thread].block)
       && s.returned == before.returned + [r] && OnTop(before, r.thread, v, TakeBuffer)
       && r.v == v && r.value == s.vars[v].buffer && r.value != 0 && r.flag == 2
  }

  /** The thread at an address ends, if there is one. */
  lemma Vacates(prio: Priorities, actions: seq<Action>, b: nat) returns (longer: seq<Action>)
    requires WellFormed(prio)
    requires forall t :: t in Run(prio, actions).threads && Run(prio, actions).threads[t].block == b ==>
               Run(prio, actions).threads[t].stack == []
    ensures actions <= longer
    ensures BlockFree(Run(prio, longer), b) && Run(prio, longer).vars == Run(prio, actions).vars
  {
    hide Inv, Run;
    var s := Run(prio, actions);
    longer := actions;
    if t :| t in s.threads && s.threads[t].block == b {
      longer := actions + [Exit(t)];
      Longer(prio, [], actions, Exit(t));
      forall u | u in s.threads && u != t ensures s.threads[u].block != b { OtherBlock(prio, s, t, u); }
    }
  }

  /** A new thread at a given address calls, and comes to look at the mark. */
  lemma CallsAt(prio: Priorities, actions: seq<Action>, b: nat, v: nat) returns (longer: seq<Action>)
    requires WellFormed(prio) && v < |prio| && BlockFree(Run(prio, actions), b)
    ensures actions <= longer
    ensures var s, s' := Run(prio, actions), Run(prio, longer);
            && s'.vars == s.vars && s.nextThread !in s.threads
            && s.nextThread in s'.threads && s'.threads == s.threads[s.nextThread := s'.threads[s.nextThread]]
            && s'.threads[s.nextThread].block == b && s'.threads[s.nextThread].stack == [Frame(v, LoadMark)]
  {
    hide Inv, Run, ThreadInv, GlobalInv;
    var s, t := Run(prio, actions), Run(prio, actions).nextThread;
    NewNumber(prio, s);
    GlobalsOf(prio, s);
    Longer(prio, [], actions, Spawn(b));
    Longer(prio, [], actions + [Spawn(b)], Call(t, v));
    longer := actions + [Spawn(b)] + [Call(t, v)];
    var none: seq<Frame> := [];
    assert none + [Frame(v, Enter)] == [Frame(v, Enter)];
    var s1 := Run(prio, longer);
    AtV(prio, s1, t, v, Enter);
    Longer(prio, [], longer, Step(t, 7));
    longer := longer + [Step(t, 7)];
    var tls := s1.threads[t].tls;
    assert tls[v := 0] == tls && s1.vars[v := s1.vars[v]] == s1.vars;
  }

  /** In every run: if a variable exists, and no thread at the address of its creator is in a call,
      then that thread may end, and a new one at its address takes the buffer over. */
  lemma AddressReused(prio: Priorities, actions: seq<Action>, v: nat) returns (longer: seq<Action>, r: Returned)
    requires WellFormed(prio) && v < |Run(prio, actions).vars| && Run(prio, actions).vars[v].flag == 2
    requires forall t :: t in Run(prio, actions).threads
                         && Run(prio, actions).vars[v].mark == Some(Run(prio, actions).threads[t].block) ==>
               Run(prio, actions).threads[t].stack == []
    ensures actions <= longer && TakesOver(prio, longer, v, r)
  {
    hide Inv, Run, Times;
    var s := Run(prio, actions);
    GlobalsOf(prio, s);
    GlobalOf(prio, s, v);
    var g, b := s.vars[v], s.vars[v].mark.value;
    longer := Vacates(prio, actions, b);
    var s1 := Run(prio, longer);
    GlobalOf(prio, s1, v);
    assert g.owner.value.thread !in s1.threads;
    var t := s1.nextThread;
    longer := CallsAt(prio, longer, b, v);
    assert t != g.owner.value.thread;
    longer, r := TakesBuffer(prio, longer, t, v);
  }

  lemma TakesBuffer(prio: Priorities, actions: seq<Action>, t: nat, v: nat)
    returns (longer: seq<Action>, r: Returned)
    requires WellFormed(prio) && OnTop(Run(prio, actions), t, v, LoadMark)
    requires var s := Run(prio, actions);
             && v < |s.vars| && s.vars[v].flag == 2 && s.vars[v].mark == Some(s.threads[t].block)
             && s.vars[v].owner.Some? && s.vars[v].owner.value.thread !in s.threads && |s.threads[t].stack| == 1
    ensures actions <= longer && TakesOver(prio, longer, v, r)
  {
    hide Inv, Run, Times, BeforeBuffer;
    var s := Run(prio, actions);
    AtV(prio, s, t, v, LoadMark);
    longer := actions + [Step(t, 7)];
    Longer(prio, [], actions, Step(t, 7));
    var s1 := Run(prio, longer);
    Longer(prio, [], longer, Step(t, 7));
    assert s1.vars[v] == s.vars[v];
    var last := longer + [Step(t, 7)];
    assert last[..|last| - 1] == longer;
    var s2 := Run(prio, last);
    r := s2.returned[|s1.returned|];
    longer := last;
  }

  /** So it happens to every variable, whatever the priority variables are. */
  lemma EveryAddressReused(prio: Priorities, v: nat) returns (actions: seq<Action>, r: Returned)
    requires WellFormed(prio) && v < |prio|
    ensures TakesOver(prio, actions, v, r)
  {
    hide Inv, Run, TakesOver;
    var created := Creates(prio, v);
    actions, r := AddressReused(prio, created, v);
  }

  // ---------------------------------------------------------------------------------------
  // Later calls
  // ---------------------------------------------------------------------------------------

  /** As long as the thread runs, it keeps the pointer that a call has returned. */
  ghost predicate Kept(s: State, r: Returned) {
    && r.thread < s.nextThread
    && (r.value != 0 && r.thread in s.threads ==>
          r.v < |s.threads[r.thread].tls| && s.threads[r.thread].tls[r.v] == r.value)
  }

  ghost predicate AllKept(s: State) {
    forall k :: 0 <= k < |s.returned| ==> Kept(s, s.returned[k])
  }

  lemma StepKept(prio: Priorities, s: State, t: nat, addr: nat, r: Returned)
    requires Inv(prio, s) && t in s.threads && s.threads[t].stack != [] && Kept(s, r) && r.v < |prio|
    ensures Kept(Apply(prio, s, Step(t, addr)), r)
  {
    hide Inv, InCreation, BeforeBuffer, Resume, GlobalInv;
    TopInRange(prio, s, t);
    AtV(prio, s, t, s.threads[t].stack[Top(s, t)].v, s.threads[t].stack[Top(s, t)].phase);
  }

  /** A step adds at most its own call to those that have returned. */
  lemma StepReturned(prio: Priorities, s: State, t: nat, addr: nat)
    requires Inv(prio, s) && t in s.threads && s.threads[t].stack != []
    ensures var s' := Apply(prio, s, Step(t, addr));
            s'.returned == s.returned
            || exists r :: s'.returned == s.returned + [r] && Kept(s', r)
  {
    hide Inv, InCreation, BeforeBuffer, Resume, GlobalInv, PointerInv;
    TopInRange(prio, s, t);
    ThreadOf(prio, s, t);
    AtV(prio, s, t, s.threads[t].stack[Top(s, t)].v, s.threads[t].stack[Top(s, t)].phase);
    var s' := Apply(prio, s, Step(t, addr));
    if s'.returned != s.returned {
      var r := s'.returned[|s.returned|];
      assert s'.returned == s.returned + [r] && Kept(s', r);
    }
  }

  lemma ActionKept(prio: Priorities, s: State, a: Action)
    requires Inv(prio, s) && AllKept(s)
    ensures AllKept(Apply(prio, s, a))
  {
    hide Inv, Advance, BlockFree;
    var s' := Apply(prio, s, a);
    if a.Step? && a.t in s.threads && s.threads[a.t].stack != [] {
      hide Kept, Apply;
      StepReturned(prio, s, a.t, a.addr);
      forall k | 0 <= k < |s.returned| ensures Kept(s', s.returned[k]) {
        assert s.returned[k].v < |prio| by { ReturnedOf(prio, s, s.returned[k]); GlobalsOf(prio, s); }
        StepKept(prio, s, a.t, a.addr, s.returned[k]);
      }
    }
  }

  lemma {:induction false} RunKept(prio: Priorities, actions: seq<Action>)
    requires WellFormed(prio)
    ensures AllKept(Run(prio, actions))
  {
    hide Inv, Apply;
    if actions != [] {
      RunKept(prio, actions[..|actions| - 1]);
      ActionKept(prio, Run(prio, actions[..|actions| - 1]), actions[|actions| - 1]);
    }
  }

  /** Once a call has returned the buffer to a thread, every later call of that thread for the
      variable returns it again with its first step, and nothing else changes. */
  lemma LaterCall(prio: Priorities, actions: seq<Action>, r: Returned, addr: nat)
    requires WellFormed(prio) && r in Run(prio, actions).returned && r.value != 0
    requires r.thread in Run(prio, actions).threads && MayCall(Run(prio, actions).threads[r.thread].stack)
    ensures var s, s' := Run(prio, actions), Run(prio, actions + [Call(r.thread, r.v)] + [Step(r.thread, addr)]);
            && s'.vars == s.vars && s'.threads == s.threads && s'.registered == s.registered
            && |s'.returned| == |s.returned| + 1 && s'.returned[..|s.returned|] == s.returned
            && var q := s'.returned[|s.returned|];
               q.thread == r.thread && q.v == r.v && q.value == r.value
  {
    hide Inv, Run, Kept, MayCall, Apply;
    var s, t := Run(prio, actions), r.thread;
    RunKept(prio, actions);
    ReturnedOf(prio, s, r);
    GlobalsOf(prio, s);
    KeptOf(s, r);
    Longer(prio, [], actions, Call(t, r.v));
    Longer(prio, [], actions + [Call(t, r.v)], Step(t, addr));
    ReturnsAtOnce(prio, s, t, r.v, addr);
  }

  lemma KeptOf(s: State, r: Returned)
    requires AllKept(s) && r in s.returned && r.value != 0 && r.thread in s.threads
    ensures r.v < |s.threads[r.thread].tls| && s.threads[r.thread].tls[r.v] == r.value
  {
    var k :| 0 <= k < |s.returned| && s.returned[k] == r;
    assert Kept(s, s.returned[k]);
  }

  lemma ReturnsAtOnce(prio: Priorities, s: State, t: nat, v: nat, addr: nat)
    requires Inv(prio, s) && t in s.threads && MayCall(s.threads[t].stack) && v < |prio| == |s.vars|
    requires v < |s.threads[t].tls| && s.threads[t].tls[v] != 0
    requires Inv(prio, Apply(prio, s, Call(t, v)))
    ensures var ptr := s.threads[t].tls[v];
            Apply(prio, Apply(prio, s, Call(t, v)), Step(t, addr))
            == s.(returned := s.returned + [Returned(t, v, ptr, s.vars[v].flag, BeforeBuffer(s.threads[t].stack, v))])
  {
    hide Inv, BeforeBuffer, MayCall, Pop, Push;
    var s1 := Push(s, t, v);
    CalledOnTop(s, t, v);
    TopInRange(prio, s1, t);
    PopPushed(s, t, v, s.threads[t].tls[v]);
  }

  lemma CalledOnTop(s: State, t: nat, v: nat)
    requires t in s.threads
    ensures var s1 := Push(s, t, v);
            && s1.vars == s.vars && OnTop(s1, t, v, Enter) && s1.threads[t].tls == s.threads[t].tls
  {
  }

  lemma PopPushed(s: State, t: nat, v: nat, ptr: nat)
    requires t in s.threads && MayCall(s.threads[t].stack) && v < |s.vars|
    requires v < |s.threads[t].tls| && s.threads[t].tls[v] == ptr
    ensures Push(s, t, v).threads[t].stack != []
    ensures Pop(Push(s, t, v), t, v, ptr, ptr)
         == s.(returned := s.returned + [Returned(t, v, ptr, s.vars[v].flag, BeforeBuffer(s.threads[t].stack, v))])
  {
    hide BeforeBuffer;
    var th := s.threads[t];
    var stack := th.stack + [Frame(v, Enter)];
    assert stack[..|stack| - 1] == th.stack;
    assert Resume(th.stack) == th.stack;
    assert th.tls[v := ptr] == th.tls;
    assert th.(tls := th.tls, stack := th.stack) == th;
    assert s.threads[t := th] == s.threads;
    assert Pop(Push(s, t, v), t, v, ptr, ptr).threads == s.threads;
  }
}
