/** That calls of `get()` may wait for each other for ever if variables use each other in a cycle. */
module Deadlocks {
  import opened Common
  import opened GlobalVars
  import opened Progress

  // ---------------------------------------------------------------------------------------
  // One call
  // ---------------------------------------------------------------------------------------

  /** The call for variable `v` on top of the stack of thread `t` has come to a phase; other
      variables, other threads and other calls are as before. */
  ghost predicate Reaches(s: State, s': State, t: nat, v: nat, g: Global, ptr: nat, phase: Phase) {
    && t in s.threads && v < |s.vars| && v < |s.threads[t].tls| && s.threads[t].stack != []
    && s' == Goto(s, t, v, g, ptr, phase)
    && OnTop(s', t, v, phase) && Top(s', t) == Top(s, t)
    && |s'.vars| == |s.vars| && s'.vars[v] == g
    && s'.threads[t].block == s.threads[t].block
    && |s'.threads[t].tls| == |s.threads[t].tls| && s'.threads[t].tls[v] == ptr
  }

  lemma StartsAt(s: State, t: nat, v: nat, phase: Phase)
    requires OnTop(s, t, v, phase) && v < |s.vars| && v < |s.threads[t].tls|
    ensures Reaches(s, s, t, v, s.vars[v], s.threads[t].tls[v], phase)
  {
    var s' := Goto(s, t, v, s.vars[v], s.threads[t].tls[v], phase);
    assert s'.threads[t] == s.threads[t];
    assert s'.threads == s.threads;
  }

  lemma ReachesFurther(s: State, s1: State, s2: State, t: nat, v: nat, g1: Global, ptr1: nat, phase1: Phase,
                       g2: Global, ptr2: nat, phase2: Phase)
    requires Reaches(s, s1, t, v, g1, ptr1, phase1) && Reaches(s1, s2, t, v, g2, ptr2, phase2)
    ensures Reaches(s, s2, t, v, g2, ptr2, phase2)
  {
    var s' := Goto(s, t, v, g2, ptr2, phase2);
    assert s2.vars == s'.vars;
    assert s2.threads[t].tls == s'.threads[t].tls && s2.threads[t].stack == s'.threads[t].stack;
    assert s2.threads == s'.threads;
  }

  /** One more step of the same call. */
  lemma GoesOn(prio: Priorities, actions: seq<Action>, s: State, t: nat, v: nat, g: Global, ptr: nat, phase: Phase,
               g': Global, ptr': nat, phase': Phase)
    returns (longer: seq<Action>)
    requires WellFormed(prio) && v < |prio| && Reaches(s, Run(prio, actions), t, v, g, ptr, phase)
    requires |s.vars| == |s.threads[t].tls| == |prio|
    requires var s1 := Run(prio, actions); Advance(prio, s1, t, 7) == Goto(s1, t, v, g', ptr', phase')
    ensures actions <= longer
    ensures Reaches(s, Run(prio, longer), t, v, g', ptr', phase')
  {
    hide Inv, Run, Advance;
    longer := actions + [Step(t, 7)];
    Longer(prio, [], actions, Step(t, 7));
    var s1, s2 := Run(prio, actions), Run(prio, longer);
    ReachesFurther(s, s1, s2, t, v, g, ptr, phase, g', ptr', phase');
  }

  /** The call for a variable that nobody has begun to create goes on up to its priority variable. */
  lemma ToPriority(prio: Priorities, actions: seq<Action>, t: nat, v: nat) returns (longer: seq<Action>)
    requires WellFormed(prio) && v < |prio| && OnTop(Run(prio, actions), t, v, Enter)
    requires Run(prio, actions).vars[v].flag == 0
    ensures actions <= longer
    ensures var s := Run(prio, actions);
            Reaches(s, Run(prio, longer), t, v, Global(1, Some(s.threads[t].block), 0, Some(Owner(t, Top(s, t))), 0), 0,
                    InitPriority)
  {
    hide Inv, Run, Goto;
    var s := Run(prio, actions);
    AtV(prio, s, t, v, Enter);
    NotYet(s, v);
    var free := Global(0, None, 0, None, 0);
    assert s.vars[v] == free;
    var o, mark := Some(Owner(t, Top(s, t))), Some(s.threads[t].block);
    StartsAt(s, t, v, Enter);
    longer := GoesOn(prio, actions, s, t, v, free, 0, Enter, free, 0, LoadMark);
    longer := GoesOn(prio, longer, s, t, v, free, 0, LoadMark, free, 0, LoadFlag);
    longer := GoesOn(prio, longer, s, t, v, free, 0, LoadFlag, free, 0, Cas);
    longer := GoesOn(prio, longer, s, t, v, free, 0, Cas, Global(1, None, 0, o, 0), 0, StoreMark);
    longer := GoesOn(prio, longer, s, t, v, Global(1, None, 0, o, 0), 0, StoreMark, Global(1, mark, 0, o, 0), 0,
                     InitPriority);
  }

  /** From the allocation to the constructor. */
  lemma ToConstructor(prio: Priorities, actions: seq<Action>, t: nat, v: nat) returns (longer: seq<Action>)
    requires WellFormed(prio) && v < |prio| && OnTop(Run(prio, actions), t, v, Alloc)
    ensures actions <= longer
    ensures var s := Run(prio, actions);
            && v < |s.vars|
            && Reaches(s, Run(prio, longer), t, v, s.vars[v].(buffer := 7, built := s.vars[v].built + 1), 7, Construct)
  {
    hide Inv, Run, Goto;
    var s := Run(prio, actions);
    AtV(prio, s, t, v, Alloc);
    var g, ptr := s.vars[v], s.threads[t].tls[v];
    StartsAt(s, t, v, Alloc);
    longer := GoesOn(prio, actions, s, t, v, g, ptr, Alloc, g.(buffer := 7), ptr, SetPtr);
    longer := GoesOn(prio, longer, s, t, v, g.(buffer := 7), ptr, SetPtr, g.(buffer := 7, built := g.built + 1), 7,
                     Construct);
  }

  /** The call for a variable that exists comes to its return. */
  lemma ToReturn(prio: Priorities, actions: seq<Action>, t: nat, v: nat) returns (longer: seq<Action>)
    requires WellFormed(prio) && v < |prio| && OnTop(Run(prio, actions), t, v, Enter)
    requires var s := Run(prio, actions);
             && v < |s.vars| && s.vars[v].flag == 2 && s.vars[v].mark != Some(s.threads[t].block)
             && |s.threads[t].tls| == |prio| && s.threads[t].tls[v] == 0
    ensures actions <= longer
    ensures var s := Run(prio, actions); Reaches(s, Run(prio, longer), t, v, s.vars[v], s.vars[v].buffer, Return)
  {
    hide Inv, Run, Goto;
    var s := Run(prio, actions);
    AtV(prio, s, t, v, Enter);
    var g := s.vars[v];
    StartsAt(s, t, v, Enter);
    longer := GoesOn(prio, actions, s, t, v, g, 0, Enter, g, 0, LoadMark);
    longer := GoesOn(prio, longer, s, t, v, g, 0, LoadMark, g, 0, LoadFlag);
    longer := GoesOn(prio, longer, s, t, v, g, 0, LoadFlag, g, 0, Spin);
    longer := GoesOn(prio, longer, s, t, v, g, 0, Spin, g, 0, Fetch);
    longer := GoesOn(prio, longer, s, t, v, g, 0, Fetch, g, g.buffer, Return);
  }

  /** The call for a variable that another thread creates comes to wait. */
  lemma ToWait(prio: Priorities, actions: seq<Action>, t: nat, v: nat) returns (longer: seq<Action>)
    requires WellFormed(prio) && v < |prio| && OnTop(Run(prio, actions), t, v, Enter)
    requires var s := Run(prio, actions); v < |s.vars| && s.vars[v].flag == 1 && !Ready(s.vars[v], t)
    ensures actions <= longer
    ensures Reaches(Run(prio, actions), Run(prio, longer), t, v, Run(prio, actions).vars[v], 0, Spin)
  {
    hide Inv, Run, Goto;
    var s := Run(prio, actions);
    AtV(prio, s, t, v, Enter);
    OtherMark(prio, s, t, v);
    var g := s.vars[v];
    StartsAt(s, t, v, Enter);
    longer := GoesOn(prio, actions, s, t, v, g, 0, Enter, g, 0, LoadMark);
    longer := GoesOn(prio, longer, s, t, v, g, 0, LoadMark, g, 0, LoadFlag);
    longer := GoesOn(prio, longer, s, t, v, g, 0, LoadFlag, g, 0, Spin);
  }

  lemma OtherMark(prio: Priorities, s: State, t: nat, v: nat)
    requires Inv(prio, s) && t in s.threads && v < |prio| == |s.vars| && s.vars[v].flag == 1 && !Ready(s.vars[v], t)
    ensures s.vars[v].mark != Some(s.threads[t].block)
  {
    hide Times;
    GlobalOf(prio, s, v);
    OtherBlock(prio, s, t, s.vars[v].owner.value.thread);
  }

  // ---------------------------------------------------------------------------------------
  // One thread
  // ---------------------------------------------------------------------------------------

  /** Only thread `t` and variable `v` may have changed. */
  ghost predicate OnlyHere(s: State, s': State, t: nat, v: nat) {
    && t in s.threads && t in s'.threads && v < |s.vars| == |s'.vars|
    && s'.vars == s.vars[v := s'.vars[v]]
    && s'.threads == s.threads[t := s'.threads[t]] && s'.threads[t].block == s.threads[t].block
    && s'.nextThread == s.nextThread
  }

  lemma OnlyReaches(s: State, s': State, t: nat, w: nat, g: Global, ptr: nat, phase: Phase, v: nat)
    requires Reaches(s, s', t, w, g, ptr, phase) && v < |s.vars| && (w == v || g == s.vars[w])
    ensures OnlyHere(s, s', t, v)
    ensures s'.threads[t].stack == s.threads[t].stack[Top(s, t) := Frame(w, phase)]
    ensures w != v ==> s'.vars == s.vars
  {
    if w != v {
      assert s.vars[w := g] == s.vars;
    }
    assert s'.vars == s.vars[v := s'.vars[v]];
  }

  lemma OnlyBoth(s: State, s1: State, s2: State, t: nat, v: nat)
    requires OnlyHere(s, s1, t, v) && OnlyHere(s1, s2, t, v)
    ensures OnlyHere(s, s2, t, v)
  {
    assert s2.vars == s.vars[v := s2.vars[v]];
    assert s2.threads == s.threads[t := s2.threads[t]];
  }

  /** The thread creates variable `v`: it is in its constructor, or it has called for the priority
      variable `next`. */
  ghost predicate Creating(s: State, t: nat, v: nat, next: nat) {
    && t in s.threads && v < |s.vars| && s.vars[v].flag == 1 && s.vars[v].owner == Some(Owner(t, 0))
    && (s.threads[t].stack == [Frame(v, Construct)]
        || s.threads[t].stack == [Frame(v, AwaitPriority), Frame(next, Enter)])
  }

  /** The thread creates variable `v` and waits for `next`. */
  ghost predicate Waiting(s: State, t: nat, v: nat, next: nat) {
    && OnTop(s, t, next, Spin) && next < |s.vars| && s.vars[next].flag == 1
    && v < |s.vars| && s.vars[v].flag == 1 && s.vars[v].owner == Some(Owner(t, 0))
  }

  /** The priority variable of `v`, if it has one, is `next` or exists. */
  ghost predicate Prepared(prio: Priorities, s: State, v: nat, next: nat) {
    && v < |prio| == |s.vars|
    && s.vars[v].flag == 0
    && (prio[v].Some? ==> prio[v] == Some(next) || (prio[v].value < |s.vars| && s.vars[prio[v].value].flag == 2))
  }

  /** A new thread, with a place of its own, and its first call. */
  lemma Starts(prio: Priorities, actions: seq<Action>, v: nat) returns (longer: seq<Action>)
    requires WellFormed(prio) && v < |prio|
    ensures actions <= longer
    ensures var s, s' := Run(prio, actions), Run(prio, longer);
            && s.nextThread !in s.threads && s.nextThread in s'.threads
            && s' == s.(threads := s.threads[s.nextThread := s'.threads[s.nextThread]], nextThread := s.nextThread + 1)
            && s'.threads[s.nextThread].stack == [Frame(v, Enter)]
            && s'.threads[s.nextThread].tls == seq(|prio|, _ => 0)
            && forall w :: 0 <= w < |s.vars| ==> s.vars[w].mark != Some(s'.threads[s.nextThread].block)
  {
    hide Inv, Run;
    var s := Run(prio, actions);
    var b := UnusedPlace(s);
    NewNumber(prio, s);
    Longer(prio, [], actions, Spawn(b));
    Longer(prio, [], actions + [Spawn(b)], Call(s.nextThread, v));
    longer := actions + [Spawn(b)] + [Call(s.nextThread, v)];
    var none: seq<Frame> := [];
    assert none + [Frame(v, Enter)] == [Frame(v, Enter)];
  }

  lemma NewNumber(prio: Priorities, s: State)
    requires Inv(prio, s)
    ensures s.nextThread !in s.threads
  {
    hide Times;
  }

  lemma {:induction false} Above(used: set<nat>) returns (n: nat)
    ensures forall x :: x in used ==> x < n
  {
    n := 0;
    if used != {} {
      var x :| x in used;
      n := Above(used - {x});
      if n <= x { n := x + 1; }
      forall y | y in used ensures y < n {
        if y != x { assert y in used - {x}; }
      }
    }
  }

  lemma UnusedPlace(s: State) returns (b: nat)
    ensures BlockFree(s, b) && forall w :: 0 <= w < |s.vars| ==> s.vars[w].mark != Some(b)
  {
    var blocks := set t | t in s.threads :: s.threads[t].block;
    var marks := set w | 0 <= w < |s.vars| && s.vars[w].mark.Some? :: s.vars[w].mark.value;
    b := Above(blocks + marks);
    forall t | t in s.threads ensures s.threads[t].block != b { assert s.threads[t].block in blocks; }
    forall w | 0 <= w < |s.vars| ensures s.vars[w].mark != Some(b) {
      if s.vars[w].mark.Some? { assert s.vars[w].mark.value in marks; }
    }
  }

  /** The call for the priority variable. */
  lemma CallsPriority(prio: Priorities, actions: seq<Action>, t: nat, v: nat, p: nat) returns (longer: seq<Action>)
    requires WellFormed(prio) && v < |prio| && OnTop(Run(prio, actions), t, v, InitPriority) && prio[v] == Some(p)
    ensures actions <= longer
    ensures var s, s' := Run(prio, actions), Run(prio, longer);
            && OnlyHere(s, s', t, v) && s'.vars == s.vars && s'.threads[t].tls == s.threads[t].tls
            && s'.threads[t].stack == s.threads[t].stack[Top(s, t) := Frame(v, AwaitPriority)] + [Frame(p, Enter)]
  {
    hide Inv, Run;
    var s := Run(prio, actions);
    AtV(prio, s, t, v, InitPriority);
    longer := actions + [Step(t, 7)];
    Longer(prio, [], actions, Step(t, 7));
    assert s.vars[v := s.vars[v]] == s.vars;
    var tls := s.threads[t].tls;
    assert tls[v := tls[v]] == tls;
  }

  /** The call for the priority variable returns, and the one that waited for it goes on. */
  lemma ReturnsPriority(prio: Priorities, actions: seq<Action>, t: nat, v: nat, p: nat) returns (longer: seq<Action>)
    requires WellFormed(prio) && v < |prio| && p < |prio| && t in Run(prio, actions).threads
    requires Run(prio, actions).threads[t].stack == [Frame(v, AwaitPriority), Frame(p, Return)]
    ensures actions <= longer
    ensures var s, s' := Run(prio, actions), Run(prio, longer);
            OnlyHere(s, s', t, v) && s'.vars == s.vars && s'.threads[t].stack == [Frame(v, Alloc)]
  {
    hide Inv, Run;
    var s := Run(prio, actions);
    AtV(prio, s, t, p, Return);
    longer := actions + [Step(t, 7)];
    Longer(prio, [], actions, Step(t, 7));
    var stack := s.threads[t].stack;
    assert stack[..|stack| - 1] == [Frame(v, AwaitPriority)];
    assert s.vars[v := s.vars[v]] == s.vars;
  }

  lemma TlsKept(s: State, s': State, t: nat, v: nat, g: Global, ptr: nat, phase: Phase)
    requires Reaches(s, s', t, v, g, ptr, phase)
    ensures s'.threads[t].tls == s.threads[t].tls[v := ptr]
  {
  }

  /** Without priority variable, from its place to the constructor. */
  lemma CreatesAlone(prio: Priorities, actions: seq<Action>, t: nat, v: nat) returns (longer: seq<Action>)
    requires WellFormed(prio) && v < |prio| && prio[v].None?
    requires OnTop(Run(prio, actions), t, v, InitPriority) && |Run(prio, actions).threads[t].stack| == 1
    ensures actions <= longer
    ensures var s, s' := Run(prio, actions), Run(prio, longer);
            && OnlyHere(s, s', t, v) && s'.threads[t].stack == [Frame(v, Construct)]
            && s'.vars[v].flag == s.vars[v].flag && s'.vars[v].owner == s.vars[v].owner
  {
    hide Inv, Run, Goto;
    var s := Run(prio, actions);
    AtV(prio, s, t, v, InitPriority);
    var g, ptr := s.vars[v], s.threads[t].tls[v];
    StartsAt(s, t, v, InitPriority);
    longer := GoesOn(prio, actions, s, t, v, g, ptr, InitPriority, g, ptr, Alloc);
    var s1 := Run(prio, longer);
    OnlyReaches(s, s1, t, v, g, ptr, Alloc, v);
    longer := Constructs(prio, longer, t, v);
    OnlyBoth(s, s1, Run(prio, longer), t, v);
  }

  lemma Constructs(prio: Priorities, actions: seq<Action>, t: nat, v: nat) returns (longer: seq<Action>)
    requires WellFormed(prio) && v < |prio| && t in Run(prio, actions).threads
    requires Run(prio, actions).threads[t].stack == [Frame(v, Alloc)]
    ensures actions <= longer
    ensures var s, s' := Run(prio, actions), Run(prio, longer);
            && OnlyHere(s, s', t, v) && s'.threads[t].stack == [Frame(v, Construct)]
            && s'.vars[v].flag == s.vars[v].flag && s'.vars[v].owner == s.vars[v].owner
  {
    hide Inv, Run, Goto;
    var s := Run(prio, actions);
    longer := ToConstructor(prio, actions, t, v);
    OnlyReaches(s, Run(prio, longer), t, v, s.vars[v].(buffer := 7, built := s.vars[v].built + 1), 7, Construct, v);
  }

  /** With a priority variable that exists. */
  lemma CreatesBehind(prio: Priorities, actions: seq<Action>, t: nat, v: nat, p: nat) returns (longer: seq<Action>)
    requires WellFormed(prio) && v < |prio| && p < |prio| && p != v && t in Run(prio, actions).threads
    requires var s := Run(prio, actions);
             && s.threads[t].stack == [Frame(v, AwaitPriority), Frame(p, Enter)]
             && p < |s.vars| && s.vars[p].flag == 2 && s.vars[p].mark != Some(s.threads[t].block)
             && |s.threads[t].tls| == |prio| && s.threads[t].tls[p] == 0
    ensures actions <= longer
    ensures var s, s' := Run(prio, actions), Run(prio, longer);
            && OnlyHere(s, s', t, v) && s'.threads[t].stack == [Frame(v, Construct)]
            && s'.vars[v].flag == s.vars[v].flag && s'.vars[v].owner == s.vars[v].owner
  {
    hide Inv, Run, Goto;
    var s := Run(prio, actions);
    GlobalsOf(prio, s);
    longer := ToReturn(prio, actions, t, p);
    var s1 := Run(prio, longer);
    OnlyReaches(s, s1, t, p, s.vars[p], s.vars[p].buffer, Return, v);
    assert s1.threads[t].stack == [Frame(v, AwaitPriority), Frame(p, Return)];
    longer := ReturnsPriority(prio, longer, t, v, p);
    var s2 := Run(prio, longer);
    OnlyBoth(s, s1, s2, t, v);
    longer := Constructs(prio, longer, t, v);
    OnlyBoth(s, s2, Run(prio, longer), t, v);
  }

  /** A new thread begins to create a variable that nobody has begun to create. */
  lemma Begins(prio: Priorities, actions: seq<Action>, v: nat, next: nat) returns (longer: seq<Action>)
    requires WellFormed(prio) && Prepared(prio, Run(prio, actions), v, next)
    ensures actions <= longer
    ensures var s, s', t := Run(prio, actions), Run(prio, longer), Run(prio, actions).nextThread;
            && Creating(s', t, v, next) && s'.nextThread == t + 1 && t !in s.threads
            && s'.threads == s.threads[t := s'.threads[t]]
            && |s'.vars| == |s.vars| && s'.vars == s.vars[v := s'.vars[v]]
  {
    hide Inv, Run, Goto;
    var s, t := Run(prio, actions), Run(prio, actions).nextThread;
    longer := Starts(prio, actions, v);
    var s1 := Run(prio, longer);
    longer := ToPriority(prio, longer, t, v);
    var s2 := Run(prio, longer);
    var g := Global(1, Some(s1.threads[t].block), 0, Some(Owner(t, 0)), 0);
    OnlyReaches(s1, s2, t, v, g, 0, InitPriority, v);
    TlsKept(s1, s2, t, v, g, 0, InitPriority);
    if prio[v].None? {
      longer := CreatesAlone(prio, longer, t, v);
    } else {
      var p := prio[v].value;
      longer := CallsPriority(prio, longer, t, v, p);
      var s3 := Run(prio, longer);
      OnlyBoth(s1, s2, s3, t, v);
      assert s3.threads[t].stack == [Frame(v, AwaitPriority), Frame(p, Enter)];
      if p != next {
        longer := CreatesBehind(prio, longer, t, v, p);
        OnlyBoth(s2, s3, Run(prio, longer), t, v);
      } else {
        OnlyBoth(s1, s2, s3, t, v);
      }
    }
    Composed(s, s1, s2, Run(prio, longer), t, v);
  }

  lemma Composed(s: State, s1: State, s2: State, s': State, t: nat, v: nat)
    requires OnlyHere(s1, s2, t, v) && OnlyHere(s2, s', t, v) && s1.vars == s.vars
    requires s1.threads == s.threads[t := s1.threads[t]]
    ensures s'.threads == s.threads[t := s'.threads[t]] && s'.vars == s.vars[v := s'.vars[v]]
  {
    OnlyBoth(s1, s2, s', t, v);
    assert s.threads[t := s1.threads[t]][t := s'.threads[t]] == s.threads[t := s'.threads[t]];
  }

  /** A thread that creates, and its call for a variable that another thread creates. */
  lemma ComesToWait(prio: Priorities, actions: seq<Action>, t: nat, v: nat, next: nat) returns (longer: seq<Action>)
    requires WellFormed(prio) && v < |prio| && next < |prio| && next != v && Creating(Run(prio, actions), t, v, next)
    requires var s := Run(prio, actions); |s.vars| == |prio| && s.vars[next].flag == 1 && !Ready(s.vars[next], t)
    ensures actions <= longer
    ensures var s, s' := Run(prio, actions), Run(prio, longer);
            OnlyHere(s, s', t, v) && s'.vars == s.vars && Waiting(s', t, v, next)
  {
    hide Inv, Run, Goto;
    var s := Run(prio, actions);
    longer := actions;
    if |s.threads[t].stack| == 1 {
      longer := actions + [Call(t, next)];
      Longer(prio, [], actions, Call(t, next));
      assert s.vars[v := s.vars[v]] == s.vars;
    }
    var s1 := Run(prio, longer);
    assert s1.vars == s.vars && OnlyHere(s, s1, t, v) by {
      assert s.vars[v := s.vars[v]] == s.vars;
      assert s.threads[t := s.threads[t]] == s.threads;
    }
    longer := ToWait(prio, longer, t, next);
    OnlyReaches(s1, Run(prio, longer), t, next, s1.vars[next], 0, Spin, v);
    OnlyBoth(s, s1, Run(prio, longer), t, v);
  }

  // ---------------------------------------------------------------------------------------
  // Cycles
  // ---------------------------------------------------------------------------------------

  /** The variable that the `i`-th one of a cycle uses. */
  function After(vs: seq<nat>, i: nat): nat
    requires i < |vs|
  {
    if i + 1 < |vs| then vs[i + 1] else vs[0]
  }

  /** Two or more distinct variables that nobody has begun to create. A priority variable of one of
      them is the next one, or it exists. */
  ghost predicate Cycle(prio: Priorities, s: State, vs: seq<nat>) {
    && |vs| >= 2
    && (forall i, j :: 0 <= i < j < |vs| ==> vs[i] != vs[j])
    && (forall i :: 0 <= i < |vs| ==> Prepared(prio, s, vs[i], After(vs, i)))
  }

  /** The threads from `t` on create the first `n` variables. */
  ghost predicate AllCreate(s: State, t: nat, vs: seq<nat>, n: nat) {
    n <= |vs| && forall i :: 0 <= i < n ==> Creating(s, t + i, vs[i], After(vs, i))
  }

  /** Every one of these threads waits for what the next one creates. */
  ghost predicate Stuck(s: State, t: nat, vs: seq<nat>) {
    forall i :: 0 <= i < |vs| ==> Waiting(s, t + i, vs[i], After(vs, i))
  }

  lemma CreatingKept(s: State, s': State, t: nat, v: nat, u: nat, w: nat, next: nat)
    requires Creating(s, u, w, next) && u != t && w != v && v < |s.vars| == |s'.vars| && t in s'.threads
    requires s'.threads == s.threads[t := s'.threads[t]] && s'.vars == s.vars[v := s'.vars[v]]
    ensures Creating(s', u, w, next)
  {
  }

  lemma PreparedKept(prio: Priorities, s: State, s': State, v: nat, w: nat, next: nat)
    requires Prepared(prio, s, w, next) && w != v && v < |s.vars| == |s'.vars| && s.vars[v].flag == 0
    requires s'.vars == s.vars[v := s'.vars[v]]
    ensures Prepared(prio, s', w, next)
  {
  }

  /** One new thread for every variable of a cycle. */
  lemma AllBegin(prio: Priorities, actions: seq<Action>, vs: seq<nat>) returns (longer: seq<Action>)
    requires WellFormed(prio) && Cycle(prio, Run(prio, actions), vs)
    ensures actions <= longer
    ensures AllCreate(Run(prio, longer), Run(prio, actions).nextThread, vs, |vs|)
  {
    hide Inv, Run, Creating, Prepared, After;
    var t := Run(prio, actions).nextThread;
    longer := actions;
    for n := 0 to |vs|
      invariant actions <= longer && Run(prio, longer).nextThread == t + n
      invariant AllCreate(Run(prio, longer), t, vs, n)
      invariant forall i :: n <= i < |vs| ==> Prepared(prio, Run(prio, longer), vs[i], After(vs, i))
    {
      var s := Run(prio, longer);
      longer := Begins(prio, longer, vs[n], After(vs, n));
      var s' := Run(prio, longer);
      PreparedRange(prio, s, vs[n], After(vs, n));
      forall i | 0 <= i < n ensures Creating(s', t + i, vs[i], After(vs, i)) {
        CreatingKept(s, s', t + n, vs[n], t + i, vs[i], After(vs, i));
      }
      forall i | n < i < |vs| ensures Prepared(prio, s', vs[i], After(vs, i)) {
        PreparedKept(prio, s, s', vs[n], vs[i], After(vs, i));
      }
    }
  }

  lemma PreparedRange(prio: Priorities, s: State, v: nat, next: nat)
    requires Prepared(prio, s, v, next)
    ensures v < |s.vars| == |prio| && s.vars[v].flag == 0
  {
  }

  /** What a thread of a cycle waits for is created by another one. */
  lemma OthersCreate(s: State, t: nat, vs: seq<nat>, n: nat)
    requires AllCreate(s, t, vs, |vs|) && |vs| >= 2 && n < |vs|
    requires forall i, j :: 0 <= i < j < |vs| ==> vs[i] != vs[j]
    ensures var next := After(vs, n);
            next < |s.vars| && next != vs[n] && s.vars[next].flag == 1 && !Ready(s.vars[next], t + n)
  {
    var m := if n + 1 < |vs| then n + 1 else 0;
    assert Creating(s, t + m, vs[m], After(vs, m));
  }

  lemma WaitingKept(s: State, s': State, t: nat, v: nat, u: nat, w: nat, next: nat)
    requires OnlyHere(s, s', t, v) && s'.vars == s.vars && u != t
    ensures Waiting(s, u, w, next) ==> Waiting(s', u, w, next)
    ensures Creating(s, u, w, next) ==> Creating(s', u, w, next)
  {
  }

  /** Then everyone comes to wait. */
  lemma AllWait(prio: Priorities, actions: seq<Action>, t: nat, vs: seq<nat>) returns (longer: seq<Action>)
    requires WellFormed(prio) && AllCreate(Run(prio, actions), t, vs, |vs|) && |vs| >= 2
    requires forall i, j :: 0 <= i < j < |vs| ==> vs[i] != vs[j]
    ensures actions <= longer
    ensures Stuck(Run(prio, longer), t, vs)
  {
    hide Inv, Run, Creating, Waiting, After, OnlyHere, Ready;
    var s0 := Run(prio, actions);
    GlobalsOf(prio, s0);
    longer := actions;
    for n := 0 to |vs|
      invariant actions <= longer && Run(prio, longer).vars == s0.vars
      invariant forall i :: 0 <= i < n ==> Waiting(Run(prio, longer), t + i, vs[i], After(vs, i))
      invariant forall i :: n <= i < |vs| ==> Creating(Run(prio, longer), t + i, vs[i], After(vs, i))
    {
      var s := Run(prio, longer);
      OthersCreate(s0, t, vs, n);
      CreatingRange(s, t + n, vs[n], After(vs, n));
      longer := ComesToWait(prio, longer, t + n, vs[n], After(vs, n));
      var s' := Run(prio, longer);
      forall i | 0 <= i < |vs| && i != n
        ensures i < n ==> Waiting(s', t + i, vs[i], After(vs, i))
        ensures i > n ==> Creating(s', t + i, vs[i], After(vs, i))
      {
        WaitingKept(s, s', t + n, vs[n], t + i, vs[i], After(vs, i));
      }
    }
  }

  lemma CreatingRange(s: State, t: nat, v: nat, next: nat)
    requires Creating(s, t, v, next)
    ensures v < |s.vars|
  {
  }

  // ---------------------------------------------------------------------------------------
  // For ever
  // ---------------------------------------------------------------------------------------

  /** A step changes no other thread, and no variable that another thread creates. */
  lemma OthersKept(prio: Priorities, s: State, u: nat, addr: nat, t: nat, v: nat)
    requires Inv(prio, s) && u in s.threads && s.threads[u].stack != [] && v < |s.vars| && s.vars[v].flag == 1
    requires s.vars[v].owner.Some? && s.vars[v].owner.value.thread != u && t in s.threads && t != u
    ensures var s' := Apply(prio, s, Step(u, addr));
            && t in s'.threads && s'.threads[t] == s.threads[t]
            && |s'.vars| == |s.vars| && s'.vars[v] == s.vars[v]
  {
    hide Inv, InCreation, BeforeBuffer, GlobalInv, PointerInv, Resume;
    TopInRange(prio, s, u);
    AtV(prio, s, u, s.threads[u].stack[Top(s, u)].v, s.threads[u].stack[Top(s, u)].phase);
  }

  lemma WaitsOn(prio: Priorities, s: State, a: Action, t: nat, v: nat, next: nat)
    requires Inv(prio, s) && Waiting(s, t, v, next) && next < |s.vars|
    requires s.vars[next].owner.Some?
    requires a.Step? ==> a.t != t && s.vars[next].owner.value.thread != a.t
    ensures Waiting(Apply(prio, s, a), t, v, next)
  {
    hide Inv, Advance, Apply;
    if a.Step? && a.t in s.threads && s.threads[a.t].stack != [] {
      OthersKept(prio, s, a.t, a.addr, t, v);
      OthersKept(prio, s, a.t, a.addr, t, next);
    } else {
      OthersLeft(prio, s, a, t);
    }
  }

  lemma OthersLeft(prio: Priorities, s: State, a: Action, t: nat)
    requires Inv(prio, s) && t in s.threads && s.threads[t].stack != []
    requires s.threads[t].stack[Top(s, t)].phase == Spin
    requires a.Step? ==> a.t !in s.threads || s.threads[a.t].stack == []
    ensures var s' := Apply(prio, s, a);
            t in s'.threads && s'.threads[t] == s.threads[t] && s'.vars == s.vars
  {
    hide Inv, Advance, ThreadInv, BlockFree, GlobalInv;
    ThreadOf(prio, s, t);
  }

  /** What a thread of a stuck cycle waits for is created by a thread of the cycle. */
  lemma OwnedInCycle(s: State, t: nat, vs: seq<nat>, i: nat) returns (m: nat)
    requires Stuck(s, t, vs) && i < |vs|
    ensures m < |vs| && After(vs, i) < |s.vars| && s.vars[After(vs, i)].owner == Some(Owner(t + m, 0))
  {
    hide OnTop;
    m := if i + 1 < |vs| then i + 1 else 0;
    assert Waiting(s, t + m, vs[m], After(vs, m));
  }

  /** Nothing that any thread does ends that. */
  lemma StuckStays(prio: Priorities, s: State, a: Action, t: nat, vs: seq<nat>)
    requires Inv(prio, s) && Stuck(s, t, vs)
    ensures Stuck(Apply(prio, s, a), t, vs)
  {
    hide Inv, Apply, After, Waiting;
    if a.Step? && t <= a.t < t + |vs| {
      var i := a.t - t;
      assert Waiting(s, t + i, vs[i], After(vs, i));
      WaitingIdle(prio, s, a.t, a.addr, vs[i], After(vs, i));
    } else {
      forall i | 0 <= i < |vs| ensures Waiting(Apply(prio, s, a), t + i, vs[i], After(vs, i)) {
        var m := OwnedInCycle(s, t, vs, i);
        WaitsOn(prio, s, a, t + i, vs[i], After(vs, i));
      }
    }
  }

  lemma WaitingIdle(prio: Priorities, s: State, t: nat, addr: nat, v: nat, next: nat)
    requires Inv(prio, s) && Waiting(s, t, v, next)
    ensures Apply(prio, s, Step(t, addr)) == s
  {
    hide Inv, Apply;
    StepWaits(prio, s, t, addr);
  }

  lemma {:induction false} StuckForEver(prio: Priorities, actions: seq<Action>, more: seq<Action>, t: nat, vs: seq<nat>)
    requires WellFormed(prio) && Stuck(Run(prio, actions), t, vs)
    ensures Stuck(Run(prio, actions + more), t, vs)
  {
    hide Inv, Run, Stuck, Apply;
    if more == [] {
      assert actions + more == actions;
    } else {
      var front, last := more[..|more| - 1], more[|more| - 1];
      StuckForEver(prio, actions, front, t, vs);
      StuckStays(prio, Run(prio, actions + front), last, t, vs);
      Longer(prio, [], actions + front, last);
      assert actions + more == actions + front + [last];
    }
  }

  /** Variables that use each other in a cycle: every run that has not begun to create them can go
      on so that the threads that create them wait for each other for ever. */
  lemma CycleStuck(prio: Priorities, actions: seq<Action>, vs: seq<nat>) returns (longer: seq<Action>, t: nat)
    requires WellFormed(prio) && Cycle(prio, Run(prio, actions), vs)
    ensures actions <= longer
    ensures forall more: seq<Action> :: Stuck(Run(prio, longer + more), t, vs)
  {
    hide Inv, Run, Prepared, AllCreate, Stuck;
    t := Run(prio, actions).nextThread;
    longer := AllBegin(prio, actions, vs);
    longer := AllWait(prio, longer, t, vs);
    forall more: seq<Action> ensures Stuck(Run(prio, longer + more), t, vs) {
      StuckForEver(prio, longer, more, t, vs);
    }
  }

  /** Two variables without priority variables. */
  const TWO: Priorities := [None, None]

  /** Two constructors that use each other's variable, run by two threads: both wait for ever. */
  lemma Deadlock() returns (actions: seq<Action>, t: nat)
    ensures WellFormed(TWO)
    ensures forall more: seq<Action> ::
              && Waiting(Run(TWO, actions + more), t, 0, 1)
              && Waiting(Run(TWO, actions + more), t + 1, 1, 0)
  {
    var none: seq<Action> := [];
    assert Cycle(TWO, Run(TWO, none), [0, 1]);
    hide Inv, Run, Waiting;
    actions, t := CycleStuck(TWO, none, [0, 1]);
    forall more: seq<Action>
      ensures Waiting(Run(TWO, actions + more), t, 0, 1) && Waiting(Run(TWO, actions + more), t + 1, 1, 0)
    {
      TwoStuck(Run(TWO, actions + more), t);
    }
  }

  lemma TwoStuck(s: State, t: nat)
    requires Stuck(s, t, [0, 1])
    ensures Waiting(s, t, 0, 1) && Waiting(s, t + 1, 1, 0)
  {
    var vs: seq<nat> := [0, 1];
    hide Waiting;
    assert Waiting(s, t + 0, vs[0], After(vs, 0));
    assert Waiting(s, t + 1, vs[1], After(vs, 1));
  }
}
