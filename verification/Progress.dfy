/** That calls of `get()` come to an end if constructors use other variables along an order. */
module Progress {
  import opened Common
  import opened GlobalVars

  /** The order: a variable may use those of lower rank. */
  type Ranks = seq<nat>

  predicate Ordered(prio: Priorities, ranks: Ranks) {
    && |ranks| == |prio|
    && WellFormed(prio)
    && forall v :: 0 <= v < |prio| && prio[v].Some? ==> ranks[prio[v].value] < ranks[v]
  }

  /** There is one if every priority variable comes before those that have it. */
  lemma NumbersOrder(prio: Priorities)
    requires forall v :: 0 <= v < |prio| && prio[v].Some? ==> prio[v].value < v
    ensures Ordered(prio, seq(|prio|, v requires 0 <= v < |prio| => v))
  {
  }

  /** Every call was made for a variable of lower rank than the one below it. */
  predicate Down(ranks: Ranks, stack: seq<Frame>) {
    && (forall i :: 0 <= i < |stack| ==> stack[i].v < |ranks|)
    && (forall i, j :: 0 <= i < j < |stack| ==> ranks[stack[j].v] < ranks[stack[i].v])
  }

  /** A call for a variable that exists, or that its thread creates: it does not wait. */
  ghost predicate Served(vars: seq<Global>, t: nat, f: Frame) {
    f.v < |vars| && f.phase.Rank() == 0 && Ready(vars[f.v], t)
  }

  /** All calls are in order, but the last one may be served. */
  ghost predicate Tidy(ranks: Ranks, vars: seq<Global>, t: nat, stack: seq<Frame>) {
    stack == [] ||
    (Down(ranks, stack[..|stack| - 1]) && (Down(ranks, stack) || Served(vars, t, stack[|stack| - 1])))
  }

  ghost predicate AllTidy(ranks: Ranks, s: State) {
    forall t :: t in s.threads ==> Tidy(ranks, s.vars, t, s.threads[t].stack)
  }

  /** A call out of a constructor goes to a variable of lower rank, or to one that exists, or to one
      that the same thread is creating. */
  ghost predicate CallDown(ranks: Ranks, s: State, a: Action) {
    a.Call? && a.t in s.threads && a.v < |ranks| && s.threads[a.t].stack != [] ==>
      var v := s.threads[a.t].stack[Top(s, a.t)].v;
      || (v < |ranks| && ranks[a.v] < ranks[v])
      || (a.v < |s.vars| && Ready(s.vars[a.v], a.t))
  }

  /** In a run, all of them do. */
  ghost predicate CallsDown(prio: Priorities, ranks: Ranks, actions: seq<Action>)
    requires WellFormed(prio)
  {
    actions == [] ||
    var front := actions[..|actions| - 1];
    CallsDown(prio, ranks, front) && CallDown(ranks, Run(prio, front), actions[|actions| - 1])
  }

  /** That is a condition on the calls made by threads that construct, and on nothing else. */
  lemma {:induction false} CallsDownMeans(prio: Priorities, ranks: Ranks, actions: seq<Action>)
    requires WellFormed(prio) && |ranks| == |prio|
    ensures CallsDown(prio, ranks, actions) <==>
              forall k :: 0 <= k < |actions| && actions[k].Call? && actions[k].v < |prio| ==>
                var s, t, w := Run(prio, actions[..k]), actions[k].t, actions[k].v;
                t in s.threads && s.threads[t].stack != [] ==>
                  var v := s.threads[t].stack[|s.threads[t].stack| - 1].v;
                  || (v < |ranks| && ranks[w] < ranks[v])
                  || (w < |s.vars| && (s.vars[w].flag == 2
                                       || (s.vars[w].flag == 1 && s.vars[w].owner.Some?
                                           && s.vars[w].owner.value.thread == t)))
  {
    hide Inv, Run, Apply;
    if actions != [] {
      var front := actions[..|actions| - 1];
      CallsDownMeans(prio, ranks, front);
      assert forall k :: 0 <= k < |front| ==> front[k] == actions[k] && front[..k] == actions[..k];
    }
  }

  // ---------------------------------------------------------------------------------------
  // The work that is left
  // ---------------------------------------------------------------------------------------

  /** Steps from here to the end of the call, without those of the priority variable. */
  function Remaining(phase: Phase): nat {
    match phase
    case Enter => 16
    case LoadMark => 15
    case LoadFlag => 14
    case Cas => 13
    case StoreMark => 12
    case InitPriority => 11
    case AwaitPriority => 10
    case Alloc => 9
    case SetPtr => 8
    case Construct => 7
    case Register => 6
    case StoreFlag => 5
    case Spin => 4
    case Fetch => 3
    case Return => 2
    case TakeBuffer => 1
  }

  /** With the call of the priority variable that may still come. */
  function Weight(phase: Phase): (w: nat)
    ensures w > 0
  {
    Remaining(phase) + if phase == StoreMark || phase == InitPriority then 16 else 0
  }

  function StackWork(stack: seq<Frame>): nat {
    if stack == [] then 0
    else StackWork(stack[..|stack| - 1]) + Weight(stack[|stack| - 1].phase)
  }

  /** Of the threads with a number below `n`. */
  function Work(threads: map<nat, Thread>, n: nat): nat {
    if n == 0 then 0
    else Work(threads, n - 1) + if n - 1 in threads then StackWork(threads[n - 1].stack) else 0
  }

  /** A variable that nobody has begun to create may cost a creation, with the call of its
      priority variable. */
  function Cost(g: Global): nat {
    if g.flag == 0 then 17 else 0
  }

  function Unbegun(vars: seq<Global>): nat {
    if vars == [] then 0 else Unbegun(vars[..|vars| - 1]) + Cost(vars[|vars| - 1])
  }

  function AllWork(s: State): nat {
    Work(s.threads, s.nextThread) + Unbegun(s.vars)
  }

  lemma {:induction false} WorkOfOther(threads: map<nat, Thread>, t: nat, th: Thread, n: nat)
    requires t in threads
    ensures var before, after := StackWork(threads[t].stack), StackWork(th.stack);
            Work(threads[t := th], n) == Work(threads, n) + if t < n then after - before else 0
  {
    hide StackWork;
    if n > 0 {
      WorkOfOther(threads, t, th, n - 1);
    }
  }

  lemma {:induction false} UnbegunOfOther(vars: seq<Global>, v: nat, g: Global)
    requires v < |vars|
    ensures Unbegun(vars[v := g]) == Unbegun(vars) + Cost(g) - Cost(vars[v])
  {
    hide Cost;
    var last := |vars| - 1;
    if v < last {
      UnbegunOfOther(vars[..last], v, g);
      assert vars[v := g][..last] == vars[..last][v := g];
    } else {
      assert vars[v := g][..last] == vars[..last];
    }
  }

  // ---------------------------------------------------------------------------------------
  // One step
  // ---------------------------------------------------------------------------------------

  /** The next step of the thread is no waiting. */
  ghost predicate Moves(s: State, t: nat) {
    && t in s.threads && s.threads[t].stack != []
    && var f := s.threads[t].stack[Top(s, t)];
       f.v < |s.vars| && (f.phase.Spin? ==> s.vars[f.v].flag == 2)
  }

  /** A step of thread `t` has taken work away. */
  ghost predicate Shrinks(s: State, s': State, t: nat) {
    && t in s.threads && t in s'.threads
    && s'.threads == s.threads[t := s'.threads[t]] && s'.nextThread == s.nextThread
    && StackWork(s'.threads[t].stack) + Unbegun(s'.vars) < StackWork(s.threads[t].stack) + Unbegun(s.vars)
  }

  /** If its stack was in order, it still is. */
  ghost predicate StaysTidy(ranks: Ranks, s: State, s': State, t: nat) {
    && t in s.threads && t in s'.threads
    && (Tidy(ranks, s.vars, t, s.threads[t].stack) ==> Tidy(ranks, s'.vars, t, s'.threads[t].stack))
  }

  lemma TopReplaced(ranks: Ranks, stack: seq<Frame>, phase: Phase)
    requires stack != []
    ensures var top := |stack| - 1;
            var f, f' := stack[top], Frame(stack[top].v, phase);
            && (Down(ranks, stack) ==> Down(ranks, stack[top := f']))
            && stack[top := f'][..top] == stack[..top]
            && StackWork(stack[top := f']) + Weight(f.phase) == StackWork(stack) + Weight(phase)
  {
    hide Weight;
  }

  lemma TopPushed(ranks: Ranks, stack: seq<Frame>, w: nat)
    ensures (stack + [Frame(w, Enter)])[..|stack|] == stack
    ensures Down(ranks, stack) && w < |ranks| && (stack == [] || ranks[w] < ranks[stack[|stack| - 1].v]) ==>
              Down(ranks, stack + [Frame(w, Enter)])
    ensures StackWork(stack + [Frame(w, Enter)]) == StackWork(stack) + 16
  {
    assert (stack + [Frame(w, Enter)])[..|stack|] == stack;
  }

  lemma TopPopped(ranks: Ranks, stack: seq<Frame>)
    requires stack != []
    ensures Down(ranks, stack[..|stack| - 1]) ==> Down(ranks, Resume(stack[..|stack| - 1]))
    ensures StackWork(Resume(stack[..|stack| - 1])) < StackWork(stack)
  {
    var below := stack[..|stack| - 1];
    assert StackWork(below) < StackWork(stack);
    if below != [] {
      var top := below[|below| - 1];
      if top.phase == AwaitPriority {
        TopReplaced(ranks, below, Alloc);
        assert Resume(below) == below[|below| - 1 := Frame(top.v, Alloc)];
      } else {
        assert Resume(below) == below;
      }
    }
  }

  lemma DownTidy(ranks: Ranks, vars: seq<Global>, t: nat, stack: seq<Frame>)
    requires Down(ranks, stack)
    ensures Tidy(ranks, vars, t, stack)
  {
  }

  /** A call that is served does not start to create. */
  lemma GotoShrinks(ranks: Ranks, s: State, t: nat, v: nat, g: Global, ptr: nat, old': Phase, phase: Phase)
    requires OnTop(s, t, v, old') && v < |s.vars| && v < |s.threads[t].tls|
    requires Served(s.vars, t, Frame(v, old')) ==> g == s.vars[v] && phase.Rank() == 0
    requires Weight(phase) + Cost(g) < Weight(old') + Cost(s.vars[v])
    ensures Shrinks(s, Goto(s, t, v, g, ptr, phase), t) && StaysTidy(ranks, s, Goto(s, t, v, g, ptr, phase), t)
  {
    hide StackWork, Weight, Cost, Unbegun, Remaining, Down, Ready;
    TopReplaced(ranks, s.threads[t].stack, phase);
    UnbegunOfOther(s.vars, v, g);
  }

  lemma PopShrinks(ranks: Ranks, s: State, t: nat, v: nat, ptr: nat, value: nat)
    requires t in s.threads && s.threads[t].stack != [] && v < |s.vars| && v < |s.threads[t].tls|
    ensures Shrinks(s, Pop(s, t, v, ptr, value), t) && StaysTidy(ranks, s, Pop(s, t, v, ptr, value), t)
  {
    var stack := s.threads[t].stack;
    hide StackWork, Down, Resume;
    TopPopped(ranks, stack);
    if Down(ranks, stack[..|stack| - 1]) {
      DownTidy(ranks, s.vars, t, Resume(stack[..|stack| - 1]));
    }
  }

  /** The call of the priority variable is paid for. */
  lemma PriorityShrinks(ranks: Ranks, s: State, t: nat, v: nat, ptr: nat, w: nat)
    requires OnTop(s, t, v, InitPriority) && v < |s.vars| && v < |s.threads[t].tls|
    ensures var s' := Push(Goto(s, t, v, s.vars[v], ptr, AwaitPriority), t, w);
            && Shrinks(s, s', t)
            && (w < |ranks| && v < |ranks| && ranks[w] < ranks[v] ==> StaysTidy(ranks, s, s', t))
  {
    hide StackWork, Unbegun, Down;
    var stack := s.threads[t].stack;
    var stack' := stack[Top(s, t) := Frame(v, AwaitPriority)];
    assert s.vars[v := s.vars[v]] == s.vars;
    TopReplaced(ranks, stack, AwaitPriority);
    TopPushed(ranks, stack', w);
    if Down(ranks, stack' + [Frame(w, Enter)]) {
      DownTidy(ranks, s.vars, t, stack' + [Frame(w, Enter)]);
    }
  }

  lemma StepShrinks(prio: Priorities, ranks: Ranks, s: State, t: nat, addr: nat)
    requires Inv(prio, s) && Moves(s, t) && addr != 0
    ensures Shrinks(s, Apply(prio, s, Step(t, addr)), t)
    ensures Ordered(prio, ranks) ==> StaysTidy(ranks, s, Apply(prio, s, Step(t, addr)), t)
  {
    hide Inv, Goto, Pop, Push, Shrinks, StaysTidy, Tidy, InCreation, StackWork, Unbegun, GlobalInv, PointerInv,
        BlockFree, FrameInv, ThreadInv, Ordered, WellFormed;
    TopInRange(prio, s, t);
    var f := s.threads[t].stack[Top(s, t)];
    AtV(prio, s, t, f.v, f.phase);
    var v, g, ptr := f.v, s.vars[f.v], s.threads[t].tls[f.v];
    if f.phase.Rank() > 0 {
      CreationShrinks(prio, ranks, s, t, addr, v, f.phase);
      return;
    }
    match f.phase
    case Enter => if ptr != 0 { PopShrinks(ranks, s, t, v, ptr, ptr); }
        else { GotoShrinks(ranks, s, t, v, g, ptr, Enter, LoadMark); }
    case LoadMark => GotoShrinks(ranks, s, t, v, g, ptr, LoadMark, if g.mark == Some(s.threads[t].block)
                                 then TakeBuffer else LoadFlag);
    case TakeBuffer => PopShrinks(ranks, s, t, v, g.buffer, g.buffer);
    case LoadFlag => GotoShrinks(ranks, s, t, v, g, ptr, LoadFlag, if g.flag == 0 then Cas else Spin);
    case Cas =>
      if g.flag == 0 { GotoShrinks(ranks, s, t, v, g.(flag := 1, owner := Some(Owner(t, Top(s, t)))), ptr, Cas,
                                   StoreMark); }
      else { GotoShrinks(ranks, s, t, v, g, ptr, Cas, Spin); }
    case Spin => GotoShrinks(ranks, s, t, v, g, ptr, Spin, Fetch);
    case Fetch => GotoShrinks(ranks, s, t, v, g, g.buffer, Fetch, Return);
    case Return => PopShrinks(ranks, s, t, v, ptr, ptr);
  }

  /** The same for the steps of the call that creates. */
  lemma CreationShrinks(prio: Priorities, ranks: Ranks, s: State, t: nat, addr: nat, v: nat, phase: Phase)
    requires Inv(prio, s) && OnTop(s, t, v, phase) && phase.Rank() > 0 && addr != 0
    ensures Shrinks(s, Apply(prio, s, Step(t, addr)), t)
    ensures Ordered(prio, ranks) ==> StaysTidy(ranks, s, Apply(prio, s, Step(t, addr)), t)
  {
    hide Inv, Goto, Pop, Push, Shrinks, StaysTidy, Tidy, InCreation, StackWork, Unbegun, GlobalInv, PointerInv,
        BlockFree, FrameInv, ThreadInv, Ordered, WellFormed;
    TopInRange(prio, s, t);
    AtV(prio, s, t, v, phase);
    var g, ptr := s.vars[v], s.threads[t].tls[v];
    match phase
    case StoreMark => GotoShrinks(ranks, s, t, v, g.(mark := Some(s.threads[t].block)), ptr, StoreMark, InitPriority);
    case InitPriority =>
      if prio[v].None? { GotoShrinks(ranks, s, t, v, g, ptr, InitPriority, Alloc); }
      else {
        PriorityShrinks(ranks, s, t, v, ptr, prio[v].value);
        if Ordered(prio, ranks) { PriorityLower(prio, ranks, v); }
      }
    case AwaitPriority => NotAwaiting(prio, s, t);
    case Alloc => GotoShrinks(ranks, s, t, v, g.(buffer := addr), ptr, Alloc, SetPtr);
    case SetPtr => GotoShrinks(ranks, s, t, v, g.(built := g.built + 1), g.buffer, SetPtr, Construct);
    case Construct => GotoShrinks(ranks, s, t, v, g, ptr, Construct, Register);
    case Register =>
      GotoShrinks(ranks, s, t, v, g, ptr, Register, StoreFlag);
      SameThreads(s, Goto(s, t, v, g, ptr, StoreFlag), Apply(prio, s, Step(t, addr)), t);
      SameTidy(ranks, s, Goto(s, t, v, g, ptr, StoreFlag), Apply(prio, s, Step(t, addr)), t);
    case StoreFlag => GotoShrinks(ranks, s, t, v, g.(flag := 2), ptr, StoreFlag, Return);
  }

  lemma PriorityLower(prio: Priorities, ranks: Ranks, v: nat)
    requires Ordered(prio, ranks) && v < |prio| && prio[v].Some?
    ensures v < |ranks| && prio[v].value < |ranks| && ranks[prio[v].value] < ranks[v]
  {
  }

  lemma SameThreads(s: State, s': State, s'': State, t: nat)
    requires Shrinks(s, s', t) && s''.threads == s'.threads && s''.vars == s'.vars && s''.nextThread == s'.nextThread
    ensures Shrinks(s, s'', t)
  {
  }

  lemma SameTidy(ranks: Ranks, s: State, s': State, s'': State, t: nat)
    requires StaysTidy(ranks, s, s', t) && s''.threads == s'.threads && s''.vars == s'.vars
    ensures StaysTidy(ranks, s, s'', t)
  {
  }

  /** The call on top of a stack waits for no other call. */
  lemma NotAwaiting(prio: Priorities, s: State, t: nat)
    requires Inv(prio, s) && t in s.threads && s.threads[t].stack != []
    ensures s.threads[t].stack[Top(s, t)].phase != AwaitPriority
  {
    OwnFrame(prio, s, t, Top(s, t));
  }

  // ---------------------------------------------------------------------------------------
  // Some thread always moves
  // ---------------------------------------------------------------------------------------

  /** A call that is served never waits. */
  lemma ServedMoves(prio: Priorities, s: State, t: nat)
    requires Inv(prio, s) && t in s.threads && s.threads[t].stack != []
    requires Served(s.vars, t, s.threads[t].stack[Top(s, t)])
    ensures Moves(s, t)
  {
    hide Inv;
    AtV(prio, s, t, s.threads[t].stack[Top(s, t)].v, s.threads[t].stack[Top(s, t)].phase);
  }

  /** From a thread that waits to one that does not: the thread that creates what it waits for
      does not wait, or waits for a variable of lower rank. */
  lemma {:induction false} SomeoneMoves(prio: Priorities, ranks: Ranks, s: State, t: nat) returns (u: nat)
    requires Inv(prio, s) && |ranks| == |prio| && AllTidy(ranks, s)
    requires t in s.threads && s.threads[t].stack != []
    ensures Moves(s, u)
    decreases if s.threads[t].stack[Top(s, t)].v < |ranks| then ranks[s.threads[t].stack[Top(s, t)].v] else 0
  {
    hide Inv, Ready, PointerInv;
    TopInRange(prio, s, t);
    var f := s.threads[t].stack[Top(s, t)];
    GlobalOf(prio, s, f.v);
    u := t;
    if f.phase == Spin && s.vars[f.v].flag != 2 {
      AtV(prio, s, t, f.v, Spin);
      var o := s.vars[f.v].owner.value;
      u := o.thread;
      TopInRange(prio, s, u);
      if Served(s.vars, u, s.threads[u].stack[Top(s, u)]) {
        ServedMoves(prio, s, u);
      } else if o.depth < Top(s, u) {
        u := SomeoneMoves(prio, ranks, s, u);
      }
    }
  }

  // ---------------------------------------------------------------------------------------
  // Whole runs
  // ---------------------------------------------------------------------------------------

  lemma ActionTidy(prio: Priorities, ranks: Ranks, s: State, a: Action)
    requires Inv(prio, s) && Ordered(prio, ranks) && AllTidy(ranks, s) && CallDown(ranks, s, a)
    ensures AllTidy(ranks, Apply(prio, s, a))
  {
    hide Inv, Advance, Tidy, BlockFree, MayCall, Ordered, CallDown;
    match a
    case Spawn(block) => EmptyTidy(ranks, s.vars, s.nextThread);
    case Exit(t) =>
    case Step(t, addr) => if t in s.threads && s.threads[t].stack != [] { StepTidy(prio, ranks, s, t, addr); }
    case Call(t, v) =>
      if t in s.threads && v < |prio| && MayCall(s.threads[t].stack) {
        assert |ranks| == |prio| by { OrderedSize(prio, ranks); }
        CallTidy(prio, ranks, s, t, v);
      }
  }

  lemma OrderedSize(prio: Priorities, ranks: Ranks)
    requires Ordered(prio, ranks)
    ensures |ranks| == |prio|
  {
  }

  /** A call goes on top of a call that creates, or of none. */
  lemma CallTidy(prio: Priorities, ranks: Ranks, s: State, t: nat, v: nat)
    requires Inv(prio, s) && |ranks| == |prio| && t in s.threads && v < |prio| && MayCall(s.threads[t].stack)
    requires Tidy(ranks, s.vars, t, s.threads[t].stack) && CallDown(ranks, s, Call(t, v))
    ensures Tidy(ranks, s.vars, t, s.threads[t].stack + [Frame(v, Enter)])
  {
    hide Inv, Ready, StackWork, Down;
    EmptyDown(ranks);
    assert |s.vars| == |prio| by { GlobalsOf(prio, s); }
    TopPushed(ranks, s.threads[t].stack, v);
  }

  lemma GlobalsOf(prio: Priorities, s: State)
    requires Inv(prio, s)
    ensures |s.vars| == |prio|
  {
  }

  /** What a thread may use without waiting stays so. */
  lemma ReadyKept(prio: Priorities, s: State, t: nat, addr: nat, v: nat, u: nat)
    requires Inv(prio, s) && t in s.threads && s.threads[t].stack != [] && v < |s.vars| && Ready(s.vars[v], u)
    ensures var s' := Apply(prio, s, Step(t, addr)); |s'.vars| == |s.vars| && Ready(s'.vars[v], u)
  {
    hide Inv, InCreation, BeforeBuffer, GlobalInv, PointerInv, Resume;
    TopInRange(prio, s, t);
    AtV(prio, s, t, s.threads[t].stack[Top(s, t)].v, s.threads[t].stack[Top(s, t)].phase);
  }

  lemma OtherTidy(prio: Priorities, ranks: Ranks, s: State, t: nat, addr: nat, u: nat)
    requires Inv(prio, s) && t in s.threads && s.threads[t].stack != [] && u in s.threads
    requires Tidy(ranks, s.vars, u, s.threads[u].stack)
    ensures Tidy(ranks, Apply(prio, s, Step(t, addr)).vars, u, s.threads[u].stack)
  {
    hide Inv, Apply, Down, Ready;
    var stack := s.threads[u].stack;
    if stack != [] && Served(s.vars, u, stack[|stack| - 1]) {
      ReadyKept(prio, s, t, addr, stack[|stack| - 1].v, u);
    }
  }

  lemma EmptyTidy(ranks: Ranks, vars: seq<Global>, t: nat)
    ensures Tidy(ranks, vars, t, [])
  {
  }

  lemma EmptyDown(ranks: Ranks)
    ensures Down(ranks, [])
  {
  }

  lemma StepTidy(prio: Priorities, ranks: Ranks, s: State, t: nat, addr: nat)
    requires Inv(prio, s) && Ordered(prio, ranks) && AllTidy(ranks, s) && t in s.threads && s.threads[t].stack != []
    ensures AllTidy(ranks, Apply(prio, s, Step(t, addr)))
  {
    hide Inv, Apply, Tidy, StackWork, Ordered;
    var s' := Apply(prio, s, Step(t, addr));
    if !Moves(s, t) || (addr == 0 && OnTop(s, t, s.threads[t].stack[Top(s, t)].v, Alloc)) {
      StepWaits(prio, s, t, addr);
    } else {
      if addr == 0 {
        AddressUnused(prio, s, t);
      }
      StepShrinks(prio, ranks, s, t, if addr == 0 then 1 else addr);
      forall u | u in s'.threads ensures Tidy(ranks, s'.vars, u, s'.threads[u].stack) {
        if u != t { OtherTidy(prio, ranks, s, t, addr, u); }
      }
    }
  }

  lemma AddressUnused(prio: Priorities, s: State, t: nat)
    requires Inv(prio, s) && Moves(s, t) && s.threads[t].stack[Top(s, t)].phase != Alloc
    ensures Apply(prio, s, Step(t, 0)) == Apply(prio, s, Step(t, 1))
  {
    hide Inv, Goto, Pop, Push, InCreation;
  }

  /** A thread that does not move, or to which no memory is given, changes nothing. */
  lemma StepWaits(prio: Priorities, s: State, t: nat, addr: nat)
    requires Inv(prio, s) && t in s.threads && s.threads[t].stack != []
    requires !Moves(s, t) || (addr == 0 && s.threads[t].stack[Top(s, t)].phase == Alloc)
    ensures Apply(prio, s, Step(t, addr)) == s
  {
    hide Inv, Goto, Pop, Push, InCreation;
    TopInRange(prio, s, t);
    AtV(prio, s, t, s.threads[t].stack[Top(s, t)].v, s.threads[t].stack[Top(s, t)].phase);
  }

  lemma {:induction false} RunTidy(prio: Priorities, ranks: Ranks, actions: seq<Action>)
    requires Ordered(prio, ranks) && CallsDown(prio, ranks, actions)
    ensures AllTidy(ranks, Run(prio, actions))
  {
    hide Inv, Down, Apply, CallDown;
    if actions != [] {
      RunTidy(prio, ranks, actions[..|actions| - 1]);
      ActionTidy(prio, ranks, Run(prio, actions[..|actions| - 1]), actions[|actions| - 1]);
    }
  }

  ghost predicate Idle(s: State) {
    forall t :: t in s.threads ==> s.threads[t].stack == []
  }

  lemma Longer(prio: Priorities, ranks: Ranks, actions: seq<Action>, a: Action)
    requires WellFormed(prio)
    ensures Run(prio, actions + [a]) == Apply(prio, Run(prio, actions), a)
    ensures CallsDown(prio, ranks, actions) && !a.Call? ==> CallsDown(prio, ranks, actions + [a])
  {
    hide Inv, Apply;
    assert (actions + [a])[..|actions|] == actions;
  }

  /** Along an order there is no deadlock: as long as any call is under way, some thread moves. */
  lemma NeverStuck(prio: Priorities, ranks: Ranks, actions: seq<Action>)
    requires Ordered(prio, ranks) && CallsDown(prio, ranks, actions)
    ensures Idle(Run(prio, actions)) <==> !exists t :: Moves(Run(prio, actions), t)
  {
    hide Inv, CallsDown, Run, AllTidy;
    var s := Run(prio, actions);
    RunTidy(prio, ranks, actions);
    if !Idle(s) {
      var t :| t in s.threads && s.threads[t].stack != [];
      var u := SomeoneMoves(prio, ranks, s, t);
    }
  }

  /** Every step of a thread that moves takes work away, whoever is chosen, order or not. */
  lemma MoveShrinks(prio: Priorities, actions: seq<Action>, t: nat, addr: nat)
    requires WellFormed(prio) && Moves(Run(prio, actions), t) && addr != 0
    ensures AllWork(Run(prio, actions + [Step(t, addr)])) < AllWork(Run(prio, actions))
  {
    hide Inv, WellFormed, Run, Apply, StackWork, Unbegun, Work;
    var s := Run(prio, actions);
    Longer(prio, [], actions, Step(t, addr));
    StepShrinks(prio, [], s, t, addr);
    ThreadOf(prio, s, t);
    WorkOfOther(s.threads, t, Run(prio, actions + [Step(t, addr)]).threads[t], s.nextThread);
  }

  /** Every one of these actions is a step of a thread that moves. */
  ghost predicate AllMove(prio: Priorities, actions: seq<Action>, more: seq<Action>)
    requires WellFormed(prio)
    decreases |more|
  {
    more != [] ==>
      && more[0].Step? && more[0].addr != 0 && Moves(Run(prio, actions), more[0].t)
      && AllMove(prio, actions + [more[0]], more[1..])
  }

  /** So all calls come to an end, in no more steps than there was work left. */
  lemma {:induction false} AllReturn(prio: Priorities, ranks: Ranks, actions: seq<Action>) returns (more: seq<Action>)
    requires Ordered(prio, ranks) && CallsDown(prio, ranks, actions)
    ensures Idle(Run(prio, actions + more))
    ensures AllMove(prio, actions, more)
    ensures |more| <= AllWork(Run(prio, actions))
    decreases AllWork(Run(prio, actions))
  {
    hide Inv, WellFormed, CallsDown, Run, Moves, AllWork;
    NeverStuck(prio, ranks, actions);
    assert actions + [] == actions;
    more := [];
    if !Idle(Run(prio, actions)) {
      var t :| Moves(Run(prio, actions), t);
      MoveShrinks(prio, actions, t, 1);
      Longer(prio, ranks, actions, Step(t, 1));
      var rest := AllReturn(prio, ranks, actions + [Step(t, 1)]);
      more := [Step(t, 1)] + rest;
      assert actions + more == actions + [Step(t, 1)] + rest && more[1..] == rest;
    }
  }

  /** No scheduler can put the end off: in whatever order the threads move, and whatever variables
      use each other, there are no more moves than there was work left. */
  lemma {:induction false} MovesBounded(prio: Priorities, actions: seq<Action>, more: seq<Action>)
    requires WellFormed(prio) && AllMove(prio, actions, more)
    ensures |more| + AllWork(Run(prio, actions + more)) <= AllWork(Run(prio, actions))
    decreases |more|
  {
    hide Inv, WellFormed, Run, Moves, AllWork;
    if more == [] {
      assert actions + more == actions;
    } else {
      var first, rest := more[0], more[1..];
      MoveShrinks(prio, actions, first.t, first.addr);
      MovesBounded(prio, actions + [first], rest);
      assert actions + more == actions + [first] + rest;
    }
  }

  // ---------------------------------------------------------------------------------------
  // Destruction along an order
  // ---------------------------------------------------------------------------------------

  /** A call that registers is not made from within the creation of its priority variable. */
  lemma RegistersOutside(prio: Priorities, ranks: Ranks, s: State, t: nat, v: nat)
    requires Inv(prio, s) && Ordered(prio, ranks) && AllTidy(ranks, s) && OnTop(s, t, v, Register)
    ensures v < |prio| && (prio[v].Some? ==> !InCreation(s.threads[t].stack, prio[v].value))
  {
    hide Inv, Ready;
    TopInRange(prio, s, t);
    assert Down(ranks, s.threads[t].stack);
  }

  lemma ActionRegisters(prio: Priorities, ranks: Ranks, s: State, a: Action)
    requires Inv(prio, s) && Ordered(prio, ranks) && AllTidy(ranks, s)
    ensures var r, r' := s.registered, Apply(prio, s, a).registered;
            r' == r || (r' != [] && r' == r + [r'[|r'| - 1]] && !r'[|r'| - 1].reentered)
  {
    hide Inv, Ready, InCreation, AllTidy, Ordered, BeforeBuffer;
    if a.Step? && a.t in s.threads && s.threads[a.t].stack != [] {
      TopInRange(prio, s, a.t);
      var f := s.threads[a.t].stack[Top(s, a.t)];
      if f.phase == Register { RegistersOutside(prio, ranks, s, a.t, f.v); }
    }
  }

  /** If constructors use variables along an order, no variable is registered from within the
      creation of its priority variable. */
  lemma {:induction false} NeverReentered(prio: Priorities, ranks: Ranks, actions: seq<Action>, k: nat)
    requires Ordered(prio, ranks) && CallsDown(prio, ranks, actions) && k < |Run(prio, actions).registered|
    ensures !Run(prio, actions).registered[k].reentered
  {
    hide Inv, WellFormed, AllTidy, Apply, CallDown;
    if actions != [] {
      var front := actions[..|actions| - 1];
      RunTidy(prio, ranks, front);
      ActionRegisters(prio, ranks, Run(prio, front), actions[|actions| - 1]);
      if k < |Run(prio, front).registered| { NeverReentered(prio, ranks, front, k); }
    }
  }

  /** So every variable is registered behind its priority variable, and destructed before it. */
  lemma DependentsFirst(prio: Priorities, ranks: Ranks, actions: seq<Action>, k: nat) returns (j: nat)
    requires Ordered(prio, ranks) && CallsDown(prio, ranks, actions) && k < |Run(prio, actions).registered|
    requires var v := Run(prio, actions).registered[k].v; v < |prio| && prio[v].Some?
    ensures var r := Run(prio, actions).registered;
            var d, n := Reversed(r), |r| - 1;
            && j < k && r[j].v == prio[r[k].v].value
            && d[n - k] == r[k].v && d[n - j] == r[j].v && n - k < n - j
  {
    hide Inv, Run, CallsDown, Times, Reversed;
    NeverReentered(prio, ranks, actions, k);
    PriorityFirst(prio, actions, k);
    var r := Run(prio, actions).registered;
    j :| 0 <= j < k && r[j].v == prio[r[k].v].value;
    ReversedAt(r, k);
    ReversedAt(r, j);
  }
}
