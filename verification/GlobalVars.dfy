/** Global variables that are created on first use: any number of threads run `get()` in atomic
    steps, in any order. */
module GlobalVars {
  import opened Common

  /** Where a call of `get()` stands: the action that comes next. */
  datatype Phase =
    | Enter          // read the thread's own pointer
    | LoadMark       // compare the address of that pointer with the mark
    | TakeBuffer     // they are equal: take the buffer
    | LoadFlag       // read the flag
    | Cas            // flag was 0: try to set it to 1
    | StoreMark      // succeeded: leave the mark
    | InitPriority   // call `get()` of the priority variable, if there is one
    | AwaitPriority  // that call is on the stack above
    | Alloc          // allocate the buffer
    | SetPtr         // set the own pointer and start the constructor
    | Construct      // the constructor runs, and may call `get()` of any variable
    | Register       // register for destruction
    | StoreFlag      // set the flag to 2
    | Spin           // wait for the flag to become 2
    | Fetch          // set the own pointer
    | Return         // return the own pointer
  {
    /** Progress of the call that creates the variable; 0 for all other calls. */
    function Rank(): nat {
      match this
      case StoreMark => 1
      case InitPriority => 2
      case AwaitPriority => 3
      case Alloc => 4
      case SetPtr => 5
      case Construct => 6
      case Register => 7
      case StoreFlag => 8
      case _ => 0
    }
  }

  datatype Frame = Frame(v: nat, phase: Phase)

  /** A thread: the address of its thread-local block, its pointers (0 is null), and its calls. */
  datatype Thread = Thread(block: nat, tls: seq<nat>, stack: seq<Frame>)

  /** The call that has set the flag to 1: its thread and its place on the stack. */
  datatype Owner = Owner(thread: nat, depth: nat)

  /** 0: not created; 1: somebody creates it; 2: created. */
  type Flag = n: nat | n <= 2

  /** The shared state of one variable. `owner` and `built` only record what has happened. */
  datatype Global = Global(flag: Flag, mark: Option<nat>, buffer: nat, owner: Option<Owner>, built: nat)

  /** A registered variable; whether its priority variable was then still under construction by
      the same thread. */
  datatype Entry = Entry(v: nat, reentered: bool)

  /** A finished call: its result, the flag at that time, and whether it came from within the
      creation of the priority variable. */
  datatype Returned = Returned(thread: nat, v: nat, value: nat, flag: nat, early: bool)

  datatype State = State(
    vars: seq<Global>, threads: map<nat, Thread>, nextThread: nat,
    registered: seq<Entry>, returned: seq<Returned>)

  /** What may happen next; an action that is not possible does nothing. */
  datatype Action =
    | Spawn(block: nat)
    | Call(t: nat, v: nat)
    | Step(t: nat, addr: nat)
    | Exit(t: nat)

  /** The priority variable of every variable. */
  type Priorities = seq<Option<nat>>

  predicate WellFormed(prio: Priorities) {
    forall v :: 0 <= v < |prio| && prio[v].Some? ==> prio[v].value < |prio|
  }

  // ---------------------------------------------------------------------------------------
  // Steps
  // ---------------------------------------------------------------------------------------

  predicate BlockFree(s: State, block: nat) {
    forall t :: t in s.threads ==> s.threads[t].block != block
  }

  /** A thread inside of a constructor, or in no call at all, may call. */
  predicate MayCall(stack: seq<Frame>) {
    stack == [] || stack[|stack| - 1].phase == Construct
  }

  predicate InCreation(stack: seq<Frame>, v: nat) {
    exists i :: 0 <= i < |stack| && stack[i].v == v && stack[i].phase.Rank() > 0
  }

  predicate BeforeBuffer(stack: seq<Frame>, v: nat) {
    exists i :: 0 <= i < |stack| && stack[i] == Frame(v, AwaitPriority)
  }

  /** The stack below a call that returns: a call that waited for it goes on. */
  function Resume(below: seq<Frame>): (r: seq<Frame>)
    ensures |r| == |below|
  {
    if below == [] then []
    else
      var top := below[|below| - 1];
      below[..|below| - 1] + [if top.phase == AwaitPriority then Frame(top.v, Alloc) else top]
  }

  /** The shared variable and the pointer of the thread change, and its call goes on. */
  function Goto(s: State, t: nat, v: nat, g: Global, ptr: nat, phase: Phase): State
    requires t in s.threads && v < |s.vars| && v < |s.threads[t].tls| && s.threads[t].stack != []
  {
    var th := s.threads[t];
    s.(vars := s.vars[v := g],
       threads := s.threads[t := th.(tls := th.tls[v := ptr], stack := th.stack[|th.stack| - 1 := Frame(v, phase)])])
  }

  /** The call returns. */
  function Pop(s: State, t: nat, v: nat, ptr: nat, value: nat): State
    requires t in s.threads && v < |s.vars| && v < |s.threads[t].tls| && s.threads[t].stack != []
  {
    var th := s.threads[t];
    var below := th.stack[..|th.stack| - 1];
    s.(threads := s.threads[t := th.(tls := th.tls[v := ptr], stack := Resume(below))],
       returned := s.returned + [Returned(t, v, value, s.vars[v].flag, BeforeBuffer(below, v))])
  }

  /** The call of a thread that is in progress takes its next step. */
  function Advance(prio: Priorities, s: State, t: nat, addr: nat): State
    requires |s.vars| == |prio| && t in s.threads && s.threads[t].stack != []
    requires s.threads[t].stack[|s.threads[t].stack| - 1].v < |prio| == |s.threads[t].tls|
  {
    var th := s.threads[t];
    var top := |th.stack| - 1;
    var v := th.stack[top].v;
    var g, ptr := s.vars[v], th.tls[v];
    match th.stack[top].phase
    case Enter => if ptr != 0 then Pop(s, t, v, ptr, ptr) else Goto(s, t, v, g, ptr, LoadMark)
    case LoadMark => Goto(s, t, v, g, ptr, if g.mark == Some(th.block) then TakeBuffer else LoadFlag)
    case TakeBuffer => Pop(s, t, v, g.buffer, g.buffer)
    case LoadFlag => Goto(s, t, v, g, ptr, if g.flag == 0 then Cas else Spin)
    case Cas =>
      if g.flag == 0 then Goto(s, t, v, g.(flag := 1, owner := Some(Owner(t, top))), ptr, StoreMark)
      else Goto(s, t, v, g, ptr, Spin)
    case StoreMark => Goto(s, t, v, g.(mark := Some(th.block)), ptr, InitPriority)
    case InitPriority =>
      if prio[v].None? then Goto(s, t, v, g, ptr, Alloc)
      else Push(Goto(s, t, v, g, ptr, AwaitPriority), t, prio[v].value)
    case AwaitPriority => s
    case Alloc => if addr == 0 then s else Goto(s, t, v, g.(buffer := addr), ptr, SetPtr)
    case SetPtr => Goto(s, t, v, g.(built := g.built + 1), g.buffer, Construct)
    case Construct => Goto(s, t, v, g, ptr, Register)
    case Register =>
      var reentered := prio[v].Some? && InCreation(th.stack, prio[v].value);
      Goto(s, t, v, g, ptr, StoreFlag).(registered := s.registered + [Entry(v, reentered)])
    case StoreFlag => Goto(s, t, v, g.(flag := 2), ptr, Return)
    case Spin => if g.flag == 2 then Goto(s, t, v, g, ptr, Fetch) else s
    case Fetch => Goto(s, t, v, g, g.buffer, Return)
    case Return => Pop(s, t, v, ptr, ptr)
  }

  /** A new call. */
  function Push(s: State, t: nat, v: nat): State
    requires t in s.threads
  {
    var th := s.threads[t];
    s.(threads := s.threads[t := th.(stack := th.stack + [Frame(v, Enter)])])
  }

  function Apply(prio: Priorities, s: State, a: Action): State
    requires Inv(prio, s)
  {
    match a
    case Spawn(block) =>
      if !BlockFree(s, block) then s
      else s.(threads := s.threads[s.nextThread := Thread(block, seq(|prio|, _ => 0), [])],
              nextThread := s.nextThread + 1)
    case Call(t, v) =>
      if t !in s.threads || v >= |prio| || !MayCall(s.threads[t].stack) then s else Push(s, t, v)
    case Step(t, addr) =>
      if t !in s.threads || s.threads[t].stack == [] then s
      else
        TopInRange(prio, s, t);
        Advance(prio, s, t, addr)
    case Exit(t) =>
      if t !in s.threads || s.threads[t].stack != [] then s else s.(threads := s.threads - {t})
  }

  function Initial(prio: Priorities): State {
    State(seq(|prio|, _ => Global(0, None, 0, None, 0)), map[], 0, [], [])
  }

  // ---------------------------------------------------------------------------------------
  // The invariant
  // ---------------------------------------------------------------------------------------

  /** How often a variable is registered. */
  function Times(r: seq<Entry>, v: nat): nat {
    if r == [] then 0 else Times(r[..|r| - 1], v) + if r[|r| - 1].v == v then 1 else 0
  }

  /** The variable is created, or the thread is creating it. */
  ghost predicate Ready(g: Global, t: nat) {
    g.flag == 2 || (g.flag == 1 && g.owner.Some? && g.owner.value.thread == t)
  }

  ghost predicate Unused(g: Global) {
    g.owner.None? && g.mark.None? && g.buffer == 0 && g.built == 0
  }

  /** While a variable is created, its state follows the progress of the owner's call. */
  ghost predicate InProgress(g: Global, times: nat, rank: nat, block: nat, ptr: nat) {
    && rank > 0
    && g.mark == (if rank == 1 then None else Some(block))
    && (g.buffer != 0 <==> rank >= 5)
    && g.built == (if rank >= 6 then 1 else 0)
    && times == (if rank == 8 then 1 else 0)
    && (rank >= 6 ==> ptr == g.buffer)
  }

  ghost predicate Finished(g: Global) {
    g.owner.Some? && g.buffer != 0 && g.built == 1
  }

  /** The mark is the address of the thread that has created the variable, or had before it ended. */
  ghost predicate Marked(g: Global, threads: map<nat, Thread>, nextThread: nat) {
    && g.owner.Some? && g.mark.Some?
    && var t := g.owner.value.thread;
       t < nextThread && (t in threads ==> g.mark == Some(threads[t].block))
  }

  /** The owner is a call on the stack of a thread. */
  ghost predicate OwnerAt(s: State, v: nat, o: Owner) {
    && o.thread in s.threads
    && o.depth < |s.threads[o.thread].stack|
    && s.threads[o.thread].stack[o.depth].v == v
    && v < |s.threads[o.thread].tls|
  }

  ghost predicate GlobalInv(s: State, v: nat)
    requires v < |s.vars|
  {
    var g, times := s.vars[v], Times(s.registered, v);
    if g.flag == 0 then Unused(g) && times == 0
    else if g.flag == 1 then
      && g.owner.Some?
      && OwnerAt(s, v, g.owner.value)
      && var th := s.threads[g.owner.value.thread];
         InProgress(g, times, th.stack[g.owner.value.depth].phase.Rank(), th.block, th.tls[v])
    else g.flag == 2 && Finished(g) && times == 1 && Marked(g, s.threads, s.nextThread)
  }

  /** A pointer of a thread is null, or it is the buffer. */
  ghost predicate PointerInv(g: Global, t: nat, ptr: nat) {
    ptr == 0 || (ptr == g.buffer && Ready(g, t))
  }

  /** A call, at place `i` of `n` on the stack. */
  ghost predicate FrameInv(prio: Priorities, vars: seq<Global>, t: nat, i: nat, f: Frame, n: nat)
    requires |vars| == |prio|
  {
    && f.v < |prio|
    && (f.phase.Rank() > 0 ==> vars[f.v].flag == 1 && vars[f.v].owner == Some(Owner(t, i)))
    && (i < n - 1 ==> f.phase == AwaitPriority || f.phase == Construct)
    && (i == n - 1 ==> f.phase != AwaitPriority)
    && (f.phase == AwaitPriority ==> prio[f.v].Some?)
    && (f.phase.Rank() >= 4 && prio[f.v].Some? ==> prio[f.v].value < |prio| && Ready(vars[prio[f.v].value], t))
    && (f.phase.TakeBuffer? ==> Ready(vars[f.v], t))
    && (f.phase.LoadFlag? || f.phase.Cas? || f.phase.Spin? ==> vars[f.v].flag == 1 ==> !Ready(vars[f.v], t))
    && (f.phase.Spin? ==> vars[f.v].flag != 0)
    && (f.phase.Fetch? || f.phase.Return? ==> vars[f.v].flag == 2)
  }

  ghost predicate ThreadInv(prio: Priorities, s: State, t: nat, th: Thread)
    requires |s.vars| == |prio|
  {
    && |th.tls| == |prio|
    && (forall v :: 0 <= v < |prio| ==> PointerInv(s.vars[v], t, th.tls[v]))
    && (forall i :: 0 <= i < |th.stack| ==> FrameInv(prio, s.vars, t, i, th.stack[i], |th.stack|))
    && (forall i :: 0 <= i < |th.stack| - 1 && th.stack[i].phase == AwaitPriority ==>
          prio[th.stack[i].v] == Some(th.stack[i + 1].v))
    && (|th.stack| > 0 && th.stack[|th.stack| - 1].phase.Return? ==>
          th.tls[th.stack[|th.stack| - 1].v] == s.vars[th.stack[|th.stack| - 1].v].buffer)
  }

  ghost predicate BlocksDistinct(s: State) {
    forall t, u :: t in s.threads && u in s.threads && t != u ==> s.threads[t].block != s.threads[u].block
  }

  /** A finished call returned the buffer, or null if it came too early. */
  ghost predicate ReturnedInv(g: Global, r: Returned) {
    && (r.value == 0 <==> r.early)
    && (r.value != 0 ==> r.value == g.buffer && g.built == 1)
    && g.owner.Some?
    && (r.flag == 2 || g.owner.value.thread == r.thread)
  }

  /** A variable was registered behind its priority variable, unless it was reached from there. */
  ghost predicate EntryInv(prio: Priorities, r: seq<Entry>, k: nat)
    requires k < |r|
  {
    && r[k].v < |prio|
    && (prio[r[k].v].None? ==> !r[k].reentered)
    && (prio[r[k].v].Some? ==> (r[k].reentered <==> Times(r[..k], prio[r[k].v].value) == 0))
  }

  ghost predicate Inv(prio: Priorities, s: State) {
    && WellFormed(prio)
    && |s.vars| == |prio|
    && (forall v :: 0 <= v < |prio| ==> GlobalInv(s, v))
    && (forall t :: t in s.threads ==> t < s.nextThread && ThreadInv(prio, s, t, s.threads[t]))
    && BlocksDistinct(s)
    && (forall k :: 0 <= k < |s.registered| ==> EntryInv(prio, s.registered, k))
    && (forall k :: 0 <= k < |s.returned| ==>
          && s.returned[k].v < |prio|
          && ReturnedInv(s.vars[s.returned[k].v], s.returned[k]))
  }

  lemma TopInRange(prio: Priorities, s: State, t: nat)
    requires Inv(prio, s) && t in s.threads && s.threads[t].stack != []
    ensures s.threads[t].stack[|s.threads[t].stack| - 1].v < |prio| == |s.threads[t].tls|
  {
    var th := s.threads[t];
    assert ThreadInv(prio, s, t, th);
    assert FrameInv(prio, s.vars, t, |th.stack| - 1, th.stack[|th.stack| - 1], |th.stack|);
  }

  // ---------------------------------------------------------------------------------------
  // What a step of one thread leaves alone
  // ---------------------------------------------------------------------------------------

  /** How a variable changes when the call at place `i` of thread `t` takes a step. */
  ghost predicate Evolves(g: Global, g': Global, t: nat, i: nat) {
    && (g.flag == 2 ==> g' == g)
    && (g.flag == 1 ==>
          && (g'.flag == 1 || g'.flag == 2) && g'.owner == g.owner
          && (g' != g ==> g.owner == Some(Owner(t, i))))
    && (g.flag == 0 ==> g' == g || (g'.flag == 1 && g'.owner == Some(Owner(t, i))))
    && (g.buffer != 0 ==> g'.buffer == g.buffer)
    && (g.built == 1 ==> g'.built == 1)
    && (g.owner.Some? ==> g'.owner == g.owner)
  }

  /** Calls of other variables stay on the stack; waiting may end. */
  ghost predicate KeepsCalls(stack: seq<Frame>, stack': seq<Frame>, v: nat) {
    forall i :: 0 <= i < |stack| && stack[i].v != v && stack[i].phase.Rank() > 0 ==>
      && i < |stack'|
      && (stack'[i] == stack[i] || (stack[i].phase == AwaitPriority && stack'[i] == Frame(stack[i].v, Alloc)))
  }

  lemma ReadyStays(g: Global, g': Global, t: nat, i: nat, u: nat)
    requires Evolves(g, g', t, i)
    ensures Ready(g, u) ==> Ready(g', u)
    ensures u != t && (g.flag == 1 ==> !Ready(g, u)) ==> (g'.flag == 1 ==> !Ready(g', u))
  {
  }

  /** The part of a state that belongs to one step of the call at place `i` of thread `t`. */
  ghost predicate Touches(s: State, s': State, t: nat, i: nat, v: nat) {
    && t in s.threads && t in s'.threads && v < |s.vars| && v < |s'.vars|
    && s'.vars == s.vars[v := s'.vars[v]]
    && s'.threads == s.threads[t := s'.threads[t]]
    && s'.threads[t].block == s.threads[t].block
    && v < |s.threads[t].tls| && v < |s'.threads[t].tls|
    && s'.threads[t].tls == s.threads[t].tls[v := s'.threads[t].tls[v]]
    && s'.nextThread == s.nextThread
    && Evolves(s.vars[v], s'.vars[v], t, i)
    && KeepsCalls(s.threads[t].stack, s'.threads[t].stack, v)
    && (forall w :: 0 <= w < |s.vars| && w != v ==> Times(s'.registered, w) == Times(s.registered, w))
  }

  lemma GlobalOf(prio: Priorities, s: State, v: nat)
    requires Inv(prio, s) && v < |prio|
    ensures |s.vars| == |prio| && GlobalInv(s, v)
  {
  }

  lemma ThreadOf(prio: Priorities, s: State, t: nat)
    requires Inv(prio, s) && t in s.threads
    ensures |s.vars| == |prio| && t < s.nextThread && ThreadInv(prio, s, t, s.threads[t])
  {
  }

  lemma OtherGlobal(prio: Priorities, s: State, s': State, t: nat, i: nat, v: nat, w: nat)
    requires Inv(prio, s) && Touches(s, s', t, i, v) && w < |prio| && w != v
    ensures GlobalInv(s', w)
  {
    hide Inv, Evolves, Times;
    GlobalOf(prio, s, w);
    var g := s.vars[w];
    if g.flag == 1 {
      var o := g.owner.value;
      if o.thread == t {
        assert s'.threads[t].tls[w] == s.threads[t].tls[w];
      }
    }
  }

  lemma OtherFrame(prio: Priorities, s: State, s': State, t: nat, i: nat, v: nat, u: nat, k: nat)
    requires Inv(prio, s) && Touches(s, s', t, i, v) && u in s.threads && u != t
    requires k < |s.threads[u].stack|
    ensures FrameInv(prio, s'.vars, u, k, s.threads[u].stack[k], |s.threads[u].stack|)
  {
    hide KeepsCalls, Times, GlobalInv, Ready;
    var th := s.threads[u];
    var f := th.stack[k];
    assert ThreadInv(prio, s, u, th);
    assert FrameInv(prio, s.vars, u, k, f, |th.stack|);
    ReadyStays(s.vars[v], s'.vars[v], t, i, u);
  }

  lemma OtherThread(prio: Priorities, s: State, s': State, t: nat, i: nat, v: nat, u: nat)
    requires Inv(prio, s) && Touches(s, s', t, i, v) && u in s.threads && u != t
    ensures ThreadInv(prio, s', u, s'.threads[u])
  {
    hide Inv, KeepsCalls, Times, GlobalInv, FrameInv, PointerInv, Evolves;
    var th := s.threads[u];
    ThreadOf(prio, s, u);
    forall w | 0 <= w < |prio| ensures PointerInv(s'.vars[w], u, th.tls[w]) {
      OtherPointer(s.vars[v], s'.vars[v], t, i, u, th.tls[w]);
    }
    forall k | 0 <= k < |th.stack| ensures FrameInv(prio, s'.vars, u, k, th.stack[k], |th.stack|) {
      OtherFrame(prio, s, s', t, i, v, u, k);
    }
    if th.stack != [] && th.stack[|th.stack| - 1].phase.Return? {
      AtV(prio, s, u, th.stack[|th.stack| - 1].v, Return);
      Settled(s.vars[v], s'.vars[v], t, i);
    }
  }

  lemma OtherPointer(g: Global, g': Global, t: nat, i: nat, u: nat, ptr: nat)
    requires Evolves(g, g', t, i)
    ensures PointerInv(g, u, ptr) ==> PointerInv(g', u, ptr)
  {
  }

  lemma Settled(g: Global, g': Global, t: nat, i: nat)
    requires Evolves(g, g', t, i)
    ensures g.flag == 2 ==> g' == g
  {
  }

  lemma BlocksStay(prio: Priorities, s: State, s': State, t: nat, i: nat, v: nat)
    requires Inv(prio, s) && Touches(s, s', t, i, v)
    ensures BlocksDistinct(s')
  {
    hide Evolves, KeepsCalls, Times, GlobalInv, ThreadInv;
    forall a, b | a in s'.threads && b in s'.threads && a != b ensures s'.threads[a].block != s'.threads[b].block {
      assert s.threads[a].block != s.threads[b].block;
    }
  }

  /** It is enough to look at the variable and the thread that the step is about. */
  lemma StepKeeps(prio: Priorities, s: State, s': State, t: nat, i: nat, v: nat)
    requires Inv(prio, s) && Touches(s, s', t, i, v)
    requires GlobalInv(s', v) && ThreadInv(prio, s', t, s'.threads[t])
    requires forall k :: 0 <= k < |s'.registered| ==> EntryInv(prio, s'.registered, k)
    requires s'.returned == s.returned
          || exists r :: s'.returned == s.returned + [r] && r.v == v && ReturnedInv(s'.vars[v], r)
    ensures Inv(prio, s')
  {
    hide Times, GlobalInv, ThreadInv, EntryInv, KeepsCalls;
    BlocksStay(prio, s, s', t, i, v);
    forall w | 0 <= w < |prio| ensures GlobalInv(s', w) {
      if w != v { OtherGlobal(prio, s, s', t, i, v, w); }
    }
    forall u | u in s'.threads ensures u < s'.nextThread && ThreadInv(prio, s', u, s'.threads[u]) {
      if u != t { OtherThread(prio, s, s', t, i, v, u); }
    }
    forall k | 0 <= k < |s'.returned|
      ensures s'.returned[k].v < |prio| && ReturnedInv(s'.vars[s'.returned[k].v], s'.returned[k])
    {
      if k < |s.returned| {
        assert s'.returned[k] == s.returned[k];
      }
    }
  }

  // ---------------------------------------------------------------------------------------
  // The stack of the thread itself
  // ---------------------------------------------------------------------------------------

  lemma OwnFrame(prio: Priorities, s: State, t: nat, k: nat)
    requires Inv(prio, s) && t in s.threads && k < |s.threads[t].stack|
    ensures |s.threads[t].tls| == |prio|
    ensures FrameInv(prio, s.vars, t, k, s.threads[t].stack[k], |s.threads[t].stack|)
  {
    assert ThreadInv(prio, s, t, s.threads[t]);
  }

  /** A waiting call below the one that takes a step. */
  lemma LowerFrame(prio: Priorities, s: State, s': State, t: nat, i: nat, v: nat, k: nat, n: nat)
    requires Inv(prio, s) && Touches(s, s', t, i, v) && i == |s.threads[t].stack| - 1 && k < i && k + 1 < n
    ensures FrameInv(prio, s'.vars, t, k, s.threads[t].stack[k], n)
  {
    hide KeepsCalls, Times, GlobalInv, Ready;
    OwnFrame(prio, s, t, k);
    ReadyStays(s.vars[v], s'.vars[v], t, i, t);
  }

  lemma OwnPointers(prio: Priorities, s: State, s': State, t: nat, i: nat, v: nat)
    requires Inv(prio, s) && Touches(s, s', t, i, v)
    requires PointerInv(s'.vars[v], t, s'.threads[t].tls[v])
    ensures |s'.threads[t].tls| == |prio|
    ensures forall w :: 0 <= w < |prio| ==> PointerInv(s'.vars[w], t, s'.threads[t].tls[w])
  {
    hide KeepsCalls, Times, GlobalInv, PointerInv, FrameInv;
    assert ThreadInv(prio, s, t, s.threads[t]);
    forall w | 0 <= w < |prio| ensures PointerInv(s'.vars[w], t, s'.threads[t].tls[w]) {
      assert w != v ==> PointerInv(s.vars[w], t, s.threads[t].tls[w]);
    }
  }

  /** The call on top of the stack goes on. */
  lemma TopGoesOn(prio: Priorities, s: State, s': State, t: nat, i: nat, v: nat, f: Frame)
    requires Inv(prio, s) && Touches(s, s', t, i, v) && i == |s.threads[t].stack| - 1 && s.threads[t].stack[i].v == v
    requires f.v == v && s'.threads[t].stack == s.threads[t].stack[i := f]
    requires FrameInv(prio, s'.vars, t, i, f, i + 1) && PointerInv(s'.vars[v], t, s'.threads[t].tls[v])
    requires f.phase.Return? ==> s'.threads[t].tls[v] == s'.vars[v].buffer
    ensures ThreadInv(prio, s', t, s'.threads[t])
  {
    hide KeepsCalls, Times, GlobalInv, PointerInv, FrameInv, Evolves;
    assert ThreadInv(prio, s, t, s.threads[t]);
    OwnPointers(prio, s, s', t, i, v);
    var stack, stack' := s.threads[t].stack, s'.threads[t].stack;
    forall k | 0 <= k <= i ensures FrameInv(prio, s'.vars, t, k, stack'[k], i + 1) {
      if k < i { LowerFrame(prio, s, s', t, i, v, k, i + 1); }
    }
    LowerPhases(prio, s, t);
  }

  /** Calls below the top wait for a priority variable, or construct. */
  lemma LowerPhases(prio: Priorities, s: State, t: nat)
    requires Inv(prio, s) && t in s.threads
    ensures var stack := s.threads[t].stack;
            forall k :: 0 <= k < |stack| - 1 ==>
              && (stack[k].phase == AwaitPriority || stack[k].phase == Construct)
              && (stack[k].phase == AwaitPriority ==> stack[k].v < |prio| && prio[stack[k].v] == Some(stack[k + 1].v))
  {
    var stack := s.threads[t].stack;
    assert ThreadInv(prio, s, t, s.threads[t]);
    assert forall k :: 0 <= k < |stack| - 1 ==> FrameInv(prio, s.vars, t, k, stack[k], |stack|);
  }

  /** The call on top of the stack returns; the variable is there for the thread. */
  lemma TopReturns(prio: Priorities, s: State, s': State, t: nat, i: nat, v: nat)
    requires Inv(prio, s) && Touches(s, s', t, i, v) && i == |s.threads[t].stack| - 1 && s.threads[t].stack[i].v == v
    requires s'.threads[t].stack == Resume(s.threads[t].stack[..i])
    requires PointerInv(s'.vars[v], t, s'.threads[t].tls[v]) && Ready(s'.vars[v], t)
    ensures ThreadInv(prio, s', t, s'.threads[t])
  {
    hide Inv, KeepsCalls, Times, GlobalInv, PointerInv, Evolves, Ready, FrameInv;
    ThreadOf(prio, s, t);
    OwnPointers(prio, s, s', t, i, v);
    LowerPhases(prio, s, t);
    var stack, stack' := s.threads[t].stack, s'.threads[t].stack;
    forall k | 0 <= k < i ensures FrameInv(prio, s'.vars, t, k, stack'[k], i) {
      LowerFrame(prio, s, s', t, i, v, k, k + 2);
      LowerFrame(prio, s, s', t, i, v, k, i + 1);
      if k == i - 1 { Resumed(prio, s'.vars, t, k, stack[k], v); } else { Deeper(prio, s'.vars, t, k, stack[k], i); }
    }
  }

  lemma Deeper(prio: Priorities, vars: seq<Global>, t: nat, k: nat, f: Frame, i: nat)
    requires |vars| == |prio| && k < i - 1 && FrameInv(prio, vars, t, k, f, i + 1)
    ensures FrameInv(prio, vars, t, k, f, i)
  {
  }

  /** The call that waited goes on when its priority variable is there. */
  lemma Resumed(prio: Priorities, vars: seq<Global>, t: nat, k: nat, f: Frame, v: nat)
    requires |vars| == |prio| && v < |prio| && FrameInv(prio, vars, t, k, f, k + 2) && Ready(vars[v], t)
    requires f.phase == AwaitPriority ==> f.v < |prio| && prio[f.v] == Some(v)
    ensures FrameInv(prio, vars, t, k, if f.phase == AwaitPriority then Frame(f.v, Alloc) else f, k + 1)
  {
    hide Ready;
  }

  /** A call is put on a stack whose calls may be waited on. */
  lemma TopCalls(prio: Priorities, s: State, s': State, t: nat, i: nat, v: nat, f: Frame, w: nat)
    requires Inv(prio, s) && Touches(s, s', t, i, v) && i == |s.threads[t].stack| - 1 && s.threads[t].stack[i].v == v
    requires f.v == v && s'.threads[t].stack == s.threads[t].stack[i := f] + [Frame(w, Enter)] && w < |prio|
    requires FrameInv(prio, s'.vars, t, i, f, i + 2) && PointerInv(s'.vars[v], t, s'.threads[t].tls[v])
    requires f.phase == AwaitPriority ==> prio[v] == Some(w)
    ensures ThreadInv(prio, s', t, s'.threads[t])
  {
    hide KeepsCalls, Times, GlobalInv, PointerInv, Evolves, Ready;
    OwnPointers(prio, s, s', t, i, v);
    LowerPhases(prio, s, t);
    var stack, stack' := s.threads[t].stack, s'.threads[t].stack;
    forall k | 0 <= k <= i + 1 ensures FrameInv(prio, s'.vars, t, k, stack'[k], i + 2) {
      if k < i { LowerFrame(prio, s, s', t, i, v, k, i + 2); }
    }
  }

  // ---------------------------------------------------------------------------------------
  // Every step keeps the invariant
  // ---------------------------------------------------------------------------------------

  ghost predicate OnTop(s: State, t: nat, v: nat, phase: Phase) {
    t in s.threads && s.threads[t].stack != [] && s.threads[t].stack[|s.threads[t].stack| - 1] == Frame(v, phase)
  }

  function Top(s: State, t: nat): nat
    requires t in s.threads && s.threads[t].stack != []
  {
    |s.threads[t].stack| - 1
  }

  lemma GotoTouches(prio: Priorities, s: State, t: nat, v: nat, old': Phase, g: Global, ptr: nat, phase: Phase)
    requires Inv(prio, s) && OnTop(s, t, v, old') && v < |prio| == |s.threads[t].tls|
    requires Evolves(s.vars[v], g, t, Top(s, t))
    ensures Touches(s, Goto(s, t, v, g, ptr, phase), t, Top(s, t), v)
  {
    hide GlobalInv, ThreadInv, EntryInv, ReturnedInv, BlocksDistinct, Evolves, Times;
  }

  /** What the next phase of the call on top asks for. */
  ghost predicate Allowed(prio: Priorities, g: Global, t: nat, i: nat, old': Phase, phase: Phase, v: nat)
    requires v < |prio|
  {
    && (phase.Rank() > 0 ==> g.flag == 1 && g.owner == Some(Owner(t, i)))
    && phase != AwaitPriority
    && (phase.Rank() >= 4 ==> old'.Rank() >= 4 || prio[v].None?)
    && (phase.TakeBuffer? ==> Ready(g, t))
    && (phase.LoadFlag? || phase.Cas? || phase.Spin? ==> g.flag == 1 ==> !Ready(g, t))
    && (phase.Spin? ==> g.flag != 0)
    && (phase.Fetch? || phase.Return? ==> g.flag == 2)
  }

  lemma FrameGoesOn(prio: Priorities, vars: seq<Global>, t: nat, i: nat, v: nat, old': Phase, g: Global, phase: Phase)
    requires |vars| == |prio| && FrameInv(prio, vars, t, i, Frame(v, old'), i + 1)
    requires Evolves(vars[v], g, t, i) && Allowed(prio, g, t, i, old', phase, v)
    ensures FrameInv(prio, vars[v := g], t, i, Frame(v, phase), i + 1)
  {
    ReadyStays(vars[v], g, t, i, t);
  }

  lemma GotoKeeps(prio: Priorities, s: State, t: nat, v: nat, old': Phase, g: Global, ptr: nat, phase: Phase)
    requires Inv(prio, s) && OnTop(s, t, v, old') && v < |prio| == |s.threads[t].tls|
    requires Evolves(s.vars[v], g, t, Top(s, t))
    requires PointerInv(g, t, ptr) && (phase.Return? ==> ptr == g.buffer)
    requires GlobalInv(Goto(s, t, v, g, ptr, phase), v)
    requires Allowed(prio, g, t, Top(s, t), old', phase, v)
    ensures Inv(prio, Goto(s, t, v, g, ptr, phase))
  {
    hide Evolves, PointerInv, GlobalInv, FrameInv, Touches, Allowed;
    OwnFrame(prio, s, t, Top(s, t));
    FrameGoesOn(prio, s.vars, t, Top(s, t), v, old', g, phase);
    GotoTouches(prio, s, t, v, old', g, ptr, phase);
    var s' := Goto(s, t, v, g, ptr, phase);
    TopGoesOn(prio, s, s', t, Top(s, t), v, Frame(v, phase));
    StepKeeps(prio, s, s', t, Top(s, t), v);
  }

  /** The state of a variable that the call on top is creating. */
  lemma OwnGlobal(s: State, t: nat, v: nat, phase: Phase)
    requires OnTop(s, t, v, phase) && v < |s.vars| && v < |s.threads[t].tls| && GlobalInv(s, v)
    requires s.vars[v].flag == 1 && s.vars[v].owner == Some(Owner(t, Top(s, t)))
    ensures InProgress(s.vars[v], Times(s.registered, v), phase.Rank(), s.threads[t].block, s.threads[t].tls[v])
  {
    hide InProgress, Times;
  }

  lemma GotoOwn(s: State, t: nat, v: nat, old': Phase, g: Global, ptr: nat, phase: Phase)
    requires OnTop(s, t, v, old') && v < |s.vars| && v < |s.threads[t].tls|
    requires g.flag == 1 && g.owner == Some(Owner(t, Top(s, t)))
    requires InProgress(g, Times(s.registered, v), phase.Rank(), s.threads[t].block, ptr)
    ensures GlobalInv(Goto(s, t, v, g, ptr, phase), v)
  {
    hide InProgress, Times;
  }

  /** The call on top is not the one that creates the variable, before and after. */
  lemma GotoOther(s: State, t: nat, v: nat, old': Phase, ptr: nat, phase: Phase)
    requires OnTop(s, t, v, old') && v < |s.vars| && v < |s.threads[t].tls| && GlobalInv(s, v)
    requires old'.Rank() == 0 && phase.Rank() == 0 && (ptr == s.threads[t].tls[v] || ptr == s.vars[v].buffer)
    ensures GlobalInv(Goto(s, t, v, s.vars[v], ptr, phase), v)
  {
    hide Times;
  }

  lemma AtV(prio: Priorities, s: State, t: nat, v: nat, phase: Phase)
    requires Inv(prio, s) && OnTop(s, t, v, phase)
    ensures v < |prio| == |s.threads[t].tls| && |s.vars| == |prio|
    ensures GlobalInv(s, v) && PointerInv(s.vars[v], t, s.threads[t].tls[v])
    ensures phase.Rank() > 0 ==> s.vars[v].flag == 1 && s.vars[v].owner == Some(Owner(t, Top(s, t)))
    ensures phase.TakeBuffer? ==> Ready(s.vars[v], t)
    ensures phase.LoadFlag? || phase.Cas? || phase.Spin? ==> s.vars[v].flag == 1 ==> !Ready(s.vars[v], t)
    ensures phase.Spin? ==> s.vars[v].flag != 0
    ensures phase.Fetch? || phase.Return? ==> s.vars[v].flag == 2
    ensures phase.Return? ==> s.threads[t].tls[v] == s.vars[v].buffer
  {
    OwnFrame(prio, s, t, Top(s, t));
    assert ThreadInv(prio, s, t, s.threads[t]);
  }

  /** If the thread is creating the variable, its call is at that place of the stack. */
  lemma OwnerBelow(prio: Priorities, s: State, t: nat, v: nat, phase: Phase)
    requires Inv(prio, s) && OnTop(s, t, v, phase) && phase.Rank() == 0 && v < |prio|
    requires s.vars[v].flag == 1 && Ready(s.vars[v], t)
    ensures s.vars[v].owner.Some? && s.vars[v].owner.value.depth < Top(s, t)
    ensures var f := s.threads[t].stack[s.vars[v].owner.value.depth];
            f == Frame(v, AwaitPriority) || f == Frame(v, Construct)
  {
    AtV(prio, s, t, v, phase);
    LowerPhases(prio, s, t);
  }

  lemma EnterStep(prio: Priorities, s: State, t: nat, v: nat)
    requires Inv(prio, s) && OnTop(s, t, v, Enter)
    ensures v < |prio| == |s.threads[t].tls| && Inv(prio, Goto(s, t, v, s.vars[v], s.threads[t].tls[v], LoadMark))
  {
    hide Inv, GlobalInv, Times, FrameInv;
    AtV(prio, s, t, v, Enter);
    GotoOther(s, t, v, Enter, s.threads[t].tls[v], LoadMark);
    GotoKeeps(prio, s, t, v, Enter, s.vars[v], s.threads[t].tls[v], LoadMark);
  }

  lemma OtherBlock(prio: Priorities, s: State, t: nat, u: nat)
    requires Inv(prio, s) && t in s.threads && u in s.threads && t != u
    ensures s.threads[u].block != s.threads[t].block
  {
  }

  /** Who finds the address of the own pointer in the mark is creating the variable, or has created
      it, or else the variable is there and the address belonged to its creator, which is gone. */
  lemma MarkMatches(prio: Priorities, s: State, t: nat, v: nat)
    requires Inv(prio, s) && OnTop(s, t, v, LoadMark) && v < |s.vars|
    ensures s.vars[v].mark == Some(s.threads[t].block) ==>
              && s.vars[v].owner.Some?
              && (s.vars[v].owner.value.thread == t
                  || (s.vars[v].flag == 2 && s.vars[v].owner.value.thread !in s.threads))
    ensures s.vars[v].mark == Some(s.threads[t].block) ==> Ready(s.vars[v], t)
    ensures s.vars[v].mark != Some(s.threads[t].block) ==> !(s.vars[v].flag == 1 && Ready(s.vars[v], t))
  {
    hide Times, FrameInv, ThreadInv;
    AtV(prio, s, t, v, LoadMark);
    var g := s.vars[v];
    if g.flag != 0 {
      var u := g.owner.value.thread;
      if u == t {
        if g.flag == 1 { OwnerBelow(prio, s, t, v, LoadMark); }
      } else if u in s.threads {
        OtherBlock(prio, s, t, u);
      }
    }
  }

  lemma LoadMarkStep(prio: Priorities, s: State, t: nat, v: nat)
    requires Inv(prio, s) && OnTop(s, t, v, LoadMark)
    ensures v < |prio| == |s.threads[t].tls|
    ensures Inv(prio, Goto(s, t, v, s.vars[v], s.threads[t].tls[v],
                           if s.vars[v].mark == Some(s.threads[t].block) then TakeBuffer else LoadFlag))
  {
    hide Inv, GlobalInv, Times, FrameInv;
    AtV(prio, s, t, v, LoadMark);
    MarkMatches(prio, s, t, v);
    var g, ptr, next := s.vars[v], s.threads[t].tls[v], if s.vars[v].mark == Some(s.threads[t].block) then TakeBuffer
        else LoadFlag;
    GotoOther(s, t, v, LoadMark, ptr, next);
    GotoKeeps(prio, s, t, v, LoadMark, g, ptr, next);
  }

  lemma LoadFlagStep(prio: Priorities, s: State, t: nat, v: nat)
    requires Inv(prio, s) && OnTop(s, t, v, LoadFlag)
    ensures v < |prio| == |s.threads[t].tls|
    ensures Inv(prio, Goto(s, t, v, s.vars[v], s.threads[t].tls[v], if s.vars[v].flag == 0 then Cas else Spin))
  {
    hide Inv, GlobalInv, Times, FrameInv;
    AtV(prio, s, t, v, LoadFlag);
    var next := if s.vars[v].flag == 0 then Cas else Spin;
    GotoOther(s, t, v, LoadFlag, s.threads[t].tls[v], next);
    GotoKeeps(prio, s, t, v, LoadFlag, s.vars[v], s.threads[t].tls[v], next);
  }

  lemma NotYet(s: State, v: nat)
    requires v < |s.vars| && GlobalInv(s, v) && s.vars[v].flag == 0
    ensures Unused(s.vars[v]) && Times(s.registered, v) == 0
  {
  }

  lemma CasStep(prio: Priorities, s: State, t: nat, v: nat)
    requires Inv(prio, s) && OnTop(s, t, v, Cas)
    ensures v < |prio| == |s.threads[t].tls|
    ensures var g, ptr := s.vars[v], s.threads[t].tls[v];
            Inv(prio, if g.flag == 0 then Goto(s, t, v, g.(flag := 1, owner := Some(Owner(t, Top(s, t)))), ptr,
                                               StoreMark)
                      else Goto(s, t, v, g, ptr, Spin))
  {
    hide Inv, GlobalInv, Times, FrameInv;
    AtV(prio, s, t, v, Cas);
    var g, ptr := s.vars[v], s.threads[t].tls[v];
    if g.flag == 0 {
      NotYet(s, v);
      var g' := g.(flag := 1, owner := Some(Owner(t, Top(s, t))));
      GotoOwn(s, t, v, Cas, g', ptr, StoreMark);
      GotoKeeps(prio, s, t, v, Cas, g', ptr, StoreMark);
    } else {
      GotoOther(s, t, v, Cas, ptr, Spin);
      GotoKeeps(prio, s, t, v, Cas, g, ptr, Spin);
    }
  }

  lemma StoreMarkStep(prio: Priorities, s: State, t: nat, v: nat)
    requires Inv(prio, s) && OnTop(s, t, v, StoreMark)
    ensures v < |prio| == |s.threads[t].tls|
    ensures Inv(prio, Goto(s, t, v, s.vars[v].(mark := Some(s.threads[t].block)), s.threads[t].tls[v], InitPriority))
  {
    hide Inv, GlobalInv, Times, FrameInv;
    AtV(prio, s, t, v, StoreMark);
    var g, ptr := s.vars[v].(mark := Some(s.threads[t].block)), s.threads[t].tls[v];
    OwnGlobal(s, t, v, StoreMark);
    GotoOwn(s, t, v, StoreMark, g, ptr, InitPriority);
    GotoKeeps(prio, s, t, v, StoreMark, g, ptr, InitPriority);
  }

  lemma NoPriorityStep(prio: Priorities, s: State, t: nat, v: nat)
    requires Inv(prio, s) && OnTop(s, t, v, InitPriority) && v < |prio| && prio[v].None?
    ensures |prio| == |s.threads[t].tls| && Inv(prio, Goto(s, t, v, s.vars[v], s.threads[t].tls[v], Alloc))
  {
    hide Inv, GlobalInv, Times, FrameInv;
    AtV(prio, s, t, v, InitPriority);
    var g, ptr := s.vars[v], s.threads[t].tls[v];
    OwnGlobal(s, t, v, InitPriority);
    GotoOwn(s, t, v, InitPriority, g, ptr, Alloc);
    GotoKeeps(prio, s, t, v, InitPriority, g, ptr, Alloc);
  }

  lemma AllocStep(prio: Priorities, s: State, t: nat, v: nat, addr: nat)
    requires Inv(prio, s) && OnTop(s, t, v, Alloc) && addr != 0
    ensures v < |prio| == |s.threads[t].tls|
    ensures Inv(prio, Goto(s, t, v, s.vars[v].(buffer := addr), s.threads[t].tls[v], SetPtr))
  {
    hide Inv, GlobalInv, Times, FrameInv;
    AtV(prio, s, t, v, Alloc);
    var g, ptr := s.vars[v].(buffer := addr), s.threads[t].tls[v];
    OwnGlobal(s, t, v, Alloc);
    GotoOwn(s, t, v, Alloc, g, ptr, SetPtr);
    GotoKeeps(prio, s, t, v, Alloc, g, ptr, SetPtr);
  }

  lemma SetPtrStep(prio: Priorities, s: State, t: nat, v: nat)
    requires Inv(prio, s) && OnTop(s, t, v, SetPtr)
    ensures v < |prio| == |s.threads[t].tls|
    ensures Inv(prio, Goto(s, t, v, s.vars[v].(built := s.vars[v].built + 1), s.vars[v].buffer, Construct))
  {
    hide Inv, GlobalInv, Times, FrameInv;
    AtV(prio, s, t, v, SetPtr);
    var g, ptr := s.vars[v].(built := s.vars[v].built + 1), s.vars[v].buffer;
    OwnGlobal(s, t, v, SetPtr);
    GotoOwn(s, t, v, SetPtr, g, ptr, Construct);
    GotoKeeps(prio, s, t, v, SetPtr, g, ptr, Construct);
  }

  lemma ConstructStep(prio: Priorities, s: State, t: nat, v: nat)
    requires Inv(prio, s) && OnTop(s, t, v, Construct)
    ensures v < |prio| == |s.threads[t].tls| && Inv(prio, Goto(s, t, v, s.vars[v], s.threads[t].tls[v], Register))
  {
    hide Inv, GlobalInv, Times, FrameInv;
    AtV(prio, s, t, v, Construct);
    var g, ptr := s.vars[v], s.threads[t].tls[v];
    OwnGlobal(s, t, v, Construct);
    GotoOwn(s, t, v, Construct, g, ptr, Register);
    GotoKeeps(prio, s, t, v, Construct, g, ptr, Register);
  }

  lemma StoreFlagStep(prio: Priorities, s: State, t: nat, v: nat)
    requires Inv(prio, s) && OnTop(s, t, v, StoreFlag)
    ensures v < |prio| == |s.threads[t].tls|
    ensures Inv(prio, Goto(s, t, v, s.vars[v].(flag := 2), s.threads[t].tls[v], Return))
  {
    hide Inv, Times, FrameInv;
    AtV(prio, s, t, v, StoreFlag);
    var g, ptr := s.vars[v].(flag := 2), s.threads[t].tls[v];
    OwnGlobal(s, t, v, StoreFlag);
    ThreadOf(prio, s, t);
    GotoKeeps(prio, s, t, v, StoreFlag, g, ptr, Return);
  }

  lemma SpinStep(prio: Priorities, s: State, t: nat, v: nat)
    requires Inv(prio, s) && OnTop(s, t, v, Spin) && v < |s.vars| && s.vars[v].flag == 2
    ensures v < |prio| == |s.threads[t].tls| && Inv(prio, Goto(s, t, v, s.vars[v], s.threads[t].tls[v], Fetch))
  {
    hide Inv, GlobalInv, Times, FrameInv;
    AtV(prio, s, t, v, Spin);
    GotoOther(s, t, v, Spin, s.threads[t].tls[v], Fetch);
    GotoKeeps(prio, s, t, v, Spin, s.vars[v], s.threads[t].tls[v], Fetch);
  }

  lemma FetchStep(prio: Priorities, s: State, t: nat, v: nat)
    requires Inv(prio, s) && OnTop(s, t, v, Fetch)
    ensures v < |prio| == |s.threads[t].tls| && Inv(prio, Goto(s, t, v, s.vars[v], s.vars[v].buffer, Return))
  {
    hide Inv, GlobalInv, Times, FrameInv;
    AtV(prio, s, t, v, Fetch);
    assert PointerInv(s.vars[v], t, s.vars[v].buffer);
    GotoOther(s, t, v, Fetch, s.vars[v].buffer, Return);
    GotoKeeps(prio, s, t, v, Fetch, s.vars[v], s.vars[v].buffer, Return);
  }

  // Registration

  lemma {:induction false} TimesOfOne(r: seq<Entry>, e: Entry, w: nat)
    ensures Times(r + [e], w) == Times(r, w) + if e.v == w then 1 else 0
  {
    assert (r + [e])[..|r|] == r;
  }

  /** The priority variable is registered, unless the thread is still creating it. */
  lemma ReenteredMeans(prio: Priorities, s: State, t: nat, v: nat, p: nat)
    requires Inv(prio, s) && OnTop(s, t, v, Register) && p < |prio| && Ready(s.vars[p], t)
    ensures InCreation(s.threads[t].stack, p) <==> Times(s.registered, p) == 0
  {
    hide Inv, Times, FrameInv, PointerInv;
    GlobalOf(prio, s, p);
    if s.vars[p].flag == 2 {
      NotInCreation(prio, s, t, p);
    } else {
      var stack, d := s.threads[t].stack, s.vars[p].owner.value.depth;
      assert stack[d].v == p && stack[d].phase.Rank() > 0;
      LowerPhases(prio, s, t);
      assert stack[d].phase.Rank() != 8;
    }
  }

  lemma NotInCreation(prio: Priorities, s: State, t: nat, p: nat)
    requires Inv(prio, s) && t in s.threads && p < |s.vars| && s.vars[p].flag != 1
    ensures !InCreation(s.threads[t].stack, p)
  {
    hide Inv;
    var stack := s.threads[t].stack;
    forall i | 0 <= i < |stack| ensures !(stack[i].v == p && stack[i].phase.Rank() > 0) {
      ThreadOf(prio, s, t);
      OwnFrame(prio, s, t, i);
    }
  }

  lemma RegisterStep(prio: Priorities, s: State, t: nat, v: nat)
    requires Inv(prio, s) && OnTop(s, t, v, Register)
    ensures v < |prio| == |s.threads[t].tls|
    ensures var e := Entry(v, prio[v].Some? && InCreation(s.threads[t].stack, prio[v].value));
            Inv(prio, Goto(s, t, v, s.vars[v], s.threads[t].tls[v], StoreFlag).(registered := s.registered + [e]))
  {
    hide Inv, Times, GlobalInv, ThreadInv, EntryInv, PointerInv, FrameInv, InCreation, Touches;
    AtV(prio, s, t, v, Register);
    var g, ptr, i := s.vars[v], s.threads[t].tls[v], Top(s, t);
    var e := Entry(v, prio[v].Some? && InCreation(s.threads[t].stack, prio[v].value));
    OwnGlobal(s, t, v, Register);
    RegisteredEntry(prio, s, t, v, e);
    OwnFrame(prio, s, t, i);
    FrameGoesOn(prio, s.vars, t, i, v, Register, g, StoreFlag);
    var s' := Goto(s, t, v, g, ptr, StoreFlag).(registered := s.registered + [e]);
    RegisterTouches(prio, s, t, v, e);
    TimesOfOne(s.registered, e, v);
    RegisteredGlobal(s', t, v, i);
    TopGoesOn(prio, s, s', t, i, v, Frame(v, StoreFlag));
    StepKeeps(prio, s, s', t, i, v);
  }

  lemma RegisteredGlobal(s': State, t: nat, v: nat, i: nat)
    requires t in s'.threads && v < |s'.vars| && v < |s'.threads[t].tls|
    requires |s'.threads[t].stack| == i + 1 && s'.threads[t].stack[i] == Frame(v, StoreFlag)
    requires s'.vars[v].flag == 1 && s'.vars[v].owner == Some(Owner(t, i))
    requires InProgress(s'.vars[v], Times(s'.registered, v), 8, s'.threads[t].block, s'.threads[t].tls[v])
    ensures GlobalInv(s', v)
  {
    hide InProgress, Times;
  }

  lemma RegisterTouches(prio: Priorities, s: State, t: nat, v: nat, e: Entry)
    requires Inv(prio, s) && OnTop(s, t, v, Register) && v < |prio| == |s.threads[t].tls| && e.v == v
    ensures Touches(s, Goto(s, t, v, s.vars[v], s.threads[t].tls[v], StoreFlag).(registered := s.registered + [e]), t,
                    Top(s, t), v)
  {
    GotoTouches(prio, s, t, v, Register, s.vars[v], s.threads[t].tls[v], StoreFlag);
    hide Inv, Times, Evolves, KeepsCalls;
    forall w | 0 <= w < |s.vars| && w != v ensures Times(s.registered + [e], w) == Times(s.registered, w) {
      TimesOfOne(s.registered, e, w);
    }
  }

  lemma RegisteredEntry(prio: Priorities, s: State, t: nat, v: nat, e: Entry)
    requires Inv(prio, s) && OnTop(s, t, v, Register) && v < |prio|
    requires e == Entry(v, prio[v].Some? && InCreation(s.threads[t].stack, prio[v].value))
    ensures forall k :: 0 <= k <= |s.registered| ==> EntryInv(prio, s.registered + [e], k)
  {
    hide Times, GlobalInv, InCreation, Ready;
    var r := s.registered + [e];
    OwnFrame(prio, s, t, Top(s, t));
    if prio[v].Some? { ReenteredMeans(prio, s, t, v, prio[v].value); }
    forall k | 0 <= k <= |s.registered| ensures EntryInv(prio, r, k) {
      assert r[..k] == s.registered[..k];
      if k < |s.registered| {
        assert EntryInv(prio, s.registered, k);
      } else {
        assert s.registered[..k] == s.registered;
      }
    }
  }

  // Returning

  lemma PopTouches(prio: Priorities, s: State, t: nat, v: nat, phase: Phase, ptr: nat, value: nat)
    requires Inv(prio, s) && OnTop(s, t, v, phase) && v < |prio| == |s.threads[t].tls|
    ensures Touches(s, Pop(s, t, v, ptr, value), t, Top(s, t), v)
  {
    hide GlobalInv, ThreadInv, EntryInv, ReturnedInv, BlocksDistinct, Times;
  }

  lemma PopGlobal(prio: Priorities, s: State, t: nat, v: nat, phase: Phase, ptr: nat, value: nat)
    requires Inv(prio, s) && OnTop(s, t, v, phase) && v < |prio| == |s.threads[t].tls| && phase.Rank() == 0
    requires ptr == s.threads[t].tls[v] || ptr == s.vars[v].buffer
    ensures GlobalInv(Pop(s, t, v, ptr, value), v)
  {
    hide Inv, Times;
    GlobalOf(prio, s, v);
    LowerPhases(prio, s, t);
  }

  lemma PopKeeps(prio: Priorities, s: State, t: nat, v: nat, phase: Phase, ptr: nat, value: nat)
    requires Inv(prio, s) && OnTop(s, t, v, phase) && v < |prio| == |s.threads[t].tls| && phase.Rank() == 0
    requires ptr == s.threads[t].tls[v] || ptr == s.vars[v].buffer
    requires Ready(s.vars[v], t) && (value == ptr == s.vars[v].buffer)
    ensures Inv(prio, Pop(s, t, v, ptr, value))
  {
    hide Inv, Times, GlobalInv, ThreadInv, EntryInv, FrameInv, Touches, Ready, ReturnedInv, BeforeBuffer;
    GlobalOf(prio, s, v);
    var i, s' := Top(s, t), Pop(s, t, v, ptr, value);
    PopTouches(prio, s, t, v, phase, ptr, value);
    PopGlobal(prio, s, t, v, phase, ptr, value);
    TopReturns(prio, s, s', t, i, v);
    EntriesStay(prio, s, s');
    ReturnsBuffer(prio, s, t, v, phase);
    var r := Returned(t, v, value, s.vars[v].flag, BeforeBuffer(s.threads[t].stack[..i], v));
    assert s'.returned == s.returned + [r] && r.v == v && ReturnedInv(s'.vars[v], r);
    StepKeeps(prio, s, s', t, i, v);
  }

  lemma EntriesStay(prio: Priorities, s: State, s': State)
    requires Inv(prio, s) && s'.registered == s.registered
    ensures forall k :: 0 <= k < |s'.registered| ==> EntryInv(prio, s'.registered, k)
  {
  }

  /** The buffer, and whether it exists at the time of a return. */
  lemma ReturnsBuffer(prio: Priorities, s: State, t: nat, v: nat, phase: Phase)
    requires Inv(prio, s) && OnTop(s, t, v, phase) && v < |prio| && phase.Rank() == 0 && Ready(s.vars[v], t)
    ensures ReturnedInv(s.vars[v], Returned(t, v, s.vars[v].buffer, s.vars[v].flag,
                                            BeforeBuffer(s.threads[t].stack[..Top(s, t)], v)))
  {
    hide Times;
    var below := s.threads[t].stack[..Top(s, t)];
    GlobalOf(prio, s, v);
    forall k | 0 <= k < |below| && below[k] == Frame(v, AwaitPriority)
      ensures s.vars[v].flag == 1 && s.vars[v].owner == Some(Owner(t, k))
    {
      OwnFrame(prio, s, t, k);
    }
    if s.vars[v].flag == 1 {
      OwnerBelow(prio, s, t, v, phase);
      var d := s.vars[v].owner.value.depth;
      assert below[d] == s.threads[t].stack[d];
    }
  }

  // Calling

  lemma PriorityStep(prio: Priorities, s: State, t: nat, v: nat)
    requires Inv(prio, s) && OnTop(s, t, v, InitPriority) && v < |prio| && prio[v].Some?
    ensures |prio| == |s.threads[t].tls| == |s.vars|
    ensures Inv(prio, Push(Goto(s, t, v, s.vars[v], s.threads[t].tls[v], AwaitPriority), t, prio[v].value))
  {
    hide Inv, Times, GlobalInv, ThreadInv, EntryInv, FrameInv, Touches, PointerInv;
    AtV(prio, s, t, v, InitPriority);
    OwnGlobal(s, t, v, InitPriority);
    var g, ptr, i, p := s.vars[v], s.threads[t].tls[v], Top(s, t), prio[v].value;
    var s' := Push(Goto(s, t, v, g, ptr, AwaitPriority), t, p);
    PriorityInRange(prio, s, v);
    WaitingFrame(prio, s, t, i, v);
    PushTouches(prio, s, s', t, v, InitPriority, Frame(v, AwaitPriority), p);
    assert s'.threads[t].stack[i] == Frame(v, AwaitPriority);
    WaitingGlobal(s', t, v, i);
    TopCalls(prio, s, s', t, i, v, Frame(v, AwaitPriority), p);
    EntriesStay(prio, s, s');
    StepKeeps(prio, s, s', t, i, v);
  }

  lemma PriorityInRange(prio: Priorities, s: State, v: nat)
    requires Inv(prio, s) && v < |prio|
    ensures prio[v].Some? ==> prio[v].value < |prio|
  {
  }

  lemma WaitingFrame(prio: Priorities, s: State, t: nat, i: nat, v: nat)
    requires |s.vars| == |prio| && v < |prio| && prio[v].Some?
    requires s.vars[v].flag == 1 && s.vars[v].owner == Some(Owner(t, i))
    ensures s.vars[v := s.vars[v]] == s.vars && FrameInv(prio, s.vars, t, i, Frame(v, AwaitPriority), i + 2)
  {
  }

  lemma WaitingGlobal(s': State, t: nat, v: nat, i: nat)
    requires t in s'.threads && v < |s'.vars| && v < |s'.threads[t].tls|
    requires |s'.threads[t].stack| > i && s'.threads[t].stack[i] == Frame(v, AwaitPriority)
    requires s'.vars[v].flag == 1 && s'.vars[v].owner == Some(Owner(t, i))
    requires InProgress(s'.vars[v], Times(s'.registered, v), 2, s'.threads[t].block, s'.threads[t].tls[v])
    ensures GlobalInv(s', v)
  {
    hide Times;
  }

  /** A call on top of the call `f`. */
  lemma PushTouches(prio: Priorities, s: State, s': State, t: nat, v: nat, phase: Phase, f: Frame, w: nat)
    requires Inv(prio, s) && OnTop(s, t, v, phase) && v < |prio| == |s.threads[t].tls| && f.v == v
    requires t in s'.threads && s'.threads[t].stack == s.threads[t].stack[Top(s, t) := f] + [Frame(w, Enter)]
    requires s'.vars == s.vars[v := s.vars[v]] && s'.threads == s.threads[t := s'.threads[t]]
    requires s'.threads[t].tls == s.threads[t].tls[v := s.threads[t].tls[v]]
             && s'.threads[t].block == s.threads[t].block
    requires s'.nextThread == s.nextThread && s'.registered == s.registered
    ensures s'.vars == s.vars && Touches(s, s', t, Top(s, t), v)
  {
    hide GlobalInv, ThreadInv, EntryInv, ReturnedInv, BlocksDistinct, Times;
  }

  /** A constructor calls. */
  lemma NestedCall(prio: Priorities, s: State, t: nat, v: nat, w: nat)
    requires Inv(prio, s) && OnTop(s, t, v, Construct) && w < |prio|
    ensures Inv(prio, Push(s, t, w))
  {
    hide Inv, Times, GlobalInv, ThreadInv, EntryInv, FrameInv, Touches, PointerInv;
    AtV(prio, s, t, v, Construct);
    var i, s' := Top(s, t), Push(s, t, w);
    OwnFrame(prio, s, t, i);
    StillConstructing(prio, s.vars, t, i, v);
    PushTouches(prio, s, s', t, v, Construct, Frame(v, Construct), w);
    OwnGlobal(s, t, v, Construct);
    ConstructingGlobal(s, s', t, v, i);
    TopCalls(prio, s, s', t, i, v, Frame(v, Construct), w);
    EntriesStay(prio, s, s');
    StepKeeps(prio, s, s', t, i, v);
  }

  lemma StillConstructing(prio: Priorities, vars: seq<Global>, t: nat, i: nat, v: nat)
    requires |vars| == |prio| && FrameInv(prio, vars, t, i, Frame(v, Construct), i + 1)
    ensures FrameInv(prio, vars, t, i, Frame(v, Construct), i + 2)
  {
    hide Ready;
  }

  lemma ConstructingGlobal(s: State, s': State, t: nat, v: nat, i: nat)
    requires t in s.threads && t in s'.threads && s'.vars == s.vars && v < |s.vars| && v < |s.threads[t].tls|
    requires s'.registered == s.registered && s'.threads[t].tls == s.threads[t].tls
             && s'.threads[t].block == s.threads[t].block
    requires |s'.threads[t].stack| > i && s'.threads[t].stack[i] == Frame(v, Construct)
    requires s.vars[v].flag == 1 && s.vars[v].owner == Some(Owner(t, i))
    requires InProgress(s.vars[v], Times(s.registered, v), 6, s.threads[t].block, s.threads[t].tls[v])
    ensures GlobalInv(s', v)
  {
    hide Times;
  }

  /** A thread that is in no call calls. */
  lemma FirstCall(prio: Priorities, s: State, t: nat, v: nat)
    requires Inv(prio, s) && t in s.threads && s.threads[t].stack == [] && v < |prio|
    ensures Inv(prio, Push(s, t, v))
  {
    hide Inv, Times, GlobalInv, EntryInv, PointerInv;
    var s' := Push(s, t, v);
    ThreadOf(prio, s, t);
    IdleTouches(s, s', t, v);
    IdleGlobal(prio, s, t, v);
    EntriesStay(prio, s, s');
    StepKeeps(prio, s, s', t, 0, v);
  }

  lemma IdleTouches(s: State, s': State, t: nat, v: nat)
    requires t in s.threads && s.threads[t].stack == [] && v < |s.vars| && v < |s.threads[t].tls| && s' == Push(s, t, v)
    ensures Touches(s, s', t, 0, v)
  {
    hide Times;
  }

  lemma IdleGlobal(prio: Priorities, s: State, t: nat, v: nat)
    requires Inv(prio, s) && t in s.threads && s.threads[t].stack == [] && v < |prio|
    ensures |s.vars| == |prio| && GlobalInv(Push(s, t, v), v)
  {
    hide Inv, Times;
    GlobalOf(prio, s, v);
  }

  // Threads come and go

  lemma SpawnKeeps(prio: Priorities, s: State, block: nat)
    requires Inv(prio, s) && BlockFree(s, block)
    ensures Inv(prio, s.(threads := s.threads[s.nextThread := Thread(block, seq(|prio|, _ => 0), [])],
                         nextThread := s.nextThread + 1))
  {
    hide Times, InProgress, EntryInv, ReturnedInv, FrameInv, PointerInv;
    var s' := s.(threads := s.threads[s.nextThread := Thread(block, seq(|prio|, _ => 0), [])],
                 nextThread := s.nextThread + 1);
    forall v | 0 <= v < |prio| ensures GlobalInv(s', v) {
      assert GlobalInv(s, v);
    }
    forall t | t in s'.threads ensures t < s'.nextThread && ThreadInv(prio, s', t, s'.threads[t]) {
      if t == s.nextThread {
        NewThread(prio, s', t, s'.threads[t]);
      } else {
        assert ThreadInv(prio, s, t, s.threads[t]);
      }
    }
  }

  lemma NewThread(prio: Priorities, s: State, t: nat, th: Thread)
    requires |s.vars| == |prio| && th.stack == [] && th.tls == seq(|prio|, _ => 0)
    ensures ThreadInv(prio, s, t, th)
  {
  }

  lemma ExitKeeps(prio: Priorities, s: State, t: nat)
    requires Inv(prio, s) && t in s.threads && s.threads[t].stack == []
    ensures Inv(prio, s.(threads := s.threads - {t}))
  {
    hide Times, InProgress, EntryInv, ReturnedInv, FrameInv, PointerInv;
    var s' := s.(threads := s.threads - {t});
    forall v | 0 <= v < |prio| ensures GlobalInv(s', v) {
      assert GlobalInv(s, v);
    }
    forall u | u in s'.threads ensures u < s'.nextThread && ThreadInv(prio, s', u, s'.threads[u]) {
      assert ThreadInv(prio, s, u, s.threads[u]);
    }
  }

  // All steps together

  lemma ReturnStep(prio: Priorities, s: State, t: nat, v: nat)
    requires Inv(prio, s) && OnTop(s, t, v, Return)
    ensures v < |prio| == |s.threads[t].tls| && Inv(prio, Pop(s, t, v, s.threads[t].tls[v], s.threads[t].tls[v]))
  {
    hide Inv, GlobalInv, Times, FrameInv;
    AtV(prio, s, t, v, Return);
    PopKeeps(prio, s, t, v, Return, s.threads[t].tls[v], s.threads[t].tls[v]);
  }

  lemma TakeBufferStep(prio: Priorities, s: State, t: nat, v: nat)
    requires Inv(prio, s) && OnTop(s, t, v, TakeBuffer)
    ensures v < |prio| == |s.threads[t].tls| && Inv(prio, Pop(s, t, v, s.vars[v].buffer, s.vars[v].buffer))
  {
    hide Inv, GlobalInv, Times, FrameInv;
    AtV(prio, s, t, v, TakeBuffer);
    PopKeeps(prio, s, t, v, TakeBuffer, s.vars[v].buffer, s.vars[v].buffer);
  }

  lemma FastStep(prio: Priorities, s: State, t: nat, v: nat)
    requires Inv(prio, s) && OnTop(s, t, v, Enter) && v < |s.threads[t].tls| && s.threads[t].tls[v] != 0
    ensures v < |prio| == |s.threads[t].tls| && Inv(prio, Pop(s, t, v, s.threads[t].tls[v], s.threads[t].tls[v]))
  {
    hide Inv, GlobalInv, Times, FrameInv;
    AtV(prio, s, t, v, Enter);
    PopKeeps(prio, s, t, v, Enter, s.threads[t].tls[v], s.threads[t].tls[v]);
  }

  lemma AdvanceKeeps(prio: Priorities, s: State, t: nat, addr: nat)
    requires Inv(prio, s) && t in s.threads && s.threads[t].stack != []
    ensures s.threads[t].stack[Top(s, t)].v < |prio| == |s.threads[t].tls| && |s.vars| == |prio|
    ensures Inv(prio, Advance(prio, s, t, addr))
  {
    hide Inv, InCreation, Goto, Pop, Push;
    TopInRange(prio, s, t);
    var f := s.threads[t].stack[Top(s, t)];
    GlobalOf(prio, s, f.v);
    match f.phase
    case Enter => if s.threads[t].tls[f.v] != 0 { FastStep(prio, s, t, f.v); } else { EnterStep(prio, s, t, f.v); }
    case LoadMark => LoadMarkStep(prio, s, t, f.v);
    case TakeBuffer => TakeBufferStep(prio, s, t, f.v);
    case LoadFlag => LoadFlagStep(prio, s, t, f.v);
    case Cas => CasStep(prio, s, t, f.v);
    case StoreMark => StoreMarkStep(prio, s, t, f.v);
    case InitPriority => if prio[f.v].None? { NoPriorityStep(prio, s, t, f.v); } else { PriorityStep(prio, s, t, f.v); }
    case AwaitPriority =>
    case Alloc => if addr != 0 { AllocStep(prio, s, t, f.v, addr); }
    case SetPtr => SetPtrStep(prio, s, t, f.v);
    case Construct => ConstructStep(prio, s, t, f.v);
    case Register => RegisterStep(prio, s, t, f.v);
    case StoreFlag => StoreFlagStep(prio, s, t, f.v);
    case Spin => if s.vars[f.v].flag == 2 { SpinStep(prio, s, t, f.v); }
    case Fetch => FetchStep(prio, s, t, f.v);
    case Return => ReturnStep(prio, s, t, f.v);
  }

  lemma ApplyKeeps(prio: Priorities, s: State, a: Action)
    requires Inv(prio, s)
    ensures Inv(prio, Apply(prio, s, a))
  {
    hide Inv, Push, Advance;
    match a
    case Spawn(block) => if BlockFree(s, block) { SpawnKeeps(prio, s, block); }
    case Exit(t) => if t in s.threads && s.threads[t].stack == [] { ExitKeeps(prio, s, t); }
    case Step(t, addr) => if t in s.threads && s.threads[t].stack != [] { AdvanceKeeps(prio, s, t, addr); }
    case Call(t, v) =>
      if t in s.threads && v < |prio| && MayCall(s.threads[t].stack) {
        if s.threads[t].stack == [] {
          FirstCall(prio, s, t, v);
        } else {
          NestedCall(prio, s, t, s.threads[t].stack[Top(s, t)].v, v);
        }
      }
  }

  // ---------------------------------------------------------------------------------------
  // Whole runs
  // ---------------------------------------------------------------------------------------

  lemma InitialInv(prio: Priorities)
    requires WellFormed(prio)
    ensures Inv(prio, Initial(prio))
  {
  }

  /** The state after any actions, one after the other, from the start. */
  ghost function Run(prio: Priorities, actions: seq<Action>): (s: State)
    requires WellFormed(prio)
    ensures Inv(prio, s)
  {
    if actions == [] then
      InitialInv(prio);
      Initial(prio)
    else
      var before := Run(prio, actions[..|actions| - 1]);
      ApplyKeeps(prio, before, actions[|actions| - 1]);
      Apply(prio, before, actions[|actions| - 1])
  }

  /** In every run every variable is constructed at most once, and exactly once when its flag is 2
      or when any call returned something else than null. */
  lemma ConstructedOnce(prio: Priorities, actions: seq<Action>, v: nat)
    requires WellFormed(prio) && v < |prio|
    ensures var s := Run(prio, actions);
            && s.vars[v].built <= 1
            && (s.vars[v].flag == 2 ==> s.vars[v].built == 1)
            && (forall r :: r in s.returned && r.v == v && r.value != 0 ==> s.vars[v].built == 1)
  {
    hide Times;
    var s := Run(prio, actions);
    GlobalOf(prio, s, v);
    forall r | r in s.returned && r.v == v && r.value != 0 ensures s.vars[v].built == 1 {
      ReturnedOf(prio, s, r);
    }
  }

  lemma ReturnedOf(prio: Priorities, s: State, r: Returned)
    requires Inv(prio, s) && r in s.returned
    ensures r.v < |s.vars| && ReturnedInv(s.vars[r.v], r)
  {
    var k :| 0 <= k < |s.returned| && s.returned[k] == r;
  }

  /** All calls for a variable return the same buffer; only a call that comes from within the
      creation of the priority variable returns null, and it always does. */
  lemma SameBuffer(prio: Priorities, actions: seq<Action>, r: Returned, q: Returned)
    requires WellFormed(prio) && r in Run(prio, actions).returned && q in Run(prio, actions).returned && r.v == q.v
    ensures r.value == 0 <==> r.early
    ensures !r.early && !q.early ==> r.value == q.value
  {
    ReturnedOf(prio, Run(prio, actions), r);
    ReturnedOf(prio, Run(prio, actions), q);
  }

  /** Before the flag is 2, only the thread that creates the variable gets the buffer. */
  lemma OnlyCreatorBefore(prio: Priorities, actions: seq<Action>, r: Returned)
    requires WellFormed(prio) && r in Run(prio, actions).returned && r.flag != 2
    ensures r.v < |prio|
    ensures var o := Run(prio, actions).vars[r.v].owner; o.Some? && o.value.thread == r.thread
  {
    ReturnedOf(prio, Run(prio, actions), r);
  }

  /** A thread that waits for a variable is not the one that creates it. */
  lemma NoSelfDeadlock(prio: Priorities, actions: seq<Action>, t: nat, v: nat)
    requires WellFormed(prio) && OnTop(Run(prio, actions), t, v, Spin)
    ensures !InCreation(Run(prio, actions).threads[t].stack, v)
  {
    var s := Run(prio, actions);
    AtV(prio, s, t, v, Spin);
    forall i | 0 <= i < |s.threads[t].stack| ensures !(s.threads[t].stack[i].v == v
                                                       && s.threads[t].stack[i].phase.Rank() > 0) {
      OwnFrame(prio, s, t, i);
    }
  }

  // ---------------------------------------------------------------------------------------
  // Destruction
  // ---------------------------------------------------------------------------------------

  /** Variables are destructed in the opposite order. */
  function Reversed(r: seq<Entry>): (d: seq<nat>)
    ensures |d| == |r|
  {
    if r == [] then [] else [r[|r| - 1].v] + Reversed(r[..|r| - 1])
  }

  /** `~global_vars_destructor`, with the calls of `partial_destruct` in their order. */
  method Destruct(registered: seq<Entry>) returns (destructed: seq<nat>)
    ensures destructed == Reversed(registered)
  {
    destructed := [];
    var i := |registered|;
    assert registered[..i] == registered;
    while i > 0
      invariant i <= |registered|
      invariant destructed + Reversed(registered[..i]) == Reversed(registered)
    {
      assert registered[..i][..i - 1] == registered[..i - 1];
      destructed := destructed + [registered[i - 1].v];
      i := i - 1;
    }
  }

  lemma {:induction false} ReversedAt(r: seq<Entry>, k: nat)
    requires k < |r|
    ensures Reversed(r)[|r| - 1 - k] == r[k].v
  {
    if k < |r| - 1 {
      ReversedAt(r[..|r| - 1], k);
    }
  }

  lemma {:induction false} Registered(r: seq<Entry>, v: nat)
    ensures Times(r, v) > 0 <==> exists k :: 0 <= k < |r| && r[k].v == v
  {
    if r != [] {
      var front := r[..|r| - 1];
      Registered(front, v);
      if Times(front, v) > 0 {
        var k :| 0 <= k < |front| && front[k].v == v;
        assert r[k].v == v;
      }
    }
  }

  /** No variable is registered twice. */
  lemma {:induction false} OncePlaces(r: seq<Entry>, v: nat, j: nat, k: nat)
    requires Times(r, v) <= 1 && j < k < |r| && r[j].v == v
    ensures r[k].v != v
  {
    var front := r[..|r| - 1];
    if k == |r| - 1 {
      assert front[j].v == v;
      Registered(front, v);
    } else {
      OncePlaces(front, v, j, k);
    }
  }

  /** In every run a variable is registered at most once; and it is registered behind its priority
      variable exactly if it was not reached from within the creation of that one. */
  lemma PriorityFirst(prio: Priorities, actions: seq<Action>, k: nat)
    requires WellFormed(prio) && k < |Run(prio, actions).registered|
    ensures var r := Run(prio, actions).registered;
            && r[k].v < |prio|
            && Times(r, r[k].v) == 1
            && (prio[r[k].v].Some? ==> (!r[k].reentered <==> exists j :: 0 <= j < k && r[j].v == prio[r[k].v].value))
  {
    var s := Run(prio, actions);
    var r := s.registered;
    assert EntryInv(prio, r, k);
    var v := r[k].v;
    assert GlobalInv(s, v);
    Registered(r, v);
    if prio[v].Some? {
      var p := prio[v].value;
      Registered(r[..k], p);
      assert forall j :: 0 <= j < k ==> r[..k][j] == r[j];
    }
  }

  /** So the destructor reaches it before its priority variable in exactly these cases. */
  lemma DestructionOrder(prio: Priorities, actions: seq<Action>, k: nat, j: nat)
    requires WellFormed(prio)
    requires var r := Run(prio, actions).registered;
             k < |r| && j < |r| && r[k].v < |prio| && prio[r[k].v] == Some(r[j].v)
    ensures var r := Run(prio, actions).registered;
            var d, n := Reversed(r), |r| - 1;
            && d[n - k] == r[k].v && d[n - j] == r[j].v
            && (!r[k].reentered <==> n - k < n - j)
  {
    hide Run, Times, Inv;
    var r := Run(prio, actions).registered;
    var p := r[j].v;
    ReversedAt(r, k);
    ReversedAt(r, j);
    PriorityFirst(prio, actions, k);
    PriorityFirst(prio, actions, j);
    if !r[k].reentered {
      var i :| 0 <= i < k && r[i].v == p;
      if i < j { OncePlaces(r, p, i, j); } else if j < i { OncePlaces(r, p, j, i); }
    }
  }

  // ---------------------------------------------------------------------------------------
  // Creation reached from within the priority variable
  // ---------------------------------------------------------------------------------------

  /** Two variables; the first one is the priority variable of the second one. */
  const PAIR: Priorities := [None, Some(0)]

  const Free: Global := Global(0, None, 0, None, 0)

  function Busy(mark: Option<nat>, buffer: nat, depth: nat, built: nat): Global {
    Global(1, mark, buffer, Some(Owner(0, depth)), built)
  }

  /** A state with one thread, and a call on top of its stack. */
  function Example(g0: Global, g1: Global, p0: nat, p1: nat, below: seq<Frame>, top: Frame): State {
    State([g0, g1], map[0 := Thread(5, [p0, p1], below + [top])], 1, [], [])
  }

  lemma Next(actions: seq<Action>, a: Action, s: State, s': State) returns (longer: seq<Action>)
    requires WellFormed(PAIR) && Run(PAIR, actions) == s && Apply(PAIR, s, a) == s'
    ensures longer == actions + [a] && Run(PAIR, longer) == s'
  {
    longer := actions + [a];
    assert longer[..|longer| - 1] == actions;
  }

  /** The call on top takes a step in which it does not return. */
  lemma Goes(actions: seq<Action>, g0: Global, g1: Global, p0: nat, p1: nat, below: seq<Frame>, top: Frame, g: Global,
             ptr: nat, phase: Phase)
    returns (longer: seq<Action>)
    requires WellFormed(PAIR) && Run(PAIR, actions) == Example(g0, g1, p0, p1, below, top) && top.v < 2
    requires Advance(PAIR, Example(g0, g1, p0, p1, below, top), 0, 7)
             == Goto(Example(g0, g1, p0, p1, below, top), 0, top.v, g, ptr, phase)
    ensures Run(PAIR, longer) == if top.v == 0 then Example(g, g1, ptr, p1, below, Frame(0, phase))
            else Example(g0, g, p0, ptr, below, Frame(1, phase))
  {
    hide Inv, Run, Advance;
    var s := Example(g0, g1, p0, p1, below, top);
    var s' := if top.v == 0 then Example(g, g1, ptr, p1, below, Frame(0, phase))
        else Example(g0, g, p0, ptr, below, Frame(1, phase));
    assert Goto(s, 0, top.v, g, ptr, phase).threads[0] == s'.threads[0];
    assert Goto(s, 0, top.v, g, ptr, phase).vars == s'.vars;
    longer := Next(actions, Step(0, 7), s, s');
  }

  /** One thread calls for the second variable and comes to its priority variable. */
  lemma PriorityReached() returns (actions: seq<Action>)
    ensures WellFormed(PAIR)
    ensures Run(PAIR, actions) == Example(Free, Busy(Some(5), 0, 0, 0), 0, 0, [Frame(1, AwaitPriority)],
                                          Frame(0, Enter))
  {
    hide Inv, Run, Goto;
    StartOfRun();
    var i0 := Initial(PAIR);
    var i1 := State([Free, Free], map[0 := Thread(5, [0, 0], [])], 1, [], []);
    assert i0.vars == [Free, Free] && seq(|PAIR|, _ => 0) == [0, 0];
    actions := Next([], Spawn(5), i0, i1);
    var b0: seq<Frame> := [];
    actions := Next(actions, Call(0, 1), i1, Example(Free, Free, 0, 0, b0, Frame(1, Enter)));
    actions := Goes(actions, Free, Free, 0, 0, b0, Frame(1, Enter), Free, 0, LoadMark);
    actions := Goes(actions, Free, Free, 0, 0, b0, Frame(1, LoadMark), Free, 0, LoadFlag);
    actions := Goes(actions, Free, Free, 0, 0, b0, Frame(1, LoadFlag), Free, 0, Cas);
    actions := Goes(actions, Free, Free, 0, 0, b0, Frame(1, Cas), Busy(None, 0, 0, 0), 0, StoreMark);
    actions := Goes(actions, Free, Busy(None, 0, 0, 0), 0, 0, b0, Frame(1, StoreMark), Busy(Some(5), 0, 0, 0), 0,
                    InitPriority);
    actions := PriorityCalled(actions, Busy(Some(5), 0, 0, 0), [Frame(1, AwaitPriority)]);
  }

  /** And on to the constructor of that one. */
  lemma ConstructorReached() returns (actions: seq<Action>)
    ensures WellFormed(PAIR)
    ensures Run(PAIR, actions) == Example(Busy(Some(5), 7, 1, 1), Busy(Some(5), 0, 0, 0), 7, 0,
                                          [Frame(1, AwaitPriority)], Frame(0, Construct))
  {
    hide Inv, Run, Goto;
    actions := PriorityReached();
    var g1, b1 := Busy(Some(5), 0, 0, 0), [Frame(1, AwaitPriority)];
    actions := Goes(actions, Free, g1, 0, 0, b1, Frame(0, Enter), Free, 0, LoadMark);
    actions := Goes(actions, Free, g1, 0, 0, b1, Frame(0, LoadMark), Free, 0, LoadFlag);
    actions := Goes(actions, Free, g1, 0, 0, b1, Frame(0, LoadFlag), Free, 0, Cas);
    actions := Goes(actions, Free, g1, 0, 0, b1, Frame(0, Cas), Busy(None, 0, 1, 0), 0, StoreMark);
    actions := Goes(actions, Busy(None, 0, 1, 0), g1, 0, 0, b1, Frame(0, StoreMark), Busy(Some(5), 0, 1, 0), 0,
                    InitPriority);
    actions := Goes(actions, Busy(Some(5), 0, 1, 0), g1, 0, 0, b1, Frame(0, InitPriority), Busy(Some(5), 0, 1, 0), 0,
                    Alloc);
    actions := Goes(actions, Busy(Some(5), 0, 1, 0), g1, 0, 0, b1, Frame(0, Alloc), Busy(Some(5), 7, 1, 0), 0, SetPtr);
    actions := Goes(actions, Busy(Some(5), 7, 1, 0), g1, 0, 0, b1, Frame(0, SetPtr), Busy(Some(5), 7, 1, 1), 7,
                    Construct);
  }

  /** If the constructor of the priority variable uses the variable that needs it, that use gets
      null: one thread suffices. */
  lemma NullReturned() returns (actions: seq<Action>, r: Returned)
    ensures WellFormed(PAIR)
    ensures r in Run(PAIR, actions).returned && r.value == 0 && r.early
  {
    hide Inv, Run, Goto;
    actions := ConstructorReached();
    var g0, g1 := Busy(Some(5), 7, 1, 1), Busy(Some(5), 0, 0, 0);
    var b1 := [Frame(1, AwaitPriority)];
    var b2 := b1 + [Frame(0, Construct)];
    actions := Next(actions, Call(0, 1), Example(g0, g1, 7, 0, b1, Frame(0, Construct)),
                    Example(g0, g1, 7, 0, b2, Frame(1, Enter)));
    actions := Goes(actions, g0, g1, 7, 0, b2, Frame(1, Enter), g1, 0, LoadMark);
    actions := Goes(actions, g0, g1, 7, 0, b2, Frame(1, LoadMark), g1, 0, TakeBuffer);
    actions, r := NullTaken(actions, g0, g1, b2);
  }

  lemma PriorityCalled(actions: seq<Action>, g1: Global, waiting: seq<Frame>) returns (longer: seq<Action>)
    requires WellFormed(PAIR) && Run(PAIR, actions) == Example(Free, g1, 0, 0, [], Frame(1, InitPriority))
    requires waiting == [Frame(1, AwaitPriority)]
    ensures Run(PAIR, longer) == Example(Free, g1, 0, 0, waiting, Frame(0, Enter))
  {
    hide Inv, Run;
    var s, s' := Example(Free, g1, 0, 0, [], Frame(1, InitPriority)), Example(Free, g1, 0, 0, waiting, Frame(0, Enter));
    var h := Advance(PAIR, s, 0, 7);
    assert h.threads[0].stack == s'.threads[0].stack && h.threads[0].tls == s'.threads[0].tls && h.vars == s'.vars;
    assert h.threads == s'.threads;
    longer := Next(actions, Step(0, 7), s, s');
  }

  lemma NullTaken(actions: seq<Action>, g0: Global, g1: Global, below: seq<Frame>)
    returns (longer: seq<Action>, r: Returned)
    requires WellFormed(PAIR) && Run(PAIR, actions) == Example(g0, g1, 7, 0, below, Frame(1, TakeBuffer))
    requires g1.buffer == 0 && below != [] && below[0] == Frame(1, AwaitPriority)
    ensures r in Run(PAIR, longer).returned && r.value == 0 && r.early
  {
    hide Inv, Run;
    var s := Example(g0, g1, 7, 0, below, Frame(1, TakeBuffer));
    var stack := s.threads[0].stack;
    assert stack[..|stack| - 1] == below;
    r := Returned(0, 1, 0, g1.flag, true);
    var s' := Apply(PAIR, s, Step(0, 7));
    assert BeforeBuffer(below, 1);
    assert s'.returned == [r];
    longer := Next(actions, Step(0, 7), s, s');
  }

  lemma StartOfRun()
    ensures WellFormed(PAIR) && Run(PAIR, []) == Initial(PAIR)
  {
  }
}
