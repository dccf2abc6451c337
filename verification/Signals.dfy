/** Signal queueing, delivery and return (kernel/src/ipc/signal.rs, kernel/src/syscall/mod.rs). */
module Signals {
  import opened Common
  import opened Errno
  import opened Bits

  const MINSIGSTKSZ := 2048
  const SA_ONSTACK := 0x0800_0000
  const SIG_DFL := 0
  const SIG_IGN := 1

  datatype Action = Action(handler: nat, flags: nat, restorer: nat, mask: nat)

  const DEFAULT_ACTION := Action(0, 0, 0, 0)

  /** A user context: 31 general registers, stack pointer and program counter. */
  datatype Context = Context(regs: seq<nat>, sp: nat, pc: nat)

  datatype Saved = Saved(context: Context, usedAltstack: bool)

  /** An alternate stack; the two flags are SS_ONSTACK and SS_DISABLE. */
  datatype AltStack = AltStack(sp: nat, size: nat, onStack: bool, disabled: bool)

  const NO_ALTSTACK := AltStack(0, 0, false, true)

  /** What user space asks of `sigaltstack`; flag 2 is SS_DISABLE. */
  datatype StackRequest = StackRequest(sp: nat, flags: nat, size: nat)

  predicate Malformed(ss: StackRequest) {
    (ss.flags != 0 && ss.flags != 2) || (ss.flags == 0 && (ss.sp == 0 || ss.size < MINSIGSTKSZ))
  }

  function NewStack(ss: StackRequest): AltStack {
    if ss.flags == 2 then NO_ALTSTACK else AltStack(ss.sp, ss.size, false, false)
  }

  predicate IsFatal(sig: nat) {
    sig == 2 || sig == 3 || sig == 6 || sig == 9 || sig == 15
  }

  /** Signal `sig`, 1 to 64, is in the set. */
  predicate Has(w: Word, sig: nat) {
    1 <= sig <= 64 && Bit(w, sig - 1)
  }

  /** `sig` is the lowest signal in the set. */
  ghost predicate IsLowest(w: Word, sig: nat) {
    Has(w, sig) && forall s: nat :: Has(w, s) ==> sig <= s
  }

  ghost predicate IsEmpty(w: Word) {
    forall s: nat :: !Has(w, s)
  }

  ghost predicate Removed(w: Word, w': Word, sig: nat) {
    forall s: nat {:trigger Has(w', s)} :: Has(w', s) <==> Has(w, s) && s != sig
  }

  /** The search loop shared by delivery and signalfd. */
  method LowestSignal(w: Word) returns (sig: nat)
    ensures if IsEmpty(w) then sig == 0 else IsLowest(w, sig)
  {
    for s := 1 to 65
      invariant forall t: nat :: Has(w, t) ==> s <= t
    {
      TestBit(w, s - 1);
      if And(w, Mask(s - 1)) != 0 {
        assert Has(w, s);
        return s;
      }
    }
    return 0;
  }

  lemma ClearRemoves(w: Word, sig: nat)
    requires 1 <= sig <= 64
    ensures Removed(w, And(w, Not(Mask(sig - 1))), sig)
  {
  }

  /** The processor state a system call returns with; delivery and return leave the status register alone. */
  class Frame {
    var regs: seq<nat>
    var sp: nat
    var pc: nat
    var spsr: nat

    ghost predicate Valid()
      reads this
    {
      |regs| == 31
    }

    ghost function State(): Context
      reads this
    {
      Context(regs, sp, pc)
    }

    constructor ()
      ensures Valid()
    {
      regs, sp, pc, spsr := seq(31, i => 0), 0, 0, 0;
    }

    /** Starts the handler with the signal number, returning through the restorer if there is one. */
    method Enter(sig: nat, action: Action)
      requires Valid()
      modifies `regs, `pc
      ensures Valid() && pc == action.handler && regs[0] == sig && regs[1] == 0 && regs[2] == 0
      ensures regs[30] == if action.restorer != 0 then action.restorer else old(regs)[30]
      ensures forall i :: 3 <= i < 30 ==> regs[i] == old(regs)[i]
    {
      regs := regs[0 := sig][1 := 0][2 := 0];
      if action.restorer != 0 {
        regs := regs[30 := action.restorer];
      }
      pc := action.handler;
    }
  }

  function Get<V>(m: map<nat, V>, pid: nat, default: V): V {
    if pid in m then m[pid] else default
  }

  /** The handler context: `sig` in x0, the return trampoline in x30, and the alternate stack if used. */
  ghost predicate EntersHandler(before: Context, after: Context, sig: nat, action: Action, stack: AltStack,
                                usedAltstack: bool)
    requires |before.regs| == 31
  {
    && |after.regs| == 31 && after.regs[0] == sig && after.regs[1] == 0 && after.regs[2] == 0
    && after.regs[30] == (if action.restorer != 0 then action.restorer else before.regs[30])
    && (forall i :: 3 <= i < 30 ==> after.regs[i] == before.regs[i])
    && after.pc == action.handler
    && after.sp == if usedAltstack then Min(stack.sp + stack.size, U64_MAX) else before.sp
  }

  ghost predicate OnStack(stacks: map<nat, AltStack>, pid: nat) {
    pid in stacks && stacks[pid].onStack
  }

  // Saved contexts and alternate stacks over whole runs.

  /** The part of the tables that handlers depend on. */
  datatype Handlers = Handlers(saved: map<nat, Saved>, stacks: map<nat, AltStack>)

  function StackOf(h: Handlers, pid: nat): AltStack {
    Get(h.stacks, pid, NO_ALTSTACK)
  }

  predicate WantsStack(action: Action) {
    action.flags / SA_ONSTACK % 2 == 1
  }

  predicate UsesStack(stack: AltStack, action: Action) {
    WantsStack(action) && !stack.disabled && stack.size > 0
  }

  function Chosen(stacks: map<nat, AltStack>, pid: nat, action: Action): map<nat, AltStack> {
    var stack := Get(stacks, pid, NO_ALTSTACK);
    if !WantsStack(action) then stacks
    else stacks[pid := if UsesStack(stack, action) then stack.(onStack := true) else stack]
  }

  function Deliver(h: Handlers, pid: nat, context: Context, action: Action): Handlers {
    Handlers(h.saved[pid := Saved(context, UsesStack(StackOf(h, pid), action))], Chosen(h.stacks, pid, action))
  }

  function Left(stacks: map<nat, AltStack>, pid: nat, used: bool): map<nat, AltStack> {
    if used && pid in stacks then stacks[pid := stacks[pid].(onStack := false)] else stacks
  }

  function Restore(h: Handlers, pid: nat): Handlers
    requires pid in h.saved
  {
    Handlers(h.saved - {pid}, Left(h.stacks, pid, h.saved[pid].usedAltstack))
  }

  datatype Delivery = Delivery(context: Context, action: Action)

  datatype Call =
    | Other
    | SetStack(pid: nat, stack: Option<AltStack>)
    | Finish(pid: nat, delivery: Option<Delivery>)
    | Return(pid: nat, restored: Option<Context>)

  /** What a call does to saved contexts and stacks; `Other` stands for all that do not touch them. */
  ghost predicate Step(h: Handlers, call: Call, h': Handlers) {
    match call
    case Other => h' == h
    case SetStack(pid, stack) =>
      if stack.None? then h' == h
      else !OnStack(h.stacks, pid) && !stack.value.onStack && h' == h.(stacks := h.stacks[pid := stack.value])
    case Finish(pid, d) =>
      if d.None? then h' == h else pid !in h.saved && h' == Deliver(h, pid, d.value.context, d.value.action)
    case Return(pid, restored) =>
      if pid in h.saved then restored == Some(h.saved[pid].context) && h' == Restore(h, pid)
      else restored == None && h' == h
  }

  /** A process is on its alternate stack iff its saved context says so. */
  ghost predicate StacksAgree(h: Handlers) {
    forall pid: nat {:trigger OnStack(h.stacks, pid)} ::
      OnStack(h.stacks, pid) <==> pid in h.saved && h.saved[pid].usedAltstack
  }

  lemma StepKeepsAgree(h: Handlers, call: Call, h': Handlers)
    requires StacksAgree(h) && Step(h, call, h')
    ensures StacksAgree(h')
  {
    forall pid: nat ensures OnStack(h'.stacks, pid) <==> pid in h'.saved && h'.saved[pid].usedAltstack {
      assert OnStack(h.stacks, pid) <==> pid in h.saved && h.saved[pid].usedAltstack;
    }
  }

  ghost predicate StepAt(states: seq<Handlers>, calls: seq<Call>, i: nat)
    requires i < |calls| && |states| == |calls| + 1
  {
    Step(states[i], calls[i], states[i + 1])
  }

  ghost predicate IsRun(states: seq<Handlers>, calls: seq<Call>) {
    && |states| == |calls| + 1
    && forall i: nat {:trigger StepAt(states, calls, i)} :: i < |calls| ==> StepAt(states, calls, i)
  }

  /** In every run a process is on its alternate stack exactly while a handler that uses it has not returned. */
  lemma {:induction false} RunKeepsAgree(states: seq<Handlers>, calls: seq<Call>, i: nat)
    requires IsRun(states, calls) && StacksAgree(states[0]) && i < |states|
    ensures StacksAgree(states[i])
  {
    if i > 0 {
      RunKeepsAgree(states, calls, i - 1);
      assert StepAt(states, calls, i - 1);
      StepKeepsAgree(states[i - 1], calls[i - 1], states[i]);
    }
  }

  /** Until its own sigreturn a handler's saved context stays, and so does the alternate stack if it runs on it. */
  lemma StepKeepsSaved(h: Handlers, call: Call, h': Handlers, pid: nat)
    requires StacksAgree(h) && Step(h, call, h') && pid in h.saved && !(call.Return? && call.pid == pid)
    ensures pid in h'.saved && h'.saved[pid] == h.saved[pid]
    ensures h.saved[pid].usedAltstack || !(call.SetStack? && call.pid == pid) ==> StackOf(h', pid) == StackOf(h, pid)
  {
    assert OnStack(h.stacks, pid) <==> h.saved[pid].usedAltstack;
  }

  lemma {:induction false} SavedUntilReturn(states: seq<Handlers>, calls: seq<Call>, i: nat, k: nat, pid: nat)
    requires IsRun(states, calls) && StacksAgree(states[0]) && i <= k < |states| && pid in states[i].saved
    requires forall j {:trigger calls[j]} :: i <= j < k ==> !(calls[j].Return? && calls[j].pid == pid)
    ensures pid in states[k].saved && states[k].saved[pid] == states[i].saved[pid]
    ensures states[i].saved[pid].usedAltstack ||
            (forall j {:trigger calls[j]} :: i <= j < k ==> !(calls[j].SetStack? && calls[j].pid == pid)) ==>
              StackOf(states[k], pid) == StackOf(states[i], pid)
  {
    if i < k {
      SavedUntilReturn(states, calls, i, k - 1, pid);
      RunKeepsAgree(states, calls, k - 1);
      assert StepAt(states, calls, k - 1);
      assert !(calls[k - 1].Return? && calls[k - 1].pid == pid);
      StepKeepsSaved(states[k - 1], calls[k - 1], states[k], pid);
    }
  }

  lemma RestoreUndoesDeliver(h: Handlers, h': Handlers, pid: nat, context: Context, action: Action)
    requires StacksAgree(h) && pid !in h.saved && pid in h'.saved
    requires h'.saved[pid] == Deliver(h, pid, context, action).saved[pid]
    requires StackOf(h', pid) == StackOf(Deliver(h, pid, context, action), pid)
    ensures StackOf(Restore(h', pid), pid) == StackOf(h, pid)
  {
    assert !OnStack(h.stacks, pid);
  }

  /**
   * Between a delivery and the next sigreturn of that process, whatever else is called, by it or by others:
   * the sigreturn restores exactly the context the delivery interrupted, and the alternate stack is what it was
   * before, unless the handler ran on the ordinary stack and set a new one.
   */
  lemma ReturnRestores(states: seq<Handlers>, calls: seq<Call>, i: nat, j: nat, pid: nat, d: Delivery)
    requires IsRun(states, calls) && StacksAgree(states[0]) && i < j < |calls|
    requires calls[i] == Finish(pid, Some(d)) && calls[j].Return? && calls[j].pid == pid
    requires forall k {:trigger calls[k]} :: i < k < j ==> !(calls[k].Return? && calls[k].pid == pid)
    ensures calls[j].restored == Some(d.context) && pid !in states[j + 1].saved
    ensures UsesStack(StackOf(states[i], pid), d.action) ||
            (forall k {:trigger calls[k]} :: i < k < j ==> !(calls[k].SetStack? && calls[k].pid == pid)) ==>
              StackOf(states[j + 1], pid) == StackOf(states[i], pid)
  {
    assert StepAt(states, calls, i) && StepAt(states, calls, j);
    SavedUntilReturn(states, calls, i + 1, j, pid);
    RunKeepsAgree(states, calls, i);
    if StackOf(states[j], pid) == StackOf(states[i + 1], pid) {
      RestoreUndoesDeliver(states[i], states[j], pid, d.context, d.action);
    }
  }

  class SignalTable {
    var pending: map<nat, Word>
    var blocked: map<nat, Word>
    var inHandler: set<nat>
    var actions: map<nat, map<nat, Action>>
    var saved: map<nat, Saved>
    var altstacks: map<nat, AltStack>
    var killed: set<nat>

    /** A process is in a handler iff it has a saved context, and on its alternate stack iff that context says so. */
    ghost predicate Valid()
      reads this
    {
      && inHandler == saved.Keys && StacksAgree(Model())
      && (forall pid {:trigger saved[pid]} :: pid in saved ==> |saved[pid].context.regs| == 31)
    }

    ghost function Model(): Handlers
      reads this
    {
      Handlers(saved, altstacks)
    }

    constructor ()
      ensures Valid() && saved == map[]
    {
      pending, blocked, inHandler, actions, saved, altstacks, killed := map[], map[], {}, map[], map[], map[], {};
    }

    ghost function Deliverable(pid: nat): Word
      reads this
    {
      And(Get(pending, pid, 0), Not(Get(blocked, pid, 0)))
    }

    ghost function ActionFor(pid: nat, sig: nat): Action
      reads this
    {
      Get(Get(actions, pid, map[]), sig, DEFAULT_ACTION)
    }

    method QueueSignal(pid: nat, sig: int)
      requires Valid()
      modifies `pending
      ensures Valid() && Step(old(Model()), Other, Model())
      ensures if 1 <= sig <= 64
              then forall s: nat :: Has(Get(pending, pid, 0), s) <==> Has(old(Get(pending, pid, 0)), s) || s == sig
              else pending == old(pending)
      ensures forall p: nat :: p != pid ==> Get(pending, p, 0) == old(Get(pending, p, 0))
    {
      if sig <= 0 || sig > 64 {
        return;
      }
      pending := pending[pid := Or(Get(pending, pid, 0), Mask(sig - 1))];
    }

    /** Blocks, unblocks or replaces; an unknown `how` changes nothing. */
    method SigProcMask(pid: nat, how: int, newmask: Option<Word>) returns (r: Result<Word, nat>)
      requires Valid()
      modifies `blocked
      ensures Valid() && Step(old(Model()), Other, Model())
      ensures r == if newmask.Some? && !(0 <= how <= 2) then Err(EINVAL) else Ok(old(Get(blocked, pid, 0)))
      ensures r.Err? || newmask.None? ==> blocked == old(blocked)
      ensures r.Ok? && newmask.Some? ==> forall s: nat :: Has(Get(blocked, pid, 0), s) <==>
                if how == 0 then Has(old(Get(blocked, pid, 0)), s) || Has(newmask.value, s)
                else if how == 1 then Has(old(Get(blocked, pid, 0)), s) && !Has(newmask.value, s)
                else Has(newmask.value, s)
    {
      var cur := Get(blocked, pid, 0);
      if newmask.Some? {
        var next;
        if how == 0 {
          next := Or(cur, newmask.value);
        } else if how == 1 {
          next := And(cur, Not(newmask.value));
        } else if how == 2 {
          next := newmask.value;
        } else {
          return Err(EINVAL);
        }
        blocked := blocked[pid := next];
      }
      return Ok(cur);
    }

    /** Takes the lowest pending signal of the mask. */
    method SignalfdConsume(pid: nat, mask: Word) returns (r: Option<nat>)
      requires Valid()
      modifies `pending
      ensures Valid() && Step(old(Model()), Other, Model())
      ensures var masked := And(old(Get(pending, pid, 0)), mask);
              if IsEmpty(masked) then r == None && pending == old(pending)
              else && r.Some? && IsLowest(masked, r.value)
                   && Removed(old(Get(pending, pid, 0)), Get(pending, pid, 0), r.value)
      ensures forall p: nat :: p != pid ==> Get(pending, p, 0) == old(Get(pending, p, 0))
    {
      var bits := Get(pending, pid, 0);
      var sig := LowestSignal(And(bits, mask));
      if sig == 0 {
        return None;
      }
      ClearRemoves(bits, sig);
      assert Has(bits, sig);
      pending := pending[pid := And(bits, Not(Mask(sig - 1)))];
      if bits == 0 {
        NoBits(sig);
      }
      return Some(sig);
    }

    /** Installs a new action; signals outside 1 to 64 are refused. */
    method SetAction(pid: nat, sig: int, action: Option<Action>) returns (r: Result<Action, nat>)
      requires Valid()
      modifies `actions
      ensures Valid() && Step(old(Model()), Other, Model())
      ensures r == if 1 <= sig <= 64 then Ok(old(ActionFor(pid, sig))) else Err(EINVAL)
      ensures forall p: nat, s: nat {:trigger ActionFor(p, s)} ::
                ActionFor(p, s) == if r.Ok? && action.Some? && p == pid && s == sig then action.value
                                   else old(ActionFor(p, s))
    {
      if sig <= 0 || sig > 64 {
        return Err(EINVAL);
      }
      var table := Get(actions, pid, map[]);
      r := Ok(Get(table, sig, DEFAULT_ACTION));
      if action.Some? {
        table := table[sig := action.value];
      }
      actions := actions[pid := table];
    }

    /** Changes the alternate stack if a new one is given, unless it is in use or the request is malformed. */
    method SigAltStack(pid: nat, ss: Option<StackRequest>) returns (r: Result<AltStack, nat>)
      requires Valid()
      modifies `altstacks
      ensures Valid()
      ensures r == if ss.Some? && (Malformed(ss.value) || OnStack(old(altstacks), pid)) then Err(EINVAL)
                   else Ok(StackOf(old(Model()), pid))
      ensures Step(old(Model()), SetStack(pid, if r.Ok? && ss.Some? then Some(NewStack(ss.value)) else None), Model())
    {
      var current := Get(altstacks, pid, NO_ALTSTACK);
      assert OnStack(altstacks, pid) <==> current.onStack;
      if ss.None? {
        return Ok(current);
      }
      var StackRequest(sp, flags, size) := ss.value;
      if flags != 0 && flags != 2 {
        return Err(EINVAL);
      }
      if current.onStack {
        return Err(EINVAL);
      }
      if flags == 0 && (sp == 0 || size < MINSIGSTKSZ) {
        return Err(EINVAL);
      }
      ghost var h := Model();
      altstacks := altstacks[pid := NewStack(ss.value)];
      StepKeepsAgree(h, SetStack(pid, Some(NewStack(ss.value))), Model());
      return Ok(current);
    }

    /** Restores the context saved at delivery, exactly, and leaves the alternate stack. */
    method SigReturn(pid: nat, frame: Frame) returns (r: Result<nat, nat>, ghost restored: Option<Context>)
      requires Valid() && frame.Valid()
      modifies `saved, `inHandler, `altstacks, frame
      ensures Valid() && frame.Valid() && frame.spsr == old(frame.spsr)
      ensures Step(old(Model()), Return(pid, restored), Model())
      ensures if pid in old(saved) then restored == Some(frame.State()) && r == Ok(frame.regs[0])
              else r == Err(EINVAL) && frame.State() == old(frame.State())
    {
      if pid !in saved {
        return Err(EINVAL), None;
      }
      ghost var h := Model();
      var s := saved[pid];
      saved := saved - {pid};
      for i := 0 to 31
        modifies frame
        invariant |frame.regs| == 31 && frame.regs[..i] == s.context.regs[..i]
        invariant frame.sp == old(frame.sp) && frame.pc == old(frame.pc) && frame.spsr == old(frame.spsr)
      {
        frame.regs := frame.regs[i := s.context.regs[i]];
      }
      assert frame.regs == s.context.regs;
      frame.sp, frame.pc := s.context.sp, s.context.pc;
      if s.usedAltstack && pid in altstacks {
        altstacks := altstacks[pid := altstacks[pid].(onStack := false)];
      }
      inHandler := inHandler - {pid};
      restored := Some(s.context);
      StepKeepsAgree(h, Return(pid, restored), Model());
      return Ok(s.context.regs[0]), restored;
    }

    /** Makes the frame enter the handler on the stack it asks for, saving what was interrupted. */
    method EnterHandler(pid: nat, frame: Frame, sig: nat, action: Action)
      requires Valid() && frame.Valid() && pid !in inHandler
      modifies `saved, `inHandler, `altstacks, frame
      ensures Valid() && frame.Valid() && frame.spsr == old(frame.spsr)
      ensures Step(old(Model()), Finish(pid, Some(Delivery(old(frame.State()), action))), Model())
      ensures var stack := StackOf(old(Model()), pid);
              EntersHandler(old(frame.State()), frame.State(), sig, action, stack, UsesStack(stack, action))
    {
      ghost var h := Model();
      var context := Context(frame.regs, frame.sp, frame.pc);
      var used := ChooseStack(pid, frame, action);
      saved := saved[pid := Saved(context, used)];
      inHandler := inHandler + {pid};
      frame.Enter(sig, action);
      StepKeepsAgree(h, Finish(pid, Some(Delivery(context, action))), Model());
    }

    /** Switches to the alternate stack if the action wants it and there is one. */
    method ChooseStack(pid: nat, frame: Frame, action: Action) returns (used: bool)
      modifies `altstacks, frame`sp
      ensures used == UsesStack(old(Get(altstacks, pid, NO_ALTSTACK)), action)
      ensures frame.sp == if used then var st := old(Get(altstacks, pid, NO_ALTSTACK)); Min(st.sp + st.size, U64_MAX)
                          else old(frame.sp)
      ensures altstacks == Chosen(old(altstacks), pid, action)
    {
      used := false;
      if WantsStack(action) {
        var st := Get(altstacks, pid, NO_ALTSTACK);
        if !st.disabled && st.size > 0 {
          used := true;
          frame.sp := Min(st.sp + st.size, U64_MAX);
          st := st.(onStack := true);
        }
        altstacks := altstacks[pid := st];
      }
    }

    /**
     * Delivers at most one signal: the lowest pending one that is not blocked, and none inside a handler.
     * `sig` is the signal taken, or 0.
     */
    method DispatchPending(pid: nat, frame: Frame) returns (ghost sig: nat, ghost delivery: Option<Delivery>)
      requires Valid() && frame.Valid()
      modifies `pending, `saved, `inHandler, `altstacks, `killed, frame
      ensures Valid() && frame.Valid() && frame.spsr == old(frame.spsr)
      ensures sig > 0 <==> pid !in old(inHandler) && !IsEmpty(old(Deliverable(pid)))
      ensures sig == 0 ==> pending == old(pending)
      ensures sig > 0 ==> && IsLowest(old(Deliverable(pid)), sig)
                          && Removed(old(Get(pending, pid, 0)), Get(pending, pid, 0), sig)
      ensures forall p: nat :: p != pid ==> Get(pending, p, 0) == old(Get(pending, p, 0))
      ensures var fatal := sig > 0 && old(ActionFor(pid, sig)).handler == SIG_DFL && IsFatal(sig);
              killed == if fatal then old(killed) + {pid} else old(killed)
      ensures Step(old(Model()), Finish(pid, delivery), Model())
      ensures delivery.Some? <==> sig > 0 && old(ActionFor(pid, sig)).handler > 1
      ensures delivery.None? ==> frame.State() == old(frame.State())
      ensures delivery.Some? ==>
                var action, stack := old(ActionFor(pid, sig)), StackOf(old(Model()), pid);
                && delivery.value == Delivery(old(frame.State()), action)
                && EntersHandler(old(frame.State()), frame.State(), sig, action, stack, UsesStack(stack, action))
    {
      sig, delivery := 0, None;
      if pid in inHandler {
        return;
      }
      var bits, mask := Get(pending, pid, 0), Get(blocked, pid, 0);
      var lowest := LowestSignal(And(bits, Not(mask)));
      if lowest == 0 {
        return;
      }
      sig := lowest;
      ClearRemoves(bits, lowest);
      assert Has(bits, lowest);
      NoBits(lowest);
      if pid in pending {
        pending := pending[pid := And(bits, Not(Mask(lowest - 1)))];
      }
      var action := Get(Get(actions, pid, map[]), lowest, DEFAULT_ACTION);
      if action.handler == SIG_IGN {
        return;
      }
      if action.handler == SIG_DFL {
        if IsFatal(lowest) {
          killed := killed + {pid};
        }
        return;
      }
      delivery := Some(Delivery(frame.State(), action));
      EnterHandler(pid, frame, lowest, action);
    }

    /** The end of every system call: the result goes to x0, then signals are delivered. */
    method FinishSyscall(pid: nat, frame: Frame, ret: nat) returns (ghost sig: nat, ghost delivery: Option<Delivery>)
      requires Valid() && frame.Valid()
      modifies `pending, `saved, `inHandler, `altstacks, `killed, frame
      ensures Valid() && frame.Valid() && frame.spsr == old(frame.spsr)
      ensures sig > 0 <==> pid !in old(inHandler) && !IsEmpty(old(Deliverable(pid)))
      ensures sig == 0 ==> pending == old(pending)
      ensures sig > 0 ==> && IsLowest(old(Deliverable(pid)), sig)
                          && Removed(old(Get(pending, pid, 0)), Get(pending, pid, 0), sig)
      ensures forall p: nat :: p != pid ==> Get(pending, p, 0) == old(Get(pending, p, 0))
      ensures var fatal := sig > 0 && old(ActionFor(pid, sig)).handler == SIG_DFL && IsFatal(sig);
              killed == if fatal then old(killed) + {pid} else old(killed)
      ensures Step(old(Model()), Finish(pid, delivery), Model())
      ensures delivery.Some? <==> sig > 0 && old(ActionFor(pid, sig)).handler > 1
      ensures var interrupted := old(frame.State()).(regs := old(frame.regs)[0 := ret]);
              if delivery.Some? then delivery.value == Delivery(interrupted, old(ActionFor(pid, sig)))
              else frame.State() == interrupted
    {
      frame.regs := frame.regs[0 := ret];
      sig, delivery := DispatchPending(pid, frame);
    }

    /**
     * The sigreturn system call: whatever the handler left in the registers, the interrupted context is back
     * exactly, in the frame, or saved again if another signal is delivered at once. Outside a handler it fails.
     */
    method HandleSigreturn(pid: nat, frame: Frame)
      returns (ghost sig: nat, ghost restored: Option<Context>, ghost mid: Handlers, ghost delivery: Option<Delivery>)
      requires Valid() && frame.Valid()
      modifies `pending, `saved, `inHandler, `altstacks, `killed, frame
      ensures Valid() && frame.Valid() && frame.spsr == old(frame.spsr)
      ensures forall p: nat :: p != pid ==> Get(pending, p, 0) == old(Get(pending, p, 0))
      ensures Step(old(Model()), Return(pid, restored), mid) && Step(mid, Finish(pid, delivery), Model())
      ensures var failed := old(frame.State()).(regs := old(frame.regs)[0 := Negated(EINVAL)]);
              var context := if restored.Some? then restored.value else failed;
              if delivery.Some? then delivery.value.context == context else frame.State() == context
      ensures sig > 0 <==> !IsEmpty(old(Deliverable(pid)))
      ensures delivery.Some? <==> sig > 0 && old(ActionFor(pid, sig)).handler > 1
    {
      var r;
      r, restored := SigReturn(pid, frame);
      mid := Model();
      assert r.Ok? ==> frame.regs[0 := frame.regs[0]] == frame.regs;
      sig, delivery := FinishSyscall(pid, frame, if r.Ok? then r.value else Negated(r.error));
    }

    /**
     * A delivery and the return from its handler, which may leave any registers behind: the context that the
     * interrupted system call was to return with, its result in x0, is back exactly, and so is the alternate
     * stack. The status register is the one the handler left.
     */
    method DeliverThenReturn(pid: nat, frame: Frame, ret: nat, left: Context, leftSpsr: nat)
      returns (ghost first: nat, ghost again: Option<Delivery>)
      requires Valid() && frame.Valid() && |left.regs| == 31 && pid !in inHandler
      modifies this, frame
      ensures Valid() && frame.Valid()
      ensures var interrupted := old(frame.State()).(regs := old(frame.regs)[0 := ret]);
              if again.Some? then pid in saved && saved[pid].context == interrupted
              else && frame.State() == interrupted && pid !in saved
                   && StackOf(Model(), pid) == StackOf(old(Model()), pid)
      ensures frame.spsr == if first > 0 && old(ActionFor(pid, first)).handler > 1 then leftSpsr else old(frame.spsr)
    {
      again := None;
      ghost var h := Model();
      ghost var delivery;
      first, delivery := FinishSyscall(pid, frame, ret);
      if pid in saved {
        frame.regs, frame.sp, frame.pc, frame.spsr := left.regs, left.sp, left.pc, leftSpsr;
        ghost var _, restored, mid, next := HandleSigreturn(pid, frame);
        again := next;
        RestoreUndoesDeliver(h, Deliver(h, pid, delivery.value.context, delivery.value.action), pid,
                             delivery.value.context, delivery.value.action);
      }
    }
  }

  /** What user space sees of a failed call: the negated error number as a word. */
  function Negated(errno: nat): nat
    requires 0 < errno <= U64_MAX
  {
    U64_MAX + 1 - errno
  }

  lemma NoBits(sig: nat)
    ensures !Has(0, sig)
  {
    if 1 <= sig <= 64 {
      ZeroHasNoBits(sig - 1);
    }
  }
}
