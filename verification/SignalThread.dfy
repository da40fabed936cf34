/** A thread that takes signals when it returns from system calls. */
module SignalThread {
  import opened Signals

  /** What a signal without a handler comes to. */
  predicate Ignored(h: nat, s: nat) {
    h == SIG_IGN || (h == SIG_DFL && (s == SIGCHLD || s == SIGCONT || s == SIGTSTP || s == SIGSTOP))
  }

  datatype Outcome = Nothing | Handler(s: nat) | Exit(s: nat)

  /** A signal to act on: pending, not blocked and not ignored. */
  predicate Due(pending: set<nat>, mask: set<nat>, handlers: seq<nat>, s: nat)
    requires |handlers| == 32
  { 1 <= s < 32 && s in pending && s !in mask && !Ignored(handlers[s], s) }

  /** What the lowest signal to act on, if there is one, comes to. */
  ghost predicate IsNext(out: Outcome, pending: set<nat>, mask: set<nat>, handlers: seq<nat>)
    requires |handlers| == 32
  {
    if out == Nothing then forall r: nat :: !Due(pending, mask, handlers, r)
    else
      && Due(pending, mask, handlers, out.s) && (forall r: nat :: r < out.s ==> !Due(pending, mask, handlers, r))
      && (out.Exit? <==> handlers[out.s] == SIG_DFL)
  }

  // ----- what a thread does ----------------------------------------------------------------------------------------

  /** System calls that change the mask or a handler, and all others, with what they return. */
  datatype Call =
    | Other(ret: nat)
    | Block(bits: set<nat>)
    | Unblock(bits: set<nat>)
    | SetMask(bits: set<nat>)
    | Action(sig: nat, handler: nat, restorer: nat)

  /** A well-nested run: stores, moves of the registers, signals from elsewhere, and system calls. When a call
      delivers a signal its handler runs the first of `bodies`, one delivered on its return the second, and so on. */
  datatype Act = Store(x: nat, w: Word) | Move(rip: nat, rflags: nat, rsp: nat) | Raise(s: nat) | Syscall(call: Call,
      bodies: Bodies)
  datatype Acts = Nil | Cons(act: Act, rest: Acts)
  datatype Bodies = None | More(body: Acts, rest: Bodies)

  const EINVAL: nat := 0xFFFF_FFFF_FFFF_FFEA    // -22 in 64 bits

  function Result(call: Call): nat {
    if call.Other? then call.ret else if call.Action? && call.sig >= 32 then EINVAL else 0
  }

  /** SIGKILL and SIGSTOP are never blocked by a call. */
  function MaskAfter(mask: set<nat>, call: Call): set<nat> {
    match call
    case Block(bits) => mask + bits - {SIGKILL, SIGSTOP}
    case Unblock(bits) => mask - bits - {SIGKILL, SIGSTOP}
    case SetMask(bits) => bits - {SIGKILL, SIGSTOP}
    case _ => mask
  }

  /** A new handler, for a signal there is. */
  function HandlersAfter(handlers: seq<nat>, call: Call): seq<nat> {
    if call.Action? && call.sig < 32 && call.sig < |handlers| then handlers[call.sig := call.handler] else handlers
  }

  /** Nothing in the run takes `s` out of the mask. */
  ghost predicate Keeps(acts: Acts, s: nat) { acts.Cons? ==> ActKeeps(acts.act, s) && Keeps(acts.rest, s) }

  ghost predicate ActKeeps(act: Act, s: nat) {
    act.Syscall? ==> s in MaskAfter({s}, act.call) && BodiesKeep(act.bodies, s)
  }

  ghost predicate BodiesKeep(bodies: Bodies, s: nat) { bodies.More? ==>
                                                      Keeps(bodies.body, s) && BodiesKeep(bodies.rest, s) }

  /** `s` ran no handler since. */
  ghost predicate Spared(log0: seq<nat>, log: seq<nat>, s: nat) {
    |log0| <= |log| && log[..|log0|] == log0 && s !in log[|log0|..]
  }

  /** Without a signal to act on nothing runs; one with a handler runs it first; one without ends the thread. */
  ghost predicate Acted(out: Outcome, log0: seq<nat>, log: seq<nat>, dead: bool) {
    match out
    case Nothing => !dead && log == log0
    case Exit(_) => dead && log == log0
    case Handler(s) => |log| > |log0| && log[..|log0|] == log0 && log[|log0|] == s
  }

  /** All that the interrupted code owns is as it was. */
  ghost predicate OwnedKept(mem0: Memory, mem: Memory, ctxs: seq<Context>) {
    ctxs != [] ==> forall x: nat :: x >= Limit(ctxs) ==> Load(mem, x) == Load(mem0, x)
  }

  // ----- the run without signals -------------------------------------------------------------------------------------

  /** Registers, mask and memory of the running code; `lost` is the memory it cannot rely on. */
  datatype Regs = Regs(rip: nat, rflags: nat, rsp: nat, rax: nat, mask: set<nat>, mem: Memory, lost: iset<nat>)

  predicate BelowZone(x: nat, rsp: nat) { x + 128 < rsp }

  /** An act as if no signal were ever delivered: a call gives its result, and memory below the red zone is lost. */
  ghost function AloneAct(r: Regs, act: Act, inside: bool, limit: nat): Regs {
    match act
    case Store(x, w) =>
      if x % 8 == 0 && (!inside || x + 8 <= limit) then r.(mem := r.mem[x := w], lost := r.lost - iset{x}) else r
    case Move(ip, flags, sp) => if !inside || sp <= limit then r.(rip := ip, rflags := flags, rsp := sp) else r
    case Raise(_) => r
    case Syscall(call, _) =>
      if r.rsp < 192 then r
      else r.(rax := Result(call), mask := MaskAfter(r.mask, call), lost :=
              r.lost + (iset x: nat | BelowZone(x, r.rsp)))
  }

  ghost function Alone(r: Regs, acts: Acts, inside: bool, limit: nat): Regs
    decreases acts
  { if acts.Nil? then r else Alone(AloneAct(r, acts.act, inside, limit), acts.rest, inside, limit) }

  /** The same registers and mask, and the same memory but for what `b` cannot rely on. */
  ghost predicate Follows(a: Regs, b: Regs) {
    && a.rip == b.rip && a.rflags == b.rflags && a.rsp == b.rsp && a.rax == b.rax && a.mask == b.mask
       && a.lost <= b.lost
    && forall x: nat :: x !in b.lost ==> Load(a.mem, x) == Load(b.mem, x)
  }

  lemma {:induction false} AloneFollows(a: Regs, b: Regs, acts: Acts, inside: bool, limit: nat)
    requires Follows(a, b)
    ensures Follows(Alone(a, acts, inside, limit), Alone(b, acts, inside, limit))
    decreases acts
  {
    if acts.Cons? {
      AloneFollows(AloneAct(a, acts.act, inside, limit), AloneAct(b, acts.act, inside, limit), acts.rest, inside,
                   limit);
    }
  }

  // ----- no signal is lost -------------------------------------------------------------------------------------------

  /** Nothing in the run sets the action of `s`. */
  ghost predicate Leaves(acts: Acts, s: nat) { acts.Cons? ==> ActLeaves(acts.act, s) && Leaves(acts.rest, s) }

  ghost predicate ActLeaves(act: Act, s: nat) {
    act.Syscall? ==> !(act.call.Action? && act.call.sig == s) && BodiesLeave(act.bodies, s)
  }

  ghost predicate BodiesLeave(bodies: Bodies, s: nat) { bodies.More? ==>
                                                       Leaves(bodies.body, s) && BodiesLeave(bodies.rest, s) }

  /** The run itself raises `s`. */
  ghost predicate Raises(acts: Acts, s: nat) { acts.Cons? && (acts.act == Raise(s) || Raises(acts.rest, s)) }

  /** A signal `s` that is not ignored keeps its action and, if there `was` one, is pending or ran its handler. */
  ghost predicate Cared(h0: seq<nat>, h: seq<nat>, was: bool, pending: set<nat>, log0: seq<nat>, log: seq<nat>,
                        dead: bool, s: nat)
  {
    1 <= s < |h0| && !Ignored(h0[s], s) ==>
      s < |h| && h[s] == h0[s] && (was && !dead ==> s in pending || (|log0| <= |log| && s in log[|log0|..]))
  }

  lemma CaredOn(h0: seq<nat>, h1: seq<nat>, h: seq<nat>, was: bool, pending1: set<nat>, pending: set<nat>,
                log0: seq<nat>, log1: seq<nat>, log: seq<nat>, dead: bool, s: nat)
    requires Cared(h0, h1, was, pending1, log0, log1, false, s)
    requires Cared(h1, h, s in pending1, pending, log1, log, dead, s)
    requires |log0| <= |log1| <= |log| && log1[..|log0|] == log0 && log[..|log1|] == log1
    ensures Cared(h0, h, was, pending, log0, log, dead, s)
  {
    if |log0| <= |log1| && s in log1[|log0|..] {
      var i: nat :| i < |log1| - |log0| && log1[|log0|..][i] == s;
      assert log1[|log0| + i] == s && log[..|log1|][|log0| + i] == s && log[|log0|..][i] == s;
    }
    if s in log[|log1|..] {
      var i: nat :| i < |log| - |log1| && log[|log1|..][i] == s;
      assert log[|log0|..][|log1| - |log0| + i] == s;
    }
  }

  /** What a choice comes to: a signal that is not ignored is pending still, ran its handler or ended the thread. */
  lemma ChosenCared(h: seq<nat>, pending0: set<nat>, pending: set<nat>, out: Outcome, log: seq<nat>)
    requires |h| == 32
    requires forall r: nat :: 1 <= r < 32 && r in pending0 && !Ignored(h[r], r) ==>
               r in pending || (out != Nothing && r == out.s)
    ensures forall s: nat ::
              Cared(h, h, s in pending0, pending, log, if out.Handler? then log + [out.s] else log, out.Exit?, s)
  {
    if out.Handler? {
      assert (log + [out.s])[|log|..] == [out.s];
    }
  }

  lemma ActedFirst(out: Outcome, log0: seq<nat>, log1: seq<nat>, log: seq<nat>, dead: bool)
    requires out.Handler? && log1 == log0 + [out.s] && |log1| <= |log| && log[..|log1|] == log1
    ensures Acted(out, log0, log, dead)
  {
    assert log[|log0|] == log[..|log1|][|log0|];
  }

  lemma SparedOn(log0: seq<nat>, log1: seq<nat>, log: seq<nat>, s: nat, first: nat)
    requires log1 == log0 + [first] && s != first && Spared(log1, log, s)
    ensures Spared(log0, log, s)
  {
    assert log[|log0|..] == [first] + log[|log1|..];
  }

  class Thread {
    var rip: nat
    var rflags: nat
    var rsp: nat
    var rax: nat
    var rdi: nat
    var mask: set<nat>
    var pending: set<nat>
    var handlers: seq<nat>
    var restorer: nat
    var mem: Memory
    var dead: bool
    ghost var ctxs: seq<Context>     // what the running handlers interrupted, innermost last
    ghost var log: seq<nat>          // every signal that ran a handler

    /** Frames are intact, and the stack pointer is below the running handler's. */
    ghost predicate Valid()
      reads this
    {
      && |handlers| == 32 && restorer != 0 && StackOk(mem, ctxs)
      && (ctxs != [] ==> rsp <= Limit(ctxs))
    }

    ghost function Now(): Regs
      reads this
    { Regs(rip, rflags, rsp, rax, mask, mem, iset{}) }

    /** The lowest signal pending and not blocked that is not ignored; ignored ones before it are dropped. */
    method Choose() returns (out: Outcome)
      requires Valid()
      modifies this`pending
      ensures pending <= old(pending) && IsNext(out, old(pending), mask, handlers)
      ensures if out == Nothing then forall r: nat :: !Due(pending, mask, handlers, r) else out.s !in pending
      ensures forall r: nat :: 1 <= r < 32 && r in old(pending) && !Ignored(handlers[r], r) ==>
                r in pending || (out != Nothing && r == out.s)
    {
      var s := 1;
      while s < 32
        invariant 1 <= s <= 32 && pending <= old(pending)
        invariant forall r: nat :: s <= r && r in old(pending) ==> r in pending
        invariant forall r: nat :: r < s ==> !Due(old(pending), mask, handlers, r)
        invariant forall r: nat :: 1 <= r < 32 && r in old(pending) && !Ignored(handlers[r], r) ==> r in pending
      {
        if s in pending && s !in mask {
          pending := pending - {s};
          if !Ignored(handlers[s], s) {
            return if handlers[s] == SIG_DFL then Exit(s) else Handler(s);
          }
        }
        s := s + 1;
      }
      out := Nothing;
      assert forall r: nat :: Due(pending, mask, handlers, r) ==> Due(old(pending), mask, handlers, r);
    }

    /** Save the interrupted context below the red zone and point the thread at the handler. */
    method PushFrame(s: nat, ret: nat)
      requires Valid() && 1 <= s < 32 && rsp >= 192
      modifies this`rip, this`rsp, this`rdi, this`mask, this`mem, this`ctxs, this`log
      ensures Valid() && log == old(log) + [s]
      ensures var c := Context(old(rip), rflags, old(rsp), ret, old(mask), FrameFor(old(rsp)), s);
              ctxs == old(ctxs) + [c] && rsp == c.frame - 8 && Load(mem, rsp) == Num(restorer)
      ensures rip == handlers[s] && rdi == s && mask == old(mask) + {s}
      ensures forall x: nat :: x + 128 >= old(rsp) ==> Load(mem, x) == Load(old(mem), x)
    {
      var c := Context(rip, rflags, rsp, ret, mask, FrameFor(rsp), s);
      StoreFrame(c);
      log := log + [s];
      mask, rsp, rdi, rip := mask + {s}, c.frame - 8, s, handlers[s];
    }

    method StoreFrame(c: Context)
      requires StackOk(mem, ctxs) && (ctxs != [] ==> c.rsp <= Limit(ctxs))
      requires c.rsp >= 192 && c.frame >= 8 && c.frame % 8 == 0 && c.frame + 40 + 128 <= c.rsp
      modifies this`mem, this`ctxs
      ensures ctxs == old(ctxs) + [c] && StackOk(mem, ctxs) && Load(mem, c.frame - 8) == Num(restorer)
      ensures forall x: nat :: x + 128 >= c.rsp ==> Load(mem, x) == Load(old(mem), x)
    {
      ghost var mem0 := mem;
      mem := WithFrame(mem, c, restorer);
      SignalPushed(mem0, ctxs, c, restorer, mem);
      ctxs := ctxs + [c];
    }

    /** The end of a system call that returns `ret`: deliver one signal, if there is one to deliver. */
    method Deliver(ret: nat) returns (handled: bool)
      requires Valid() && !dead && rsp >= 192
      modifies this`rip, this`rsp, this`rdi, this`rax, this`mask, this`mem, this`ctxs, this`log, this`pending, this`dead
      ensures Valid() && rax == ret
      ensures forall out :: IsNext(out, old(pending), old(mask), handlers) ==>
                (handled <==> out.Handler?) && (dead <==> out.Exit?) && (handled ==> log == old(log) + [out.s])
      ensures !handled ==>
                rip == old(rip) && rsp == old(rsp) && mask == old(mask) && mem == old(mem) && ctxs == old(ctxs)
                  && log == old(log)
      ensures handled ==>
                && !dead && |ctxs| == |old(ctxs)| + 1
                && var s := ctxs[|old(ctxs)|].sig;
                && ctxs == old(ctxs) + [Context(old(rip), rflags, old(rsp), ret, old(mask), FrameFor(old(rsp)), s)]
                && s < 32 == |handlers| && s in old(pending) && s !in old(mask) && pending <= old(pending) - {s}
                && rsp == FrameFor(old(rsp)) - 8 && Load(mem, rsp) == Num(restorer) && rip == handlers[s]
                && mask == old(mask) + {s} && log == old(log) + [s]
      ensures pending <= old(pending) && (!handled && !dead ==> forall r: nat :: !Due(pending, mask, handlers, r))
      ensures forall s: nat :: Cared(handlers, handlers, s in old(pending), pending, old(log), log, dead, s)
      ensures forall x: nat :: x + 128 >= old(rsp) ==> Load(mem, x) == Load(old(mem), x)
    {
      var out := Choose();
      handled := out.Handler?;
      ChosenCared(handlers, old(pending), pending, out, log);
      match out {
        case Nothing =>
        case Exit(_) => dead := true;
        case Handler(s) => PushFrame(s, ret);
      }
      rax := ret;
    }

    /** The call that ends a handler: the stack pointer is at the frame. */
    method Sigreturn() returns (ret: nat)
      requires |handlers| == 32 && restorer != 0 && StackOk(mem, ctxs) && ctxs != [] && rsp == ctxs[|ctxs| - 1].frame
      modifies this`rip, this`rflags, this`rsp, this`mask, this`ctxs
      ensures Valid() && ctxs == old(ctxs)[..|old(ctxs)| - 1]
      ensures var c := old(ctxs)[|old(ctxs)| - 1];
              rip == c.rip && rflags == c.rflags && rsp == c.rsp && mask == c.mask && ret == c.rax
    {
      assert FrameOk(mem, ctxs[|ctxs| - 1]);
      FramePopped(mem, ctxs);
      var fr := rsp;
      rip, rflags, rsp := NumAt(mem, fr), NumAt(mem, fr + 8), NumAt(mem, fr + 16);
      mask, ret := MaskAt(mem, fr + 32), NumAt(mem, fr + 24);
      ctxs := ctxs[..|ctxs| - 1];
    }

    // ----- runs ------------------------------------------------------------------------------------------------------

    /** Acts of the main program, or of a handler whose stack pointer was `limit` on entry; those that a handler must
        not do, to the stack of the code it interrupted, are not made. */
    method Run(acts: Acts, inside: bool, limit: nat)
      requires Valid() && !dead && inside == (ctxs != []) && (inside ==> limit == Limit(ctxs))
      modifies this
      ensures Valid()
      ensures !dead ==> ctxs == old(ctxs) && OwnedKept(old(mem), mem, ctxs)
      ensures !dead ==> Follows(Now(), Alone(old(Now()), acts, inside, limit))
      ensures forall s: nat :: Leaves(acts, s) ==>
                Cared(old(handlers), handlers, s in old(pending) || Raises(acts, s), pending, old(log), log, dead, s)
      ensures forall s: nat :: s in old(mask) && Keeps(acts, s) ==> Spared(old(log), log, s) && (dead || s in mask)
      ensures |old(log)| <= |log| && log[..|old(log)|] == old(log)
      decreases acts, pending, 0
    {
      match acts
      case Nil =>
      case Cons(act, rest) =>
        Do(act, inside, limit);
        if !dead {
          ghost var h1, pending1, log1, now1 := handlers, pending, log, Now();
          Run(rest, inside, limit);
          AloneFollows(now1, AloneAct(old(Now()), act, inside, limit), rest, inside, limit);
          forall s: nat | Leaves(acts, s)
            ensures Cared(old(handlers), handlers, s in old(pending)
                          || Raises(acts, s), pending, old(log), log, dead, s)
          {
            CaredOn(old(handlers), h1, handlers, s in old(pending)
                    || act == Raise(s), pending1, pending, old(log), log1,
                    log, dead, s);
          }
        }
    }

    method Do(act: Act, inside: bool, limit: nat)
      requires Valid() && !dead && inside == (ctxs != []) && (inside ==> limit == Limit(ctxs))
      modifies this
      ensures Valid()
      ensures !dead ==> ctxs == old(ctxs) && OwnedKept(old(mem), mem, ctxs)
      ensures !dead ==> Follows(Now(), AloneAct(old(Now()), act, inside, limit))
      ensures forall s: nat :: ActLeaves(act, s) ==>
                Cared(old(handlers), handlers, s in old(pending) || act == Raise(s), pending, old(log), log, dead, s)
      ensures forall s: nat :: s in old(mask) && ActKeeps(act, s) ==> Spared(old(log), log, s) && (dead || s in mask)
      ensures |old(log)| <= |log| && log[..|old(log)|] == old(log)
      decreases act, pending, 0
    {
      match act
      case Store(x, w) =>
        if x % 8 == 0 && (!inside || x + 8 <= limit) {
          mem := mem[x := w];
          FramesKept(old(mem), mem, ctxs);
        }
      case Move(ip, flags, sp) =>
        if !inside || sp <= limit {
          rip, rflags, rsp := ip, flags, sp;
        }
      case Raise(s) => pending := pending + {s};
      case Syscall(call, bodies) =>
        if rsp >= 192 {
          SystemCall(call, bodies);
        }
    }

    /** A system call, with whatever signals it delivers and their handlers: the caller finds its registers, its
        mask and its stack, the red zone included, as they were, and the call's own result. */
    method SystemCall(call: Call, bodies: Bodies)
      requires Valid() && !dead && rsp >= 192
      modifies this
      ensures Valid()
      ensures !dead ==> rip == old(rip) && rflags == old(rflags) && rsp == old(rsp) && rax == Result(call)
      ensures !dead ==> mask == MaskAfter(old(mask), call) && ctxs == old(ctxs)
      ensures !dead ==> forall x: nat :: x + 128 >= old(rsp) ==> Load(mem, x) == Load(old(mem), x)
      ensures forall s: nat :: s in MaskAfter(old(mask), call) && BodiesKeep(bodies, s) ==> Spared(old(log), log, s)
      ensures |old(log)| <= |log| && log[..|old(log)|] == old(log)
      ensures forall out ::
                IsNext(out, old(pending), MaskAfter(old(mask), call), HandlersAfter(old(handlers), call)) ==>
                Acted(out, old(log), log, dead)
      ensures !dead ==> forall r: nat :: !Due(pending, mask, handlers, r)
      ensures forall s: nat :: ActLeaves(Syscall(call, bodies), s) ==>
                Cared(old(handlers), handlers, s in old(pending), pending, old(log), log, dead, s)
      decreases bodies, pending, 2
    {
      Apply(call);
      Settle(Result(call), bodies);
    }

    /** The call itself. */
    method Apply(call: Call)
      requires Valid()
      modifies this`handlers, this`restorer, this`mask
      ensures Valid() && mask == MaskAfter(old(mask), call) && handlers == HandlersAfter(old(handlers), call)
      ensures restorer == if call.Action? && call.sig < 32 && call.restorer != 0 then call.restorer else old(restorer)
    {
      if call.Action? && call.sig < 32 {
        handlers := handlers[call.sig := call.handler];
        if call.restorer != 0 {
          restorer := call.restorer;
        }
      }
      mask := MaskAfter(mask, call);
    }

    /** The end of a call that returns `ret`, with all handlers that run before the caller goes on. */
    method Settle(ret: nat, bodies: Bodies)
      requires Valid() && !dead && rsp >= 192
      modifies this
      ensures Valid()
      ensures !dead ==>
                rip == old(rip) && rflags == old(rflags) && rsp == old(rsp) && rax == ret && mask == old(mask)
                  && ctxs == old(ctxs)
      ensures !dead ==> forall x: nat :: x + 128 >= old(rsp) ==> Load(mem, x) == Load(old(mem), x)
      ensures forall s: nat :: s in old(mask) && BodiesKeep(bodies, s) ==> Spared(old(log), log, s)
      ensures forall out :: IsNext(out, old(pending), old(mask), old(handlers)) ==> Acted(out, old(log), log, dead)
      ensures |old(log)| <= |log| && log[..|old(log)|] == old(log)
      ensures !dead ==> forall r: nat :: !Due(pending, mask, handlers, r)
      ensures forall s: nat :: BodiesLeave(bodies, s) ==>
                Cared(old(handlers), handlers, s in old(pending), pending, old(log), log, dead, s)
      decreases bodies, pending, 1
    {
      var handled := Deliver(ret);
      if handled {
        ghost var h1, pending1, log1, c := handlers, pending, log, ctxs[|ctxs| - 1];
        assert c.rip == old(rip) && c.rflags == old(rflags) && c.rsp == old(rsp) && c.rax == ret && c.mask == old(mask);
        Handle(bodies);
        forall out | IsNext(out, old(pending), old(mask), old(handlers)) ensures Acted(out, old(log), log, dead) {
          ActedFirst(out, old(log), log1, log, dead);
        }
        forall s: nat | s in old(mask) && BodiesKeep(bodies, s) ensures Spared(old(log), log, s) {
          SparedOn(old(log), log1, log, s, c.sig);
        }
        forall s: nat | BodiesLeave(bodies, s)
          ensures Cared(old(handlers), handlers, s in old(pending), pending, old(log), log, dead, s)
        {
          CaredOn(old(handlers), h1, handlers, s in old(pending), pending1, pending, old(log), log1, log, dead, s);
        }
      }
    }

    /** A handler returns, with the stack pointer it was entered with, to the restorer, which makes the call. */
    method LeaveHandler(entry: nat) returns (ret: nat)
      requires Valid() && ctxs != [] && entry == Limit(ctxs)
      modifies this`rip, this`rflags, this`rsp, this`mask, this`ctxs
      ensures Valid() && ctxs == old(ctxs)[..|old(ctxs)| - 1]
      ensures var c := old(ctxs)[|old(ctxs)| - 1];
              && rip == c.rip && rflags == c.rflags && rsp == c.rsp && mask == c.mask && ret == c.rax
              && rsp >= 192 && entry + 128 + 48 <= rsp
    {
      assert FrameOk(mem, ctxs[|ctxs| - 1]);
      rsp := entry;
      rip, rsp := NumAt(mem, rsp), rsp + 8;
      ret := Sigreturn();
    }

    /** The handler just entered runs the first of the bodies. */
    method RunFirst(bodies: Bodies, entry: nat)
      requires Valid() && !dead && ctxs != [] && entry == rsp == Limit(ctxs)
      modifies this
      ensures Valid() && (!dead ==> ctxs == old(ctxs) && OwnedKept(old(mem), mem, ctxs))
      ensures bodies.None? ==> pending == old(pending) && !dead
      ensures forall s: nat :: s in old(mask) && BodiesKeep(bodies, s) ==> Spared(old(log), log, s)
      ensures |old(log)| <= |log| && log[..|old(log)|] == old(log)
      ensures forall s: nat :: BodiesLeave(bodies, s) ==>
                Cared(old(handlers), handlers, s in old(pending), pending, old(log), log, dead, s)
      decreases bodies, pending, 1
    {
      if bodies.More? {
        Run(bodies.body, true, entry);
      }
    }

    /** A handler runs and returns, and any signal delivered on its return after it. */
    method Handle(bodies: Bodies)
      requires Valid() && !dead && ctxs != [] && rsp == Limit(ctxs)
      modifies this
      ensures Valid()
      ensures var c := old(ctxs)[|old(ctxs)| - 1];
              !dead ==>
                && rip == c.rip && rflags == c.rflags && rsp == c.rsp && rax == c.rax && mask == c.mask
                && ctxs == old(ctxs)[..|old(ctxs)| - 1]
                && forall x: nat :: x + 128 >= c.rsp ==> Load(mem, x) == Load(old(mem), x)
      ensures forall s: nat :: s in old(mask) && s in old(ctxs)[|old(ctxs)| - 1].mask && BodiesKeep(bodies, s) ==>
                Spared(old(log), log, s)
      ensures |old(log)| <= |log| && log[..|old(log)|] == old(log)
      ensures !dead ==> forall r: nat :: !Due(pending, mask, handlers, r)
      ensures forall s: nat :: BodiesLeave(bodies, s) ==>
                Cared(old(handlers), handlers, s in old(pending), pending, old(log), log, dead, s)
      decreases bodies, pending, 2
    {
      ghost var c := ctxs[|ctxs| - 1];
      var entry := rsp;
      RunFirst(bodies, entry);
      if dead {
        return;
      }
      var ret := LeaveHandler(entry);
      ghost var h1, pending1, log1 := handlers, pending, log;
      Settle(ret, if bodies.More? then bodies.rest else None);
      forall s: nat | BodiesLeave(bodies, s)
        ensures Cared(old(handlers), handlers, s in old(pending), pending, old(log), log, dead, s)
      {
        CaredOn(old(handlers), h1, handlers, s in old(pending), pending1, pending, old(log), log1, log, dead, s);
      }
    }

    // ----- without a restorer ----------------------------------------------------------------------------------------

    /** Without a restorer only the return address is pushed, below the red zone, and the signal is not blocked.
        Whatever the handler stores below its stack pointer, it returns to the interrupted code, but not to its stack
        pointer: so the registers come back just when there is a restorer. */
    method BareHandler(s: nat, stores: seq<(nat, Word)>)
      requires |handlers| == 32 && restorer == 0 && 1 <= s < 32 && rsp >= 192
      modifies this`rip, this`rsp, this`rdi, this`mem
      ensures rip == old(rip) && rdi == s && rsp + 128 <= old(rsp)
      ensures forall x: nat :: x + 128 >= old(rsp) ==> Load(mem, x) == Load(old(mem), x)
    {
      var usp: nat := (rsp - 128) - (rsp - 128) % 16 - 8;
      mem := mem[usp := Num(rip)];
      rsp, rdi, rip := usp, s, handlers[s];
      for i := 0 to |stores|
        invariant rsp == usp && rdi == s && Load(mem, usp) == Num(old(rip))
        invariant forall x: nat :: x > usp ==> Load(mem, x) == Load(old(mem), x)
      {
        if stores[i].0 + 8 <= usp {
          mem := mem[stores[i].0 := stores[i].1];
        }
      }
      rip, rsp := NumAt(mem, rsp), rsp + 8;
    }
  }
}
