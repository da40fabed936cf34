/** Signals: frames on the user stack, handlers within handlers, and the return to the interrupted code. */
module Signals {

  const SIG_DFL: nat := 0
  const SIG_IGN: nat := 1
  const SIGKILL: nat := 9
  const SIGCHLD: nat := 17
  const SIGCONT: nat := 18
  const SIGSTOP: nat := 19
  const SIGTSTP: nat := 20

  /** A word of user memory: a number, or the bits of a signal mask. */
  datatype Word = Num(n: nat) | Mask(bits: set<nat>)

  type Memory = map<nat, Word>

  function Load(mem: Memory, x: nat): Word { if x in mem then mem[x] else Num(0) }

  function NumAt(mem: Memory, x: nat): nat { if Load(mem, x).Num? then Load(mem, x).n else 0 }

  function MaskAt(mem: Memory, x: nat): set<nat> { if Load(mem, x).Mask? then Load(mem, x).bits else {} }

  // ----- frames ----------------------------------------------------------------------------------------------------

  /** What a signal interrupted, and where its frame is. */
  datatype Context = Context(rip: nat, rflags: nat, rsp: nat, rax: nat, mask: set<nat>, frame: nat, sig: nat)

  /** The frame on the stack holds the context; it lies below the red zone of the interrupted code. */
  ghost predicate FrameOk(mem: Memory, c: Context) {
    && c.rsp >= 192 && c.frame >= 8 && c.frame % 8 == 0 && c.frame + 40 + 128 <= c.rsp
    && Load(mem, c.frame) == Num(c.rip) && Load(mem, c.frame + 8) == Num(c.rflags)
    && Load(mem, c.frame + 16) == Num(c.rsp)
    && Load(mem, c.frame + 24) == Num(c.rax) && Load(mem, c.frame + 32) == Mask(c.mask)
  }

  /** Frames of handlers within handlers lie one below the other. */
  ghost predicate Nested(ctxs: seq<Context>) {
    forall i: nat, j: nat :: i < j < |ctxs| ==>
        ctxs[j].rsp <= ctxs[i].frame - 8 && ctxs[j].frame + 40 <= ctxs[i].frame - 8
  }

  /** The lowest address that the code below the running handler owns. */
  ghost function Limit(ctxs: seq<Context>): int
    requires ctxs != []
  { ctxs[|ctxs| - 1].frame - 8 }

  ghost predicate StackOk(mem: Memory, ctxs: seq<Context>) {
    Nested(ctxs) && forall i: nat :: i < |ctxs| ==> FrameOk(mem, ctxs[i])
  }

  /** Writes below the running handler's own frame spare all frames. */
  lemma FramesKept(mem: Memory, mem': Memory, ctxs: seq<Context>)
    requires StackOk(mem, ctxs)
    requires ctxs != [] ==> forall x: nat :: x >= Limit(ctxs) ==> Load(mem', x) == Load(mem, x)
    ensures StackOk(mem', ctxs)
  {
    forall i: nat | i < |ctxs| ensures FrameOk(mem', ctxs[i]) {
      assert FrameOk(mem, ctxs[i]);
      assert ctxs[i].frame >= Limit(ctxs);
    }
  }

  lemma FramePushed(mem: Memory, ctxs: seq<Context>, c: Context)
    requires StackOk(mem, ctxs) && FrameOk(mem, c) && (ctxs != [] ==> c.rsp <= Limit(ctxs))
    ensures StackOk(mem, ctxs + [c])
  {
    var ctxs' := ctxs + [c];
    forall i: nat, j: nat | i < j < |ctxs'|
      ensures ctxs'[j].rsp <= ctxs'[i].frame - 8 && ctxs'[j].frame + 40 <= ctxs'[i].frame - 8 {
      if j == |ctxs| {
        assert ctxs[i].frame - 8 >= Limit(ctxs);
      }
    }
  }

  lemma FramePopped(mem: Memory, ctxs: seq<Context>)
    requires StackOk(mem, ctxs) && ctxs != []
    ensures StackOk(mem, ctxs[..|ctxs| - 1])
    ensures |ctxs| > 1 ==> ctxs[|ctxs| - 1].rsp <= Limit(ctxs[..|ctxs| - 1])
  { }

  /** The six words a signal writes: the context, and the restorer's address below it. */
  function WithFrame(mem: Memory, c: Context, restorer: nat): Memory
    requires c.frame >= 8
  {
    mem[c.frame := Num(c.rip)][c.frame + 8 := Num(c.rflags)][c.frame + 16 := Num(c.rsp)][c.frame + 24 := Num(c.rax)]
       [c.frame + 32 := Mask(c.mask)][c.frame - 8 := Num(restorer)]
  }

  lemma FrameWritten(mem: Memory, c: Context, restorer: nat)
    requires c.rsp >= 192 && c.frame >= 8 && c.frame % 8 == 0 && c.frame + 40 + 128 <= c.rsp
    ensures var mem' := WithFrame(mem, c, restorer);
            && FrameOk(mem', c) && Load(mem', c.frame - 8) == Num(restorer)
            && forall x: nat :: x + 128 >= c.rsp ==> Load(mem', x) == Load(mem, x)
  { }

  /** Where the frame of a signal goes: below the red zone, aligned. */
  function FrameFor(rsp: nat): (r: nat)
    requires rsp >= 192
    ensures r >= 8 && r % 8 == 0 && r + 40 + 128 <= rsp
  { (rsp - 128) - (rsp - 128) % 16 - 40 }

  lemma SignalPushed(mem: Memory, ctxs: seq<Context>, c: Context, restorer: nat, mem': Memory)
    requires StackOk(mem, ctxs) && (ctxs != [] ==> c.rsp <= Limit(ctxs))
    requires c.rsp >= 192 && c.frame >= 8 && c.frame % 8 == 0 && c.frame + 40 + 128 <= c.rsp
             && mem' == WithFrame(mem, c, restorer)
    ensures StackOk(mem', ctxs + [c]) && Load(mem', c.frame - 8) == Num(restorer) && Limit(ctxs + [c]) == c.frame - 8
    ensures forall x: nat :: x + 128 >= c.rsp ==> Load(mem', x) == Load(mem, x)
  {
    FrameWritten(mem, c, restorer);
    FramesKept(mem, mem', ctxs);
    FramePushed(mem', ctxs, c);
  }
}
