/** The scheduler ring and the context frames: kernel/src/thread/thread.c and task_switch of kernel/src/thread/switch.s.

    A tick is one step: the timer interrupt's call of task_switch.  Between ticks the running task may write anything
    inside its own stack and nothing inside another task's. */
module Sched {
  import opened Machine
  import opened Numbers

  // ----- Frames -----

  /** What task_switch pops, in the order in which it pops it, and the address it returns to. */
  datatype Frame = Frame(edi: Word, esi: Word, ebp: Word, ebx: Word, edx: Word, ecx: Word, eax: Word, eflags: Word,
                         eip: Word)

  /** The frame that starts at address a. */
  function FrameAt(m: Memory, a: int): Frame {
    Frame(Load(m, a), Load(m, a + 4), Load(m, a + 8), Load(m, a + 12), Load(m, a + 16), Load(m, a + 20),
          Load(m, a + 24),
          Load(m, a + 28), Load(m, a + 32))
  }

  /** The words that task_switch pushes below esp, for the registers of f. */
  function SaveFrame(m: Memory, esp: int, f: Frame): Memory {
    m[esp - 4 := f.eflags][esp - 8 := f.eax][esp - 12 := f.ecx][esp - 16 := f.edx][esp - 20 := f.ebx][esp - 24 := f.ebp]
     [esp - 28 := f.esi][esp - 32 := f.edi]
  }

  /** What create_thread leaves at the end of a stack that ends at top. */
  function InitStack(m: Memory, top: int, fn: Word, param: Word, exit: Word): Memory {
    m[top - 4 := param][top - 8 := exit][top - 12 := fn][top - 16 := 0x202][top - 20 := 0][top - 24 := 0][top - 28 := 0]
     [top - 32 := 0][top - 36 := 0][top - 40 := 0][top - 44 := 0]
  }

  lemma SavedFrame(m: Memory, esp: int, f: Frame)
    ensures FrameAt(SaveFrame(m, esp, f), esp - 32) == f.(eip := Load(m, esp))
    ensures forall a :: a + 4 <= esp - 32 || esp <= a ==> Load(SaveFrame(m, esp, f), a) == Load(m, a)
  {
  }

  lemma FreshFrame(m: Memory, top: int, fn: Word, param: Word, exit: Word)
    ensures var m' := InitStack(m, top, fn, param, exit);
            && FrameAt(m', top - 44) == Frame(0, 0, 0, 0, 0, 0, 0, 0x202, fn)
            && Load(m', top - 8) == exit && Load(m', top - 4) == param
            && forall a :: a + 4 <= top - 44 || top <= a ==> Load(m', a) == Load(m, a)
  {
  }

  // ----- The system -----

  /** The stack [lo, hi) that a task starts on and, if it has asked for a user stack, the 4096 bytes below `user`: these
      are both its stack in user mode and the one on which an interrupt of user mode enters the kernel. */
  datatype Stack = Stack(lo: int, hi: int, user: Option<int>)

  /** The n bytes from a lie in one of the two. */
  predicate Within(a: int, n: nat, s: Stack) {
    || (s.lo <= a && a + n <= s.hi)
    || (s.user.Some? && s.user.value - 4096 <= a && a + n <= s.user.value)
  }

  predicate Inside(a: int, s: Stack) { Within(a, 4, s) }

  predicate Avoids(lo: int, hi: int, s: Stack) {
    && (hi <= s.lo || s.hi <= lo)
    && (s.user.Some? ==> hi <= s.user.value - 4096 || s.user.value <= lo)
  }

  predicate Apart(s: Stack, u: Stack) {
    Avoids(s.lo, s.hi, u) && (s.user.Some? ==> Avoids(s.user.value - 4096, s.user.value, u))
  }

  /** The tasks in the order in which `next` reaches them from the running one, and what is stored for each. */
  datatype Sys<T> = Sys(ring: seq<T>, mem: Memory, esp0: map<T, int>, esp3: map<T, Word>, stacks: map<T, Stack>,
                        tss: Word)

  datatype Op<T> =
    | Work(mem: Memory)
    | Tick(esp: int, regs: Frame)
    | Spawn(task: T, fn: Word, param: Word, exit: Word, lo: int, esp3: Word, user: bool)

  /** What a spawned task gets from heap_alloc. */
  function NewStack(lo: int, esp3: Word, user: bool): Stack {
    Stack(lo, lo + 4096, if user then Some(esp3 as int) else None)
  }

  predicate Distinct<T(==)>(ring: seq<T>) {
    ring == [] || (ring[0] !in ring[1..] && Distinct(ring[1..]))
  }

  ghost predicate Sound<T>(s: Sys<T>) {
    && s.ring != [] && Distinct(s.ring)
    && (forall x :: x in s.ring ==> x in s.esp0 && x in s.esp3 && x in s.stacks)
    && (forall x, y :: x in s.ring && y in s.ring && x != y ==> Apart(s.stacks[x], s.stacks[y]))
    && (forall x :: x in s.ring[1..] ==> Suspended(s, x))
  }

  /** A whole frame lies on a stack of a task that is not running. */
  ghost predicate Suspended<T>(s: Sys<T>, x: T)
    requires x in s.esp0 && x in s.stacks
  {
    Within(s.esp0[x], 36, s.stacks[x])
  }

  /** Work keeps off the stacks of the other tasks, a tick finds room for the frame on one of its own, and heap_alloc
      gives a new task stacks that no other task has. */
  ghost predicate Legal<T>(s: Sys<T>, op: Op<T>)
    requires Sound(s)
  {
    match op
    case Work(m) => forall x, a :: x in s.ring[1..] && Inside(a, s.stacks[x]) ==> Load(m, a) == Load(s.mem, a)
    case Tick(esp, regs) => Within(esp - 32, 36, s.stacks[s.ring[0]])
    case Spawn(t, fn, param, exit, lo, esp3, user) =>
      t !in s.ring && forall x :: x in s.ring ==> Apart(s.stacks[x], NewStack(lo, esp3, user))
  }

  function Rotate<T>(ring: seq<T>): (r: seq<T>)
    requires ring != []
    ensures |r| == |ring| && r[|r| - 1] == ring[0]
  {
    ring[1..] + [ring[0]]
  }

  function Insert<T>(ring: seq<T>, t: T): seq<T>
    requires ring != []
  {
    [ring[0], t] + ring[1..]
  }

  /** The running task's frame goes on its stack. */
  function Saved<T>(s: Sys<T>, esp: int, regs: Frame): (r: Sys<T>)
    requires s.ring != []
    ensures r.ring == s.ring
  {
    s.(mem := SaveFrame(s.mem, esp, regs), esp0 := s.esp0[s.ring[0] := esp - 32])
  }

  /** The next task becomes the running one. */
  function Advanced<T>(s: Sys<T>): Sys<T>
    requires s.ring != []
  {
    var next := Rotate(s.ring)[0];
    s.(ring := Rotate(s.ring), tss := if next in s.esp3 then s.esp3[next] else 0)
  }

  /** The tasks by one step: task_switch saves on the running task's stack and goes on to the next; spawn_thread puts
      the new task behind the running one. */
  function Step<T>(s: Sys<T>, op: Op<T>): Sys<T>
    requires s.ring != []
  {
    match op
    case Work(m) => s.(mem := m)
    case Tick(esp, regs) => Advanced(Saved(s, esp, regs))
    case Spawn(t, fn, param, exit, lo, esp3, user) =>
      s.(ring := Insert(s.ring, t), mem := InitStack(s.mem, lo + 4096, fn, param, exit),
         esp0 := s.esp0[t := lo + 4052], esp3 := s.esp3[t := esp3], stacks := s.stacks[t := NewStack(lo, esp3, user)])
  }

  // ----- What every step keeps -----

  lemma {:induction false} DistinctAt<T>(ring: seq<T>, i: nat, j: nat)
    requires Distinct(ring) && i < |ring| && j < |ring| && ring[i] == ring[j]
    ensures i == j
  {
    forall k | 0 < k < |ring| ensures ring[k] != ring[0] {
      assert ring[1..][k - 1] == ring[k];
    }
    if i > 0 && j > 0 { DistinctAt(ring[1..], i - 1, j - 1); }
  }

  lemma {:induction false} DistinctAppend<T>(a: seq<T>, x: T)
    requires Distinct(a) && x !in a
    ensures Distinct(a + [x])
    decreases |a|
  {
    if a == [] {
      assert [x][1..] == [];
    } else {
      DistinctAppend(a[1..], x);
      assert (a + [x])[1..] == a[1..] + [x];
    }
  }

  lemma RotateMembers<T>(ring: seq<T>)
    requires ring != [] && Distinct(ring)
    ensures Distinct(Rotate(ring)) && (forall x :: x in Rotate(ring) <==> x in ring)
    ensures forall x :: x in Rotate(ring)[1..] ==> x == ring[0] || x in ring[1..]
  {
    DistinctAppend(ring[1..], ring[0]);
    assert ring == [ring[0]] + ring[1..];
    if |ring| > 1 { assert Rotate(ring)[1..] == ring[2..] + [ring[0]]; }
  }

  lemma InsertMembers<T>(ring: seq<T>, t: T)
    requires ring != [] && Distinct(ring) && t !in ring
    ensures Distinct(Insert(ring, t)) && (forall x :: x in Insert(ring, t) <==> x in ring || x == t)
    ensures Insert(ring, t)[1..] == [t] + ring[1..]
  {
    var r := Insert(ring, t);
    assert ring == [ring[0]] + ring[1..];
    assert r[1..] == [t] + ring[1..] && r[1..][1..] == ring[1..];
  }

  /** Every legal step keeps the system sound ... */
  lemma StepKeepsSound<T>(s: Sys<T>, op: Op<T>)
    requires Sound(s) && Legal(s, op)
    ensures Sound(Step(s, op))
    ensures forall x :: x in Step(s, op).ring <==> x in s.ring || (op.Spawn? && x == op.task)
  {
    match op
    case Work(m) =>
    case Tick(esp, regs) => TickKeepsSound(s, esp, regs);
    case Spawn(t, fn, param, exit, lo, esp3, user) => SpawnKeepsSound(s, op);
  }

  lemma TickKeepsSound<T>(s: Sys<T>, esp: int, regs: Frame)
    requires Sound(s) && Legal(s, Tick(esp, regs))
    ensures Sound(Step(s, Tick(esp, regs))) && forall x :: x in Step(s, Tick(esp, regs)).ring <==> x in s.ring
  {
    RotateMembers(s.ring);
  }

  lemma SpawnKeepsSound<T>(s: Sys<T>, op: Op<T>)
    requires Sound(s) && Legal(s, op) && op.Spawn?
    ensures Sound(Step(s, op)) && forall x :: x in Step(s, op).ring <==> x in s.ring || x == op.task
  {
    InsertMembers(s.ring, op.task);
  }

  /** ... and leaves a task that is not running as it is: its whole stack and its entry in the ring. */
  lemma StepKeepsTask<T>(s: Sys<T>, op: Op<T>, x: T)
    requires Sound(s) && Legal(s, op) && x in s.ring[1..]
    ensures Sound(Step(s, op)) && x in Step(s, op).ring
    ensures SameTask(s, Step(s, op), x)
  {
    StepKeepsSound(s, op);
    assert x in s.ring && x != s.ring[0];
    match op
    case Work(m) =>
    case Tick(esp, regs) => TickKeepsTask(s, esp, regs, x);
    case Spawn(t, fn, param, exit, lo, esp3, user) => SpawnKeepsTask(s, op, x);
  }

  lemma TickKeepsTask<T>(s: Sys<T>, esp: int, regs: Frame, x: T)
    requires Sound(s) && Legal(s, Tick(esp, regs)) && x in s.ring && x != s.ring[0] && Sound(Step(s, Tick(esp, regs)))
    ensures SameTask(s, Step(s, Tick(esp, regs)), x)
  {
    SavedFrame(s.mem, esp, regs);
  }

  lemma SpawnKeepsTask<T>(s: Sys<T>, op: Op<T>, x: T)
    requires Sound(s) && Legal(s, op) && op.Spawn? && x in s.ring && Sound(Step(s, op)) && x in Step(s, op).ring
    ensures SameTask(s, Step(s, op), x)
  {
    FreshFrame(s.mem, op.lo + 4096, op.fn, op.param, op.exit);
  }

  ghost predicate SameTask<T>(s: Sys<T>, s': Sys<T>, x: T) {
    && x in s.esp0 && x in s.esp3 && x in s.stacks && x in s'.esp0 && x in s'.esp3 && x in s'.stacks
    && s'.esp0[x] == s.esp0[x] && s'.esp3[x] == s.esp3[x] && s'.stacks[x] == s.stacks[x]
    && (forall a :: Inside(a, s.stacks[x]) ==> Load(s'.mem, a) == Load(s.mem, a))
  }

  // ----- Runs -----

  ghost predicate LegalRun<T>(s: Sys<T>, ops: seq<Op<T>>)
    requires Sound(s)
    decreases |ops|
  {
    ops == [] || (Legal(s, ops[0]) && Sound(Step(s, ops[0])) && LegalRun(Step(s, ops[0]), ops[1..]))
  }

  ghost function Run<T>(s: Sys<T>, ops: seq<Op<T>>): (r: Sys<T>)
    requires Sound(s) && LegalRun(s, ops)
    ensures Sound(r)
    decreases |ops|
  {
    if ops == [] then s else Run(Step(s, ops[0]), ops[1..])
  }

  /** x waits from here to the end of the run. */
  ghost predicate Waits<T>(s: Sys<T>, ops: seq<Op<T>>, x: T)
    requires Sound(s) && LegalRun(s, ops)
    decreases |ops|
  {
    x in s.ring[1..] && (ops == [] || Waits(Step(s, ops[0]), ops[1..], x))
  }

  lemma {:induction false} RunKeepsTask<T>(s: Sys<T>, ops: seq<Op<T>>, x: T)
    requires Sound(s) && LegalRun(s, ops) && Waits(s, ops, x)
    ensures x in Run(s, ops).ring[1..] && SameTask(s, Run(s, ops), x)
    decreases |ops|
  {
    if ops != [] {
      StepKeepsTask(s, ops[0], x);
      RunKeepsTask(Step(s, ops[0]), ops[1..], x);
      SameTaskTransitive(s, Step(s, ops[0]), Run(s, ops), x);
    }
  }

  lemma SameTaskTransitive<T>(s: Sys<T>, s1: Sys<T>, s2: Sys<T>, x: T)
    requires SameTask(s, s1, x) && SameTask(s1, s2, x)
    ensures SameTask(s, s2, x)
  {
  }

  /** The registers a tick that has led to s loads, and the stack pointer after its ret. */
  ghost function Loaded<T>(s: Sys<T>): (Frame, int)
    requires Sound(s)
  {
    var x := s.ring[0];
    (FrameAt(s.mem, s.esp0[x]), s.esp0[x] + 36)
  }

  lemma SameFrame<T>(s: Sys<T>, s': Sys<T>, x: T)
    requires SameTask(s, s', x) && Suspended(s, x)
    ensures FrameAt(s'.mem, s'.esp0[x]) == FrameAt(s.mem, s.esp0[x])
  {
  }

  /** When the tick comes that reaches a waiting task, it finds the stack it left. */
  lemma TickReaches<T>(s1: Sys<T>, ops: seq<Op<T>>, s2: Sys<T>, tick: Op<T>, s3: Sys<T>, x: T)
    requires Sound(s1) && LegalRun(s1, ops) && Waits(s1, ops, x) && s2 == Run(s1, ops)
    requires tick.Tick? && Legal(s2, tick) && |s2.ring| > 1 && s2.ring[1] == x && s3 == Step(s2, tick)
    ensures Sound(s3) && s3.ring[0] == x && SameTask(s1, s3, x) && Suspended(s1, x)
    ensures Loaded(s3) == (FrameAt(s1.mem, s1.esp0[x]), s1.esp0[x] + 36) && s3.tss == s1.esp3[x]
  {
    RunKeepsTask(s1, ops, x);
    assert x in s2.ring[1..] by { assert s2.ring[1..][0] == x; }
    StepKeepsTask(s2, tick, x);
    SameTaskTransitive(s1, s2, s3, x);
    SameFrame(s1, s3, x);
  }

  /** A task that is switched out and waits, whatever the others do and however many tasks they spawn, gets back at the
      tick that reaches it the registers it was interrupted with, the address it was to return to, its stack pointer as
      after the return, and its own kernel entry stack in the TSS. */
  lemma ResumesWhereItStopped<T>(s: Sys<T>, esp: int, regs: Frame, s1: Sys<T>, ops: seq<Op<T>>, s2: Sys<T>, tick: Op<T>,
                                 s3: Sys<T>, x: T)
    requires Sound(s) && Legal(s, Tick(esp, regs)) && s1 == Step(s, Tick(esp, regs)) && x == s.ring[0]
    requires Sound(s1) && LegalRun(s1, ops) && Waits(s1, ops, x) && s2 == Run(s1, ops)
    requires tick.Tick? && Legal(s2, tick) && |s2.ring| > 1 && s2.ring[1] == x && s3 == Step(s2, tick)
    ensures Sound(s3) && s3.ring[0] == x
    ensures Loaded(s3) == (regs.(eip := Load(s.mem, esp)), esp + 4) && s3.tss == s.esp3[x]
  {
    TickReaches(s1, ops, s2, tick, s3, x);
    SavedFrame(s.mem, esp, regs);
  }

  /** With one task only, a tick returns to it at once, nothing lost. */
  lemma AloneResumes<T>(s: Sys<T>, esp: int, regs: Frame)
    requires Sound(s) && Legal(s, Tick(esp, regs)) && |s.ring| == 1
    ensures var s' := Step(s, Tick(esp, regs));
            Sound(s') && s'.ring == s.ring && Loaded(s') == (regs.(eip := Load(s.mem, esp)), esp + 4)
  {
    StepKeepsSound(s, Tick(esp, regs));
    SavedFrame(s.mem, esp, regs);
  }

  /** The first switch to a spawned task pops exactly the frame create_thread built: all registers zero, interrupts
      enabled, at the thread function, with thread_exit as its return address and its parameter above it. */
  lemma FreshTaskStarts<T>(s: Sys<T>, t: T, fn: Word, param: Word, exit: Word, lo: int, esp3: Word, user: bool,
                           s1: Sys<T>, ops: seq<Op<T>>, s2: Sys<T>, tick: Op<T>, s3: Sys<T>)
    requires Sound(s) && Legal(s, Spawn(t, fn, param, exit, lo, esp3, user))
             && s1 == Step(s, Spawn(t, fn, param, exit, lo, esp3, user))
    requires Sound(s1) && LegalRun(s1, ops) && Waits(s1, ops, t) && s2 == Run(s1, ops)
    requires tick.Tick? && Legal(s2, tick) && |s2.ring| > 1 && s2.ring[1] == t && s3 == Step(s2, tick)
    ensures Sound(s3) && s3.ring[0] == t && s3.tss == esp3
    ensures Loaded(s3) == (Frame(0, 0, 0, 0, 0, 0, 0, 0x202, fn), lo + 4096 - 8)
    ensures Load(s3.mem, lo + 4096 - 8) == exit && Load(s3.mem, lo + 4096 - 4) == param
  {
    TickReaches(s1, ops, s2, tick, s3, t);
    FreshFrame(s.mem, lo + 4096, fn, param, exit);
  }

  // ----- Interrupts of user mode -----

  /** What the processor pushes when it interrupts user mode, and iret pops: the frame jump_usermode builds. */
  datatype UserFrame = UserFrame(eip: Word, cs: Word, eflags: Word, esp: Word, ss: Word)

  function UserFrameAt(m: Memory, a: int): UserFrame {
    UserFrame(Load(m, a), Load(m, a + 4), Load(m, a + 8), Load(m, a + 12), Load(m, a + 16))
  }

  /** The pushes, on the stack the TSS names. */
  function EnterKernel(m: Memory, top: int, u: UserFrame): Memory {
    m[top - 4 := u.ss][top - 8 := u.esp][top - 12 := u.eflags][top - 16 := u.cs][top - 20 := u.eip]
  }

  /** The TSS names the running task's entry stack, and that of every task with a user stack is its own. */
  ghost predicate Enters<T>(s: Sys<T>)
    requires Sound(s)
  {
    && s.tss == s.esp3[s.ring[0]]
    && forall x :: x in s.ring && s.stacks[x].user.Some? ==> s.stacks[x].user.value == s.esp3[x]
  }

  /** Every legal step keeps that. */
  lemma StepKeepsEnters<T>(s: Sys<T>, op: Op<T>)
    requires Sound(s) && Enters(s) && Legal(s, op)
    ensures Sound(Step(s, op)) && Enters(Step(s, op))
  {
    StepKeepsSound(s, op);
  }

  lemma {:induction false} RunKeepsEnters<T>(s: Sys<T>, ops: seq<Op<T>>)
    requires Sound(s) && Enters(s) && LegalRun(s, ops)
    ensures Enters(Run(s, ops))
    decreases |ops|
  {
    if ops != [] {
      StepKeepsEnters(s, ops[0]);
      RunKeepsEnters(Step(s, ops[0]), ops[1..]);
    }
  }

  /** m is memory when task_switch is called with the stack pointer esp: the processor's frame, and below it whatever
      the interrupt stub and the C functions have stored on that stack. */
  ghost predicate Interrupted<T>(s: Sys<T>, u: UserFrame, m: Memory, esp: int) {
    && s.tss - 4096 <= esp - 32 && esp + 4 <= s.tss - 20
    && forall a :: a + 4 <= s.tss - 4096 || s.tss - 20 <= a ==> Load(m, a) == Load(EnterKernel(s.mem, s.tss, u), a)
  }

  /** An interrupt of user mode arrives on the running task's own user stack, so that the tick is legal. */
  lemma UserTickIsLegal<T>(s: Sys<T>, u: UserFrame, m: Memory, esp: int, regs: Frame)
    requires Sound(s) && Enters(s) && s.stacks[s.ring[0]].user.Some? && Interrupted(s, u, m, esp)
    ensures Legal(s, Work(m)) && Sound(Step(s, Work(m))) && Legal(Step(s, Work(m)), Tick(esp, regs))
  {
    var x := s.ring[0];
    forall y, a | y in s.ring[1..] && Inside(a, s.stacks[y]) ensures Load(m, a) == Load(s.mem, a) {
      assert y in s.ring && y != x;
      assert Apart(s.stacks[x], s.stacks[y]);
    }
    StepKeepsSound(s, Work(m));
  }

  /** A task interrupted in user mode gets back, after any interleaving, what task_switch saved, and the iret that
      follows finds the very instruction, flags and stack pointer at which it was interrupted. */
  lemma UserResumes<T>(s: Sys<T>, u: UserFrame, m: Memory, esp: int, regs: Frame, s1: Sys<T>, ops: seq<Op<T>>,
                       s2: Sys<T>, tick: Op<T>, s3: Sys<T>, x: T)
    requires Sound(s) && Enters(s) && x == s.ring[0] && s.stacks[x].user.Some? && Interrupted(s, u, m, esp)
    requires Sound(Step(s, Work(m))) && Legal(Step(s, Work(m)), Tick(esp, regs))
             && s1 == Step(Step(s, Work(m)), Tick(esp, regs))
    requires Sound(s1) && LegalRun(s1, ops) && Waits(s1, ops, x) && s2 == Run(s1, ops)
    requires tick.Tick? && Legal(s2, tick) && |s2.ring| > 1 && s2.ring[1] == x && s3 == Step(s2, tick)
    ensures Sound(s3) && s3.ring[0] == x && s3.tss == s.tss
    ensures Loaded(s3) == (regs.(eip := Load(m, esp)), esp + 4) && UserFrameAt(s3.mem, s.tss - 20) == u
  {
    ResumesWhereItStopped(Step(s, Work(m)), esp, regs, s1, ops, s2, tick, s3, x);
    TickReaches(s1, ops, s2, tick, s3, x);
    UserFrameKept(s, u, m, esp, regs, s1.mem, s3.mem, s1.stacks[x]);
  }

  lemma UserFrameKept<T>(s: Sys<T>, u: UserFrame, m: Memory, esp: int, regs: Frame, m1: Memory, m3: Memory,
                         stack: Stack)
    requires Interrupted(s, u, m, esp) && m1 == SaveFrame(m, esp, regs)
    requires stack.user == Some(s.tss as int) && forall a :: Inside(a, stack) ==> Load(m3, a) == Load(m1, a)
    ensures UserFrameAt(m3, s.tss - 20) == u
  {
    FrameWords(m1, m3, s.tss - 20, stack);
    FrameSaved(s, u, m, esp, regs);
  }

  lemma FrameSaved<T>(s: Sys<T>, u: UserFrame, m: Memory, esp: int, regs: Frame)
    requires Interrupted(s, u, m, esp)
    ensures UserFrameAt(SaveFrame(m, esp, regs), s.tss - 20) == u
  {
    SavedFrame(m, esp, regs);
  }

  lemma FrameWords(m: Memory, m': Memory, a: int, s: Stack)
    requires Within(a, 20, s) && forall b :: Inside(b, s) ==> Load(m', b) == Load(m, b)
    ensures UserFrameAt(m', a) == UserFrameAt(m, a)
  {
    assert Inside(a, s) && Inside(a + 4, s) && Inside(a + 8, s) && Inside(a + 12, s) && Inside(a + 16, s);
  }

  /** The entry stack is the user stack: what the program has pushed, from its stack pointer up to esp3, is sure to
      survive an interrupt if and only if it has pushed nothing. */
  lemma UserPushesKeptIff(top: int, u: UserFrame)
    requires u.esp <= top && (top - u.esp) % 4 == 0
    ensures (forall m: Memory, a: int :: u.esp <= a && a + 4 <= top ==> Load(EnterKernel(m, top, u), a) == Load(m, a))
            <==> u.esp == top
  {
    if u.esp < top {
      var m: Memory := map[top - 4 := if u.ss == 0 then 1 else 0];
      assert Load(EnterKernel(m, top, u), top - 4) == u.ss != Load(m, top - 4);
    }
  }

  // ----- Whose turn it is -----

  function Ticks<T>(ops: seq<Op<T>>): nat {
    if ops == [] then 0 else (if ops[0].Tick? then 1 else 0) + Ticks(ops[1..])
  }

  function Spawns<T>(ops: seq<Op<T>>): nat {
    if ops == [] then 0 else (if ops[0].Spawn? then 1 else 0) + Spawns(ops[1..])
  }

  /** n rotations. */
  function Turn<T>(ring: seq<T>, n: nat): (r: seq<T>)
    requires ring != []
    ensures |r| == |ring|
    decreases n
  {
    if n == 0 then ring else Turn(Rotate(ring), n - 1)
  }

  lemma {:induction false} TurnAt<T>(ring: seq<T>, n: nat, j: nat)
    requires ring != [] && j < |ring|
    ensures Turn(ring, n)[j] == ring[Rem(j + n, |ring|)]
    decreases n
  {
    if n > 0 {
      var r := Rotate(ring);
      TurnAt(r, n - 1, j);
      var k := Rem(j + (n - 1), |ring|);
      assert r[k] == ring[if k + 1 == |ring| then 0 else k + 1];
      NextModulo(j + (n - 1), |ring|);
    } else {
      DivModUnique(j, |ring|, 0, j);
    }
  }

  lemma NextModulo(a: nat, n: nat)
    requires n > 0
    ensures Rem(a + 1, n) == if Rem(a, n) + 1 == n then 0 else Rem(a, n) + 1
  {
    Split(a, n);
    if Rem(a, n) + 1 == n {
      Distribute(n, Quo(a, n), 1);
      DivModUnique(a + 1, n, Quo(a, n) + 1, 0);
    } else {
      DivModUnique(a + 1, n, Quo(a, n), Rem(a, n) + 1);
    }
  }

  /** Between spawns, the tasks run in turn: after any run the one running is found by counting ticks. */
  lemma {:induction false} RunsInTurn<T>(s: Sys<T>, ops: seq<Op<T>>)
    requires Sound(s) && LegalRun(s, ops) && Spawns(ops) == 0
    ensures Run(s, ops).ring == Turn(s.ring, Ticks(ops))
    decreases |ops|
  {
    if ops != [] { RunsInTurn(Step(s, ops[0]), ops[1..]); }
  }

  /** d more than a, less than n more: the remainder is d more, too, possibly round the corner. */
  lemma RemPlus(a: nat, d: nat, n: nat)
    requires d <= n && n > 0
    ensures Rem(a + d, n) == if Rem(a, n) + d < n then Rem(a, n) + d else Rem(a, n) + d - n
  {
    Split(a, n);
    if Rem(a, n) + d < n {
      DivModUnique(a + d, n, Quo(a, n), Rem(a, n) + d);
    } else {
      Distribute(n, Quo(a, n), 1);
      DivModUnique(a + d, n, Quo(a, n) + 1, Rem(a, n) + d - n);
    }
  }

  /** In any |ring| ticks in a row, each task of the ring comes first exactly once. */
  lemma OnceInEveryRound<T>(ring: seq<T>, from: nat, i: nat) returns (n: nat)
    requires i < |ring| && Distinct(ring)
    ensures from < n <= from + |ring| && Turn(ring, n)[0] == ring[i]
    ensures forall k :: from < k <= from + |ring| && Turn(ring, k)[0] == ring[i] ==> k == n
  {
    var size := |ring|;
    var a := Rem(from, size);
    var d := if a < i then i - a else i + size - a;
    n := from + d;
    RemPlus(from, d, size);
    TurnAt(ring, n, 0);
    forall k | from < k <= from + size && Turn(ring, k)[0] == ring[i] ensures k == n {
      TurnAt(ring, k, 0);
      assert Turn(ring, k)[0] == ring[Rem(k, size)];
      RemPlus(from, k - from, size);
      DistinctAt(ring, Rem(k, size), i);
    }
  }

  /** The k-th step of the run is a tick that switches to x. */
  ghost predicate SwitchesTo<T>(s: Sys<T>, ops: seq<Op<T>>, k: nat, x: T)
    requires Sound(s) && LegalRun(s, ops)
  {
    k < |ops| && ops[k].Tick? && LegalRun(s, ops[..k + 1]) && Run(s, ops[..k + 1]).ring[0] == x
  }

  lemma {:induction false} Prefix<T>(s: Sys<T>, ops: seq<Op<T>>, k: nat)
    requires Sound(s) && LegalRun(s, ops) && k <= |ops|
    ensures LegalRun(s, ops[..k]) && Ticks(ops[..k]) <= Ticks(ops) && Spawns(ops[..k]) <= Spawns(ops)
    decreases k
  {
    if k > 0 {
      assert ops[..k][1..] == ops[1..][..k - 1];
      Prefix(Step(s, ops[0]), ops[1..], k - 1);
    }
  }

  /** The step that is the n-th tick. */
  lemma {:induction false} TickNumber<T>(ops: seq<Op<T>>, n: nat) returns (k: nat)
    requires 0 < n <= Ticks(ops)
    ensures k < |ops| && ops[k].Tick? && Ticks(ops[..k + 1]) == n
    decreases |ops|
  {
    var first := if ops[0].Tick? then 1 else 0;
    if n == first {
      k := 0;
      assert ops[..1][1..] == [];
    } else {
      var j := TickNumber(ops[1..], n - first);
      k := j + 1;
      assert ops[..k + 1][1..] == ops[1..][..j + 1];
    }
  }

  lemma {:induction false} OneTickEach<T>(ops: seq<Op<T>>, k: nat, l: nat)
    requires k < l < |ops| && ops[l].Tick?
    ensures Ticks(ops[..k + 1]) < Ticks(ops[..l + 1])
    decreases l
  {
    assert ops[..k + 1][1..] == ops[1..][..k];
    assert ops[..l + 1][1..] == ops[1..][..l];
    if k > 0 {
      OneTickEach(ops[1..], k - 1, l - 1);
    } else {
      TickCounted(ops[1..], l - 1);
    }
  }

  lemma {:induction false} TickCounted<T>(ops: seq<Op<T>>, l: nat)
    requires l < |ops| && ops[l].Tick?
    ensures Ticks(ops[..l + 1]) > 0
    decreases l
  {
    assert ops[..l + 1][1..] == ops[1..][..l];
    if l > 0 { TickCounted(ops[1..], l - 1); }
  }

  /** In a run of N ticks without spawns, whatever work comes between, each of the N tasks is switched to by exactly one
      tick; and the ring is then as it was at the start. */
  lemma OnceInNTicks<T>(s: Sys<T>, ops: seq<Op<T>>, x: T) returns (k: nat)
    requires Sound(s) && LegalRun(s, ops) && Spawns(ops) == 0 && Ticks(ops) == |s.ring| && x in s.ring
    ensures SwitchesTo(s, ops, k, x) && forall l: nat :: SwitchesTo(s, ops, l, x) ==> l == k
    ensures Run(s, ops).ring == s.ring
  {
    var i :| 0 <= i < |s.ring| && s.ring[i] == x;
    var n := OnceInEveryRound(s.ring, 0, i);
    k := TickNumber(ops, n);
    RunningAfter(s, ops, k);
    forall l: nat | SwitchesTo(s, ops, l, x) ensures l == k {
      RunningAfter(s, ops, l);
      TickCounted(ops, l);
      var m := Ticks(ops[..l + 1]);
      assert Turn(s.ring, m)[0] == s.ring[i];
      if l < k { OneTickEach(ops, l, k); }
      if k < l { OneTickEach(ops, k, l); }
    }
    RunsInTurn(s, ops);
    RoundRestores(s.ring, 0);
  }

  /** Who runs after the k-th step. */
  lemma RunningAfter<T>(s: Sys<T>, ops: seq<Op<T>>, k: nat)
    requires Sound(s) && LegalRun(s, ops) && Spawns(ops) == 0 && k < |ops|
    ensures LegalRun(s, ops[..k + 1]) && Ticks(ops[..k + 1]) <= Ticks(ops)
    ensures Run(s, ops[..k + 1]).ring == Turn(s.ring, Ticks(ops[..k + 1]))
  {
    Prefix(s, ops, k + 1);
    RunsInTurn(s, ops[..k + 1]);
  }

  /** N rotations restore the ring. */
  lemma RoundRestores<T>(ring: seq<T>, from: nat)
    requires ring != []
    ensures Turn(ring, from + |ring|) == Turn(ring, from)
  {
    forall j | 0 <= j < |ring| ensures Turn(ring, from + |ring|)[j] == Turn(ring, from)[j] {
      TurnAt(ring, from + |ring|, j);
      TurnAt(ring, from, j);
      RemPlus(j + from, |ring|, |ring|);
    }
  }

  lemma NotFirst<T>(ring: seq<T>, x: T, i: int)
    requires Distinct(ring) && 0 <= i < |ring| && ring[i] == x && x in ring[1..]
    ensures i > 0
  {
  }

  lemma PlaceAfter<T>(s: Sys<T>, op: Op<T>, i: nat, i': int, ring: seq<T>)
    requires 0 < i < |s.ring| && ring == Step(s, op).ring
    requires i' == i + (if op.Spawn? then 1 else 0) - (if op.Tick? then 1 else 0)
    ensures 0 <= i' < |ring| && ring[i'] == s.ring[i]
  {
  }

  /** A waiting task comes one place nearer at every tick and is put back one place by every spawn. */
  lemma {:induction false} PlaceInQueue<T>(s: Sys<T>, ops: seq<Op<T>>, x: T, i: nat)
    requires Sound(s) && LegalRun(s, ops) && Waits(s, ops, x) && 0 < i < |s.ring| && s.ring[i] == x
    ensures 0 < i + Spawns(ops) - Ticks(ops) < |Run(s, ops).ring| && Run(s, ops).ring[i + Spawns(ops) - Ticks(ops)] == x
    decreases |ops|
  {
    if ops != [] {
      var s' := Step(s, ops[0]);
      var i' := i + (if ops[0].Spawn? then 1 else 0) - (if ops[0].Tick? then 1 else 0);
      PlaceAfter(s, ops[0], i, i', s'.ring);
      NotFirst(s'.ring, x, i');
      PlaceInQueue(s', ops[1..], x, i');
    }
  }

  /** Place i is still behind the running task after every step of ops: spawns keep ahead of ticks. */
  predicate Behind<T>(ops: seq<Op<T>>, i: int) {
    i > 0 && (ops == [] || Behind(ops[1..], i + (if ops[0].Spawn? then 1 else 0) - (if ops[0].Tick? then 1 else 0)))
  }

  /** A task at place i waits throughout a run -- and so never runs in it -- if and only if in no part of the run, from
      its start, the ticks outnumber the spawns by i. */
  lemma {:induction false} WaitsIff<T>(s: Sys<T>, ops: seq<Op<T>>, x: T, i: nat)
    requires Sound(s) && LegalRun(s, ops) && 0 < i < |s.ring| && s.ring[i] == x
    ensures Waits(s, ops, x) <==> Behind(ops, i)
    decreases |ops|
  {
    assert s.ring[1..][i - 1] == x;
    if ops != [] {
      var s' := Step(s, ops[0]);
      var i' := i + (if ops[0].Spawn? then 1 else 0) - (if ops[0].Tick? then 1 else 0);
      PlaceAfter(s, ops[0], i, i', s'.ring);
      if i' > 0 {
        WaitsIff(s', ops[1..], x, i');
      } else if x in s'.ring[1..] {
        NotFirst(s'.ring, x, 0);
      }
    }
  }

  /** The bytes of a new task's stacks. */
  function Room(user: bool): nat { if user then 8192 else 4096 }

  /** Spawns t, with its stacks at base. */
  function SpawnAt<T>(t: T, base: int, user: bool): Op<T> {
    Spawn(t, 0, 0, 0, base, Wrap(base + 8192), user)
  }

  /** A tick at the end of the stack [.., hi). */
  function TickAt<T>(hi: int): Op<T> {
    Tick(hi - 4, Frame(0, 0, 0, 0, 0, 0, 0, 0, 0))
  }

  /** The running task, whose stack ends at hi, spawns the tasks ts one by one, with or without user stacks, their
      stacks from base on, and there is one tick after each. */
  function SpawningRounds<T>(hi: int, ts: seq<T>, base: int, user: bool): (ops: seq<Op<T>>)
    ensures |ops| == 2 * |ts|
    decreases |ts|
  {
    if ts == [] then []
    else [SpawnAt(ts[0], base, user), TickAt(hi)] + SpawningRounds(base + 4096, ts[1..], base + Room(user), user)
  }

  /** Room for one frame on the running task's stack, and no stack beyond base. */
  ghost predicate Roomy<T>(s: Sys<T>, hi: int, base: int)
    requires Sound(s)
  {
    && s.stacks[s.ring[0]].hi == hi && s.stacks[s.ring[0]].lo + 36 <= hi
    && forall x :: x in s.ring ==> s.stacks[x].hi <= base && (s.stacks[x].user.Some? ==> s.stacks[x].user.value <= base)
  }

  /** Spawning once between every two ticks starves every task that waits at the start, for as many rounds as one likes:
      the run is legal, and none of them ever runs in it. */
  lemma {:induction false} SpawningStarves<T>(s: Sys<T>, hi: int, ts: seq<T>, base: int, user: bool)
    requires Sound(s) && Roomy(s, hi, base) && Distinct(ts) && forall t :: t in ts ==> t !in s.ring
    requires user ==> 0 <= base && base + 8192 * |ts| < TWO_32
    ensures LegalRun(s, SpawningRounds(hi, ts, base, user))
    ensures forall x :: x in s.ring[1..] ==> Waits(s, SpawningRounds(hi, ts, base, user), x)
    decreases |ts|
  {
    if ts != [] {
      var ops, t, next := SpawningRounds(hi, ts, base, user), ts[0], base + Room(user);
      assert ops[1..][1..] == SpawningRounds(base + 4096, ts[1..], next, user);
      OneRound(s, hi, t, base, user);
      var s1 := Step(s, ops[0]);
      var s2 := Step(s1, ops[1..][0]);
      forall u | u in ts[1..] ensures u !in s2.ring { assert u in ts; }
      SpawningStarves(s2, base + 4096, ts[1..], next, user);
    }
  }

  /** One spawn and one tick. */
  lemma OneRound<T>(s: Sys<T>, hi: int, t: T, base: int, user: bool)
    requires Sound(s) && Roomy(s, hi, base) && t !in s.ring && (user ==> 0 <= base && base + 8192 < TWO_32)
    ensures Legal(s, SpawnAt(t, base, user))
    ensures var s1, tick := Step(s, SpawnAt(t, base, user)), TickAt(hi);
            && Sound(s1) && Legal(s1, tick) && Sound(Step(s1, tick))
               && Roomy(Step(s1, tick), base + 4096, base + Room(user))
            && (forall x :: x in s.ring[1..] ==> x in s1.ring[1..] && x in Step(s1, tick).ring[1..])
            && (forall x :: x in Step(s1, tick).ring <==> x in s.ring || x == t)
  {
    OneSpawn(s, hi, t, base, user);
    OneTick(Step(s, SpawnAt(t, base, user)), hi, t, base, user, s.ring);
    assert s.ring == [s.ring[0]] + s.ring[1..];
  }

  lemma OneSpawn<T>(s: Sys<T>, hi: int, t: T, base: int, user: bool)
    requires Sound(s) && Roomy(s, hi, base) && t !in s.ring && (user ==> 0 <= base && base + 8192 < TWO_32)
    ensures Legal(s, SpawnAt(t, base, user)) && Sound(Step(s, SpawnAt(t, base, user)))
    ensures Roomy(Step(s, SpawnAt(t, base, user)), hi, base + Room(user))
    ensures Step(s, SpawnAt(t, base, user)).stacks[t].lo == base
            && Step(s, SpawnAt(t, base, user)).stacks[t].hi == base + 4096
  {
    if user { WrapSmall(base + 8192); }
    StepKeepsSound(s, SpawnAt(t, base, user));
  }

  lemma OneTick<T>(s: Sys<T>, hi: int, t: T, base: int, user: bool, ring: seq<T>)
    requires Sound(s) && ring != [] && s.ring == [ring[0], t] + ring[1..] && Roomy(s, hi, base + Room(user))
    requires s.stacks[t].lo == base && s.stacks[t].hi == base + 4096
    ensures Legal(s, TickAt(hi)) && Sound(Step(s, TickAt(hi)))
            && Roomy(Step(s, TickAt(hi)), base + 4096, base + Room(user))
    ensures forall x :: x in ring[1..] ==> x in s.ring[1..] && x in Step(s, TickAt(hi)).ring[1..]
    ensures Step(s, TickAt(hi)).ring == [t] + ring[1..] + [ring[0]]
  {
    StepKeepsSound(s, TickAt(hi));
    assert s.ring[1..] == [t] + ring[1..];
    assert Step(s, TickAt(hi)).ring == [t] + ring[1..] + [ring[0]];
    assert Step(s, TickAt(hi)).ring[1..] == ring[1..] + [ring[0]];
  }

  // ----- The kernel's tasks -----

  class Task {
    var esp0: int
    var next: Task?
    var prev: Task?
    var esp3: Word

    /** Memory from heap_alloc, as it comes. */
    constructor ()
    {
    }
  }

  /** `next` leads from x through rest, and `prev` back. */
  ghost predicate Chain(x: Task, rest: seq<Task>)
    reads x`next, rest`next, rest`prev
  {
    rest == [] || (x.next == rest[0] && rest[0].prev == x && Chain(rest[0], rest[1..]))
  }

  function Last(ring: seq<Task>): Task
    requires ring != []
  {
    ring[|ring| - 1]
  }

  /** `next` leads once round the ring; `prev` leads back, once there is more than one task. */
  ghost predicate Linked(ring: seq<Task>)
    reads ring`next, ring`prev
  {
    && ring != [] && Distinct(ring) && Chain(ring[0], ring[1..]) && Last(ring).next == ring[0]
    && ring[0].prev == if |ring| == 1 then null else Last(ring)
  }

  lemma {:induction false} ChainAt(x: Task, rest: seq<Task>, i: nat)
    requires Chain(x, rest) && i < |rest|
    ensures ([x] + rest)[i].next == rest[i] && rest[i].prev == ([x] + rest)[i]
    decreases |rest|
  {
    if i > 0 {
      ChainAt(rest[0], rest[1..], i - 1);
      assert [rest[0]] + rest[1..] == rest;
    }
  }

  /** From every task of the ring, `next` is the next in the ring and, once there are two tasks, its `prev` leads
      back. */
  lemma NextAndPrev(ring: seq<Task>, i: nat)
    requires Linked(ring) && i < |ring|
    ensures ring[i].next == ring[if i + 1 == |ring| then 0 else i + 1]
    ensures |ring| > 1 ==> ring[i].next != null && ring[i].next.prev == ring[i]
  {
    assert [ring[0]] + ring[1..] == ring;
    if i + 1 < |ring| { ChainAt(ring[0], ring[1..], i); }
  }

  lemma {:induction false} ChainAppend(x: Task, rest: seq<Task>, y: Task)
    requires Chain(x, rest) && Last([x] + rest).next == y && y.prev == Last([x] + rest)
    ensures Chain(x, rest + [y])
    decreases |rest|
  {
    if rest != [] {
      assert [rest[0]] + rest[1..] == rest;
      assert (rest + [y])[1..] == rest[1..] + [y];
      ChainAppend(rest[0], rest[1..], y);
    } else {
      assert [y][1..] == [];
    }
  }

  lemma RotateLinked(ring: seq<Task>)
    requires Linked(ring)
    ensures Linked(Rotate(ring)) && ring[0].next == Rotate(ring)[0]
  {
    RotateMembers(ring);
    NextAndPrev(ring, 0);
    if |ring| > 1 {
      var r := Rotate(ring);
      assert [ring[1]] + ring[2..] == ring[1..] && ring[1..][1..] == ring[2..];
      assert Last(ring[1..]) == Last(ring);
      ChainAppend(ring[1], ring[2..], ring[0]);
      assert r[0] == ring[1] && r[1..] == ring[2..] + [ring[0]];
    } else {
      assert Rotate(ring) == ring;
    }
  }

  ghost function Esp0s(ring: seq<Task>): (m: map<Task, int>)
    reads ring`esp0
    ensures m.Keys == (set x | x in ring)
  {
    map x | x in ring :: x.esp0
  }

  ghost function Esp3s(ring: seq<Task>): (m: map<Task, Word>)
    reads ring`esp3
    ensures m.Keys == (set x | x in ring)
  {
    map x | x in ring :: x.esp3
  }

  class Scheduler {
    var cur: Task
    var mem: Memory
    var tss: Word
    var interruptTick: Word
    ghost var ring: seq<Task>
    ghost var stacks: map<Task, Stack>

    ghost predicate Ring()
      reads this`cur, this`ring, ring
    {
      Linked(ring) && ring[0] == cur
    }

    ghost function View(): Sys<Task>
      reads this`mem, this`tss, this`ring, this`stacks, ring
    {
      Sys(ring, mem, Esp0s(ring), Esp3s(ring), stacks, tss)
    }

    /** init_tasking; the base task is a zeroed global and runs on the boot stack. */
    constructor (base: Task, m: Memory, boot: Stack, entry: Word)
      requires base.prev == null
      modifies base
      ensures Ring() && Sound(View()) && ring == [base] && mem == m && stacks == map[base := boot] && interruptTick == 0
    {
      cur, mem, tss, interruptTick, ring, stacks := base, m, entry, 0, [base], map[base := boot];
      new;
      base.next := base;
    }

    /** The pushes of task_switch. */
    method PushFrame(esp: int, f: Frame) returns (sp: int)
      modifies this`mem
      ensures mem == SaveFrame(old(mem), esp, f) && sp == esp - 32
    {
      sp := esp;
      sp := sp - 4; mem := mem[sp := f.eflags];
      sp := sp - 4; mem := mem[sp := f.eax];
      sp := sp - 4; mem := mem[sp := f.ecx];
      sp := sp - 4; mem := mem[sp := f.edx];
      sp := sp - 4; mem := mem[sp := f.ebx];
      sp := sp - 4; mem := mem[sp := f.ebp];
      sp := sp - 4; mem := mem[sp := f.esi];
      sp := sp - 4; mem := mem[sp := f.edi];
    }

    /** The pops and the ret of task_switch. */
    method PopFrame(esp: int) returns (f: Frame, esp': int)
      ensures f == FrameAt(mem, esp) && esp' == esp + 36
    {
      var sp := esp;
      var edi := Load(mem, sp); sp := sp + 4;
      var esi := Load(mem, sp); sp := sp + 4;
      var ebp := Load(mem, sp); sp := sp + 4;
      var ebx := Load(mem, sp); sp := sp + 4;
      var edx := Load(mem, sp); sp := sp + 4;
      var ecx := Load(mem, sp); sp := sp + 4;
      var eax := Load(mem, sp); sp := sp + 4;
      var eflags := Load(mem, sp); sp := sp + 4;
      var eip := Load(mem, sp); sp := sp + 4;
      f, esp' := Frame(edi, esi, ebp, ebx, edx, ecx, eax, eflags, eip), sp;
    }

    /** The first half of task_switch: the running task's registers go on its stack. */
    method SaveContext(esp: int, regs: Frame)
      requires Ring()
      modifies this`mem, cur`esp0
      ensures View() == Saved(old(View()), esp, regs)
    {
      ghost var esp0s := Esp0s(ring);
      var sp := PushFrame(esp, regs);
      cur.esp0 := sp;
      assert Esp0s(ring) == esp0s[cur := esp - 32];
    }

    /** The next task becomes the running one. */
    method Advance()
      requires Ring()
      modifies this`cur, this`ring, this`tss
      ensures Ring() && View() == Advanced(old(View()))
    {
      ghost var next := Rotate(ring);
      RotateLinked(ring);
      RotateMaps(ring, next);
      cur := cur.next;
      ring := next;
      tss := cur.esp3;
    }

    /** task_switch up to its pops. */
    method SwitchStacks(esp: int, regs: Frame)
      requires Ring()
      modifies this`mem, this`cur, this`ring, this`tss, cur`esp0
      ensures Ring() && View() == Step(old(View()), Tick(esp, regs))
    {
      SaveContext(esp, regs);
      Advance();
    }

    /** task_switch: esp is the stack pointer on entry, where the return address is; regs holds the saved registers that
        the interrupt state and ebp give. */
    method TaskSwitch(esp: int, regs: Frame) returns (loaded: Frame, esp': int)
      requires Ring()
      modifies this`mem, this`cur, this`ring, this`tss, cur`esp0
      ensures Ring() && View() == Step(old(View()), Tick(esp, regs))
      ensures loaded == FrameAt(mem, cur.esp0) && esp' == cur.esp0 + 36
    {
      SwitchStacks(esp, regs);
      loaded, esp' := PopFrame(cur.esp0);
    }

    /** pit_isr: one tick. */
    method PitIsr(esp: int, regs: Frame) returns (loaded: Frame, esp': int)
      requires Ring()
      modifies this, cur
      ensures Ring() && View() == Step(old(View()), Tick(esp, regs))
      ensures loaded == FrameAt(mem, cur.esp0) && esp' == cur.esp0 + 36
      ensures interruptTick == Wrap(old(interruptTick) + 1)
    {
      interruptTick := Wrap(interruptTick + 1);
      loaded, esp' := TaskSwitch(esp, regs);
    }

    /** create_thread: `lo` is the address heap_alloc gave for the stack, `user` that of a user stack if one is asked
        for. */
    method CreateThread(task: Task, fn: Word, param: Word, exit: Word, lo: int, user: Option<Word>,
                        ghost others: seq<Task>)
      requires task !in others
      modifies this`mem, task`esp0, task`esp3
      ensures mem == InitStack(old(mem), lo + 4096, fn, param, exit) && task.esp0 == lo + 4052
      ensures task.esp3 == match user case Some(a) => Wrap(a + 4096) case None => old(task.esp3)
      ensures Esp0s(others) == old(Esp0s(others)) && Esp3s(others) == old(Esp3s(others))
    {
      var stack := lo + 4096;
      stack := stack - 4; mem := mem[stack := param];
      stack := stack - 4; mem := mem[stack := exit];
      stack := stack - 4; mem := mem[stack := fn];
      stack := stack - 4; mem := mem[stack := 0x202];
      stack := stack - 4; mem := mem[stack := 0];
      stack := stack - 4; mem := mem[stack := 0];
      stack := stack - 4; mem := mem[stack := 0];
      stack := stack - 4; mem := mem[stack := 0];
      stack := stack - 4; mem := mem[stack := 0];
      stack := stack - 4; mem := mem[stack := 0];
      stack := stack - 4; mem := mem[stack := 0];
      task.esp0 := stack;
      match user
      case Some(a) => task.esp3 := Wrap(a + 4096);
      case None =>
    }

    /** The relinking of spawn_thread: a new task goes in behind the running one. */
    method Link() returns (task: Task)
      requires Ring()
      modifies cur`next, cur`prev, cur.next`prev, this`ring
      ensures fresh(task) && ring == Insert(old(ring), task) && Ring() && task !in old(ring)
    {
      NextAndPrev(ring, 0);
      ghost var rest := ring[1..];
      ghost var behind := if rest == [] then [] else rest[1..];
      assert Distinct(rest);
      assert rest != [] ==> Chain(rest[0], behind) && rest[0] !in behind && cur !in behind && cur.next == rest[0];
      var temp := cur.next;
      task := new Task();
      cur.next := task;
      cur.next.prev := cur;
      cur.next.next := temp;
      temp.prev := cur.next;
      // never null here: temp was cur when prev was not yet set
      cur.prev := if cur.prev == null then temp else cur.prev;
      assert task !in ring && cur !in rest;
      assert rest != [] ==> Chain(rest[0], behind);
      InsertMembers(ring, task);
      ring := Insert(ring, task);
    }

    /** create_thread, and what it got from heap_alloc recorded. */
    method Furnish(task: Task, fn: Word, param: Word, exit: Word, lo: int, user: Option<Word>, ghost others: seq<Task>)
      requires Ring() && task !in others
      modifies this`mem, this`stacks, task`esp0, task`esp3
      ensures Ring() && mem == InitStack(old(mem), lo + 4096, fn, param, exit) && task.esp0 == lo + 4052
      ensures stacks == old(stacks)[task := NewStack(lo, task.esp3, user.Some?)]
      ensures user.Some? ==> task.esp3 == Wrap(user.value + 4096)
      ensures Esp0s(others) == old(Esp0s(others)) && Esp3s(others) == old(Esp3s(others))
    {
      CreateThread(task, fn, param, exit, lo, user, others);
      stacks := stacks[task := NewStack(lo, task.esp3, user.Some?)];
    }

    /** spawn_thread. */
    method SpawnThread(fn: Word, param: Word, exit: Word, lo: int, user: Option<Word>) returns (task: Task)
      requires Ring()
      modifies this`mem, this`ring, this`stacks, cur`next, cur`prev, cur.next`prev
      ensures fresh(task) && Ring()
              && View() == Step(old(View()), Spawn(task, fn, param, exit, lo, task.esp3, user.Some?))
      ensures user.Some? ==> task.esp3 == Wrap(user.value + 4096)
    {
      ghost var before := View();
      task := Link();
      Furnish(task, fn, param, exit, lo, user, before.ring);
      InsertMaps(before.ring, task, before.esp0, before.esp3);
      SpawnIs(before, View(), task, fn, param, exit, lo, task.esp3, user.Some?);
    }
  }

  lemma InsertMaps(ring: seq<Task>, t: Task, esp0s: map<Task, int>, esp3s: map<Task, Word>)
    requires ring != [] && esp0s == Esp0s(ring) && esp3s == Esp3s(ring)
    ensures Esp0s(Insert(ring, t)) == esp0s[t := t.esp0] && Esp3s(Insert(ring, t)) == esp3s[t := t.esp3]
  {
    assert ring == [ring[0]] + ring[1..];
    assert forall x :: x in Insert(ring, t) <==> x in ring || x == t;
  }

  lemma SpawnIs<T>(s: Sys<T>, s': Sys<T>, t: T, fn: Word, param: Word, exit: Word, lo: int, esp3: Word, user: bool)
    requires s.ring != [] && s'.ring == Insert(s.ring, t) && s'.mem == InitStack(s.mem, lo + 4096, fn, param, exit)
    requires s'.esp0 == s.esp0[t := lo + 4052] && s'.esp3 == s.esp3[t := esp3]
             && s'.stacks == s.stacks[t := NewStack(lo, esp3, user)]
    requires s'.tss == s.tss
    ensures s' == Step(s, Spawn(t, fn, param, exit, lo, esp3, user))
  {
  }

  lemma RotateMaps(ring: seq<Task>, next: seq<Task>)
    requires ring != [] && Distinct(ring) && next == Rotate(ring)
    ensures Esp0s(next) == Esp0s(ring) && Esp3s(next) == Esp3s(ring) && next[0] in Esp3s(ring)
  {
    RotateMembers(ring);
    assert next[0] in ring;
  }
}
