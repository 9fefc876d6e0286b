/** Tasks: choosing the next one, and switching to it by swapping stacks. Memory is
    an array of 32-bit words; addresses and stack pointers count words. The task
    table and the stacks live in it at fixed, disjoint places. */
module Tasks {
  import opened Bytes
  import opened Kernel

  const STACK_WORDS: nat := 1024
  const FRAME_WORDS: nat := 6
  const INITIAL_EFLAGS: u32 := 0x202

  // ---- round robin -------------------------------------------------------------

  /** Whose turn it is after `current`: the first ready task behind it, going
      round, or -1 if no other task is ready. */
  function NextReady(ready: seq<bool>, current: nat, k: nat): (r: int)
    requires |ready| > 0 && current < |ready| && 1 <= k <= |ready|
    ensures r == -1 || (0 <= r < |ready| && r != current && ready[r])
    decreases |ready| - k
  {
    if k == |ready| then -1
    else
      var i := (current + k) % |ready|;
      NotSelf(current, k, |ready|);
      if ready[i] then i else NextReady(ready, current, k + 1)
  }

  lemma NotSelf(current: nat, k: nat, n: nat)
    requires current < n && 1 <= k < n
    ensures (current + k) % n != current && Distance(current, (current + k) % n, n) == k
  {
    if current + k < n {
      assert (current + k) % n == current + k;
    } else {
      assert (current + k) % n == current + k - n;
    }
  }

  /** How many turns `j` is away from `i`, going round. */
  function Distance(i: nat, j: nat, n: nat): nat
    requires i < n && j < n
  {
    if j >= i then j - i else j + n - i
  }

  method TaskNext(ready: seq<bool>, current: nat) returns (r: int)
    requires |ready| > 0 && current < |ready|
    ensures r == NextReady(ready, current, 1)
  {
    var k := 1;
    while k < |ready|
      invariant 1 <= k <= |ready|
      invariant NextReady(ready, current, 1) == NextReady(ready, current, k)
    {
      var i := (current + k) % |ready|;
      if ready[i] {
        return i;
      }
      k := k + 1;
    }
    return -1;
  }

  /** The nearest ready task is taken: nobody in between is ready. */
  lemma {:induction false} NextIsNearest(ready: seq<bool>, current: nat, k: nat, j: nat)
    requires |ready| > 0 && current < |ready| && 1 <= k <= |ready|
    requires j < |ready| && j != current && ready[j] && Distance(current, j, |ready|) >= k
    ensures var r := NextReady(ready, current, k);
      r != -1 && k <= Distance(current, r, |ready|) <= Distance(current, j, |ready|)
    decreases |ready| - k
  {
    NotSelf(current, k, |ready|);
    var i := (current + k) % |ready|;
    if !ready[i] {
      assert i != j;
      assert Distance(current, j, |ready|) != k;
      NextIsNearest(ready, current, k + 1, j);
    }
  }

  /** -1 means exactly that nobody else is ready. */
  lemma NobodyElse(ready: seq<bool>, current: nat)
    requires |ready| > 0 && current < |ready|
    ensures NextReady(ready, current, 1) == -1 <==> forall j :: 0 <= j < |ready| && j != current ==> !ready[j]
  {
    if j :| 0 <= j < |ready| && j != current && ready[j] {
      NextIsNearest(ready, current, 1, j);
    }
  }

  /** One turn brings every waiting task closer: it runs, or its distance shrinks. */
  lemma TurnsComeCloser(ready: seq<bool>, current: nat, j: nat)
    requires |ready| > 0 && current < |ready|
    requires j < |ready| && j != current && ready[j]
    ensures var r := NextReady(ready, current, 1);
      && 0 <= r < |ready|
      && Distance(r, j, |ready|) < Distance(current, j, |ready|)
  {
    NextIsNearest(ready, current, 1, j);
  }

  // ---- contexts ----------------------------------------------------------------

  /** What a task needs to go on: the callee-saved registers, the flags, the stack
      pointer and the place to go on from. */
  datatype Context = Context(ebx: u32, esi: u32, edi: u32, ebp: u32, eflags: u32, esp: nat, eip: u32)

  /** The context stored as a 6-word frame at `sp`, in the order task_switch pops
      it: edi, esi, ebx, ebp, eflags, return address. */
  function FrameAt(mem: seq<u32>, sp: nat): Context
    requires sp + FRAME_WORDS <= |mem|
  {
    Context(mem[sp + 2], mem[sp + 1], mem[sp], mem[sp + 3], mem[sp + 4], sp + FRAME_WORDS, mem[sp + 5])
  }

  /** The context a task is born with. */
  function Newborn(entry: u32, top: nat): Context {
    Context(0, 0, 0, 0, INITIAL_EFLAGS, top, entry)
  }

  /** Word `j` of a newborn's frame, counted from the top: where to start, the flags, and
      four zeros. */
  function FrameWord(entry: u32, j: nat): u32 {
    if j == 0 then entry else if j == 1 then INITIAL_EFLAGS else 0
  }

  /** Word `j` below `top`. */
  function Below(mem: seq<u32>, top: nat, j: nat): u32
    requires j < top <= |mem|
  {
    mem[top - 1 - j]
  }

  /** Six words from the top down make a newborn's frame. */
  lemma Forged(mem: seq<u32>, top: nat, entry: u32)
    requires FRAME_WORDS <= top <= |mem|
    requires forall j :: 0 <= j < FRAME_WORDS ==> Below(mem, top, j) == FrameWord(entry, j)
    ensures FrameAt(mem, top - FRAME_WORDS) == Newborn(entry, top)
  {
    assert Below(mem, top, 0) == entry && Below(mem, top, 1) == INITIAL_EFLAGS;
    assert Below(mem, top, 2) == Below(mem, top, 3) == Below(mem, top, 4) == Below(mem, top, 5) == 0;
  }

  function FirstFree(ready: seq<bool>): (i: nat)
    ensures i <= |ready| && (i < |ready| ==> !ready[i])
    ensures forall j :: 0 <= j < i ==> ready[j]
  {
    if ready == [] || !ready[0] then 0 else 1 + FirstFree(ready[1..])
  }

  // ---- the system as its tasks see it --------------------------------------------

  /** A task in the making: who makes it, in which slot, where it will start and where
      its stack ends, and how many of the words that come before its state are stored:
      six of the frame, and the stack pointer. */
  datatype Draft = NoDraft | Draft(maker: nat, slot: nat, entry: u32, top: nat, stores: nat)

  const DRAFT_STORES: nat := 7

  datatype System = System(ready: seq<bool>, current: nat, cpu: Context, saved: seq<Context>, draft: Draft)

  /** The running task computes; a switch is made, to be returned from at `ret`; a slot is
      chosen for a new task with its stack ending at `top`; the next word of the new task
      is stored, its state last. */
  datatype Event = Computed(cpu: Context) | Switched(ret: u32) | Begun(entry: u32, top: nat) | Stored

  /** The slot being filled is the first free one, so it is not ready. A second maker
      would choose the same one. */
  predicate DraftSound(ready: seq<bool>, d: Draft) {
    d.Draft? ==> d.maker < |ready| && ready[d.maker] && d.slot == FirstFree(ready) < |ready| && d.stores <= DRAFT_STORES
  }

  predicate Sound(s: System) {
    |s.ready| == |s.saved| == MAX_TASKS && s.current < MAX_TASKS && s.ready[s.current] && DraftSound(s.ready, s.draft)
  }

  /** The context of the running task when it calls the switch: two arguments stay
      on its stack for the caller to drop. */
  function AtCall(cpu: Context, ret: u32): Context
    requires cpu.esp >= 2
  {
    cpu.(esp := cpu.esp - 2, eip := ret)
  }

  /** Stores are made by the maker when it runs; there is one at a time. */
  predicate Possible(s: System, ev: Event) {
    && Sound(s)
    && match ev
       case Computed(_) => true
       case Switched(_) => s.cpu.esp >= 2
       case Begun(_, _) => s.draft.NoDraft?
       case Stored => s.draft.Draft? && s.draft.maker == s.current
  }

  function After(s: System, ev: Event): (s': System)
    requires Possible(s, ev)
    ensures Sound(s')
  {
    match ev
    case Computed(cpu) => s.(cpu := cpu)
    case Switched(ret) =>
      var r := NextReady(s.ready, s.current, 1);
      if r == -1 then s
      else System(s.ready, r, s.saved[r], s.saved[s.current := AtCall(s.cpu, ret)], s.draft)
    case Begun(entry, top) =>
      var i := FirstFree(s.ready);
      if i == MAX_TASKS then s else s.(draft := Draft(s.current, i, entry, top, 0))
    case Stored =>
      if s.draft.stores < DRAFT_STORES then s.(draft := s.draft.(stores := s.draft.stores + 1))
      else Born(s.(draft := NoDraft), s.draft.entry, s.draft.top)
  }

  /** The whole of a birth: the first free task is ready, with a newborn's context. */
  function Born(s: System, entry: u32, top: nat): System
    requires |s.ready| == |s.saved| == MAX_TASKS
  {
    var i := FirstFree(s.ready);
    if i == MAX_TASKS then s
    else s.(ready := s.ready[i := true], saved := s.saved[i := Newborn(entry, top)])
  }

  ghost predicate Run(ss: seq<System>, evs: seq<Event>) {
    && |ss| == |evs| + 1
    && forall k :: 0 <= k < |evs| ==> Possible(ss[k], evs[k]) && ss[k + 1] == After(ss[k], evs[k])
  }

  /** While others run, compute, switch and create, what was saved for a task
      stays as it is. */
  lemma {:induction false} SavedStays(ss: seq<System>, evs: seq<Event>, t: nat)
    requires Run(ss, evs) && t < MAX_TASKS && Sound(ss[0]) && ss[0].ready[t]
    requires forall k :: 0 <= k < |evs| ==> ss[k].current != t
    ensures Sound(ss[|evs|]) && ss[|evs|].ready[t]
    ensures ss[|evs|].current != t ==> ss[|evs|].saved[t] == ss[0].saved[t]
    ensures |evs| > 0 && ss[|evs|].current == t ==> ss[|evs|].cpu == ss[0].saved[t]
  {
    if |evs| > 0 {
      var n := |evs| - 1;
      SavedStays(ss[..|evs|], evs[..n], t);
      assert ss[n].current != t && ss[n + 1] == After(ss[n], evs[n]);
    }
  }

  /** No context is lost or mixed: a task that is switched out and, after any run of
      the others, is running again has the registers, flags, stack pointer and
      return point it called the switch with. */
  lemma SwitchedBackUnchanged(ss: seq<System>, evs: seq<Event>)
    requires Run(ss, evs) && |evs| > 1 && evs[0].Switched? && NextReady(ss[0].ready, ss[0].current, 1) != -1
    requires forall k :: 1 <= k < |evs| ==> ss[k].current != ss[0].current
    requires ss[|evs|].current == ss[0].current
    ensures ss[|evs|].cpu == AtCall(ss[0].cpu, evs[0].ret)
    ensures var was, now := ss[0].cpu, ss[|evs|].cpu;
      && now.ebx == was.ebx && now.esi == was.esi && now.edi == was.edi && now.ebp == was.ebp
      && now.eflags == was.eflags && now.esp == was.esp - 2 && now.eip == evs[0].ret
  {
    var t := ss[0].current;
    var ss', evs' := Later(ss, evs);
    assert ss[0 + 1] == After(ss[0], evs[0]);
    forall k | 0 <= k < |evs'|
      ensures ss'[k].current != t
    {
      assert ss'[k] == ss[k + 1];
    }
    SavedStays(ss', evs', t);
  }

  /** Slot `t` is being filled for `entry`, or has been and waits to start there. */
  predicate Expected(s: System, t: nat, entry: u32, top: nat) {
    && t < |s.ready| == |s.saved|
    && if s.ready[t] then s.saved[t] == Newborn(entry, top)
       else s.draft.Draft? && s.draft.slot == t && s.draft.entry == entry && s.draft.top == top
  }

  lemma ExpectedStays(s: System, ev: Event, t: nat, entry: u32, top: nat)
    requires Possible(s, ev) && Expected(s, t, entry, top) && s.current != t
    ensures After(s, ev).current != t ==> Expected(After(s, ev), t, entry, top)
    ensures After(s, ev).current == t ==> After(s, ev).cpu == Newborn(entry, top)
  {
  }

  /** Whoever runs between the stores, and whatever they do, the new task comes to be. */
  lemma {:induction false} BirthStays(ss: seq<System>, evs: seq<Event>, t: nat, entry: u32, top: nat)
    requires Run(ss, evs) && Sound(ss[0]) && Expected(ss[0], t, entry, top)
    requires forall k :: 0 <= k < |evs| ==> ss[k].current != t
    ensures Sound(ss[|evs|])
    ensures ss[|evs|].current != t ==> Expected(ss[|evs|], t, entry, top)
    ensures |evs| > 0 && ss[|evs|].current == t ==> ss[|evs|].cpu == Newborn(entry, top)
  {
    hide After, Possible, Expected, Sound;
    if |evs| > 0 {
      var n := |evs| - 1;
      BirthStays(ss[..|evs|], evs[..n], t, entry, top);
      ExpectedStays(ss[n], evs[n], t, entry, top);
    }
  }

  /** A new task starts at its entry point, at the top of its stack and with interrupts
      on (bit 9 of the flags), whatever happens between its stores and before its turn
      comes. */
  lemma NewbornStarts(ss: seq<System>, evs: seq<Event>)
    requires Run(ss, evs) && |evs| > 1 && evs[0].Begun? && FirstFree(ss[0].ready) < MAX_TASKS
    requires forall k :: 1 <= k < |evs| ==> ss[k].current != FirstFree(ss[0].ready)
    requires ss[|evs|].current == FirstFree(ss[0].ready)
    ensures ss[|evs|].cpu == Newborn(evs[0].entry, evs[0].top)
    ensures ss[|evs|].cpu == Context(0, 0, 0, 0, 0x202, evs[0].top, evs[0].entry)
    ensures ss[|evs|].cpu.eip == evs[0].entry && ss[|evs|].cpu.eflags / 0x200 % 2 == 1
  {
    var t := FirstFree(ss[0].ready);
    var ss', evs' := Later(ss, evs);
    assert ss[0 + 1] == After(ss[0], evs[0]);
    forall k | 0 <= k < |evs'|
      ensures ss'[k].current != t
    {
      assert ss'[k] == ss[k + 1];
    }
    BirthStays(ss', evs', t, evs[0].entry, evs[0].top);
  }

  /** A run goes on from its second state. */
  lemma Later(ss: seq<System>, evs: seq<Event>) returns (ss': seq<System>, evs': seq<Event>)
    requires Run(ss, evs) && |evs| > 0
    ensures ss' == ss[1..] && evs' == evs[1..] && Run(ss', evs')
  {
    ss', evs' := ss[1..], evs[1..];
    forall k | 0 <= k < |evs'|
      ensures Possible(ss'[k], evs'[k]) && ss'[k + 1] == After(ss'[k], evs'[k])
    {
      assert ss'[k] == ss[k + 1] && evs'[k] == evs[k + 1] && ss'[k + 1] == ss[k + 2];
    }
  }

  /** How many turns a run takes. */
  function Switches(evs: seq<Event>): nat {
    if evs == [] then 0 else (if evs[0].Switched? then 1 else 0) + Switches(evs[1..])
  }

  /** Bounded waiting: on a run with turns enough a ready task is running after at most as
      many as it is places away, whatever is computed and created meanwhile. */
  lemma {:induction false} BoundedWaiting(ss: seq<System>, evs: seq<Event>, j: nat)
    requires Run(ss, evs) && Sound(ss[0]) && j < MAX_TASKS && ss[0].ready[j]
    requires Switches(evs) >= Distance(ss[0].current, j, MAX_TASKS)
    ensures exists k :: 0 <= k <= |evs| && ss[k].current == j && Switches(evs[..k]) <= Distance(ss[0].current, j, MAX_TASKS)
    decreases |evs|
  {
    if ss[0].current == j {
      assert Switches(evs[..0]) == 0;
    } else {
      var ss', evs' := Later(ss, evs);
      assert ss[0 + 1] == After(ss[0], evs[0]);
      if evs[0].Switched? {
        TurnsComeCloser(ss[0].ready, ss[0].current, j);
      }
      BoundedWaiting(ss', evs', j);
      var k :| 0 <= k <= |evs'| && ss'[k].current == j && Switches(evs'[..k]) <= Distance(ss'[0].current, j, MAX_TASKS);
      assert evs[..k + 1][0] == evs[0] && evs[..k + 1][1..] == evs'[..k];
      assert ss[k + 1].current == j;
    }
  }

  // ---- where things lie in memory --------------------------------------------------

  /** The task table starts at `table`: for each task the word that keeps its stack
      pointer while it does not run, its state (1 for ready), and its stack. Task 0
      runs on the boot stack instead. */
  datatype Layout = Layout(table: nat, boot: nat, bootWords: nat) {
    function Cell(i: nat): nat { table + i * (2 + STACK_WORDS) }

    function StackLo(i: nat): nat { if i == 0 then boot else Cell(i) + 2 }

    function StackHi(i: nat): nat { if i == 0 then boot + bootWords else Cell(i + 1) }

    /** The table and the boot stack lie in memory and apart; byte addresses fit in 32
        bits. */
    predicate Fits(words: nat) {
      && words < 0x4000_0000
      && Cell(MAX_TASKS) <= words && boot + bootWords <= words
      && (boot + bootWords <= table || Cell(MAX_TASKS) <= boot)
    }

    function Ready(mem: seq<u32>): (r: seq<bool>)
      requires Fits(|mem|)
      ensures |r| == MAX_TASKS && forall i :: 0 <= i < MAX_TASKS ==> r[i] == (mem[Cell(i) + 1] == 1)
    {
      seq(MAX_TASKS, i requires 0 <= i < MAX_TASKS && Fits(|mem|) => mem[Cell(i) + 1] == 1)
    }

    /** The saved stack pointer of a task points at a complete frame in its own
        stack, and the frame is its context. */
    predicate FrameKept(mem: seq<u32>, i: nat, c: Context)
      requires Fits(|mem|) && i < MAX_TASKS
    {
      var sp := mem[Cell(i)];
      StackLo(i) <= sp && sp + FRAME_WORDS <= StackHi(i) && FrameAt(mem, sp) == c
    }

    /** Task `i` is free or ready; the running task and task 0 are ready; a ready task
        that does not run has its frame. */
    predicate TaskKept(mem: seq<u32>, current: nat, saved: seq<Context>, i: nat)
      requires Fits(|mem|) && |saved| == MAX_TASKS && i < MAX_TASKS
    {
      var state := mem[Cell(i) + 1];
      && (state == 0 || state == 1)
      && (i == current || i == 0 ==> state == 1)
      && (state == 1 && i != current ==> FrameKept(mem, i, saved[i]))
    }

    ghost predicate Kept(mem: seq<u32>, current: nat, saved: seq<Context>) {
      && Fits(|mem|) && |saved| == MAX_TASKS && current < MAX_TASKS
      && forall i :: 0 <= i < MAX_TASKS ==> TaskKept(mem, current, saved, i)
    }

    /** Memory that task `t` may write while it runs: its stack, and what belongs
        to no task. */
    predicate Own(t: nat, a: nat) {
      || StackLo(t) <= a < StackHi(t)
      || (Outside(a, boot, boot + bootWords) && Outside(a, table, Cell(MAX_TASKS)))
    }

    /** Stacks do not overlap, and no stack holds a cell of the table. */
    lemma Apart(words: nat, i: nat, j: nat)
      requires Fits(words) && i < MAX_TASKS && j < MAX_TASKS
      ensures i != j ==> StackHi(i) <= StackLo(j) || StackHi(j) <= StackLo(i)
      ensures Outside(Cell(j), StackLo(i), StackHi(i)) && Outside(Cell(j) + 1, StackLo(i), StackHi(i))
      ensures StackHi(i) <= words && Cell(i) + 1 < words
    {
    }

    /** A task is 1026 words: its stack pointer, its state, 1 for ready, and its stack. Its
        frame, from the saved stack pointer up: edi, esi, ebx, ebp, flags, return address. */
    lemma InPlainNumbers(mem: seq<u32>, i: nat, c: Context)
      requires Fits(|mem|) && i < 8
      ensures Ready(mem)[i] <==> mem[table + 1026 * i + 1] == 1
      ensures i > 0 ==> StackLo(i) == table + 1026 * i + 2 && StackHi(i) == table + 1026 * (i + 1)
      ensures StackLo(0) == boot && StackHi(0) == boot + bootWords
      ensures FrameKept(mem, i, c) ==>
        var sp := mem[table + 1026 * i];
        && StackLo(i) <= sp && sp + 6 <= StackHi(i) <= |mem|
        && c == Context(mem[sp + 2], mem[sp + 1], mem[sp], mem[sp + 3], mem[sp + 4], sp + 6, mem[sp + 5])
    {
    }

    lemma StackRoom(words: nat, i: nat)
      requires Fits(words) && 0 < i < MAX_TASKS
      ensures StackHi(i) == StackLo(i) + STACK_WORDS && StackHi(i) <= words
    {
    }

    /** Memory of task `t` by itself: what it may write, and its entry in the table. */
    predicate Near(t: nat, a: nat) { Own(t, a) || a == Cell(t) || a == Cell(t) + 1 }

    /** `mem'` differs from `mem` near `t` only. */
    ghost predicate Elsewhere(mem: seq<u32>, mem': seq<u32>, t: nat) {
      |mem'| == |mem| && forall a {:trigger mem'[a]} :: 0 <= a < |mem| && !Near(t, a) ==> mem'[a] == mem[a]
    }

    /** What happens near `t` leaves the entries and the frames of the others. */
    lemma OthersStay(mem: seq<u32>, mem': seq<u32>, t: nat, i: nat,
                     current: nat, saved: seq<Context>, current': nat, saved': seq<Context>)
      requires Fits(|mem|) && Elsewhere(mem, mem', t) && t < MAX_TASKS && i < MAX_TASKS && i != t
      requires |saved| == |saved'| == MAX_TASKS && saved'[i] == saved[i]
      requires (i == current' ==> mem[Cell(i) + 1] == 1) && (i == current ==> i == current')
      requires TaskKept(mem, current, saved, i)
      ensures TaskKept(mem', current', saved', i) && mem'[Cell(i) + 1] == mem[Cell(i) + 1]
    {
      Apart(|mem|, t, i);
      Apart(|mem|, i, i);
    }

    /** If the entry of `t` is in order after a step near `t`, all are. */
    lemma StepKeeps(mem: seq<u32>, mem': seq<u32>, t: nat,
                    current: nat, saved: seq<Context>, current': nat, saved': seq<Context>)
      requires Kept(mem, current, saved) && Elsewhere(mem, mem', t) && t < MAX_TASKS
      requires current' < MAX_TASKS && (current' == current || current == t)
      requires current' != t ==> Ready(mem)[current']
      requires |saved'| == MAX_TASKS && forall i :: 0 <= i < MAX_TASKS && i != t ==> saved'[i] == saved[i]
      requires TaskKept(mem', current', saved', t)
      ensures Kept(mem', current', saved')
      ensures Ready(mem') == Ready(mem)[t := Ready(mem')[t]]
    {
      hide TaskKept, Near, Cell, Fits;
      forall i | 0 <= i < MAX_TASKS
        ensures TaskKept(mem', current', saved', i) && (i != t ==> Ready(mem')[i] == Ready(mem)[i])
      {
        if i != t {
          OthersStay(mem, mem', t, i, current, saved, current', saved');
        }
      }
    }

    /** Writes of task `t` to its own memory keep the table and all other frames. */
    lemma OwnWritesKeep(mem: seq<u32>, mem': seq<u32>, t: nat, current: nat, saved: seq<Context>)
      requires Kept(mem, current, saved) && |mem'| == |mem| && t < MAX_TASKS
      requires t == current || !Ready(mem)[t]
      requires forall a {:trigger mem'[a]} :: 0 <= a < |mem| && !Own(t, a) ==> mem'[a] == mem[a]
      ensures Kept(mem', current, saved) && Ready(mem') == Ready(mem)
    {
      hide Cell, StackLo, StackHi, Kept, FrameKept, Fits, Own;
      OwnWritesNear(mem, mem', t, current, saved);
      StepKeeps(mem, mem', t, current, saved, current, saved);
    }

    lemma OwnWritesNear(mem: seq<u32>, mem': seq<u32>, t: nat, current: nat, saved: seq<Context>)
      requires Kept(mem, current, saved) && |mem'| == |mem| && t < MAX_TASKS
      requires t == current || !Ready(mem)[t]
      requires forall a {:trigger mem'[a]} :: 0 <= a < |mem| && !Own(t, a) ==> mem'[a] == mem[a]
      ensures Fits(|mem|) && |saved| == MAX_TASKS && current < MAX_TASKS && Ready(mem)[current]
      ensures Elsewhere(mem, mem', t) && TaskKept(mem', current, saved, t) && Ready(mem')[t] == Ready(mem)[t]
    {
      hide FrameKept;
      assert TaskKept(mem, current, saved, t) && TaskKept(mem, current, saved, current);
      Apart(|mem|, t, t);
      assert !Own(t, Cell(t)) && !Own(t, Cell(t) + 1);
    }

    lemma KeptMeans(mem: seq<u32>, current: nat, saved: seq<Context>)
      requires Kept(mem, current, saved)
      ensures Fits(|mem|) && |saved| == MAX_TASKS && current < MAX_TASKS && Ready(mem)[current] && Ready(mem)[0]
    {
      assert TaskKept(mem, current, saved, current) && TaskKept(mem, current, saved, 0);
    }

    /** Before a switch: the incoming frame, the cell of the outgoing task and its
        stack are apart. */
    lemma FrameReady(mem: seq<u32>, prev: nat, next: nat, saved: seq<Context>)
      requires Kept(mem, prev, saved) && next < MAX_TASKS && next != prev && Ready(mem)[next]
      ensures Cell(prev) < |mem| < 0x4000_0000 && Outside(Cell(prev), StackLo(prev), StackHi(prev)) && StackHi(prev) <= |mem|
      ensures Cell(next) < |mem|
      ensures var sp := mem[Cell(next)];
        && StackLo(next) <= sp && sp + FRAME_WORDS <= StackHi(next) <= |mem|
        && FrameAt(mem, sp) == saved[next] && saved[next].esp == sp + FRAME_WORDS
        && (sp + FRAME_WORDS <= StackLo(prev) || StackHi(prev) <= sp)
        && Outside(Cell(prev), sp, sp + FRAME_WORDS)
    {
      Apart(|mem|, prev, next);
      Apart(|mem|, prev, prev);
      Apart(|mem|, next, prev);
      Apart(|mem|, next, next);
      assert TaskKept(mem, prev, saved, next);
    }

    /** A switch from `prev` to `next`: the outgoing task has its frame where its
        cell says, everything else is as before. */
    lemma SwitchKeeps(mem: seq<u32>, mem': seq<u32>, prev: nat, next: nat, saved: seq<Context>, sp: nat, c: Context)
      requires Kept(mem, prev, saved) && |mem'| == |mem| && next < MAX_TASKS && next != prev && Ready(mem)[next]
      requires StackLo(prev) <= sp && sp + FRAME_WORDS <= StackHi(prev)
      requires forall a {:trigger mem'[a]} :: 0 <= a < |mem| && Outside(a, StackLo(prev), StackHi(prev)) && a != Cell(prev) ==>
        mem'[a] == mem[a]
      requires mem'[Cell(prev)] == sp && FrameAt(mem', sp) == c
      ensures Kept(mem', next, saved[prev := c]) && Ready(mem') == Ready(mem)
    {
      hide Cell, StackLo, StackHi, Kept, FrameAt, Fits, TaskKept, Elsewhere;
      KeptMeans(mem, prev, saved);
      SwitchedOut(mem, mem', prev, next, saved, sp, c);
      StepKeeps(mem, mem', prev, prev, saved, next, saved[prev := c]);
    }

    lemma SwitchedOut(mem: seq<u32>, mem': seq<u32>, prev: nat, next: nat, saved: seq<Context>, sp: nat, c: Context)
      requires Fits(|mem|) && |saved| == MAX_TASKS && prev < MAX_TASKS && Ready(mem)[prev] && |mem'| == |mem| && next != prev
      requires StackLo(prev) <= sp && sp + FRAME_WORDS <= StackHi(prev)
      requires forall a {:trigger mem'[a]} :: 0 <= a < |mem| && Outside(a, StackLo(prev), StackHi(prev)) && a != Cell(prev) ==>
        mem'[a] == mem[a]
      requires mem'[Cell(prev)] == sp && FrameAt(mem', sp) == c
      ensures Elsewhere(mem, mem', prev) && TaskKept(mem', next, saved[prev := c], prev) && Ready(mem')[prev]
    {
      hide FrameAt;
      Apart(|mem|, prev, prev);
      assert mem'[Cell(prev) + 1] == mem[Cell(prev) + 1];
    }

    /** The cell of a free task may be written: nobody's frame depends on it. */
    lemma PointerKeeps(mem: seq<u32>, mem': seq<u32>, current: nat, saved: seq<Context>, slot: nat, sp: nat, c: Context)
      requires Kept(mem, current, saved) && |mem'| == |mem| && slot < MAX_TASKS && !Ready(mem)[slot]
      requires StackLo(slot) <= sp && sp + FRAME_WORDS <= StackHi(slot) && FrameAt(mem, sp) == c
      requires forall a {:trigger mem'[a]} :: 0 <= a < |mem| && a != Cell(slot) ==> mem'[a] == mem[a]
      requires mem'[Cell(slot)] == sp
      ensures Kept(mem', current, saved) && Ready(mem') == Ready(mem) && FrameKept(mem', slot, c)
    {
      hide Cell, StackLo, StackHi, Kept, FrameAt, FrameKept, Fits, TaskKept, Elsewhere;
      KeptMeans(mem, current, saved);
      Pointed(mem, mem', current, saved, slot, sp, c);
      StepKeeps(mem, mem', slot, current, saved, current, saved);
    }

    lemma Pointed(mem: seq<u32>, mem': seq<u32>, current: nat, saved: seq<Context>, slot: nat, sp: nat, c: Context)
      requires Kept(mem, current, saved) && |mem'| == |mem| && slot < MAX_TASKS && !Ready(mem)[slot]
      requires StackLo(slot) <= sp && sp + FRAME_WORDS <= StackHi(slot) && FrameAt(mem, sp) == c
      requires forall a {:trigger mem'[a]} :: 0 <= a < |mem| && a != Cell(slot) ==> mem'[a] == mem[a]
      requires mem'[Cell(slot)] == sp
      ensures Elsewhere(mem, mem', slot) && TaskKept(mem', current, saved, slot) && !Ready(mem')[slot]
      ensures FrameKept(mem', slot, c)
    {
      Apart(|mem|, slot, slot);
      assert TaskKept(mem, current, saved, slot);
      assert mem'[Cell(slot) + 1] == mem[Cell(slot) + 1];
    }

    /** A task whose cell points at a complete frame may become ready. */
    lemma ReadyKeeps(mem: seq<u32>, mem': seq<u32>, current: nat, saved: seq<Context>, slot: nat, c: Context)
      requires Kept(mem, current, saved) && |mem'| == |mem| && slot < MAX_TASKS && !Ready(mem)[slot]
      requires FrameKept(mem, slot, c)
      requires forall a {:trigger mem'[a]} :: 0 <= a < |mem| && a != Cell(slot) + 1 ==> mem'[a] == mem[a]
      requires mem'[Cell(slot) + 1] == 1
      ensures Kept(mem', current, saved[slot := c]) && Ready(mem') == Ready(mem)[slot := true]
    {
      hide Cell, StackLo, StackHi, Kept, FrameAt, FrameKept, Fits, TaskKept, Elsewhere;
      KeptMeans(mem, current, saved);
      MadeReady(mem, mem', current, saved, slot, c);
      StepKeeps(mem, mem', slot, current, saved, current, saved[slot := c]);
    }

    lemma MadeReady(mem: seq<u32>, mem': seq<u32>, current: nat, saved: seq<Context>, slot: nat, c: Context)
      requires Fits(|mem|) && |saved| == MAX_TASKS && |mem'| == |mem| && slot < MAX_TASKS
      requires FrameKept(mem, slot, c)
      requires forall a {:trigger mem'[a]} :: 0 <= a < |mem| && a != Cell(slot) + 1 ==> mem'[a] == mem[a]
      requires mem'[Cell(slot) + 1] == 1
      ensures Elsewhere(mem, mem', slot) && TaskKept(mem', current, saved[slot := c], slot) && Ready(mem')[slot]
    {
      Apart(|mem|, slot, slot);
    }

    /** What has been stored of a task in the making lies in its stack and its cell. */
    ghost predicate DraftKept(mem: seq<u32>, d: Draft) {
      && Fits(|mem|)
      && (d.Draft? ==>
            && DraftSound(Ready(mem), d) && 0 < d.slot && d.top == StackHi(d.slot)
            && (forall j :: 0 <= j < FRAME_WORDS && j < d.stores ==> Below(mem, d.top, j) == FrameWord(d.entry, j))
            && (d.stores == DRAFT_STORES ==> mem[Cell(d.slot)] == d.top - FRAME_WORDS))
    }

    lemma DraftApart(mem: seq<u32>, t: nat, d: Draft)
      requires DraftKept(mem, d) && t < MAX_TASKS && Ready(mem)[t]
      ensures d.Draft? ==> t != d.slot
    {
    }

    lemma FarFrom(words: nat, t: nat, slot: nat, a: nat)
      requires Fits(words) && t < MAX_TASKS && slot < MAX_TASKS && t != slot
      requires StackLo(slot) <= a < StackHi(slot) || a == Cell(slot)
      ensures !Near(t, a) && a < words
    {
      Apart(words, t, slot);
      Apart(words, slot, slot);
    }

    /** A half-forged frame survives whatever happens near another task. */
    lemma DraftStays(mem: seq<u32>, mem': seq<u32>, t: nat, d: Draft)
      requires DraftKept(mem, d) && Elsewhere(mem, mem', t) && t < MAX_TASKS && Ready(mem') == Ready(mem)
      requires d.Draft? ==> t != d.slot
      ensures DraftKept(mem', d)
    {
      hide Ready, Fits, Near, Cell, StackLo, StackHi, DraftSound, FrameWord;
      if d.Draft? {
        DraftInPlace(mem, d);
        forall j | 0 <= j < FRAME_WORDS
          ensures Below(mem', d.top, j) == Below(mem, d.top, j)
        {
          FarFrom(|mem|, t, d.slot, d.top - 1 - j);
        }
        FarFrom(|mem|, t, d.slot, Cell(d.slot));
      }
    }

    lemma DraftInPlace(mem: seq<u32>, d: Draft)
      requires DraftKept(mem, d) && d.Draft?
      ensures d.slot < MAX_TASKS && d.top == StackHi(d.slot) == StackLo(d.slot) + STACK_WORDS && d.top <= |mem|
    {
      StackRoom(|mem|, d.slot);
    }
  }

  /** Address `a` is not one of `lo..hi`. */
  predicate Outside(a: nat, lo: int, hi: int) { a < lo || hi <= a }

  // ---- the machine ---------------------------------------------------------------

  class Machine {
    var mem: array<u32>
    const lay: Layout
    var ebx: u32
    var esi: u32
    var edi: u32
    var ebp: u32
    var eflags: u32
    var esp: nat
    var eip: u32
    var current: nat

    /** What the frames on the other stacks stand for. */
    ghost var saved: seq<Context>

    /** The task in the making. */
    ghost var draft: Draft

    function Cpu(): Context
      reads this
    {
      Context(ebx, esi, edi, ebp, eflags, esp, eip)
    }

    ghost predicate Valid()
      reads this, mem
    {
      && lay.Kept(mem[..], current, saved) && lay.StackLo(current) <= esp <= lay.StackHi(current)
      && lay.DraftKept(mem[..], draft)
    }

    ghost function View(): (s: System)
      reads this, mem
      requires Valid()
      ensures Sound(s)
    {
      lay.KeptMeans(mem[..], current, saved);
      System(lay.Ready(mem[..]), current, Cpu(), saved, draft)
    }

    /** task_init, on zeroed memory: the boot flow becomes task 0 and runs on the
        stack it already has; all other tasks are free. */
    constructor (lay: Layout, words: nat, cpu: Context)
      requires lay.Fits(words) && lay.StackLo(0) <= cpu.esp <= lay.StackHi(0)
      ensures Valid() && fresh(mem)
      ensures View().current == 0 && View().cpu == cpu && View().draft == NoDraft
      ensures forall i :: 0 <= i < MAX_TASKS ==> View().ready[i] == (i == 0)
    {
      this.lay := lay;
      mem := new u32[words](i => 0);
      ebx, esi, edi, ebp, eflags, esp, eip := cpu.ebx, cpu.esi, cpu.edi, cpu.ebp, cpu.eflags, cpu.esp, cpu.eip;
      current := 0;
      saved := seq(MAX_TASKS, i => cpu);
      draft := NoDraft;
      new;
      mem[lay.Cell(0) + 1] := 1;
    }

    method Push(w: u32)
      requires 0 < esp <= mem.Length
      modifies this`esp, mem
      ensures esp == old(esp) - 1 && mem[esp] == w
      ensures forall a :: 0 <= a < mem.Length && a != esp ==> mem[a] == old(mem[a])
    {
      esp := esp - 1;
      mem[esp] := w;
    }

    method Pop() returns (w: u32)
      requires esp < mem.Length
      modifies this`esp
      ensures esp == old(esp) + 1 && w == mem[old(esp)]
    {
      w := mem[esp];
      esp := esp + 1;
    }

    /** The running task does what it likes with the memory it may write. */
    method Scribble(writes: map<nat, u32>)
      requires Valid()
      requires forall a :: a in writes ==> a < mem.Length && lay.Own(current, a)
      modifies mem
      ensures lay.Kept(mem[..], current, saved) && lay.Ready(mem[..]) == old(lay.Ready(mem[..]))
      ensures lay.DraftKept(mem[..], draft)
    {
      hide Layout.FrameKept, Layout.Own, Layout.Kept, Layout.DraftKept, Layout.Elsewhere;
      lay.KeptMeans(mem[..], current, saved);
      forall a | 0 <= a < mem.Length && a in writes {
        mem[a] := writes[a];
      }
      lay.OwnWritesNear(old(mem[..]), mem[..], current, current, saved);
      lay.OwnWritesKeep(old(mem[..]), mem[..], current, current, saved);
      lay.DraftApart(old(mem[..]), current, draft);
      lay.DraftStays(old(mem[..]), mem[..], current, draft);
    }

    /** And with its registers. */
    method Compute(cpu: Context, writes: map<nat, u32>)
      requires Valid()
      requires lay.StackLo(current) <= cpu.esp <= lay.StackHi(current)
      requires forall a :: a in writes ==> a < mem.Length && lay.Own(current, a)
      modifies this, mem
      ensures Valid()
      ensures View() == After(old(View()), Computed(cpu))
    {
      hide Layout.FrameKept, Layout.Own;
      Scribble(writes);
      ebx, esi, edi, ebp, eflags, esp, eip := cpu.ebx, cpu.esi, cpu.edi, cpu.ebp, cpu.eflags, cpu.esp, cpu.eip;
    }

    /** The five pushes that put the context on the stack. */
    method SaveRegisters()
      requires 5 <= esp <= mem.Length
      modifies this`esp, mem
      ensures esp == old(esp) - 5
      ensures mem[esp] == edi && mem[esp + 1] == esi && mem[esp + 2] == ebx && mem[esp + 3] == ebp
      ensures mem[esp + 4] == eflags
      ensures forall a :: 0 <= a < mem.Length && Outside(a, esp, old(esp)) ==> mem[a] == old(mem[a])
    {
      Push(eflags);
      Push(ebp);
      Push(ebx);
      Push(esi);
      Push(edi);
    }

    /** The five pops and the ret that take a context off the stack. */
    method LoadRegisters()
      requires esp + FRAME_WORDS <= mem.Length
      modifies this`ebx, this`esi, this`edi, this`ebp, this`eflags, this`esp, this`eip
      ensures Cpu() == FrameAt(mem[..], old(esp))
    {
      edi := Pop();
      esi := Pop();
      ebx := Pop();
      ebp := Pop();
      eflags := Pop();
      eip := Pop();
    }

    /** The switch, instruction by instruction. On entry the stack holds the return
        address, the address of the word that keeps the outgoing stack pointer,
        and the incoming stack pointer. The outgoing context ends up as a frame on
        its own stack, the incoming frame in the registers. */
    method TaskSwitch()
      requires 5 <= esp && esp + 3 <= mem.Length < 0x4000_0000
      requires Outside(mem[esp + 1], esp - 5, esp + 3) && mem[esp + 1] < mem.Length
      requires mem[esp + 2] + FRAME_WORDS <= mem.Length
      requires mem[esp + 2] + FRAME_WORDS <= esp - 5 || esp + 3 <= mem[esp + 2]
      requires Outside(mem[esp + 1], mem[esp + 2], mem[esp + 2] + FRAME_WORDS)
      modifies this`ebx, this`esi, this`edi, this`ebp, this`eflags, this`esp, this`eip, mem
      ensures FrameAt(mem[..], old(esp) - 5)
           == Context(old(ebx), old(esi), old(edi), old(ebp), old(eflags), old(esp) + 1, old(mem[esp]))
      ensures mem[old(mem[esp + 1])] == old(esp) - 5
      ensures forall a :: 0 <= a < mem.Length && Outside(a, old(esp) - 5, old(esp)) && a != old(mem[esp + 1]) ==>
        mem[a] == old(mem[a])
      ensures Cpu() == FrameAt(old(mem[..]), old(mem[esp + 2]))
      ensures old(esp) - 5 != old(mem[esp + 1]) && mem[old(esp) - 5] == old(edi) && mem[old(esp) - 4] == old(esi)
      ensures mem[old(esp) - 3] == old(ebx) && mem[old(esp) - 2] == old(ebp) && mem[old(esp) - 1] == old(eflags)
      ensures var sp := old(mem[esp + 2]);
        && edi == old(mem[sp]) && esi == old(mem[sp + 1]) && ebx == old(mem[sp + 2]) && ebp == old(mem[sp + 3])
        && eflags == old(mem[sp + 4]) && eip == old(mem[sp + 5]) && esp == sp + 6
    {
      SaveRegisters();
      var eax := mem[esp + 6];
      mem[eax] := esp;
      esp := mem[esp + 7];
      LoadRegisters();
    }

    /** The call of the switch: its two arguments and the return address. */
    method CallSwitch(cell: nat, newEsp: nat, ret: u32)
      requires 8 <= esp <= mem.Length < 0x4000_0000 && cell < mem.Length && newEsp + FRAME_WORDS <= mem.Length
      requires Outside(cell, esp - 8, esp) && Outside(cell, newEsp, newEsp + FRAME_WORDS)
      requires newEsp + FRAME_WORDS <= esp - 8 || esp <= newEsp
      modifies this`ebx, this`esi, this`edi, this`ebp, this`eflags, this`esp, this`eip, mem
      ensures FrameAt(mem[..], old(esp) - 8) == AtCall(old(Cpu()), ret)
      ensures mem[cell] == old(esp) - 8
      ensures forall a :: 0 <= a < mem.Length && Outside(a, old(esp) - 8, old(esp)) && a != cell ==> mem[a] == old(mem[a])
      ensures Cpu() == FrameAt(old(mem[..]), newEsp)
    {
      Push(newEsp);
      Push(cell);
      Push(ret);
      TaskSwitch();
    }

    /** The running task gives way to `next`, which goes on from its frame. */
    method SwitchTo(next: nat, ret: u32)
      requires Valid() && lay.StackLo(current) + 8 <= esp
      requires next < MAX_TASKS && next != current && lay.Ready(mem[..])[next]
      modifies this`ebx, this`esi, this`edi, this`ebp, this`eflags, this`esp, this`eip, this`current, this`saved, mem
      ensures Valid() && current == next && lay.Ready(mem[..]) == old(lay.Ready(mem[..]))
      ensures saved == old(saved[current := AtCall(Cpu(), ret)])
      ensures Cpu() == old(saved[next])
    {
      hide FrameAt, Layout.Fits, Layout.Kept, Layout.Ready, Layout.Cell, Layout.StackLo, Layout.StackHi, Layout.DraftKept;
      hide Layout.Elsewhere;
      var prev := current;
      lay.KeptMeans(mem[..], current, saved);
      lay.FrameReady(mem[..], prev, next, saved);
      current := next;
      CallSwitch(lay.Cell(prev), mem[lay.Cell(next)], ret);
      ghost var c := AtCall(old(Cpu()), ret);
      lay.SwitchKeeps(old(mem[..]), mem[..], prev, next, saved, old(esp) - 8, c);
      lay.SwitchedOut(old(mem[..]), mem[..], prev, next, saved, old(esp) - 8, c);
      lay.DraftApart(old(mem[..]), prev, draft);
      lay.DraftStays(old(mem[..]), mem[..], prev, draft);
      saved := saved[prev := c];
    }

    /** Hands the processor to the next ready task, or returns if there is none. The
        caller goes on at `ret` when somebody switches back to it. */
    method Schedule(ret: u32)
      requires Valid() && lay.StackLo(current) + 8 <= esp
      modifies this`ebx, this`esi, this`edi, this`ebp, this`eflags, this`esp, this`eip, this`current, this`saved, mem
      ensures Valid()
      ensures View() == After(old(View()), Switched(ret))
    {
      var next := TaskNext(lay.Ready(mem[..]), current);
      if next >= 0 {
        SwitchTo(next, ret);
      }
    }

    /** The first task whose state is 0, or -1. */
    method FindFree() returns (slot: int)
      requires Valid()
      ensures slot == if FirstFree(lay.Ready(mem[..])) == MAX_TASKS then -1 else FirstFree(lay.Ready(mem[..]))
    {
      ghost var ready := lay.Ready(mem[..]);
      var i := 0;
      while i < MAX_TASKS
        invariant 0 <= i <= MAX_TASKS && forall j :: 0 <= j < i ==> ready[j]
      {
        assert lay.TaskKept(mem[..], current, saved, i);
        if mem[lay.Cell(i) + 1] == 0 {
          return i;
        }
        i := i + 1;
      }
      return -1;
    }

    /** A slot is chosen for a new task; nothing is stored yet. */
    method ChooseSlot(entry: u32) returns (slot: int)
      requires Valid() && draft == NoDraft
      modifies this`draft
      ensures Valid()
      ensures View() == After(old(View()), Begun(entry, lay.StackHi(FirstFree(old(View()).ready))))
      ensures slot >= 0 ==> lay.StackHi(slot) >= STACK_WORDS
      ensures slot >= 0 ==>
        draft == Draft(current, slot, entry, lay.StackHi(slot), 0) && View() == old(View()).(draft := draft)
      ensures slot == if FirstFree(old(View()).ready) == MAX_TASKS then -1 else FirstFree(old(View()).ready)
    {
      slot := FindFree();
      lay.KeptMeans(mem[..], current, saved);
      if slot >= 0 {
        draft := Draft(current, slot, entry, lay.StackHi(slot), 0);
      }
    }

    /** `*--sp = w`: the next word of the frame, from the top down. */
    method StoreFrameWord(sp: nat, w: u32)
      requires Valid() && draft.Draft? && draft.maker == current && draft.stores < FRAME_WORDS
      requires sp == draft.top - 1 - draft.stores && w == FrameWord(draft.entry, draft.stores)
      modifies mem, this`draft
      ensures Valid() && View() == After(old(View()), Stored)
      ensures View() == old(View()).(draft := draft) && draft == old(draft.(stores := draft.stores + 1))
    {
      hide Layout.Kept, Layout.FrameKept, Layout.TaskKept;
      lay.KeptMeans(mem[..], current, saved);
      lay.StackRoom(mem.Length, draft.slot);
      lay.Apart(mem.Length, draft.slot, draft.slot);
      mem[sp] := w;
      lay.OwnWritesKeep(old(mem[..]), mem[..], draft.slot, current, saved);
      draft := draft.(stores := draft.stores + 1);
    }

    /** The stack pointer of the new task is stored when its frame is complete. The task
        is still free. */
    method StorePointer(slot: nat, sp: nat)
      requires Valid() && draft.Draft? && draft.maker == current && draft.stores == FRAME_WORDS
      requires slot == draft.slot && sp == draft.top - FRAME_WORDS
      modifies mem, this`draft
      ensures Valid() && View() == After(old(View()), Stored)
      ensures View() == old(View()).(draft := draft) && draft == old(draft.(stores := draft.stores + 1))
    {
      hide Layout.Kept, Layout.FrameKept, Layout.TaskKept, FrameAt, Newborn;
      ghost var d := draft;
      lay.KeptMeans(mem[..], current, saved);
      lay.StackRoom(mem.Length, d.slot);
      lay.Apart(mem.Length, d.slot, d.slot);
      Forged(mem[..], d.top, d.entry);
      mem[lay.Cell(slot)] := sp;
      lay.PointerKeeps(old(mem[..]), mem[..], current, saved, d.slot, sp, Newborn(d.entry, d.top));
      draft := d.(stores := DRAFT_STORES);
    }

    /** The state of the new task is stored when its cell points at the complete frame. */
    method SetReady(slot: nat)
      requires Valid() && draft.Draft? && draft.maker == current && draft.stores == DRAFT_STORES && slot == draft.slot
      modifies mem, this`saved, this`draft
      ensures Valid() && View() == After(old(View()), Stored)
      ensures View() == Born(old(View()).(draft := NoDraft), old(draft).entry, old(draft).top)
    {
      hide Layout.Kept, Layout.TaskKept, FrameAt, Newborn;
      ghost var d := draft;
      lay.KeptMeans(mem[..], current, saved);
      lay.StackRoom(mem.Length, d.slot);
      lay.Apart(mem.Length, d.slot, d.slot);
      Forged(mem[..], d.top, d.entry);
      mem[lay.Cell(slot) + 1] := 1;
      lay.ReadyKeeps(old(mem[..]), mem[..], current, saved, d.slot, Newborn(d.entry, d.top));
      saved, draft := saved[d.slot := Newborn(d.entry, d.top)], NoDraft;
    }

    lemma NoDraftSeen()
      requires Valid() && draft == NoDraft
      ensures View().draft == NoDraft && |View().ready| == |View().saved| == MAX_TASKS
      ensures forall entry, top :: FirstFree(View().ready) == MAX_TASKS ==>
        After(View(), Begun(entry, top)) == View() == Born(View(), entry, top)
    {
    }

    /** Gives a new task a past: a frame at the top of its stack, as if it had been
        switched out just before `entry`; then its stack pointer, then its state. Each
        store is one event, between which others may run; undisturbed they are a birth. */
    method TaskCreate(entry: u32) returns (slot: int)
      requires Valid() && draft == NoDraft
      modifies mem, this`saved, this`draft
      ensures Valid()
      ensures View() == Born(old(View()), entry, lay.StackHi(FirstFree(old(View()).ready)))
      ensures slot == if FirstFree(old(View()).ready) == MAX_TASKS then -1 else FirstFree(old(View()).ready)
    {
      hide Machine.Valid, Machine.View, Born, After, Sound;
      NoDraftSeen();
      slot := ChooseSlot(entry);
      if slot >= 0 {
        var sp := lay.StackHi(slot);
        sp := sp - 1;
        StoreFrameWord(sp, entry);
        sp := sp - 1;
        StoreFrameWord(sp, INITIAL_EFLAGS);
        sp := sp - 1;
        StoreFrameWord(sp, 0);
        sp := sp - 1;
        StoreFrameWord(sp, 0);
        sp := sp - 1;
        StoreFrameWord(sp, 0);
        sp := sp - 1;
        StoreFrameWord(sp, 0);
        StorePointer(slot, sp);
        SetReady(slot);
      }
    }
  }
}
