/** Open files: one system-wide table of files, and for each task a row of small
    numbers that point into it. Tasks may be preempted between the two halves of an
    open. */
module VfsFiles {
  import opened Bytes
  import opened Kernel

  const MAX_OPEN_FILES: nat := 32
  const TASK_FDS: nat := 8

  const ALL_FDS: nat := 64
  const PLACES: nat := 72

  const O_RDONLY: int := 0
  const O_WRONLY: int := 1
  const O_CREAT: int := 64

  const SEEK_SET: int := 0
  const SEEK_CUR: int := 1
  const SEEK_END: int := 2

  type i32 = x: int | -0x8000_0000 <= x < 0x8000_0000

  /** An open file with inode 0 is a free slot. */
  datatype File = File(inode: int, off: u32, flags: int)

  /** `rows[t][fd]` is the slot of descriptor `fd` of task `t`, or -1. */
  datatype Tables = Tables(files: seq<File>, rows: seq<seq<int>>) {
    predicate Shaped() {
      |files| == MAX_OPEN_FILES && |rows| == MAX_TASKS && forall t :: 0 <= t < MAX_TASKS ==> |rows[t]| == TASK_FDS
    }

    /** Descriptor `fd` of task `t` is open. */
    predicate Live(t: nat, fd: int)
      requires Shaped()
    {
      t < MAX_TASKS && 0 <= fd < TASK_FDS && rows[t][fd] != -1
    }
  }

  // ---- single steps, as functions ----------------------------------------------------

  function FreeSlot(files: seq<File>): (i: nat)
    ensures i <= |files| && (i < |files| ==> files[i].inode == 0) && forall k :: 0 <= k < i ==> files[k].inode != 0
  {
    if files == [] || files[0].inode == 0 then 0 else 1 + FreeSlot(files[1..])
  }

  function FreeFd(row: seq<int>): (i: nat)
    ensures i <= |row| && (i < |row| ==> row[i] == -1) && forall k :: 0 <= k < i ==> row[k] != -1
  {
    if row == [] || row[0] == -1 then 0 else 1 + FreeFd(row[1..])
  }

  /** First half of an open: the first free slot is taken, at position 0. */
  function Taken(s: Tables, ino: Inode, flags: int): Tables
    requires s.Shaped()
  {
    var i := FreeSlot(s.files);
    if i == MAX_OPEN_FILES then s else s.(files := s.files[i := File(ino, 0, flags)])
  }

  /** Second half: the lowest free number of the task, or the slot is given back. */
  function Given(s: Tables, t: nat, slot: nat): Tables
    requires s.Shaped() && t < MAX_TASKS && slot < MAX_OPEN_FILES
  {
    var i := FreeFd(s.rows[t]);
    if i == TASK_FDS then s.(files := s.files[slot := s.files[slot].(inode := 0)])
    else s.(rows := s.rows[t := s.rows[t][i := slot]])
  }

  /** A close clears the number; the slot stays taken. The rows lie one behind the other
      in memory, and a number of 8 or more reaches into those of the tasks behind. */
  function Closed(s: Tables, t: nat, fd: nat): Tables
    requires s.Shaped() && t * TASK_FDS + fd < ALL_FDS
  {
    var u, k := (t * TASK_FDS + fd) / TASK_FDS, (t * TASK_FDS + fd) % TASK_FDS;
    s.(rows := s.rows[u := s.rows[u][k := -1]])
  }

  /** A read, a write or a seek through a live descriptor leaves the position at
      `off`. */
  function Moved(s: Tables, t: nat, fd: nat, off: u32): Tables
    requires s.Shaped() && s.Live(t, fd) && 0 <= s.rows[t][fd] < MAX_OPEN_FILES
  {
    var slot := s.rows[t][fd];
    s.(files := s.files[slot := s.files[slot].(off := off)])
  }

  /** A close empties one entry, 8 to a task, and nothing else. */
  lemma ClosedMeans(s: Tables, t: nat, fd: nat, p: nat)
    requires s.Shaped() && t * 8 + fd < 64 && p < 64
    ensures var s' := Closed(s, t, fd);
      s'.Shaped() && s'.files == s.files && s'.rows[p / 8][p % 8] == if p == t * 8 + fd then -1 else s.rows[p / 8][p % 8]
  {
  }

  /** A move sets the position of one file, and nothing else. */
  lemma MovedMeans(s: Tables, t: nat, fd: nat, off: u32, i: nat)
    requires s.Shaped() && s.Live(t, fd) && 0 <= s.rows[t][fd] < 32 && i < 32
    ensures var s' := Moved(s, t, fd, off);
      && s'.rows == s.rows && |s'.files| == 32
      && s'.files[i].inode == s.files[i].inode && s'.files[i].flags == s.files[i].flags
      && s'.files[i].off == if i == s.rows[t][fd] then off else s.files[i].off
  {
  }

  // ---- all interleavings -------------------------------------------------------------

  /** The tables, and the slot each task holds between the halves of an open, or -1. */
  datatype Sys = Sys(tab: Tables, held: seq<int>)

  datatype Event =
    | Begin(t: nat, ino: Inode, flags: int)
    | Finish(t: nat)
    | Close(t: nat, fd: nat)
    | Move(t: nat, fd: nat, off: u32)

  predicate Enabled(s: Sys, e: Event) {
    && s.tab.Shaped() && |s.held| == MAX_TASKS && e.t < MAX_TASKS
    && match e
       case Begin(t, _, _) => s.held[t] == -1
       case Finish(t) => 0 <= s.held[t] < MAX_OPEN_FILES
       case Close(t, fd) => s.held[t] == -1 && t * TASK_FDS + fd < ALL_FDS
       case Move(t, fd, _) => s.held[t] == -1 && s.tab.Live(t, fd) && 0 <= s.tab.rows[t][fd] < MAX_OPEN_FILES
  }

  function After(s: Sys, e: Event): Sys
    requires Enabled(s, e)
  {
    match e
    case Begin(t, ino, flags) =>
      var i := FreeSlot(s.tab.files);
      Sys(Taken(s.tab, ino, flags), if i == MAX_OPEN_FILES then s.held else s.held[t := i])
    case Finish(t) => Sys(Given(s.tab, t, s.held[t]), s.held[t := -1])
    case Close(t, fd) => Sys(Closed(s.tab, t, fd), s.held)
    case Move(t, fd, off) => Sys(Moved(s.tab, t, fd, off), s.held)
  }

  /** The slot behind place `p`: the first 64 places are the descriptors, task by
      task, the last 8 what the tasks hold. */
  function Slot(s: Sys, p: nat): int
    requires s.tab.Shaped() && |s.held| == MAX_TASKS && p < PLACES
  {
    if p < ALL_FDS then s.tab.rows[p / TASK_FDS][p % TASK_FDS] else s.held[p - ALL_FDS]
  }

  /** Every place is empty or names an occupied slot of its own. */
  ghost predicate Inv(s: Sys) {
    && s.tab.Shaped() && |s.held| == MAX_TASKS
    && (forall p :: 0 <= p < PLACES && Slot(s, p) != -1 ==>
          0 <= Slot(s, p) < MAX_OPEN_FILES && s.tab.files[Slot(s, p)].inode != 0)
    && forall p, q :: 0 <= p < q < PLACES && Slot(s, p) != -1 ==> Slot(s, p) != Slot(s, q)
  }

  /** What a step leaves behind place `p`. */
  function SlotThen(s: Sys, e: Event, p: nat): int
    requires Enabled(s, e) && p < PLACES
  {
    match e
    case Begin(t, _, _) => if p == ALL_FDS + t && FreeSlot(s.tab.files) < MAX_OPEN_FILES then FreeSlot(s.tab.files) else Slot(s, p)
    case Finish(t) =>
      var fd := FreeFd(s.tab.rows[t]);
      if p == ALL_FDS + t then -1 else if fd < TASK_FDS && p == t * TASK_FDS + fd then s.held[t] else Slot(s, p)
    case Close(t, fd) => if p == t * TASK_FDS + fd then -1 else Slot(s, p)
    case Move(_, _, _) => Slot(s, p)
  }

  lemma SlotAfter(s: Sys, e: Event, p: nat)
    requires Enabled(s, e) && p < PLACES
    ensures After(s, e).tab.Shaped() && |After(s, e).held| == MAX_TASKS && Slot(After(s, e), p) == SlotThen(s, e, p)
  {
  }

  /** What every step of every interleaving keeps. */
  lemma StepKeepsInv(s: Sys, e: Event)
    requires Inv(s) && Enabled(s, e)
    ensures Inv(After(s, e))
  {
    var s' := After(s, e);
    SlotAfter(s, e, 0);
    assert Slot(s, ALL_FDS + e.t) == s.held[e.t];
    forall p | 0 <= p < PLACES
      ensures Slot(s', p) == SlotThen(s, e, p)
      ensures Slot(s', p) != -1 ==> 0 <= Slot(s', p) < MAX_OPEN_FILES && s'.tab.files[Slot(s', p)].inode != 0
    {
      SlotAfter(s, e, p);
    }
    forall p, q | 0 <= p < q < PLACES && Slot(s', p) != -1
      ensures Slot(s', p) != Slot(s', q)
    {
      assert Slot(s', p) == SlotThen(s, e, p) && Slot(s', q) == SlotThen(s, e, q);
    }
  }

  /** The places a step is about: the descriptor it moves or closes, the place an open
      keeps its slot in. All others are bystanders. */
  predicate Bystander(e: Event, p: nat)
    requires p < PLACES && e.t < MAX_TASKS
  {
    match e
    case Begin(t, _, _) => p != ALL_FDS + t
    case Finish(t) => p != ALL_FDS + t
    case Close(t, fd) => p != t * TASK_FDS + fd
    case Move(t, fd, _) => p != t * TASK_FDS + fd
  }

  /** No step, of the same task or of another, touches a bystander: its descriptor names
      the same slot, and the file there has the same inode, position and flags. A close
      leaves even the file behind the number it clears. */
  lemma StepIsPrivate(s: Sys, e: Event, p: nat)
    requires Inv(s) && Enabled(s, e) && p < PLACES && Slot(s, p) != -1
    ensures Inv(After(s, e))
    ensures Bystander(e, p) ==> Slot(After(s, e), p) == Slot(s, p)
    ensures Bystander(e, p) || e.Close? ==> After(s, e).tab.files[Slot(s, p)] == s.tab.files[Slot(s, p)]
  {
    StepKeepsInv(s, e);
    SlotAfter(s, e, p);
    assert Slot(s, ALL_FDS + e.t) == s.held[e.t];
    if e.Move? {
      assert Slot(s, e.t * TASK_FDS + e.fd) == s.tab.rows[e.t][e.fd];
    }
  }

  /** What a close leaves of the other tasks' descriptors: all of them, exactly if the
      number is below 8 or the place it reaches is empty. */
  lemma CloseStaysHome(s: Sys, t: nat, fd: nat)
    requires Inv(s) && Enabled(s, Close(t, fd))
    ensures (forall u :: 0 <= u < MAX_TASKS && u != t ==> After(s, Close(t, fd)).tab.rows[u] == s.tab.rows[u])
      <==> fd < TASK_FDS || Slot(s, t * TASK_FDS + fd) == -1
  {
    var p := t * TASK_FDS + fd;
    var u, k := p / TASK_FDS, p % TASK_FDS;
    var row, row' := s.tab.rows[u], After(s, Close(t, fd)).tab.rows[u];
    assert row'[k] == -1 && row[k] == Slot(s, p);
    if Slot(s, p) == -1 {
      assert row' == row;
    }
    assert u == t <==> fd < TASK_FDS;
  }

  ghost predicate Run(ss: seq<Sys>, evs: seq<Event>) {
    |ss| == |evs| + 1 && forall k :: 0 <= k < |evs| ==> Enabled(ss[k], evs[k]) && ss[k + 1] == After(ss[k], evs[k])
  }

  /** vfs_init. */
  function Start(): (s: Sys)
    ensures Inv(s)
  {
    var row := seq(TASK_FDS, fd => -1);
    Sys(Tables(seq(MAX_OPEN_FILES, i => File(0, 0, 0)), seq(MAX_TASKS, t => row)), seq(MAX_TASKS, t => -1))
  }

  lemma {:induction false} RunKeepsInv(ss: seq<Sys>, evs: seq<Event>)
    requires Run(ss, evs) && Inv(ss[0])
    ensures Inv(ss[|evs|])
    decreases |evs|
  {
    if |evs| > 0 {
      var n := |evs| - 1;
      RunKeepsInv(ss[..|evs|], evs[..n]);
      StepKeepsInv(ss[n], evs[n]);
    }
  }

  // ---- slots are never given back ------------------------------------------------------

  function Count(bs: seq<bool>): (n: nat)
    ensures n <= |bs|
  {
    if bs == [] then 0 else (if bs[0] then 1 else 0) + Count(bs[1..])
  }

  lemma {:induction false} CountUpdate(bs: seq<bool>, i: nat, b: bool)
    requires i < |bs|
    ensures Count(bs[i := b]) == Count(bs) - (if bs[i] then 1 else 0) + (if b then 1 else 0)
    decreases |bs|
  {
    if i == 0 {
      assert bs[i := b][1..] == bs[1..];
    } else {
      assert bs[i := b][1..] == bs[1..][i - 1 := b];
      CountUpdate(bs[1..], i - 1, b);
    }
  }

  function Used(s: Sys): seq<bool> { seq(|s.tab.files|, i requires 0 <= i < |s.tab.files| => s.tab.files[i].inode != 0) }

  function Pending(s: Sys): seq<bool> { seq(|s.held|, t requires 0 <= t < |s.held| => s.held[t] != -1) }

  /** Does this step complete an open? */
  predicate Succeeds(s: Sys, e: Event)
    requires Enabled(s, e)
  {
    e.Finish? && FreeFd(s.tab.rows[e.t]) < TASK_FDS
  }

  /** Occupied slots beyond those held grow by one with each open that succeeds, and by
      nothing else: closing gives nothing back. */
  lemma StepCounts(s: Sys, e: Event)
    requires Inv(s) && Enabled(s, e)
    ensures Count(Used(After(s, e))) - Count(Pending(After(s, e))) ==
      Count(Used(s)) - Count(Pending(s)) + (if Succeeds(s, e) then 1 else 0)
  {
    var s' := After(s, e);
    match e
    case Begin(t, ino, flags) =>
      var i := FreeSlot(s.tab.files);
      if i < MAX_OPEN_FILES {
        assert Used(s') == Used(s)[i := true] && Pending(s') == Pending(s)[t := true];
        CountUpdate(Used(s), i, true);
        CountUpdate(Pending(s), t, true);
      }
    case Finish(t) =>
      assert Slot(s, ALL_FDS + t) == s.held[t];
      assert Pending(s') == Pending(s)[t := false];
      CountUpdate(Pending(s), t, false);
      if FreeFd(s.tab.rows[t]) == TASK_FDS {
        assert Used(s') == Used(s)[s.held[t] := false];
        CountUpdate(Used(s), s.held[t], false);
      } else {
        assert Used(s') == Used(s);
      }
    case Close(t, fd) =>
      assert Used(s') == Used(s);
    case Move(t, fd, off) =>
      assert Used(s') == Used(s);
  }

  function Successes(ss: seq<Sys>, evs: seq<Event>): nat
    requires Run(ss, evs)
  {
    if evs == [] then 0
    else
      var n := |evs| - 1;
      Successes(ss[..|evs|], evs[..n]) + if Succeeds(ss[n], evs[n]) then 1 else 0
  }

  lemma {:induction false} RunCounts(ss: seq<Sys>, evs: seq<Event>)
    requires Run(ss, evs) && Inv(ss[0])
    ensures Count(Used(ss[|evs|])) - Count(Pending(ss[|evs|])) == Count(Used(ss[0])) - Count(Pending(ss[0])) + Successes(ss, evs)
    decreases |evs|
  {
    hide Inv, Enabled, After, Used, Pending, Count, Succeeds;
    if |evs| > 0 {
      var n := |evs| - 1;
      RunCounts(ss[..|evs|], evs[..n]);
      RunKeepsInv(ss[..|evs|], evs[..n]);
      StepCounts(ss[n], evs[n]);
    }
  }

  lemma {:induction false} NoneCounted(bs: seq<bool>)
    requires forall i :: 0 <= i < |bs| ==> !bs[i]
    ensures Count(bs) == 0
    decreases |bs|
  {
    if bs != [] {
      NoneCounted(bs[1..]);
    }
  }

  /** However many files are closed, at most 32 opens succeed after an initialisation. */
  lemma AtMost32Opens(ss: seq<Sys>, evs: seq<Event>)
    requires Run(ss, evs) && ss[0] == Start()
    ensures Successes(ss, evs) <= MAX_OPEN_FILES
  {
    RunCounts(ss, evs);
    RunKeepsInv(ss, evs);
    NoneCounted(Used(Start()));
    NoneCounted(Pending(Start()));
  }

  /** A whole open, if nobody comes between. */
  function Opened(s: Tables, t: nat, ino: Inode, flags: int): Tables
    requires s.Shaped() && t < MAX_TASKS
  {
    var i := FreeSlot(s.files);
    if i == MAX_OPEN_FILES then s else Given(Taken(s, ino, flags), t, i)
  }

  /** A failed open leaves every descriptor, every occupied slot and every free slot as
      it found them; one that succeeds adds one descriptor, the lowest number the task
      had free. */
  lemma OpenedMeans(s: Tables, t: nat, ino: Inode, flags: int)
    requires s.Shaped() && t < MAX_TASKS
    ensures var s', i, fd := Opened(s, t, ino, flags), FreeSlot(s.files), FreeFd(s.rows[t]);
      && s'.Shaped()
      && (forall k :: 0 <= k < MAX_OPEN_FILES && k != i ==> s'.files[k] == s.files[k])
      && if i == MAX_OPEN_FILES || fd == TASK_FDS then s'.rows == s.rows && (i < MAX_OPEN_FILES ==> s'.files[i].inode == 0)
         else
           && s'.files[i] == File(ino, 0, flags) && s'.rows[t][fd] == i && !s.Live(t, fd)
           && (forall k :: 0 <= k < fd ==> s.Live(t, k))
           && forall u, k :: 0 <= u < MAX_TASKS && 0 <= k < TASK_FDS && (u != t || k != fd) ==> s'.rows[u][k] == s.rows[u][k]
  {
  }

  /** No descriptor is open and nothing is in flight, and still the first `k` slots are
      occupied. */
  ghost predicate Stale(s: Sys, k: nat) {
    && s.tab.Shaped() && |s.held| == MAX_TASKS
    && (forall p :: 0 <= p < PLACES ==> Slot(s, p) == -1)
    && forall i :: 0 <= i < MAX_OPEN_FILES ==> (s.tab.files[i].inode != 0 <==> i < k)
  }

  lemma StaleFree(s: Sys, k: nat)
    requires Stale(s, k) && k <= MAX_OPEN_FILES
    ensures FreeSlot(s.tab.files) == k
  {
    var i, files := FreeSlot(s.tab.files), s.tab.files;
    assert k < MAX_OPEN_FILES ==> files[k].inode == 0;
    assert i < MAX_OPEN_FILES ==> files[i].inode == 0;
  }

  /** An open and the close of its descriptor leave one more slot occupied. */
  lemma OpenAndClose(s: Sys, k: nat, t: nat, ino: Inode, flags: int) returns (mid: Sys, open: Sys, done: Sys)
    requires Stale(s, k) && k < MAX_OPEN_FILES && t < MAX_TASKS
    ensures Enabled(s, Begin(t, ino, flags)) && mid == After(s, Begin(t, ino, flags))
    ensures Enabled(mid, Finish(t)) && Succeeds(mid, Finish(t)) && open == After(mid, Finish(t))
    ensures Enabled(open, Close(t, 0)) && done == After(open, Close(t, 0))
    ensures Stale(done, k + 1)
  {
    assert Slot(s, ALL_FDS + t) == s.held[t] == -1 && Slot(s, t * TASK_FDS) == s.tab.rows[t][0] == -1;
    StaleFree(s, k);
    mid := After(s, Begin(t, ino, flags));
    open := After(mid, Finish(t));
    done := After(open, Close(t, 0));
    forall p | 0 <= p < PLACES
      ensures Slot(done, p) == -1
    {
      SlotAfter(s, Begin(t, ino, flags), p);
      SlotAfter(mid, Finish(t), p);
      SlotAfter(open, Close(t, 0), p);
    }
  }

  lemma {:induction false} OpensAndCloses(k: nat, t: nat, ino: Inode, flags: int) returns (ss: seq<Sys>, evs: seq<Event>)
    requires k <= MAX_OPEN_FILES && t < MAX_TASKS
    ensures Run(ss, evs) && ss[0] == Start() && Successes(ss, evs) == k && Stale(ss[|evs|], k)
    decreases k
  {
    hide Stale, Enabled, After, Succeeds;
    if k == 0 {
      ss, evs := [Start()], [];
      StartIsStale();
    } else {
      var ss0, evs0 := OpensAndCloses(k - 1, t, ino, flags);
      var a, b, c := OpenAndClose(ss0[|evs0|], k - 1, t, ino, flags);
      OnlyFinishSucceeds(ss0[|evs0|], Begin(t, ino, flags));
      OnlyFinishSucceeds(b, Close(t, 0));
      ss, evs := OneMore(ss0, evs0, Begin(t, ino, flags));
      ss, evs := OneMore(ss, evs, Finish(t));
      ss, evs := OneMore(ss, evs, Close(t, 0));
    }
  }

  lemma StartIsStale()
    ensures Stale(Start(), 0)
  {
  }

  lemma OnlyFinishSucceeds(s: Sys, e: Event)
    requires Enabled(s, e) && !e.Finish?
    ensures !Succeeds(s, e)
  {
  }

  lemma OneMore(ss: seq<Sys>, evs: seq<Event>, e: Event) returns (ss': seq<Sys>, evs': seq<Event>)
    requires Run(ss, evs) && Enabled(ss[|evs|], e)
    ensures evs' == evs + [e] && ss' == ss + [After(ss[|evs|], e)] && Run(ss', evs')
    ensures Successes(ss', evs') == Successes(ss, evs) + if Succeeds(ss[|evs|], e) then 1 else 0
  {
    hide Enabled, After, Succeeds;
    ss', evs' := ss + [After(ss[|evs|], e)], evs + [e];
    assert ss'[..|evs'|] == ss && evs'[..|evs|] == evs;
  }

  /** The bound is reached: after 32 opens, each closed again, no descriptor is open and
      no open of any task succeeds any more. */
  lemma ThirtyTwoOpens(t: nat, ino: Inode, flags: int) returns (ss: seq<Sys>, evs: seq<Event>)
    requires t < MAX_TASKS
    ensures Run(ss, evs) && ss[0] == Start() && Successes(ss, evs) == MAX_OPEN_FILES
    ensures ss[|evs|].tab.Shaped() && forall u, fd :: 0 <= u < MAX_TASKS ==> !ss[|evs|].tab.Live(u, fd)
    ensures forall u, i, f :: 0 <= u < MAX_TASKS ==> Opened(ss[|evs|].tab, u, i, f) == ss[|evs|].tab
  {
    ss, evs := OpensAndCloses(MAX_OPEN_FILES, t, ino, flags);
    var s := ss[|evs|];
    forall u, fd | 0 <= u < MAX_TASKS && 0 <= fd < TASK_FDS
      ensures s.tab.rows[u][fd] == -1
    {
      assert Slot(s, u * TASK_FDS + fd) == s.tab.rows[u][fd];
    }
    StaleFree(s, MAX_OPEN_FILES);
  }

  // ---- access and position -----------------------------------------------------------

  /** The checks of vfs_read and vfs_write: the flags are compared whole. */
  predicate MayRead(flags: int) { flags != O_WRONLY }

  predicate MayWrite(flags: int) { flags != O_RDONLY }

  /** Reading is refused for 1, write-only, and writing for 0, read-only, and for no other
      flags. */
  lemma AccessInPlainNumbers(flags: int)
    ensures MayRead(flags) <==> flags != 1
    ensures MayWrite(flags) <==> flags != 0
  {
  }

  /** The access asked for: the low two bits of the flags. */
  function Mode(flags: int): int { flags % 4 }

  /** The checks keep the access mode exactly when no other bit can hide it: a
      write-only file is also protected from reading, and a read-only one from
      writing, exactly if the flags are the bare mode. */
  lemma AccessIsModeIff(flags: int)
    ensures (MayRead(flags) <==> Mode(flags) != O_WRONLY) <==> (Mode(flags) != O_WRONLY || flags == O_WRONLY)
    ensures (MayWrite(flags) <==> Mode(flags) != O_RDONLY) <==> (Mode(flags) != O_RDONLY || flags == O_RDONLY)
    ensures MayRead(O_WRONLY + O_CREAT) && MayWrite(O_RDONLY + O_CREAT)
  {
  }

  /** `(uint32_t)(off + d)`. */
  function Wrapped(off: int): u32 { off % 0x1_0000_0000 }

  /** vfs_lseek on an open file: the new position, and the answer. */
  function Sought(f: File, size: u32, off: i32, whence: int): (u32, int) {
    if whence == SEEK_SET then
      if off < 0 then (f.off, -1) else (off, off)
    else if whence == SEEK_CUR then
      if AsInt32(Wrapped(f.off + off)) < 0 then (f.off, -1)
      else (Wrapped(f.off + off), AsInt32(Wrapped(f.off + off)))
    else if whence == SEEK_END then (Wrapped(size + off), AsInt32(Wrapped(size + off)))
    else (f.off, -1)
  }

  /** An answer that is not negative is the position. A negative one means that nothing
      moved, except from the end of the file: there the position moves before the
      beginning, or past what an answer can hold. */
  lemma SoughtMeans(f: File, size: u32, off: i32, whence: int)
    ensures var (p, r) := Sought(f, size, off, whence);
      && (r >= 0 ==> p == r)
      && (r < 0 && p != f.off ==> whence == SEEK_END)
      && (whence == SEEK_SET ==> r == if off >= 0 then off else -1)
      && (whence == SEEK_CUR ==> (r >= 0 <==> 0 <= f.off + off < 0x8000_0000 || f.off + off >= 0x1_0000_0000))
      && (whence == SEEK_CUR && r >= 0 ==> r == f.off + off || r == f.off + off - 0x1_0000_0000)
      && (whence !in {SEEK_SET, SEEK_CUR, SEEK_END} ==> r == -1)
      && (whence == SEEK_CUR && r < 0 ==> p == f.off && r == -1)
      && (whence == SEEK_SET ==> p == if off >= 0 then off else f.off)
      && (whence == SEEK_END ==> p == (size + off) % 0x1_0000_0000 && r == if p < 0x8000_0000 then p else p - 0x1_0000_0000)
      && (whence == SEEK_END ==> (r < 0 <==> size + off < 0 || 0x8000_0000 <= size + off < 0x1_0000_0000))
      && (whence == SEEK_END ==> (p == size + off <==> 0 <= size + off < 0x1_0000_0000))
  {
  }

  // ---- the tables in memory -----------------------------------------------------------

  /** What the file behind a descriptor answers: its size, whether it is a directory,
      and what its operations report when asked at a position (None if it has none). */
  datatype Backing = Backing(size: u32, isDir: bool, read: Option<u32 -> int>, write: Option<u32 -> int>)

  class Descriptors {
    const files: array<File>
    const rows: array<seq<int>>

    function View(): Tables
      reads files, rows
    {
      Tables(files[..], rows[..])
    }

    ghost predicate Valid()
      reads files, rows
    {
      && View().Shaped()
      && forall t, fd :: 0 <= t < MAX_TASKS && 0 <= fd < TASK_FDS && rows[t][fd] != -1 ==>
           0 <= rows[t][fd] < MAX_OPEN_FILES && files[rows[t][fd]].inode != 0
    }

    constructor ()
      ensures Valid() && fresh(files) && fresh(rows) && View() == Start().tab
    {
      files := new File[MAX_OPEN_FILES](i => File(0, 0, 0));
      rows := new seq<int>[MAX_TASKS](t => seq(TASK_FDS, fd => -1));
      new;
      assert files[..] == Start().tab.files && rows[..] == Start().tab.rows;
    }

    /** file_alloc, with interrupts off. */
    method FileAlloc(ino: Inode, flags: int) returns (slot: int)
      requires Valid()
      modifies files
      ensures Valid() && View() == Taken(old(View()), ino, flags)
      ensures slot == if FreeSlot(old(View()).files) == MAX_OPEN_FILES then -1 else FreeSlot(old(View()).files)
    {
      ghost var was := View();
      for i := 0 to MAX_OPEN_FILES
        invariant View() == was && i <= FreeSlot(files[..])
      {
        if files[i].inode == 0 {
          files[i] := File(ino, 0, flags);
          return i;
        }
      }
      return -1;
    }

    /** fd_alloc in the row of task `t`. */
    method FdAlloc(t: nat, slot: nat) returns (fd: int)
      requires Valid() && t < MAX_TASKS && slot < MAX_OPEN_FILES && files[slot].inode != 0
      modifies rows
      ensures Valid()
      ensures fd == if FreeFd(old(rows[t])) == TASK_FDS then -1 else FreeFd(old(rows[t]))
      ensures rows[..] == if fd == -1 then old(rows[..]) else old(rows[..])[t := old(rows[t])[fd := slot]]
    {
      ghost var was := View();
      for i := 0 to TASK_FDS
        invariant View() == was && i <= FreeFd(rows[t])
      {
        if rows[t][i] == -1 {
          rows[t] := rows[t][i := slot];
          return i;
        }
      }
      return -1;
    }

    /** The table part of vfs_open by task `t`, for the inode the path led to. */
    method Open(t: nat, ino: Inode, flags: int) returns (fd: int)
      requires Valid() && t < MAX_TASKS
      modifies files, rows
      ensures Valid() && View() == Opened(old(View()), t, ino, flags)
      ensures fd == if FreeSlot(old(View()).files) == MAX_OPEN_FILES || FreeFd(old(rows[t])) == TASK_FDS
        then -1 else FreeFd(old(rows[t]))
    {
      var slot := FileAlloc(ino, flags);
      if slot < 0 {
        return -1;
      }
      fd := FdAlloc(t, slot);
      if fd < 0 {
        files[slot] := files[slot].(inode := 0);
        return -1;
      }
    }

    /** get_file_from_fd: the slot of a live descriptor, or -1. */
    method Get(t: int, fd: int) returns (slot: int)
      requires Valid()
      ensures slot == if 0 <= t < MAX_TASKS && View().Live(t, fd) then rows[t][fd] else -1
    {
      if fd < 0 || fd >= TASK_FDS {
        return -1;
      }
      if t < 0 || t >= MAX_TASKS {
        return -1;
      }
      return rows[t][fd];
    }

    /** vfs_close: it has no upper check on `fd`, and does not free the slot. What lies
        behind the last row is not part of the table. */
    method Close(t: nat, fd: int) returns (r: int)
      requires Valid() && t < MAX_TASKS && t * TASK_FDS + fd < ALL_FDS
      modifies rows
      ensures Valid()
      ensures r == if fd >= 0 && old(Place(t * TASK_FDS + fd)) != -1 then 0 else -1
      ensures View() == if r == 0 then Closed(old(View()), t, fd) else old(View())
    {
      if fd < 0 {
        return -1;
      }
      var u, k := (t * TASK_FDS + fd) / TASK_FDS, (t * TASK_FDS + fd) % TASK_FDS;
      if rows[u][k] != -1 {
        rows[u] := rows[u][k := -1];
        return 0;
      }
      return -1;
    }

    /** Entry `p` of the table of descriptors, row behind row. */
    function Place(p: nat): int
      requires Valid() && p < ALL_FDS
      reads files, rows
    {
      rows[p / TASK_FDS][p % TASK_FDS]
    }

    /** The position of a live descriptor moves on. */
    method Advance(t: nat, fd: nat, off: u32)
      requires Valid() && View().Shaped() && View().Live(t, fd)
      modifies files
      ensures Valid() && View() == Moved(old(View()), t, fd, off)
    {
      files[rows[t][fd]] := files[rows[t][fd]].(off := off);
    }

    /** vfs_read on a file that answers as `b`. */
    method Read(t: nat, fd: int, b: Backing) returns (r: int)
      requires Valid() && t < MAX_TASKS
      modifies files
      ensures Valid()
      ensures r >= 0 <==> (
        && old(View()).Live(t, fd) && MayRead(old(files[rows[t][fd]]).flags)
        && b.read.Some? && !b.isDir && b.read.value(old(files[rows[t][fd]]).off) >= 0)
      ensures r < 0 ==> r == -1 && View() == old(View())
      ensures r >= 0 ==> r == b.read.value(old(files[rows[t][fd]]).off)
      ensures r >= 0 ==> View() == Moved(old(View()), t, fd, Wrapped(old(files[rows[t][fd]]).off + r))
      ensures r >= 0 ==> files[rows[t][fd]] == old(files[rows[t][fd]]).(off := (old(files[rows[t][fd]]).off + r) % 0x1_0000_0000)
    {
      var slot := Get(t, fd);
      if slot == -1 {
        return -1;
      }
      if files[slot].flags == O_WRONLY {
        return -1;
      }
      if b.read.None? {
        return -1;
      }
      if b.isDir {
        return -1;
      }
      r := b.read.value(files[slot].off);
      if r < 0 {
        return -1;
      }
      Advance(t, fd, Wrapped(files[slot].off + r));
    }

    /** vfs_write on a file that answers as `b`. */
    method Write(t: nat, fd: int, b: Backing) returns (r: int)
      requires Valid() && t < MAX_TASKS
      modifies files
      ensures Valid()
      ensures r >= 0 <==> (
        && old(View()).Live(t, fd) && MayWrite(old(files[rows[t][fd]]).flags)
        && b.write.Some? && !b.isDir && b.write.value(old(files[rows[t][fd]]).off) >= 0)
      ensures r < 0 ==> r == -1 && View() == old(View())
      ensures r >= 0 ==> r == b.write.value(old(files[rows[t][fd]]).off)
      ensures r >= 0 ==> View() == Moved(old(View()), t, fd, Wrapped(old(files[rows[t][fd]]).off + r))
      ensures r >= 0 ==> files[rows[t][fd]] == old(files[rows[t][fd]]).(off := (old(files[rows[t][fd]]).off + r) % 0x1_0000_0000)
    {
      var slot := Get(t, fd);
      if slot == -1 {
        return -1;
      }
      if files[slot].flags == O_RDONLY {
        return -1;
      }
      if b.write.None? {
        return -1;
      }
      if b.isDir {
        return -1;
      }
      r := b.write.value(files[slot].off);
      if r < 0 {
        return -1;
      }
      Advance(t, fd, Wrapped(files[slot].off + r));
    }

    /** vfs_lseek. */
    method Lseek(t: nat, fd: int, off: i32, whence: int, b: Backing) returns (r: int)
      requires Valid() && t < MAX_TASKS
      modifies files
      ensures Valid()
      ensures !old(View()).Live(t, fd) ==> r == -1 && View() == old(View())
      ensures old(View()).Live(t, fd) ==>
        var (p, x) := Sought(old(files[rows[t][fd]]), b.size, off, whence);
        r == x && View() == Moved(old(View()), t, fd, p) && files[rows[t][fd]] == old(files[rows[t][fd]]).(off := p)
    {
      var slot := Get(t, fd);
      if slot == -1 {
        return -1;
      }
      assert files[..] == files[..][slot := files[slot].(off := files[slot].off)];
      if whence == SEEK_SET && off < 0 {
        return -1;
      }
      r := -1;
      if whence == SEEK_SET {
        if off >= 0 {
          Advance(t, fd, off);
          r := files[slot].off;
        }
      } else if whence == SEEK_CUR {
        if AsInt32(Wrapped(files[slot].off + off)) >= 0 {
          Advance(t, fd, Wrapped(files[slot].off + off));
          r := AsInt32(files[slot].off);
        }
      } else if whence == SEEK_END {
        Advance(t, fd, Wrapped(b.size + off));
        r := AsInt32(files[slot].off);
      }
    }
  }
}
