/** The task table and the round-robin scheduler (kernel/task.c). */
module Tasks {
  import opened Types
  import opened Blocks
  import opened Heaps

  const MAX_TASKS := 8
  const STACK_SIZE: u32 := 16384
  const NAME_MAX := 16

  // ---------- the table as values ----------

  /** Which of the first `count` slots are used, and the running task, -1 before the first switch. */
  datatype Table = Table(used: seq<bool>, current: int)

  datatype Event = Tick | Create | Kill(id: int)

  /** Task 0 is there once any task is, and the running task is used. */
  predicate Sane(t: Table) {
    && |t.used| <= MAX_TASKS && -1 <= t.current < |t.used|
    && (t.used != [] ==> t.used[0])
    && (t.current >= 0 ==> t.used[t.current])
  }

  /** Slots passed from slot `from` up to and with slot `to`, in a ring of `n`. */
  function Ahead(from: int, to: nat, n: nat): int {
    if to > from then to - from else to - from + n
  }

  /** `next` is the first used slot after the running one, round the ring. */
  predicate IsNext(t: Table, next: nat) {
    && next < |t.used| && t.used[next]
    && forall j | 0 <= j < |t.used| && t.used[j] :: Ahead(t.current, next, |t.used|) <= Ahead(t.current, j, |t.used|)
  }

  lemma NextIsUnique(t: Table, a: nat, b: nat)
    requires Sane(t) && IsNext(t, a) && IsNext(t, b)
    ensures a == b
  {
  }

  function NextFrom(t: Table, i: nat): (next: nat)
    requires Sane(t) && t.used != [] && i < |t.used|
    requires forall j | 0 <= j < |t.used| && t.used[j] :: Ahead(t.current, i, |t.used|) <= Ahead(t.current, j, |t.used|)
    ensures IsNext(t, next)
    decreases |t.used| - Ahead(t.current, i, |t.used|)
  {
    if t.used[i] then i
    else NextFrom(t, if i + 1 == |t.used| then 0 else i + 1)
  }

  function Next(t: Table): (next: nat)
    requires Sane(t) && t.used != []
    ensures IsNext(t, next)
  {
    NextFrom(t, if t.current + 1 == |t.used| then 0 else t.current + 1)
  }

  predicate Killable(t: Table, id: int) {
    0 <= id < |t.used| && t.used[id] && id != t.current && id != 0
  }

  function After(t: Table, e: Event): Table
    requires Sane(t)
  {
    match e
    case Tick => if t.used == [] then t else t.(current := Next(t))
    case Create => if |t.used| >= MAX_TASKS then t else t.(used := t.used + [true])
    case Kill(id) => if Killable(t, id) then t.(used := t.used[id := false]) else t
  }

  function AfterAll(t: Table, es: seq<Event>): (after: Table)
    requires Sane(t)
    ensures Sane(after)
    decreases |es|
  {
    if es == [] then t
    else
      AfterSane(t, es[0]);
      AfterAll(After(t, es[0]), es[1..])
  }

  /** Task 0 is never killed, and the running task is always used. */
  lemma AfterSane(t: Table, e: Event)
    requires Sane(t)
    ensures Sane(After(t, e))
  {
  }

  // ---------- bounded waiting ----------

  /** Ticks task `j` may still have to wait: the slots up to it in a ring of all eight. */
  function Wait(t: Table, j: nat): int { Ahead(t.current, j, MAX_TASKS) }

  predicate IsUsed(t: Table, j: nat) { j < |t.used| && t.used[j] }

  /** A tick runs the task or brings it nearer; nothing else moves it away. */
  lemma WaitShrinks(t: Table, e: Event, j: nat)
    requires Sane(t) && IsUsed(t, j) && IsUsed(After(t, e), j)
    ensures 1 <= Wait(t, j) <= MAX_TASKS
    ensures e != Tick ==> Wait(After(t, e), j) == Wait(t, j)
    ensures e == Tick ==> After(t, e).current == j || Wait(After(t, e), j) < Wait(t, j)
  {
  }

  function Ticks(es: seq<Event>): nat {
    if es == [] then 0 else (if es[0] == Tick then 1 else 0) + Ticks(es[1..])
  }

  /** Task `j` is in use all the time. */
  predicate StaysUsed(t: Table, es: seq<Event>, j: nat)
    requires Sane(t)
    decreases |es|
  {
    IsUsed(t, j) && (es != [] ==> (AfterSane(t, es[0]); StaysUsed(After(t, es[0]), es[1..], j)))
  }

  /** Task `j` becomes the running task at some tick. */
  predicate Runs(t: Table, es: seq<Event>, j: nat)
    requires Sane(t)
    decreases |es|
  {
    es != [] && (AfterSane(t, es[0]); (es[0] == Tick && After(t, es[0]).current == j) || Runs(After(t, es[0]), es[1..], j))
  }

  /** Under any interleaving of ticks, creations and kills, a task that stays in use runs within as
      many ticks as it is slots away, so within 8. */
  lemma {:induction false} BoundedWaiting(t: Table, es: seq<Event>, j: nat)
    requires Sane(t) && StaysUsed(t, es, j) && Ticks(es) >= Wait(t, j)
    ensures Runs(t, es, j)
    decreases |es|
  {
    hide After, Sane;
    UsedWait(t, j);
    if es != [] {
      AfterSane(t, es[0]);
      assert IsUsed(After(t, es[0]), j);
      WaitShrinks(t, es[0], j);
      if !(es[0] == Tick && After(t, es[0]).current == j) {
        BoundedWaiting(After(t, es[0]), es[1..], j);
      }
    }
  }

  lemma UsedWait(t: Table, j: nat)
    requires Sane(t) && IsUsed(t, j)
    ensures 1 <= Wait(t, j) <= MAX_TASKS
  {
  }

  lemma EightTicksSuffice(t: Table, es: seq<Event>, j: nat)
    requires Sane(t) && StaysUsed(t, es, j) && Ticks(es) >= MAX_TASKS
    ensures Runs(t, es, j)
  {
    UsedWait(t, j);
    BoundedWaiting(t, es, j);
  }

  // ---------- slots ----------

  function Creates(es: seq<Event>): nat {
    if es == [] then 0 else (if es[0] == Create then 1 else 0) + Creates(es[1..])
  }

  /** A killed task's slot is never used again: the table grows by one with each creation until all
      eight slots are gone, whatever is killed. A creation succeeds exactly while fewer than eight came
      before it. */
  lemma {:induction false} SlotsAreSpent(t: Table, es: seq<Event>)
    requires Sane(t)
    ensures |AfterAll(t, es).used| == if |t.used| + Creates(es) < MAX_TASKS then |t.used| + Creates(es) else MAX_TASKS
    decreases |es|
  {
    if es != [] {
      AfterSane(t, es[0]);
      SlotsAreSpent(After(t, es[0]), es[1..]);
    }
  }

  lemma {:induction false} DeadStaysDead(t: Table, es: seq<Event>, j: nat)
    requires Sane(t) && j < |t.used| && !t.used[j]
    ensures j < |AfterAll(t, es).used| && !AfterAll(t, es).used[j]
    decreases |es|
  {
    if es != [] {
      AfterSane(t, es[0]);
      DeadStaysDead(After(t, es[0]), es[1..], j);
    }
  }

  // ---------- the kernel's table ----------

  datatype Task = Task(esp: u32, used: bool, name: seq<byte>, stack: u32)

  const NO_TASK := Task(0, false, [], 0)

  /** `stack` is the payload of a used heap block large enough for a stack. */
  ghost predicate HasStack(bs: seq<Block>, base: nat, stack: u32) {
    exists b :: b in bs && !b.free && base + b.at + HEADER == stack && b.size >= STACK_SIZE
  }

  function UsedFlags(ts: seq<Task>): (flags: seq<bool>)
    ensures |flags| == |ts| && forall i | 0 <= i < |ts| :: flags[i] == ts[i].used
  {
    seq(|ts|, i requires 0 <= i < |ts| => ts[i].used)
  }

  /** Every task in use has a heap block of its own for its stack. */
  ghost predicate StacksOk(ts: seq<Task>, bs: seq<Block>, base: nat) {
    && (forall i | 0 <= i < |ts| && ts[i].used :: HasStack(bs, base, ts[i].stack))
    && forall i, j | 0 <= i < j < |ts| && ts[i].used && ts[j].used :: ts[i].stack != ts[j].stack
  }

  class Scheduler {
    const tasks: array<Task>
    var current: int
    var count: nat
    const heap: Heap

    ghost function View(): Table
      reads this, tasks
      requires count <= tasks.Length
    {
      Table(UsedFlags(tasks[..count]), current)
    }

    ghost predicate Valid()
      reads this, tasks, heap, heap.mem
    {
      && tasks.Length == MAX_TASKS && count <= MAX_TASKS && Sane(View())
      && heap.Valid() && heap.start != 0 && StacksOk(tasks[..count], heap.blocks, heap.base)
    }

    constructor (heap: Heap)
      requires heap.Valid() && heap.start != 0
      ensures Valid() && View() == Table([], -1) && this.heap == heap && fresh(tasks)
    {
      tasks := new Task[MAX_TASKS](i => NO_TASK);
      current := -1;
      count := 0;
      this.heap := heap;
    }

    /** Every slot is free again; the stacks of tasks that were in use stay allocated. */
    method TasksInit()
      requires Valid()
      modifies this, tasks
      ensures Valid() && View() == Table([], -1) && forall i | 0 <= i < MAX_TASKS :: !tasks[i].used
    {
      for i := 0 to MAX_TASKS
        invariant forall j | 0 <= j < i :: !tasks[j].used
      {
        tasks[i] := tasks[i].(used := false);
      }
      current := -1;
      count := 0;
    }

    /** The search ends because the running task, or task 0 before the first switch, is in use. */
    method Schedule()
      requires Valid()
      modifies this`current
      ensures Valid() && View() == After(old(View()), Tick)
    {
      hide StacksOk, Heap.Valid, Sane, After, IsNext, RingNext;
      ghost var t := View();
      if count == 0 {
        TickView(t, 0);
        return;
      }
      ghost var goal := Goal(t);
      var next: nat := RingNext(current, count);
      while !tasks[next].used
        invariant next < count && current == old(current)
        invariant forall j | 0 <= j < count && t.used[j] :: Ahead(current, next, count) <= Ahead(current, j, count)
        decreases count - Ahead(current, next, count)
      {
        next := RingNext(next, count);
      }
      TickView(t, next);
      current := next;
    }

    /** -1 when eight tasks were created before, whether they are still there or not. Otherwise the new
        task is in the next slot, in use, with the frame `task_switch` pops on its own stack. */
    method TaskCreateNamed(entry: u32, name: CStr) returns (slot: int)
      requires Valid() && (count < MAX_TASKS ==> FirstFit(heap.blocks, STACK_SIZE) < |heap.blocks|)
      modifies this`count, tasks, heap`blocks, heap.mem
      ensures Valid() && View() == After(old(View()), Create)
      ensures slot == if old(count) < MAX_TASKS then old(count) else -1
      ensures slot == -1 ==> heap.blocks == old(heap.blocks) && tasks[..] == old(tasks[..])
      ensures slot >= 0 ==> heap.blocks == Allocated(old(heap.blocks), STACK_SIZE)
      ensures slot >= 0 ==> tasks[..] == old(tasks[..])[slot := tasks[slot]] && tasks[slot].name == name[..Min(|name|, NAME_MAX - 1)]
      ensures slot >= 0 ==> FrameAt(heap.mem[..], heap.base, tasks[slot].stack, tasks[slot].esp, entry)
      ensures KeepsPayloads(old(heap.mem[..]), heap.mem[..], old(heap.blocks))
    {
      hide StacksOk, HasStack, Allocated, FirstFit, KeepsPayloads, Heap.Valid, FrameAt, UsedFlags, After, Sane;
      if count >= MAX_TASKS {
        CreateRefused(View());
        NoChangeKeeps(heap.mem[..], heap.blocks);
        return -1;
      }
      ghost var bs, ts := heap.blocks, tasks[..count];
      heap.Tiled();
      var stack, sp := NewStack(entry);
      slot := count;
      count := count + 1;
      tasks[slot] := Task(sp, true, name[..Min(|name|, NAME_MAX - 1)], stack);
      assert tasks[..count] == ts + [tasks[slot]];
      CreateStacks(ts, tasks[slot], bs, heap.extent, heap.base);
      CreateView(ts, tasks[slot], current);
    }

    /** The stack of a new task. */
    method NewStack(entry: u32) returns (stack: u32, sp: u32)
      requires heap.Valid() && heap.start != 0 && FirstFit(heap.blocks, STACK_SIZE) < |heap.blocks|
      modifies heap`blocks, heap.mem
      ensures heap.Valid() && heap.blocks == Allocated(old(heap.blocks), STACK_SIZE)
      ensures stack == heap.base + old(heap.blocks)[FirstFit(old(heap.blocks), STACK_SIZE)].at + HEADER
      ensures FrameAt(heap.mem[..], heap.base, stack, sp, entry)
      ensures KeepsPayloads(old(heap.mem[..]), heap.mem[..], old(heap.blocks))
    {
      hide Allocated, FirstFit, KeepsPayloads, Heap.Valid, FrameIn, FrameAt;
      ghost var bs, m := heap.blocks, heap.mem[..];
      heap.Tiled();
      StackGranted(bs, heap.extent);
      stack := heap.Kmalloc(STACK_SIZE);
      ghost var m1, k := heap.mem[..], FirstFit(bs, STACK_SIZE);
      sp := PushFrame(stack, entry, k);
      FrameShown(m, m1, heap.mem[..], heap.base, bs, heap.extent, stack, sp, entry);
    }

    /** The first stack frame: the entry point under four zero registers. */
    method PushFrame(stack: u32, entry: u32, ghost k: nat) returns (sp: u32)
      requires heap.Valid() && k < |heap.blocks| && !heap.blocks[k].free && heap.blocks[k].at % 4 == 0
      requires stack == heap.base + heap.blocks[k].at + HEADER && heap.blocks[k].size >= STACK_SIZE
      modifies heap.mem
      ensures heap.Valid() && sp == stack + STACK_SIZE - 20
      ensures FrameIn(old(heap.mem[..]), heap.mem[..], heap.blocks[k], FrameWord(heap.blocks[k]), entry)
    {
      heap.Within(k);
      hide Heap.Valid, FrameIn;
      ghost var m, w := heap.mem[..], FrameWord(heap.blocks[k]);
      sp := stack + STACK_SIZE;
      sp := sp - 4;
      heap.StoreWord(sp, entry, k, w + 4);
      sp := sp - 4;
      heap.StoreWord(sp, 0, k, w + 3);
      sp := sp - 4;
      heap.StoreWord(sp, 0, k, w + 2);
      sp := sp - 4;
      heap.StoreWord(sp, 0, k, w + 1);
      sp := sp - 4;
      heap.StoreWord(sp, 0, k, w);
      FramePushed(m, heap.mem[..], heap.blocks[k], w, entry);
    }

    /** Refused for a slot never given out, a task already gone, the running task and task 0; otherwise
        the stack goes back to the heap and the slot, no other, is marked unused. */
    method TaskKill(id: int) returns (r: int)
      requires Valid()
      modifies tasks, heap`blocks, heap.mem
      ensures Valid() && View() == After(old(View()), Kill(id))
      ensures r == if id < 0 || id >= old(count) || !old(tasks[id].used) || id == old(current) || id == 0 then -1 else 0
      ensures r == -1 ==> heap.blocks == old(heap.blocks) && tasks[..] == old(tasks[..])
      ensures r == 0 ==> tasks[..] == old(tasks[..])[id := old(tasks[id]).(used := false)]
      ensures r == 0 ==> heap.blocks == Released(old(heap.blocks), old(tasks[id].stack) - heap.base - HEADER)
      ensures KeepsPayloads(old(heap.mem[..]), heap.mem[..], heap.blocks)
    {
      hide StacksOk, HasStack, Released, KeepsPayloads, Heap.Valid, After, Sane;
      if id < 0 || id >= count || !tasks[id].used || id == current || id == 0 {
        NoChangeKeeps(heap.mem[..], heap.blocks);
        KillRefused(View(), id);
        return -1;
      }
      ghost var bs, ts := heap.blocks, tasks[..count];
      heap.Tiled();
      StackIsLive(ts, bs, heap.base, id);
      KillStacks(ts, id, bs, heap.extent, heap.base);
      heap.Kfree(tasks[id].stack);
      tasks[id] := tasks[id].(used := false);
      assert tasks[..count] == ts[id := ts[id].(used := false)];
      KillView(ts, id, current);
      return 0;
    }
  }

  /** Five words at `w`, in the payload of `b`: four registers and the entry point. */
  predicate FrameIn(m: seq<u32>, m2: seq<u32>, b: Block, w: nat, entry: u32) {
    && |m2| == |m| && w + 5 <= |m| && m2[w..w + 5] == [0, 0, 0, 0, entry]
    && (forall i | w <= i < w + 5 :: InPayload(b, i))
    && forall i | 0 <= i < |m| && !(w <= i < w + 5) :: m2[i] == m[i]
  }

  /** The word of the stack pointer of a new task with the stack in `b`. */
  function FrameWord(b: Block): (w: nat)
    ensures b.at % 4 == 0 ==> 4 * w == b.at + HEADER + STACK_SIZE - 20
  {
    b.at / 4 + (HEADER + STACK_SIZE - 20) / 4
  }

  lemma FramePushed(m: seq<u32>, m2: seq<u32>, b: Block, w: nat, entry: u32)
    requires b.at % 4 == 0 && w == FrameWord(b) && w + 5 <= |m| && b.size >= STACK_SIZE
    requires m2 == m[w + 4 := entry][w + 3 := 0][w + 2 := 0][w + 1 := 0][w := 0]
    ensures FrameIn(m, m2, b, w, entry)
  {
  }

  /** What `task_switch` pops when it starts the task. */
  predicate FrameAt(m: seq<u32>, base: nat, stack: u32, sp: u32, entry: u32) {
    && sp == stack + STACK_SIZE - 20
    && exists w | 0 <= w <= |m| - 5 :: base + 4 * w == sp && m[w..w + 5] == [0, 0, 0, 0, entry]
  }

  /** The slot after `i`, round the ring. */
  function RingNext(i: int, n: nat): (next: nat)
    requires -1 <= i < n && n > 0
    ensures next == if i + 1 == n then 0 else i + 1
  {
    (i + 1) % n
  }

  /** A used slot that the search cannot miss. */
  lemma Goal(t: Table) returns (goal: nat)
    requires Sane(t) && t.used != []
    ensures goal < |t.used| && t.used[goal] && Ahead(t.current, goal, |t.used|) <= |t.used| && -1 <= t.current < |t.used|
  {
    goal := if t.current == -1 then 0 else t.current;
  }

  lemma TickView(t: Table, next: nat)
    requires Sane(t) && (t.used != [] ==> next < |t.used| && t.used[next])
    requires forall j | 0 <= j < |t.used| && t.used[j] :: Ahead(t.current, next, |t.used|) <= Ahead(t.current, j, |t.used|)
    ensures After(t, Tick) == (if t.used == [] then t else t.(current := next)) && Sane(After(t, Tick))
  {
    if t.used != [] { NextIsUnique(t, next, Next(t)); }
  }

  lemma CreateView(ts: seq<Task>, t: Task, current: int)
    requires Sane(Table(UsedFlags(ts), current)) && |ts| < MAX_TASKS && t.used
    ensures Table(UsedFlags(ts + [t]), current) == After(Table(UsedFlags(ts), current), Create)
    ensures Sane(Table(UsedFlags(ts + [t]), current))
  {
    assert UsedFlags(ts + [t]) == UsedFlags(ts) + [true];
  }

  lemma CreateRefused(t: Table)
    requires Sane(t) && |t.used| >= MAX_TASKS
    ensures After(t, Create) == t
  {
  }

  lemma KillRefused(t: Table, id: int)
    requires Sane(t) && !Killable(t, id)
    ensures After(t, Kill(id)) == t
  {
  }

  lemma KillView(ts: seq<Task>, id: nat, current: int)
    requires Sane(Table(UsedFlags(ts), current)) && Killable(Table(UsedFlags(ts), current), id)
    ensures Table(UsedFlags(ts[id := ts[id].(used := false)]), current) == After(Table(UsedFlags(ts), current), Kill(id))
    ensures Sane(Table(UsedFlags(ts[id := ts[id].(used := false)]), current))
  {
    assert UsedFlags(ts[id := ts[id].(used := false)]) == UsedFlags(ts)[id := false];
  }

  lemma FrameShown(m: seq<u32>, m1: seq<u32>, m2: seq<u32>, base: nat, bs: seq<Block>, extent: nat, stack: u32, sp: u32, entry: u32)
    requires Tiles(bs, 0, extent) && FirstFit(bs, STACK_SIZE) < |bs| && FirstFit(bs, STACK_SIZE) < |Allocated(bs, STACK_SIZE)|
    requires KeepsPayloads(m, m1, Allocated(bs, STACK_SIZE))
    requires var b := Allocated(bs, STACK_SIZE)[FirstFit(bs, STACK_SIZE)];
      && b == Cut(bs[FirstFit(bs, STACK_SIZE)], STACK_SIZE)[0] && b.at % 4 == 0
      && FrameIn(m1, m2, b, FrameWord(b), entry)
      && stack == base + b.at + HEADER && sp == stack + STACK_SIZE - 20
    ensures FrameAt(m2, base, stack, sp, entry) && KeepsPayloads(m, m2, bs)
  {
    hide Tiles, Allocated, FirstFit, Cut, KeepsPayloads, InPayload;
    CreateKeepsPayloads(m, m1, m2, bs, extent, FirstFit(bs, STACK_SIZE));
  }

  lemma StackGranted(bs: seq<Block>, extent: nat)
    requires Tiles(bs, 0, extent) && FirstFit(bs, STACK_SIZE) < |bs|
    ensures var k, cs := FirstFit(bs, STACK_SIZE), Allocated(bs, STACK_SIZE);
      && k < |cs| && cs[k] == Cut(bs[k], STACK_SIZE)[0] && cs[k].at == bs[k].at && cs[k].at % 4 == 0 && !cs[k].free && cs[k].size >= STACK_SIZE
    ensures Rounded(STACK_SIZE) == STACK_SIZE
  {
    TilesBounds(bs, 0, extent);
  }

  lemma CreateStacks(ts: seq<Task>, t: Task, bs: seq<Block>, extent: nat, base: nat)
    requires Tiles(bs, 0, extent) && FirstFit(bs, STACK_SIZE) < |bs| && StacksOk(ts, bs, base)
    requires t.stack == base + bs[FirstFit(bs, STACK_SIZE)].at + HEADER
    ensures StacksOk(ts + [t], Allocated(bs, STACK_SIZE), base)
  {
    AllocatedUsed(bs, STACK_SIZE);
    AllocatedIsNew(bs, extent, STACK_SIZE);
  }

  lemma StackIsLive(ts: seq<Task>, bs: seq<Block>, base: nat, id: nat)
    requires StacksOk(ts, bs, base) && id < |ts| && ts[id].used
    ensures ts[id].stack >= base + HEADER && Live(bs, ts[id].stack - base - HEADER)
  {
    assert HasStack(bs, base, ts[id].stack);
  }

  lemma KillStacks(ts: seq<Task>, id: nat, bs: seq<Block>, extent: nat, base: nat)
    requires Tiles(bs, 0, extent) && StacksOk(ts, bs, base) && id < |ts| && ts[id].used && ts[id].stack >= base + HEADER
    ensures StacksOk(ts[id := ts[id].(used := false)], Released(bs, ts[id].stack - base - HEADER), base)
  {
    hide Tiles, Released;
    var at := ts[id].stack - base - HEADER;
    ReleasedUsed(bs, extent, at);
    var us := ts[id := ts[id].(used := false)];
    forall i | 0 <= i < |us| && us[i].used ensures HasStack(Released(bs, at), base, us[i].stack) {
      assert HasStack(bs, base, ts[i].stack);
    }
  }

  lemma CreateKeepsPayloads(m: seq<u32>, m1: seq<u32>, m2: seq<u32>, bs: seq<Block>, extent: nat, k: nat)
    requires Tiles(bs, 0, extent) && k == FirstFit(bs, STACK_SIZE) && k < |bs|
    requires KeepsPayloads(m, m1, Allocated(bs, STACK_SIZE))
    requires k < |Allocated(bs, STACK_SIZE)| && |m2| == |m1|
    requires Allocated(bs, STACK_SIZE)[k] == Cut(bs[k], STACK_SIZE)[0]
    requires forall i | 0 <= i < |m1| && !InPayload(Allocated(bs, STACK_SIZE)[k], i) :: m2[i] == m1[i]
    ensures KeepsPayloads(m, m2, bs)
  {
    hide Tiles, Allocated, FirstFit, InPayload;
    AllocatedUsed(bs, STACK_SIZE);
    AllocatedIsNew(bs, extent, STACK_SIZE);
    var cs := Allocated(bs, STACK_SIZE);
    forall w, i | 0 <= w < |m| && 0 <= i < |bs| && !bs[i].free && InPayload(bs[i], w) ensures m2[w] == m[w] {
      assert bs[i] in Used(bs);
      assert bs[i] in Used(cs);
      var j :| 0 <= j < |cs| && cs[j] == bs[i];
      ApartPayloads(bs[i], cs[k], w);
    }
  }

  lemma ApartPayloads(b: Block, c: Block, w: nat)
    requires InPayload(b, w) && (End(b) <= c.at || End(c) <= b.at)
    ensures !InPayload(c, w)
  {
  }

  /** In a heap of 278852 bytes there is room for one more stack beside any eight blocks of up to a
      stack's size, however they lie. */
  lemma StackFits(bs: seq<Block>, extent: nat)
    requires Good(bs, extent) && extent >= 278_852
    requires CountUsed(bs) <= MAX_TASKS && forall b | b in bs && !b.free :: b.size < STACK_SIZE + 16
    ensures FirstFit(bs, STACK_SIZE) < |bs|
  {
    var m := 16399;
    assert Spread(2, m, STACK_SIZE) == 3 * (HEADER + STACK_SIZE) + 2 * (HEADER + m);
    assert Spread(4, m, STACK_SIZE) == 5 * (HEADER + STACK_SIZE) + 4 * (HEADER + m);
    assert Spread(6, m, STACK_SIZE) == 7 * (HEADER + STACK_SIZE) + 6 * (HEADER + m);
    assert Spread(8, m, STACK_SIZE) == 9 * (HEADER + STACK_SIZE) + 8 * (HEADER + m);
    EnoughRoom(bs, extent, STACK_SIZE, m, MAX_TASKS);
  }
}
