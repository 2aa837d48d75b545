/** The scheduling calculators (backend/services/scheduling_calculator.py): a greedy
    deadline scheduler and an even resource spreader. */
module SchedulingCalculator {
  import opened Results

  /** A task to schedule: its name, how long it runs and when it must be finished. */
  datatype Task = Task(name: string, duration: int, deadline: int)

  /** One line of the schedule: the task runs over `[start, end)`, or it was skipped
      (`start` and `end` are `None` and `skipped` is true in the Python dictionary). */
  datatype Entry = Scheduled(name: string, start: int, end: int) | Skipped(name: string)

  // ---------------------------------------------------------------------------
  // Sorting by deadline. Python's `sorted` is stable: equal deadlines keep input order.

  /** Deadlines never decrease along `s`. */
  predicate Ordered(s: seq<Task>)
  {
    forall i, j :: 0 <= i < j < |s| ==> s[i].deadline <= s[j].deadline
  }

  /** The tasks of `s` whose deadline is `d`, in the order of `s`. */
  function WithDeadline(s: seq<Task>, d: int): seq<Task>
  {
    if s == [] then []
    else WithDeadline(s[..|s| - 1], d) + (if s[|s| - 1].deadline == d then [s[|s| - 1]] else [])
  }

  /** `r` is `s` sorted by deadline, stably: ordered, and each group of equal deadlines
      is the same subsequence in both. */
  ghost predicate IsStableSortOf(r: seq<Task>, s: seq<Task>)
  {
    Ordered(r) && forall d :: WithDeadline(r, d) == WithDeadline(s, d)
  }

  /** Puts `t` into an ordered list after every task whose deadline is not later than its own. */
  function Insert(s: seq<Task>, t: Task): seq<Task>
  {
    if s == [] then [t]
    else if t.deadline < s[0].deadline then [t] + s
    else [s[0]] + Insert(s[1..], t)
  }

  /** Stable insertion sort on the deadline: each task in turn is inserted into the sorted
      prefix. */
  function InsertionSort(s: seq<Task>): seq<Task>
  {
    if s == [] then [] else Insert(InsertionSort(s[..|s| - 1]), s[|s| - 1])
  }

  lemma {:induction false} WithDeadlineMembers(s: seq<Task>, d: int, x: Task)
    ensures x in WithDeadline(s, d) <==> x in s && x.deadline == d
  {
    if s != [] {
      WithDeadlineMembers(s[..|s| - 1], d, x);
      assert s == s[..|s| - 1] + [s[|s| - 1]];
    }
  }

  lemma {:induction false} WithDeadlineAppend(a: seq<Task>, b: seq<Task>, d: int)
    ensures WithDeadline(a + b, d) == WithDeadline(a, d) + WithDeadline(b, d)
  {
    if b != [] {
      var n := |b| - 1;
      assert (a + b)[..|a + b| - 1] == a + b[..n];
      WithDeadlineAppend(a, b[..n], d);
    } else {
      assert a + b == a;
    }
  }

  lemma WithDeadlineNone(s: seq<Task>, d: int)
    requires forall i :: 0 <= i < |s| ==> s[i].deadline != d
    ensures WithDeadline(s, d) == []
  {
    if WithDeadline(s, d) != [] {
      WithDeadlineMembers(s, d, WithDeadline(s, d)[0]);
    }
  }

  lemma {:induction false} InsertPermutes(s: seq<Task>, t: Task)
    ensures multiset(Insert(s, t)) == multiset(s) + multiset{t}
  {
    if s != [] && t.deadline >= s[0].deadline {
      InsertPermutes(s[1..], t);
      assert s == [s[0]] + s[1..];
    }
  }

  lemma {:induction false} InsertOrdered(s: seq<Task>, t: Task)
    requires Ordered(s)
    ensures Ordered(Insert(s, t))
  {
    if s != [] && t.deadline >= s[0].deadline {
      var rest := Insert(s[1..], t);
      InsertOrdered(s[1..], t);
      InsertPermutes(s[1..], t);
      forall j | 0 <= j < |rest| ensures s[0].deadline <= rest[j].deadline {
        assert rest[j] in multiset(s[1..]) + multiset{t};
      }
      var r := [s[0]] + rest;
      forall i, j | 0 <= i < j < |r| ensures r[i].deadline <= r[j].deadline {
        assert r[j] == rest[j - 1];
        if i > 0 {
          assert r[i] == rest[i - 1];
        }
      }
    }
  }

  lemma {:induction false} InsertGroups(s: seq<Task>, t: Task, d: int)
    requires Ordered(s)
    ensures WithDeadline(Insert(s, t), d) == WithDeadline(s, d) + WithDeadline([t], d)
  {
    if s == [] {
      assert Insert(s, t) == [t];
    } else if t.deadline < s[0].deadline {
      assert Insert(s, t) == [t] + s;
      WithDeadlineAppend([t], s, d);
      if t.deadline == d {
        WithDeadlineNone(s, d);
      }
    } else {
      var rest := s[1..];
      assert Insert(s, t) == [s[0]] + Insert(rest, t);
      assert s == [s[0]] + rest;
      InsertGroups(rest, t, d);
      WithDeadlineAppend([s[0]], Insert(rest, t), d);
      WithDeadlineAppend([s[0]], rest, d);
      var head, tail, single := WithDeadline([s[0]], d), WithDeadline(rest, d), WithDeadline([t], d);
      assert WithDeadline(Insert(s, t), d) == head + (tail + single);
      assert WithDeadline(s, d) == head + tail;
      assert head + (tail + single) == (head + tail) + single;
    }
  }

  /** The sort orders the tasks stably and is a permutation of its input. */
  lemma {:induction false} InsertionSortIsStableSort(s: seq<Task>)
    ensures IsStableSortOf(InsertionSort(s), s)
    ensures multiset(InsertionSort(s)) == multiset(s)
  {
    if s != [] {
      var init, last := s[..|s| - 1], s[|s| - 1];
      InsertionSortIsStableSort(init);
      InsertOrdered(InsertionSort(init), last);
      InsertPermutes(InsertionSort(init), last);
      assert s == init + [last];
      forall d ensures WithDeadline(InsertionSort(s), d) == WithDeadline(s, d) {
        InsertGroups(InsertionSort(init), last, d);
        WithDeadlineAppend(init, [last], d);
      }
    }
  }

  /** Being ordered and keeping each deadline group in order determines the result: any two
      stable sorts of the same tasks are equal. */
  lemma {:induction false} StableSortUnique(r1: seq<Task>, r2: seq<Task>, s: seq<Task>)
    requires IsStableSortOf(r1, s) && IsStableSortOf(r2, s)
    ensures r1 == r2
  {
    SameGroupsSameOrder(r1, r2);
  }

  lemma WithDeadlineSnoc(s: seq<Task>, x: Task, d: int)
    ensures WithDeadline(s + [x], d) == WithDeadline(s, d) + (if x.deadline == d then [x] else [])
  {
    assert (s + [x])[..|s|] == s;
  }

  lemma LastIsLatest(r: seq<Task>, x: Task)
    requires Ordered(r) && x in r
    ensures x.deadline <= r[|r| - 1].deadline
  {
  }

  lemma SameGroupsDropLast(i1: seq<Task>, x1: Task, i2: seq<Task>, x2: Task)
    requires x1.deadline == x2.deadline
    requires forall d :: WithDeadline(i1 + [x1], d) == WithDeadline(i2 + [x2], d)
    ensures x1 == x2
    ensures forall d :: WithDeadline(i1, d) == WithDeadline(i2, d)
  {
    WithDeadlineSnoc(i1, x1, x1.deadline);
    WithDeadlineSnoc(i2, x2, x1.deadline);
    assert WithDeadline(i1 + [x1], x1.deadline) == WithDeadline(i2 + [x2], x1.deadline);
    forall d ensures WithDeadline(i1, d) == WithDeadline(i2, d) {
      WithDeadlineSnoc(i1, x1, d);
      WithDeadlineSnoc(i2, x2, d);
      assert WithDeadline(i1 + [x1], d) == WithDeadline(i2 + [x2], d);
      if d == x1.deadline {
        var a1, a2 := WithDeadline(i1, d), WithDeadline(i2, d);
        assert a1 + [x1] == a2 + [x2];
        assert |a1| == |a2|;
        assert a1 == (a1 + [x1])[..|a1|];
        assert a2 == (a2 + [x2])[..|a2|];
        assert a1 == a2;
      } else {
        assert WithDeadline(i1, d) + [] == WithDeadline(i1, d);
        assert WithDeadline(i2, d) + [] == WithDeadline(i2, d);
      }
    }
  }

  lemma {:induction false} SameGroupsSameOrder(r1: seq<Task>, r2: seq<Task>)
    requires Ordered(r1) && Ordered(r2)
    requires forall d :: WithDeadline(r1, d) == WithDeadline(r2, d)
    ensures r1 == r2
  {
    if r1 != [] && r2 != [] {
      var i1, x1 := r1[..|r1| - 1], r1[|r1| - 1];
      var i2, x2 := r2[..|r2| - 1], r2[|r2| - 1];
      assert r1 == i1 + [x1] && r2 == i2 + [x2];
      // Each list's last task has the latest deadline, and each list holds the other's.
      WithDeadlineMembers(r2, x2.deadline, x2);
      WithDeadlineMembers(r1, x2.deadline, x2);
      WithDeadlineMembers(r1, x1.deadline, x1);
      WithDeadlineMembers(r2, x1.deadline, x1);
      LastIsLatest(r1, x2);
      LastIsLatest(r2, x1);
      SameGroupsDropLast(i1, x1, i2, x2);
      SameGroupsSameOrder(i1, i2);
    } else if r1 != [] {
      var x := r1[|r1| - 1];
      WithDeadlineMembers(r1, x.deadline, x);
      WithDeadlineMembers(r2, x.deadline, x);
    } else if r2 != [] {
      var x := r2[|r2| - 1];
      WithDeadlineMembers(r2, x.deadline, x);
      WithDeadlineMembers(r1, x.deadline, x);
    }
  }

  /** `Insert` places the task at the first position whose deadline is later than its own. */
  lemma {:induction false} InsertAt(s: seq<Task>, t: Task, j: nat)
    requires j <= |s|
    requires forall k :: 0 <= k < j ==> s[k].deadline <= t.deadline
    requires j == |s| || t.deadline < s[j].deadline
    ensures Insert(s, t) == s[..j] + [t] + s[j..]
  {
    if j > 0 {
      InsertAt(s[1..], t, j - 1);
      assert s[1..][..j - 1] == s[1..j] && s[1..][j - 1..] == s[j..];
      assert s[..j] == [s[0]] + s[1..j];
    }
  }

  /** The deadline sort: insertion into a growing sorted prefix, each task after the ones
      whose deadline is not later than its own. */
  method SortByDeadline(tasks: seq<Task>) returns (sorted: seq<Task>)
    ensures sorted == InsertionSort(tasks)
    ensures IsStableSortOf(sorted, tasks)
    ensures multiset(sorted) == multiset(tasks)
  {
    sorted := [];
    for i := 0 to |tasks|
      invariant sorted == InsertionSort(tasks[..i])
    {
      var t := tasks[i];
      var j := 0;
      while j < |sorted| && sorted[j].deadline <= t.deadline
        invariant 0 <= j <= |sorted|
        invariant forall k :: 0 <= k < j ==> sorted[k].deadline <= t.deadline
      {
        j := j + 1;
      }
      InsertAt(sorted, t, j);
      assert tasks[..i + 1][..i] == tasks[..i];
      sorted := sorted[..j] + [t] + sorted[j..];
    }
    assert tasks[..|tasks|] == tasks;
    InsertionSortIsStableSort(tasks);
  }

  // ---------------------------------------------------------------------------
  // greedy_schedule: back-to-back packing along a single clock that starts at 0.

  /** The entry for `t` when the clock reads `clock`: it runs from the clock on if it then
      ends by its deadline, and is skipped otherwise. */
  function Place(t: Task, clock: int): Entry
  {
    if clock + t.duration <= t.deadline then Scheduled(t.name, clock, clock + t.duration)
    else Skipped(t.name)
  }

  /** The clock after the entries `out`: the end of the last scheduled one, or 0 if none is. */
  function LastEnd(out: seq<Entry>): int
  {
    if out == [] then 0
    else match out[|out| - 1]
      case Scheduled(_, _, end) => end
      case Skipped(_) => LastEnd(out[..|out| - 1])
  }

  /** `out` is the greedy packing of `ordered`: one entry per task, the k-th placed at the
      clock left by the entries before it. */
  ghost predicate IsGreedyPacking(ordered: seq<Task>, out: seq<Entry>)
  {
    |out| == |ordered| && forall k :: 0 <= k < |out| ==> out[k] == Place(ordered[k], LastEnd(out[..k]))
  }

  /** `greedy_schedule`: sorts the tasks by deadline, then walks them with one clock, placing
      each back to back or skipping it. */
  method GreedySchedule(tasks: seq<Task>) returns (schedule: seq<Entry>)
    ensures |schedule| == |tasks|
    ensures IsGreedyPacking(InsertionSort(tasks), schedule)
  {
    var ordered := SortByDeadline(tasks);
    schedule := [];
    var currentTime := 0;
    for i := 0 to |ordered|
      invariant |schedule| == i
      invariant currentTime == LastEnd(schedule)
      invariant forall k :: 0 <= k < i ==> schedule[k] == Place(ordered[k], LastEnd(schedule[..k]))
    {
      var task := ordered[i];
      var start := currentTime;
      var end := start + task.duration;
      var entry;
      if end <= task.deadline {
        entry := Scheduled(task.name, start, end);
        currentTime := end;
      } else {
        entry := Skipped(task.name);
      }
      assert (schedule + [entry])[..i] == schedule;
      forall k | 0 <= k < i ensures (schedule + [entry])[..k] == schedule[..k] {
      }
      schedule := schedule + [entry];
    }
    assert |InsertionSort(tasks)| == |tasks| by {
      InsertionSortIsStableSort(tasks);
      assert |multiset(InsertionSort(tasks))| == |multiset(tasks)|;
    }
  }

  /** Each entry carries its task's name; a scheduled one runs for exactly the task's duration
      and ends by its deadline; a task is scheduled exactly when the clock plus its duration
      reaches no further than its deadline. */
  lemma PackingEntries(ordered: seq<Task>, out: seq<Entry>, k: nat)
    requires IsGreedyPacking(ordered, out) && k < |out|
    ensures out[k].name == ordered[k].name
    ensures out[k].Scheduled? <==> LastEnd(out[..k]) + ordered[k].duration <= ordered[k].deadline
    ensures out[k].Scheduled? ==>
      out[k].start == LastEnd(out[..k]) && out[k].end == out[k].start + ordered[k].duration
      && out[k].end <= ordered[k].deadline
  {
  }

  /** The clock moves only at a scheduled entry, to that entry's end. */
  lemma ClockStep(out: seq<Entry>, k: nat)
    requires k < |out|
    ensures LastEnd(out[..k + 1]) == if out[k].Scheduled? then out[k].end else LastEnd(out[..k])
  {
    assert out[..k + 1][..k] == out[..k];
  }

  /** The clock stands at the end of the last scheduled entry, and at 0 before the first. */
  lemma {:induction false} LastEndIsLastScheduled(out: seq<Entry>, i: int)
    requires -1 <= i < |out|
    requires i >= 0 ==> out[i].Scheduled?
    requires forall m :: i < m < |out| ==> out[m].Skipped?
    ensures LastEnd(out) == if i == -1 then 0 else out[i].end
  {
    if out != [] && |out| - 1 != i {
      LastEndIsLastScheduled(out[..|out| - 1], i);
    }
  }

  /** Contiguity: the first scheduled task starts at 0 and each later one starts exactly where
      the previous scheduled one ended. */
  lemma PackingContiguous(ordered: seq<Task>, out: seq<Entry>, i: int, j: nat)
    requires IsGreedyPacking(ordered, out)
    requires -1 <= i < j < |out| && out[j].Scheduled?
    requires i >= 0 ==> out[i].Scheduled?
    requires forall m :: i < m < j ==> out[m].Skipped?
    ensures out[j].start == if i == -1 then 0 else out[i].end
  {
    LastEndIsLastScheduled(out[..j], i);
  }

  /** Nothing is ever scheduled before time 0, and with non-negative durations the clock
      never runs backwards. */
  lemma {:induction false} ClockMonotone(ordered: seq<Task>, out: seq<Entry>, i: nat, j: nat)
    requires IsGreedyPacking(ordered, out)
    requires forall k :: 0 <= k < |ordered| ==> 0 <= ordered[k].duration
    requires i <= j <= |out|
    ensures 0 <= LastEnd(out[..i]) <= LastEnd(out[..j])
  {
    if i < j {
      ClockMonotone(ordered, out, i, j - 1);
      ClockStep(out, j - 1);
    } else if i > 0 {
      ClockMonotone(ordered, out, i - 1, i);
    }
  }

  /** With non-negative durations, scheduled tasks never overlap: an earlier entry ends no
      later than a later one starts. */
  lemma PackingDisjoint(ordered: seq<Task>, out: seq<Entry>, i: nat, j: nat)
    requires IsGreedyPacking(ordered, out)
    requires forall k :: 0 <= k < |ordered| ==> 0 <= ordered[k].duration
    requires i < j < |out| && out[i].Scheduled? && out[j].Scheduled?
    ensures 0 <= out[i].start <= out[i].end <= out[j].start <= out[j].end
  {
    ClockMonotone(ordered, out, i, i + 1);
    ClockMonotone(ordered, out, i + 1, j);
    ClockStep(out, i);
  }

  /** The packing of a task order is unique, so the scheduler is deterministic. */
  lemma {:induction false} PackingUnique(ordered: seq<Task>, out1: seq<Entry>, out2: seq<Entry>)
    requires IsGreedyPacking(ordered, out1) && IsGreedyPacking(ordered, out2)
    ensures out1 == out2
  {
    var k := 0;
    while k < |out1|
      invariant k <= |out1| && out1[..k] == out2[..k]
    {
      assert out1[..k + 1] == out1[..k] + [out1[k]];
      assert out2[..k + 1] == out2[..k] + [out2[k]];
      k := k + 1;
    }
    assert out1 == out1[..k] && out2 == out2[..k];
  }

  /** The names of the tasks, in order. */
  function TaskNames(s: seq<Task>): seq<string>
  {
    seq(|s|, i requires 0 <= i < |s| => s[i].name)
  }

  /** The names of the entries, in order. */
  function EntryNames(s: seq<Entry>): seq<string>
  {
    seq(|s|, i requires 0 <= i < |s| => s[i].name)
  }

  lemma {:induction false} InsertNames(s: seq<Task>, t: Task)
    ensures multiset(TaskNames(Insert(s, t))) == multiset(TaskNames(s)) + multiset{t.name}
  {
    if s != [] && t.deadline >= s[0].deadline {
      InsertNames(s[1..], t);
      assert TaskNames(Insert(s, t)) == [s[0].name] + TaskNames(Insert(s[1..], t));
      assert TaskNames(s) == [s[0].name] + TaskNames(s[1..]);
    } else if s != [] {
      assert TaskNames(Insert(s, t)) == [t.name] + TaskNames(s);
    }
  }

  lemma {:induction false} SortKeepsNames(s: seq<Task>)
    ensures multiset(TaskNames(InsertionSort(s))) == multiset(TaskNames(s))
  {
    if s != [] {
      var init := s[..|s| - 1];
      SortKeepsNames(init);
      InsertNames(InsertionSort(init), s[|s| - 1]);
      assert TaskNames(s) == TaskNames(init) + [s[|s| - 1].name];
    }
  }

  /** One entry per input task: the schedule's names are the input's names, each as often. */
  lemma ScheduleCoversEveryTask(tasks: seq<Task>, out: seq<Entry>)
    requires IsGreedyPacking(InsertionSort(tasks), out)
    ensures multiset(EntryNames(out)) == multiset(TaskNames(tasks))
  {
    var ordered := InsertionSort(tasks);
    forall k | 0 <= k < |out| ensures out[k].name == ordered[k].name {
      PackingEntries(ordered, out, k);
    }
    assert EntryNames(out) == TaskNames(ordered);
    SortKeepsNames(tasks);
  }

  // ---------------------------------------------------------------------------
  // resource_smoothing: every task gets the same share per slot, capped by its workload.

  /** A task whose workload is spread over time slots. */
  datatype ResourceTask = ResourceTask(name: string, workload: real)

  /** One line of the allocation: how many slots the task gets and its load per slot. */
  datatype Allocation = Allocation(name: string, slots: int, allocatedPerSlot: real)

  /** Python's `int(x)` on a float: truncation toward zero. */
  function Truncate(x: real): (n: int)
    ensures 0.0 <= x ==> 0 <= n && n as real <= x < n as real + 1.0
    ensures x < 0.0 ==> n <= 0 && n as real - 1.0 < x <= n as real
  {
    if 0.0 <= x then x.Floor else -((-x).Floor)
  }

  /** Python's `min(a, b)`: `a` unless `b` is strictly smaller. */
  function Min(a: real, b: real): real
  {
    if b < a then b else a
  }

  /** `resource_smoothing`: the average share `total_resources / total_time` is computed once
      (a division by zero when `total_time` is 0, even with no tasks); each task, in input
      order, gets `min(workload, share)` per slot and `int(workload / allocation)` slots,
      and a zero allocation is a division by zero that aborts the whole call. */
  method ResourceSmoothing(tasks: seq<ResourceTask>, totalResources: real, totalTime: int)
    returns (r: Result<seq<Allocation>>)
    ensures r.Err? <==> (totalTime == 0 ||
      exists i :: 0 <= i < |tasks| && Min(tasks[i].workload, totalResources / totalTime as real) == 0.0)
    ensures r.Err? ==> r.error == DivisionByZero
    ensures r.Ok? ==> |r.value| == |tasks| && forall i :: 0 <= i < |tasks| ==>
      var share, e := totalResources / totalTime as real, r.value[i];
      && e.name == tasks[i].name
      && e.allocatedPerSlot <= tasks[i].workload && e.allocatedPerSlot <= share
      && (e.allocatedPerSlot == tasks[i].workload || e.allocatedPerSlot == share)
      && e.allocatedPerSlot != 0.0
      && e.slots == Truncate(tasks[i].workload / e.allocatedPerSlot)
  {
    if totalTime == 0 {
      return Err(DivisionByZero);
    }
    var avgPerSlot := totalResources / totalTime as real;
    var schedule: seq<Allocation> := [];
    for i := 0 to |tasks|
      invariant |schedule| == i
      invariant forall k :: 0 <= k < i ==> Min(tasks[k].workload, avgPerSlot) != 0.0
      invariant forall k :: 0 <= k < i ==>
        && schedule[k].name == tasks[k].name
        && schedule[k].allocatedPerSlot == Min(tasks[k].workload, avgPerSlot)
        && schedule[k].slots == Truncate(tasks[k].workload / schedule[k].allocatedPerSlot)
    {
      var allocation := Min(tasks[i].workload, avgPerSlot);
      if allocation == 0.0 {
        return Err(DivisionByZero);
      }
      var slots := Truncate(tasks[i].workload / allocation);
      schedule := schedule + [Allocation(tasks[i].name, slots, allocation)];
    }
    return Ok(schedule);
  }

  /** A positive workload under a positive share fills at least one slot, and the slot count
      is the number of whole allocations the workload holds; a workload no larger than the
      share takes exactly one slot. */
  lemma SlotCount(workload: real, share: real)
    requires 0.0 < workload && 0.0 < share
    ensures var a := Min(workload, share); var n := Truncate(workload / a);
      && 1 <= n
      && n as real * a <= workload < (n + 1) as real * a
      && (workload <= share ==> n == 1)
  {
    var a := Min(workload, share);
    WholeAllocations(workload, a);
    if workload <= share {
      assert a == workload;
    }
  }

  /** When the average share is negative (a negative `total_resources`), a positive workload
      is given the negative share per slot and, by truncation toward zero, no positive slot count. */
  lemma NegativeShareSlots(workload: real, share: real)
    requires 0.0 < workload && share < 0.0
    ensures Min(workload, share) == share
    ensures Truncate(workload / share) <= 0
  {
    assert workload / share < 0.0 by {
      assert -(workload / share) == workload / -share;
    }
  }

  lemma WholeAllocations(w: real, a: real)
    requires 0.0 < a <= w
    ensures var n := Truncate(w / a); 1 <= n && n as real * a <= w < (n + 1) as real * a
  {
    WholeAllocationsOf(w, a, w / a);
  }

  lemma WholeAllocationsOf(w: real, a: real, q: real)
    requires 0.0 < a <= w && q * a == w
    ensures var n := Truncate(q); 1 <= n && n as real * a <= w < (n + 1) as real * a
  {
    var n := Truncate(q);
    if q < 1.0 {
      ScaleStrict(q, 1.0, a);
    }
    ScaleWeak(n as real, q, a);
    var m := (n + 1) as real;
    assert q < m;
    ScaleStrict(q, m, a);
    assert w < m * a;
  }

  lemma ScaleStrict(x: real, y: real, c: real)
    requires 0.0 < c && x < y
    ensures x * c < y * c
  {
    assert 0.0 < (y - x) * c;
    assert (y - x) * c == y * c - x * c;
  }

  lemma ScaleWeak(x: real, y: real, c: real)
    requires 0.0 < c && x <= y
    ensures x * c <= y * c
  {
    if x < y {
      ScaleStrict(x, y, c);
    }
  }
}
