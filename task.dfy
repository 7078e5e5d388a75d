/**
 * Types related to task management: the lifecycle status of a task, its task
 * control block, and the `TaskInfo` record that the kernel fills in to answer a
 * "task info" request (status, per-syscall invocation counts, running time).
 */
module Task {
  import opened Config

  /** The status of a task in its lifecycle. Only equality is defined on it. */
  datatype TaskStatus = UnInit | Ready | Running | Exited

  /**
   * The task control block: a plain record with public fields and no operations.
   * The saved register context is of a type not modelled here, so it is a type
   * parameter that is stored and never inspected.
   */
  datatype TaskControlBlock<Context> = TaskControlBlock(
    taskStatus: TaskStatus,
    taskCx: Context,
    startTime: Usize,
    syscallTimes: seq<U32>)
  {
    /** The counter table has the fixed length `MAX_SYSCALL_NUM`, as its array type guarantees. */
    predicate WellSized() {
      |syscallTimes| == MaxSyscallNum
    }
  }

  /** The value held by a `TaskInfo` record: what a caller can observe of it. */
  datatype Snapshot = Snapshot(status: TaskStatus, syscallTimes: seq<U32>, time: Usize)

  /** The counter table has the fixed length `MAX_SYSCALL_NUM`, as the array type guarantees. */
  predicate WellSized(s: Snapshot) {
    |s.syscallTimes| == MaxSyscallNum
  }

  /** A counter table in which no syscall has been recorded yet. */
  function Zeroes(): (z: seq<U32>)
    ensures |z| == MaxSyscallNum
    ensures forall j | 0 <= j < |z| :: z[j] == 0
  {
    seq(MaxSyscallNum, _ => 0)
  }

  /** The record that `TaskInfo::new(status)` builds. */
  function Initial(status: TaskStatus): (r: Snapshot)
    ensures WellSized(r)
    ensures r.status == status && r.time == 0
    ensures forall j | 0 <= j < MaxSyscallNum :: r.syscallTimes[j] == 0
  {
    Snapshot(status, Zeroes(), 0)
  }

  /**
   * The effect of `add_syscall_time(index)` on a record: an index inside the
   * table bumps that one counter, any other index is silently ignored. A counter
   * already at the largest `u32` cannot be incremented (the `+= 1` overflows).
   */
  function Incremented(s: Snapshot, index: nat): (r: Snapshot)
    requires WellSized(s)
    requires index < MaxSyscallNum ==> s.syscallTimes[index] < U32Max
    ensures WellSized(r) && r.status == s.status && r.time == s.time
    ensures forall j | 0 <= j < MaxSyscallNum && j != index :: r.syscallTimes[j] == s.syscallTimes[j]
    ensures index < MaxSyscallNum ==> r.syscallTimes[index] == s.syscallTimes[index] + 1
    ensures MaxSyscallNum <= index ==> r == s
  {
    if index < MaxSyscallNum then
      s.(syscallTimes := s.syscallTimes[index := s.syscallTimes[index] + 1])
    else
      s
  }

  /** How many of the recorded syscall indices equal `j`. */
  function Hits(calls: seq<nat>, j: nat): (n: nat)
    ensures n <= |calls|
    ensures n == 0 <==> j !in calls
  {
    if calls == [] then 0
    else (if calls[0] == j then 1 else 0) + Hits(calls[1..], j)
  }

  /** Recording every index of `calls` into `s` overflows no counter. */
  predicate NoOverflow(s: Snapshot, calls: seq<nat>) {
    WellSized(s) && forall j | 0 <= j < MaxSyscallNum :: s.syscallTimes[j] + Hits(calls, j) <= U32Max
  }

  /** The record after `add_syscall_time` has been called with each index of `calls`, in order. */
  function IncrementedAll(s: Snapshot, calls: seq<nat>): (r: Snapshot)
    requires NoOverflow(s, calls)
    ensures WellSized(r) && r.status == s.status && r.time == s.time
    decreases |calls|
  {
    if calls == [] then
      s
    else
      assert Hits(calls, calls[0]) >= 1;
      var next := Incremented(s, calls[0]);
      assert NoOverflow(next, calls[1..]) by {
        forall j | 0 <= j < MaxSyscallNum
          ensures next.syscallTimes[j] + Hits(calls[1..], j) <= U32Max
        {
          assert s.syscallTimes[j] + Hits(calls, j) <= U32Max;
        }
      }
      IncrementedAll(next, calls[1..])
  }

  /** Each counter grows by exactly the number of calls that name it. */
  lemma {:induction false} IncrementedAllCounts(s: Snapshot, calls: seq<nat>, j: nat)
    requires NoOverflow(s, calls)
    requires j < MaxSyscallNum
    ensures IncrementedAll(s, calls).syscallTimes[j] == s.syscallTimes[j] + Hits(calls, j)
    decreases |calls|
  {
    if calls != [] {
      var next := Incremented(s, calls[0]);
      IncrementedAllCounts(next, calls[1..], j);
    }
  }

  /** From `TaskInfo::new(status)`, any sequence of at most `u32::MAX` recordings fits in every counter. */
  lemma InitialHasRoom(status: TaskStatus, calls: seq<nat>)
    requires |calls| <= U32Max
    ensures NoOverflow(Initial(status), calls)
  {
    forall j | 0 <= j < MaxSyscallNum ensures Initial(status).syscallTimes[j] + Hits(calls, j) <= U32Max {
      assert Hits(calls, j) <= |calls|;
    }
  }

  /**
   * Starting from `TaskInfo::new(status)`, any sequence of at most `u32::MAX`
   * recordings leaves every counter equal to the number of calls with its index,
   * and leaves the status and the time as they were.
   */
  lemma CountsFromInitial(status: TaskStatus, calls: seq<nat>)
    requires |calls| <= U32Max
    ensures IncrementedAll(Initial(status), calls).status == status
    ensures IncrementedAll(Initial(status), calls).time == 0
    ensures forall j | 0 <= j < MaxSyscallNum ::
      IncrementedAll(Initial(status), calls).syscallTimes[j] == Hits(calls, j)
  {
    InitialHasRoom(status, calls);
    var r := IncrementedAll(Initial(status), calls);
    forall j | 0 <= j < MaxSyscallNum ensures r.syscallTimes[j] == Hits(calls, j) {
      IncrementedAllCounts(Initial(status), calls, j);
    }
  }

  /** `Hits` is the multiplicity of `j` in the calls, whatever their order. */
  lemma {:induction false} HitsIsMultiplicity(calls: seq<nat>, j: nat)
    ensures Hits(calls, j) == multiset(calls)[j]
  {
    if calls != [] {
      assert calls == [calls[0]] + calls[1..];
      assert multiset(calls) == multiset{calls[0]} + multiset(calls[1..]);
      HitsIsMultiplicity(calls[1..], j);
    }
  }

  /**
   * Recording is insensitive to the order of the calls: two call sequences that
   * are permutations of each other produce the same record.
   */
  lemma OrderIndependent(s: Snapshot, calls: seq<nat>, reordered: seq<nat>)
    requires NoOverflow(s, calls)
    requires multiset(calls) == multiset(reordered)
    ensures NoOverflow(s, reordered)
    ensures IncrementedAll(s, calls) == IncrementedAll(s, reordered)
  {
    forall j: nat ensures Hits(calls, j) == Hits(reordered, j) {
      HitsIsMultiplicity(calls, j);
      HitsIsMultiplicity(reordered, j);
    }
    var a, b := IncrementedAll(s, calls), IncrementedAll(s, reordered);
    forall j | 0 <= j < MaxSyscallNum ensures a.syscallTimes[j] == b.syscallTimes[j] {
      IncrementedAllCounts(s, calls, j);
      IncrementedAllCounts(s, reordered, j);
    }
    assert a.syscallTimes == b.syscallTimes;
  }

  /**
   * Task information. The counter table is a fixed-size buffer held inside the
   * record and updated in place; copies go in and out by value.
   */
  class TaskInfo {
    /** Task status in its life cycle. */
    var status: TaskStatus
    /** The number of times the task called each syscall. */
    var syscallTimes: array<U32>
    /** Total running time of the task. */
    var time: Usize

    ghost predicate Valid()
      reads this
    {
      syscallTimes.Length == MaxSyscallNum
    }

    /** The record's current value. */
    ghost function View(): (s: Snapshot)
      reads this, syscallTimes
      ensures Valid() ==> WellSized(s)
    {
      Snapshot(status, syscallTimes[..], time)
    }

    /** `TaskInfo::new`: the given status, every counter zero, zero time. */
    constructor New(status: TaskStatus)
      ensures Valid() && fresh(syscallTimes)
      ensures View() == Initial(status)
    {
      this.status := status;
      var zeroes := new U32[MaxSyscallNum](_ => 0);
      assert zeroes[..] == Zeroes();
      syscallTimes := zeroes;
      time := 0;
    }

    /** `TaskInfo::zero_init`: status `UnInit`, every counter zero, zero time. */
    constructor ZeroInit()
      ensures Valid() && fresh(syscallTimes)
      ensures View() == Initial(UnInit)
    {
      status := UnInit;
      var zeroes := new U32[MaxSyscallNum](_ => 0);
      assert zeroes[..] == Zeroes();
      syscallTimes := zeroes;
      time := 0;
    }

    /** Reads the status; changes nothing. */
    method GetStatus() returns (s: TaskStatus)
      ensures s == View().status
    {
      s := status;
    }

    /** Returns a copy of the counter table that shares no storage with the record. */
    method GetSyscallTimes() returns (copy: array<U32>)
      ensures fresh(copy)
      ensures copy[..] == View().syscallTimes
    {
      copy := new U32[syscallTimes.Length];
      forall j | 0 <= j < copy.Length {
        copy[j] := syscallTimes[j];
      }
    }

    /** Reads the running time; changes nothing. */
    method GetTime() returns (t: Usize)
      ensures t == View().time
    {
      t := time;
    }

    /** The derived `Clone`: a new record with the same value and a table of its own. */
    method Clone() returns (copy: TaskInfo)
      ensures fresh(copy) && fresh(copy.syscallTimes)
      ensures copy.View() == View()
      ensures Valid() ==> copy.Valid()
    {
      var table := GetSyscallTimes();
      copy := new TaskInfo.New(status);
      copy.syscallTimes := table;
      copy.time := time;
    }

    /** Overwrites the status and nothing else. */
    method SetStatus(status: TaskStatus)
      modifies this`status
      ensures View() == old(View()).(status := status)
    {
      this.status := status;
    }

    /** Records one call of syscall `index`; an index outside the table is ignored. */
    method AddSyscallTime(index: Usize)
      requires Valid()
      requires index < MaxSyscallNum ==> syscallTimes[index] < U32Max
      modifies syscallTimes
      ensures View() == Incremented(old(View()), index)
    {
      if index < MaxSyscallNum {
        syscallTimes[index] := syscallTimes[index] + 1;
      }
    }

    /** Overwrites the running time and nothing else. */
    method SetTime(time: Usize)
      modifies this`time
      ensures View() == old(View()).(time := time)
    {
      this.time := time;
    }

    /** Copies `times` into the record's own table; nothing else changes. */
    method SetSyscallTimes(times: array<U32>)
      requires Valid() && times.Length == MaxSyscallNum
      modifies syscallTimes
      ensures View() == old(View()).(syscallTimes := old(times[..]))
    {
      forall j | 0 <= j < times.Length {
        syscallTimes[j] := times[j];
      }
    }
  }

  /** `zero_init()` holds the same value as `new(TaskStatus::UnInit)`, in storage of its own. */
  method ZeroInitIsNewUnInit() returns (zero: TaskInfo, uninit: TaskInfo)
    ensures zero.View() == uninit.View()
    ensures zero.View().status == UnInit
    ensures zero.syscallTimes != uninit.syscallTimes
  {
    zero := new TaskInfo.ZeroInit();
    uninit := new TaskInfo.New(UnInit);
  }

  /**
   * From `new(status)`: two recordings of syscall `i`, one of `j`, and one of the
   * first index past the table. Only `i` and `j` are counted.
   */
  method RecordingScenario(status: TaskStatus, i: Usize, j: Usize) returns (info: TaskInfo)
    requires i < MaxSyscallNum && j < MaxSyscallNum && i != j
    ensures info.Valid()
    ensures info.status == status && info.time == 0
    ensures info.syscallTimes[i] == 2 && info.syscallTimes[j] == 1
    ensures forall k | 0 <= k < MaxSyscallNum && k != i && k != j :: info.syscallTimes[k] == 0
  {
    info := new TaskInfo.New(status);
    info.AddSyscallTime(i);
    info.AddSyscallTime(j);
    info.AddSyscallTime(MaxSyscallNum);
    info.AddSyscallTime(i);
  }

  /**
   * Setting, then reading back, each field returns exactly what was set, and
   * the counter table moves by copy: changing the caller's array after
   * `set_syscall_times`, or the array `get_syscall_times` returned, leaves the
   * record's table as it was set.
   */
  method SetThenGet(info: TaskInfo, status: TaskStatus, times: array<U32>, time: Usize, k: nat)
    returns (gotStatus: TaskStatus, gotTimes: array<U32>, gotTime: Usize)
    requires info.Valid() && times.Length == MaxSyscallNum && times != info.syscallTimes
    requires k < MaxSyscallNum
    modifies info, info.syscallTimes, times
    ensures gotStatus == status && gotTime == time && gotTimes[..] == old(times[..])
    ensures info.View() == Snapshot(status, old(times[..]), time)
    ensures times[k] != old(times[k])
  {
    info.SetStatus(status);
    info.SetSyscallTimes(times);
    info.SetTime(time);
    times[k] := if times[k] == 0 then 1 else 0;
    gotStatus := info.GetStatus();
    gotTimes := info.GetSyscallTimes();
    gotTime := info.GetTime();
    gotTimes[k] := 0;
    gotTimes := info.GetSyscallTimes();
  }
}
