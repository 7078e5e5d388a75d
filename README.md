# Task information record of a teaching kernel

This project models the task bookkeeping types of a small RISC-V teaching kernel (rCore),
from `os/src/task/task.rs`:

- `TaskStatus`: the four lifecycle states of a task (`UnInit`, `Ready`, `Running`, `Exited`). The
  source derives only `Copy`, `Clone` and `PartialEq` on it, so the model is a plain datatype with
  no transition rules.
- `TaskControlBlock`: a plain record with public fields (status, saved context, start time, counter
  table) and no methods. It is a datatype. Its saved-context field has the type parameter `Context`,
  so the model stores that value without looking inside it.
- `TaskInfo`: the record filled in to answer a "task info" request. It holds a status, a fixed-size
  table of `u32` per-syscall call counts of length `MAX_SYSCALL_NUM`, and a running time. Its
  methods update fields in place, so it is a class. The table is one `array<U32>` owned by the
  record. Every method has a precise frame: `SetStatus` may write only `status`, `SetTime` only
  `time`, and `AddSyscallTime` and `SetSyscallTimes` only the table's elements. Each method states
  its new state through the ghost view `View(): Snapshot`.

The effect of `add_syscall_time` is defined once, as the function `Incremented` on snapshots. An
index inside the table bumps that one counter. Any other index, including exactly
`MAX_SYSCALL_NUM`, changes nothing. `IncrementedAll` applies a whole sequence of calls. The lemmas
about these functions prove three things. Each counter ends up equal to its starting value plus
the number of calls naming it. From a freshly built record, each counter is exactly that number.
Reordering the calls changes nothing.

The counter table moves by copy. `SetSyscallTimes` copies its argument into the record's own
buffer. `GetSyscallTimes` returns a freshly allocated copy. `SetThenGet` shows that changing either
array afterwards leaves the record as it was set.

`MAX_SYSCALL_NUM` comes from a configuration module that is not part of this model, so it is a
symbolic positive constant (`Config.MaxSyscallNum`). `usize` is taken as 64 bits wide, the
kernel's target width.

## Model

| member | source | states |
|---|---|---|
| `Task.Zeroes` | os/src/task/task.rs:33 | the initial table has length `MAX_SYSCALL_NUM` and every counter is 0 |
| `Task.Initial` | os/src/task/task.rs:32-39 | the value `new(status)` builds: the given status, every counter 0, time 0, a well-sized table |
| `Task.TaskInfo.New` | os/src/task/task.rs:32-39 | the constructor yields a record whose value is `Initial(status)`, in a freshly allocated table of length `MAX_SYSCALL_NUM` |
| `Task.TaskInfo.ZeroInit` | os/src/task/task.rs:42-48 | the constructor yields the value `Initial(UnInit)` in a freshly allocated table |
| `Task.ZeroInitIsNewUnInit` | os/src/task/task.rs:32-48 | `zero_init()` and `new(UnInit)` hold field-for-field equal values with status `UnInit`, and they do not share a table |
| `Task.TaskInfo.GetStatus` | os/src/task/task.rs:51-53 | returns the record's status; it has no modifies clause, so it changes nothing |
| `Task.TaskInfo.GetSyscallTimes` | os/src/task/task.rs:56-58 | returns a freshly allocated array (no alias of the record) whose contents equal the record's table |
| `Task.TaskInfo.GetTime` | os/src/task/task.rs:61-63 | returns the record's time and changes nothing |
| `Task.TaskInfo.Clone` | os/src/task/task.rs:20 | the derived `Clone` gives a new record with a newly allocated table and the same value, and it is well-sized when the original is |
| `Task.TaskInfo.SetStatus` | os/src/task/task.rs:66-68 | the new value is the old one with only the status replaced; the frame allows writing `status` alone |
| `Task.Incremented` | os/src/task/task.rs:71-75 | an in-range index raises exactly that counter by 1 and leaves every other counter, the status and the time alone; an index `>= MAX_SYSCALL_NUM` leaves the record unchanged; an in-range counter must be below `u32::MAX` |
| `Task.TaskInfo.AddSyscallTime` | os/src/task/task.rs:71-75 | the record's new value is `Incremented(old value, index)`; only the table's elements may be written |
| `Task.TaskInfo.SetTime` | os/src/task/task.rs:78-80 | the new value is the old one with only the time replaced; the frame allows writing `time` alone |
| `Task.TaskInfo.SetSyscallTimes` | os/src/task/task.rs:83-85 | the new table equals the argument's contents at call time; status and time are unchanged, and the record keeps its own buffer |
| `Task.IncrementedAll` | os/src/task/task.rs:71-75 | a sequence of `add_syscall_time` calls keeps the table's size, the status and the time |
| `Task.IncrementedAllCounts` | os/src/task/task.rs:71-75 | after a sequence of calls, each counter equals its old value plus the number of calls naming its index |
| `Task.InitialHasRoom` | os/src/task/task.rs:32-39 | starting from `new(status)`, any at most `u32::MAX` calls fit in every counter, so none of them overflows |
| `Task.CountsFromInitial` | os/src/task/task.rs:32-75 | starting from `new(status)`, after at most `u32::MAX` calls every counter ends up equal to the number of calls with its index; status and time stay as built |
| `Task.OrderIndependent` | os/src/task/task.rs:71-75 | two call sequences that are permutations of each other produce the same record, and if one overflows nothing neither does the other |
| `Task.RecordingScenario` | os/src/task/task.rs:71-75 | from `new(status)`, calls for `i`, `j`, `MAX_SYSCALL_NUM` and `i` leave counter `i` at 2, counter `j` at 1 and every other counter at 0; the boundary index is ignored |
| `Task.SetThenGet` | os/src/task/task.rs:51-85 | each getter returns exactly what its setter stored; changing the caller's array afterwards, or the array a getter returned, does not change the record |

## Left out

- `TaskContext` contents: its type is defined outside this file, so the model uses a type parameter whose values are stored and never inspected.
- The value of `MAX_SYSCALL_NUM`: it is set in the kernel's configuration module, which is not part of this model. It is symbolic, and the proofs assume only that it is positive.
- Task.TaskInfo.AddSyscallTime: a `+= 1` on a counter already at `u32::MAX` is excluded by a precondition. A debug build panics on that increment, and the model leaves it out. The silent wrap-around of a release build is not modelled either.
- Task.Incremented: carries the same no-overflow precondition as `Task.TaskInfo.AddSyscallTime`, for the same reason.
- Status-transition rules: the code enforces none. `TaskStatus` derives only `Copy`, `Clone` and `PartialEq`, and `set_status` overwrites unconditionally, so the model has no transition rules.
- `TaskControlBlock` operations: the source defines none. Its fields are public and written directly by the scheduler, which is not part of this model. Scheduling, start-time acquisition and elapsed-time computation are out of scope for the same reason.
- Rust's `Copy` and `Clone` derives: `TaskStatus`, `TaskControlBlock` and `Snapshot` are datatypes, so they copy as values. `TaskInfo` is a class, so assigning a `TaskInfo` copies a reference and aliases, where Rust copies the whole record. An explicit copy is `TaskInfo.Clone`, and `View()` is the record's value. `PartialEq` on `TaskStatus` is datatype equality.
- Task.SetThenGet: requires that the caller's array is not the record's own table. In Rust the two can never be the same, because `set_syscall_times` takes its `[u32; MAX_SYSCALL_NUM]` argument by value, as a copy.
- `TaskControlBlock.syscallTimes` is a `seq<U32>` of any length. The fixed length `MAX_SYSCALL_NUM` of the source's array type is the predicate `TaskControlBlock.WellSized()`, and nothing in the model requires it, because the source defines no operation on the block.
- Concurrency and locking: the file has none.
