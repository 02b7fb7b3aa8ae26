# Bounded latency-profiling log (gRPC `timers.c`)

A Dafny model of gRPC's latency-profiling log, `src/core/profiling/timers.c`.
The log is a fixed-capacity array of timing entries plus a count of the valid
entries at its front. It writes to a caller-owned stream.

- `grpc_timers_log_create` allocates the array. It starts with zero entries.
- `grpc_timers_log_add` records one event. If the buffer is exactly full, it
  first flushes the buffer. It never rejects the event.
- `log_report_locked` is the flush. It writes entries `0 .. num_entries-1`
  to the stream in index order, then resets the count to zero.
- `grpc_timers_log_destroy` does a final flush.
- `grpc_timers_log_global_init` and `grpc_timers_log_global_destroy` do the
  same for one process-wide log with capacity 100000 and a fixed template.

The project has three modules:

- `Timers` (`timers.dfy`) holds the data model and the operations as pure
  functions on an immutable `TimersLog` value. The backing array is a
  `seq<Slot>`, where a slot is `Unwritten` or holds an `Entry`. A flush only
  resets the count, so stale cells stay in the array as they do in C. The
  stream is the field `out`, which lists every record written so far in the
  order written.
- `TimersRuns` (`runs.dfy`) folds appends over a sequence of calls. It proves
  the run-level properties: nothing is lost or duplicated, order is kept,
  no flush happens before the buffer is full, and the exact flush count.
- `TimersObject` (`timers_object.dfy`) lays the log out as the C code does.
  It is a heap object with a `const` array, a 32-bit count and the output
  stream. Its constructor `Create` and each of its methods are proved to
  take the same step as the matching function in `Timers`. The methods
  modify the heap, so their contracts are stated with `old`.

## Model

| member | source | states |
|---|---|---|
| Timers.Create | src/core/profiling/timers.c:78-97 | A created log satisfies the log invariant. It has no entries, an array of exactly `capacity_limit` cells, the given capacity and template, and has written nothing. |
| Timers.WriteFrom | src/core/profiling/timers.c:99-112 | The report loop from index `i` appends the buffered entries `i .. num_entries-1` after what was already written, in index order. |
| Timers.ReportLocked | src/core/profiling/timers.c:99-116 | A flush writes every buffered entry after the earlier output, in index order. It leaves the count at 0 and keeps the invariant. It changes neither the array cells, nor the capacity, nor the template. |
| Timers.Add | src/core/profiling/timers.c:129-148 | Append keeps the invariant and the capacity. Written plus buffered grows by exactly the new entry. If the log has room, the entry goes to index `num_entries`, the count rises by one, no other cell changes and nothing is written. If the log is full, every buffered entry is written first and the buffer then holds only the new entry. |
| Timers.Destroy | src/core/profiling/timers.c:118-127 | Destroy's output is the earlier output followed by exactly the buffered entries, in index order. |
| Timers.GlobalInit | src/core/profiling/timers.c:150-160 | The process-wide log is a valid empty log with capacity 100000 and the default template, and it has written nothing. |
| Timers.GlobalDestroy | src/core/profiling/timers.c:162-164 | Tearing down the process-wide log writes what it still buffers after what it already wrote. |
| TimersRuns.Run | src/core/profiling/timers.c:135-139 | Any run of appends preserves `0 <= num_entries <= capacity_limit` and the array length. It never changes the capacity or the template. |
| TimersRuns.RunConserves | src/core/profiling/timers.c:103-115 | After any run of appends, written plus buffered equals the earlier written plus buffered followed by every appended entry, in append order. |
| TimersRuns.DestroyWritesEveryAppend | src/core/profiling/timers.c:99-148 | Create, then any appends, then destroy: the stream receives exactly the appended entries, in append order. There is no loss and no duplication across flushes. |
| TimersRuns.RunWithinCapacity | src/core/profiling/timers.c:135-145 | While the appends fit in the remaining room, no append flushes. The stream is unchanged and the new entries queue behind the buffered ones. |
| TimersRuns.NoFlushUpToCapacity | src/core/profiling/timers.c:118-139 | At most `capacity_limit` appends to a fresh log cause no mid-stream flush and write nothing. Destroy then writes exactly those entries. |
| TimersRuns.FlushCount | src/core/profiling/timers.c:135-139 | After `n >= 1` appends to a fresh log, exactly `(n-1) / capacity_limit` appends flushed, and `num_entries == (n-1) % capacity_limit + 1`. |
| TimersRuns.FlushedPrefix | src/core/profiling/timers.c:103-139 | After `n >= 1` appends to a fresh log, the stream holds a prefix of the appended entries of length `capacity_limit * ((n-1) / capacity_limit)`: `capacity_limit` entries for each mid-stream flush counted by `TimersRuns.FlushCount`. |
| TimersObject.TimersLogObject.Create | src/core/profiling/timers.c:78-97 | The constructor allocates a fresh array of `capacity_limit` unwritten cells and yields exactly the state of `Timers.Create(capacityLimit, fmt)`. |
| TimersObject.TimersLogObject.ReportLocked | src/core/profiling/timers.c:99-116 | The loop over the fixed array takes the same step as `Timers.ReportLocked`. |
| TimersObject.TimersLogObject.Add | src/core/profiling/timers.c:129-148 | The in-place write to the fixed array takes the same step as `Timers.Add`. The 32-bit count cannot overflow. |
| TimersObject.TimersLogObject.Destroy | src/core/profiling/timers.c:118-127 | Returns what `Timers.Destroy` returns for the object's state. |

## Left out

- Create's precondition `capacity_limit > 0`. The C code does not check it. With capacity 0, the first append writes `log[0]` past a zero-length array. With a negative capacity, the allocation size is wrapped by the C arithmetic. Neither case has behaviour worth modelling, so the model excludes both.
- The mutex (`gpr_mu` lock, unlock, init and destroy). Each locked region is one atomic step. Thread interleaving only decides the order in which appends reach the log.
- The clock (`gpr_now`). The reading is the parameter `now` of `Add`. The source takes it after any flush, once the new cell is chosen.
- `fprintf` and the positional template. A written record is the `Entry` itself, appended to `out`. The template is stored as `fmt` but not interpreted, and write failures are not modelled.
- The stream handle `fp` and standard output for the global log. The stream is the `out` field.
- `gpr_malloc`, `GPR_ASSERT` and `gpr_free`. An allocation failure aborts the process and has no modelled behaviour. Freeing is the end of the value's use.
- The global variable `grpc_timers_log_global`. `GlobalInit` returns the log value, and `GlobalDestroy` takes it back.
- The RDTSC `#error` branches, because they only fail the build.
- The `capacity` field, which is set equal to `capacity_limit` and never read.
- The no-op stubs built without `GRPC_LATENCY_PROFILER`, because they do nothing.
- Ownership of the `tag` and `file` strings. The model holds them by value.
