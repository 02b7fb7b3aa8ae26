/**
 Model of the bounded latency-profiling log of gRPC's
 src/core/profiling/timers.c.

 A log owns a fixed-length array of timing entries and a count of the valid
 ones at its front. Appending to a full log first writes every buffered entry
 to the log's stream and resets the count, then records the new entry. The
 log's mutex only makes each operation atomic, so every operation here is one
 sequential step on an immutable value.
 */
module Timers {

  /** The C `int` type, used for the fields the source declares `int`. */
  newtype int32 = x: int | -0x8000_0000 <= x < 0x8000_0000

  /** A clock reading (`gpr_timespec`); the clock itself is not modelled. */
  datatype Timespec = Timespec(sec: int, nsec: int)

  /** One recorded event (`grpc_timer_entry`). The tag and file strings are
      held by value: their lifetime is the caller's concern in the source. */
  datatype Entry = Entry(timer: Timespec, tag: string, sequence: int32, file: string, line: int32)

  /** One cell of the backing array: uninitialised memory until an append
      writes it. A flush does not clear cells, it only resets the count. */
  datatype Slot = Unwritten | Written(entry: Entry)

  /** A log (`grpc_timers_log`).
      - `slots` is the backing array, of length `capacityLimit`;
      - `numEntries` counts the valid entries at the front of `slots`;
      - `fmt` is the record template handed to the stream (not interpreted);
      - `out` is every record this log has written to its stream, in the
        order written. */
  datatype TimersLog = TimersLog(
    slots: seq<Slot>,
    numEntries: nat,
    capacityLimit: int32,
    fmt: string,
    out: seq<Entry>)
  {
    /** The invariant every operation keeps: a positive capacity, an array
        of exactly that length, and a count within it whose cells hold
        entries. */
    ghost predicate Valid() {
      && 0 < capacityLimit
      && |slots| == capacityLimit as int
      && numEntries <= |slots|
      && forall i :: 0 <= i < numEntries ==> slots[i].Written?
    }

    /** The condition under which an append flushes first. */
    predicate IsFull()
      requires Valid()
    {
      numEntries == capacityLimit as int
    }

    /** The entries still waiting in the buffer, in index order. */
    function Buffered(): (b: seq<Entry>)
      requires Valid()
      ensures |b| == numEntries
      ensures forall i :: 0 <= i < numEntries ==> b[i] == slots[i].entry
    {
      seq(numEntries, i requires 0 <= i < numEntries => slots[i].entry)
    }
  }

  /** The capacity of the process-wide log. */
  const GlobalCapacity: int32 := 100000

  /** The template of the process-wide log: seconds, nanoseconds padded to
      nine digits, tag, sequence number, file and line, in that order. */
  const DefaultFormat: string := "TIMER %1$ld.%2$09d %3$s seq %4$d @ %5$s:%6$d\n"

  /** `grpc_timers_log_create`: an empty log of the given capacity. A zero
      capacity would make the first append write past the array, so the
      caller must pass a positive one. */
  function Create(capacityLimit: int32, fmt: string): (log: TimersLog)
    requires capacityLimit > 0
    ensures log.Valid()
    ensures log.numEntries == 0 && log.Buffered() == []
    ensures log.capacityLimit == capacityLimit && |log.slots| == capacityLimit as int
    ensures log.fmt == fmt
    ensures log.out == []
  {
    TimersLog(seq(capacityLimit as int, _ => Unwritten), 0, capacityLimit, fmt, [])
  }

  /** The loop of `log_report_locked`: writes the entries at indices
      `i .. numEntries-1` after `written`, one at a time in index order. */
  function WriteFrom(log: TimersLog, i: nat, written: seq<Entry>): (r: seq<Entry>)
    requires log.Valid() && i <= log.numEntries
    ensures r == written + log.Buffered()[i..]
    decreases log.numEntries - i
  {
    if i == log.numEntries then written
    else WriteFrom(log, i + 1, written + [log.slots[i].entry])
  }

  /** `log_report_locked`: the flush. Every buffered entry reaches the
      stream after what was already written, in index order, and the buffer
      is then empty. The array cells and the capacity are left alone. */
  function ReportLocked(log: TimersLog): (r: TimersLog)
    requires log.Valid()
    ensures r.Valid()
    ensures r.numEntries == 0 && r.Buffered() == []
    ensures r.out == log.out + log.Buffered()
    ensures r.slots == log.slots
    ensures r.capacityLimit == log.capacityLimit && r.fmt == log.fmt
  {
    log.(out := WriteFrom(log, 0, log.out), numEntries := 0)
  }

  /** `grpc_timers_log_add`: records one event. `now` is the clock reading
      the source takes once the new cell has been chosen, that is after any
      flush. */
  function Add(log: TimersLog, now: Timespec, tag: string, sequence: int32, file: string, line: int32): (r: TimersLog)
    requires log.Valid()
    ensures r.Valid()
    ensures r.capacityLimit == log.capacityLimit && r.fmt == log.fmt
    // Nothing is lost or duplicated: written plus buffered grows by exactly the new entry.
    ensures r.out + r.Buffered() == log.out + log.Buffered() + [Entry(now, tag, sequence, file, line)]
    // A log with room: the entry lands at index numEntries, nothing else moves, nothing is written.
    ensures !log.IsFull() ==>
      && r.numEntries == log.numEntries + 1
      && r.slots[log.numEntries] == Written(Entry(now, tag, sequence, file, line))
      && (forall i :: 0 <= i < |r.slots| && i != log.numEntries ==> r.slots[i] == log.slots[i])
      && r.out == log.out
    // A full log: everything buffered is written first, then the buffer holds only the new entry.
    ensures log.IsFull() ==>
      && r.out == log.out + log.Buffered()
      && r.numEntries == 1
      && r.Buffered() == [Entry(now, tag, sequence, file, line)]
  {
    var room := if log.IsFull() then ReportLocked(log) else log;
    room.(slots := room.slots[room.numEntries := Written(Entry(now, tag, sequence, file, line))],
          numEntries := room.numEntries + 1)
  }

  /** `grpc_timers_log_destroy`: the final flush. The result is everything
      the log has written to its stream over its lifetime; the array is
      released with the log. */
  function Destroy(log: TimersLog): (out: seq<Entry>)
    requires log.Valid()
    ensures out == log.out + log.Buffered()
  {
    ReportLocked(log).out
  }

  /** `grpc_timers_log_global_init`: the process-wide log, with capacity
      100000 and the default template. The source writes it to standard
      output; here the caller holds the value. */
  function GlobalInit(): (global: TimersLog)
    ensures global.Valid()
    ensures global.capacityLimit == 100000 && global.fmt == DefaultFormat
    ensures global.numEntries == 0 && global.out == []
  {
    Create(GlobalCapacity, DefaultFormat)
  }

  /** `grpc_timers_log_global_destroy`: destroys the process-wide log,
      writing out what it still buffers. */
  function GlobalDestroy(global: TimersLog): (out: seq<Entry>)
    requires global.Valid()
    ensures out == global.out + global.Buffered()
  {
    Destroy(global)
  }
}
