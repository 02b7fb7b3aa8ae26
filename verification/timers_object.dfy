/**
 The log as the source lays it out: one heap object holding a fixed-length
 array allocated at creation and never replaced, a 32-bit count, and the
 stream it writes to. Each method is one locked region of the source and is
 proved to take the same step as the value-level model in module Timers.
 */
module TimersObject {
  import opened Timers

  class TimersLogObject {
    /** The backing array; `const`, so the buffer never grows or moves. */
    const log: array<Slot>
    var numEntries: int32
    const capacityLimit: int32
    const fmt: string
    /** Every record written to the log's stream so far, in order. */
    var out: seq<Entry>

    ghost predicate Valid()
      reads this, log
    {
      && 0 < capacityLimit
      && log.Length == capacityLimit as int
      && 0 <= numEntries <= capacityLimit
      && forall i :: 0 <= i < numEntries as int ==> log[i].Written?
    }

    /** The value this object stands for. */
    ghost function Model(): (m: TimersLog)
      reads this, log
      requires Valid()
      ensures m.Valid()
    {
      TimersLog(log[..], numEntries as nat, capacityLimit, fmt, out)
    }

    /** `grpc_timers_log_create`. */
    constructor Create(capacityLimit: int32, fmt: string)
      requires capacityLimit > 0
      ensures Valid() && fresh(log)
      ensures Model() == Timers.Create(capacityLimit, fmt)
    {
      this.log := new Slot[capacityLimit as int](_ => Unwritten);
      this.numEntries := 0;
      this.capacityLimit := capacityLimit;
      this.fmt := fmt;
      this.out := [];
      new;
      assert log[..] == seq(capacityLimit as int, _ => Unwritten);
    }

    /** `log_report_locked`: writes cells `0 .. numEntries-1` in index
        order, then resets the count. */
    method ReportLocked()
      requires Valid()
      modifies this
      ensures Valid()
      ensures Model() == Timers.ReportLocked(old(Model()))
    {
      ghost var before := Model();
      var i: int32 := 0;
      while i < numEntries
        invariant 0 <= i <= numEntries
        invariant numEntries == before.numEntries as int32
        invariant Valid() && log[..] == before.slots
        invariant out == before.out + before.Buffered()[..i]
        decreases numEntries - i
      {
        assert before.Buffered()[..i + 1] == before.Buffered()[..i] + [log[i].entry];
        out := out + [log[i].entry];
        i := i + 1;
      }
      assert before.Buffered()[..i] == before.Buffered();
      numEntries := 0;
    }

    /** `grpc_timers_log_add`: flushes a full buffer, then records the
        event in the next cell. The count cannot overflow: it is below the
        capacity, itself a 32-bit value, before the increment. */
    method Add(now: Timespec, tag: string, sequence: int32, file: string, line: int32)
      requires Valid()
      modifies this, log
      ensures Valid()
      ensures Model() == Timers.Add(old(Model()), now, tag, sequence, file, line)
    {
      if numEntries == capacityLimit {
        ReportLocked();
      }
      log[numEntries] := Written(Entry(now, tag, sequence, file, line));
      numEntries := numEntries + 1;
    }

    /** `grpc_timers_log_destroy`: the final flush; `written` is everything
        the stream received from this log. */
    method Destroy() returns (written: seq<Entry>)
      requires Valid()
      modifies this
      ensures written == Timers.Destroy(old(Model()))
    {
      ReportLocked();
      written := out;
    }
  }
}
