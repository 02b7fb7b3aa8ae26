/**
 Properties of a log over a whole run of appends: the capacity invariant,
 flushing only when exactly full, and that the stream ends up with every
 appended entry once, in append order.
 */
module TimersRuns {
  import opened Timers

  /** One append call, its arguments taken from an entry that carries the
      clock reading the call gets. */
  function AddEntry(log: TimersLog, e: Entry): (r: TimersLog)
    requires log.Valid()
    ensures r.Valid()
  {
    Add(log, e.timer, e.tag, e.sequence, e.file, e.line)
  }

  /** The log after appending `calls` in order. */
  function Run(log: TimersLog, calls: seq<Entry>): (r: TimersLog)
    requires log.Valid()
    ensures r.Valid()
    ensures r.capacityLimit == log.capacityLimit && r.fmt == log.fmt
    ensures |r.slots| == |log.slots|
    decreases |calls|
  {
    if calls == [] then log
    else AddEntry(Run(log, calls[..|calls| - 1]), calls[|calls| - 1])
  }

  /** How many of the appends in `calls` found the buffer full and flushed
      it before recording their entry. */
  function MidStreamFlushes(log: TimersLog, calls: seq<Entry>): nat
    requires log.Valid()
    decreases |calls|
  {
    if calls == [] then 0
    else
      var before := calls[..|calls| - 1];
      MidStreamFlushes(log, before) + (if Run(log, before).IsFull() then 1 else 0)
  }

  /** Conservation over a run: what has been written plus what is still
      buffered is what was there before followed by every appended entry,
      in append order. */
  lemma {:induction false} RunConserves(log: TimersLog, calls: seq<Entry>)
    requires log.Valid()
    ensures Run(log, calls).out + Run(log, calls).Buffered() == log.out + log.Buffered() + calls
    decreases |calls|
  {
    if calls != [] {
      var before := calls[..|calls| - 1];
      var e := calls[|calls| - 1];
      RunConserves(log, before);
      assert before + [e] == calls;
    }
  }

  /** No loss, no duplication, order kept: destroying a fresh log after any
      run of appends writes exactly the appended entries, in append order,
      whatever the capacity and however many flushes happened on the way. */
  lemma {:induction false} DestroyWritesEveryAppend(capacityLimit: int32, fmt: string, calls: seq<Entry>)
    requires capacityLimit > 0
    ensures Destroy(Run(Create(capacityLimit, fmt), calls)) == calls
  {
    var start := Create(capacityLimit, fmt);
    RunConserves(start, calls);
    var last := Run(start, calls);
    assert Destroy(last) == last.out + last.Buffered();
  }

  /** While the appends fit in the remaining room, no append flushes: the
      stream is untouched and the new entries queue up behind the old. */
  lemma {:induction false} RunWithinCapacity(log: TimersLog, calls: seq<Entry>)
    requires log.Valid()
    requires log.numEntries + |calls| <= log.capacityLimit as int
    ensures Run(log, calls).out == log.out
    ensures Run(log, calls).numEntries == log.numEntries + |calls|
    ensures Run(log, calls).Buffered() == log.Buffered() + calls
    ensures MidStreamFlushes(log, calls) == 0
    decreases |calls|
  {
    if calls != [] {
      var before := calls[..|calls| - 1];
      var e := calls[|calls| - 1];
      RunWithinCapacity(log, before);
      assert before + [e] == calls;
      var mid := Run(log, before);
      assert !mid.IsFull();
      assert mid.Buffered() + [e] == log.Buffered() + calls;
    }
  }

  /** Appending at most `capacityLimit` entries to a fresh log flushes
      nothing on the way, and destroying it then writes exactly those
      entries. */
  lemma {:induction false} NoFlushUpToCapacity(capacityLimit: int32, fmt: string, calls: seq<Entry>)
    requires capacityLimit > 0 && |calls| <= capacityLimit as int
    ensures MidStreamFlushes(Create(capacityLimit, fmt), calls) == 0
    ensures Run(Create(capacityLimit, fmt), calls).out == []
    ensures Run(Create(capacityLimit, fmt), calls).Buffered() == calls
    ensures Destroy(Run(Create(capacityLimit, fmt), calls)) == calls
  {
    var start := Create(capacityLimit, fmt);
    RunWithinCapacity(start, calls);
  }

  /** A positive multiple of a positive number is at least that number. */
  lemma MulSign(c: int, k: int)
    requires c > 0
    ensures k >= 1 ==> c * k >= c
    ensures k <= -1 ==> c * k <= -c
  {
  }

  /** Euclidean quotient and remainder are the only ones in range. */
  lemma {:induction false} DivModUnique(n: int, c: int, q: int, m: int)
    requires c > 0 && 0 <= m < c && n == c * q + m
    ensures n / c == q && n % c == m
  {
    var k := q - n / c;
    assert c * k == n % c - m;
    MulSign(c, k);
  }

  /** Euclidean division stepped by one: the quotient grows exactly when the
      old remainder was the last one before `c`. */
  lemma {:induction false} DivModStep(n: nat, c: nat)
    requires c > 0 && n >= 1
    ensures (n - 1) % c == c - 1 ==> n % c == 0 && n / c == (n - 1) / c + 1
    ensures (n - 1) % c != c - 1 ==> n % c == (n - 1) % c + 1 && n / c == (n - 1) / c
  {
    var q, m := (n - 1) / c, (n - 1) % c;
    assert n == c * q + m + 1;
    if m == c - 1 {
      DivModUnique(n, c, q + 1, 0);
    } else {
      DivModUnique(n, c, q, m + 1);
    }
  }

  /** After `n >= 1` appends to a fresh log of capacity `c`, exactly
      `(n-1)/c` of them flushed mid-stream and the buffer holds
      `(n-1) % c + 1` entries. */
  lemma {:induction false} FlushCount(capacityLimit: int32, fmt: string, calls: seq<Entry>)
    requires capacityLimit > 0 && |calls| >= 1
    ensures MidStreamFlushes(Create(capacityLimit, fmt), calls) == (|calls| - 1) / capacityLimit as int
    ensures Run(Create(capacityLimit, fmt), calls).numEntries == (|calls| - 1) % capacityLimit as int + 1
    decreases |calls|
  {
    var c, n := capacityLimit as int, |calls|;
    var start := Create(capacityLimit, fmt);
    var before := calls[..n - 1];
    var mid := Run(start, before);
    if n == 1 {
      assert before == [];
      assert mid == start;
    } else {
      FlushCount(capacityLimit, fmt, before);
      assert |before| == n - 1;
      DivModStep(n - 1, c);
      DivModStep(n, c);
      assert mid.IsFull() <==> (n - 2) % c == c - 1;
    }
  }

  /** After `n >= 1` appends to a fresh log of capacity `c`, the stream
      holds exactly the first `c * ((n-1)/c)` appended entries: every
      mid-stream flush wrote one full buffer, in append order. */
  lemma {:induction false} FlushedPrefix(capacityLimit: int32, fmt: string, calls: seq<Entry>)
    requires capacityLimit > 0 && |calls| >= 1
    ensures Run(Create(capacityLimit, fmt), calls).out <= calls
    ensures |Run(Create(capacityLimit, fmt), calls).out|
         == capacityLimit as int * ((|calls| - 1) / capacityLimit as int)
  {
    var c, n := capacityLimit as int, |calls|;
    var start := Create(capacityLimit, fmt);
    var last := Run(start, calls);
    var q, m := (n - 1) / c, (n - 1) % c;
    assert last.numEntries == m + 1 by {
      FlushCount(capacityLimit, fmt, calls);
    }
    assert last.out <= calls && |last.out| == n - last.numEntries by {
      RunConserves(start, calls);
      SplitAtBuffer(last, calls);
    }
    assert n - (m + 1) == c * q by {
      WholeBuffers(n, c);
    }
  }

  /** Once written plus buffered is the whole history, the written part is
      the history without its last `numEntries` entries. */
  lemma SplitAtBuffer(log: TimersLog, history: seq<Entry>)
    requires log.Valid() && log.out + log.Buffered() == history
    ensures log.out <= history
    ensures |log.out| == |history| - log.numEntries
  {
  }

  /** The entries not left in the buffer after `n` appends form whole
      buffers. */
  lemma WholeBuffers(n: int, c: int)
    requires c > 0 && n >= 1
    ensures n - ((n - 1) % c + 1) == c * ((n - 1) / c)
  {
  }
}
