/** The client's double-buffered message log: saveMessage appends lines to a
    write buffer and, when the next line would push it past kMaxBufferSize,
    hands the buffer to background writers by swapping it with the flush
    buffer; writers append the flush buffer to message.txt; the destructor
    stops and joins the writers and flushes what is left. The file is a
    ghost string of everything appended to it. */
module Logger {

  /** kMaxBufferSize: the threshold for handing the write buffer over. */
  const MaxBufferSize: nat := 1024

  /** The write buffer, the flush buffer and what was appended to the file. */
  datatype Buffers = Buffers(write: string, flush: string, file: string)

  const Empty: Buffers := Buffers([], [], [])

  /** The record saveMessage stores for a message. */
  function Line(m: string): (l: string)
    ensures |l| == |m| + 1 && l[..|m|] == m && l[|m|] == '\n'
  {
    m + "\n"
  }

  /** saveMessage swaps the buffers when the line would not fit. */
  predicate Swaps(b: Buffers, m: string)
  {
    |b.write| + |m| + 1 > MaxBufferSize
  }

  /** saveMessage as written: on a swap the old write buffer becomes the
      flush buffer and the write buffer (now the old flush buffer) is
      cleared; then the line is appended. */
  function Save(b: Buffers, m: string): Buffers
  {
    if Swaps(b, m) then b.(write := Line(m), flush := b.write)
    else b.(write := b.write + Line(m))
  }

  /** A writer woken with a non-empty flush buffer takes it and appends it to
      the file; with an empty one it goes back to waiting. */
  function Drain(b: Buffers): Buffers
  {
    if b.flush != [] then b.(file := b.file + b.flush, flush := []) else b
  }

  /** flushBuffer: when the write buffer is not empty, swap, append the flush
      buffer (the old write buffer) to the file, clear it. */
  function Flush(b: Buffers): Buffers
  {
    if b.write == [] then b else Buffers(b.flush, [], b.file + b.write)
  }

  /** The destructor: the writers stop, one of them possibly draining a last
      time (`lastDrain`) before all are joined, then the final flushBuffer. */
  function AfterShutdown(b: Buffers, lastDrain: bool): Buffers
  {
    Flush(if lastDrain then Drain(b) else b)
  }

  /** Nothing saved is lost and order is kept: file, then the flush buffer,
      then the write buffer, spell out every saved line in order. */
  predicate NoLoss(b: Buffers, saved: string)
  {
    b.file + b.flush + b.write == saved
  }

  // ---------------------------------------------------------------------------
  // saveMessage
  // ---------------------------------------------------------------------------

  /** After saveMessage(m) the write buffer ends with m and a newline. */
  lemma SaveEndsWithLine(b: Buffers, m: string)
    ensures var w := Save(b, m).write;
            |w| >= |m| + 1 && w[|w| - |m| - 1..] == Line(m)
  {
  }

  /** A swap moves the old write buffer to the flush buffer and restarts the
      write buffer with the line; without one the flush buffer is untouched
      and the line is appended. The file never changes. */
  lemma SaveCases(b: Buffers, m: string)
    ensures Swaps(b, m) ==> Save(b, m).flush == b.write && Save(b, m).write == Line(m)
    ensures !Swaps(b, m) ==> Save(b, m).flush == b.flush && Save(b, m).write == b.write + Line(m)
    ensures Save(b, m).file == b.file
  {
  }

  /** The write buffer never holds more than kMaxBufferSize characters, unless
      the one line just saved is longer than that by itself. */
  lemma SaveBound(b: Buffers, m: string)
    ensures |Save(b, m).write| <= if |m| + 1 > MaxBufferSize then |m| + 1 else MaxBufferSize
  {
  }

  /** saveMessage keeps every line when the flush buffer has been drained
      before the swap. */
  lemma SaveKeepsNoLoss(b: Buffers, saved: string, m: string)
    requires NoLoss(b, saved)
    requires Swaps(b, m) ==> b.flush == []
    ensures NoLoss(Save(b, m), saved + Line(m))
  {
    if Swaps(b, m) {
      assert b.file + b.write == saved;
    }
  }

  /** As written, a swap while the flush buffer still holds undrained lines
      discards them: what remains is the file, the old write buffer and the
      new line, which is shorter than what was saved. */
  lemma SaveDiscardsUndrained(b: Buffers, saved: string, m: string)
    requires NoLoss(b, saved)
    requires Swaps(b, m) && b.flush != []
    ensures var a := Save(b, m);
            a.file + a.flush + a.write == b.file + b.write + Line(m)
            && !NoLoss(a, saved + Line(m))
  {
    var a := Save(b, m);
    assert |a.file + a.flush + a.write| < |saved + Line(m)|;
  }

  // ---------------------------------------------------------------------------
  // The writer and flushBuffer
  // ---------------------------------------------------------------------------

  /** A drain appends the flush buffer to the file, empties it, and leaves the
      write buffer alone; it keeps every line. */
  lemma DrainSpec(b: Buffers, saved: string)
    ensures Drain(b).file == b.file + b.flush && Drain(b).flush == [] && Drain(b).write == b.write
    ensures NoLoss(b, saved) ==> NoLoss(Drain(b), saved)
  {
  }

  /** flushBuffer: with an empty write buffer nothing changes; otherwise the
      old write buffer is appended to the file, the flush buffer ends empty
      and the write buffer holds the old flush buffer. */
  lemma FlushSpec(b: Buffers)
    ensures b.write == [] ==> Flush(b) == b
    ensures b.write != [] ==> Flush(b) == Buffers(b.flush, [], b.file + b.write)
  {
  }

  /** Shutdown loses nothing when the flush buffer is empty at the final
      flush: the file then holds every saved line and both buffers are empty. */
  lemma ShutdownNoLoss(b: Buffers, saved: string, lastDrain: bool)
    requires NoLoss(b, saved)
    requires b.flush == [] || lastDrain
    ensures AfterShutdown(b, lastDrain) == Buffers([], [], saved)
  {
  }

  /** As written, when no writer drains a non-empty flush buffer before the
      join, the final flushBuffer leaves it behind in the write buffer and
      the file misses it. */
  lemma FlushStrandsUndrained(b: Buffers, saved: string)
    requires NoLoss(b, saved) && b.flush != []
    ensures AfterShutdown(b, false).file != saved
    ensures b.write != [] ==> AfterShutdown(b, false).write == b.flush
  {
    assert |AfterShutdown(b, false).file| < |saved|;
  }

  // ---------------------------------------------------------------------------
  // Whole histories
  // ---------------------------------------------------------------------------

  /** A saveMessage call or one drain by a writer, in the order the lock
      serialises them. */
  datatype Op = SaveOp(m: string) | DrainOp

  function Apply(b: Buffers, ops: seq<Op>): Buffers
    decreases |ops|
  {
    if ops == [] then b
    else Apply(if ops[0].SaveOp? then Save(b, ops[0].m) else Drain(b), ops[1..])
  }

  /** Every saved line, in call order. */
  function Saved(ops: seq<Op>): string
    decreases |ops|
  {
    if ops == [] then []
    else (if ops[0].SaveOp? then Line(ops[0].m) else []) + Saved(ops[1..])
  }

  /** Every swap along the history finds the flush buffer drained. */
  predicate DrainedBeforeSwaps(b: Buffers, ops: seq<Op>)
    decreases |ops|
  {
    ops == [] ||
    ((ops[0].SaveOp? && Swaps(b, ops[0].m) ==> b.flush == [])
     && DrainedBeforeSwaps(if ops[0].SaveOp? then Save(b, ops[0].m) else Drain(b), ops[1..]))
  }

  /** A history in which every swap finds the flush buffer drained loses
      nothing: the saved lines, in call order, are in the file and the buffers. */
  lemma {:induction false} HistoryNoLoss(b: Buffers, saved: string, ops: seq<Op>)
    requires NoLoss(b, saved) && DrainedBeforeSwaps(b, ops)
    ensures NoLoss(Apply(b, ops), saved + Saved(ops))
    decreases |ops|
  {
    if ops != [] {
      var next := if ops[0].SaveOp? then Save(b, ops[0].m) else Drain(b);
      var line := if ops[0].SaveOp? then Line(ops[0].m) else [];
      if ops[0].SaveOp? {
        SaveKeepsNoLoss(b, saved, ops[0].m);
      }
      assert NoLoss(next, saved + line);
      HistoryNoLoss(next, saved + line, ops[1..]);
      assert saved + line + Saved(ops[1..]) == saved + Saved(ops);
    }
  }

  /** Such a history followed by a shutdown in which the flush buffer is
      drained leaves exactly the saved lines, in call order, in the file. */
  lemma HistoryThenShutdown(ops: seq<Op>, lastDrain: bool)
    requires DrainedBeforeSwaps(Empty, ops)
    requires Apply(Empty, ops).flush == [] || lastDrain
    ensures AfterShutdown(Apply(Empty, ops), lastDrain).file == Saved(ops)
  {
    assert NoLoss(Empty, []);
    HistoryNoLoss(Empty, [], ops);
    assert [] + Saved(ops) == Saved(ops);
    ShutdownNoLoss(Apply(Empty, ops), Saved(ops), lastDrain);
  }

  // ---------------------------------------------------------------------------
  // The hand-over without loss
  // ---------------------------------------------------------------------------

  /** saveMessage with the hand-over appending the write buffer to whatever
      the flush buffer still holds, instead of swapping and clearing. */
  function SaveFixed(b: Buffers, m: string): Buffers
  {
    if Swaps(b, m) then b.(write := Line(m), flush := b.flush + b.write)
    else b.(write := b.write + Line(m))
  }

  /** flushBuffer writing both buffers, the flush buffer first. */
  function FlushFixed(b: Buffers): Buffers
  {
    Buffers([], [], b.file + b.flush + b.write)
  }

  function ApplyFixed(b: Buffers, ops: seq<Op>): Buffers
    decreases |ops|
  {
    if ops == [] then b
    else ApplyFixed(if ops[0].SaveOp? then SaveFixed(b, ops[0].m) else Drain(b), ops[1..])
  }

  /** With the fixed hand-over, saving keeps every line whatever the writers
      have done, and the write buffer obeys the same bound. */
  lemma FixedSaveKeepsNoLoss(b: Buffers, saved: string, m: string)
    requires NoLoss(b, saved)
    ensures NoLoss(SaveFixed(b, m), saved + Line(m))
    ensures |SaveFixed(b, m).write| <= if |m| + 1 > MaxBufferSize then |m| + 1 else MaxBufferSize
  {
  }

  /** With the fixed hand-over, every history of saves and drains keeps every
      saved line, in call order, in the file and the buffers, whether or not
      the worker drained before each swap. */
  lemma {:induction false} FixedHistoryNoLoss(b: Buffers, saved: string, ops: seq<Op>)
    requires NoLoss(b, saved)
    ensures NoLoss(ApplyFixed(b, ops), saved + Saved(ops))
    decreases |ops|
  {
    if ops != [] {
      var next := if ops[0].SaveOp? then SaveFixed(b, ops[0].m) else Drain(b);
      var line := if ops[0].SaveOp? then Line(ops[0].m) else [];
      if ops[0].SaveOp? {
        FixedSaveKeepsNoLoss(b, saved, ops[0].m);
      }
      assert NoLoss(next, saved + line);
      FixedHistoryNoLoss(next, saved + line, ops[1..]);
      assert saved + line + Saved(ops[1..]) == saved + Saved(ops);
    }
  }

  /** With both fixes, any history followed by the final flush leaves
      exactly the saved lines, in call order, in the file. */
  lemma FixedHistoryThenFlush(ops: seq<Op>)
    ensures FlushFixed(ApplyFixed(Empty, ops)).file == Saved(ops)
  {
    assert NoLoss(Empty, []);
    FixedHistoryNoLoss(Empty, [], ops);
    assert [] + Saved(ops) == Saved(ops);
  }

  // ---------------------------------------------------------------------------
  // Two writers appending outside the lock
  // ---------------------------------------------------------------------------

  /** What each of the two writers has taken out of the flush buffer under
      the lock and not yet appended to the file. */
  datatype Taken = Taken(first: string, second: string)

  /** writeThread under the lock: move a non-empty flush buffer into the
      writer's own string. */
  function Take(b: Buffers, t: Taken, first: bool): (Buffers, Taken)
  {
    if b.flush == [] then (b, t)
    else if first then (b.(flush := []), t.(first := t.first + b.flush))
    else (b.(flush := []), t.(second := t.second + b.flush))
  }

  /** writeThread after `lock.unlock()`: append what it took to the file. */
  function Append(b: Buffers, t: Taken, first: bool): (Buffers, Taken)
  {
    if first then (b.(file := b.file + t.first), t.(first := []))
    else (b.(file := b.file + t.second), t.(second := []))
  }

  /** As written, the two writers can append in the opposite order to the one
      they took in: a 1023-character line A, a line B of the same length that
      swaps A out, the first writer takes A, a short line C swaps B out, the
      second writer takes B and appends it before the first appends A. Every
      swap finds the flush buffer drained, yet the file holds B before A. */
  lemma AppendOutsideLockReorders()
    ensures var a := seq(1023, i => 'a');
            var bb := seq(1023, i => 'b');
            var s1 := Save(Save(Empty, a), bb);
            var (s2, t2) := Take(s1, Taken([], []), true);
            var s3 := Save(s2, "c");
            var (s4, t4) := Take(s3, t2, false);
            var (s5, t5) := Append(s4, t4, false);
            var (s6, t6) := Append(s5, t5, true);
            && Swaps(Save(Empty, a), bb) && s1.flush == Line(a)
            && Swaps(s2, "c") && s2.flush == []
            && s6.file == Line(bb) + Line(a)
            && s6.file[0] != (Line(a) + Line(bb) + Line("c"))[0]
  {
    var a := seq(1023, i => 'a');
    var bb := seq(1023, i => 'b');
    assert Save(Empty, a) == Buffers(Line(a), [], []);
    var s1 := Save(Save(Empty, a), bb);
    assert s1 == Buffers(Line(bb), Line(a), []);
    var (s2, t2) := Take(s1, Taken([], []), true);
    assert s2 == Buffers(Line(bb), [], []) && t2 == Taken(Line(a), []);
    var s3 := Save(s2, "c");
    assert s3 == Buffers(Line("c"), Line(bb), []);
    var (s4, t4) := Take(s3, t2, false);
    assert t4 == Taken(Line(a), Line(bb));
    var (s5, t5) := Append(s4, t4, false);
    var (s6, t6) := Append(s5, t5, true);
    assert s6.file == Line(bb) + Line(a);
    assert Line(bb)[0] == 'b' && (Line(a) + Line(bb) + Line("c"))[0] == 'a';
  }

  // ---------------------------------------------------------------------------
  // The logger object
  // ---------------------------------------------------------------------------

  /** MessageLogger: the two buffers, the running flag its writers poll, and
      (as ghosts) the file contents and every line saved so far. */
  class MessageLogger {
    var writeBuffer: string
    var flushBuffer: string
    var running: bool
    ghost var file: string
    ghost var saved: string

    ghost function State(): Buffers
      reads this
    {
      Buffers(writeBuffer, flushBuffer, file)
    }

    /** Every saved line is in the file or in one of the buffers, in order. */
    ghost predicate Intact()
      reads this
    {
      NoLoss(State(), saved)
    }

    constructor ()
      ensures State() == Empty && saved == [] && running
      ensures Intact()
    {
      writeBuffer, flushBuffer, running := [], [], true;
      file, saved := [], [];
    }

    method SaveMessage(m: string)
      modifies this`writeBuffer, this`flushBuffer, this`saved
      ensures State() == Save(old(State()), m)
      ensures saved == old(saved) + Line(m)
      ensures old(Intact()) && (old(Swaps(State(), m)) ==> old(flushBuffer) == []) ==> Intact()
    {
      if |writeBuffer| + |m| + 1 > MaxBufferSize {
        writeBuffer, flushBuffer := flushBuffer, writeBuffer;   // std::swap, then notify_one
        writeBuffer := [];
      }
      writeBuffer := writeBuffer + m + "\n";
      saved := saved + Line(m);
      if old(Intact()) && (old(Swaps(State(), m)) ==> old(flushBuffer) == []) {
        SaveKeepsNoLoss(old(State()), old(saved), m);
      }
    }

    /** One pass of writeThread after it wakes up. */
    method WorkerDrain()
      modifies this`flushBuffer, this`file
      ensures State() == Drain(old(State()))
      ensures old(Intact()) ==> Intact()
    {
      if flushBuffer != [] {
        var toWrite := flushBuffer;
        flushBuffer := [];
        file := file + toWrite;
      }
    }

    method FlushBuffer()
      modifies this`writeBuffer, this`flushBuffer, this`file
      ensures State() == Flush(old(State()))
    {
      if writeBuffer != [] {
        writeBuffer, flushBuffer := flushBuffer, writeBuffer;
        file := file + flushBuffer;
        flushBuffer := [];
      }
    }

    /** The destructor: running_ = false, notify_all, join the writers (one
        may drain first: `lastDrain`), then flushBuffer. */
    method Shutdown(lastDrain: bool)
      modifies this
      ensures !running && saved == old(saved)
      ensures State() == AfterShutdown(old(State()), lastDrain)
      ensures old(Intact()) && (old(flushBuffer) == [] || lastDrain) ==> file == saved
    {
      running := false;
      if lastDrain {
        WorkerDrain();
      }
      FlushBuffer();
      if old(Intact()) && (old(flushBuffer) == [] || lastDrain) {
        ShutdownNoLoss(old(State()), saved, lastDrain);
      }
    }
  }
}
