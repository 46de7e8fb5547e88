/** Runs of the Cascade output ring: how they are put together, and some that reach what its results allow for. */
module RowRuns {
  import opened Arithmetic
  import opened Words
  import opened RingIndex
  import opened Slots
  import opened RowRing

  // ----- putting runs together -----

  lemma {:induction false} RunAppend(s: Ring, a: seq<Event>, b: seq<Event>)
    requires Shape(s)
    ensures Run(s, a + b) == Run(Run(s, a), b)
  {
    hide Apply;
    if b == [] {
      assert a + b == a;
    } else {
      var c, e := b[..|b| - 1], b[|b| - 1];
      assert (a + b)[..|a + b| - 1] == a + c;
      RunAppend(s, a, c);
    }
  }

  lemma RunOneMore(s: Ring, events: seq<Event>, e: Event)
    requires Shape(s)
    ensures Run(s, events + [e]) == Apply(Run(s, events), e)
  {
    assert (events + [e])[..|events|] == events;
  }

  lemma RunNone(s: Ring)
    requires Inv(s)
    ensures Shape(s) && Run(s, []) == s
  {
  }

  // ----- effects of single steps -----

  lemma StartEffect(s: Ring, ok: bool)
    requires Inv(s) && s.job == Resting && s.queued > 0
    ensures Apply(s, StartJob(ok)) == if ok then s.(queued := s.queued - 1, job := Decoding(s.r, 0, []))
                                      else s.(queued := s.queued - 1, dropped := s.dropped + 1)
  {
  }

  lemma RowEffect(s: Ring)
    requires Inv(s) && s.job.Decoding?
    ensures Shape(s) && s.job.row < s.h && s.job.from + s.job.row < Rows(s) && Apply(s, DecodeRow) == Decoded(s)
    ensures 0 <= (s.job.from + s.job.row) * s.size <= (s.job.from + s.job.row + 1) * s.size <= |s.data|
    ensures (s.job.from + s.job.row + 1) * s.size == (s.job.from + s.job.row) * s.size + s.size
  {
    LinearIsWrapped(s);
    RowBelow(s);
    SlotBounds(s.job.from + s.job.row, Rows(s), s.size);
    hide DataOk, DecodedOk, FillOk, ReportOk, Decoded;
  }

  lemma LastDecoded(s: Ring)
    requires Inv(s)
    ensures forall k :: 0 <= k < |s.decoded| ==>
                          s.decoded[k] == SlotAt(s.link, k, s.h * s.size) && |s.decoded[k]| == s.h * s.size
  {
  }

  lemma RunTwo(s: Ring, d: Event, e: Event)
    requires Shape(s)
    ensures Run(s, [d, e]) == Apply(Apply(s, d), e)
  {
    hide Apply;
    assert [d, e][..1] == [d] && [d][..0] == [];
    assert Run(s, [d]) == Apply(s, d);
  }

  lemma LookEffect(s: Ring)
    requires Inv(s) && s.fill == Idle && s.written + 1 < s.read + Rows(s)
    ensures Shape(s) && Apply(s, Look) == s.(fill := Looked)
  {
    Room(s);
    hide DataOk, DecodedOk;
  }

  lemma SettleEffect(s: Ring)
    requires Inv(s) && s.fill.Reading? && !s.fill.first && s.fill.got % s.size == 0
    ensures Shape(s) && Apply(s, Settle) == s.(fill := if s.fill.got == 0 then Idle else Moving(s.fill.got / s.size))
  {
  }

  lemma MoveEffect(s: Ring)
    requires Inv(s) && s.fill.Moving? && s.fill.left > 0
    ensures Shape(s)
    ensures Apply(s, MoveRow) == s.(fill := Moving(s.fill.left - 1), w := Next(s.w, Rows(s)), written := s.written + 1)
  {
  }

  lemma ReportEffect(s: Ring)
    requires Inv(s) && s.fill == Moving(0)
    ensures Shape(s) && s.reported <= s.written && Unreported(s) == s.written - s.reported
    ensures Apply(s, MoveRow) == s.(fill := Reporting(Unreported(s) / s.h), missed := false)
  {
    hide DataOk, DecodedOk, JobsOk;
    Compare(s.reported, s.written, Rows(s));
  }

  lemma QueueEffect(s: Ring, ok: bool)
    requires Inv(s) && s.fill.Reporting?
    ensures Shape(s)
    ensures Apply(s, Queue(ok)) == if s.fill.left == 0 then s.(fill := Idle)
                                   else if !ok then s.(fill := Idle, missed := true)
                                   else s.(fill := Queued(s.fill.left), queued := s.queued + 1)
  {
  }

  lemma MoveReportEffect(s: Ring)
    requires Inv(s) && s.fill.Queued? && s.fill.left > 0
    ensures Shape(s)
    ensures Apply(s, MoveReport) == s.(fill := Reporting(s.fill.left - 1), reported := s.reported + s.h,
                                       p := if s.p + s.h == Rows(s) then 0 else s.p + s.h)
  {
    ReportFits(s);
    hide DataOk, DecodedOk, FillOk;
  }

  lemma ReadEffect(s: Ring, bytes: seq<uint8>)
    requires Inv(s) && s.fill.Reading? && |bytes| <= Asked(s.size, s.fill)
    ensures InRange(s, |bytes|) && 0 <= s.w * s.size && s.w * s.size + s.fill.got + |bytes| <= |s.data|
    ensures Shape(s) && Apply(s, Read(bytes)) == Received(s, bytes)
  {
    ReadInRange(s, |bytes|);
    hide DataOk, DecodedOk, PointersOk, JobsOk;
  }

  lemma CountEffect(s: Ring)
    requires Inv(s) && s.fill == Looked
    ensures Shape(s) && FreeRun(s) > 0 && Apply(s, Count) == s.(fill := Reading(FreeRun(s), 0, true))
  {
    Room(s);
    hide DataOk, DecodedOk;
  }

  // ----- stretches of steps -----

  /** What is asked for while a row that broke off at `got` bytes is topped up by `extra`. */
  lemma AskedAfter(size: nat, run: nat, got: nat, extra: nat)
    requires size > 0 && got % size != 0 && extra <= size - got % size
    ensures Asked(size, Reading(run, got + extra, false)) == size - got % size - extra
    ensures (got + extra) % size == 0 <==> extra == size - got % size
  {
    var q, m := got / size, got % size;
    assert got == q * size + m;
    if extra < size - m {
      ModOf(q, size, m + extra);
    } else {
      Distribute(q, 1, size);
      ModOf(q + 1, size, 0);
    }
  }

  /** One step in front of a run. */
  lemma RunAfter(s: Ring, e: Event, rest: seq<Event>)
    requires Inv(s)
    ensures Shape(s) && Inv(Apply(s, e)) && Run(s, [e] + rest) == Run(Apply(s, e), rest)
  {
    RunNone(s);
    ApplyKeepsInv(s, e);
    hide Inv, Apply, Run;
    RunOneMore(s, [], e);
    assert [] + [e] == [e];
    RunAppend(s, [e], rest);
  }

  lemma {:induction false} MoveAll(s: Ring) returns (events: seq<Event>)
    requires Inv(s) && s.fill.Moving?
    ensures Shape(s)
    ensures Run(s, events) == s.(fill := Moving(0), w := Run(s, events).w, written := s.written + s.fill.left)
    decreases s.fill.left
  {
    hide Inv, Apply, Run;
    events := [];
    RunNone(s);
    if s.fill.left > 0 {
      MoveEffect(s);
      RunAfter(s, MoveRow, []);
      var rest := MoveAll(Apply(s, MoveRow));
      RunAfter(s, MoveRow, rest);
      events := [MoveRow] + rest;
    }
  }

  lemma {:induction false} QueueAll(s: Ring) returns (events: seq<Event>)
    requires Inv(s) && s.fill.Reporting?
    ensures Shape(s)
    ensures var t := Run(s, events);
            t == s.(fill := Reporting(0), queued := s.queued + s.fill.left, reported := t.reported, p := t.p)
    decreases s.fill.left
  {
    hide Inv, Apply, Run;
    events := [];
    RunNone(s);
    if s.fill.left > 0 {
      QueueEffect(s, true);
      RunAfter(s, Queue(true), []);
      var m := Apply(s, Queue(true));
      MoveReportEffect(m);
      RunAfter(m, MoveReport, []);
      var rest := QueueAll(Apply(m, MoveReport));
      RunAfter(m, MoveReport, rest);
      RunAfter(s, Queue(true), [MoveReport] + rest);
      events := [Queue(true)] + ([MoveReport] + rest);
    }
  }

  lemma {:induction false} DropAll(s: Ring) returns (events: seq<Event>)
    requires Inv(s) && s.job == Resting
    ensures Shape(s) && Run(s, events) == s.(queued := 0, dropped := s.dropped + s.queued)
    decreases s.queued
  {
    hide Inv, Apply, Run;
    events := [];
    RunNone(s);
    if s.queued > 0 {
      StartEffect(s, false);
      RunAfter(s, StartJob(false), []);
      var rest := DropAll(Apply(s, StartJob(false)));
      RunAfter(s, StartJob(false), rest);
      events := [StartJob(false)] + rest;
    }
  }

  lemma {:induction false} DecodeAll(s: Ring) returns (events: seq<Event>)
    requires Inv(s) && s.job.Decoding?
    ensures Shape(s)
    ensures var t := Run(s, events);
            && |t.decoded| == |s.decoded| + 1
            && t == s.(job := Resting, r := t.r, read := s.read + s.h - s.job.row, decoded := t.decoded)
    decreases s.h - s.job.row
  {
    hide Inv, Apply, Run;
    RowEffect(s);
    RunAfter(s, DecodeRow, []);
    RunNone(Apply(s, DecodeRow));
    events := [DecodeRow] + [];
    if s.job.row + 1 < s.h {
      var rest := DecodeAll(Apply(s, DecodeRow));
      RunAfter(s, DecodeRow, rest);
      events := [DecodeRow] + rest;
    }
  }

  /** From the start, as many rows as the ring takes arrive in one transfer. */
  lemma ReceiveRows(s: Ring, rows: nat) returns (events: seq<Event>)
    requires Start(s) && 1 <= rows < Rows(s)
    ensures Shape(s)
    ensures var t := Run(s, events);
            Inv(t) && t == s.(fill := Moving(rows), data := t.data, link := t.link)
  {
    StartInv(s);
    hide Inv, Apply, Run;
    LookEffect(s);
    RunAfter(s, Look, []);
    var looked := Apply(s, Look);
    CountEffect(looked);
    RunAfter(looked, Count, []);
    var begun := Apply(looked, Count);
    var bytes := WholeRows(s.size, rows, 4 * s.h - 1);
    hide Asked;
    ReadEffect(begun, bytes);
    RunAfter(begun, Read(bytes), []);
    var full := Apply(begun, Read(bytes));
    SettleEffect(full);
    RunAfter(full, Settle, []);
    RunNone(Apply(full, Settle));
    RunAfter(begun, Read(bytes), [Settle] + []);
    RunAfter(looked, Count, [Read(bytes)] + ([Settle] + []));
    RunAfter(s, Look, [Count] + ([Read(bytes)] + ([Settle] + [])));
    events := [Look] + ([Count] + ([Read(bytes)] + ([Settle] + [])));
  }

  /** The rows received are written, and frames are about to be reported. */
  lemma MoveAndReport(s: Ring) returns (events: seq<Event>)
    requires Inv(s) && s.fill.Moving?
    ensures Shape(s) && s.h > 0 && s.reported <= s.written
    ensures var t := Run(s, events);
            var rows := s.written + s.fill.left;
            t == s.(fill := Reporting(Whole(rows - s.reported, s.h)), w := t.w, written := rows, missed := false)
  {
    events := MoveAll(s);
    RunKeepsInv(s, events);
    hide Inv, Apply, Run, Shape;
    var moved := Run(s, events);
    ReportEffect(s.(fill := Moving(0), w := moved.w, written := moved.written));
    RunOneMore(s, events, MoveRow);
    events := events + [MoveRow];
  }

  /** And they are about to be reported. */
  lemma ReadRows(s: Ring, rows: nat) returns (events: seq<Event>)
    requires Start(s) && 1 <= rows < Rows(s)
    ensures Shape(s)
    ensures var t := Run(s, events);
            t == s.(fill := Reporting(rows / s.h), data := t.data, link := t.link, w := t.w, written := rows)
  {
    var before := ReceiveRows(s, rows);
    hide Inv, Apply, Run, Shape;
    var rest := MoveAndReport(Run(s, before));
    RunAppend(s, before, rest);
    events := before + rest;
  }

  lemma WholeRows(size: nat, rows: nat, run: nat) returns (bytes: seq<uint8>)
    requires size > 0 && 1 <= rows <= run
    ensures |bytes| == rows * size > 0
    ensures |bytes| <= Asked(size, Reading(run, 0, true))
    ensures |bytes| % size == 0 && |bytes| / size == rows
  {
    Monotone(0, rows, size);
    Monotone(rows, run, size);
    bytes := seq(rows * size, _ => 0);
    ModOf(rows, size, 0);
    WholeFrames(rows, size);
  }

  /** The same with whole frames. */
  lemma ReadFrames(s: Ring, k: nat) returns (events: seq<Event>)
    requires Start(s) && 1 <= k <= 3
    ensures Shape(s)
    ensures var t := Run(s, events);
            t == s.(fill := Reporting(k), data := t.data, link := t.link, w := t.w, written := k * s.h)
  {
    Monotone(0, k, s.h);
    Monotone(k, 4, s.h);
    WholeFrames(k, s.h);
    hide Run, Shape;
    events := ReadRows(s, k * s.h);
  }

  lemma WholeFrames(k: nat, h: nat)
    requires h > 0
    ensures k * h / h == k
  {
    var q := k * h / h;
    assert k * h == q * h + k * h % h;
    Monotone(q, k, h);
    Monotone(k, q, h);
  }

  // ----- what can happen -----

  /** One frame has arrived and its job is queued; the report pointer has not moved. */
  lemma QueueFirst(s: Ring) returns (events: seq<Event>)
    requires Start(s)
    ensures Shape(s)
    ensures var t := Run(s, events);
            && Inv(t)
            && t == s.(fill := Queued(1), data := t.data, link := t.link, w := t.w, written := s.h, queued := 1)
  {
    var before := ReadFrames(s, 1);
    StartInv(s);
    RunKeepsInv(s, before);
    hide Inv, Apply, Run;
    QueueEffect(Run(s, before), true);
    RunOneMore(s, before, Queue(true));
    events := before + [Queue(true)];
    RunKeepsInv(s, events);
  }

  /** The equation on unfinished jobs fails: a job is queued and done before the report pointer has moved. */
  lemma JobOvertakesReport(s: Ring) returns (events: seq<Event>)
    requires Start(s)
    ensures var t := Run(s, events);
            t.read > t.reported && t.dropped == 0 && Unfinished(t) == 0 && Distance(t) == 3 * t.h
  {
    var before := QueueFirst(s);
    var rest := FinishFirst(Run(s, before));
    hide Inv, Run, Distance;
    RunAppend(s, before, rest);
    events := before + rest;
  }

  lemma FinishFirst(s: Ring) returns (events: seq<Event>)
    requires Inv(s) && s.fill == Queued(1) && s.queued == 1 && s.job == Resting && s.reported == 0 && s.dropped == 0
    ensures Shape(s)
    ensures var t := Run(s, events);
            t.read > t.reported && t.dropped == 0 && Unfinished(t) == 0 && Distance(t) == 3 * t.h
  {
    hide Inv, Apply, Run;
    StartEffect(s, true);
    RunAfter(s, StartJob(true), []);
    var rest := DecodeAll(Apply(s, StartJob(true)));
    RunAfter(s, StartJob(true), rest);
    events := [StartJob(true)] + rest;
    RunKeepsInv(s, events);
    DistanceHere(Run(s, events));
  }

  /** And it holds by accident when the job just queued is the one dropped so far. */
  lemma DropInTheGap(s: Ring) returns (events: seq<Event>)
    requires Start(s)
    ensures var t := Run(s, events);
            t.fill.Queued? && t.dropped == 1 && Distance(t) == Unfinished(t) * t.h - Consumed(t)
  {
    var before := QueueFirst(s);
    hide Inv, Apply, Run;
    StartEffect(Run(s, before), false);
    RunOneMore(s, before, StartJob(false));
    events := before + [StartJob(false)];
    StartInv(s);
    RunKeepsInv(s, events);
    DistanceHere(Run(s, events));
  }

  /** Three jobs in a row find no memory. */
  lemma ThreeDropsHappen(s: Ring) returns (events: seq<Event>)
    requires Start(s)
    ensures Run(s, events).dropped == 3
  {
    var before := ReadFrames(s, 3);
    StartInv(s);
    RunKeepsInv(s, before);
    hide Inv, Apply, Run;
    var ready := Run(s, before);
    var queue := QueueAll(ready);
    RunKeepsInv(ready, queue);
    var drop := DropAll(Run(ready, queue));
    RunAppend(ready, queue, drop);
    RunAppend(s, before, queue + drop);
    events := before + (queue + drop);
  }
}
