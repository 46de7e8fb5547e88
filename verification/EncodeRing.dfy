/** The Cascade input ring: a job encodes a frame row by row at a linear offset, the worker writes rows to the link. */
module EncodeRing {
  import opened Arithmetic
  import opened Words
  import opened RingIndex
  import FrameRing

  type Row = seq<uint8>

  // ----- state -----

  /** The encode job: `row` rows of `frame` done, the next goes to linear row `offset`; `Outside` has left the ring. */
  datatype Job = Resting | Encoding(frame: seq<Row>, row: nat, offset: nat) | Outside

  /**
   The worker: `Looked` has found rows, `Sending` has written `sent` bytes of `run` rows, `Advancing` has `left` pointer
   increments to do, `Stuck` has returned with the lock held.
   */
  datatype Worker = Idle | Looked | Sending(run: nat, sent: nat) | Advancing(left: nat) | Stuck

  /** Ring of four frames of h rows; as history the frames begun, rows written, bytes taken by the link, rows freed. */
  datatype Ring = Ring(h: nat, slots: seq<Row>, w: nat, r: nat, job: Job, worker: Worker,
                       frames: seq<seq<Row>>, written: seq<Row>, taken: seq<uint8>, freed: nat)

  ghost predicate Shape(s: Ring) {
    && s.h > 0 && |s.slots| == Rows(s) && s.w < Rows(s) && s.r < Rows(s)
    && (s.worker.Sending? ==> s.r + s.worker.run <= Rows(s))
  }

  function Rows(s: Ring): nat { 4 * s.h }

  datatype Event = Begin(frame: seq<Row>) | EncodeRow | Look | Offer | Write(k: nat) | Finish | Free

  /** The bytes of the rows being written, back to back in memory. */
  function Offered(s: Ring): seq<uint8>
    requires s.worker.Sending? && s.r + s.worker.run <= |s.slots|
  {
    FrameRing.Concat(s.slots[s.r..s.r + s.worker.run])
  }

  /** One atomic step; a step that is not at its turn changes nothing. */
  ghost function Apply(s: Ring, e: Event): (t: Ring)
    requires Shape(s)
    ensures Shape(t) && t.h == s.h
  {
    match e
    case Begin(frame) =>
      if s.job.Resting? && |frame| == s.h then s.(job := Encoding(frame, 0, s.w), frames := s.frames + [frame]) else s
    case EncodeRow =>
      if !s.job.Encoding? || s.job.row >= |s.job.frame| || (s.w + 1) % Rows(s) == s.r then s
      else if s.job.offset >= Rows(s) then s.(job := Outside)
      else
        s.(slots := s.slots[s.job.offset := s.job.frame[s.job.row]],
           w := Next(s.w, Rows(s)), written := s.written + [s.job.frame[s.job.row]],
           job := if s.job.row + 1 >= s.h then Resting else s.job.(row := s.job.row + 1, offset := s.job.offset + 1))
    case Look => if s.worker.Idle? && s.w != s.r then s.(worker := Looked) else s
    case Offer =>
      if !s.worker.Looked? then s
      else if s.w == s.r then s.(worker := Stuck)
      else s.(worker := Sending(if s.w > s.r then s.w - s.r else Rows(s) - s.r, 0))
    case Write(k) =>
      if s.worker.Sending? && s.worker.sent + k <= |Offered(s)|
      then s.(worker := s.worker.(sent := s.worker.sent + k),
              taken := s.taken + Offered(s)[s.worker.sent..s.worker.sent + k])
      else s
    case Finish =>
      if s.worker.Sending? && s.worker.sent == |Offered(s)| then s.(worker := Advancing(s.worker.run)) else s
    case Free =>
      if s.worker.Advancing? && s.worker.left > 0
      then s.(worker := if s.worker.left == 1 then Idle else Advancing(s.worker.left - 1),
              r := Next(s.r, Rows(s)), freed := s.freed + 1)
      else s
  }

  ghost function Run(s: Ring, events: seq<Event>): (t: Ring)
    requires Shape(s)
    ensures Shape(t) && t.h == s.h
  {
    if events == [] then s else Apply(Run(s, events[..|events| - 1]), events[|events| - 1])
  }

  ghost predicate Start(s: Ring) {
    && Shape(s) && s.w == 0 && s.r == 0 && s.job == Resting && s.worker == Idle
    && s.frames == [] && s.written == [] && s.taken == [] && s.freed == 0
  }

  // ----- invariant -----

  /** The rows of all frames, one after the other. */
  function AllRows(frames: seq<seq<Row>>): seq<Row> {
    if frames == [] then [] else AllRows(frames[..|frames| - 1]) + frames[|frames| - 1]
  }

  ghost predicate PointersOk(s: Ring)
    requires Shape(s)
  {
    && s.freed <= |s.written| < s.freed + Rows(s)
    && s.w == |s.written| % Rows(s) && s.r == s.freed % Rows(s)
    && (s.worker.Sending? ==> s.worker.run > 0 && s.freed + s.worker.run <= |s.written|)
    && (s.worker.Advancing? ==> s.worker.left > 0 && s.freed + s.worker.left <= |s.written|)
  }

  /** Frames begun before the one being encoded. */
  function Finished(s: Ring): nat { if s.job.Encoding? && s.frames != [] then |s.frames| - 1 else |s.frames| }

  ghost predicate JobOk(s: Ring)
    requires Shape(s)
  {
    && !s.job.Outside?
    && (forall k :: 0 <= k < |s.frames| ==> |s.frames[k]| == s.h)
    && (s.job.Encoding? ==> s.frames != [] && s.job.frame == s.frames[|s.frames| - 1] && s.job.row < s.h
                            && s.job.offset == Finished(s) * s.h % Rows(s) + s.job.row)
    && |s.written| == Finished(s) * s.h + (if s.job.Encoding? then s.job.row else 0)
    && s.written == AllRows(s.frames[..Finished(s)]) + (if s.job.Encoding? then s.job.frame[..s.job.row] else [])
  }

  ghost predicate DataOk(s: Ring)
    requires Shape(s) && PointersOk(s)
  {
    forall j :: s.freed <= j < |s.written| ==> s.slots[j % Rows(s)] == s.written[j]
  }

  ghost predicate TakenOk(s: Ring)
    requires Shape(s) && PointersOk(s)
  {
    match s.worker
    case Idle => s.taken == FrameRing.Concat(s.written[..s.freed])
    case Looked => s.freed < |s.written| && s.taken == FrameRing.Concat(s.written[..s.freed])
    case Sending(run, sent) =>
      var due := FrameRing.Concat(s.written[s.freed..s.freed + run]);
      sent <= |due| && s.taken == FrameRing.Concat(s.written[..s.freed]) + due[..sent]
    case Advancing(left) => s.taken == FrameRing.Concat(s.written[..s.freed + left])
    case Stuck => false
  }

  ghost predicate Inv(s: Ring) { Shape(s) && PointersOk(s) && JobOk(s) && DataOk(s) && TakenOk(s) }

  lemma StartInv(s: Ring)
    requires Start(s)
    ensures Inv(s)
  {
  }

  lemma BeginKeepsInv(s: Ring, frame: seq<Row>)
    requires Inv(s)
    ensures Inv(Apply(s, Begin(frame)))
  {
    var t := Apply(s, Begin(frame));
    if t != s {
      assert t.frames[..|s.frames|] == s.frames == s.frames[..|s.frames|];
      assert frame[..0] == [];
    }
  }

  /** While a frame is encoded its linear position is the ring's write pointer. */
  lemma LinearIsWrapped(s: Ring)
    requires Shape(s) && PointersOk(s) && JobOk(s) && s.job.Encoding?
    ensures s.job.offset < Rows(s) && s.w == s.job.offset
  {
    FrameStart(Finished(s), s.h);
    RingIndex.Advance(Finished(s) * s.h, s.job.row, Rows(s));
  }

  lemma EncodeKeepsInv(s: Ring)
    requires Inv(s)
    ensures Inv(Apply(s, EncodeRow))
  {
    var t, n := Apply(s, EncodeRow), Rows(s);
    if t != s {
      LinearIsWrapped(s);
      Compare(s.freed, |s.written|, n);
      Step(s.w, n);
      SmallMod(s.w, n);
      Step(|s.written|, n);
      assert PointersOk(t);
      EncodedRow(s);
      EncodedData(s);
      TakenKept(s, t);
      hide JobOk, DataOk, TakenOk;
    }
  }

  /** Rows encoded in the meantime do not change what has been taken. */
  lemma TakenKept(s: Ring, t: Ring)
    requires Inv(s) && Shape(t) && PointersOk(t)
    requires t.worker == s.worker && t.freed == s.freed && t.taken == s.taken
    requires |s.written| <= |t.written| && t.written[..|s.written|] == s.written
    ensures TakenOk(t)
  {
    hide DataOk, JobOk, FrameRing.Concat;
    var more := match s.worker case Sending(run, _) => run case Advancing(left) => left case _ => 0;
    assert s.freed + more <= |s.written|;
    FrameRing.SamePrefix(s.written, t.written, s.freed, more);
  }

  lemma EncodedRow(s: Ring)
    requires Inv(s) && s.job.Encoding? && Apply(s, EncodeRow) != s && s.job.offset < Rows(s)
    ensures JobOk(Apply(s, EncodeRow))
  {
    hide DataOk, PointersOk, TakenOk;
    var t, row, k := Apply(s, EncodeRow), s.job.row, |s.frames| - 1;
    var frame := s.job.frame;
    assert frame[..row] + [frame[row]] == frame[..row + 1];
    Distribute(k, 1, s.h);
    if row + 1 == s.h {
      assert frame[..row + 1] == frame;
      assert s.frames[..k + 1] == s.frames;
      assert s.frames[..k + 1][..k] == s.frames[..k];
    }
  }

  lemma EncodedData(s: Ring)
    requires Inv(s) && s.job.Encoding? && Apply(s, EncodeRow) != s && s.w == s.job.offset < Rows(s)
    requires PointersOk(Apply(s, EncodeRow))
    ensures DataOk(Apply(s, EncodeRow))
  {
    hide JobOk, TakenOk;
    var t, n := Apply(s, EncodeRow), Rows(s);
    forall j | s.freed <= j < |t.written|
      ensures t.slots[j % n] == t.written[j]
    {
      Step(j, n);
      if j < |s.written| {
        Distinct(j, |s.written|, n);
      }
    }
  }

  /** The worker's steps do not concern the job. */
  lemma SameJob(s: Ring, t: Ring)
    requires Inv(s) && Shape(t) && t == s.(worker := t.worker, taken := t.taken, r := t.r, freed := t.freed)
    ensures JobOk(t)
  {
    hide DataOk, PointersOk, TakenOk;
  }

  lemma LookKeepsInv(s: Ring)
    requires Inv(s)
    ensures Inv(Apply(s, Look))
  {
    SameJob(s, Apply(s, Look));
    hide JobOk, FrameRing.Concat;
    Compare(s.freed, |s.written|, Rows(s));
  }

  /** The worker is offered all rows not yet taken, up to the end of the ring. */
  lemma OfferEffect(s: Ring)
    requires Inv(s) && s.worker == Looked
    ensures Apply(s, Offer) == s.(worker := Sending(Min(|s.written| - s.freed, Rows(s) - s.r), 0))
  {
    hide JobOk, DataOk, FrameRing.Concat;
    Compare(s.freed, |s.written|, Rows(s));
  }

  lemma OfferKeepsInv(s: Ring)
    requires Inv(s)
    ensures Inv(Apply(s, Offer))
  {
    SameJob(s, Apply(s, Offer));
    hide JobOk, FrameRing.Concat;
    Compare(s.freed, |s.written|, Rows(s));
  }

  /** The rows offered are the oldest ones not yet taken. */
  lemma OfferedRows(s: Ring)
    requires Shape(s) && PointersOk(s) && DataOk(s) && s.worker.Sending?
    ensures s.slots[s.r..s.r + s.worker.run] == s.written[s.freed..s.freed + s.worker.run]
  {
    hide DataOk;
    var run := s.worker.run;
    var offered, due := s.slots[s.r..s.r + run], s.written[s.freed..s.freed + run];
    forall i | 0 <= i < |offered|
      ensures offered[i] == due[i]
    {
      OfferedRow(s, i);
    }
  }

  lemma OfferedRow(s: Ring, i: nat)
    requires Shape(s) && PointersOk(s) && DataOk(s) && s.worker.Sending? && i < s.worker.run
    ensures s.freed + i < |s.written| && s.slots[s.r + i] == s.written[s.freed + i]
  {
    RingIndex.Advance(s.freed, i, Rows(s));
    var j := s.freed + i;
    assert s.slots[j % Rows(s)] == s.written[j];
  }

  /** Writing to the link moves no pointer and touches no row. */
  lemma SameRows(s: Ring, t: Ring)
    requires Inv(s) && s.worker.Sending? && Shape(t) && t == s.(worker := t.worker, taken := t.taken)
    requires t.worker == Advancing(s.worker.run) || (t.worker.Sending? && t.worker.run == s.worker.run)
    ensures PointersOk(t) && DataOk(t)
  {
    hide JobOk, TakenOk;
  }

  lemma WriteKeepsInv(s: Ring, k: nat)
    requires Inv(s)
    ensures Inv(Apply(s, Write(k)))
  {
    var t := Apply(s, Write(k));
    if s.worker.Sending? && t != s {
      SameJob(s, t);
      SameRows(s, t);
      WrittenBytes(s, k, t);
      hide PointersOk, JobOk, DataOk, TakenOk;
    }
  }

  lemma WrittenBytes(s: Ring, k: nat, t: Ring)
    requires Inv(s) && s.worker.Sending? && s.worker.sent + k <= |Offered(s)| && Shape(t) && PointersOk(t)
    requires t == s.(worker := s.worker.(sent := s.worker.sent + k),
                     taken := s.taken + Offered(s)[s.worker.sent..s.worker.sent + k])
    ensures TakenOk(t)
  {
    hide JobOk, DataOk, FrameRing.Concat;
    OfferedRows(s);
    FrameRing.Grow(FrameRing.Concat(s.written[..s.freed]), Offered(s), s.worker.sent, k);
    hide PointersOk;
  }

  lemma FinishKeepsInv(s: Ring)
    requires Inv(s)
    ensures Inv(Apply(s, Finish))
  {
    var t := Apply(s, Finish);
    if s.worker.Sending? && t != s {
      SameJob(s, t);
      SameRows(s, t);
      WholeRun(s, t);
      hide PointersOk, JobOk, DataOk, TakenOk;
    }
  }

  lemma WholeRun(s: Ring, t: Ring)
    requires Inv(s) && s.worker.Sending? && s.worker.sent == |Offered(s)| && Shape(t) && PointersOk(t)
    requires t == s.(worker := Advancing(s.worker.run))
    ensures TakenOk(t)
  {
    RunTaken(s);
    hide JobOk, DataOk, PointersOk, FrameRing.Concat;
  }

  lemma RunTaken(s: Ring)
    requires Shape(s) && PointersOk(s) && DataOk(s) && TakenOk(s)
    requires s.worker.Sending? && s.worker.sent == |Offered(s)|
    ensures s.freed + s.worker.run <= |s.written|
    ensures s.taken == FrameRing.Concat(s.written[..s.freed + s.worker.run])
  {
    OfferedRows(s);
    hide DataOk, FrameRing.Concat;
    ConcatJoin(s.written, s.freed, s.worker.run);
  }

  lemma ConcatJoin(rows: seq<Row>, d: nat, run: nat)
    requires d + run <= |rows|
    ensures var due := FrameRing.Concat(rows[d..d + run]);
            && due[..|due|] == due
            && FrameRing.Concat(rows[..d]) + due == FrameRing.Concat(rows[..d + run])
  {
    hide FrameRing.Concat;
    FrameRing.ConcatAppend(rows[..d], rows[d..d + run]);
    assert rows[..d] + rows[d..d + run] == rows[..d + run];
  }

  lemma FreeKeepsInv(s: Ring)
    requires Inv(s)
    ensures Inv(Apply(s, Free))
  {
    SameJob(s, Apply(s, Free));
    hide JobOk, FrameRing.Concat;
    Step(s.freed, Rows(s));
  }

  // ----- what holds in every run -----

  lemma {:induction false} RunKeepsInv(s: Ring, events: seq<Event>)
    requires Inv(s)
    ensures Inv(Run(s, events))
  {
    hide PointersOk, JobOk, DataOk, TakenOk, Apply;
    if events != [] {
      var before, e := events[..|events| - 1], events[|events| - 1];
      RunKeepsInv(s, before);
      var m := Run(s, before);
      match e
      case Begin(frame) => BeginKeepsInv(m, frame);
      case EncodeRow => EncodeKeepsInv(m);
      case Look => LookKeepsInv(m);
      case Offer => OfferKeepsInv(m);
      case Write(k) => WriteKeepsInv(m, k);
      case Finish => FinishKeepsInv(m);
      case Free => FreeKeepsInv(m);
    }
  }

  /** A frame starts at a multiple of its height and ends within the ring; its linear position is the write pointer. */
  lemma NoFrameStraddles(s: Ring, events: seq<Event>)
    requires Start(s)
    ensures var t := Run(s, events);
            && !t.job.Outside?
            && (t.job.Resting? ==> t.w % t.h == 0)
            && (t.job.Encoding? ==> t.job.offset == t.w && t.job.row <= t.w && (t.w - t.job.row) % t.h == 0
                                    && t.w - t.job.row + t.h <= Rows(t))
  {
    StartInv(s);
    RunKeepsInv(s, events);
    FrameBounds(Run(s, events));
  }

  lemma FrameBounds(t: Ring)
    requires Shape(t) && PointersOk(t) && JobOk(t)
    ensures !t.job.Outside? && (t.job.Resting? ==> t.w % t.h == 0)
    ensures t.job.Encoding? ==> t.job.offset == t.w && t.job.row <= t.w && (t.w - t.job.row) % t.h == 0
                                && t.w - t.job.row + t.h <= Rows(t)
  {
    FrameStart(Finished(t), t.h);
    ModOf(Finished(t) % 4, t.h, 0);
    if t.job.Encoding? {
      LinearIsWrapped(t);
    }
  }

  /**
   For every split of the writes the link gets the bytes of the rows in order, and the rows are those of the frames in
   order; nothing is left out once the ring is drained, and the worker never returns with the lock held.
   */
  lemma RowsInOrder(s: Ring, events: seq<Event>)
    requires Start(s)
    ensures var t := Run(s, events);
            && t.taken <= FrameRing.Concat(t.written)
            && t.written <= AllRows(t.frames)
            && (t.job.Resting? ==> t.written == AllRows(t.frames))
            && (t.w == t.r && t.worker.Idle? ==> t.taken == FrameRing.Concat(t.written))
            && !t.worker.Stuck?
  {
    StartInv(s);
    RunKeepsInv(s, events);
    TakenIsPrefix(Run(s, events));
    WrittenIsPrefix(Run(s, events));
  }

  /** Row by row: what was written at place j * h + k is row k of frame j. */
  lemma WrittenRow(s: Ring, events: seq<Event>, j: nat, k: nat)
    requires Start(s)
    ensures var t := Run(s, events);
            k < t.h && 0 <= j * t.h + k < |t.written| ==>
              j < |t.frames| && |t.frames[j]| == t.h && t.written[j * t.h + k] == t.frames[j][k]
  {
    StartInv(s);
    RunKeepsInv(s, events);
    InvWrittenRow(Run(s, events), j, k);
    hide *;
  }

  lemma InvWrittenRow(t: Ring, j: nat, k: nat)
    requires Inv(t)
    ensures k < t.h && 0 <= j * t.h + k < |t.written| ==>
              j < |t.frames| && |t.frames[j]| == t.h && t.written[j * t.h + k] == t.frames[j][k]
  {
    WrittenIsPrefix(t);
    hide DataOk, TakenOk, PointersOk, AllRows;
    if k < t.h && 0 <= j * t.h + k < |t.written| {
      RowOfFrames(t.frames, t.h, j, k);
    }
  }

  lemma {:induction false} RowOfFrames(frames: seq<seq<Row>>, h: nat, j: nat, k: nat)
    requires (forall i :: 0 <= i < |frames| ==> |frames[i]| == h) && k < h && 0 <= j * h + k < |AllRows(frames)|
    ensures j < |frames| && AllRows(frames)[j * h + k] == frames[j][k]
  {
    if frames != [] {
      var n := |frames| - 1;
      RowCount(frames[..n], h);
      Monotone(j, n, h);
      Monotone(n, j, h);
      if j < n {
        RowOfFrames(frames[..n], h, j, k);
      }
    }
  }

  lemma {:induction false} RowCount(frames: seq<seq<Row>>, h: nat)
    requires forall i :: 0 <= i < |frames| ==> |frames[i]| == h
    ensures |AllRows(frames)| == |frames| * h
  {
    if frames != [] {
      RowCount(frames[..|frames| - 1], h);
      OneMore(|frames| - 1, h);
    }
  }

  lemma TakenIsPrefix(t: Ring)
    requires Inv(t)
    ensures t.taken <= FrameRing.Concat(t.written) && !t.worker.Stuck?
    ensures t.w == t.r && t.worker.Idle? ==> t.taken == FrameRing.Concat(t.written)
  {
    hide JobOk, DataOk, FrameRing.Concat;
    var d, all := t.freed, t.written;
    Compare(d, |all|, Rows(t));
    assert all[..|all|] == all;
    if t.worker.Sending? {
      ConcatJoin(all, d, t.worker.run);
      ConcatPrefix(all, d + t.worker.run);
    } else {
      ConcatPrefix(all, d + if t.worker.Advancing? then t.worker.left else 0);
    }
  }

  lemma ConcatPrefix(rows: seq<Row>, k: nat)
    requires k <= |rows|
    ensures FrameRing.Concat(rows[..k]) <= FrameRing.Concat(rows)
  {
    hide FrameRing.Concat;
    FrameRing.ConcatAppend(rows[..k], rows[k..]);
    assert rows[..k] + rows[k..] == rows;
  }

  lemma WrittenIsPrefix(t: Ring)
    requires Inv(t)
    ensures t.written <= AllRows(t.frames) && (t.job.Resting? ==> t.written == AllRows(t.frames))
  {
    hide DataOk, TakenOk, PointersOk;
    assert t.frames[..|t.frames|] == t.frames;
  }

  // ----- the encode job -----

  lemma RunOneMore(s: Ring, events: seq<Event>, e: Event)
    requires Shape(s)
    ensures Run(s, events + [e]) == Apply(Run(s, events), e)
  {
    assert (events + [e])[..|events|] == events;
  }

  class RowEncoder {
    const h: nat
    const slots: array<Row>
    var entryW: nat
    var entryR: nat
    ghost var job: Job
    ghost var frames: seq<seq<Row>>
    ghost var written: seq<Row>
    ghost var taken: seq<uint8>
    ghost var freed: nat

    ghost function State(): Ring
      reads this, slots
    {
      Ring(h, slots[..], entryW, entryR, job, Idle, frames, written, taken, freed)
    }

    ghost predicate Valid()
      reads this, slots
    {
      Inv(State())
    }

    constructor (h: nat)
      requires h > 0
      ensures Valid() && fresh(slots) && this.h == h && Start(State())
    {
      this.h := h;
      slots := new Row[4 * h](_ => []);
      entryW, entryR, job, frames, written, taken, freed := 0, 0, Resting, [], [], [], 0;
      new;
      StartInv(State());
    }

    /** One encode job; where the source waits for the worker to make room, this returns with the rows done so far. */
    method EncodeFrame(frame: seq<Row>) returns (done: nat, ghost events: seq<Event>)
      requires Valid() && job == Resting && |frame| == h
      modifies slots, this`entryW, this`job, this`frames, this`written
      ensures Valid() && State() == Run(old(State()), events)
      ensures done == Min(h, 4 * h - 1 - (old(|written|) - freed))
      ensures written == old(written) + frame[..done] && frames == old(frames) + [frame]
      ensures done == h ==> job == Resting
    {
      hide Inv, Apply, Run;
      ghost var was := State();
      ShapeFacts(was);
      BeginEffect(was, frame);
      BeginKeepsInv(was, frame);
      RunOneMore(was, [], Begin(frame));
      events := [] + [Begin(frame)];
      var offset: nat := entryW;
      job := Encoding(frame, 0, entryW);
      frames := frames + [frame];
      done := 0;
      while done < h && (entryW + 1) % (4 * h) != entryR
        invariant Valid() && State() == Run(was, events) && frames == was.frames + [frame]
        invariant done <= Min(h, 4 * h - 1 - (|was.written| - freed))
        invariant written == was.written + frame[..done]
        invariant if done < h then job == Encoding(frame, done, offset) else job == Resting
      {
        ShapeFacts(State());
        RunOneMore(was, events, EncodeRow);
        events := events + [EncodeRow];
        EncodeOne(frame, done, offset);
        OneRowMore(was.written, frame, done);
        done, offset := done + 1, offset + 1;
      }
      ShapeFacts(State());
    }

    /** One row of an encode job, with room for it in the ring. */
    method EncodeOne(frame: seq<Row>, row: nat, offset: nat)
      requires Valid() && job == Encoding(frame, row, offset) && row < |frame| == h
      requires h > 0 && (entryW + 1) % (4 * h) != entryR
      modifies slots, this`entryW, this`job, this`written
      ensures Valid() && State() == Apply(old(State()), EncodeRow) && written == old(written) + [frame[row]]
      ensures if row + 1 < h then job == Encoding(frame, row + 1, offset + 1) else job == Resting
    {
      hide Inv, Apply;
      ghost var was := State();
      EncodeEffect(was);
      EncodeKeepsInv(was);
      slots[offset] := frame[row];
      entryW := if entryW + 1 == 4 * h then 0 else entryW + 1;
      written := written + [frame[row]];
      job := if row + 1 == h then Resting else Encoding(frame, row + 1, offset + 1);
    }
  }

  lemma OneRowMore(rows: seq<Row>, frame: seq<Row>, k: nat)
    requires k < |frame|
    ensures rows + frame[..k] + [frame[k]] == rows + frame[..k + 1]
  {
  }

  lemma ShapeFacts(s: Ring)
    requires Inv(s)
    ensures Shape(s) && Run(s, []) == s
    ensures (s.w + 1) % Rows(s) != s.r <==> |s.written| + 1 < s.freed + Rows(s)
    ensures |s.written| < s.freed + Rows(s) && Rows(s) > 0
  {
    Compare(s.freed, |s.written|, Rows(s));
    Step(s.w, Rows(s));
    SmallMod(s.w, Rows(s));
    hide DataOk, JobOk;
  }

  lemma BeginEffect(s: Ring, frame: seq<Row>)
    requires Inv(s) && s.job == Resting && |frame| == s.h
    ensures Apply(s, Begin(frame)) == s.(job := Encoding(frame, 0, s.w), frames := s.frames + [frame])
  {
  }

  lemma EncodeEffect(s: Ring)
    requires Inv(s) && s.job.Encoding? && Rows(s) > 0 && (s.w + 1) % Rows(s) != s.r
    ensures |s.job.frame| == s.h && s.job.row < s.h && s.job.offset < Rows(s) == |s.slots| && Shape(s)
    ensures Apply(s, EncodeRow)
         == s.(slots := s.slots[s.job.offset := s.job.frame[s.job.row]],
               w := Next(s.w, Rows(s)), written := s.written + [s.job.frame[s.job.row]],
               job := if s.job.row + 1 >= s.h then Resting
                      else s.job.(row := s.job.row + 1, offset := s.job.offset + 1))
  {
    LinearIsWrapped(s);
    hide DataOk;
  }
}
