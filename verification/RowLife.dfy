/** When a Cascade output flow still has frames to come: the exact condition, and the ways it ends. */
module RowLife {
  import opened Arithmetic
  import opened Words
  import opened RowRing
  import opened RowRuns

  /** Room for at least one more row. */
  predicate HasRoom(s: Ring) { s.written + 1 < s.read + Rows(s) }

  /**
   A job is left to finish; or fewer than three were dropped, and a row can still arrive or a job still be queued
   by the transfer under way.
   */
  predicate Alive(s: Ring) {
    Unfinished(s) > 0 || (s.dropped < 3 && (HasRoom(s) || MayQueue(s.fill)))
  }

  predicate MayQueue(f: Fill) {
    match f
    case Moving(_) => true
    case Reporting(left) => left > 0
    case Queued(left) => left > 1
    case _ => false
  }

  // ----- a dead flow stays dead -----

  lemma DeadStep(s: Ring, e: Event)
    requires Inv(s) && StallOk(s) && !Alive(s)
    ensures !Alive(Apply(s, e)) && Apply(s, e).decoded == s.decoded
  {
    StallStep(s, e);
    DroppedGrows(s, e);
    if s.dropped < 3 {
      Room(s);
      hide DataOk, DecodedOk, JobsOk, ReportOk, PointersOk;
    }
  }

  lemma {:induction false} DeadForever(s: Ring, events: seq<Event>)
    requires Inv(s) && StallOk(s) && !Alive(s)
    ensures Run(s, events).decoded == s.decoded
    ensures Inv(Run(s, events)) && StallOk(Run(s, events)) && !Alive(Run(s, events))
  {
    hide PointersOk, JobsOk, FillOk, ReportOk, DataOk, DecodedOk, Apply, Alive, StallOk;
    if events != [] {
      var before, e := events[..|events| - 1], events[|events| - 1];
      DeadForever(s, before);
      ApplyKeepsInv(Run(s, before), e);
      StallStep(Run(s, before), e);
      DeadStep(Run(s, before), e);
    }
  }

  // ----- a live one can go on -----

  lemma FinishJob(s: Ring) returns (events: seq<Event>)
    requires Inv(s) && Unfinished(s) > 0
    ensures Shape(s) && |Run(s, events).decoded| == |s.decoded| + 1
  {
    JobRests(s);
    hide Inv, Apply, Run;
    if s.job.Decoding? {
      events := DecodeAll(s);
    } else {
      StartEffect(s, true);
      RunAfter(s, StartJob(true), []);
      var rest := DecodeAll(Apply(s, StartJob(true)));
      RunAfter(s, StartJob(true), rest);
      events := [StartJob(true)] + rest;
    }
  }

  lemma JobRests(s: Ring)
    requires Inv(s)
    ensures s.job == Resting || s.job.Decoding?
  {
  }

  /** How far the transfer is from writing its next row or queueing its next job. */
  function Rank(f: Fill, size: nat): nat
    requires size > 0
  {
    match f
    case Moving(left) => if left == 0 then 9 else 1
    case Reporting(_) => 8
    case Queued(_) => 8
    case Reading(_, got, first) => if first then 4 else if got == 0 then 7 else if got % size != 0 then 3 else 2
    case Idle => 6
    case Looked => 5
    case Broken => 0
  }

  function ToQueue(f: Fill): nat {
    match f
    case Reporting(left) => 2 * left + 1
    case Queued(left) => 2 * left
    case _ => 0
  }

  /** A step on the way to the next decoded frame. */
  ghost predicate Progress(s: Ring, t: Ring)
    requires s.size > 0
  {
    && Inv(t) && Alive(t) && t.decoded == s.decoded && t.read == s.read && t.h == s.h && t.size == s.size
    && s.written <= t.written < t.read + Rows(t)
    && (t.written > s.written || Rank(t.fill, s.size) < Rank(s.fill, s.size)
        || (Rank(t.fill, s.size) == Rank(s.fill, s.size) && ToQueue(t.fill) < ToQueue(s.fill)))
  }

  /** What the transfer's own state says of room and bounds. */
  lemma FillFacts(s: Ring)
    requires Inv(s)
    ensures s.h > 0 && s.size > 0 && s.written < s.read + Rows(s) && !s.fill.Broken?
    ensures s.fill.Looked? || s.fill.Reading? ==> HasRoom(s)
    ensures s.fill.Reading? ==> s.fill.run > 0 && (s.fill.first ==> s.fill.got == 0)
    ensures s.fill.Moving? ==> s.written + s.fill.left < s.read + Rows(s)
    ensures s.fill.Queued? ==> s.fill.left > 0
  {
    hide DataOk, DecodedOk, JobsOk, ReportOk;
  }

  lemma LookStep(s: Ring)
    requires Inv(s) && s.fill == Idle && Unfinished(s) == 0 && s.dropped < 3 && HasRoom(s)
    ensures s.size > 0 && Progress(s, Apply(s, Look))
  {
    FillFacts(s);
    ApplyKeepsInv(s, Look);
    hide Inv, Apply;
    LookEffect(s);
  }

  lemma CountStep(s: Ring)
    requires Inv(s) && s.fill == Looked && Unfinished(s) == 0 && s.dropped < 3
    ensures s.size > 0 && Progress(s, Apply(s, Count))
  {
    FillFacts(s);
    ApplyKeepsInv(s, Count);
    hide Inv, Apply;
    CountEffect(s);
  }

  /** The link delivers all that is asked for. */
  lemma ReadStep(s: Ring) returns (bytes: seq<uint8>)
    requires Inv(s) && s.fill.Reading? && Unfinished(s) == 0 && s.dropped < 3
    requires s.size > 0 && (s.fill.first || s.fill.got % s.size != 0)
    ensures Progress(s, Apply(s, Read(bytes)))
  {
    FillFacts(s);
    bytes := seq(Asked(s.size, s.fill), _ => 0);
    ApplyKeepsInv(s, Read(bytes));
    ReadEffect(s, bytes);
    AskedCompletes(s.size, s.fill);
    hide Inv, Apply, Asked;
  }

  lemma AskedCompletes(size: nat, f: Fill)
    requires size > 0 && f.Reading? && f.run > 0 && (f.first ==> f.got == 0) && (f.first || f.got % size != 0)
    ensures f.got + Asked(size, f) > 0 && (f.got + Asked(size, f)) % size == 0
  {
    if f.first {
      Monotone(0, f.run, size);
      ModOf(f.run, size, 0);
    } else {
      AskedAfter(size, f.run, f.got, size - f.got % size);
    }
  }

  lemma SettleStep(s: Ring)
    requires Inv(s) && s.fill.Reading? && Unfinished(s) == 0 && s.dropped < 3
    requires s.size > 0 && !s.fill.first && s.fill.got % s.size == 0
    ensures Progress(s, Apply(s, Settle))
  {
    FillFacts(s);
    WholeQuotient(s.fill.got, s.size);
    ApplyKeepsInv(s, Settle);
    hide Inv, Apply;
    SettleEffect(s);
  }

  lemma MoveStep(s: Ring)
    requires Inv(s) && s.fill.Moving? && Unfinished(s) == 0 && s.dropped < 3
    ensures s.size > 0 && Progress(s, Apply(s, MoveRow))
  {
    FillFacts(s);
    ApplyKeepsInv(s, MoveRow);
    if s.fill.left > 0 {
      hide Inv, Apply;
      MoveEffect(s);
    } else {
      FullRingReports(s);
      hide Inv, Apply;
      ReportEffect(s);
    }
  }

  /** A full ring with fewer than three drops and no job holds a whole frame to report. */
  lemma FullRingReports(s: Ring)
    requires Inv(s) && s.fill == Moving(0) && Unfinished(s) == 0 && s.dropped < 3
    ensures s.h > 0 && s.reported <= s.written && (HasRoom(s) || (s.written - s.reported) / s.h > 0)
  {
    hide DataOk, DecodedOk, ReportOk;
    RowsAhead(s);
    Monotone(s.dropped, 3, s.h);
    if s.written - s.reported >= s.h {
      DivideBounds(s.written - s.reported, s.h);
      Monotone((s.written - s.reported) / s.h, 1, s.h);
    }
  }

  lemma QueueStep(s: Ring)
    requires Inv(s) && s.fill.Reporting? && Unfinished(s) == 0 && Alive(s)
    ensures s.size > 0 && Progress(s, Apply(s, Queue(true)))
  {
    FillFacts(s);
    ApplyKeepsInv(s, Queue(true));
    hide Inv, Apply;
    QueueEffect(s, true);
  }

  lemma MoveReportStep(s: Ring)
    requires Inv(s) && s.fill.Queued? && Unfinished(s) == 0 && Alive(s)
    ensures s.size > 0 && Progress(s, Apply(s, MoveReport))
  {
    FillFacts(s);
    ApplyKeepsInv(s, MoveReport);
    hide Inv, Apply;
    MoveReportEffect(s);
  }

  /** The next step of a transfer whose requests are all met. */
  lemma NextStep(s: Ring) returns (e: Event)
    requires Inv(s) && Alive(s) && Unfinished(s) == 0
    ensures s.size > 0 && Progress(s, Apply(s, e))
  {
    FillFacts(s);
    hide Inv, Apply, Progress;
    match s.fill
    case Idle =>
      e := Look;
      LookStep(s);
    case Looked =>
      e := Count;
      CountStep(s);
    case Reading(_, got, first) =>
      if !first && got % s.size == 0 {
        e := Settle;
        SettleStep(s);
      } else {
        var bytes := ReadStep(s);
        e := Read(bytes);
      }
    case Moving(_) =>
      e := MoveRow;
      MoveStep(s);
    case Reporting(_) =>
      e := Queue(true);
      QueueStep(s);
    case Queued(_) =>
      e := MoveReport;
      MoveReportStep(s);
  }

  lemma {:induction false} Revive(s: Ring) returns (events: seq<Event>)
    requires Inv(s) && Alive(s)
    ensures Shape(s) && |Run(s, events).decoded| > |s.decoded|
    decreases s.read + Rows(s) - s.written, Rank(s.fill, s.size), ToQueue(s.fill)
  {
    FillFacts(s);
    hide Inv, Apply, Run, Alive, Unfinished;
    if Unfinished(s) > 0 {
      events := FinishJob(s);
    } else {
      var e := NextStep(s);
      var rest := Revive(Apply(s, e));
      RunAfter(s, e, rest);
      events := [e] + rest;
    }
  }

  // ----- the exact condition -----

  /** In every state of every run another frame can come exactly when the flow is alive. */
  lemma FlowLivesExactlyWhen(s: Ring, events: seq<Event>)
    requires Start(s)
    ensures var t := Run(s, events);
            (exists more :: |Run(t, more).decoded| > |t.decoded|) <==> Alive(t)
  {
    StartInv(s);
    RunKeepsInv(s, events);
    StallInRun(s, events);
    var t := Run(s, events);
    hide Inv, Run, Alive, StallOk;
    if Alive(t) {
      var more := Revive(t);
    } else {
      forall more
        ensures Run(t, more).decoded == t.decoded
      {
        DeadForever(t, more);
      }
    }
  }

  /** Between transfers that is: a job is unfinished, or fewer than three were dropped and the ring has room. */
  lemma IdleFlowLivesExactlyWhen(s: Ring, events: seq<Event>)
    requires Start(s) && Run(s, events).fill == Idle
    ensures var t := Run(s, events);
            (exists more :: |Run(t, more).decoded| > |t.decoded|)
            <==> Unfinished(t) > 0 || (t.dropped < 3 && t.written + 1 < t.read + Rows(t))
  {
    FlowLivesExactlyWhen(s, events);
    hide Run;
  }

  /** One job that cannot be queued ends a flow with a full ring, before any frame and without a drop. */
  lemma MissEndsTheFlow(s: Ring) returns (events: seq<Event>)
    requires Start(s)
    ensures var t := Run(s, events);
            t.fill == Idle && t.missed && t.dropped == 0 && t.decoded == [] && !Alive(t)
  {
    var rows := 4 * s.h - 1;
    var before := ReadRows(s, rows);
    StartInv(s);
    RunKeepsInv(s, before);
    ThreeFrames(s.h);
    hide Inv, Apply, Run, Shape;
    RunOneMore(s, before, Queue(false));
    QueueEffect(Run(s, before), false);
    events := before + [Queue(false)];
    FullAndIdle(s, Run(s, events));
    hide Start, Alive;
  }

  lemma FullAndIdle(s: Ring, t: Ring)
    requires Start(s)
    requires t == s.(fill := Idle, missed := true, data := t.data, link := t.link, w := t.w, written := 4 * s.h - 1)
    ensures t.dropped == 0 && t.decoded == [] && !Alive(t)
  {
    hide Shape;
  }

  lemma ThreeFrames(h: nat)
    requires h > 0
    ensures (4 * h - 1) / h > 0
  {
    DivideBounds(4 * h - 1, h);
    Monotone((4 * h - 1) / h, 1, h);
  }
}
