/** The Cascade output ring as an object: transfer and decode job, proved against the steps of RowRing. */
module RowBuffers {
  import opened Arithmetic
  import opened Words
  import opened Splicing
  import opened Slots
  import opened RowRing
  import opened RowRuns

  class RowBuffer {
    const h: nat
    const size: nat
    const data: array<uint8>
    var entryW: nat
    var entryR: nat
    var entryReport: nat
    var jobs: nat
    ghost var fill: Fill
    ghost var job: Job
    ghost var link: seq<uint8>
    ghost var written: nat
    ghost var reported: nat
    ghost var read: nat
    ghost var decoded: seq<seq<uint8>>
    ghost var dropped: nat
    ghost var missed: bool

    ghost function State(): Ring
      reads this, data
    {
      Ring(h, size, data[..], entryW, entryReport, entryR, fill, jobs, job,
           link, written, reported, read, decoded, dropped, missed)
    }

    ghost predicate Valid()
      reads this, data
    {
      h > 0 && size > 0 && Inv(State())
    }

    constructor (h: nat, size: nat)
      requires h > 0 && size > 0
      ensures Valid() && fresh(data) && Start(State()) && this.h == h && this.size == size
    {
      this.h, this.size := h, size;
      data := new uint8[4 * h * size](_ => 0);
      entryW, entryR, entryReport, jobs := 0, 0, 0, 0;
      fill, job, link, written, reported, read, decoded, dropped, missed := Idle, Resting, [], 0, 0, 0, [], 0, false;
      new;
      StartInv(State());
    }

    /** Free rows up to the end of the ring. */
    method CountRows() returns (run: nat)
      requires Valid() && fill == Looked
      modifies this`fill
      ensures State() == Apply(old(State()), Count) && Valid()
      ensures fill == Reading(run, 0, true) && run == FreeRun(State())
    {
      ghost var was := State();
      CountKeepsInv(was);
      Room(was);
      hide DataOk, DecodedOk, JobsOk, SlotAt;
      var n := 4 * h;
      if entryW >= entryR {
        run := n - entryW - (if entryR == 0 then 1 else 0);
      } else {
        run := entryR - entryW - 1;
      }
      fill := Reading(run, 0, true);
    }

    /** One read from the link into the buffer behind what the transfer already has. */
    method ReadSome(bytes: seq<uint8>, got: nat)
      requires Valid() && fill.Reading? && fill.got == got && |bytes| <= Asked(size, fill)
      modifies data, this`fill, this`link
      ensures State() == Apply(old(State()), Read(bytes)) && Valid()
      ensures fill == old(fill).(got := got + |bytes|, first := false) && link == old(link) + bytes
    {
      hide Inv, Apply, Asked, InRange;
      ghost var was := State();
      ReadEffect(was, bytes);
      ReadKeepsInv(was, bytes);
      StoreBytes(entryW * size + got, bytes);
      fill := fill.(got := got + |bytes|, first := false);
      link := link + bytes;
    }

    method StoreBytes(offset: nat, bytes: seq<uint8>)
      requires offset + |bytes| <= data.Length
      modifies data
      ensures data[..] == Splice(old(data[..]), offset, bytes)
    {
      ghost var was := data[..];
      SpliceNothing(was, offset);
      for k := 0 to |bytes|
        invariant data[..] == Splice(was, offset, bytes[..k])
      {
        SpliceOne(was, offset, bytes[..k], bytes[k]);
        assert bytes[..k + 1] == bytes[..k] + [bytes[k]];
        data[offset + k] := bytes[k];
      }
      assert bytes[..|bytes|] == bytes;
    }

    /** Further reads until the row that broke off is whole, or the deliveries end. */
    method TopUp(run: nat, got: nat, rest: seq<seq<uint8>>) returns (total: nat, ghost events: seq<Event>)
      requires Valid() && fill == Reading(run, got, false) && got % size != 0
      modifies data, this`fill, this`link
      ensures Valid() && State() == Run(old(State()), events) && fill == Reading(run, total, false)
      ensures total == got + Min(BytesOf(rest), size - got % size)
      ensures |link| == old(|link|) + total - got && link[..old(|link|)] == old(link)
    {
      hide Inv, Apply, Run, Asked;
      ghost var was := State();
      RunNone(was);
      var missing, extra, attempt := size - got % size, 0, 0;
      total := got;
      events := [];
      while extra < missing && attempt < |rest|
        invariant Valid() && State() == Run(was, events) && fill == Reading(run, total, false)
        invariant attempt <= |rest| && extra == Min(BytesOf(rest[..attempt]), missing) && total == got + extra
        invariant |link| == |was.link| + extra && link[..|was.link|] == was.link
        decreases |rest| - attempt
      {
        var bytes := if |rest[attempt]| <= missing - extra then rest[attempt] else rest[attempt][..missing - extra];
        AskedAfter(size, run, got, extra);
        BytesOfPrefix(rest, attempt);
        RunOneMore(was, events, Read(bytes));
        ReadSome(bytes, total);
        events := events + [Read(bytes)];
        extra, total := extra + |bytes|, total + |bytes|;
        attempt := attempt + 1;
      }
      BytesOfPrefix(rest, attempt);
    }

    /** The write pointer moves past the rows read, one at a time. */
    method PublishRows(rows: nat) returns (ghost events: seq<Event>)
      requires Valid() && fill == Moving(rows)
      modifies this`entryW, this`fill, this`written
      ensures Valid() && State() == Run(old(State()), events)
      ensures fill == Moving(0) && written == old(written) + rows
    {
      hide Inv, Apply, Run;
      ghost var was := State();
      events := [];
      RunNone(was);
      for i := 0 to rows
        invariant Valid() && State() == Run(was, events)
        invariant fill == Moving(rows - i) && written == was.written + i
      {
        ghost var before := State();
        MoveEffect(before);
        ApplyKeepsInv(before, MoveRow);
        RunOneMore(was, events, MoveRow);
        entryW := if entryW + 1 == 4 * h then 0 else entryW + 1;
        written := written + 1;
        fill := Moving(rows - i - 1);
        events := events + [MoveRow];
      }
    }

    /** Queues a job for every whole frame between the report and the write pointer, until the queue has no room. */
    method ReportFrames(room: nat) returns (ghost events: seq<Event>)
      requires Valid() && fill == Moving(0)
      modifies this`entryReport, this`fill, this`jobs, this`reported, this`missed
      ensures Valid() && State() == Run(old(State()), events) && fill == Idle
      ensures var frames := (written - old(reported)) / h;
              var done := Min(room, frames);
              jobs == old(jobs) + done && reported == old(reported) + done * h && (missed <==> done < frames)
    {
      hide Inv, Apply, Run;
      ghost var was := State();
      ReportEffect(was);
      RunNone(was);
      ApplyKeepsInv(was, MoveRow);
      RunOneMore(was, [], MoveRow);
      events := [] + [MoveRow];
      var unreported := if entryW >= entryReport then entryW - entryReport else 4 * h - (entryReport - entryW);
      var frames := unreported / h;
      missed := false;
      fill := Reporting(frames);
      ghost var more := QueueJobs(frames, room);
      RunAppend(was, events, more);
      events := events + more;
    }

    method QueueJobs(frames: nat, room: nat) returns (ghost events: seq<Event>)
      requires Valid() && fill == Reporting(frames) && !missed
      modifies this`entryReport, this`fill, this`jobs, this`reported, this`missed
      ensures Valid() && State() == Run(old(State()), events) && fill == Idle
      ensures var done := Min(room, frames);
              jobs == old(jobs) + done && reported == old(reported) + done * h && (missed <==> done < frames)
    {
      hide Inv, Apply, Run;
      ghost var was := State();
      RunNone(was);
      events := [];
      var done := 0;
      while done < frames && done < room
        invariant done <= frames && done <= room && !missed && fill == Reporting(frames - done)
        invariant Valid() && State() == Run(was, events)
        invariant jobs == was.queued + done && reported == was.reported + done * h
      {
        RunOneMore(was, events, Queue(true));
        EnqueueJob(true, frames - done);
        events := events + [Queue(true)];
        RunOneMore(was, events, MoveReport);
        MoveReportPointer(frames - done);
        events := events + [MoveReport];
        Distribute(done, 1, h);
        done := done + 1;
      }
      RunOneMore(was, events, Queue(done == frames));
      EnqueueJob(done == frames, frames - done);
      events := events + [Queue(done == frames)];
    }

    /** The reads of one transfer: once for all free rows, then for the rest of a row that broke off. */
    method ReadRows(first: seq<uint8>, rest: seq<seq<uint8>>) returns (total: nat, ghost events: seq<Event>)
      requires Valid() && fill == Idle && written + 1 < read + 4 * h && |first| <= FreeRun(State()) * size
      modifies data, this`fill, this`link
      ensures Valid() && State() == Run(old(State()), events)
      ensures fill.Reading? && !fill.first && fill.got == total == Delivered(size, |first|, BytesOf(rest))
      ensures |link| == old(|link|) + total && link[..old(|link|)] == old(link)
    {
      hide Inv, Apply, Run, Asked, Delivered, FreeRun;
      ghost var was := State();
      RunNone(was);
      LookEffect(was);
      ApplyKeepsInv(was, Look);
      fill := Looked;
      RunTwo(was, Look, Count);
      var run := CountRows();
      SameRoom(was, State());
      AskedFirst(size, run);
      RunOneMore(was, [Look, Count], Read(first));
      ReadSome(first, 0);
      total := |first|;
      events := [Look, Count] + [Read(first)];
      DeliveredCases(size, |first|, BytesOf(rest));
      if total % size != 0 {
        ghost var more;
        total, more := TopUp(run, total, rest);
        RunAppend(was, events, more);
        events := events + more;
      }
    }

    /** Publishes the rows read and queues jobs for the frames they complete. */
    method FinishTransfer(total: nat, room: nat) returns (ghost events: seq<Event>)
      requires Valid() && fill.Reading? && !fill.first && fill.got == total && total % size == 0
      modifies this`entryW, this`entryReport, this`jobs, this`fill, this`written, this`reported, this`missed
      ensures Valid() && State() == Run(old(State()), events) && fill == Idle && written == old(written) + total / size
      ensures total > 0 ==>
                var frames := (written - old(reported)) / h;
                jobs == old(jobs) + Min(room, frames) && reported == old(reported) + Min(room, frames) * h
    {
      hide Inv, Apply, Run, Asked;
      ghost var was := State();
      RunNone(was);
      SettleEffect(was);
      ApplyKeepsInv(was, Settle);
      RunOneMore(was, [], Settle);
      events := [] + [Settle];
      var rows := total / size;
      if total == 0 {
        fill := Idle;
      } else {
        fill := Moving(rows);
        ghost var more := PublishRows(rows);
        RunAppend(was, events, more);
        events := events + more;
        more := ReportFrames(room);
        RunAppend(was, events, more);
        events := events + more;
      }
    }

    /**
     One whole transfer, entered after the worker found room: the link delivers `first`, then `rest` until the last
     row is whole.  The source only returns when it is; `finished` is false where the deliveries end before that.
     */
    method Transfer(first: seq<uint8>, rest: seq<seq<uint8>>, room: nat)
      returns (total: nat, finished: bool, ghost events: seq<Event>)
      requires Valid() && fill == Idle && written + 1 < read + 4 * h && |first| <= FreeRun(State()) * size
      modifies data, this`entryW, this`entryReport, this`jobs
      modifies this`fill, this`link, this`written, this`reported, this`missed
      ensures Valid() && State() == Run(old(State()), events)
      ensures total == Delivered(size, |first|, BytesOf(rest)) && (finished <==> total % size == 0)
      ensures |link| == old(|link|) + total && link[..old(|link|)] == old(link)
      ensures finished ==> fill == Idle && written == old(written) + total / size
      ensures finished && total > 0 ==>
                var frames := (written - old(reported)) / h;
                jobs == old(jobs) + Min(room, frames) && reported == old(reported) + Min(room, frames) * h
    {
      hide Inv, Apply, Run, Delivered, FreeRun;
      ghost var was := State();
      RunNone(was);
      total, events := ReadRows(first, rest);
      finished := total % size == 0;
      if finished {
        ghost var more := FinishTransfer(total, room);
        RunAppend(was, events, more);
        events := events + more;
      }
    }

    /**
     One decode job; `ok` says whether memory for the frame was found.  Its rows are read at a linear offset from
     where the read pointer stood; what the user gets is the next frame of the link's bytes.
     */
    method DecodeJob(ok: bool) returns (frame: seq<uint8>, ghost events: seq<Event>)
      requires Valid() && job == Resting && jobs > 0
      modifies this`entryR, this`jobs, this`job, this`read, this`decoded, this`dropped
      ensures Valid() && State() == Run(old(State()), events) && job == Resting
      ensures jobs == old(jobs) - 1 && dropped == old(dropped) + (if ok then 0 else 1)
      ensures if ok then read == old(read) + h && decoded == old(decoded) + [frame]
                         && frame == SlotAt(link, old(|decoded|), h * size) && |frame| == h * size
              else read == old(read) && decoded == old(decoded) && frame == []
    {
      hide Inv, Apply, Run, SlotAt;
      ghost var was := State();
      RunNone(was);
      ApplyKeepsInv(was, StartJob(ok));
      StartEffect(was, ok);
      RunOneMore(was, [], StartJob(ok));
      events := [] + [StartJob(ok)];
      jobs := jobs - 1;
      frame := [];
      if !ok {
        dropped := dropped + 1;
        return;
      }
      var from := entryR;
      job := Decoding(from, 0, []);
      for row := 0 to h
        invariant Valid() && State() == Run(was, events) && dropped == was.dropped
        invariant read == was.read + row && jobs == was.queued - 1
        invariant if row < h then job == Decoding(from, row, frame) && decoded == was.decoded
                  else job == Resting && decoded == was.decoded + [frame]
      {
        RunOneMore(was, events, DecodeRow);
        events := events + [DecodeRow];
        frame := DecodeOne(from, row, frame);
      }
      LastDecoded(State());
    }

    /** One row of a decode job. */
    method DecodeOne(from: nat, row: nat, frame: seq<uint8>) returns (longer: seq<uint8>)
      requires Valid() && job == Decoding(from, row, frame)
      modifies this`entryR, this`job, this`read, this`decoded
      ensures row < h && Valid() && State() == Apply(old(State()), DecodeRow) && read == old(read) + 1
      ensures if row + 1 < h then job == Decoding(from, row + 1, longer) && decoded == old(decoded)
              else job == Resting && decoded == old(decoded) + [longer]
    {
      hide Inv, Apply, SlotAt;
      ghost var was := State();
      RowEffect(was);
      ApplyKeepsInv(was, DecodeRow);
      var offset := (from + row) * size;
      SlotUnfold(data[..], from + row, size);
      longer := frame + data[offset..offset + size];
      entryR := if entryR + 1 == 4 * h then 0 else entryR + 1;
      read := read + 1;
      job := if row + 1 == h then Resting else Decoding(from, row + 1, longer);
      decoded := if row + 1 == h then decoded + [longer] else decoded;
    }

    /** Queues one job; reporting ends when none is left or there is no memory for it. */
    method EnqueueJob(ok: bool, left: nat)
      requires Valid() && fill == Reporting(left)
      modifies this`fill, this`jobs, this`missed
      ensures Valid() && State() == Apply(old(State()), Queue(ok))
      ensures if left > 0 && ok then jobs == old(jobs) + 1 && missed == old(missed) && fill == Queued(left)
              else jobs == old(jobs) && fill == Idle && (missed <==> old(missed) || left > 0)
    {
      hide Inv, Apply;
      ghost var was := State();
      QueueEffect(was, ok);
      ApplyKeepsInv(was, Queue(ok));
      if left == 0 {
        fill := Idle;
      } else if !ok {
        missed := true;
        fill := Idle;
      } else {
        jobs := jobs + 1;
        fill := Queued(left);
      }
    }

    /** The report pointer counts the job just queued. */
    method MoveReportPointer(left: nat)
      requires Valid() && fill == Queued(left) && left > 0
      modifies this`entryReport, this`fill, this`reported
      ensures Valid() && State() == Apply(old(State()), MoveReport)
      ensures reported == old(reported) + h && fill == Reporting(left - 1)
    {
      hide Inv, Apply;
      ghost var was := State();
      MoveReportEffect(was);
      ApplyKeepsInv(was, MoveReport);
      reported := reported + h;
      entryReport := if entryReport + h == 4 * h then 0 else entryReport + h;
      fill := Reporting(left - 1);
    }
  }

  function BytesOf(parts: seq<seq<uint8>>): nat {
    if parts == [] then 0 else BytesOf(parts[..|parts| - 1]) + |parts[|parts| - 1]|
  }

  lemma {:induction false} BytesOfPrefix(parts: seq<seq<uint8>>, k: nat)
    requires k <= |parts|
    ensures k < |parts| ==> BytesOf(parts[..k + 1]) == BytesOf(parts[..k]) + |parts[k]|
    ensures BytesOf(parts[..k]) <= BytesOf(parts) && (k == |parts| ==> BytesOf(parts[..k]) == BytesOf(parts))
    decreases |parts| - k
  {
    if k < |parts| {
      assert parts[..k + 1][..k] == parts[..k];
      BytesOfPrefix(parts, k + 1);
    } else {
      assert parts[..k] == parts;
    }
  }

  /** Bytes one transfer takes: the first delivery, and what the others add to make its last row whole. */
  function Delivered(size: nat, first: nat, rest: nat): nat
    requires size > 0
  {
    first + if first % size == 0 then 0 else Min(rest, size - first % size)
  }

  lemma DeliveredCases(size: nat, first: nat, rest: nat)
    requires size > 0
    ensures first % size == 0 ==> Delivered(size, first, rest) == first
    ensures first % size != 0 ==> Delivered(size, first, rest) == first + Min(rest, size - first % size)
  {
  }

  lemma SameRoom(s: Ring, t: Ring)
    requires Shape(s) && t == s.(fill := t.fill)
    ensures Shape(t) && FreeRun(t) == FreeRun(s)
  {
  }

  lemma AskedFirst(size: nat, run: nat)
    requires size > 0
    ensures Asked(size, Reading(run, 0, true)) == run * size
  {
  }
}
