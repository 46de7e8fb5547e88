/** The Cascade output ring: rows arrive from the link, full frames are queued as jobs, a job decodes row by row. */
module RowRing {
  import opened Arithmetic
  import opened Words
  import opened RingIndex
  import opened Splicing
  import opened Slots

  // ----- state -----

  /**
   The transfer: `Looked` has found room, `Reading` has `got` bytes towards `run` free rows (`first` before the
   first read), `Moving` has `left` rows to publish, `Reporting` has `left` jobs to queue; in `Queued` the first of
   `left` jobs is in the queue, where the job thread may take it, and the report pointer has yet to move.  `Broken`
   stands for the early return that leaves the ring locked and for a write outside the buffer.
   */
  datatype Fill = Idle | Looked | Reading(run: nat, got: nat, first: bool) | Moving(left: nat)
    | Reporting(left: nat) | Queued(left: nat) | Broken

  /** The decode job: `row` rows done, read from linear position `from` on; `Outside` has read past the buffer. */
  datatype Job = Resting | Decoding(from: nat, row: nat, out: seq<uint8>) | Outside

  /**
   Buffer and wrapped pointers, then the history: bytes the link delivered; rows written, reported and read;
   frames decoded; jobs dropped for want of memory; `missed` when a job could not be queued.
   */
  datatype Ring = Ring(h: nat, size: nat, data: seq<uint8>, w: nat, p: nat, r: nat, fill: Fill, queued: nat, job: Job,
                       link: seq<uint8>, written: nat, reported: nat, read: nat,
                       decoded: seq<seq<uint8>>, dropped: nat, missed: bool)

  ghost predicate Shape(s: Ring) {
    && s.h > 0 && s.size > 0 && |s.data| == Rows(s) * s.size
    && s.w < Rows(s) && s.p < Rows(s) && s.r < Rows(s)
  }

  /** Rows in the ring: four frames. */
  function Rows(s: Ring): nat { 4 * s.h }

  // ----- steps -----

  /** Free rows up to the ring's end, less the one that keeps full apart from empty. */
  function FreeRun(s: Ring): nat
    requires s.w < Rows(s) && s.r < Rows(s)
  {
    if s.w >= s.r then Rows(s) - s.w - (if s.r == 0 then 1 else 0) else s.r - s.w - 1
  }

  /** Bytes the transfer still asks for: all free rows at first, then the rest of a broken row. */
  function Asked(size: nat, f: Fill): nat
    requires f.Reading? && size > 0
  {
    if f.first then f.run * size else if f.got % size == 0 then 0 else size - f.got % size
  }

  function Unreported(s: Ring): nat
    requires s.w < Rows(s) && s.p < Rows(s)
  {
    if s.w >= s.p then s.w - s.p else Rows(s) - (s.p - s.w)
  }

  function Whole(v: nat, unit: nat): nat
    requires unit > 0
  {
    v / unit
  }

  datatype Event = Look | Count | Read(bytes: seq<uint8>) | Settle | MoveRow | Queue(ok: bool) | MoveReport
    | StartJob(ok: bool) | DecodeRow

  /** One atomic step; a step that is not at its turn changes nothing. */
  ghost function Apply(s: Ring, e: Event): (t: Ring)
    requires Shape(s)
    ensures Shape(t) && t.h == s.h && t.size == s.size
  {
    match e
    case Look => if s.fill.Idle? && (s.w + 1) % Rows(s) != s.r then s.(fill := Looked) else s
    case Count =>
      if !s.fill.Looked? then s
      else if (s.w + 1) % Rows(s) == s.r then s.(fill := Broken)
      else s.(fill := Reading(FreeRun(s), 0, true))
    case Read(bytes) =>
      if !s.fill.Reading? || |bytes| > Asked(s.size, s.fill) then s
      else if InRange(s, |bytes|) then Received(s, bytes)
      else s.(fill := Broken)
    case Settle =>
      if s.fill.Reading? && !s.fill.first && s.fill.got % s.size == 0
      then s.(fill := if s.fill.got == 0 then Idle else Moving(Whole(s.fill.got, s.size)))
      else s
    case MoveRow =>
      if !s.fill.Moving? then s
      else if s.fill.left == 0 then s.(fill := Reporting(Whole(Unreported(s), s.h)), missed := false)
      else s.(fill := Moving(s.fill.left - 1), w := Next(s.w, Rows(s)), written := s.written + 1)
    case Queue(ok) =>
      if !s.fill.Reporting? then s
      else if s.fill.left == 0 then s.(fill := Idle)
      else if !ok then s.(fill := Idle, missed := true)
      else s.(fill := Queued(s.fill.left), queued := s.queued + 1)
    case MoveReport =>
      if !s.fill.Queued? then s
      else if s.fill.left == 0 || s.p + s.h > Rows(s) then s.(fill := Broken)
      else s.(fill := Reporting(s.fill.left - 1), reported := s.reported + s.h,
              p := if s.p + s.h == Rows(s) then 0 else s.p + s.h)
    case StartJob(ok) =>
      if !s.job.Resting? || s.queued == 0 then s
      else if ok then s.(queued := s.queued - 1, job := Decoding(s.r, 0, []))
      else s.(queued := s.queued - 1, dropped := s.dropped + 1)
    case DecodeRow =>
      if !s.job.Decoding? then s
      else if s.job.from + s.job.row >= Rows(s) then s.(job := Outside)
      else Decoded(s)
  }

  predicate InRange(s: Ring, k: nat)
    requires s.fill.Reading?
  {
    0 <= s.w * s.size && s.w * s.size + s.fill.got + k <= |s.data|
  }

  /** The link puts bytes behind those already read. */
  function Received(s: Ring, bytes: seq<uint8>): Ring
    requires s.fill.Reading? && InRange(s, |bytes|)
  {
    s.(data := Splice(s.data, s.w * s.size + s.fill.got, bytes), link := s.link + bytes,
       fill := s.fill.(got := s.fill.got + |bytes|, first := false))
  }

  /** The job decodes the row at its linear position and moves the ring's read pointer. */
  function Decoded(s: Ring): Ring
    requires s.job.Decoding?
  {
    var out := s.job.out + SlotAt(s.data, s.job.from + s.job.row, s.size);
    var last := s.job.row + 1 >= s.h;
    s.(r := Next(s.r, Rows(s)), read := s.read + 1,
       job := if last then Resting else Decoding(s.job.from, s.job.row + 1, out),
       decoded := if last then s.decoded + [out] else s.decoded)
  }

  ghost function Run(s: Ring, events: seq<Event>): (t: Ring)
    requires Shape(s)
    ensures Shape(t) && t.h == s.h && t.size == s.size
  {
    if events == [] then s else Apply(Run(s, events[..|events| - 1]), events[|events| - 1])
  }

  ghost predicate Start(s: Ring) {
    && Shape(s) && s.w == 0 && s.p == 0 && s.r == 0 && s.fill == Idle && s.queued == 0 && s.job == Resting
    && s.link == [] && s.written == 0 && s.reported == 0 && s.read == 0
    && s.decoded == [] && s.dropped == 0 && !s.missed
  }

  // ----- invariant -----

  /** Jobs not finished, the running one included. */
  function Unfinished(s: Ring): nat { s.queued + if s.job.Decoding? then 1 else 0 }

  /** Rows the running job has decoded. */
  function Consumed(s: Ring): nat { if s.job.Decoding? then s.job.row else 0 }

  /** Rows of a job in the queue that the report pointer does not count yet. */
  function Due(s: Ring): nat { if s.fill.Queued? then s.h else 0 }

  ghost predicate PointersOk(s: Ring)
    requires Shape(s)
  {
    && s.read <= s.reported + Due(s) <= s.written < s.read + Rows(s)
    && s.w == s.written % Rows(s) && s.p == s.reported % Rows(s) && s.r == s.read % Rows(s)
  }

  /** Reported and read rows in terms of jobs; a job starts at a frame boundary. */
  ghost predicate JobsOk(s: Ring)
    requires Shape(s)
  {
    && s.reported + Due(s) == (|s.decoded| + Unfinished(s) + s.dropped) * s.h
    && s.read == |s.decoded| * s.h + Consumed(s)
    && !s.job.Outside?
    && (s.job.Decoding? ==> s.job.row < s.h && s.job.from == |s.decoded| * s.h % Rows(s))
  }

  ghost predicate FillOk(s: Ring)
    requires Shape(s)
  {
    match s.fill
    case Idle => true
    case Looked => s.written + 1 < s.read + Rows(s)
    case Reading(run, got, first) =>
      && run > 0 && s.written + run < s.read + Rows(s) && s.w + run <= Rows(s)
      && got <= run * s.size && (first ==> got == 0)
    case Moving(left) => s.written + left < s.read + Rows(s) && s.w + left <= Rows(s)
    case Reporting(left) => s.reported + left * s.h <= s.written < s.reported + (left + 1) * s.h
    case Queued(left) => left > 0 && s.reported + left * s.h <= s.written < s.reported + (left + 1) * s.h
    case Broken => false
  }

  /** A complete frame is left unreported only while a transfer goes on, and for certain once a job was not queued. */
  ghost predicate ReportOk(s: Ring) {
    && (s.missed ==> s.written >= s.reported + s.h && !s.fill.Reporting? && !s.fill.Queued?)
    && (s.fill.Moving? || s.fill.Reporting? || s.fill.Queued? || s.missed || s.written < s.reported + s.h)
  }

  /** Bytes in the buffer that no row pointer covers yet. */
  function Pending(s: Ring): nat {
    match s.fill
    case Reading(_, got, _) => got
    case Moving(left) => left * s.size
    case _ => 0
  }

  /** Unread rows and pending bytes are in the buffer as the link delivered them. */
  ghost predicate DataOk(s: Ring)
    requires Shape(s)
  {
    && |s.link| == s.written * s.size + Pending(s)
    && (forall j :: s.read <= j < s.written ==> SlotAt(s.data, j % Rows(s), s.size) == SlotAt(s.link, j, s.size))
    && 0 <= s.w * s.size && 0 <= s.written * s.size && s.w * s.size + Pending(s) <= |s.data|
    && s.data[s.w * s.size..s.w * s.size + Pending(s)] == s.link[s.written * s.size..]
  }

  /** Decoded frames are consecutive groups of h rows of what the link delivered. */
  ghost predicate DecodedOk(s: Ring)
    requires Shape(s)
  {
    && (forall k :: 0 <= k < |s.decoded| ==>
                      s.decoded[k] == SlotAt(s.link, k, s.h * s.size) && |s.decoded[k]| == s.h * s.size)
    && (s.job.Decoding? ==>
          var from := |s.decoded| * (s.h * s.size);
          0 <= from && from + s.job.row * s.size <= |s.link| && s.job.out == s.link[from..from + s.job.row * s.size])
  }

  ghost predicate Inv(s: Ring) {
    Shape(s) && PointersOk(s) && JobsOk(s) && FillOk(s) && ReportOk(s) && DataOk(s) && DecodedOk(s)
  }

  lemma StartInv(s: Ring)
    requires Start(s)
    ensures Inv(s)
  {
  }

  // ----- steps of the transfer -----

  /** The tests for room and the count of free rows, in totals. */
  lemma Room(s: Ring)
    requires Shape(s) && PointersOk(s)
    ensures (s.w + 1) % Rows(s) != s.r <==> s.written + 1 < s.read + Rows(s)
    ensures s.written + 1 < s.read + Rows(s) ==>
              FreeRun(s) > 0 && s.written + FreeRun(s) < s.read + Rows(s) && s.w + FreeRun(s) <= Rows(s)
    ensures FreeRun(s) == Min(s.read + Rows(s) - 1 - s.written, Rows(s) - s.w)
  {
    Compare(s.read, s.written, Rows(s));
    Step(s.w, Rows(s));
    SmallMod(s.w, Rows(s));
  }

  lemma LookKeepsInv(s: Ring)
    requires Inv(s)
    ensures Inv(Apply(s, Look))
  {
    hide SlotAt;
    Room(s);
  }

  lemma CountKeepsInv(s: Ring)
    requires Inv(s)
    ensures Inv(Apply(s, Count))
  {
    Room(s);
    FillOnly(s, Apply(s, Count));
    hide DataOk, DecodedOk, PointersOk, JobsOk;
  }

  /** A broken row is topped up without leaving the run. */
  lemma AskedFits(size: nat, f: Fill)
    requires size > 0 && f.Reading? && f.got <= f.run * size && (f.first ==> f.got == 0)
    ensures f.got + Asked(size, f) <= f.run * size
  {
    if !f.first && f.got % size != 0 {
      var q := f.got / size;
      assert f.got == q * size + f.got % size;
      Monotone(f.run, q, size);
      Monotone(q, f.run, size);
    }
  }

  lemma ReadInRange(s: Ring, k: nat)
    requires Shape(s) && FillOk(s) && s.fill.Reading? && k <= Asked(s.size, s.fill)
    ensures InRange(s, k) && s.fill.got + k <= s.fill.run * s.size
    ensures (s.w + s.fill.run) * s.size == s.w * s.size + s.fill.run * s.size <= |s.data|
  {
    AskedFits(s.size, s.fill);
    var end := s.w + s.fill.run;
    Monotone(end, Rows(s), s.size);
    Distribute(s.w, s.fill.run, s.size);
  }

  /** Rows not yet read lie outside the run being filled. */
  lemma UnreadOutsideRun(s: Ring, j: nat)
    requires Shape(s) && PointersOk(s) && FillOk(s) && s.fill.Reading? && s.read <= j < s.written
    ensures j % Rows(s) < Rows(s) && (j % Rows(s) < s.w || s.w + s.fill.run <= j % Rows(s))
  {
    var n, i := Rows(s), j % Rows(s) - s.w;
    Step(j, n);
    if 0 <= i < s.fill.run {
      RingIndex.Advance(s.written, i, n);
      Distinct(j, s.written + i, n);
    }
  }

  /** Received bytes change no unread row and extend the pending stretch. */
  lemma ReceivedRow(s: Ring, bytes: seq<uint8>, j: nat)
    requires Shape(s) && PointersOk(s) && FillOk(s) && s.fill.Reading? && |bytes| <= Asked(s.size, s.fill)
    requires InRange(s, |bytes|) && s.read <= j < s.written
    ensures SlotAt(Received(s, bytes).data, j % Rows(s), s.size) == SlotAt(s.data, j % Rows(s), s.size)
  {
    UnreadOutsideRun(s, j);
    ReadInRange(s, |bytes|);
    hide PointersOk, FillOk, SlotAt, Splice, Asked;
    var at := s.w * s.size + s.fill.got;
    SlotOutside(s.data, at, bytes, s.w, s.w + s.fill.run, j % Rows(s), Rows(s), s.size);
  }

  lemma SlotOfPrefix(link: seq<uint8>, bytes: seq<uint8>, i: nat, size: nat)
    requires (i + 1) * size <= |link|
    ensures SlotAt(link + bytes, i, size) == SlotAt(link, i, size)
  {
    Distribute(i, 1, size);
  }

  lemma ReceivedData(s: Ring, bytes: seq<uint8>)
    requires Shape(s) && PointersOk(s) && FillOk(s) && DataOk(s) && s.fill.Reading? && |bytes| <= Asked(s.size, s.fill)
    requires InRange(s, |bytes|)
    ensures DataOk(Received(s, bytes))
  {
    var t := Received(s, bytes);
    forall j | s.read <= j < s.written
      ensures SlotAt(t.data, j % Rows(s), s.size) == SlotAt(t.link, j, s.size)
    {
      ReceivedRow(s, bytes, j);
      Monotone(j, s.written, s.size);
      Distribute(j, 1, s.size);
      SlotOfPrefix(s.link, bytes, j, s.size);
    }
    hide PointersOk, FillOk, SlotAt;
    PendingGrows(s.data, s.w * s.size, s.fill.got, bytes);
    var base := s.written * s.size;
    assert (s.link + bytes)[base..] == s.link[base..] + bytes;
  }

  lemma PendingGrows(data: seq<uint8>, at: nat, got: nat, bytes: seq<uint8>)
    requires at + got + |bytes| <= |data|
    ensures Splice(data, at + got, bytes)[at..at + got + |bytes|] == data[at..at + got] + bytes
  {
  }

  /** What has been decoded does not depend on what the link delivers later. */
  lemma ReceivedDecoded(s: Ring, bytes: seq<uint8>)
    requires Shape(s) && DecodedOk(s) && s.fill.Reading? && InRange(s, |bytes|)
    ensures DecodedOk(Received(s, bytes))
  {
    var t, frame := Received(s, bytes), s.h * s.size;
    forall k | 0 <= k < |s.decoded|
      ensures t.decoded[k] == SlotAt(t.link, k, frame)
    {
      assert |SlotAt(s.link, k, frame)| == frame > 0 by {
        Monotone(0, s.h, s.size);
      }
      SlotOfPrefix(s.link, bytes, k, frame);
    }
    hide SlotAt;
    assert forall a, b :: 0 <= a <= b <= |s.link| ==> t.link[a..b] == s.link[a..b];
  }

  lemma ReadKeepsInv(s: Ring, bytes: seq<uint8>)
    requires Inv(s)
    ensures Inv(Apply(s, Read(bytes)))
  {
    if s.fill.Reading? && |bytes| <= Asked(s.size, s.fill) {
      ReadInRange(s, |bytes|);
      ReceivedData(s, bytes);
      ReceivedDecoded(s, bytes);
      hide DataOk, DecodedOk, InRange, Asked;
      assert PointersOk(Received(s, bytes)) && JobsOk(Received(s, bytes));
    }
  }

  /** A step that only changes what the transfer is up to. */
  lemma FillOnly(s: Ring, t: Ring)
    requires Inv(s) && t == s.(fill := t.fill) && Pending(t) == Pending(s) && Due(t) == Due(s)
    ensures PointersOk(t) && JobsOk(t) && DataOk(t) && DecodedOk(t)
  {
    hide SlotAt, FillOk;
  }

  lemma SettleKeepsInv(s: Ring)
    requires Inv(s)
    ensures Inv(Apply(s, Settle))
  {
    if s.fill.Reading? && !s.fill.first && s.fill.got % s.size == 0 {
      DivideBounds(s.fill.got, s.size);
      Monotone(s.fill.run, s.fill.got / s.size, s.size);
      WholeQuotient(s.fill.got, s.size);
      hide PointersOk, JobsOk, DataOk, DecodedOk;
      FillOnly(s, Apply(s, Settle));
    }
  }

  lemma WholeQuotient(v: nat, size: nat)
    requires size > 0 && v % size == 0
    ensures v == v / size * size
  {
  }

  /** The first pending row becomes a row of the ring. */
  lemma MovedData(s: Ring)
    requires Inv(s) && s.fill.Moving? && s.fill.left > 0
    ensures DataOk(Apply(s, MoveRow))
  {
    PendingRow(s);
    PendingRest(s);
    Step(s.written, Rows(s));
    hide SlotAt, DecodedOk, JobsOk, ReportOk, FillOk;
  }

  lemma PendingRow(s: Ring)
    requires Inv(s) && s.fill.Moving? && s.fill.left > 0
    ensures SlotAt(s.data, s.w, s.size) == SlotAt(s.link, s.written, s.size)
  {
    hide DecodedOk, JobsOk, ReportOk, FillOk, PointersOk;
    Distribute(s.w, 1, s.size);
    Distribute(s.written, 1, s.size);
    Distribute(s.fill.left - 1, 1, s.size);
    SameSlice(s.data, s.link, s.w * s.size, s.written * s.size, s.fill.left * s.size, 0, s.size);
  }

  /** What is still pending after it, wherever the write pointer goes. */
  lemma PendingRest(s: Ring)
    requires Inv(s) && s.fill.Moving? && s.fill.left > 0
    ensures var t := Apply(s, MoveRow);
            && |t.link| == t.written * t.size + Pending(t)
            && 0 <= t.w * t.size && 0 <= t.written * t.size && t.w * t.size + Pending(t) <= |t.data|
            && t.data[t.w * t.size..t.w * t.size + Pending(t)] == t.link[t.written * t.size..]
  {
    hide DecodedOk, JobsOk, ReportOk, PointersOk, SlotAt;
    RestOfRun(s.data, s.link, s.w, s.written, s.fill.left, s.size);
    var t := Apply(s, MoveRow);
    assert s.fill.left > 1 ==> t.w == s.w + 1;
    assert s.fill.left == 1 ==> Pending(t) == 0 && (t.w == s.w + 1 || t.w == 0);
  }

  lemma RestOfRun(data: seq<uint8>, link: seq<uint8>, w: nat, written: nat, left: nat, size: nat)
    requires left > 0 && 0 <= w * size && 0 <= written * size && 0 <= left * size
    requires |link| == written * size + left * size && w * size + left * size <= |data|
    requires data[w * size..w * size + left * size] == link[written * size..]
    ensures 0 <= (w + 1) * size && 0 <= (written + 1) * size && 0 <= (left - 1) * size
    ensures |link| == (written + 1) * size + (left - 1) * size && (w + 1) * size + (left - 1) * size <= |data|
    ensures data[(w + 1) * size..(w + 1) * size + (left - 1) * size] == link[(written + 1) * size..]
  {
    Distribute(w, 1, size);
    Distribute(written, 1, size);
    Distribute(left - 1, 1, size);
    var a, b, k := w * size, written * size, left * size;
    SameSlice(data, link, a, b, k, size, k);
    assert link[b + size..] == link[b + size..b + k];
  }

  lemma SameSlice(data: seq<uint8>, link: seq<uint8>, a: nat, b: nat, k: nat, lo: nat, hi: nat)
    requires a + k <= |data| && b + k == |link| && data[a..a + k] == link[b..] && lo <= hi <= k
    ensures data[a + lo..a + hi] == link[b + lo..b + hi]
  {
    assert link[b..] == link[b..b + k];
    SliceOfSlice(data, a, a + k, lo, hi);
    SliceOfSlice(link, b, b + k, lo, hi);
  }

  lemma MoveKeepsInv(s: Ring)
    requires Inv(s)
    ensures Inv(Apply(s, MoveRow))
  {
    if s.fill.Moving? {
      var t := Apply(s, MoveRow);
      if s.fill.left > 0 {
        MovedData(s);
        hide DataOk, DecodedOk;
        Step(s.written, Rows(s));
      } else {
        BeginReport(s);
      }
    }
  }

  /** As many jobs as whole frames lie between the report and the write pointer. */
  lemma BeginReport(s: Ring)
    requires Inv(s) && s.fill == Moving(0)
    ensures Inv(Apply(s, MoveRow))
  {
    hide SlotAt;
    Compare(s.reported, s.written, Rows(s));
    DivideBounds(Unreported(s), s.h);
    assert DataOk(Apply(s, MoveRow));
    hide DataOk, DecodedOk;
  }

  lemma DivideBounds(v: nat, h: nat)
    requires h > 0
    ensures 0 <= v / h * h <= v < (v / h + 1) * h
  {
    assert v == v / h * h + v % h;
    Distribute(v / h, 1, h);
  }

  /** The job is in the queue before the report pointer counts its rows. */
  lemma QueueKeepsInv(s: Ring, ok: bool)
    requires Inv(s)
    ensures Inv(Apply(s, Queue(ok)))
  {
    if s.fill.Reporting? {
      var k := |s.decoded| + Unfinished(s) + s.dropped;
      Distribute(k, 1, s.h);
      Monotone(0, s.fill.left, s.h);
      ReportedData(s, Apply(s, Queue(ok)));
      hide DataOk, DecodedOk;
    }
  }

  lemma MoveReportKeepsInv(s: Ring)
    requires Inv(s)
    ensures Inv(Apply(s, MoveReport))
  {
    if s.fill.Queued? {
      ReportFits(s);
      RingIndex.Advance(s.reported, s.h, Rows(s));
      Distribute(s.fill.left - 1, 1, s.h);
      Distribute(s.fill.left, 1, s.h);
      ReportedData(s, Apply(s, MoveReport));
      hide DataOk, DecodedOk;
    }
  }

  /** The report pointer moves by whole frames and meets the ring's end exactly. */
  lemma ReportFits(s: Ring)
    requires Inv(s) && s.fill.Queued?
    ensures s.p + s.h <= Rows(s)
  {
    hide DataOk, DecodedOk;
    var k := |s.decoded| + Unfinished(s) + s.dropped;
    if k > 0 {
      Distribute(k - 1, 1, s.h);
      FrameStart(k - 1, s.h);
    }
  }

  /** Queueing a job and moving the report pointer touch no row. */
  lemma ReportedData(s: Ring, t: Ring)
    requires Shape(s) && DataOk(s) && DecodedOk(s) && Shape(t) && (s.fill.Reporting? || s.fill.Queued?)
    requires t.fill.Idle? || t.fill.Reporting? || t.fill.Queued?
    requires t == s.(fill := t.fill, queued := t.queued, reported := t.reported, p := t.p, missed := t.missed)
    ensures DataOk(t) && DecodedOk(t)
  {
    hide SlotAt;
  }

  /** A job that gets no memory is dropped; its rows stay where they are. */
  lemma StartJobKeepsInv(s: Ring, ok: bool)
    requires Inv(s)
    ensures Inv(Apply(s, StartJob(ok)))
  {
    if s.job.Resting? && s.queued > 0 {
      StartedDecoded(s);
      StartedData(s, Apply(s, StartJob(ok)));
      hide DataOk, DecodedOk, FillOk, SlotAt;
    }
  }

  /** A step that only takes a job from the queue. */
  lemma StartedData(s: Ring, t: Ring)
    requires Inv(s) && s.job.Resting? && t == s.(queued := t.queued, job := t.job, dropped := t.dropped)
    requires t.job == Resting || (t.job.Decoding? && t.job.row == 0 && t.job.out == [])
    requires 0 <= |s.decoded| * (s.h * s.size) <= |s.link|
    ensures DataOk(t) && FillOk(t) && DecodedOk(t)
  {
    SameBytes(s, t);
    NoRowYet(s, t);
  }

  lemma SameBytes(s: Ring, t: Ring)
    requires Shape(s) && DataOk(s) && FillOk(s) && t == s.(queued := t.queued, job := t.job, dropped := t.dropped)
    ensures DataOk(t) && FillOk(t)
  {
    hide SlotAt;
  }

  lemma NoRowYet(s: Ring, t: Ring)
    requires Shape(s) && DecodedOk(s) && t == s.(queued := t.queued, job := t.job, dropped := t.dropped)
    requires t.job == Resting || (t.job.Decoding? && t.job.row == 0 && t.job.out == [])
    requires 0 <= |s.decoded| * (s.h * s.size) <= |s.link|
    ensures DecodedOk(t)
  {
    hide SlotAt;
  }

  lemma StartedDecoded(s: Ring)
    requires Inv(s) && s.job.Resting?
    ensures 0 <= |s.decoded| * (s.h * s.size) <= |s.link|
  {
    hide DecodedOk, FillOk;
    FrameBytes(|s.decoded|, s.h, s.size);
    Monotone(s.read, s.written, s.size);
  }

  lemma FrameBytes(d: nat, h: nat, size: nat)
    ensures d * (h * size) == (d * h) * size && 0 <= d * (h * size)
  {
  }

  /** The running job's linear position is the ring's read pointer, and stays in the buffer. */
  lemma LinearIsWrapped(s: Ring)
    requires Inv(s) && s.job.Decoding?
    ensures s.job.from + s.job.row < Rows(s) && s.r == s.job.from + s.job.row
  {
    hide DataOk, DecodedOk, FillOk;
    FrameStart(|s.decoded|, s.h);
    RingIndex.Advance(|s.decoded| * s.h, s.job.row, Rows(s));
  }

  /** A job has unread rows in front of it until its last row is done. */
  lemma JobHasRows(s: Ring)
    requires Shape(s) && PointersOk(s) && JobsOk(s) && s.job.Decoding?
    ensures s.read < s.reported + Due(s)
  {
    var k := Unfinished(s) + s.dropped;
    Distribute(|s.decoded|, k, s.h);
    Monotone(1, k, s.h);
  }

  lemma DecodedData(s: Ring)
    requires Inv(s) && s.job.Decoding?
    ensures DataOk(Decoded(s)) && FillOk(Decoded(s)) && ReportOk(Decoded(s))
  {
    hide SlotAt, DecodedOk, JobsOk;
  }

  /** The row decoded is the one the link delivered for this place in the frame. */
  lemma DecodedOut(s: Ring)
    requires Inv(s) && s.job.Decoding?
    ensures var from, size := |s.decoded| * (s.h * s.size), (s.job.row + 1) * s.size;
            && 0 <= from && 0 <= size && from + size <= |s.link|
            && s.job.out + SlotAt(s.data, s.job.from + s.job.row, s.size) == s.link[from..from + size]
  {
    LinearIsWrapped(s);
    JobHasRows(s);
    NextRow(s);
    hide SlotAt, PointersOk, DataOk, FillOk, ReportOk;
    var j, d := s.read, |s.decoded|;
    FrameBytes(d, s.h, s.size);
    Distribute(d * s.h, s.job.row, s.size);
    Distribute(s.job.row, 1, s.size);
    SlotUnfold(s.link, j, s.size);
    SlicesJoin(s.link, d * (s.h * s.size), j * s.size, (j + 1) * s.size);
  }

  /** The oldest unread row. */
  lemma NextRow(s: Ring)
    requires Inv(s) && s.read < s.written
    ensures 0 <= s.read * s.size && (s.read + 1) * s.size == s.read * s.size + s.size <= |s.link|
    ensures SlotAt(s.data, s.r, s.size) == SlotAt(s.link, s.read, s.size)
  {
    hide SlotAt, DecodedOk, FillOk, JobsOk;
    var j := s.read;
    assert SlotAt(s.data, j % Rows(s), s.size) == SlotAt(s.link, j, s.size);
    SlotBounds(j, s.written, s.size);
  }

  lemma DecodedHistory(s: Ring)
    requires Inv(s) && s.job.Decoding?
    ensures DecodedOk(Decoded(s))
  {
    DecodedOut(s);
    RowBelow(s);
    if s.job.row + 1 == s.h {
      LastRow(s);
    } else {
      hide DataOk, FillOk, PointersOk, JobsOk, SlotAt;
    }
  }

  lemma LastRow(s: Ring)
    requires Shape(s) && DecodedOk(s) && s.job.Decoding? && s.job.row + 1 == s.h
    requires var from, size := |s.decoded| * (s.h * s.size), (s.job.row + 1) * s.size;
             && 0 <= from && 0 <= size && from + size <= |s.link|
             && s.job.out + SlotAt(s.data, s.job.from + s.job.row, s.size) == s.link[from..from + size]
    ensures DecodedOk(Decoded(s))
  {
    hide SlotAt;
    var d, frame := |s.decoded|, s.h * s.size;
    Distribute(d, 1, frame);
    SlotUnfold(s.link, d, frame);
  }

  lemma RowBelow(s: Ring)
    requires Shape(s) && JobsOk(s) && s.job.Decoding?
    ensures s.job.row < s.h
  {
  }

  lemma DecodeRowKeepsInv(s: Ring)
    requires Inv(s)
    ensures Inv(Apply(s, DecodeRow))
  {
    if s.job.Decoding? {
      LinearIsWrapped(s);
      JobHasRows(s);
      DecodedData(s);
      DecodedHistory(s);
      hide DataOk, DecodedOk, FillOk, SlotAt;
      Step(s.read, Rows(s));
      Distribute(|s.decoded|, 1, s.h);
      assert PointersOk(Decoded(s));
      assert JobsOk(Decoded(s));
    }
  }

  // ----- what holds in every run -----

  lemma ApplyKeepsInv(s: Ring, e: Event)
    requires Inv(s)
    ensures Inv(Apply(s, e))
  {
    hide *;
    match e
    case Look => LookKeepsInv(s);
    case Count => CountKeepsInv(s);
    case Read(bytes) => ReadKeepsInv(s, bytes);
    case Settle => SettleKeepsInv(s);
    case MoveRow => MoveKeepsInv(s);
    case Queue(ok) => QueueKeepsInv(s, ok);
    case MoveReport => MoveReportKeepsInv(s);
    case StartJob(ok) => StartJobKeepsInv(s, ok);
    case DecodeRow => DecodeRowKeepsInv(s);
  }

  lemma {:induction false} RunKeepsInv(s: Ring, events: seq<Event>)
    requires Inv(s)
    ensures Inv(Run(s, events))
  {
    hide PointersOk, JobsOk, FillOk, ReportOk, DataOk, DecodedOk, Apply;
    if events != [] {
      var before := events[..|events| - 1];
      RunKeepsInv(s, before);
      ApplyKeepsInv(Run(s, before), events[|events| - 1]);
    }
  }

  /** No write leaves the buffer or the free run, no read leaves it, and the ring is never left locked. */
  lemma NeverBroken(s: Ring, events: seq<Event>)
    requires Start(s)
    ensures !Run(s, events).fill.Broken? && !Run(s, events).job.Outside?
  {
    StartInv(s);
    RunKeepsInv(s, events);
    hide DataOk, DecodedOk, PointersOk;
  }

  /** Ring distance from the read to the report pointer. */
  function Distance(s: Ring): int { if s.p >= s.r then s.p - s.r else s.p + Rows(s) - s.r }

  /**
   The distance counts the rows of unfinished and of dropped jobs, less a frame between queueing a job and moving
   the pointer; a job that has run into that frame by then makes it wrap.  So the plain equation on unfinished jobs
   holds exactly when the dropped jobs are none, or one in that gap.
   */
  lemma ReportDistance(s: Ring, events: seq<Event>)
    requires Start(s)
    ensures var t := Run(s, events);
            var rows := (Unfinished(t) + t.dropped) * t.h - Consumed(t) - Due(t);
            && Distance(t) == (if rows >= 0 then rows else rows + Rows(t))
            && (rows < 0 ==> t.fill.Queued? && t.dropped == 0)
            && (Distance(t) == Unfinished(t) * t.h - Consumed(t) <==> t.dropped == Bit(t.fill.Queued?))
  {
    StartInv(s);
    RunKeepsInv(s, events);
    DistanceHere(Run(s, events));
  }

  lemma DistanceHere(t: Ring)
    requires Inv(t)
    ensures var rows := (Unfinished(t) + t.dropped) * t.h - Consumed(t) - Due(t);
            && Distance(t) == (if rows >= 0 then rows else rows + Rows(t))
            && (rows < 0 ==> t.fill.Queued? && t.dropped == 0)
            && (Distance(t) == Unfinished(t) * t.h - Consumed(t) <==> t.dropped == Bit(t.fill.Queued?))
  {
    RowsAhead(t);
    PointerGap(t);
    hide Inv, Shape, Distance, Unfinished, Consumed;
    PlainExactlyWhen(Unfinished(t), Consumed(t), t.dropped, Bit(t.fill.Queued?), t.h);
  }

  /** Reported rows not yet read, in jobs. */
  lemma RowsAhead(t: Ring)
    requires Shape(t) && JobsOk(t)
    ensures t.reported - t.read == (Unfinished(t) + t.dropped) * t.h - Consumed(t) - Due(t)
    ensures t.h > 0 && Consumed(t) <= Unfinished(t) * t.h
  {
    Distribute(|t.decoded|, Unfinished(t) + t.dropped, t.h);
    Monotone(0, Unfinished(t), t.h);
  }

  /** And on the wrapped pointers. */
  lemma PointerGap(t: Ring)
    requires Shape(t) && PointersOk(t)
    ensures var rows := t.reported - t.read; Distance(t) == if rows >= 0 then rows else rows + Rows(t)
  {
    if t.read <= t.reported {
      Compare(t.read, t.reported, Rows(t));
    } else {
      Compare(t.reported, t.read, Rows(t));
    }
  }

  lemma PlainExactlyWhen(u: nat, c: nat, d: nat, due: nat, h: nat)
    requires h > 0 && due <= 1 && c <= u * h
    ensures var rows := (u + d) * h - c - due * h;
            && (rows < 0 ==> due == 1 && d == 0)
            && ((if rows >= 0 then rows else rows + 4 * h) == u * h - c <==> d == due)
  {
    Distribute(u, d, h);
    Monotone(1, d, h);
    Monotone(0, d, h);
  }

  /** Every decoded frame is its own group of rows of the link's bytes: none skipped, mixed or read too early. */
  lemma FramesInOrder(s: Ring, events: seq<Event>, k: nat)
    requires Start(s) && k < |Run(s, events).decoded|
    ensures var t := Run(s, events);
            && |t.decoded[k]| == t.h * t.size
            && t.decoded[k] == SlotAt(t.link, k, t.h * t.size)
  {
    StartInv(s);
    RunKeepsInv(s, events);
  }

  /** A running job reads rows already written, at the ring's read pointer, and does not cross the ring's end. */
  lemma JobReadsWrittenRows(s: Ring, events: seq<Event>)
    requires Start(s) && Run(s, events).job.Decoding?
    ensures var t := Run(s, events);
            && t.read < t.reported + Due(t) <= t.written
            && t.job.from % t.h == 0 && t.job.from + t.h <= Rows(t)
            && t.job.from + t.job.row == t.r
  {
    StartInv(s);
    RunKeepsInv(s, events);
    var t := Run(s, events);
    JobHasRows(t);
    LinearIsWrapped(t);
    JobStart(t);
    hide DataOk, DecodedOk, FillOk, ReportOk, JobsOk;
  }

  lemma JobStart(t: Ring)
    requires Shape(t) && JobsOk(t) && t.job.Decoding?
    ensures t.job.from % t.h == 0 && t.job.from + t.h <= Rows(t)
  {
    FrameStart(|t.decoded|, t.h);
    ModOf(|t.decoded| % 4, t.h, 0);
  }

  /** The write pointer stays one row short of the read pointer, and a transfer publishes whole rows of its run. */
  lemma OneRowFree(s: Ring, events: seq<Event>)
    requires Start(s)
    ensures var t := Run(s, events);
            && t.written - t.read < Rows(t)
            && (t.fill.Moving? ==> t.written + t.fill.left - t.read < Rows(t) && t.w + t.fill.left <= Rows(t)
                                   && |t.link| == (t.written + t.fill.left) * t.size)
  {
    StartInv(s);
    RunKeepsInv(s, events);
    var t := Run(s, events);
    hide DecodedOk, SlotAt;
    if t.fill.Moving? {
      Distribute(t.written, t.fill.left, t.size);
    }
  }

  /** Between transfers a complete frame waits unreported exactly when a job could not be queued. */
  lemma WholeFramesReported(s: Ring, events: seq<Event>)
    requires Start(s) && Run(s, events).fill == Idle
    ensures var t := Run(s, events); t.missed <==> t.written - t.reported >= t.h
  {
    StartInv(s);
    RunKeepsInv(s, events);
  }

  // ----- dropped jobs -----

  /** Rows of dropped jobs are never freed; three of them leave no room for another frame. */
  ghost predicate StallOk(s: Ring) { s.dropped <= 3 && (s.dropped == 3 ==> Unfinished(s) == 0) }

  /** Jobs unfinished and dropped fit the ring; so do they with one to be queued. */
  lemma JobsFit(s: Ring)
    requires Inv(s)
    ensures var more := if s.fill.Reporting? && s.fill.left > 0 then 1 else 0;
            Consumed(s) == 0 ==> Unfinished(s) + s.dropped + more <= 3
  {
    hide DataOk, DecodedOk, ReportOk;
    RowsAhead(s);
    var k := Unfinished(s) + s.dropped;
    if s.fill.Reporting? && s.fill.left > 0 {
      Monotone(0, s.fill.left - 1, s.h);
      Distribute(s.fill.left - 1, 1, s.h);
      Distribute(k, 1, s.h);
      Monotone(3, k + 1, s.h);
    }
    Monotone(3, k, s.h);
  }

  lemma StallStep(s: Ring, e: Event)
    requires Inv(s) && StallOk(s)
    ensures StallOk(Apply(s, e)) && (s.dropped == 3 ==> Apply(s, e).decoded == s.decoded)
  {
    JobsFit(s);
    hide PointersOk, JobsOk, FillOk, ReportOk, DataOk, DecodedOk;
  }

  lemma {:induction false} StallInRun(s: Ring, events: seq<Event>)
    requires Inv(s) && StallOk(s)
    ensures StallOk(Run(s, events))
    ensures s.dropped == 3 ==> Run(s, events).decoded == s.decoded && Run(s, events).dropped == 3
  {
    hide PointersOk, JobsOk, FillOk, ReportOk, DataOk, DecodedOk, Apply;
    if events != [] {
      var before := events[..|events| - 1];
      StallInRun(s, before);
      RunKeepsInv(s, before);
      StallStep(Run(s, before), events[|events| - 1]);
      DroppedGrows(Run(s, before), events[|events| - 1]);
    }
  }

  lemma DroppedGrows(s: Ring, e: Event)
    requires Shape(s)
    ensures Apply(s, e).dropped >= s.dropped
  {
  }

  /** At most three jobs are ever dropped, and the third one ends the flow: no frame is decoded after it. */
  lemma ThreeDropsEndTheFlow(s: Ring, events: seq<Event>, more: seq<Event>)
    requires Start(s)
    ensures Run(s, events).dropped <= 3
    ensures Run(s, events).dropped == 3 ==> Run(Run(s, events), more).decoded == Run(s, events).decoded
  {
    StartInv(s);
    RunKeepsInv(s, events);
    StallInRun(s, events);
    StallInRun(Run(s, events), more);
  }
}
