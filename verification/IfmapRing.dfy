/** The input ring over its flat buffer: pushing a frame and the two ways of writing frames to the link. */
module IfmapRing {
  import opened Arithmetic
  import opened Words
  import opened RingIndex
  import opened Splicing
  import opened Slots
  import opened FrameRing
  import LoadBalance

  // ----- slots of the flat buffer -----

  function SlotsOf(data: seq<uint8>, n: nat, size: nat): (slots: seq<seq<uint8>>)
    ensures |slots| == n
  {
    seq(n, i requires 0 <= i < n => SlotAt(data, i, size))
  }

  lemma SlotsIndex(data: seq<uint8>, n: nat, size: nat, i: nat)
    requires i < n
    ensures SlotsOf(data, n, size)[i] == SlotAt(data, i, size)
  {
  }

  /** Slots that follow each other lie back to back. */
  lemma {:induction false} RunIsFlat(data: seq<uint8>, n: nat, size: nat, r: nat, run: nat)
    requires |data| == n * size && r + run <= n
    ensures 0 <= r * size <= (r + run) * size <= |data|
    ensures Concat(SlotsOf(data, n, size)[r..r + run]) == data[r * size..(r + run) * size]
  {
    hide SlotAt, SlotsOf;
    var slots := SlotsOf(data, n, size);
    if run == 0 {
      if r < n {
        SlotBounds(r, n, size);
      }
      assert slots[r..r] == [];
    } else {
      RunIsFlat(data, n, size, r, run - 1);
      SlotBounds(r + run - 1, n, size);
      SlotsIndex(data, n, size, r + run - 1);
      SlotUnfold(data, r + run - 1, size);
      SlicesJoin(data, r * size, (r + run - 1) * size, (r + run) * size);
      var part := slots[r..r + run];
      assert part[..run - 1] == slots[r..r + (run - 1)];
    }
  }

  /** Copying a frame to the start of slot w changes that slot's head only. */
  lemma CopyIntoSlot(data: seq<uint8>, n: nat, size: nat, w: nat, frame: Frame)
    requires |data| == n * size && w < n && |frame| <= size
    ensures 0 <= w * size && w * size + |frame| <= |data| && |SlotAt(data, w, size)| == size
    ensures SlotsOf(Splice(data, w * size, frame), n, size)
         == SlotsOf(data, n, size)[w := frame + SlotAt(data, w, size)[|frame|..]]
  {
    hide SlotAt, Splice;
    SlotBounds(w, n, size);
    SlotUnfold(data, w, size);
    var next := Splice(data, w * size, frame);
    forall i: nat | i < n
      ensures SlotAt(next, i, size)
           == if i == w then frame + SlotAt(data, w, size)[|frame|..] else SlotAt(data, i, size)
    {
      SlotBounds(i, n, size);
      Monotone(i, w, size);
      Monotone(w, i, size);
      SlotUnfold(data, i, size);
      SlotUnfold(next, i, size);
      SplicedSlice(data, w * size, frame, i * size, i * size + size);
    }
  }

  // ----- events of one call -----

  function PushEvents(frame: Frame): seq<Event> { [Reserve(frame), Copy, Publish] }

  /** A blocking transfer that has written `total` bytes of its run. */
  function WritingEvents(total: nat): seq<Event> { [Look, Begin(true), Write(total)] }

  /** A finished blocking transfer. */
  function DrainEvents(run: nat, size: nat): seq<Event> { WritingEvents(run * size) + [Finish] + Pops(run) }

  function Pops(k: nat): seq<Event> { seq(k, _ => Pop) }

  /** A non-blocking transfer that wrote `length` bytes, continuing a frame or starting one. */
  function ChunkEvents(starts: bool, length: nat, ends: bool): seq<Event> {
    if length == 0 then []
    else (if starts then [Look, Begin(false)] else []) + [Write(length)] + if ends then [Finish, Pop] else []
  }

  lemma RunOneMore(s: Ring, events: seq<Event>, e: Event)
    requires Shape(s)
    ensures Run(s, events + [e]) == Apply(Run(s, events), e)
  {
    assert (events + [e])[..|events|] == events;
  }

  lemma {:induction false} RunAppend(s: Ring, a: seq<Event>, b: seq<Event>)
    requires Shape(s)
    ensures Run(s, a + b) == Run(Run(s, a), b)
  {
    hide Shape, Apply;
    if b == [] {
      assert a + b == a;
    } else {
      var c, e := b[..|b| - 1], b[|b| - 1];
      assert a + b == (a + c) + [e] && b == c + [e];
      RunAppend(s, a, c);
      RunOneMore(s, a + c, e);
      RunOneMore(Run(s, a), c, e);
    }
  }

  lemma RunNone(s: Ring)
    requires Shape(s)
    ensures Run(s, []) == s
  {
  }

  lemma RunOne(s: Ring, e: Event)
    requires Shape(s)
    ensures Run(s, [e]) == Apply(s, e)
  {
    hide Shape, Apply;
    RunNone(s);
    RunOneMore(s, [], e);
    assert [] + [e] == [e];
  }

  lemma RunTwo(s: Ring, d: Event, e: Event)
    requires Shape(s)
    ensures Run(s, [d, e]) == Apply(Apply(s, d), e)
  {
    hide Shape, Apply;
    RunOne(s, d);
    RunOneMore(s, [d], e);
    assert [d] + [e] == [d, e];
  }

  lemma PushAtOnce(s: Ring, frame: Frame)
    requires Shape(s) && s.producer == Idle && |frame| == s.user && (s.w + 1) % |s.slots| != s.r
    ensures Run(s, PushEvents(frame)) == s.(slots := s.slots[s.w := frame + s.slots[s.w][s.user..]],
                                            pushed := s.pushed + [frame], w := Next(s.w, |s.slots|))
  {
    hide Run;
    RunTwo(s, Reserve(frame), Copy);
    RunOneMore(s, [Reserve(frame), Copy], Publish);
    assert [Reserve(frame), Copy] + [Publish] == PushEvents(frame);
  }

  /** Looking and beginning leave the worker at the start of its run. */
  lemma BeginAtOnce(s: Ring, blocking: bool)
    requires Shape(s) && s.consumer == Resting && s.w != s.r
    ensures Run(s, [Look, Begin(blocking)]) == s.(consumer := Sending(if blocking then ContiguousRun(s) else 1, 0))
  {
    RunTwo(s, Look, Begin(blocking));
  }

  /** Two writes in a row amount to one. */
  lemma WriteTwice(s: Ring, a: nat, b: nat)
    requires Shape(s) && s.consumer.Sending? && s.consumer.sent + a + b <= |Offered(s)|
    ensures Apply(Apply(s, Write(a)), Write(b)) == Apply(s, Write(a + b))
  {
    hide Concat;
    WriteOnce(s, a);
    var o, i := Offered(s), s.consumer.sent;
    assert o[i..i + a] + o[i + a..i + a + b] == o[i..i + a + b];
  }

  function WholeWords(n: nat): nat { n - n % 4 }

  predicate ManyWrites(size: nat, w: nat, buffers: nat)
    requires w > 0
  {
    size / w > buffers
  }

  /** Bytes offered per non-blocking write: a row, or a share of the frame when the chip controls the flow. */
  function WriteLimit(row: nat, control: bool, size: nat, buffers: nat): nat
    requires buffers > 0
  {
    var w := if WholeWords(row) != 0 then WholeWords(row) else 4;
    if control && size < 0x40000 && ManyWrites(size, w, buffers) then WholeWords(size / buffers) else w
  }

  /** A write is never empty and keeps the link on word boundaries. */
  lemma WriteLimitPositive(row: nat, control: bool, size: nat, buffers: nat)
    requires buffers > 0
    ensures WriteLimit(row, control, size, buffers) > 0 && WriteLimit(row, control, size, buffers) % 4 == 0
  {
    var w := if WholeWords(row) != 0 then WholeWords(row) else 4;
    hide ManyWrites, WholeWords;
    WordsOf(row);
    if control && size < 0x40000 && ManyWrites(size, w, buffers) {
      LargeQuotient(size, w, buffers);
      WordsOf(size / buffers);
    }
  }

  /**
   The limit in full.  It is the row cut to whole words, at least one word w; but with flow control and a frame below
   256 KiB that would take more writes than there are frame buffers, it is the largest share of whole words that many
   writes can make of a frame.
   */
  lemma WriteLimitExactly(row: nat, control: bool, size: nat, buffers: nat, w: nat)
    requires buffers > 0 && w > 0 && w % 4 == 0 && (w <= row < w + 4 || (row < 4 && w == 4))
    ensures var limit := WriteLimit(row, control, size, buffers);
            if control && size < 0x40000 && (buffers + 1) * w <= size
            then limit % 4 == 0 && limit * buffers <= size < (limit + 4) * buffers
            else limit == w
  {
    RowWords(row, w);
    ManyWritesExactly(size, w, buffers);
    WordsShare(size, buffers);
    hide WholeWords, ManyWrites;
  }

  lemma RowWords(row: nat, w: nat)
    requires w > 0 && w % 4 == 0 && (w <= row < w + 4 || (row < 4 && w == 4))
    ensures w == if WholeWords(row) != 0 then WholeWords(row) else 4
  {
  }

  lemma ManyWritesExactly(size: nat, w: nat, buffers: nat)
    requires w > 0
    ensures ManyWrites(size, w, buffers) <==> (buffers + 1) * w <= size
  {
    var q := size / w;
    assert size == q * w + size % w;
    Monotone(q, buffers + 1, w);
    OneMore(q, w);
    if q > buffers {
      MulMonotone(buffers + 1, q, w);
    } else {
      MulMonotone(q + 1, buffers + 1, w);
    }
  }

  lemma WordsShare(size: nat, buffers: nat)
    requires buffers > 0
    ensures var share := WholeWords(size / buffers);
            share % 4 == 0 && share * buffers <= size < (share + 4) * buffers
  {
    var p := size / buffers;
    var share := WholeWords(p);
    WordsOf(p);
    assert size == p * buffers + size % buffers;
    MulMonotone(share, p, buffers);
    Monotone(p, share + 4, buffers);
  }

  lemma WordsOf(v: nat)
    ensures WholeWords(v) % 4 == 0 && (v >= 4 ==> WholeWords(v) >= 4) && WholeWords(v) <= v < WholeWords(v) + 4
  {
  }

  lemma LargeQuotient(size: nat, w: nat, buffers: nat)
    requires w >= 4 && buffers > 0 && ManyWrites(size, w, buffers)
    ensures size / buffers >= 4
  {
    var q := size / w;
    assert size == q * w + size % w;
    Monotone(buffers, q, w);
    assert buffers * w >= buffers * 4;
    var p := size / buffers;
    assert size == p * buffers + size % buffers;
    Monotone(p, 4, buffers);
  }

  lemma ZeroSlots(data: seq<uint8>, n: nat, size: nat)
    requires |data| == n * size && forall i :: 0 <= i < |data| ==> data[i] == 0
    ensures forall i :: 0 <= i < n ==> SlotsOf(data, n, size)[i] == Zeros(size)
  {
    forall i: nat | i < n
      ensures SlotAt(data, i, size) == Zeros(size)
    {
      SlotBounds(i, n, size);
    }
  }

  function Total(replies: seq<nat>): nat {
    if replies == [] then 0 else Total(replies[..|replies| - 1]) + replies[|replies| - 1]
  }

  lemma TotalOneMore(replies: seq<nat>, k: nat)
    requires k < |replies|
    ensures Total(replies[..k + 1]) == Total(replies[..k]) + replies[k]
  {
    assert replies[..k + 1][..k] == replies[..k];
  }

  lemma {:induction false} TotalGrows(replies: seq<nat>, k: nat)
    requires k <= |replies|
    ensures Total(replies[..k]) <= Total(replies) && (k == |replies| ==> Total(replies[..k]) == Total(replies))
    decreases |replies| - k
  {
    if k < |replies| {
      TotalOneMore(replies, k);
      TotalGrows(replies, k + 1);
    } else {
      assert replies[..k] == replies;
    }
  }

  // ----- the buffer -----

  class FrameBuffer {
    const n: nat
    const size: nat
    const user: nat
    const data: array<uint8>
    var entryW: nat
    var entryR: nat
    var transferredSize: nat
    var link: seq<uint8>
    ghost var worker: Consumer
    ghost var pushed: seq<Frame>
    ghost var popped: nat

    ghost function State(): Ring
      reads this, data
    {
      Ring(SlotsOf(data[..], n, size), size, user, entryW, entryR, Idle, worker, pushed, popped, link)
    }

    /** Between calls: the worker rests, or has a frame half written by the non-blocking transfer. */
    ghost predicate Valid()
      reads this, data
    {
      && data.Length == n * size && Inv(State()) && transferredSize < size
      && worker == (if transferredSize == 0 then Resting else Sending(1, transferredSize))
    }

    constructor (n: nat, size: nat, user: nat)
      requires n >= 2 && size > 0 && user <= size
      ensures Valid() && fresh(data) && Start(State())
      ensures this.n == n && this.size == size && this.user == user && transferredSize == 0
    {
      this.n, this.size, this.user := n, size, user;
      data := new uint8[n * size](_ => 0);
      entryW, entryR, transferredSize, link := 0, 0, 0, [];
      worker, pushed, popped := Resting, [], 0;
      new;
      ZeroSlots(data[..], n, size);
      StartInv(State());
    }

    /** What the abstract state is made of. */
    lemma Fields()
      ensures var s := State();
              && |s.slots| == n && s.size == size && s.user == user && s.w == entryW && s.r == entryR
              && s.producer == Idle && s.consumer == worker
              && s.pushed == pushed && s.popped == popped && s.taken == link
              && s.slots == SlotsOf(data[..], n, size)
    {
    }

    method CopyFrame(frame: Frame)
      requires data.Length == n * size && entryW < n && |frame| <= size
      modifies data
      ensures SlotsOf(data[..], n, size)
           == SlotsOf(old(data[..]), n, size)[entryW := frame + SlotsOf(old(data[..]), n, size)[entryW][|frame|..]]
    {
      hide SlotAt;
      var offset := entryW * size;
      ghost var before := data[..];
      CopyIntoSlot(before, n, size, entryW, frame);
      SpliceNothing(before, offset);
      for k := 0 to |frame|
        invariant data[..] == Splice(before, offset, frame[..k])
      {
        SpliceOne(before, offset, frame[..k], frame[k]);
        assert frame[..k + 1] == frame[..k] + [frame[k]];
        data[offset + k] := frame[k];
      }
      assert frame[..|frame|] == frame;
    }

    /** stream_ifmap with the wait for room as a single test. */
    method StreamIfmap(frame: Frame) returns (ok: bool)
      requires Valid() && |frame| == user
      modifies this`entryW, this`pushed, data
      ensures Valid() && transferredSize == old(transferredSize)
      ensures ok <==> old(|pushed| + 1 < popped + n)
      ensures State() == if ok then Run(old(State()), PushEvents(frame)) else old(State())
      ensures ok ==> pushed == old(pushed) + [frame] && entryW == Next(old(entryW), n)
    {
      hide Inv, Shape, Run, Apply, SlotsOf, SlotAt, PushEvents;
      ghost var was := State();
      Fields();
      FullTest(was);
      if (entryW + 1) % n == entryR {
        return false;
      }
      CopyFrame(frame);
      entryW := if entryW + 1 == n then 0 else entryW + 1;
      pushed := pushed + [frame];
      PushAtOnce(was, frame);
      RunKeepsInv(was, PushEvents(frame));
      Fields();
      ok := true;
    }

    /** The worker has written `total` bytes of a run of frames since state `was`. */
    ghost predicate Writing(was: Ring, run: nat, total: nat)
      reads this, data
    {
      && data.Length == n * size && Shape(was) && was.consumer == Resting && was.w != was.r
      && State() == Run(was, WritingEvents(total))
      && worker == Sending(run, total) && total <= run * size && Shape(State())
    }

    /** One write of the blocking transfer. */
    method WriteSome(offset: nat, total: nat, length: nat, ghost was: Ring, ghost run: nat)
      requires Writing(was, run, total) && offset == entryR * size && total + length <= run * size
      modifies this`link, this`worker
      ensures Writing(was, run, total + length)
      ensures |link| == old(|link|) + length && link[..old(|link|)] == old(link)
    {
      hide Shape, Run, Apply, SlotsOf, Concat;
      Fields();
      ghost var before := State();
      Bounds(before);
      FlatWrite(before, data[..], length);
      link := link + data[offset + total..offset + total + length];
      worker := Sending(run, total + length);
      Fields();
      WritesMerge(was, total, length);
    }

    /**
     The blocking transfer of one contiguous run; replies[i] is what the link would take on attempt i.
     It only returns when the run is through; `finished` is false where the replies end before that.
     */
    method TransferBlocking(replies: seq<nat>) returns (total: nat, finished: bool)
      requires Valid() && transferredSize == 0 && entryW != entryR
      modifies this`entryR, this`link, this`worker, this`popped
      ensures total == Min(Total(replies), ContiguousRun(old(State())) * size)
      ensures finished <==> total == ContiguousRun(old(State())) * size
      ensures finished ==> Valid() && transferredSize == 0
                           && State() == Run(old(State()), DrainEvents(ContiguousRun(old(State())), size))
      ensures !finished ==> State() == Run(old(State()), WritingEvents(total))
      ensures |link| == old(|link|) + total && link[..old(|link|)] == old(link)
      ensures finished ==> total == (popped - old(popped)) * size
                           && entryR == (if entryW > old(entryR) then entryW else 0)
    {
      hide Inv, Shape, Run, Apply, SlotsOf, Concat;
      ghost var was := State();
      Fields();
      FullTest(was);
      var run := if entryW > entryR then entryW - entryR else n - entryR;
      var expected := run * size;
      worker := Sending(run, 0);
      Fields();
      BeginWriting(was);
      total := WriteRun(replies, was, run);
      if total < expected {
        return total, false;
      }
      PopRun(was, run);
      RunKeepsInv(was, DrainEvents(run, size));
      finished := true;
    }

    /** The writes of a blocking transfer, until the run is through or the replies end. */
    method WriteRun(replies: seq<nat>, ghost was: Ring, run: nat) returns (total: nat)
      requires Writing(was, run, 0)
      modifies this`link, this`worker
      ensures Writing(was, run, total) && total == Min(Total(replies), run * size)
      ensures |link| == old(|link|) + total && link[..old(|link|)] == old(link)
    {
      hide Inv, Shape, Run, Apply, SlotsOf, Concat;
      var expected, offset := run * size, entryR * size;
      total := 0;
      var attempt := 0;
      while total < expected && attempt < |replies|
        invariant Writing(was, run, total)
        invariant |link| == old(|link|) + total && link[..old(|link|)] == old(link)
        invariant attempt <= |replies| && total == Min(Total(replies[..attempt]), expected)
        decreases |replies| - attempt
      {
        var length := if replies[attempt] < expected - total then replies[attempt] else expected - total;
        WriteSome(offset, total, length, was, run);
        TotalOneMore(replies, attempt);
        total := total + length;
        attempt := attempt + 1;
      }
      TotalGrows(replies, attempt);
    }

    /** The pointer moves past the run one frame at a time. */
    method PopRun(ghost was: Ring, run: nat)
      requires Writing(was, run, run * size) && run > 0
      modifies this`entryR, this`worker, this`popped
      ensures State() == Run(was, DrainEvents(run, size)) && worker == Resting
      ensures popped == old(popped) + run && entryR == if old(entryR) + run == n then 0 else old(entryR) + run
    {
      hide Shape, Run, Apply, SlotsOf, Concat;
      Fields();
      Bounds(State());
      ghost var events := WritingEvents(run * size) + [Finish];
      FinishRun(was, State(), run);
      worker := Advancing(run);
      Fields();
      assert events + Pops(0) == events;
      for i := 0 to run
        invariant State() == Run(was, events + Pops(i)) && Shape(State())
        invariant worker == if i == run then Resting else Advancing(run - i)
        invariant popped == old(popped) + i && entryR == if old(entryR) + i == n then 0 else old(entryR) + i
      {
        ghost var before := State();
        Fields();
        entryR := if entryR + 1 == n then 0 else entryR + 1;
        popped := popped + 1;
        worker := if i + 1 == run then Resting else Advancing(run - (i + 1));
        Fields();
        PopOne(before);
        assert events + Pops(i + 1) == events + Pops(i) + [Pop];
        RunOneMore(was, events + Pops(i), Pop);
      }
    }

    /** The non-blocking transfer: one write of a few bytes of the oldest frame. */
    method TransferNonblocking(row: nat, control: bool, buffers: nat, reply: nat) returns (length: nat, oneFrame: bool)
      requires Valid() && entryW != entryR && buffers > 0
      modifies this`entryR, this`transferredSize, this`link, this`worker, this`popped
      ensures Valid()
      ensures length == Min(reply, Min(WriteLimit(row, control, size, buffers), size - old(transferredSize)))
      ensures reply > 0 ==> length > 0
      ensures oneFrame <==> length > 0 && old(transferredSize) + length == size
      ensures State() == Run(old(State()), ChunkEvents(old(transferredSize) == 0, length, oneFrame))
      ensures |link| == old(|link|) + length && link[..old(|link|)] == old(link)
      ensures transferredSize == (if oneFrame then 0 else old(transferredSize) + length)
      ensures if oneFrame then popped == old(popped) + 1 && entryR == Next(old(entryR), n)
              else popped == old(popped) && entryR == old(entryR)
    {
      WriteLimitPositive(row, control, size, buffers);
      hide Inv, WriteLimit, ChunkEvents, Run;
      var limit := WriteLimit(row, control, size, buffers);
      var remain := size - transferredSize;
      var ask := if remain < limit then remain else limit;
      length := if reply < ask then reply else ask;
      oneFrame := TakeChunk(length);
    }

    /** What the link took of the oldest frame is counted; a whole frame is popped. */
    method TakeChunk(length: nat) returns (oneFrame: bool)
      requires Valid() && entryW != entryR && length <= size - transferredSize
      modifies this`entryR, this`transferredSize, this`link, this`worker, this`popped
      ensures Valid() && (oneFrame <==> length > 0 && old(transferredSize) + length == size)
      ensures State() == Run(old(State()), ChunkEvents(old(transferredSize) == 0, length, oneFrame))
      ensures |link| == old(|link|) + length && link[..old(|link|)] == old(link)
      ensures transferredSize == (if oneFrame then 0 else old(transferredSize) + length)
      ensures if oneFrame then popped == old(popped) + 1 && entryR == Next(old(entryR), n)
              else popped == old(popped) && entryR == old(entryR)
    {
      hide Inv, Shape, Run, Apply, SlotsOf, Concat, ChunkEvents;
      ghost var was := State();
      Fields();
      FullTest(was);
      InvSending(was);
      var offset := entryR * size + transferredSize;
      oneFrame := length > 0 && transferredSize + length == size;
      ChunkSteps(was, data[..], length);
      RunKeepsInv(was, ChunkEvents(transferredSize == 0, length, oneFrame));
      if length > 0 {
        link := link + data[offset..offset + length];
        transferredSize := transferredSize + length;
        worker := Sending(1, transferredSize);
        if oneFrame {
          transferredSize := 0;
          entryR := if entryR + 1 == n then 0 else entryR + 1;
          popped := popped + 1;
          worker := Resting;
        }
      }
      Fields();
    }
  }

  lemma BeginWriting(s: Ring)
    requires Inv(s) && s.consumer == Resting && s.w != s.r
    ensures ContiguousRun(s) > 0
    ensures Run(s, WritingEvents(0)) == s.(consumer := Sending(ContiguousRun(s), 0))
    ensures Shape(s.(consumer := Sending(ContiguousRun(s), 0)))
  {
    FullTest(s);
    BeginAtOnce(s, true);
    hide Inv, Shape, Run, Apply, Concat;
    var begun := s.(consumer := Sending(ContiguousRun(s), 0));
    WriteOnce(begun, 0);
    RunOneMore(s, [Look, Begin(true)], Write(0));
    assert [Look, Begin(true)] + [Write(0)] == WritingEvents(0);
  }

  lemma FinishRun(was: Ring, s: Ring, run: nat)
    requires Shape(was) && Shape(s) && s == Run(was, WritingEvents(run * s.size))
    requires s.consumer == Sending(run, run * s.size)
    ensures Run(was, WritingEvents(run * s.size) + [Finish]) == s.(consumer := Advancing(run))
    ensures Shape(s.(consumer := Advancing(run)))
  {
    hide Shape, Apply, Run, WritingEvents;
    RunOneMore(was, WritingEvents(run * s.size), Finish);
    FinishOnce(s);
  }

  lemma FinishOnce(s: Ring)
    requires Shape(s) && s.consumer.Sending? && s.consumer.sent == s.consumer.run * s.size
    ensures Apply(s, Finish) == s.(consumer := Advancing(s.consumer.run))
    ensures Shape(s.(consumer := Advancing(s.consumer.run)))
  {
    hide Concat;
    OfferedLength(s);
  }

  lemma PopOne(s: Ring)
    requires Shape(s) && s.consumer.Advancing? && s.consumer.left > 0
    ensures Apply(s, Pop) == s.(consumer := if s.consumer.left == 1 then Resting else Advancing(s.consumer.left - 1),
                                r := Next(s.r, |s.slots|), popped := s.popped + 1)
    ensures Shape(Apply(s, Pop))
  {
  }

  lemma InvSending(s: Ring)
    requires Inv(s)
    ensures Shape(s) && (s.consumer.Sending? ==> s.consumer.sent <= s.consumer.run * s.size)
  {
    hide DataOk, TakenOk;
  }

  /** What the events of one non-blocking write do to the state. */
  lemma ChunkSteps(s: Ring, data: seq<uint8>, length: nat)
    requires Inv(s) && s.w != s.r && s.slots == SlotsOf(data, |s.slots|, s.size) && |data| == |s.slots| * s.size
    requires s.consumer == Resting || (s.consumer.Sending? && s.consumer.run == 1 && s.consumer.sent > 0)
    requires s.producer == Idle
    requires length <= s.size - (if s.consumer == Resting then 0 else s.consumer.sent)
    ensures var sent := if s.consumer == Resting then 0 else s.consumer.sent;
            var ends := length > 0 && sent + length == s.size;
            var at := s.r * s.size + sent;
            && 0 <= s.r * s.size && at + length <= |data|
            && Run(s, ChunkEvents(s.consumer == Resting, length, ends))
               == if length == 0 then s
                  else if ends then s.(consumer := Resting, taken := s.taken + data[at..at + length],
                                       r := Next(s.r, |s.slots|), popped := s.popped + 1)
                  else s.(consumer := Sending(1, sent + length), taken := s.taken + data[at..at + length])
  {
    hide Shape, Apply, Run, SlotsOf, Inv, ChunkEvents;
    InvSending(s);
    var starts := s.consumer == Resting;
    SlotRange(s, data);
    if length == 0 {
      NoChunk(s);
    } else {
      var first: seq<Event> := if starts then [Look, Begin(false)] else [];
      var m := if starts then s.(consumer := Sending(1, 0)) else s;
      if starts {
        BeginAtOnce(s, false);
      } else {
        RunNone(s);
      }
      assert Run(s, first) == m && Shape(m);
      ChunkWritten(s, first, m, data, length);
      ChunkShape(starts, length);
    }
  }

  lemma ChunkWritten(s: Ring, first: seq<Event>, m: Ring, data: seq<uint8>, length: nat)
    requires Shape(s) && m == Run(s, first) && Shape(m) && m.consumer.Sending? && m.consumer.run == 1
    requires m.slots == SlotsOf(data, |m.slots|, m.size) && |data| == |m.slots| * m.size
    requires m.consumer.sent + length <= m.size
    ensures 0 <= m.r * m.size && m.r * m.size + m.size <= |data|
    ensures var sent := m.consumer.sent;
            var at := m.r * m.size + sent;
            && Run(s, first + [Write(length)])
               == m.(consumer := Sending(1, sent + length), taken := m.taken + data[at..at + length])
            && (sent + length == m.size ==>
                  Run(s, first + [Write(length)] + [Finish] + [Pop])
                  == m.(consumer := Resting, taken := m.taken + data[at..at + length],
                        r := Next(m.r, |m.slots|), popped := m.popped + 1))
  {
    hide Shape, Apply, Run, SlotsOf, Concat;
    FlatWrite(m, data, length);
    RunOneMore(s, first, Write(length));
    if m.consumer.sent + length == m.size {
      ChunkEnd(s, first + [Write(length)], Apply(m, Write(length)));
    }
  }

  lemma NoChunk(s: Ring)
    requires Shape(s)
    ensures forall starts, ends :: Run(s, ChunkEvents(starts, 0, ends)) == s
  {
    RunNone(s);
  }

  lemma ChunkShape(starts: bool, length: nat)
    requires length > 0
    ensures var most := (if starts then [Look, Begin(false)] else []) + [Write(length)];
            && ChunkEvents(starts, length, false) == most
            && ChunkEvents(starts, length, true) == most + [Finish] + [Pop]
  {
  }

  lemma ChunkEnd(s: Ring, events: seq<Event>, t: Ring)
    requires Shape(s) && t == Run(s, events) && t.consumer.Sending? && t.consumer.run == 1
    requires t.consumer.sent == t.size
    ensures Run(s, events + [Finish] + [Pop])
         == t.(consumer := Resting, r := Next(t.r, |t.slots|), popped := t.popped + 1)
  {
    hide Shape, Apply, Run;
    RunOneMore(s, events, Finish);
    RunOneMore(s, events + [Finish], Pop);
    FinishOnce(t);
    PopOne(t.(consumer := Advancing(1)));
  }

  lemma SlotRange(s: Ring, data: seq<uint8>)
    requires Shape(s) && |data| == |s.slots| * s.size
    ensures 0 <= s.r * s.size && s.r * s.size + s.size <= |data|
  {
    SlotBounds(s.r, |s.slots|, s.size);
  }

  /** What events that begin a run and write from it come to. */
  lemma WritesMerge(s: Ring, a: nat, b: nat)
    requires Shape(s) && s.consumer == Resting && s.w != s.r
    requires Run(s, WritingEvents(a)).consumer.Sending? && Run(s, WritingEvents(a)).consumer.sent == a
    requires Run(s, WritingEvents(a)).consumer.sent + b <= |Offered(Run(s, WritingEvents(a)))|
    ensures Run(s, WritingEvents(a + b)) == Apply(Run(s, WritingEvents(a)), Write(b))
    ensures Shape(Run(s, WritingEvents(a + b)))
  {
    hide Concat;
    var s2 := Run(s, [Look, Begin(true)]);
    BeginAtOnce(s, true);
    RunOneMore(s, [Look, Begin(true)], Write(a));
    RunOneMore(s, [Look, Begin(true)], Write(a + b));
    assert [Look, Begin(true)] + [Write(a)] == WritingEvents(a);
    assert [Look, Begin(true)] + [Write(a + b)] == WritingEvents(a + b);
    WriteTwice(s2, a, b);
  }

  /** Writing to the link straight from the flat buffer. */
  lemma FlatWrite(s: Ring, data: seq<uint8>, k: nat)
    requires Shape(s) && s.consumer.Sending?
    requires s.slots == SlotsOf(data, |s.slots|, s.size) && |data| == |s.slots| * s.size
    requires s.consumer.sent + k <= s.consumer.run * s.size
    ensures 0 <= s.r * s.size && s.r * s.size + s.consumer.run * s.size <= |data|
    ensures s.consumer.sent + k <= |Offered(s)| == s.consumer.run * s.size
    ensures var at := s.r * s.size + s.consumer.sent;
            Apply(s, Write(k)) == s.(consumer := s.consumer.(sent := s.consumer.sent + k),
                                     taken := s.taken + data[at..at + k])
  {
    hide Concat, SlotsOf, Shape;
    var r, run, size, sent := s.r, s.consumer.run, s.size, s.consumer.sent;
    assert r + run <= |s.slots| && size > 0 && |s.slots| > 0 by {
      Bounds(s);
    }
    RunIsFlat(data, |s.slots|, size, r, run);
    Distribute(r, run, size);
    assert |Offered(s)| == run * size;
    SliceOfSlice(data, r * size, (r + run) * size, sent, sent + k);
    WriteOnce(s, k);
  }

  lemma Bounds(s: Ring)
    requires Shape(s)
    ensures s.size > 0 && |s.slots| >= 2 && (s.consumer.Sending? ==> s.r + s.consumer.run <= |s.slots|)
  {
  }

  /** The test for a full ring, on the wrapped indexes, says that n - 1 frames wait. */
  lemma FullTest(s: Ring)
    requires Inv(s)
    ensures Shape(s) && s.w < |s.slots| && s.r < |s.slots| && s.user <= s.size
    ensures (s.w + 1) % |s.slots| == s.r <==> |s.pushed| + 1 == s.popped + |s.slots|
    ensures |s.pushed| < s.popped + |s.slots|
  {
    hide DataOk, TakenOk;
    Compare(s.popped, |s.pushed|, |s.slots|);
    Step(s.w, |s.slots|);
    SmallMod(s.w, |s.slots|);
  }

  // ----- what the scheduler sees -----

  /** A ring as the scheduler of LoadBalance sees it between calls. */
  function View(s: Ring, rows: nat): LoadBalance.Ring {
    LoadBalance.Ring(true, s.w, s.r, |s.slots|, s.size, if s.consumer.Sending? then s.consumer.sent else 0, rows)
  }

  /** A non-blocking write is to the scheduler what it does to the ring. */
  lemma SchedulerSeesChunk(s: Ring, data: seq<uint8>, length: nat, rows: nat)
    requires Inv(s) && s.w != s.r && s.slots == SlotsOf(data, |s.slots|, s.size) && |data| == |s.slots| * s.size
    requires s.consumer == Resting || (s.consumer.Sending? && s.consumer.run == 1 && s.consumer.sent > 0)
    requires s.producer == Idle && 0 < length <= s.size - View(s, rows).sent
    ensures var q := LoadBalance.AfterWrite(View(s, rows), length);
            View(Run(s, ChunkEvents(s.consumer == Resting, length, q.sent == 0)), q.rows) == q
  {
    hide Inv, Run, SlotsOf, ChunkEvents;
    ChunkSteps(s, data, length);
  }

  /** A push is to the scheduler what it does to the ring. */
  lemma SchedulerSeesPush(s: Ring, frame: Frame, rows: nat)
    requires Inv(s) && s.producer == Idle && |frame| == s.user
    ensures var q := View(s, rows);
            View(Run(s, PushEvents(frame)), rows)
            == if (q.entryW + 1) % q.frames == q.entryR then q else q.(entryW := (q.entryW + 1) % q.frames)
  {
    hide Inv, Run;
    FullTest(s);
    Step(s.w, |s.slots|);
    SmallMod(s.w, |s.slots|);
    if (s.w + 1) % |s.slots| != s.r {
      PushAtOnce(s, frame);
    } else {
      RunTwo(s, Reserve(frame), Copy);
      RunOneMore(s, [Reserve(frame), Copy], Publish);
      assert [Reserve(frame), Copy] + [Publish] == PushEvents(frame);
    }
  }

  lemma {:induction false} PopsEffect(s: Ring, k: nat)
    requires Shape(s) && s.consumer.Advancing? && 0 < k <= s.consumer.left
    ensures var t := Run(s, Pops(k));
            && t == s.(consumer := t.consumer, r := t.r, popped := s.popped + k)
            && t.consumer == (if k == s.consumer.left then Resting else Advancing(s.consumer.left - k))
  {
    hide Shape, Apply, Run;
    RunNone(s);
    if k > 1 {
      PopsEffect(s, k - 1);
    }
    assert Pops(k) == Pops(k - 1) + [Pop] && Pops(0) == [];
    RunOneMore(s, Pops(k - 1), Pop);
    PopOne(Run(s, Pops(k - 1)));
  }

  /** A blocking transfer is to the scheduler what it does to the ring. */
  lemma SchedulerSeesDrain(s: Ring, rows: nat)
    requires Inv(s) && s.consumer == Resting && s.producer == Idle && s.w != s.r
    ensures View(Run(s, DrainEvents(ContiguousRun(s), s.size)), rows) == LoadBalance.AfterDrain(View(s, rows))
  {
    hide Inv, Shape, Run, Apply, Concat;
    var run := ContiguousRun(s);
    BeginWriting(s);
    var begun := s.(consumer := Sending(run, 0));
    FullTest(s);
    OfferedLength(begun);
    WritesMerge(s, 0, run * s.size);
    WriteOnce(begun, run * s.size);
    var written := Run(s, WritingEvents(run * s.size));
    FinishRun(s, written, run);
    var finished := written.(consumer := Advancing(run));
    RunAppend(s, WritingEvents(run * s.size) + [Finish], Pops(run));
    PopsEffect(finished, run);
    RunKeepsInv(s, DrainEvents(run, s.size));
    PointerAt(s);
    PointerAt(Run(s, DrainEvents(run, s.size)));
    RingIndex.Advance(s.popped, run, |s.slots|);
  }

  lemma OfferedLength(s: Ring)
    requires Shape(s) && s.consumer.Sending?
    ensures |Offered(s)| == s.consumer.run * s.size
  {
    var slots := s.slots[s.r..s.r + s.consumer.run];
    assert forall i :: 0 <= i < |slots| ==> slots[i] == s.slots[s.r + i];
    ConcatLength(slots, s.size);
  }

  lemma PointerAt(s: Ring)
    requires Inv(s)
    ensures s.r == s.popped % |s.slots|
  {
  }
}
