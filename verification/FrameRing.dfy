/** The Cascade+ input ring: user threads push frames, the worker writes them to the link. */
module FrameRing {
  import opened Arithmetic
  import opened Words
  import opened RingIndex

  type Frame = seq<uint8>

  // ----- state -----

  /** A user thread inside stream_ifmap, which holds the write lock: past the full test, past the copy. */
  datatype Producer = Idle | Reserved(frame: Frame) | Copied(frame: Frame)

  /**
   The worker: `Looked` has found the ring not empty, `Sending` has written `sent` bytes of `run` frames,
   `Advancing` has `left` pointer increments to do, `Stuck` has returned with the lock held.
   */
  datatype Consumer = Resting | Looked | Sending(run: nat, sent: nat) | Advancing(left: nat) | Stuck

  /** Slots and pointers, with the history: frames pushed, frames popped, bytes the link has taken. */
  datatype Ring = Ring(slots: seq<seq<uint8>>, size: nat, user: nat, w: nat, r: nat,
                       producer: Producer, consumer: Consumer,
                       pushed: seq<Frame>, popped: nat, taken: seq<uint8>)

  ghost predicate Shape(s: Ring) {
    && |s.slots| >= 2 && s.user <= s.size && s.size > 0
    && s.w < |s.slots| && s.r < |s.slots|
    && (forall i :: 0 <= i < |s.slots| ==> |s.slots[i]| == s.size)
    && (!s.producer.Idle? ==> |s.producer.frame| == s.user)
    && (s.consumer.Sending? ==> s.r + s.consumer.run <= |s.slots|)
  }

  function Concat(slots: seq<seq<uint8>>): seq<uint8> {
    if slots == [] then [] else Concat(slots[..|slots| - 1]) + slots[|slots| - 1]
  }

  function Zeros(n: nat): (z: seq<uint8>)
    ensures |z| == n
  {
    seq(n, _ => 0)
  }

  /** A frame as it lies in its slot. */
  function Padded(f: Frame, size: nat): (p: seq<uint8>)
    ensures |p| == size
  {
    if |f| <= size then f + Zeros(size - |f|) else f[..size]
  }

  // ----- steps -----

  datatype Event =
    | Reserve(frame: Frame) | Copy | Publish
    | Look | Begin(blocking: bool) | Write(k: nat) | Finish | Pop

  /** Waiting frames up to the end of the ring. */
  function ContiguousRun(s: Ring): int { if s.w > s.r then s.w - s.r else |s.slots| - s.r }

  /** The bytes the worker is writing, back to back in memory. */
  function Offered(s: Ring): seq<uint8>
    requires s.consumer.Sending? && s.r + s.consumer.run <= |s.slots|
  {
    Concat(s.slots[s.r..s.r + s.consumer.run])
  }

  /** One atomic step; a step that is not at its turn changes nothing. */
  ghost function Apply(s: Ring, e: Event): (t: Ring)
    requires Shape(s)
    ensures Shape(t) && |t.slots| == |s.slots| && t.size == s.size && t.user == s.user
  {
    match e
    case Reserve(f) =>
      if s.producer.Idle? && |f| == s.user && (s.w + 1) % |s.slots| != s.r then s.(producer := Reserved(f)) else s
    case Copy =>
      if s.producer.Reserved?
      then s.(producer := Copied(s.producer.frame), slots := s.slots[s.w := s.producer.frame + s.slots[s.w][s.user..]])
      else s
    case Publish =>
      if s.producer.Copied?
      then s.(producer := Idle, pushed := s.pushed + [s.producer.frame], w := Next(s.w, |s.slots|))
      else s
    case Look => if s.consumer.Resting? && s.w != s.r then s.(consumer := Looked) else s
    case Begin(blocking) =>
      if !s.consumer.Looked? then s
      else if s.w == s.r then s.(consumer := Stuck)
      else s.(consumer := Sending(if blocking then ContiguousRun(s) else 1, 0))
    case Write(k) =>
      if s.consumer.Sending? && s.consumer.sent + k <= |Offered(s)|
      then s.(consumer := s.consumer.(sent := s.consumer.sent + k),
              taken := s.taken + Offered(s)[s.consumer.sent..s.consumer.sent + k])
      else s
    case Finish =>
      if s.consumer.Sending? && s.consumer.sent == |Offered(s)| then s.(consumer := Advancing(s.consumer.run)) else s
    case Pop =>
      if s.consumer.Advancing? && s.consumer.left > 0
      then s.(consumer := if s.consumer.left == 1 then Resting else Advancing(s.consumer.left - 1),
              r := Next(s.r, |s.slots|), popped := s.popped + 1)
      else s
  }

  ghost function Run(s: Ring, events: seq<Event>): (t: Ring)
    requires Shape(s)
    ensures Shape(t) && |t.slots| == |s.slots| && t.size == s.size && t.user == s.user
  {
    if events == [] then s else Apply(Run(s, events[..|events| - 1]), events[|events| - 1])
  }

  ghost predicate Start(s: Ring) {
    && Shape(s) && s.w == 0 && s.r == 0 && s.producer == Idle && s.consumer == Resting
    && s.pushed == [] && s.popped == 0 && s.taken == []
    && forall i :: 0 <= i < |s.slots| ==> s.slots[i] == Zeros(s.size)
  }

  // ----- invariant -----

  /** The frames as the link sees them: padded, in order. */
  function Stream(frames: seq<Frame>, size: nat): seq<uint8> {
    if frames == [] then [] else Stream(frames[..|frames| - 1], size) + Padded(frames[|frames| - 1], size)
  }

  ghost predicate PointersOk(s: Ring)
    requires Shape(s)
  {
    && s.popped <= |s.pushed| < s.popped + |s.slots|
    && s.w == |s.pushed| % |s.slots| && s.r == s.popped % |s.slots|
    && (forall f :: f in s.pushed ==> |f| == s.user)
    && (!s.producer.Idle? ==> |s.pushed| + 1 < s.popped + |s.slots|)
  }

  /** Every slot ends in zeros; waiting and copied frames are in their slots. */
  ghost predicate DataOk(s: Ring)
    requires Shape(s) && PointersOk(s)
  {
    && (forall i :: 0 <= i < |s.slots| ==> s.slots[i][s.user..] == Zeros(s.size - s.user))
    && (forall j :: s.popped <= j < |s.pushed| ==> s.slots[j % |s.slots|] == Padded(s.pushed[j], s.size))
    && (s.producer.Copied? ==> s.slots[s.w] == Padded(s.producer.frame, s.size))
  }

  /** The worker's run is made of waiting frames. */
  ghost predicate ConsumerOk(s: Ring)
    requires Shape(s) && PointersOk(s)
  {
    match s.consumer
    case Resting => true
    case Looked => s.popped < |s.pushed|
    case Sending(run, sent) => 1 <= run && s.popped + run <= |s.pushed| && sent <= run * s.size
    case Advancing(left) => 1 <= left && s.popped + left <= |s.pushed|
    case Stuck => false
  }

  /** Bytes taken beyond the frames already popped. */
  function Inflight(s: Ring): nat {
    match s.consumer
    case Sending(_, sent) => sent
    case Advancing(left) => left * s.size
    case _ => 0
  }

  /** What the link has taken is the stream up to here. */
  ghost predicate TakenOk(s: Ring) {
    s.taken <= Stream(s.pushed, s.size) && |s.taken| == s.popped * s.size + Inflight(s)
  }

  ghost predicate Inv(s: Ring) { Shape(s) && PointersOk(s) && DataOk(s) && ConsumerOk(s) && TakenOk(s) }

  lemma StartInv(s: Ring)
    requires Start(s)
    ensures Inv(s)
  {
  }

  /** Frames pushed in the meantime do not change what has been taken. */
  lemma TakenKept(s: Ring, t: Ring)
    requires Inv(s) && Shape(t) && PointersOk(t)
    requires t.consumer == s.consumer && t.popped == s.popped && t.taken == s.taken && t.size == s.size
    requires |s.pushed| <= |t.pushed| && t.pushed[..|s.pushed|] == s.pushed
    ensures ConsumerOk(t) && TakenOk(t)
  {
    hide DataOk, Stream;
    StreamSplit(t.pushed, |s.pushed|, s.size);
  }

  lemma SamePrefix(s: seq<Frame>, t: seq<Frame>, d: nat, more: nat)
    requires |s| <= |t| && t[..|s|] == s && d + more <= |s|
    ensures t[..d] == s[..d] && t[..d + more] == s[..d + more] && t[d..d + more] == s[d..d + more]
  {
    assert forall k :: 0 <= k < |s| ==> t[k] == t[..|s|][k];
  }

  lemma ReserveKeepsInv(s: Ring, f: Frame)
    requires Inv(s)
    ensures Inv(Apply(s, Reserve(f)))
  {
    hide DataOk;
    var t := Apply(s, Reserve(f));
    Compare(s.popped, |s.pushed|, |s.slots|);
    Step(s.w, |s.slots|);
    SmallMod(s.w, |s.slots|);
    if t != s {
      assert DataOk(t) by {
        SameData(s, t);
      }
      TakenKept(s, t);
    }
  }

  lemma SameData(s: Ring, t: Ring)
    requires Inv(s) && Shape(t) && PointersOk(t) && (t.producer.Copied? ==> t.producer == s.producer && t.w == s.w)
    requires t.slots == s.slots && t.size == s.size && t.user == s.user && t.pushed == s.pushed && t.popped >= s.popped
    ensures DataOk(t)
  {
    hide TakenOk;
  }

  /** The copy fills a slot that holds no waiting frame, and leaves its padding alone. */
  lemma CopyKeepsInv(s: Ring)
    requires Inv(s)
    ensures Inv(Apply(s, Copy))
  {
    var t := Apply(s, Copy);
    if s.producer.Reserved? {
      assert PointersOk(t);
      TakenKept(s, t);
      hide TakenOk;
      assert t.slots[s.w] == Padded(s.producer.frame, s.size);
      forall j | s.popped <= j < |s.pushed|
        ensures t.slots[j % |s.slots|] == Padded(s.pushed[j], s.size)
      {
        Distinct(j, |s.pushed|, |s.slots|);
      }
    }
  }

  lemma PublishKeepsInv(s: Ring)
    requires Inv(s)
    ensures Inv(Apply(s, Publish))
  {
    if s.producer.Copied? {
      PublishedPointers(s);
      PublishedData(s);
      TakenKept(s, Apply(s, Publish));
      hide PointersOk, DataOk, ConsumerOk, TakenOk;
    }
  }

  lemma PublishedPointers(s: Ring)
    requires Inv(s) && s.producer.Copied?
    ensures PointersOk(Apply(s, Publish))
  {
    hide DataOk, TakenOk;
    Step(|s.pushed|, |s.slots|);
  }

  lemma PublishedData(s: Ring)
    requires Inv(s) && s.producer.Copied? && PointersOk(Apply(s, Publish))
    ensures DataOk(Apply(s, Publish))
  {
    hide TakenOk, Padded, Zeros;
  }

  lemma LookKeepsInv(s: Ring)
    requires Inv(s)
    ensures Inv(Apply(s, Look))
  {
    hide DataOk, Stream;
    var t := Apply(s, Look);
    SameData(s, t);
  }

  /** A step of the worker alone moves no pointer. */
  lemma SamePointers(s: Ring, t: Ring)
    requires Shape(s) && PointersOk(s) && Shape(t) && t == s.(consumer := t.consumer, taken := t.taken)
    ensures PointersOk(t)
  { }

  /** The run is made of waiting frames and ends within the ring; the stuck case does not arise. */
  lemma BeginKeepsInv(s: Ring, blocking: bool)
    requires Inv(s)
    ensures Inv(Apply(s, Begin(blocking)))
  {
    if s.consumer.Looked? {
      RunFits(s);
      var run := if blocking then ContiguousRun(s) else 1;
      var t := s.(consumer := Sending(run, 0));
      assert Apply(s, Begin(blocking)) == t;
      BeginTaken(s, t, run);
      SamePointers(s, t);
      SameData(s, t);
      hide PointersOk, DataOk, ConsumerOk, TakenOk, Shape, Apply;
    }
  }

  lemma BeginTaken(s: Ring, t: Ring, run: nat)
    requires Inv(s) && s.consumer.Looked? && 1 <= run && s.popped + run <= |s.pushed| && s.r + run <= |s.slots|
    requires t == s.(consumer := Sending(run, 0))
    ensures Shape(t) && PointersOk(t) && ConsumerOk(t) && TakenOk(t)
  {
    hide DataOk, Stream, Padded;
    Monotone(0, run, s.size);
  }

  /** The run offered to a blocking write: all waiting frames, up to the end of the ring. */
  lemma RunFits(s: Ring)
    requires Shape(s) && PointersOk(s) && s.popped < |s.pushed|
    ensures ContiguousRun(s) == Min(|s.pushed| - s.popped, |s.slots| - s.r)
    ensures s.w != s.r && 1 <= ContiguousRun(s) && s.popped + ContiguousRun(s) <= |s.pushed|
    ensures s.r + ContiguousRun(s) <= |s.slots|
  {
    Compare(s.popped, |s.pushed|, |s.slots|);
  }

  lemma {:induction false} ConcatIsStream(slots: seq<seq<uint8>>, frames: seq<Frame>, size: nat)
    requires |slots| == |frames|
    requires forall i :: 0 <= i < |slots| ==> slots[i] == Padded(frames[i], size)
    ensures Concat(slots) == Stream(frames, size)
  {
    hide Padded;
    if slots != [] {
      var k := |slots| - 1;
      ConcatIsStream(slots[..k], frames[..k], size);
    }
  }

  lemma {:induction false} ConcatLength(slots: seq<seq<uint8>>, size: nat)
    requires forall i :: 0 <= i < |slots| ==> |slots[i]| == size
    ensures |Concat(slots)| == |slots| * size
  {
    if slots != [] {
      var k := |slots| - 1;
      ConcatLength(slots[..k], size);
      assert (k + 1) * size == k * size + size;
    }
  }

  lemma {:induction false} ConcatAppend(a: seq<Frame>, b: seq<Frame>)
    ensures Concat(a + b) == Concat(a) + Concat(b)
  {
    if b == [] {
      assert a + b == a;
    } else {
      var c := b[..|b| - 1];
      assert (a + b)[..|a + b| - 1] == a + c;
      ConcatAppend(a, c);
    }
  }

  /** What is offered to the link are the oldest waiting frames. */
  lemma OfferedIsStream(s: Ring, k: nat)
    requires Inv(s) && s.r + k <= |s.slots| && s.popped + k <= |s.pushed|
    ensures Concat(s.slots[s.r..s.r + k]) == Stream(s.pushed[s.popped..s.popped + k], s.size)
    ensures |Concat(s.slots[s.r..s.r + k])| == k * s.size
  {
    hide TakenOk, Concat, Stream, Padded;
    var slots, frames := s.slots[s.r..s.r + k], s.pushed[s.popped..s.popped + k];
    forall i | 0 <= i < k
      ensures slots[i] == Padded(frames[i], s.size)
    {
      RingIndex.Advance(s.popped, i, |s.slots|);
      var j := s.popped + i;
      assert s.slots[j % |s.slots|] == Padded(s.pushed[j], s.size);
    }
    ConcatIsStream(slots, frames, s.size);
    ConcatLength(slots, s.size);
  }

  lemma WriteKeepsInv(s: Ring, k: nat)
    requires Inv(s)
    ensures Inv(Apply(s, Write(k)))
  {
    if s.consumer.Sending? && s.consumer.sent + k <= |Offered(s)| {
      var next := Offered(s)[s.consumer.sent..s.consumer.sent + k];
      WrittenBytes(s, k);
      WriteOnce(s, k);
      Forward(s, s.(consumer := s.consumer.(sent := s.consumer.sent + k), taken := s.taken + next));
    }
  }

  lemma WriteOnce(s: Ring, k: nat)
    requires Shape(s) && s.consumer.Sending? && s.consumer.sent + k <= |Offered(s)|
    ensures Apply(s, Write(k)) == s.(consumer := s.consumer.(sent := s.consumer.sent + k),
                                     taken := s.taken + Offered(s)[s.consumer.sent..s.consumer.sent + k])
  {
    hide Concat;
  }

  /** A step that only writes to the link. */
  lemma Forward(s: Ring, t: Ring)
    requires Inv(s) && Shape(t) && t == s.(consumer := t.consumer, taken := t.taken)
    requires TakenOk(t)
    requires s.consumer.Sending? && t.consumer.Sending?
    requires t.consumer.run == s.consumer.run && t.consumer.sent <= s.consumer.run * s.size
    ensures Inv(t)
  {
    hide Concat, Stream, TakenOk;
    SameData(s, t);
  }

  /** The bytes offered come next in the stream. */
  lemma WrittenBytes(s: Ring, k: nat)
    requires Inv(s) && s.consumer.Sending? && s.consumer.sent + k <= |Offered(s)|
    ensures s.consumer.sent + k <= s.consumer.run * s.size
    ensures TakenOk(s.(consumer := s.consumer.(sent := s.consumer.sent + k),
                       taken := s.taken + Offered(s)[s.consumer.sent..s.consumer.sent + k]))
  {
    hide DataOk, Stream, Concat;
    OfferedIsStream(s, s.consumer.run);
    var offered := Offered(s);
    NextInStream(s.pushed, s.popped, s.consumer.run, s.size, s.taken, offered, s.consumer.sent, k);
  }

  lemma NextInStream(frames: seq<Frame>, d: nat, run: nat, size: nat,
                     taken: seq<uint8>, offered: seq<uint8>, sent: nat, k: nat)
    requires d + run <= |frames| && offered == Stream(frames[d..d + run], size) && sent + k <= |offered|
    requires taken <= Stream(frames, size) && |taken| == d * size + sent
    ensures taken + offered[sent..sent + k] <= Stream(frames, size)
  {
    hide Stream;
    StreamSplit(frames, d, size);
    StreamSplit(frames[d..], run, size);
    assert frames[d..][..run] == frames[d..d + run];
    NextBytes(taken, Stream(frames[..d], size), offered, Stream(frames[d..][run..], size), sent, k);
  }

  lemma NextBytes(taken: seq<uint8>, a: seq<uint8>, x: seq<uint8>, b: seq<uint8>, i: nat, k: nat)
    requires taken <= a + (x + b) && |taken| == |a| + i && i + k <= |x|
    ensures taken + x[i..i + k] <= a + (x + b)
  {
    var all := a + (x + b);
    assert taken == all[..|a| + i];
    assert x[i..i + k] == all[|a| + i..|a| + i + k];
    assert all[..|a| + i] + all[|a| + i..|a| + i + k] == all[..|a| + i + k];
  }

  lemma Grow(a: seq<uint8>, x: seq<uint8>, i: nat, k: nat)
    requires i + k <= |x|
    ensures a + x[..i] + x[i..i + k] == a + x[..i + k]
  {
    assert x[..i] + x[i..i + k] == x[..i + k];
  }

  lemma {:induction false} StreamAppend(a: seq<Frame>, b: seq<Frame>, size: nat)
    ensures Stream(a + b, size) == Stream(a, size) + Stream(b, size)
  {
    hide Padded;
    if b == [] {
      assert a + b == a;
    } else {
      var c := b[..|b| - 1];
      assert (a + b)[..|a + b| - 1] == a + c;
      StreamAppend(a, c, size);
    }
  }

  lemma FinishKeepsInv(s: Ring)
    requires Inv(s)
    ensures Inv(Apply(s, Finish))
  {
    hide Stream, Concat;
    var t := Apply(s, Finish);
    if s.consumer.Sending? && t != s {
      OfferedIsStream(s, s.consumer.run);
      SameData(s, t);
      hide DataOk;
    }
  }

  lemma PopKeepsInv(s: Ring)
    requires Inv(s)
    ensures Inv(Apply(s, Pop))
  {
    hide Stream, Concat;
    var t := Apply(s, Pop);
    if t != s {
      Step(s.popped, |s.slots|);
      Distribute(s.popped, 1, s.size);
      Distribute(s.consumer.left - 1, 1, s.size);
      SameData(s, t);
      hide DataOk;
    }
  }

  // ----- what holds in every run -----

  lemma ApplyKeepsInv(s: Ring, e: Event)
    requires Inv(s)
    ensures Inv(Apply(s, e))
  {
    hide *;
    match e
    case Reserve(f) => ReserveKeepsInv(s, f);
    case Copy => CopyKeepsInv(s);
    case Publish => PublishKeepsInv(s);
    case Look => LookKeepsInv(s);
    case Begin(blocking) => BeginKeepsInv(s, blocking);
    case Write(k) => WriteKeepsInv(s, k);
    case Finish => FinishKeepsInv(s);
    case Pop => PopKeepsInv(s);
  }

  lemma {:induction false} RunKeepsInv(s: Ring, events: seq<Event>)
    requires Inv(s)
    ensures Inv(Run(s, events))
  {
    hide PointersOk, DataOk, ConsumerOk, TakenOk, Apply;
    if events != [] {
      var before := events[..|events| - 1];
      RunKeepsInv(s, before);
      ApplyKeepsInv(Run(s, before), events[|events| - 1]);
    }
  }

  /** However pushes and partial writes interleave, the link gets the padded frames in order, none lost or repeated. */
  lemma TakenInOrder(s: Ring, events: seq<Event>)
    requires Start(s)
    ensures var t := Run(s, events);
            && (forall f :: f in t.pushed ==> |f| == t.user <= t.size)
            && t.taken <= Stream(t.pushed, t.size)
            && |t.taken| == t.popped * t.size + Inflight(t)
            && (t.w == t.r && t.consumer == Resting ==> t.taken == Stream(t.pushed, t.size))
  {
    StartInv(s);
    RunKeepsInv(s, events);
    var t := Run(s, events);
    if t.w == t.r && t.consumer == Resting {
      InvDrained(t);
    }
  }

  /** Byte by byte: the link has byte k of frame j at place j * size + k, and zeros behind each frame. */
  lemma TakenBytes(s: Ring, events: seq<Event>, j: nat, k: nat)
    requires Start(s)
    ensures ByteInPlace(Run(s, events), j, k)
  {
    StartInv(s);
    RunKeepsInv(s, events);
    hide *;
    TakenByte(Run(s, events), j, k);
  }

  ghost predicate ByteInPlace(t: Ring, j: nat, k: nat) {
    k < t.size && 0 <= j * t.size + k < |t.taken| ==>
      && j < |t.pushed| && |t.pushed[j]| == t.user
      && t.taken[j * t.size + k] == if k < t.user then t.pushed[j][k] else 0
  }

  lemma TakenByte(t: Ring, j: nat, k: nat)
    requires Inv(t)
    ensures ByteInPlace(t, j, k)
  {
    hide DataOk, ConsumerOk, Stream, Inflight;
    if k < t.size && 0 <= j * t.size + k < |t.taken| {
      PrefixByte(t.taken, t.pushed, t.user, t.size, j, k);
    }
  }

  lemma PrefixByte(taken: seq<uint8>, frames: seq<Frame>, user: nat, size: nat, j: nat, k: nat)
    requires taken <= Stream(frames, size) && (forall f :: f in frames ==> |f| == user) && user <= size
    requires k < size && 0 <= j * size + k < |taken|
    ensures j < |frames| && |frames[j]| == user
    ensures taken[j * size + k] == if k < user then frames[j][k] else 0
  {
    hide Stream;
    StreamLength(frames, size);
    if |frames| <= j {
      MulMonotone(|frames|, j, size);
      assert false;
    }
    assert frames[j] in frames;
    StreamByte(frames, user, size, j, k);
  }

  lemma StreamByte(frames: seq<Frame>, user: nat, size: nat, j: nat, k: nat)
    requires user <= size && j < |frames| && |frames[j]| == user && k < size
    ensures 0 <= j * size && j * size + k < |Stream(frames, size)|
    ensures Stream(frames, size)[j * size + k] == if k < user then frames[j][k] else 0
  {
    hide Stream;
    StreamSplit(frames, j, size);
    StreamSplit(frames[j..], 1, size);
    assert frames[j..][..1] == [frames[j]];
    OneFrame(frames[j], size);
  }

  lemma OneFrame(f: Frame, size: nat)
    ensures Stream([f], size) == Padded(f, size)
  {
    assert [f][..0] == [];
  }

  lemma InvDrained(t: Ring)
    requires Inv(t) && t.w == t.r && t.consumer == Resting
    ensures t.taken == Stream(t.pushed, t.size)
  {
    hide DataOk, Stream;
    Compare(t.popped, |t.pushed|, |t.slots|);
    StreamLength(t.pushed, t.size);
  }

  lemma StreamSplit(frames: seq<Frame>, k: nat, size: nat)
    requires k <= |frames|
    ensures Stream(frames, size) == Stream(frames[..k], size) + Stream(frames[k..], size)
    ensures |Stream(frames[..k], size)| == k * size
  {
    assert frames[..k] + frames[k..] == frames;
    StreamAppend(frames[..k], frames[k..], size);
    StreamLength(frames[..k], size);
  }

  lemma {:induction false} StreamLength(frames: seq<Frame>, size: nat)
    ensures |Stream(frames, size)| == |frames| * size
  {
    if frames != [] {
      hide Padded;
      var k := |frames| - 1;
      StreamLength(frames[..k], size);
      assert (k + 1) * size == k * size + size;
    }
  }

  /** The early return that would leave the ring locked is never taken. */
  lemma NeverStuck(s: Ring, events: seq<Event>)
    requires Start(s)
    ensures Run(s, events).consumer != Stuck
  {
    StartInv(s);
    RunKeepsInv(s, events);
  }

  /** The slot a user thread is filling is never among those being written to the link. */
  lemma WriteSlotIsPrivate(s: Ring, events: seq<Event>)
    requires Start(s)
    ensures var t := Run(s, events);
            t.consumer.Sending? && t.producer != Idle ==> !(t.r <= t.w < t.r + t.consumer.run)
  {
    StartInv(s);
    RunKeepsInv(s, events);
    var t := Run(s, events);
    Compare(t.popped, |t.pushed|, |t.slots|);
  }
}
