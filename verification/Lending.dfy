/** The Cascade+ output ring lending its slots to the user: dequeue_ofmap_buf and enqueue_ofmap_buf. */
module Lending {
  import opened Arithmetic
  import opened Words
  import opened RingIndex
  import FrameRing

  type Frame = seq<uint8>

  // ----- state -----

  /** The read lock: free, held by a dequeue that waits for a buffer, or by one that has counted its buffer off. */
  datatype Caller = Free | Waiting(forever: bool) | Taking

  /**
   The ring and its pointers: `w` the worker's slot with `got` bytes in it, `next` the slot to lend next,
   `r` the slot to be returned next; `caller` is who holds the read lock.  The rest is history: frames
   received, frames handed out, lent buffers numbered in the order of lending, buffers returned, bytes read.
   */
  datatype Ring = Ring(slots: seq<Frame>, size: nat, w: nat, r: nat, next: nat, remain: nat, got: nat, caller: Caller,
                       received: seq<Frame>, handed: seq<Frame>, lent: set<nat>, returned: nat, link: seq<uint8>)

  ghost predicate Shape(s: Ring) {
    && |s.slots| >= 2 && s.size > 0
    && s.w < |s.slots| && s.r < |s.slots| && s.next < |s.slots|
    && (forall i :: 0 <= i < |s.slots| ==> |s.slots[i]| == s.size)
  }

  /** The worker may ask the link for bytes: there is room, and no whole frame is about to be published. */
  predicate MayRead(s: Ring)
    requires s.slots != []
  {
    s.got != s.size && (s.w + 1) % |s.slots| != s.r
  }

  /** A read has run past the frame under way. */
  predicate Jammed(s: Ring) { s.got > s.size }

  datatype Event = Read(bytes: seq<uint8>) | Complete | Wait(forever: bool) | GiveUp | Take | Hand | Return(j: nat)

  function Filled(slot: Frame, got: nat, bytes: seq<uint8>): Frame
    requires got + |bytes| <= |slot|
  {
    slot[..got] + bytes + slot[got + |bytes|..]
  }

  /**
   The bytes of a read, one after the other behind the `got` bytes counted from the start of slot w.  A whole frame is
   asked for even when part of one is there, so they may run into later slots, or off the buffer.
   */
  function Landed(slots: seq<Frame>, w: nat, size: nat, got: nat, bytes: seq<uint8>): (t: seq<Frame>)
    requires size > 0 && forall i :: 0 <= i < |slots| ==> |slots[i]| == size
    ensures |t| == |slots| && forall i :: 0 <= i < |slots| ==> |t[i]| == size
  {
    if bytes == [] then slots
    else
      var last := |bytes| - 1;
      LandOne(Landed(slots, w, size, got, bytes[..last]), w, size, got + last, bytes[last])
  }

  function Put(slot: Frame, k: nat, byte: uint8): (t: Frame)
    requires k < |slot|
    ensures |t| == |slot|
  {
    slot[k := byte]
  }

  function LandOne(slots: seq<Frame>, w: nat, size: nat, at: nat, byte: uint8): (t: seq<Frame>)
    requires size > 0 && forall i :: 0 <= i < |slots| ==> |slots[i]| == size
    ensures |t| == |slots| && forall i :: 0 <= i < |slots| ==> |t[i]| == size
  {
    var i, k := w + at / size, at % size;
    if 0 <= i < |slots| then slots[i := Put(slots[i], k, byte)] else slots
  }

  /** One atomic step; a step that is not at its turn changes nothing. */
  ghost function Apply(s: Ring, e: Event): (t: Ring)
    requires Shape(s)
    ensures Shape(t) && |t.slots| == |s.slots| && t.size == s.size
  {
    match e
    case Read(bytes) =>
      if !MayRead(s) || |bytes| > s.size then s
      else s.(slots := Landed(s.slots, s.w, s.size, s.got, bytes), got := s.got + |bytes|, link := s.link + bytes)
    case Complete =>
      if s.got == s.size
      then s.(got := 0, remain := s.remain + 1, w := Next(s.w, |s.slots|), received := s.received + [s.slots[s.w]])
      else s
    case Wait(forever) => if s.caller.Free? then s.(caller := Waiting(forever)) else s
    case GiveUp => if s.caller == Waiting(false) && s.remain == 0 then s.(caller := Free) else s
    case Take => if s.caller.Waiting? && s.remain > 0 then s.(remain := s.remain - 1, caller := Taking) else s
    case Hand =>
      if s.caller.Taking?
      then s.(caller := Free, next := Next(s.next, |s.slots|),
              lent := s.lent + {|s.handed|}, handed := s.handed + [s.slots[s.next]])
      else s
    case Return(j) =>
      if s.caller.Free? && j in s.lent
      then s.(lent := s.lent - {j}, r := Next(s.r, |s.slots|), returned := s.returned + 1)
      else s
  }

  ghost function Run(s: Ring, events: seq<Event>): (t: Ring)
    requires Shape(s)
    ensures Shape(t) && |t.slots| == |s.slots| && t.size == s.size
  {
    if events == [] then s else Apply(Run(s, events[..|events| - 1]), events[|events| - 1])
  }

  ghost predicate Start(s: Ring) {
    && Shape(s) && s.w == 0 && s.r == 0 && s.next == 0 && s.remain == 0 && s.got == 0 && s.caller == Free
    && s.received == [] && s.handed == [] && s.lent == {} && s.returned == 0 && s.link == []
  }

  // ----- invariant -----

  ghost predicate PointersOk(s: Ring)
    requires Shape(s)
  {
    && s.returned <= |s.handed| <= |s.received| < s.returned + |s.slots|
    && s.w == |s.received| % |s.slots| && s.next == |s.handed| % |s.slots| && s.r == s.returned % |s.slots|
    && s.remain + Bit(s.caller.Taking?) == |s.received| - |s.handed|
    && (s.got > 0 ==> |s.received| + 1 < s.returned + |s.slots|)
    && (forall j :: j in s.lent ==> j < |s.handed|) && |s.lent| == |s.handed| - s.returned
  }

  /** Frames not yet handed out are in their slots, and so is every lent one the read pointer is at most one past. */
  ghost predicate DataOk(s: Ring)
    requires Shape(s) && PointersOk(s) && !Jammed(s)
  {
    && (forall j :: |s.handed| <= j < |s.received| ==> s.slots[j % |s.slots|] == s.received[j])
    && (forall j :: j in s.lent && s.returned <= j + 1 ==> s.slots[j % |s.slots|] == s.received[j])
    && s.handed == s.received[..|s.handed|]
    && s.link == FrameRing.Concat(s.received) + s.slots[s.w][..s.got]
  }

  ghost predicate Inv(s: Ring) { Shape(s) && PointersOk(s) && (Jammed(s) || DataOk(s)) }

  lemma StartInv(s: Ring)
    requires Start(s)
    ensures Inv(s)
  {
  }

  lemma ReadKeepsInv(s: Ring, bytes: seq<uint8>)
    requires Inv(s)
    ensures Inv(Apply(s, Read(bytes)))
  {
    var t := Apply(s, Read(bytes));
    if t != s {
      ReadPointers(s, bytes);
      if !Jammed(t) {
        LandedInSlot(s.slots, s.w, s.size, s.got, bytes);
        ReadData(s, bytes, t);
      }
      hide PointersOk, DataOk, Apply;
    }
  }

  lemma ReadPointers(s: Ring, bytes: seq<uint8>)
    requires Inv(s)
    ensures PointersOk(Apply(s, Read(bytes)))
  {
    hide Landed, DataOk;
    Compare(s.returned, |s.received|, |s.slots|);
    Step(s.w, |s.slots|);
    SmallMod(s.w, |s.slots|);
  }

  /** A read within the frame touches no slot waiting or lent, save those the read pointer is two past. */
  lemma ReadData(s: Ring, bytes: seq<uint8>, t: Ring)
    requires Inv(s) && MayRead(s) && s.got + |bytes| <= s.size && Shape(t) && PointersOk(t)
    requires t == s.(slots := s.slots[s.w := Filled(s.slots[s.w], s.got, bytes)],
                     got := s.got + |bytes|, link := s.link + bytes)
    ensures DataOk(t)
  {
    hide Filled, FrameRing.Concat;
    NotFull(s);
    FilledPrefix(s.slots[s.w], s.got, bytes);
    var received := FrameRing.Concat(s.received);
    assert t.link == received + (s.slots[s.w][..s.got] + bytes);
    forall j: nat | (|s.handed| <= j < |s.received|) || (j in s.lent && s.returned <= j + 1)
      ensures t.slots[j % |s.slots|] == s.received[j]
    {
      OtherSlot(s, j);
    }
  }

  lemma OtherSlot(s: Ring, j: nat)
    requires Shape(s) && PointersOk(s) && j < |s.received| && s.returned <= j + 1
    requires |s.received| + 1 < s.returned + |s.slots|
    ensures j % |s.slots| < |s.slots| && j % |s.slots| != s.w
  {
    Step(j, |s.slots|);
    Distinct(j, |s.received|, |s.slots|);
  }

  /** Within the frame, the bytes land in the worker's slot alone. */
  lemma {:induction false} LandedInSlot(slots: seq<Frame>, w: nat, size: nat, got: nat, bytes: seq<uint8>)
    requires size > 0 && (forall i :: 0 <= i < |slots| ==> |slots[i]| == size) && w < |slots| && got + |bytes| <= size
    ensures Landed(slots, w, size, got, bytes) == slots[w := Filled(slots[w], got, bytes)]
  {
    if bytes == [] {
      assert Filled(slots[w], got, bytes) == slots[w];
    } else {
      var last := |bytes| - 1;
      LandedInSlot(slots, w, size, got, bytes[..last]);
      FirstLap(got + last, size);
      assert Filled(slots[w], got, bytes) == Filled(slots[w], got, bytes[..last])[got + last := bytes[last]];
    }
  }

  /** Wherever a read ends, its bytes lie back to back from `got` in slot w on, and every other byte stays. */
  lemma {:induction false} LandedByte(slots: seq<Frame>, w: nat, size: nat, got: nat, bytes: seq<uint8>, i: nat, k: nat)
    requires size > 0 && (forall j :: 0 <= j < |slots| ==> |slots[j]| == size) && i < |slots| && k < size
    ensures var place := i * size + k - (w * size + got);
            Landed(slots, w, size, got, bytes)[i][k] == if 0 <= place < |bytes| then bytes[place] else slots[i][k]
  {
    hide LandOne;
    if bytes != [] {
      var last := |bytes| - 1;
      LandedByte(slots, w, size, got, bytes[..last], i, k);
      LandedOne(Landed(slots, w, size, got, bytes[..last]), w, size, got + last, bytes[last], i, k);
    }
  }

  lemma LandedOne(slots: seq<Frame>, w: nat, size: nat, at: nat, byte: uint8, i: nat, k: nat)
    requires size > 0 && (forall j :: 0 <= j < |slots| ==> |slots[j]| == size) && i < |slots| && k < size
    ensures LandOne(slots, w, size, at, byte)[i][k] == if i * size + k == w * size + at then byte else slots[i][k]
  {
    SamePlace(w, size, at, i, k);
  }

  lemma SamePlace(w: nat, size: nat, at: nat, i: nat, k: nat)
    requires size > 0 && k < size
    ensures i * size + k == w * size + at <==> i == w + at / size && k == at % size
  {
    var q, r := at / size, at % size;
    assert at == q * size + r;
    Distribute(w, q, size);
    Monotone(i, w + q, size);
    Monotone(w + q, i, size);
  }

  lemma FirstLap(i: nat, n: nat)
    requires i < n
    ensures i / n == 0 && i % n == i
  {
    SmallMod(i, n);
  }

  lemma FilledPrefix(slot: Frame, got: nat, bytes: seq<uint8>)
    requires got + |bytes| <= |slot|
    ensures Filled(slot, got, bytes)[..got + |bytes|] == slot[..got] + bytes
  {
  }

  lemma CompleteKeepsInv(s: Ring)
    requires Inv(s)
    ensures Inv(Apply(s, Complete))
  {
    if s.got == s.size {
      var t := Apply(s, Complete);
      Step(|s.received|, |s.slots|);
      assert t.received[..|s.received|] == s.received;
      assert s.slots[s.w][..s.got] == s.slots[s.w];
    }
  }

  lemma WaitKeepsInv(s: Ring, e: Event)
    requires Inv(s) && (e.Wait? || e.GiveUp? || e.Take?)
    ensures Inv(Apply(s, e))
  {
    hide FrameRing.Concat;
  }

  lemma HandKeepsInv(s: Ring)
    requires Inv(s)
    ensures Inv(Apply(s, Hand))
  {
    if s.caller.Taking? {
      HandPointers(s);
      if !Jammed(s) {
        HandData(s);
      }
      hide PointersOk, DataOk;
    }
  }

  lemma HandPointers(s: Ring)
    requires Inv(s) && s.caller.Taking?
    ensures PointersOk(Apply(s, Hand))
  {
    hide DataOk;
    Step(|s.handed|, |s.slots|);
  }

  lemma HandData(s: Ring)
    requires Inv(s) && s.caller.Taking? && !Jammed(s) && PointersOk(Apply(s, Hand))
    ensures DataOk(Apply(s, Hand))
  {
    hide FrameRing.Concat;
    var k := |s.handed|;
    assert s.slots[s.next] == s.received[k];
    assert s.received[..k + 1] == s.received[..k] + [s.received[k]];
  }

  lemma ReturnKeepsInv(s: Ring, j: nat)
    requires Inv(s)
    ensures Inv(Apply(s, Return(j)))
  {
    Step(s.returned, |s.slots|);
    if j in s.lent {
      assert s.lent != {};
    }
  }

  // ----- what holds in every run -----

  lemma ApplyKeepsInv(s: Ring, e: Event)
    requires Inv(s)
    ensures Inv(Apply(s, e))
  {
    hide *;
    match e
    case Read(bytes) => ReadKeepsInv(s, bytes);
    case Complete => CompleteKeepsInv(s);
    case Wait(_) => WaitKeepsInv(s, e);
    case GiveUp => WaitKeepsInv(s, e);
    case Take => WaitKeepsInv(s, e);
    case Hand => HandKeepsInv(s);
    case Return(j) => ReturnKeepsInv(s, j);
  }

  lemma {:induction false} RunKeepsInv(s: Ring, events: seq<Event>)
    requires Inv(s)
    ensures Inv(Run(s, events))
  {
    hide PointersOk, DataOk, Apply;
    if events != [] {
      var before := events[..|events| - 1];
      RunKeepsInv(s, before);
      ApplyKeepsInv(Run(s, before), events[|events| - 1]);
    }
  }

  /** The free-slot count is the distance from the next slot to lend to the worker's slot. */
  lemma RemainIsDistance(s: Ring, events: seq<Event>)
    requires Start(s)
    ensures var t := Run(s, events);
            t.remain + Bit(t.caller.Taking?) == if t.w >= t.next then t.w - t.next else t.w + |t.slots| - t.next
  {
    StartInv(s);
    RunKeepsInv(s, events);
    var t := Run(s, events);
    hide DataOk;
    Compare(|t.handed|, |t.received|, |t.slots|);
  }

  /** Users get whole frames cut from what the link delivered, in order and without gaps. */
  lemma HandedInOrder(s: Ring, events: seq<Event>)
    requires Start(s) && !Jammed(Run(s, events))
    ensures var t := Run(s, events);
            && FrameRing.Concat(t.handed) <= t.link
            && t.handed <= t.received
            && FrameRing.Concat(t.received) <= t.link
  {
    StartInv(s);
    RunKeepsInv(s, events);
    InvHandedInOrder(Run(s, events));
  }

  lemma InvHandedInOrder(t: Ring)
    requires Inv(t) && !Jammed(t)
    ensures FrameRing.Concat(t.handed) <= FrameRing.Concat(t.received) <= t.link && t.handed <= t.received
  {
    hide FrameRing.Concat;
    var rest := t.received[|t.handed|..];
    assert t.received == t.handed + rest;
    FrameRing.ConcatAppend(t.handed, rest);
  }

  /** A lent buffer the read pointer is at most one past still holds its frame, out of the worker's way. */
  lemma LentIsIntact(s: Ring, events: seq<Event>, j: nat)
    requires Start(s) && j in Run(s, events).lent && Run(s, events).returned <= j + 1 && !Jammed(Run(s, events))
    ensures var t := Run(s, events);
            && j < |t.handed| && t.slots[j % |t.slots|] == t.handed[j]
            && (t.returned <= j || MayRead(t) || t.got > 0 ==> t.w != j % |t.slots|)
  {
    StartInv(s);
    RunKeepsInv(s, events);
    var t := Run(s, events);
    assert t.handed[j] == t.received[j];
    RecentIsClear(t, j);
  }

  /** With returns in lending order a lent buffer is never the worker's slot, and holds its frame unless jammed. */
  lemma InOrderIsIntact(s: Ring, events: seq<Event>, j: nat)
    requires Start(s) && OldestFirst(s, events) && j in Run(s, events).lent
    ensures var t := Run(s, events);
            && t.w != j % |t.slots|
            && (!Jammed(t) ==> j < |t.handed| && t.slots[j % |t.slots|] == t.handed[j])
  {
    InOrderLending(s, events);
    StartInv(s);
    RunKeepsInv(s, events);
    var t := Run(s, events);
    Distinct(j, |t.received|, |t.slots|);
    if !Jammed(t) {
      assert t.handed[j] == t.received[j];
    }
  }

  lemma RecentIsClear(t: Ring, j: nat)
    requires Inv(t) && j in t.lent && t.returned <= j + 1
    ensures t.returned <= j || MayRead(t) || t.got > 0 ==> t.w != j % |t.slots|
  {
    hide DataOk;
    NotFull(t);
    if t.returned <= j || MayRead(t) || t.got > 0 {
      Distinct(j, |t.received|, |t.slots|);
    }
  }

  /** The worker's test for room, in totals. */
  lemma NotFull(t: Ring)
    requires Inv(t)
    ensures (t.w + 1) % |t.slots| != t.r <==> |t.received| + 1 < t.returned + |t.slots|
  {
    hide DataOk;
    Compare(t.returned, |t.received|, |t.slots|);
    Step(t.w, |t.slots|);
    SmallMod(t.w, |t.slots|);
  }

  /** Every return in the run gives back the oldest lent buffer. */
  ghost predicate OldestFirst(s: Ring, events: seq<Event>)
    requires Shape(s)
  {
    events == [] || (
      var before, e := events[..|events| - 1], events[|events| - 1];
      OldestFirst(s, before) && (e.Return? ==> e.j == Run(s, before).returned))
  }

  /** With returns in lending order, the lent buffers are those handed out and not returned. */
  lemma {:induction false} InOrderLending(s: Ring, events: seq<Event>)
    requires Start(s) && OldestFirst(s, events)
    ensures var t := Run(s, events); forall j: nat :: j in t.lent <==> t.returned <= j < |t.handed|
  {
    hide Inv, Apply;
    if events != [] {
      var before, e := events[..|events| - 1], events[|events| - 1];
      InOrderLending(s, before);
      StartInv(s);
      RunKeepsInv(s, before);
      InOrderStep(Run(s, before), e);
    }
  }

  lemma InOrderStep(s: Ring, e: Event)
    requires Inv(s) && forall j: nat :: j in s.lent <==> s.returned <= j < |s.handed|
    requires e.Return? ==> e.j == s.returned
    ensures var t := Apply(s, e); forall j: nat :: j in t.lent <==> t.returned <= j < |t.handed|
  {
    hide Apply, DataOk;
    if e.Hand? || e.Return? {
      LentChanged(s, e);
    } else {
      LentUnchanged(s, e);
    }
  }

  lemma LentChanged(s: Ring, e: Event)
    requires Shape(s) && (e.Hand? || e.Return?)
    ensures var t := Apply(s, e);
            if e.Hand? && s.caller.Taking? then
              t.lent == s.lent + {|s.handed|} && |t.handed| == |s.handed| + 1 && t.returned == s.returned
            else if e.Return? && s.caller.Free? && e.j in s.lent then
              t.lent == s.lent - {e.j} && t.handed == s.handed && t.returned == s.returned + 1
            else t == s
  {
  }

  lemma LentUnchanged(s: Ring, e: Event)
    requires Shape(s) && !e.Hand? && !e.Return?
    ensures var t := Apply(s, e); t.lent == s.lent && t.handed == s.handed && t.returned == s.returned
  {
    hide Landed;
  }

  // ----- reads past a frame -----

  /** A read that delivers more than the frame under way still needs. */
  ghost predicate Crossing(s: Ring, e: Event)
    requires Shape(s)
  {
    e.Read? && MayRead(s) && |e.bytes| <= s.size && s.got + |e.bytes| > s.size
  }

  ghost predicate SomeCrossing(s: Ring, events: seq<Event>)
    requires Shape(s)
  {
    events != [] && (
      var before, e := events[..|events| - 1], events[|events| - 1];
      SomeCrossing(s, before) || Crossing(Run(s, before), e))
  }

  lemma JamStep(s: Ring, e: Event)
    requires Shape(s)
    ensures Jammed(Apply(s, e)) <==> Jammed(s) || Crossing(s, e)
    ensures Jammed(s) ==>
              var t := Apply(s, e);
              t.received == s.received && s.link <= t.link && t.got - s.got == |t.link| - |s.link|
  {
    hide Landed;
  }

  /** The ring jams exactly when some read delivers bytes of two frames. */
  lemma {:induction false} JamsExactlyOnCrossing(s: Ring, events: seq<Event>)
    requires Start(s)
    ensures Jammed(Run(s, events)) <==> SomeCrossing(s, events)
  {
    hide Apply, Shape;
    if events != [] {
      var before, e := events[..|events| - 1], events[|events| - 1];
      JamsExactlyOnCrossing(s, before);
      JamStep(Run(s, before), e);
    }
  }

  /** And then every byte the link delivers adds to a size already too large: no frame is received ever after. */
  lemma {:induction false} JamIsForever(s: Ring, events: seq<Event>)
    requires Shape(s) && Jammed(s)
    ensures var t := Run(s, events);
            && Jammed(t) && t.received == s.received
            && s.link <= t.link && t.got - s.got == |t.link| - |s.link|
  {
    hide Apply, Shape;
    if events != [] {
      var before, e := events[..|events| - 1], events[|events| - 1];
      JamIsForever(s, before);
      JamStep(Run(s, before), e);
    }
  }

  // ----- out of order -----

  /** The worker has come round to lent buffer j again. */
  ghost predicate Overrun(s: Ring, j: nat)
    requires Shape(s)
  {
    |s.received| > j + |s.slots| || (|s.received| == j + |s.slots| && (s.w + 1) % |s.slots| != s.r)
  }

  predicate NoReturns(events: seq<Event>) { forall i :: 0 <= i < |events| ==> !events[i].Return? }

  /** The worker can overrun a buffer the user keeps exactly when the read pointer is two or more past it. */
  lemma SafeExactlyWhenRecent(s: Ring, j: nat)
    requires Inv(s) && !Jammed(s) && j in s.lent
    ensures s.returned <= j + 1 <==> forall events :: NoReturns(events) ==> !Overrun(Run(s, events), j)
  {
    hide PointersOk, DataOk, Overrun;
    forall events | NoReturns(events) && s.returned <= j + 1
      ensures !Overrun(Run(s, events), j)
    {
      RecentIsSafe(s, events, j);
    }
    if s.returned > j + 1 {
      var events := Refill(s, j);
    }
  }

  lemma {:induction false} ReturnedStays(s: Ring, events: seq<Event>)
    requires Shape(s) && NoReturns(events)
    ensures Run(s, events).returned == s.returned
  {
    if events != [] {
      ReturnedStays(s, events[..|events| - 1]);
    }
  }

  lemma RecentIsSafe(s: Ring, events: seq<Event>, j: nat)
    requires Inv(s) && s.returned <= j + 1 && NoReturns(events)
    ensures !Overrun(Run(s, events), j)
  {
    RunKeepsInv(s, events);
    ReturnedStays(s, events);
    var t := Run(s, events);
    hide DataOk;
    NotFull(t);
  }

  lemma {:induction false} RunAppend(s: Ring, a: seq<Event>, b: seq<Event>)
    requires Shape(s)
    ensures Run(s, a + b) == Run(Run(s, a), b)
  {
    hide Apply;
    if b == [] {
      assert a + b == a;
    } else {
      var c, e := b[..|b| - 1], b[|b| - 1];
      assert (a + b)[..|a + b| - 1] == a + c;
      RunAppend(s, a, c);
    }
  }

  /** Filling the ring from s on makes the worker overrun j. */
  lemma {:induction false} Refill(s: Ring, j: nat) returns (events: seq<Event>)
    requires Inv(s) && !Jammed(s) && s.returned > j + 1
    ensures NoReturns(events) && Overrun(Run(s, events), j)
    decreases j + |s.slots| - |s.received|
  {
    hide DataOk, Apply;
    NotFull(s);
    if |s.received| >= j + |s.slots| {
      events := [];
    } else {
      var fill := Read(FrameRing.Zeros(s.size - s.got));
      FillOne(s);
      var m := Apply(s, fill);
      var t := Apply(m, Complete);
      ApplyKeepsInv(s, fill);
      ApplyKeepsInv(m, Complete);
      var rest := Refill(t, j);
      events := [fill, Complete] + rest;
      assert [fill, Complete][..1] == [fill] && [fill][..0] == [];
      assert Run(s, [fill]) == m;
      RunAppend(s, [fill, Complete], rest);
    }
  }

  /** A read that fills the worker's slot, and its completion. */
  lemma FillOne(s: Ring)
    requires Inv(s) && !Jammed(s) && |s.received| + 1 < s.returned + |s.slots|
    ensures var t := Apply(Apply(s, Read(FrameRing.Zeros(s.size - s.got))), Complete);
            && !Jammed(t) && |t.received| == |s.received| + 1 && t.returned == s.returned
            && t.handed == s.handed && t.caller == s.caller
  {
    NotFull(s);
    hide DataOk, PointersOk;
  }

  // ----- effects of single steps -----

  lemma RunOne(s: Ring, e: Event)
    requires Shape(s)
    ensures Run(s, [e]) == Apply(s, e)
  {
    hide Apply;
    assert [e][..0] == [];
    assert Run(s, []) == s;
  }

  lemma RunTwo(s: Ring, d: Event, e: Event)
    requires Shape(s)
    ensures Run(s, [d, e]) == Apply(Apply(s, d), e)
  {
    hide Apply;
    RunOne(s, d);
    assert [d, e][..1] == [d];
  }

  lemma RunNone(s: Ring)
    requires Shape(s)
    ensures Run(s, []) == s
  {
  }

  lemma ShapeFacts(s: Ring)
    requires Inv(s)
    ensures Shape(s) && s.size > 0 && s.next < |s.slots| && |s.received| < s.returned + |s.slots|
  {
  }

  lemma ReadEffect(s: Ring, bytes: seq<uint8>)
    requires Shape(s) && MayRead(s) && |bytes| <= s.size
    ensures Apply(s, Read(bytes))
         == s.(slots := Landed(s.slots, s.w, s.size, s.got, bytes), got := s.got + |bytes|, link := s.link + bytes)
  {
  }

  lemma CompleteEffect(s: Ring)
    requires Shape(s) && s.got == s.size
    ensures Apply(s, Complete) == s.(got := 0, remain := s.remain + 1, w := Next(s.w, |s.slots|),
                                     received := s.received + [s.slots[s.w]])
  {
  }

  lemma DequeueEffect(s: Ring)
    requires Inv(s) && s.caller.Waiting?
    ensures s.remain > 0 <==> |s.handed| < |s.received|
    ensures s.next == |s.handed| % |s.slots|
    ensures s.remain > 0 ==>
              && (!Jammed(s) ==> s.slots[s.next] == s.received[|s.handed|])
              && Apply(Apply(s, Take), Hand)
                 == s.(remain := s.remain - 1, caller := Free, next := Next(s.next, |s.slots|),
                       lent := s.lent + {|s.handed|}, handed := s.handed + [s.slots[s.next]])
  {
  }

  lemma ReturnEffect(s: Ring, j: nat)
    requires Shape(s) && s.caller == Free && j in s.lent
    ensures Apply(s, Return(j)) == s.(lent := s.lent - {j}, r := Next(s.r, |s.slots|), returned := s.returned + 1)
  {
  }

  // ----- what can happen -----

  /** A frame larger than a byte jams when it arrives all but one byte and a whole frame more. */
  lemma JamHappens(s: Ring) returns (events: seq<Event>)
    requires Start(s) && s.size > 1
    ensures Jammed(Run(s, events))
  {
    var some, whole := Read(FrameRing.Zeros(s.size - 1)), Read(FrameRing.Zeros(s.size));
    SmallMod(1, |s.slots|);
    hide Landed;
    RunTwo(s, some, whole);
    events := [some, whole];
  }

  lemma ReceiveOne(s: Ring) returns (events: seq<Event>)
    requires Inv(s) && s.got == 0 && |s.received| + 1 < s.returned + |s.slots|
    ensures Shape(s)
    ensures var t := Run(s, events);
            && Inv(t) && |t.received| == |s.received| + 1
            && t == s.(slots := t.slots, w := t.w, remain := s.remain + 1, received := t.received, link := t.link)
  {
    var whole := Read(FrameRing.Zeros(s.size));
    NotFull(s);
    ShapeFacts(s);
    hide Inv, Landed, Apply, Run, Shape;
    ReadEffect(s, whole.bytes);
    CompleteEffect(Apply(s, whole));
    RunTwo(s, whole, Complete);
    events := [whole, Complete];
    RunKeepsInv(s, events);
  }

  lemma LendOne(s: Ring) returns (events: seq<Event>)
    requires Inv(s) && s.caller == Free && s.remain > 0
    ensures Shape(s)
    ensures var t := Run(s, events);
            && Inv(t) && |t.handed| == |s.handed| + 1
            && t == s.(remain := s.remain - 1, next := t.next, lent := s.lent + {|s.handed|}, handed := t.handed)
  {
    ShapeFacts(s);
    var m := s.(caller := Waiting(true));
    assert Apply(s, Wait(true)) == m;
    WaitKeepsInv(s, Wait(true));
    hide Apply, Run, Inv;
    DequeueEffect(m);
    RunOne(s, Wait(true));
    RunTwo(m, Take, Hand);
    RunAppend(s, [Wait(true)], [Take, Hand]);
    events := [Wait(true)] + [Take, Hand];
    RunKeepsInv(s, events);
  }

  lemma ReturnOne(s: Ring, j: nat) returns (events: seq<Event>)
    requires Inv(s) && s.caller == Free && j in s.lent
    ensures Shape(s)
    ensures var t := Run(s, events);
            Inv(t) && t == s.(lent := s.lent - {j}, r := t.r, returned := s.returned + 1)
  {
    hide Apply, Run, Inv;
    ShapeFacts(s);
    ReturnEffect(s, j);
    RunOne(s, Return(j));
    events := [Return(j)];
    RunKeepsInv(s, events);
  }

  /** Two buffers are lent, the later one comes back, and a third is lent. */
  lemma KeepFirst(s: Ring) returns (events: seq<Event>)
    requires Start(s) && |s.slots| > 2
    ensures var t := Run(s, events);
            && Inv(t) && |t.slots| == |s.slots| && t.caller == Free && t.got == 0 && t.remain == 0
            && t.lent == {0} && t.returned == 1 && |t.received| == |t.handed| == 2
  {
    hide Inv, Apply, Run;
    events := LendMany(s, 2);
    var t := Run(s, events);
    var more := ReturnOne(t, 1);
    RunAppend(s, events, more);
    events := events + more;
  }

  /** With three slots or more, keeping the first buffer while two later ones come back gets it overrun. */
  lemma OutOfOrderOverruns(s: Ring) returns (events: seq<Event>)
    requires Start(s) && |s.slots| > 2
    ensures 0 in Run(s, events).lent && Overrun(Run(s, events), 0)
  {
    hide Inv, Apply, Run, Overrun;
    events := KeepFirst(s);
    var more := ReturnAgain(Run(s, events));
    RunAppend(s, events, more);
    events := events + more;
    more := Refill(Run(s, events), 0);
    LentStays(Run(s, events), more, 0);
    RunAppend(s, events, more);
    events := events + more;
  }

  lemma ReturnAgain(s: Ring) returns (events: seq<Event>)
    requires Inv(s) && s.caller == Free && s.got == 0 && s.remain == 0 && |s.slots| > 2
    requires s.lent == {0} && s.returned == 1 && |s.received| == |s.handed| == 2
    ensures Shape(s)
    ensures var t := Run(s, events);
            Inv(t) && !Jammed(t) && t.lent == {0} && t.returned == 2
  {
    ShapeFacts(s);
    hide Inv, Apply, Run;
    events := ReceiveAndLend(s);
    var t := Run(s, events);
    var more := ReturnOne(t, 2);
    RunAppend(s, events, more);
    events := events + more;
  }

  lemma {:induction false} LentStays(s: Ring, events: seq<Event>, j: nat)
    requires Shape(s) && NoReturns(events) && j in s.lent
    ensures j in Run(s, events).lent
  {
    hide Landed;
    if events != [] {
      LentStays(s, events[..|events| - 1], j);
    }
  }

  // ----- waiting for ever -----

  /** Nothing is there to hand out, and nothing will come: the ring is full or jammed. */
  predicate NothingComes(s: Ring) {
    |s.handed| == |s.received| && (Jammed(s) || |s.received| + 1 == s.returned + |s.slots|)
  }

  /** While a dequeue waits with the read lock held no buffer can be returned, so a full ring stays full. */
  lemma WaitStep(s: Ring, e: Event)
    requires Inv(s) && s.caller == Waiting(true) && NothingComes(s)
    ensures var t := Apply(s, e); t.caller == Waiting(true) && NothingComes(t) && t.handed == s.handed
  {
    JamStep(s, e);
    NotFull(s);
    hide DataOk, Landed;
  }

  lemma {:induction false} WaitsForever(s: Ring, events: seq<Event>)
    requires Inv(s) && s.caller == Waiting(true) && NothingComes(s)
    ensures var t := Run(s, events);
            Inv(t) && t.caller == Waiting(true) && NothingComes(t) && t.handed == s.handed
  {
    hide PointersOk, DataOk, Apply, NothingComes;
    if events != [] {
      var before, e := events[..|events| - 1], events[|events| - 1];
      WaitsForever(s, before);
      ApplyKeepsInv(Run(s, before), e);
      WaitStep(Run(s, before), e);
    }
  }

  lemma TakeAndHand(s: Ring) returns (events: seq<Event>)
    requires Inv(s) && s.caller.Waiting? && |s.handed| < |s.received|
    ensures Shape(s) && |Run(s, events).handed| == |s.handed| + 1
  {
    hide Apply, Run, Inv;
    ShapeFacts(s);
    DequeueEffect(s);
    RunTwo(s, Take, Hand);
    events := [Take, Hand];
  }

  lemma FillTakeAndHand(s: Ring) returns (events: seq<Event>)
    requires Inv(s) && !Jammed(s) && s.caller.Waiting? && |s.received| + 1 < s.returned + |s.slots|
    ensures Shape(s) && |Run(s, events).handed| == |s.handed| + 1
  {
    var fill := Read(FrameRing.Zeros(s.size - s.got));
    FillOne(s);
    ShapeFacts(s);
    RunTwo(s, fill, Complete);
    RunKeepsInv(s, [fill, Complete]);
    var t := Run(s, [fill, Complete]);
    MoreReceived(s);
    hide Apply, Run, Inv;
    var more := TakeAndHand(t);
    RunAppend(s, [fill, Complete], more);
    events := [fill, Complete] + more;
  }

  lemma MoreReceived(s: Ring)
    requires Inv(s)
    ensures |s.handed| <= |s.received|
  {
  }

  /** A dequeue that waits for ever gets a buffer in some continuation, except when nothing comes. */
  lemma HopelessExactlyWhen(s: Ring, events: seq<Event>)
    requires Start(s) && Run(s, events).caller == Waiting(true)
    ensures var t := Run(s, events);
            (forall more :: Run(t, more).handed == t.handed) <==> NothingComes(t)
  {
    StartInv(s);
    RunKeepsInv(s, events);
    var t := Run(s, events);
    MoreReceived(t);
    ShapeFacts(t);
    hide Inv, Apply, Run;
    if NothingComes(t) {
      forall more
        ensures Run(t, more).handed == t.handed
      {
        WaitsForever(t, more);
      }
    } else if |t.handed| < |t.received| {
      var more := TakeAndHand(t);
    } else {
      var more := FillTakeAndHand(t);
    }
  }

  function FirstBuffers(k: nat): set<nat> { if k == 0 then {} else FirstBuffers(k - 1) + {k - 1} }

  lemma {:induction false} LendMany(s: Ring, k: nat) returns (events: seq<Event>)
    requires Start(s) && k < |s.slots|
    ensures var t := Run(s, events);
            && Inv(t) && t.caller == Free && t.got == 0 && t.returned == 0 && t.remain == 0 && |t.slots| == |s.slots|
            && |t.received| == |t.handed| == k && t.size == s.size && t.lent == FirstBuffers(k)
  {
    StartInv(s);
    hide Inv, Apply;
    if k == 0 {
      events := [];
    } else {
      events := LendMany(s, k - 1);
      var more := ReceiveAndLend(Run(s, events));
      RunAppend(s, events, more);
      events := events + more;
    }
  }

  lemma ReceiveAndLend(s: Ring) returns (events: seq<Event>)
    requires Inv(s) && s.caller == Free && s.got == 0 && s.remain == 0 && |s.received| + 1 < s.returned + |s.slots|
    ensures Shape(s)
    ensures var t := Run(s, events);
            && Inv(t) && t.caller == Free && t.got == 0 && t.remain == 0
            && |t.received| == |s.received| + 1 && |t.handed| == |s.handed| + 1
            && t.returned == s.returned && t.lent == s.lent + {|s.handed|} && t.size == s.size
  {
    hide Inv, Apply, Run, Shape;
    events := ReceiveOne(s);
    var more := LendOne(Run(s, events));
    RunAppend(s, events, more);
    events := events + more;
  }

  /** A user who holds every buffer and waits for one more, without a timeout, waits in vain. */
  lemma WaitInVainHappens(s: Ring) returns (events: seq<Event>)
    requires Start(s)
    ensures var t := Run(s, events); t.caller == Waiting(true) && NothingComes(t)
  {
    var before := LendMany(s, |s.slots| - 1);
    RunOneMore(s, before, Wait(true));
    hide Run, Inv;
    events := before + [Wait(true)];
  }

  lemma RunOneMore(s: Ring, events: seq<Event>, e: Event)
    requires Shape(s)
    ensures Run(s, events + [e]) == Apply(Run(s, events), e)
  {
    assert (events + [e])[..|events|] == events;
  }
}
