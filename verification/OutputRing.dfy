/** The output ring as an object: the worker's poll, dequeue and enqueue, against the steps of Lending. */
module OutputRings {
  import opened Words
  import opened Lending

  class OutputRing {
    const n: nat
    const size: nat
    const slots: array<Frame>
    var entryW: nat
    var entryR: nat
    var readBufIdx: nat
    var remainBufCnt: nat
    var transferredSize: nat
    ghost var caller: Caller
    ghost var received: seq<Frame>
    ghost var handed: seq<Frame>
    ghost var lent: set<nat>
    ghost var returned: nat
    ghost var link: seq<uint8>

    ghost function State(): Ring
      reads this, slots
    {
      Ring(slots[..], size, entryW, entryR, readBufIdx, remainBufCnt, transferredSize, caller,
           received, handed, lent, returned, link)
    }

    ghost predicate Valid()
      reads this, slots
    {
      slots.Length == n && Inv(State()) && transferredSize != size
    }

    constructor (n: nat, size: nat)
      requires n >= 2 && size > 0
      ensures Valid() && fresh(slots) && this.n == n && this.size == size && Start(State())
    {
      this.n, this.size := n, size;
      slots := new Frame[n](_ => seq(size, _ => 0));
      entryW, entryR, readBufIdx, remainBufCnt, transferredSize := 0, 0, 0, 0, 0;
      caller, received, handed, lent, returned, link := Free, [], [], {}, 0, [];
      new;
      StartInv(State());
    }

    /** The worker's turn: a whole frame is asked for, jammed or not, and the link delivers `bytes`. */
    method Transfer(bytes: seq<uint8>) returns (length: nat)
      requires Valid() && |bytes| <= size
      modifies this`entryW, this`remainBufCnt, this`transferredSize, this`received, this`link, slots
      ensures Valid()
      ensures length == if old(|received| + 1 == returned + n) then 0 else |bytes|
      ensures State() == Run(old(State()), if old(|received| + 1 == returned + n) then []
                                           else if old(transferredSize) + |bytes| == size then [Read(bytes), Complete]
                                           else [Read(bytes)])
      ensures length > 0 ==> link == old(link) + bytes
      ensures var whole := length > 0 && old(transferredSize) + length == size;
              && transferredSize == (if whole then 0 else old(transferredSize) + length)
              && |received| == old(|received|) + (if whole then 1 else 0)
              && remainBufCnt == old(remainBufCnt) + (if whole then 1 else 0)
              && entryW == if !whole then old(entryW) else if old(entryW) + 1 == n then 0 else old(entryW) + 1
    {
      hide Inv, Apply, Run, Landed;
      ghost var was := State();
      ShapeFacts(was);
      NotFull(was);
      RunNone(was);
      if (entryW + 1) % n == entryR {
        return 0;
      }
      length := |bytes|;
      RunOne(was, Read(bytes));
      RunTwo(was, Read(bytes), Complete);
      ReadEffect(was, bytes);
      RunKeepsInv(was, [Read(bytes)]);
      RunKeepsInv(was, [Read(bytes), Complete]);
      LandBytes(bytes);
      transferredSize := transferredSize + |bytes|;
      link := link + bytes;
      ghost var landed := State();
      if transferredSize == size {
        CompleteEffect(landed);
        transferredSize := 0;
        remainBufCnt := remainBufCnt + 1;
        received := received + [slots[entryW]];
        entryW := if entryW + 1 == n then 0 else entryW + 1;
      }
    }

    /** Where the bytes end up; what lies behind the buffer is not modelled. */
    method LandBytes(bytes: seq<uint8>)
      requires slots.Length == n && size > 0 && forall i :: 0 <= i < n ==> |slots[i]| == size
      modifies slots
      ensures slots[..] == Landed(old(slots[..]), entryW, size, transferredSize, bytes)
    {
      hide Landed, LandOne;
      ghost var was := slots[..];
      LandNothing(was, entryW, size, transferredSize);
      for j := 0 to |bytes|
        invariant forall i :: 0 <= i < n ==> |slots[i]| == size
        invariant slots[..] == Landed(was, entryW, size, transferredSize, bytes[..j])
      {
        LandNext(slots[..], was, entryW, size, transferredSize, bytes, j);
        var at := transferredSize + j;
        var i, k := entryW + at / size, at % size;
        if 0 <= i < n {
          slots[i] := Put(slots[i], k, bytes[j]);
        }
      }
      assert bytes[..|bytes|] == bytes;
    }

    /**
     dequeue_ofmap_buf: lends the slot with the oldest frame not yet handed out.  Without one it gives up, or, when it
     is to wait for ever, stays there with the read lock held; `ok` is false where it waits.
     */
    method DequeueOfmapBuf(timeout: nat) returns (ok: bool, idx: nat, frame: Frame)
      requires Valid() && caller == Free
      modifies this`readBufIdx, this`remainBufCnt, this`caller, this`handed, this`lent
      ensures Valid() && (ok <==> old(|handed| < |received|))
      ensures State() == Run(old(State()), [Wait(timeout == 0)] + if ok then [Take, Hand]
                                                                  else if timeout == 0 then [] else [GiveUp])
      ensures ok ==> idx == old(|handed|) % n && frame == slots[idx] && lent == old(lent) + {old(|handed|)}
      ensures ok && !Jammed(State()) ==> frame == received[old(|handed|)]
      ensures !ok ==> caller == (if timeout == 0 then Waiting(true) else Free)
    {
      hide Apply, Run, Inv;
      ghost var was := State();
      ShapeFacts(was);
      WaitEffect(was, timeout == 0);
      RunOne(was, Wait(timeout == 0));
      caller := Waiting(timeout == 0);
      ghost var waiting := State();
      ok, idx, frame := PollBuffer();
      RunAppend(was, [Wait(timeout == 0)], [Take, Hand]);
      if !ok {
        RunNone(waiting);
        RunAppend(was, [Wait(timeout == 0)], []);
        RunAppend(was, [Wait(timeout == 0)], [GiveUp]);
        RunOne(waiting, GiveUp);
        if timeout != 0 {
          GiveUpEffect(waiting);
          caller := Free;
        }
      }
    }

    /** One look of a waiting dequeue at the count of buffers. */
    method PollBuffer() returns (ok: bool, idx: nat, frame: Frame)
      requires Valid() && caller.Waiting?
      modifies this`readBufIdx, this`remainBufCnt, this`caller, this`handed, this`lent
      ensures Valid() && State() == Run(old(State()), if ok then [Take, Hand] else [])
      ensures (ok <==> old(|handed| < |received|)) && (ok <==> old(remainBufCnt) > 0)
      ensures ok ==> idx == old(|handed|) % n && frame == slots[idx] && lent == old(lent) + {old(|handed|)}
      ensures ok && !Jammed(State()) ==> frame == received[old(|handed|)]
    {
      hide Apply, Run, Inv;
      ghost var was := State();
      ShapeFacts(was);
      RunNone(was);
      RunTwo(was, Take, Hand);
      DequeueEffect(was);
      RunKeepsInv(was, [Take, Hand]);
      if remainBufCnt == 0 {
        return false, 0, [];
      }
      remainBufCnt := remainBufCnt - 1;
      idx := readBufIdx;
      frame := slots[idx];
      readBufIdx := if readBufIdx + 1 == n then 0 else readBufIdx + 1;
      lent := lent + {|handed|};
      handed := handed + [frame];
      caller := Free;
      ok := true;
    }

    /** enqueue_ofmap_buf: which buffer comes back is not looked at beyond its index range. */
    method EnqueueOfmapBuf(idx: nat, ghost j: nat) returns (ok: bool)
      requires Valid() && caller == Free && j in lent
      modifies this`entryR, this`lent, this`returned
      ensures Valid() && (ok <==> idx < n)
      ensures State() == Run(old(State()), if ok then [Return(j)] else [])
      ensures if ok then
                && entryR == (if old(entryR) + 1 == n then 0 else old(entryR) + 1)
                && lent == old(lent) - {j} && returned == old(returned) + 1
              else entryR == old(entryR) && lent == old(lent) && returned == old(returned)
    {
      hide Apply, Run, Inv;
      ghost var was := State();
      ShapeFacts(was);
      RunNone(was);
      RunOne(was, Return(j));
      ReturnEffect(was, j);
      RunKeepsInv(was, [Return(j)]);
      if idx >= n {
        return false;
      }
      entryR := if entryR + 1 == n then 0 else entryR + 1;
      lent := lent - {j};
      returned := returned + 1;
      ok := true;
    }
  }

  lemma WaitEffect(s: Ring, forever: bool)
    requires Inv(s) && s.caller == Free
    ensures Shape(s) && Apply(s, Wait(forever)) == s.(caller := Waiting(forever)) && Inv(s.(caller := Waiting(forever)))
  {
    WaitKeepsInv(s, Wait(forever));
  }

  lemma GiveUpEffect(s: Ring)
    requires Inv(s) && s.caller == Waiting(false) && s.remain == 0
    ensures Shape(s) && Apply(s, GiveUp) == s.(caller := Free) && Inv(s.(caller := Free))
  {
    WaitKeepsInv(s, GiveUp);
  }

  lemma LandNothing(slots: seq<Frame>, w: nat, size: nat, got: nat)
    requires size > 0 && forall i :: 0 <= i < |slots| ==> |slots[i]| == size
    ensures Landed(slots, w, size, got, []) == slots
  {
  }

  lemma LandNext(slots: seq<Frame>, was: seq<Frame>, w: nat, size: nat, got: nat, bytes: seq<uint8>, j: nat)
    requires size > 0 && (forall i :: 0 <= i < |was| ==> |was[i]| == size) && j < |bytes|
    requires slots == Landed(was, w, size, got, bytes[..j])
    ensures var i, k := w + (got + j) / size, (got + j) % size;
            && (0 <= i < |slots| ==> 0 <= k < |slots[i]|)
            && Landed(was, w, size, got, bytes[..j + 1])
               == if 0 <= i < |slots| then slots[i := Put(slots[i], k, bytes[j])] else slots
  {
    assert bytes[..j + 1][..j] == bytes[..j];
  }
}
