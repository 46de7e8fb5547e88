/** Sharing the input link among the flows of multi-input models: masks, threshold and frame skew. */
module LoadBalance {
  import opened RingIndex
  import Arithmetic

  /** A flow's ring as the scheduler sees it; `sent` and `rows` count the bytes and writes of the frame under way. */
  datatype Ring = Ring(valid: bool, entryW: nat, entryR: nat, frames: nat, size: nat, sent: nat, rows: nat)

  /** The worker's local variables, the rings, and how many frames of each flow it has completed. */
  datatype Worker = Worker(mode: set<nat>, rowMask: set<nat>, frmMask: set<nat>, threshold: nat,
                           rings: seq<Ring>, done: seq<nat>)

  ghost predicate WellFormed(s: Worker) {
    && |s.rings| == |s.done|
    && s.rowMask <= s.mode && s.frmMask <= s.mode
    && (forall i :: i in s.mode ==> i < |s.rings|)
    && (forall i :: 0 <= i < |s.rings| ==> RingOk(s.rings[i]))
  }

  predicate RingOk(q: Ring) {
    q.entryW < q.frames && q.entryR < q.frames && q.sent < q.size
  }

  predicate HasData(q: Ring) { q.valid && q.entryW != q.entryR }

  // ----- one turn -----

  predicate RowCheck(s: Worker, i: nat)
    requires i < |s.rings|
  {
    s.frmMask == {} && i !in s.rowMask && s.rings[i].rows <= s.threshold
  }

  predicate FrameCheck(s: Worker, i: nat) { s.frmMask != {} && i !in s.frmMask }

  /** A non-blocking write took n bytes of the frame under way. */
  function AfterWrite(q: Ring, n: nat): Ring {
    if q.sent + n == q.size then q.(sent := 0, rows := 0, entryR := Next(q.entryR, q.frames))
    else q.(sent := q.sent + n, rows := q.rows + 1)
  }

  /** A blocking write empties the contiguous run of waiting frames. */
  function AfterDrain(q: Ring): Ring { q.(entryR := if q.entryW > q.entryR then q.entryW else 0) }

  function Cleared(mask: set<nat>, mode: set<nat>): set<nat> { if mask == mode then {} else mask }

  function Account(s: Worker, i: nat, n: nat): Worker
    requires i < |s.rings| == |s.done|
  {
    var q := AfterWrite(s.rings[i], n);
    var whole := s.rings[i].sent + n == s.rings[i].size;
    s.(rings := s.rings[i := q],
       done := if whole then s.done[i := s.done[i] + 1] else s.done,
       threshold := if q.rows != 0 then q.rows else s.threshold,
       rowMask := Cleared(s.rowMask + {i}, s.mode),
       frmMask := Cleared(if whole then s.frmMask + {i} else s.frmMask, s.mode))
  }

  /** The turn of flow i when the link would take up to n bytes. */
  function Turn(s: Worker, i: nat, n: nat): Worker
    requires i < |s.rings| == |s.done| && RingOk(s.rings[i])
  {
    var q := s.rings[i];
    if !HasData(q) then s
    else if i !in s.mode then s.(rings := s.rings[i := AfterDrain(q)])
    else if (RowCheck(s, i) || FrameCheck(s, i)) && n > 0 then
      Account(s, i, if n < q.size - q.sent then n else q.size - q.sent)
    else s
  }

  // ----- runs -----

  datatype Event = Push(i: nat) | Visit(i: nat, n: nat)

  /** A push to a full ring times out, one to a flow not set up is refused; both change nothing. */
  function Apply(s: Worker, e: Event): Worker
    requires WellFormed(s)
  {
    match e
    case Push(i) =>
      if i < |s.rings| && s.rings[i].valid && Next(s.rings[i].entryW, s.rings[i].frames) != s.rings[i].entryR
      then s.(rings := s.rings[i := s.rings[i].(entryW := Next(s.rings[i].entryW, s.rings[i].frames))])
      else s
    case Visit(i, n) => if i < |s.rings| then Turn(s, i, n) else s
  }

  ghost predicate Start(s: Worker) {
    && WellFormed(s) && s.rowMask == {} && s.frmMask == {} && s.threshold == 0
    && forall i :: 0 <= i < |s.rings| ==> s.rings[i].sent == 0 && s.rings[i].rows == 0 && s.done[i] == 0
  }

  /** t is reached from s by pushes and scheduler turns in any order. */
  ghost predicate Reaches(s: Worker, events: seq<Event>, t: Worker)
    requires WellFormed(s)
  {
    if events == [] then s == t
    else exists m :: WellFormed(m) && Reaches(s, events[..|events| - 1], m) && t == Apply(m, events[|events| - 1])
  }

  // ----- the invariant -----

  /** Writes of flow i in its current frame, the one of this row round not counted. */
  function Level(s: Worker, i: nat): int
    requires i < |s.rings|
  {
    s.rings[i].rows - Bit(i in s.rowMask)
  }

  /** Full rounds of frames: the completed frames, the one of this frame round not counted. */
  function Rounds(s: Worker, i: nat): int
    requires i < |s.done|
  {
    s.done[i] - Bit(i in s.frmMask)
  }

  ghost predicate LevelsClose(s: Worker)
    requires WellFormed(s)
  {
    forall i, j :: i in s.mode && j in s.mode ==> Level(s, i) <= Level(s, j) + 1
  }

  ghost predicate AllRowsZero(s: Worker)
    requires WellFormed(s)
  {
    forall i :: i in s.mode ==> s.rings[i].rows == 0
  }

  /** Flow k wrote last: the threshold is its row count. */
  ghost predicate LastWriter(s: Worker, k: nat)
    requires WellFormed(s)
  {
    k in s.mode && s.threshold == s.rings[k].rows && (s.rowMask != {} ==> k in s.rowMask)
  }

  ghost predicate Balanced(s: Worker) {
    && WellFormed(s)
    && (s.mode != {} ==> s.rowMask != s.mode && s.frmMask != s.mode)
    && (forall i :: i in s.frmMask ==> s.rings[i].rows == 0 && s.rings[i].sent == 0)
    && (forall i, j :: i in s.mode && j in s.mode ==> Rounds(s, i) == Rounds(s, j) >= 0)
    && (s.frmMask == {} ==> LevelsClose(s) && (AllRowsZero(s) || exists k :: LastWriter(s, k)))
  }

  lemma StartIsBalanced(s: Worker)
    requires Start(s)
    ensures Balanced(s)
  {
  }

  /** Flow i may write: the test in front of the non-blocking transfer. */
  predicate MayWrite(s: Worker, i: nat)
    requires i < |s.rings|
  {
    RowCheck(s, i) || FrameCheck(s, i)
  }

  ghost predicate Writes(s: Worker, i: nat, n: nat) {
    Balanced(s) && i in s.mode && MayWrite(s, i) && 0 < n <= s.rings[i].size - s.rings[i].sent
  }

  lemma AccountKeepsForm(s: Worker, i: nat, n: nat)
    requires Writes(s, i, n)
    ensures WellFormed(Account(s, i, n))
    ensures var t := Account(s, i, n); t.rowMask != s.mode && t.frmMask != s.mode
  {
    hide LevelsClose, AllRowsZero, LastWriter;
    assert s.mode != {};
    assert i < |s.rings|;
    assert forall j :: 0 <= j < |s.rings| ==> RingOk(s.rings[j]);
    var t := Account(s, i, n);
    assert t.rowMask <= s.mode && t.frmMask <= s.mode;
    assert RingOk(AfterWrite(s.rings[i], n));
  }

  lemma AccountKeepsRounds(s: Worker, i: nat, n: nat)
    requires Writes(s, i, n) && WellFormed(Account(s, i, n))
    ensures var t := Account(s, i, n);
            forall j, k :: j in s.mode && k in s.mode ==> Rounds(t, j) == Rounds(t, k) >= 0
    ensures var t := Account(s, i, n);
            forall j :: j in t.frmMask ==> t.rings[j].rows == 0 && t.rings[j].sent == 0
  {
    hide LevelsClose, AllRowsZero, LastWriter;
  }

  /** The frame mask clears only when every flow has just finished a frame. */
  lemma AccountKeepsLevels(s: Worker, i: nat, n: nat)
    requires Writes(s, i, n) && WellFormed(Account(s, i, n)) && Account(s, i, n).frmMask == {}
    ensures var t := Account(s, i, n); LevelsClose(t) && (AllRowsZero(t) || LastWriter(t, i))
  {
    var t := Account(s, i, n);
    if s.rings[i].sent + n == s.rings[i].size {
      assert i in s.frmMask + {i};
      assert s.frmMask + {i} == s.mode;
      assert AllRowsZero(t);
    } else {
      assert s.frmMask == {};
      assert t.rowMask == {} ==> (s.rowMask + {i} == s.mode || t.rowMask == s.rowMask + {i});
      assert i in s.rowMask + {i};
      forall j | j in s.mode
        ensures Level(t, j) == Level(s, j) + Bit(t.rowMask == {})
      {
        if t.rowMask == {} {
          assert j in s.rowMask + {i};
        }
      }
    }
  }

  lemma ApplyKeepsBalance(s: Worker, e: Event)
    requires Balanced(s)
    ensures Balanced(Apply(s, e)) && Apply(s, e).mode == s.mode
  {
    BalancedIsWellFormed(s);
    if Moves(s, e) {
      var q := s.rings[e.i];
      var n := if e.n < q.size - q.sent then e.n else q.size - q.sent;
      AccountKeepsBalance(s, e.i, n);
      hide Balanced;
    } else {
      hide Balanced;
      QuietApply(s, e);
      QuietKeepsBalance(s, Apply(s, e));
    }
  }

  /** A visit that takes bytes of a flow of the mode. */
  predicate Moves(s: Worker, e: Event) {
    e.Visit? && e.i in s.mode && e.i < |s.rings| && HasData(s.rings[e.i]) && MayWrite(s, e.i) && e.n > 0
  }

  lemma QuietApply(s: Worker, e: Event)
    requires WellFormed(s) && !Moves(s, e)
    ensures var t := Apply(s, e);
            && WellFormed(t) && t == s.(rings := t.rings)
            && forall i :: i in s.mode ==> t.rings[i].rows == s.rings[i].rows && t.rings[i].sent == s.rings[i].sent
  {
    hide Account, Cleared;
  }

  lemma AccountKeepsBalance(s: Worker, i: nat, n: nat)
    requires Writes(s, i, n)
    ensures Balanced(Account(s, i, n))
  {
    hide LevelsClose, AllRowsZero, LastWriter;
    AccountKeepsForm(s, i, n);
    AccountKeepsRounds(s, i, n);
    if Account(s, i, n).frmMask == {} {
      AccountKeepsLevels(s, i, n);
    }
  }

  /** Moving ring pointers does not disturb the balance. */
  lemma QuietKeepsBalance(s: Worker, t: Worker)
    requires Balanced(s) && WellFormed(t) && t == s.(rings := t.rings)
    requires forall i :: i in s.mode ==> t.rings[i].rows == s.rings[i].rows && t.rings[i].sent == s.rings[i].sent
    ensures Balanced(t)
  {
    if s.frmMask == {} {
      if exists k :: LastWriter(s, k) {
        var k :| LastWriter(s, k);
        assert LastWriter(t, k);
      } else {
        assert AllRowsZero(t);
      }
      assert forall i :: i in s.mode ==> Level(t, i) == Level(s, i);
    }
    assert forall i :: i in s.mode ==> Rounds(t, i) == Rounds(s, i);
  }

  // ----- what holds in every run -----

  lemma {:induction false} RunsStayBalanced(s: Worker, events: seq<Event>, t: Worker)
    requires Start(s) && Reaches(s, events, t)
    ensures Balanced(t) && t.mode == s.mode
  {
    StartIsBalanced(s);
    BalanceIsKept(s, events, t);
  }

  lemma {:induction false} BalanceIsKept(s: Worker, events: seq<Event>, t: Worker)
    requires Balanced(s) && Reaches(s, events, t)
    ensures Balanced(t) && t.mode == s.mode
  {
    hide Balanced;
    BalancedIsWellFormed(s);
    if events != [] {
      var before, e := events[..|events| - 1], events[|events| - 1];
      var m :| WellFormed(m) && Reaches(s, before, m) && t == Apply(m, e);
      BalanceIsKept(s, before, m);
      ApplyKeepsBalance(m, e);
    }
  }

  lemma BalancedIsWellFormed(s: Worker)
    requires Balanced(s)
    ensures WellFormed(s)
  {
  }

  /** Some flow always passes one of the two checks: the scheduler never locks every flow out. */
  lemma NeverLockedOut(s: Worker) returns (i: nat)
    requires Balanced(s) && s.mode != {}
    ensures i in s.mode && MayWrite(s, i)
  {
    if s.frmMask != {} {
      i :| i in s.mode && i !in s.frmMask;
    } else if s.rowMask == {} && !AllRowsZero(s) {
      i :| LastWriter(s, i);
    } else {
      i :| i in s.mode && i !in s.rowMask;
      if !AllRowsZero(s) {
        var k :| LastWriter(s, k);
        assert Level(s, i) <= Level(s, k) + 1;
      }
    }
  }

  lemma NoLockOutInAnyRun(s: Worker, events: seq<Event>, t: Worker)
    requires Start(s) && Reaches(s, events, t) && s.mode != {}
    ensures exists i :: i in t.mode && i < |t.rings| && MayWrite(t, i)
  {
    RunsStayBalanced(s, events, t);
    var i := NeverLockedOut(t);
  }

  /** Completed frames differ by at most one, and the frame mask is exactly the flows that are ahead. */
  lemma FrameSkewInAnyRun(s: Worker, events: seq<Event>, t: Worker, i: nat, j: nat)
    requires Start(s) && Reaches(s, events, t) && i in t.mode && j in t.mode
    ensures i < |t.done| && j < |t.done| && t.done[i] <= t.done[j] + 1 && t.done[j] <= t.done[i] + 1
    ensures t.frmMask != {} ==>
              (i in t.frmMask <==> exists k :: k in t.mode && k < |t.done| && t.done[i] == t.done[k] + 1)
    ensures t.frmMask == {} ==> t.done[i] == t.done[j]
  {
    RunsStayBalanced(s, events, t);
    assert Rounds(t, i) == Rounds(t, j);
    if t.frmMask != {} {
      var k :| k in t.mode && k !in t.frmMask;
      assert Rounds(t, i) == Rounds(t, k);
      if i !in t.frmMask {
        forall m | m in t.mode
          ensures t.done[i] != t.done[m] + 1
        {
          assert Rounds(t, i) == Rounds(t, m);
        }
      }
    }
  }

  // ----- bytes -----

  /** Bytes the link has taken from the non-blocking flows below k. */
  function VolumeUpTo(s: Worker, k: nat): nat
    requires k <= |s.rings| == |s.done|
  {
    if k == 0 then 0
    else VolumeUpTo(s, k - 1) + if k - 1 in s.mode then Bytes(s.done[k - 1], s.rings[k - 1]) else 0
  }

  function Bytes(done: nat, q: Ring): nat { done * q.size + q.sent }

  function Volume(s: Worker): nat
    requires |s.rings| == |s.done|
  {
    VolumeUpTo(s, |s.rings|)
  }

  /** Bytes of one frame of every non-blocking flow below k. */
  function RoundUpTo(s: Worker, k: nat): nat
    requires k <= |s.rings|
  {
    if k == 0 then 0 else RoundUpTo(s, k - 1) + if k - 1 in s.mode then s.rings[k - 1].size else 0
  }

  lemma {:induction false} AccountAddsVolume(s: Worker, i: nat, n: nat, k: nat)
    requires Writes(s, i, n) && k <= |s.rings|
    ensures VolumeUpTo(Account(s, i, n), k) == VolumeUpTo(s, k) + if i < k then n else 0
  {
    BalancedIsWellFormed(s);
    hide Balanced, MayWrite;
    if k > 0 {
      AccountAddsVolume(s, i, n, k - 1);
      AccountAddsBytes(s.done[i], s.rings[i], n);
    }
  }

  lemma AccountAddsBytes(done: nat, q: Ring, n: nat)
    ensures q.sent + n == q.size ==> Bytes(done + 1, AfterWrite(q, n)) == Bytes(done, q) + n
    ensures q.sent + n != q.size ==> Bytes(done, AfterWrite(q, n)) == Bytes(done, q) + n
  {
    assert (done + 1) * q.size == done * q.size + q.size;
  }

  lemma {:induction false} SameVolume(s: Worker, t: Worker, k: nat)
    requires k <= |s.rings| == |s.done| == |t.rings| == |t.done| && t.done == s.done && t.mode == s.mode
    requires forall i: nat :: i in s.mode && i < |s.rings| ==>
                                t.rings[i].size == s.rings[i].size && t.rings[i].sent == s.rings[i].sent
    ensures VolumeUpTo(t, k) == VolumeUpTo(s, k)
  {
    if k > 0 {
      SameVolume(s, t, k - 1);
    }
  }

  /** Every flow's full rounds are the whole rounds contained in the bytes the link has taken. */
  lemma LockStepInAnyRun(s: Worker, events: seq<Event>, t: Worker, i: nat)
    requires Start(s) && Reaches(s, events, t) && i in t.mode
    ensures i < |t.rings| == |t.done| && t.done[i] >= Bit(i in t.frmMask)
    ensures var n, round := t.done[i] - Bit(i in t.frmMask), RoundUpTo(t, |t.rings|);
            n * round <= Volume(t) < (n + 1) * round
  {
    hide LevelsClose, AllRowsZero, LastWriter, Reaches, Start;
    RunsStayBalanced(s, events, t);
    var behind :| behind in t.mode && behind !in t.frmMask;
    var n := Rounds(t, i);
    assert Rounds(t, i) == Rounds(t, i);
    VolumeBounds(t, n, behind, |t.rings|);
  }

  lemma {:induction false} VolumeBounds(s: Worker, n: nat, behind: nat, k: nat)
    requires Balanced(s) && k <= |s.rings| && behind in s.mode && behind !in s.frmMask
    requires forall i :: i in s.mode ==> Rounds(s, i) == n
    ensures n * RoundUpTo(s, k) <= VolumeUpTo(s, k) <= (n + 1) * RoundUpTo(s, k)
    ensures behind < k ==> VolumeUpTo(s, k) < (n + 1) * RoundUpTo(s, k)
  {
    hide LevelsClose, AllRowsZero, LastWriter;
    if k > 0 {
      VolumeBounds(s, n, behind, k - 1);
      if k - 1 in s.mode {
        var q := s.rings[k - 1];
        assert RingOk(q) && Rounds(s, k - 1) == n;
        assert n * (RoundUpTo(s, k - 1) + q.size) == n * RoundUpTo(s, k - 1) + n * q.size;
        assert (n + 1) * (RoundUpTo(s, k - 1) + q.size) == (n + 1) * RoundUpTo(s, k - 1) + (n + 1) * q.size;
        assert (n + 1) * q.size == n * q.size + q.size;
      }
    }
  }

  // ----- progress -----

  /** The scheduler's choices are the same in both states. */
  ghost predicate SameSchedule(s: Worker, t: Worker)
    requires WellFormed(s) && WellFormed(t)
  {
    && t == s.(rings := t.rings) && |t.rings| == |s.rings|
    && forall i :: i in s.mode ==>
                     && t.rings[i] == s.rings[i].(entryW := t.rings[i].entryW)
                     && (HasData(s.rings[i]) ==> HasData(t.rings[i]))
  }

  /** Flow i has a frame waiting and passes the checks. */
  ghost predicate CanMove(s: Worker, i: nat) {
    i in s.mode && i < |s.rings| && HasData(s.rings[i]) && MayWrite(s, i)
  }

  lemma VisitAccounts(s: Worker, i: nat, n: nat) returns (m: nat)
    requires Balanced(s) && CanMove(s, i) && n > 0
    ensures Writes(s, i, m) && Apply(s, Visit(i, n)) == Account(s, i, m)
  {
    var q := s.rings[i];
    assert RingOk(q);
    m := if n < q.size - q.sent then n else q.size - q.sent;
  }

  /** One event either takes bytes from a flow or leaves the schedule as it is. */
  lemma ApplyMovesOrKeeps(s: Worker, e: Event)
    requires Balanced(s)
    ensures Balanced(Apply(s, e)) && Volume(Apply(s, e)) >= Volume(s)
    ensures Volume(Apply(s, e)) == Volume(s) ==>
              SameSchedule(s, Apply(s, e))
              && !(e.Visit? && CanMove(s, e.i) && e.n > 0)
  {
    ApplyKeepsBalance(s, e);
    BalancedIsWellFormed(s);
    if e.Visit? && CanMove(s, e.i) && e.n > 0 {
      var m := VisitAccounts(s, e.i, e.n);
      AccountAddsVolume(s, e.i, m, |s.rings|);
    } else {
      hide Balanced;
      SameVolume(s, Apply(s, e), |s.rings|);
    }
  }

  /** A stretch of events takes bytes, or leaves the schedule alone and visits no flow that could have moved. */
  lemma {:induction false} EventsMoveOrKeep(s: Worker, events: seq<Event>, t: Worker)
    requires Balanced(s) && Reaches(s, events, t)
    ensures Balanced(t) && Volume(t) >= Volume(s)
    ensures Volume(t) == Volume(s) ==>
              SameSchedule(s, t) && forall i: nat, n: nat :: CanMove(s, i) && n > 0 ==> Visit(i, n) !in events
  {
    hide Balanced, Volume, Apply, MayWrite;
    BalancedIsWellFormed(s);
    if events != [] {
      var before, e := events[..|events| - 1], events[|events| - 1];
      assert events == before + [e];
      var m :| WellFormed(m) && Reaches(s, before, m) && t == Apply(m, e);
      EventsMoveOrKeep(s, before, m);
      ApplyMovesOrKeeps(m, e);
      BalancedIsWellFormed(t);
      if Volume(t) == Volume(s) {
        SameCanMove(s, m);
      }
    }
  }

  lemma SameCanMove(s: Worker, t: Worker)
    requires Balanced(s) && Balanced(t) && SameSchedule(s, t)
    ensures forall i: nat :: CanMove(s, i) ==> CanMove(t, i)
  {
  }

  /** Once every flow has a frame waiting, visiting each of them on a link that takes something moves bytes. */
  lemma EveryPassMovesInAnyRun(s: Worker, events: seq<Event>, t: Worker, more: seq<Event>, u: Worker)
    requires Start(s) && Reaches(s, events, t) && WellFormed(t) && Reaches(t, more, u) && s.mode != {}
    requires forall i :: i in t.mode ==> HasData(t.rings[i]) && exists n: nat :: n > 0 && Visit(i, n) in more
    ensures WellFormed(u) && Volume(u) > Volume(t)
  {
    RunsStayBalanced(s, events, t);
    EventsMoveOrKeep(t, more, u);
    hide Balanced, Volume, MayWrite;
    BalancedIsWellFormed(u);
    var i := NeverLockedOut(t);
    assert CanMove(t, i);
  }

  // ----- what one event does -----

  /** A visit to a flow without a waiting frame changes nothing. */
  lemma IdleVisit(s: Worker, i: nat, n: nat)
    requires WellFormed(s) && i < |s.rings| && (!s.rings[i].valid || s.rings[i].entryW == s.rings[i].entryR)
    ensures Apply(s, Visit(i, n)) == s
  {
  }

  /**
   A visit to a waiting flow outside the mode drains it, whatever the link would take: to its write pointer, or to the
   start of the ring when the frames wrap.  Nothing else changes.
   */
  lemma BlockingVisit(s: Worker, i: nat, n: nat)
    requires WellFormed(s) && i < |s.rings| && i !in s.mode
    requires s.rings[i].valid && s.rings[i].entryW != s.rings[i].entryR
    ensures var t, q := Apply(s, Visit(i, n)), s.rings[i];
            && t == s.(rings := t.rings) && |t.rings| == |s.rings|
            && (forall j :: 0 <= j < |s.rings| && j != i ==> t.rings[j] == s.rings[j])
            && t.rings[i] == q.(entryR := t.rings[i].entryR)
            && (q.entryW > q.entryR ==> t.rings[i].entryR == q.entryW)
            && (q.entryW < q.entryR ==> t.rings[i].entryR == 0)
  {
  }

  /**
   A visit to a waiting flow of the mode: it moves bytes exactly when the link takes some and the flow has neither
   written in this row round nor more rows than the last writer or, while some flows are a frame ahead, is not one of
   them.  A mask that would cover the mode is cleared.
   */
  lemma NonBlockingVisit(s: Worker, i: nat, n: nat)
    requires WellFormed(s) && i in s.mode && i < |s.rings|
    requires s.rings[i].valid && s.rings[i].entryW != s.rings[i].entryR
    ensures var t, q := Apply(s, Visit(i, n)), s.rings[i];
            var may := if s.frmMask == {} then i !in s.rowMask && q.rows <= s.threshold else i !in s.frmMask;
            if !may || n == 0 then t == s
            else if n < q.size - q.sent then
              && t == s.(rings := s.rings[i := q.(sent := q.sent + n, rows := q.rows + 1)],
                         rowMask := t.rowMask, frmMask := t.frmMask, threshold := q.rows + 1)
              && MaskAfter(s.rowMask, s.mode, i, t.rowMask) && (s.frmMask != s.mode ==> t.frmMask == s.frmMask)
            else
              && t == s.(rings := s.rings[i := q.(sent := 0, rows := 0, entryR := (q.entryR + 1) % q.frames)],
                         rowMask := t.rowMask, frmMask := t.frmMask, done := s.done[i := s.done[i] + 1])
              && MaskAfter(s.rowMask, s.mode, i, t.rowMask) && MaskAfter(s.frmMask, s.mode, i, t.frmMask)
  {
    assert RingOk(s.rings[i]);
    NextIsMod(s.rings[i].entryR, s.rings[i].frames);
  }

  lemma NextIsMod(r: nat, n: nat)
    requires r < n
    ensures Next(r, n) == (r + 1) % n
  {
    Step(r, n);
    Arithmetic.SmallMod(r, n);
  }

  /** Flow i joins the mask, unless every flow of the mode is then in it and the mask starts afresh. */
  ghost predicate MaskAfter(mask: set<nat>, mode: set<nat>, i: nat, next: set<nat>) {
    if forall j :: j in mode ==> j in mask || j == i then next == {}
    else forall j :: j in next <==> j in mask || j == i
  }

  /** A push moves the write pointer of a valid flow by one frame exactly when there is room, and does nothing else. */
  lemma PushEffect(s: Worker, i: nat)
    requires WellFormed(s) && i < |s.rings|
    ensures var q := s.rings[i];
            var w := (q.entryW + 1) % q.frames;
            Apply(s, Push(i)) == if !q.valid || w == q.entryR then s else s.(rings := s.rings[i := q.(entryW := w)])
  {
    assert RingOk(s.rings[i]);
    NextIsMod(s.rings[i].entryW, s.rings[i].frames);
  }

  // ----- flows outside the mode -----

  predicate IsVisit(e: Event, i: nat) { e.Visit? && e.i == i }

  predicate NoPush(events: seq<Event>, i: nat) { Push(i) !in events }

  lemma BlockingStep(s: Worker, e: Event, i: nat)
    requires WellFormed(s) && i < |s.rings| && i !in s.mode && s.rings[i].valid && e != Push(i)
    ensures var t, q := Apply(s, e), s.rings[i];
            && |t.rings| == |s.rings| && t.mode == s.mode
            && t.rings[i] == q.(entryR := if !IsVisit(e, i) || q.entryW == q.entryR then q.entryR
                                          else if q.entryW > q.entryR then q.entryW else 0)
  {
    OnlyItsRing(s, e);
  }

  /** Without pushes the frames waiting in a blocking flow go out within two visits. */
  lemma {:induction false} TwoVisitsDrain(s: Worker, events: seq<Event>, t: Worker, i: nat, a: nat, b: nat)
    requires WellFormed(s) && Reaches(s, events, t) && i < |s.rings| && i !in s.mode && s.rings[i].valid
    requires NoPush(events, i) && a < b < |events| && IsVisit(events[a], i) && IsVisit(events[b], i)
    ensures i < |t.rings| && t.rings[i] == s.rings[i].(entryR := s.rings[i].entryW)
  {
    hide Apply, WellFormed;
    var before, e := events[..|events| - 1], events[|events| - 1];
    var m :| WellFormed(m) && Reaches(s, before, m) && t == Apply(m, e);
    if b < |before| {
      TwoVisitsDrain(s, before, m, i, a, b);
      FlowsKept(s, before, m, i);
    } else {
      OneVisitDrains(s, before, m, i, a);
    }
    BlockingStep(m, e, i);
  }

  lemma {:induction false} OneVisitDrains(s: Worker, events: seq<Event>, t: Worker, i: nat, a: nat)
    requires WellFormed(s) && Reaches(s, events, t) && i < |s.rings| && i !in s.mode && s.rings[i].valid
    requires NoPush(events, i) && a < |events| && IsVisit(events[a], i)
    ensures |t.rings| == |s.rings| && t.mode == s.mode && t.rings[i] == s.rings[i].(entryR := t.rings[i].entryR)
    ensures t.rings[i].entryR == t.rings[i].entryW || t.rings[i].entryR == 0
  {
    hide Apply, WellFormed;
    var before, e := events[..|events| - 1], events[|events| - 1];
    var m :| WellFormed(m) && Reaches(s, before, m) && t == Apply(m, e);
    if a < |before| {
      OneVisitDrains(s, before, m, i, a);
    } else {
      FlowsKept(s, before, m, i);
    }
    BlockingStep(m, e, i);
  }

  lemma {:induction false} FlowsKept(s: Worker, events: seq<Event>, t: Worker, i: nat)
    requires WellFormed(s) && Reaches(s, events, t) && i < |s.rings| && i !in s.mode && s.rings[i].valid
    requires NoPush(events, i)
    ensures |t.rings| == |s.rings| && t.mode == s.mode && t.rings[i] == s.rings[i].(entryR := t.rings[i].entryR)
  {
    hide Apply, WellFormed;
    if events != [] {
      var before, e := events[..|events| - 1], events[|events| - 1];
      var m :| WellFormed(m) && Reaches(s, before, m) && t == Apply(m, e);
      FlowsKept(s, before, m, i);
      BlockingStep(m, e, i);
    }
  }

  // ----- the worker -----

  /** The visits of one pass over all flows; flow i finds the link willing to take takes[i] bytes. */
  function PassEvents(takes: seq<nat>): (r: seq<Event>)
    ensures |r| == |takes|
  {
    seq(|takes|, i requires 0 <= i < |takes| => Visit(i, takes[i]))
  }

  class IfmapWorker {
    const mode: set<nat>
    const rings: array<Ring>
    var rowMask: set<nat>
    var frmMask: set<nat>
    var threshold: nat
    var allEmpty: bool
    ghost var done: seq<nat>

    ghost function State(): Worker
      reads this, rings
    {
      Worker(mode, rowMask, frmMask, threshold, rings[..], done)
    }

    constructor (mode: set<nat>, rings: array<Ring>)
      requires forall i :: i in mode ==> i < rings.Length
      requires forall i :: 0 <= i < rings.Length ==> RingOk(rings[i]) && rings[i].sent == 0 && rings[i].rows == 0
      ensures this.rings == rings && Start(State()) && State().mode == mode && State().rings == old(rings[..])
    {
      this.mode, this.rings := mode, rings;
      rowMask, frmMask, threshold, allEmpty := {}, {}, 0, true;
      done := seq(rings.Length, _ => 0);
    }

    /** The non-blocking write of flow i: how much the link took, and whether that ended a frame. */
    method WriteSome(i: nat, take: nat) returns (length: nat, oneFrame: bool)
      requires i < rings.Length && RingOk(rings[i])
      modifies rings
      ensures var q := old(rings[i]);
              && length == (if take < q.size - q.sent then take else q.size - q.sent)
              && (oneFrame <==> q.sent + length == q.size)
              && rings[..] == old(rings[..])[i := if length > 0 then AfterWrite(q, length) else q]
    {
      var q := rings[i];
      length := if take < q.size - q.sent then take else q.size - q.sent;
      oneFrame := false;
      if length > 0 {
        q := q.(sent := q.sent + length, rows := q.rows + 1);
        if q.sent == q.size {
          q := q.(sent := 0, rows := 0, entryR := Next(q.entryR, q.frames));
          oneFrame := true;
        }
        rings[i] := q;
      }
    }

    /** The masks and the threshold after flow i has written. */
    method BookWrite(i: nat, oneFrame: bool)
      requires i < rings.Length == |done|
      modifies this`rowMask, this`frmMask, this`threshold, this`done
      ensures rowMask == Cleared(old(rowMask) + {i}, mode)
      ensures frmMask == Cleared(if oneFrame then old(frmMask) + {i} else old(frmMask), mode)
      ensures threshold == if rings[i].rows != 0 then rings[i].rows else old(threshold)
      ensures done == if oneFrame then old(done)[i := old(done)[i] + 1] else old(done)
    {
      rowMask := rowMask + {i};
      if oneFrame {
        frmMask := frmMask + {i};
        done := done[i := done[i] + 1];
      }
      if rings[i].rows != 0 {
        threshold := rings[i].rows;
      }
      if rowMask == mode {
        rowMask := {};
      }
      if frmMask == mode {
        frmMask := {};
      }
    }

    /** What the pass does for one flow. */
    method VisitFlow(i: nat, take: nat)
      requires i < rings.Length && WellFormed(State())
      modifies this`rowMask, this`frmMask, this`threshold, this`allEmpty, this`done, rings
      ensures State() == Apply(old(State()), Visit(i, take))
      ensures allEmpty == (old(allEmpty) && !(rings[i].valid && rings[i].entryW != rings[i].entryR))
    {
      var q := rings[i];
      assert RingOk(State().rings[i]);
      if q.valid && q.entryW != q.entryR {
        if i !in mode {
          rings[i] := q.(entryR := if q.entryW > q.entryR then q.entryW else 0);
        } else {
          var rowCheck := frmMask == {} && i !in rowMask && q.rows <= threshold;
          var frameCheck := frmMask != {} && i !in frmMask;
          if rowCheck || frameCheck {
            var length, oneFrame := WriteSome(i, take);
            if length != 0 {
              BookWrite(i, oneFrame);
            }
          }
        }
        if rings[i].entryW != rings[i].entryR {
          allEmpty := false;
        }
      }
    }

    /** One round-robin pass; the worker may sleep afterwards only if no ring holds a frame. */
    method Pass(takes: seq<nat>)
      requires |takes| == rings.Length && Balanced(State())
      modifies this`rowMask, this`frmMask, this`threshold, this`allEmpty, this`done, rings
      ensures Balanced(State()) && Reaches(old(State()), PassEvents(takes), State())
      ensures allEmpty <==> forall i :: 0 <= i < rings.Length ==> !rings[i].valid || rings[i].entryW == rings[i].entryR
    {
      hide Balanced, HasData, Apply, RingOk, PassEvents;
      ghost var was := State();
      BalancedIsWellFormed(was);
      allEmpty := true;
      for i := 0 to rings.Length
        invariant Balanced(State()) && Reaches(was, PassEvents(takes)[..i], State())
        invariant allEmpty <==> forall j :: 0 <= j < i ==> !rings[j].valid || rings[j].entryW == rings[j].entryR
      {
        ghost var before := State();
        BalancedIsWellFormed(before);
        PassEvent(takes, i);
        VisitFlow(i, takes[i]);
        ApplyKeepsBalance(before, Visit(i, takes[i]));
        OneMoreEvent(was, PassEvents(takes), i, before);
        OnlyItsRing(before, Visit(i, takes[i]));
      }
      assert PassEvents(takes)[..|takes|] == PassEvents(takes);
    }
  }

  /** Two passes without a push in between send all that waits in the blocking flows. */
  lemma TwoPassesDrain(s: Worker, first: seq<nat>, second: seq<nat>, t: Worker, i: nat)
    requires WellFormed(s) && |first| == |second| == |s.rings| && i < |s.rings| && i !in s.mode && s.rings[i].valid
    requires Reaches(s, PassEvents(first) + PassEvents(second), t)
    ensures i < |t.rings| && t.rings[i] == s.rings[i].(entryR := s.rings[i].entryW)
  {
    hide PassEvents, Reaches;
    var events := PassEvents(first) + PassEvents(second);
    PassEvent(first, i);
    PassEvent(second, i);
    forall k | 0 <= k < |events|
      ensures events[k] != Push(i)
    {
      if k < |first| {
        PassEvent(first, k);
      } else {
        PassEvent(second, k - |first|);
      }
    }
    TwoVisitsDrain(s, events, t, i, i, |first| + i);
  }

  lemma PassEvent(takes: seq<nat>, i: nat)
    requires i < |takes|
    ensures PassEvents(takes)[i] == Visit(i, takes[i])
  {
  }

  lemma OneMoreEvent(s: Worker, events: seq<Event>, i: nat, m: Worker)
    requires WellFormed(s) && i < |events| && WellFormed(m) && Reaches(s, events[..i], m)
    ensures Reaches(s, events[..i + 1], Apply(m, events[i]))
  {
    assert events[..i + 1][..i] == events[..i];
  }

  lemma OnlyItsRing(s: Worker, e: Event)
    requires WellFormed(s)
    ensures |Apply(s, e).rings| == |s.rings|
    ensures forall j :: 0 <= j < |s.rings| && j != e.i ==> Apply(s, e).rings[j] == s.rings[j]
  {
  }
}
