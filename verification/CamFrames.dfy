/** What becomes of the frames: an observer who sees the steps of the camera task and of the consumer
    knows at any time which frames are in the queue, in which order, and how long they are. */
module CamFrames {
  import opened CamPool

  datatype Frame = Frame(slot: nat, length: nat)

  /** The observer's record: what each DMA buffer has added to the frame being read, the complete
      frames in the order they were claimed, and those of them that have left the queue, which were
      taken by the consumer unless a newer frame needed their place. */
  datatype Record = Record(pieces: seq<nat>, finished: seq<Frame>, left: seq<Frame>, taken: seq<Frame>)

  function Sum(xs: seq<nat>): nat {
    if xs == [] then 0 else Sum(xs[..|xs| - 1]) + xs[|xs| - 1]
  }

  lemma SumMore(xs: seq<nat>, x: nat)
    ensures Sum(xs + [x]) == Sum(xs) + x
  {
    assert (xs + [x])[..|xs|] == xs;
  }

  /** One more buffer has its place. */
  predicate Room(c: Config, pieces: seq<nat>)
    requires ValidConfig(c)
  {
    if c.psramMode then |pieces| + 1 < FrameCopyCnt(c) else Sum(pieces) + c.pixelsPerDma <= c.fbSize
  }

  /** With PSRAM or JPEG every frame is kept, otherwise a whole one. */
  predicate Complete(c: Config, pieces: seq<nat>) {
    c.psramMode || c.jpegMode || Sum(pieces) == c.fbSize
  }

  /** The length of a frame of these pieces: whole DMA buffers with PSRAM and JPEG, the bytes to
      receive with PSRAM otherwise, the bytes copied with JPEG, and else the size of the frame. */
  function LengthOf(c: Config, pieces: seq<nat>): nat {
    if c.psramMode then (if c.jpegMode then |pieces| * c.dmaHalfBufferSize else c.recvSize)
    else if c.jpegMode then Sum(pieces)
    else c.fbSize
  }

  function FrameIn(s: State, x: nat): Frame
    requires x < |s.len|
  {
    Frame(x, s.len[x])
  }

  /** What the observer notes at a step. */
  function Observe(c: Config, r: Record, s: State, a: Action): Record
    requires ValidConfig(c) && InRange(c, s)
  {
    match a
    case Task(_, amount) => ObserveTask(c, r, s, Copied(c, amount))
    case Take =>
      if s.taking == [] && s.queue != []
      then r.(left := r.left + [FrameIn(s, s.queue[0])], taken := r.taken + [FrameIn(s, s.queue[0])])
      else r
    case _ => r
  }

  /** A buffer counts if it has room, the last one of a PSRAM frame in any case. A frame is withdrawn
      only if it has found the queue full and, a moment later, empty. */
  function ObserveTask(c: Config, r: Record, s: State, amount: nat): Record
    requires ValidConfig(c) && InRange(c, s)
  {
    match s.pc
    case Started(_) => r.(pieces := [])
    case Copy => if Room(c, r.pieces) then r.(pieces := r.pieces + [amount]) else r
    case FinalCopy => if c.psramMode || Room(c, r.pieces) then r.(pieces := r.pieces + [amount]) else r
    case Measure =>
      if Complete(c, r.pieces) then r.(finished := r.finished + [Frame(s.framePos, LengthOf(c, r.pieces))]) else r
    case Pop =>
      if s.queue != [] then r.(left := r.left + [FrameIn(s, s.queue[0])])
      else if r.finished != [] then r.(finished := r.finished[..|r.finished| - 1])
      else r
    case _ => r
  }

  function Watch(c: Config, r: Record, s: State, actions: seq<Action>): Record
    requires ValidConfig(c) && InRange(c, s)
    decreases actions
  {
    if actions == [] then r
    else
      StepInRange(c, s, actions[0]);
      Watch(c, Observe(c, r, s, actions[0]), Step(c, s, actions[0]), actions[1..])
  }

  // ---- what the record says about the state ----

  function Frames(q: seq<nat>, len: seq<nat>): seq<Frame>
    requires forall i :: 0 <= i < |q| ==> q[i] < |len|
  {
    seq(|q|, i requires 0 <= i < |q| => Frame(q[i], len[q[i]]))
  }

  /** The frame the task has claimed and not yet queued. */
  function InFlight(s: State): seq<Frame>
    requires |s.en| == |s.len| && s.framePos < |s.len|
  {
    match s.pc
    case Send => if s.en[s.framePos] then [] else [FrameIn(s, s.framePos)]
    case Pop => [FrameIn(s, s.framePos)]
    case Resend(_) => [FrameIn(s, s.framePos)]
    case _ => []
  }

  /** A frame is being read, or just ends. */
  predicate Reading(s: State) {
    || s.pc.SetReading? || s.pc.Copy? || s.pc.Stop? || s.pc.FinalCopy? || s.pc.Claim? || s.pc.Measure?
    || (s.reading && (s.pc.Receive? || s.pc.Dispatch?))
  }

  /** The counters of the task agree with the pieces seen. */
  predicate Counted(c: Config, r: Record, s: State)
    requires InRange(c, s)
  {
    Reading(s) ==>
      && (if s.pc.SetReading? then r.pieces == [] else s.cnt == |r.pieces|)
      && (!c.psramMode ==> s.len[s.framePos] == Sum(r.pieces))
  }

  /** The complete frames are those that have left, then the queue, then the one on its way. */
  predicate InOrder(c: Config, r: Record, s: State)
    requires ValidConfig(c) && InRange(c, s)
  {
    && r.finished == r.left + Frames(s.queue, s.len) + InFlight(s)
    && (s.pc.Resend? ==> |s.queue| < QueueLength(c))
    && (s.taking != [] ==> r.taken != [] && r.taken[|r.taken| - 1] == FrameIn(s, s.taking[0]))
  }

  predicate Agrees(c: Config, r: Record, s: State)
    requires ValidConfig(c) && InRange(c, s)
  {
    Counted(c, r, s) && InOrder(c, r, s)
  }

  // ---- slots that do not change ----

  lemma Counts(s: State, x: nat)
    requires s.framePos < |s.en|
    ensures Owners(s)[x] >= multiset(s.queue)[x] + multiset(s.taking)[x] + multiset(TaskOwned(s))[x]
    ensures x in s.queue ==> multiset(s.queue)[x] >= 1
    ensures x in s.taking ==> multiset(s.taking)[x] >= 1
    ensures x in TaskOwned(s) ==> multiset(TaskOwned(s))[x] >= 1
  {
    hide TaskOwned;
  }

  /** What is in the queue or with the consumer is not the slot the task writes to. */
  lemma NotTheTasksSlot(c: Config, s: State, x: nat)
    requires ValidConfig(c) && Inv(c, s) && x < c.frameCnt
    requires s.en[s.framePos] || s.framePos in TaskOwned(s)
    requires x in s.queue || x in s.taking
    ensures x != s.framePos
  {
    hide Owners, TaskOwned;
    Counts(s, s.framePos);
    assert Owners(s)[s.framePos] == if s.en[s.framePos] then 0 else 1;
  }

  lemma TakingNotQueued(c: Config, s: State, x: nat)
    requires ValidConfig(c) && Inv(c, s) && s.taking != [] && x in s.queue
    ensures x != s.taking[0]
  {
    hide Owners, TaskOwned;
    Counts(s, s.taking[0]);
    assert Owners(s)[s.taking[0]] == if s.en[s.taking[0]] then 0 else 1;
  }

  /** Writing the length of the task's slot changes nothing in the queue. */
  lemma QueueKeepsLength(c: Config, s: State, len: nat)
    requires ValidConfig(c) && Inv(c, s) && (s.en[s.framePos] || s.framePos in TaskOwned(s))
    ensures Frames(s.queue, s.len[s.framePos := len]) == Frames(s.queue, s.len)
    ensures s.taking != [] ==> s.taking[0] != s.framePos
  {
    hide OneOwner, Control, TaskOwned;
    forall i | 0 <= i < |s.queue|
      ensures s.queue[i] != s.framePos
    {
      NotTheTasksSlot(c, s, s.queue[i]);
    }
    if s.taking != [] {
      NotTheTasksSlot(c, s, s.taking[0]);
    }
  }

  // ---- steps ----

  /** The queue, the lengths in it, and what is on its way stay the same, and so does the record of frames. */
  lemma OrderKept(c: Config, r: Record, s: State, r': Record, s': State)
    requires ValidConfig(c) && InRange(c, s) && InRange(c, s') && InOrder(c, r, s)
    requires r'.finished == r.finished && r'.left == r.left && r'.taken == r.taken
    requires s'.queue == s.queue && Frames(s'.queue, s'.len) == Frames(s.queue, s.len)
    requires InFlight(s') == InFlight(s) && (s'.pc.Resend? ==> s.pc.Resend?)
    requires s'.taking == [] || (s'.taking == s.taking && s'.len[s.taking[0]] == s.len[s.taking[0]])
    ensures InOrder(c, r', s')
  {
    hide InFlight, QueueLength;
  }

  lemma SearchAgrees(c: Config, r: Record, s: State, ok: bool, amount: nat)
    requires ValidConfig(c) && Inv(c, s) && Searching(s.pc) && Agrees(c, r, s)
    ensures InRange(c, SearchStep(c, s, ok)) && Agrees(c, ObserveTask(c, r, s, amount), SearchStep(c, s, ok))
  {
    SearchInRange(c, s, ok);
    var t, r' := SearchStep(c, s, ok), ObserveTask(c, r, s, amount);
    SearchOrder(c, r, s, ok, amount);
    SearchCounts(c, r, s, ok, amount);
  }

  lemma SearchOrder(c: Config, r: Record, s: State, ok: bool, amount: nat)
    requires ValidConfig(c) && Inv(c, s) && Searching(s.pc) && InOrder(c, r, s) && InRange(c, SearchStep(c, s, ok))
    ensures InOrder(c, ObserveTask(c, r, s, amount), SearchStep(c, s, ok))
  {
    hide OneOwner, QueueLength, InOrder, Room, Frames;
    var t, r' := SearchStep(c, s, ok), ObserveTask(c, r, s, amount);
    SearchLeaves(c, s, ok);
    if s.pc.Started? {
      QueueKeepsLength(c, s, 0);
    }
    OrderKept(c, r, s, r', t);
  }

  lemma SearchCounts(c: Config, r: Record, s: State, ok: bool, amount: nat)
    requires ValidConfig(c) && Inv(c, s) && Searching(s.pc) && Counted(c, r, s) && InRange(c, SearchStep(c, s, ok))
    ensures Counted(c, ObserveTask(c, r, s, amount), SearchStep(c, s, ok))
  {
    hide OneOwner, QueueLength, Room;
  }

  lemma CopyAgrees(c: Config, r: Record, s: State, ok: bool, amount: nat)
    requires ValidConfig(c) && Inv(c, s) && s.pc.Copy? && Agrees(c, r, s)
    ensures InRange(c, CopyStep(c, s, ok, amount))
    ensures Agrees(c, ObserveTask(c, r, s, Copied(c, amount)), CopyStep(c, s, ok, amount))
  {
    CopyInRange(c, s, ok, amount);
    CopyCount(c, r, s, ok, amount);
    CopyOrder(c, r, s, ok, amount);
  }

  lemma CopyCount(c: Config, r: Record, s: State, ok: bool, amount: nat)
    requires ValidConfig(c) && InRange(c, s) && s.pc.Copy? && Counted(c, r, s) && InRange(c, CopyStep(c, s, ok, amount))
    ensures Counted(c, ObserveTask(c, r, s, Copied(c, amount)), CopyStep(c, s, ok, amount))
  {
    hide FrameCopyCnt;
    SumMore(r.pieces, Copied(c, amount));
  }

  lemma CopyOrder(c: Config, r: Record, s: State, ok: bool, amount: nat)
    requires ValidConfig(c) && Inv(c, s) && s.pc.Copy? && InOrder(c, r, s) && InRange(c, CopyStep(c, s, ok, amount))
    ensures InOrder(c, ObserveTask(c, r, s, Copied(c, amount)), CopyStep(c, s, ok, amount))
  {
    hide OneOwner, QueueLength, FrameCopyCnt, InOrder, Frames, Room, Copied;
    QueueKeepsLength(c, s, s.len[s.framePos] + Copied(c, amount));
    OrderKept(c, r, s, ObserveTask(c, r, s, Copied(c, amount)), CopyStep(c, s, ok, amount));
  }

  lemma StopAgrees(c: Config, r: Record, s: State, amount: nat)
    requires ValidConfig(c) && Inv(c, s) && (s.pc.Stop? || s.pc.FinalCopy?) && Agrees(c, r, s)
    ensures InRange(c, StopStep(c, s, amount))
    ensures Agrees(c, ObserveTask(c, r, s, Copied(c, amount)), StopStep(c, s, amount))
  {
    StopInRange(c, s, amount);
    if s.pc.Stop? {
      StoppedOrder(c, r, s, amount);
    } else {
      FinalOrder(c, r, s, amount);
    }
  }

  lemma StoppedOrder(c: Config, r: Record, s: State, amount: nat)
    requires ValidConfig(c) && Inv(c, s) && s.pc.Stop? && Agrees(c, r, s) && InRange(c, StopStep(c, s, amount))
    ensures Agrees(c, ObserveTask(c, r, s, Copied(c, amount)), StopStep(c, s, amount))
  {
    hide OneOwner, QueueLength, FrameCopyCnt, InOrder, Frames, Room;
    OrderKept(c, r, s, ObserveTask(c, r, s, Copied(c, amount)), StopStep(c, s, amount));
  }

  lemma FinalOrder(c: Config, r: Record, s: State, amount: nat)
    requires ValidConfig(c) && Inv(c, s) && s.pc.FinalCopy? && Agrees(c, r, s) && InRange(c, StopStep(c, s, amount))
    ensures Agrees(c, ObserveTask(c, r, s, Copied(c, amount)), StopStep(c, s, amount))
  {
    hide OneOwner, QueueLength, FrameCopyCnt, InOrder, Frames, Counted, Room, Copied;
    FinalCount(c, r, s, amount);
    QueueKeepsLength(c, s, s.len[s.framePos] + Copied(c, amount));
    OrderKept(c, r, s, ObserveTask(c, r, s, Copied(c, amount)), StopStep(c, s, amount));
  }

  lemma FinalCount(c: Config, r: Record, s: State, amount: nat)
    requires ValidConfig(c) && InRange(c, s) && s.pc.FinalCopy? && Counted(c, r, s) && InRange(c, StopStep(c, s, amount))
    ensures Counted(c, ObserveTask(c, r, s, Copied(c, amount)), StopStep(c, s, amount))
  {
    hide FrameCopyCnt;
    SumMore(r.pieces, Copied(c, amount));
  }

  /** A complete frame is on its way to the queue, with its length; any other is given up. */
  lemma ClaimAgrees(c: Config, r: Record, s: State, amount: nat)
    requires ValidConfig(c) && Inv(c, s) && (s.pc.Claim? || s.pc.Measure?) && Agrees(c, r, s)
    ensures InRange(c, ClaimStep(c, s)) && Agrees(c, ObserveTask(c, r, s, amount), ClaimStep(c, s))
  {
    ClaimInRange(c, s);
    if s.pc.Claim? {
      ClaimOrder(c, r, s, amount);
    } else {
      MeasureOrder(c, r, s, amount);
    }
  }

  lemma ClaimOrder(c: Config, r: Record, s: State, amount: nat)
    requires ValidConfig(c) && Inv(c, s) && s.pc.Claim? && Agrees(c, r, s) && InRange(c, ClaimStep(c, s))
    ensures Agrees(c, ObserveTask(c, r, s, amount), ClaimStep(c, s))
  {
    hide OneOwner, QueueLength, InOrder, Frames, Room;
    OrderKept(c, r, s, ObserveTask(c, r, s, amount), ClaimStep(c, s));
  }

  /** The length settled on. */
  lemma Measured(c: Config, r: Record, s: State)
    requires ValidConfig(c) && Inv(c, s) && s.pc.Measure? && Counted(c, r, s)
    ensures var t := ClaimStep(c, s);
            && t.pc == Send && t.framePos == s.framePos && |t.len| == |t.en| == c.frameCnt
            && t.queue == s.queue && t.taking == s.taking
            && (t.en[t.framePos] <==> !Complete(c, r.pieces))
            && (Complete(c, r.pieces) ==> t.len[t.framePos] == LengthOf(c, r.pieces))
            && t.len == s.len[s.framePos := t.len[t.framePos]]
  {
    hide QueueLength;
    Claimed(c, s);
  }

  lemma MeasureOrder(c: Config, r: Record, s: State, amount: nat)
    requires ValidConfig(c) && Inv(c, s) && s.pc.Measure? && Agrees(c, r, s) && InRange(c, ClaimStep(c, s))
    ensures Agrees(c, ObserveTask(c, r, s, amount), ClaimStep(c, s))
  {
    hide OneOwner, Control, QueueLength, Frames, Complete, LengthOf, ClaimStep, Room;
    Measured(c, r, s);
    QueueKeepsLength(c, s, ClaimStep(c, s).len[s.framePos]);
  }

  lemma FramesMore(q: seq<nat>, x: nat, len: seq<nat>)
    requires x < |len| && forall i :: 0 <= i < |q| ==> q[i] < |len|
    ensures forall i :: 0 <= i < |q + [x]| ==> (q + [x])[i] < |len|
    ensures Frames(q + [x], len) == Frames(q, len) + [Frame(x, len[x])]
  {
  }

  lemma FramesLess(q: seq<nat>, len: seq<nat>)
    requires q != [] && forall i :: 0 <= i < |q| ==> q[i] < |len|
    ensures forall i :: 0 <= i < |q[1..]| ==> q[1..][i] < |len|
    ensures Frames(q, len) == [Frame(q[0], len[q[0]])] + Frames(q[1..], len)
  {
  }

  /** Into the queue at its end, or out of it at its front. */
  lemma SendAgrees(c: Config, r: Record, s: State, amount: nat)
    requires ValidConfig(c) && Inv(c, s) && Agrees(c, r, s)
    requires s.pc.Send? || s.pc.Pop? || s.pc.Resend? || s.pc.Release?
    ensures InRange(c, SendStep(c, s)) && Agrees(c, ObserveTask(c, r, s, amount), SendStep(c, s))
  {
    SendInRange(c, s);
    if s.pc.Pop? {
      PopOrder(c, r, s, amount);
    } else {
      SendOrder(c, r, s, amount);
    }
  }

  lemma SendOrder(c: Config, r: Record, s: State, amount: nat)
    requires ValidConfig(c) && Inv(c, s) && Agrees(c, r, s) && (s.pc.Send? || s.pc.Resend? || s.pc.Release?)
    requires InRange(c, SendStep(c, s))
    ensures Agrees(c, ObserveTask(c, r, s, amount), SendStep(c, s))
  {
    hide OneOwner, QueueLength, Frames, Room;
    FramesMore(s.queue, s.framePos, s.len);
    Appended(r.left, Frames(s.queue, s.len), FrameIn(s, s.framePos));
  }

  lemma Appended(a: seq<Frame>, b: seq<Frame>, x: Frame)
    ensures a + b + [x] == a + (b + [x]) + [] && a + b + [] == a + b
  {
  }

  lemma PopOrder(c: Config, r: Record, s: State, amount: nat)
    requires ValidConfig(c) && Inv(c, s) && Agrees(c, r, s) && s.pc.Pop? && InRange(c, SendStep(c, s))
    ensures Agrees(c, ObserveTask(c, r, s, amount), SendStep(c, s))
  {
    hide OneOwner, Frames, Room;
    QueueIsReal(c);
    if s.queue == [] {
      NoFrames(s.len);
      Withdrawn(r.left, FrameIn(s, s.framePos));
    } else {
      FramesLess(s.queue, s.len);
      MovesOn(r.left, FrameIn(s, s.queue[0]), Frames(s.queue[1..], s.len), [FrameIn(s, s.framePos)]);
    }
  }

  lemma NoFrames(len: seq<nat>)
    ensures Frames([], len) == []
  {
  }

  lemma QueueIsReal(c: Config)
    requires ValidConfig(c)
    ensures QueueLength(c) > 0
  {
  }

  lemma Withdrawn(a: seq<Frame>, x: Frame)
    ensures (a + [] + [x])[..|a + [] + [x]| - 1] == a + [] + []
  {
  }

  lemma MovesOn(a: seq<Frame>, x: Frame, b: seq<Frame>, d: seq<Frame>)
    ensures a + ([x] + b) + d == (a + [x]) + b + d
  {
  }

  /** The task alone. */
  lemma TaskAgrees(c: Config, r: Record, s: State, ok: bool, amount: nat)
    requires ValidConfig(c) && Inv(c, s) && Agrees(c, r, s)
    ensures InRange(c, TaskStep(c, s, ok, amount))
    ensures Agrees(c, ObserveTask(c, r, s, Copied(c, amount)), TaskStep(c, s, ok, amount))
  {
    hide OneOwner, Control, CopyStep, StopStep, ClaimStep, SendStep, SearchStep, InRange, Agrees, ObserveTask;
    TaskInRange(c, s, ok, amount);
    match s.pc
    case Copy => CopyAgrees(c, r, s, ok, amount);
    case Stop => StopAgrees(c, r, s, amount);
    case FinalCopy => StopAgrees(c, r, s, amount);
    case Claim => ClaimAgrees(c, r, s, Copied(c, amount));
    case Measure => ClaimAgrees(c, r, s, Copied(c, amount));
    case Send => SendAgrees(c, r, s, Copied(c, amount));
    case Pop => SendAgrees(c, r, s, Copied(c, amount));
    case Resend(_) => SendAgrees(c, r, s, Copied(c, amount));
    case Release(_) => SendAgrees(c, r, s, Copied(c, amount));
    case _ => SearchAgrees(c, r, s, ok, Copied(c, amount));
  }

  // ---- the consumer and the interrupt ----

  lemma TakeAgrees(c: Config, r: Record, s: State)
    requires ValidConfig(c) && Inv(c, s) && Agrees(c, r, s) && s.taking == [] && s.queue != []
    ensures InRange(c, Step(c, s, Take)) && Agrees(c, Observe(c, r, s, Take), Step(c, s, Take))
  {
    hide OneOwner, Frames, QueueLength, TaskStep;
    FramesLess(s.queue, s.len);
    MovesOn(r.left, FrameIn(s, s.queue[0]), Frames(s.queue[1..], s.len), InFlight(s));
  }

  /** The length of a taken frame may change; it is not in the queue and not the task's. */
  lemma KeepAgrees(c: Config, r: Record, s: State, newLen: nat)
    requires ValidConfig(c) && Inv(c, s) && Agrees(c, r, s) && s.taking != []
    ensures InRange(c, Step(c, s, Keep(newLen))) && Agrees(c, r, Step(c, s, Keep(newLen)))
  {
    hide OneOwner, QueueLength, TaskStep;
    var x, t := s.taking[0], Step(c, s, Keep(newLen));
    forall i | 0 <= i < |s.queue|
      ensures s.queue[i] != x
    {
      TakingNotQueued(c, s, s.queue[i]);
    }
    assert Frames(t.queue, t.len) == Frames(s.queue, s.len);
    if Reading(s) || InFlight(s) != [] {
      NotTheTasksSlot(c, s, x);
    }
  }

  lemma OtherAgrees(c: Config, r: Record, s: State, a: Action)
    requires ValidConfig(c) && Inv(c, s) && Agrees(c, r, s)
    requires a.Deliver? || a.Overflow? || a.Reject? || a.Give? || (a.Take? && !(s.taking == [] && s.queue != []))
             || (a.Keep? && s.taking == [])
    ensures InRange(c, Step(c, s, a)) && Agrees(c, Observe(c, r, s, a), Step(c, s, a))
  {
    hide OneOwner, QueueLength, TaskStep, Frames;
    StepInRange(c, s, a);
    if a.Give? || a.Reject? {
      FreedElsewhere(c, s, a);
    }
  }

  /** What the consumer gives back is not the slot the task has claimed. */
  lemma FreedElsewhere(c: Config, s: State, a: Action)
    requires ValidConfig(c) && Inv(c, s) && (a.Give? || a.Reject?)
    ensures InRange(c, Step(c, s, a))
    ensures s.pc.Send? && !s.en[s.framePos] ==> !Step(c, s, a).en[s.framePos]
  {
    hide OneOwner, Control, TaskStep;
    StepInRange(c, s, a);
    if s.pc.Send? && !s.en[s.framePos] {
      if a.Give? && a.i < |s.held| {
        assert s.held[a.i] in multiset(s.held);
        NotTheTasks(c, s, s.held[a.i]);
      } else if a.Reject? && s.taking != [] {
        assert s.taking[0] in multiset(s.taking);
        NotTheTasks(c, s, s.taking[0]);
      }
    }
  }

  /** The record agrees with the state after every step of every party. */
  lemma AgreesStep(c: Config, r: Record, s: State, a: Action)
    requires ValidConfig(c) && Inv(c, s) && Agrees(c, r, s)
    ensures InRange(c, Step(c, s, a)) && Agrees(c, Observe(c, r, s, a), Step(c, s, a))
  {
    hide OneOwner, Control, TaskStep, Agrees, ObserveTask;
    StepInRange(c, s, a);
    match a
    case Task(ok, amount) => TaskAgrees(c, r, s, ok, amount);
    case Take =>
      if s.taking == [] && s.queue != [] {
        TakeAgrees(c, r, s);
      } else {
        OtherAgrees(c, r, s, a);
      }
    case Keep(newLen) =>
      if s.taking != [] {
        KeepAgrees(c, r, s, newLen);
      } else {
        OtherAgrees(c, r, s, a);
      }
    case _ => OtherAgrees(c, r, s, a);
  }

  // ---- every run ----

  lemma {:induction false} AgreesRun(c: Config, r: Record, s: State, actions: seq<Action>)
    requires ValidConfig(c) && Inv(c, s) && Agrees(c, r, s)
    ensures Agrees(c, Watch(c, r, s, actions), Run(c, s, actions))
    decreases actions
  {
    hide OneOwner, Control, Agrees, Step, Observe;
    if actions != [] {
      InvStep(c, s, actions[0]);
      AgreesStep(c, r, s, actions[0]);
      AgreesRun(c, Observe(c, r, s, actions[0]), Step(c, s, actions[0]), actions[1..]);
    }
  }

  const NOTHING: Record := Record([], [], [], [])

  /** At every step of every run: the complete frames, in the order they were claimed, are those that
      have left the queue at its front, then the queue, then the one the task is about to queue; each
      has the length its pieces give it. Between events nothing is on its way. The frame the consumer
      takes is the one that was oldest. */
  lemma FramesInOrder(c: Config, actions: seq<Action>)
    requires ValidConfig(c)
    ensures var s, r := Run(c, Init(c), actions), Watch(c, NOTHING, Init(c), actions);
            && r.finished == r.left + Frames(s.queue, s.len) + InFlight(s)
            && (s.pc.Receive? ==> r.finished == r.left + Frames(s.queue, s.len))
            && (s.taking != [] ==> r.taken != [] && r.taken[|r.taken| - 1] == FrameIn(s, s.taking[0]))
            && (s.pc.Resend? ==> |s.queue| < QueueLength(c))
  {
    InvInit(c);
    AgreesRun(c, NOTHING, Init(c), actions);
  }

  // ---- a frame from its first buffer to the consumer ----

  lemma {:induction false} RunAppend(c: Config, r: Record, s: State, a: seq<Action>, b: seq<Action>)
    requires ValidConfig(c) && InRange(c, s)
    ensures Run(c, s, a + b) == Run(c, Run(c, s, a), b)
    ensures Watch(c, r, s, a + b) == Watch(c, Watch(c, r, s, a), Run(c, s, a), b)
    decreases a
  {
    hide Step, Observe, InRange;
    if a == [] {
      assert a + b == b;
    } else {
      assert (a + b)[0] == a[0] && (a + b)[1..] == a[1..] + b;
      StepInRange(c, s, a[0]);
      RunAppend(c, Observe(c, r, s, a[0]), Step(c, s, a[0]), a[1..], b);
    }
  }

  lemma RunOne(c: Config, r: Record, s: State, a: Action, rest: seq<Action>)
    requires ValidConfig(c) && InRange(c, s)
    ensures InRange(c, Step(c, s, a))
    ensures Run(c, s, [a] + rest) == Run(c, Step(c, s, a), rest)
    ensures Watch(c, r, s, [a] + rest) == Watch(c, Observe(c, r, s, a), Step(c, s, a), rest)
  {
    hide Step, Observe, InRange;
    StepInRange(c, s, a);
    assert ([a] + rest)[1..] == rest;
  }

  lemma RunNone(c: Config, r: Record, s: State)
    requires ValidConfig(c) && InRange(c, s)
    ensures Run(c, s, []) == s && Watch(c, r, s, []) == r
  {
  }

  /** The task is waiting in the middle of a frame made of these pieces. */
  predicate Waiting(c: Config, r: Record, s: State, slot: nat, pieces: seq<nat>, queue: seq<nat>)
    requires ValidConfig(c)
  {
    && Inv(c, s) && Agrees(c, r, s)
    && s.pc == Receive && s.reading && s.framePos == slot && r.pieces == pieces && s.queue == queue && s.taking == []
  }

  function BeginFrame(): seq<Action> {
    [Deliver(Vsync), Task(true, 0), Task(true, 0), Task(true, 0), Task(true, 0), Task(true, 0)]
  }

  function OneBuffer(amount: nat): seq<Action> {
    [Deliver(Eof), Task(true, amount), Task(true, amount)]
  }

  function EndFrame(c: Config, amount: nat): seq<Action> {
    var t := Task(true, amount);
    [Deliver(Vsync), t, t] + (if c.jpegMode then [t] else []) + [t, t, t]
  }

  function Buffers(amounts: seq<nat>): seq<Action> {
    if amounts == [] then [] else Buffers(amounts[..|amounts| - 1]) + OneBuffer(amounts[|amounts| - 1])
  }

  function Pieces(c: Config, amounts: seq<nat>): seq<nat> {
    seq(|amounts|, i requires 0 <= i < |amounts| => Copied(c, amounts[i]))
  }

  /** Every buffer but the last one finds its place. */
  predicate Fitting(c: Config, pieces: seq<nat>)
    requires ValidConfig(c)
  {
    forall i :: 0 <= i < |pieces| ==> Room(c, pieces[..i])
  }

  /** What the frame consists of when it ends: a JPEG frame gets its last piece then. */
  function Ended(c: Config, pieces: seq<nat>, amount: nat): seq<nat>
    requires ValidConfig(c)
  {
    if c.jpegMode && (c.psramMode || Room(c, pieces)) then pieces + [Copied(c, amount)] else pieces
  }

  /** One step, of state and record. */
  lemma Pair(c: Config, r: Record, s: State, a: Action, rest: seq<Action>) returns (r': Record, s': State)
    requires ValidConfig(c) && InRange(c, s)
    ensures InRange(c, s') && r' == Observe(c, r, s, a) && s' == Step(c, s, a)
    ensures Run(c, s, [a] + rest) == Run(c, s', rest) && Watch(c, r, s, [a] + rest) == Watch(c, r', s', rest)
  {
    hide Step, Observe, InRange;
    StepInRange(c, s, a);
    RunOne(c, r, s, a, rest);
    r', s' := Observe(c, r, s, a), Step(c, s, a);
  }

  /** A VSYNC in the idle state makes the task look at the slot at hand. */
  lemma SlotIsFound(c: Config, r: Record, s: State)
    requires ValidConfig(c) && InRange(c, s) && s.pc == Receive && !s.reading && s.en[s.framePos]
    ensures var t := Task(true, 0);
            var actions := [Deliver(Vsync)] + ([t] + ([t] + []));
            Run(c, s, actions) == s.(pc := Start(FromIdle)) && Watch(c, r, s, actions) == r
  {
    hide InRange, Room;
    var t := Task(true, 0);
    var r1, s1 := Pair(c, r, s, Deliver(Vsync), [t] + ([t] + []));
    var r2, s2 := Pair(c, r1, s1, t, [t] + []);
    assert s2 == s.(pc := Look(FromIdle)) && r2 == r;
    var r3, s3 := Pair(c, r2, s2, t, []);
    assert s3 == s.(pc := Start(FromIdle)) && r3 == r;
    RunNone(c, r3, s3);
  }

  /** The DMA starts, and reading begins with nothing counted. */
  lemma DmaIsStarted(c: Config, r: Record, s: State)
    requires ValidConfig(c) && InRange(c, s) && s.pc == Start(FromIdle)
    ensures var t := Task(true, 0);
            var actions := [t] + ([t] + ([t] + []));
            var s' := Run(c, s, actions);
            && s'.pc == Receive && s'.reading && s'.framePos == s.framePos && s'.queue == s.queue && s'.taking == s.taking
            && Watch(c, r, s, actions).pieces == []
  {
    hide InRange, Room;
    var t := Task(true, 0);
    var r1, s1 := Pair(c, r, s, t, [t] + ([t] + []));
    assert s1 == s.(pc := Started(FromIdle), dma := true);
    var r2, s2 := Pair(c, r1, s1, t, [t] + []);
    assert s2.pc == SetReading && r2.pieces == [];
    var r3, s3 := Pair(c, r2, s2, t, []);
    RunNone(c, r3, s3);
  }

  /** So a VSYNC begins a frame in a free slot. */
  lemma FrameBegins(c: Config, r: Record, s: State)
    requires ValidConfig(c) && Inv(c, s) && Agrees(c, r, s)
    requires s.pc == Receive && !s.reading && s.en[s.framePos] && s.taking == []
    ensures Waiting(c, Watch(c, r, s, BeginFrame()), Run(c, s, BeginFrame()), s.framePos, [], s.queue)
  {
    hide OneOwner, Control, Agrees, Run, Watch, Step;
    var t := Task(true, 0);
    AgreesRun(c, r, s, BeginFrame());
    InvRun(c, s, BeginFrame());
    assert BeginFrame() == [Deliver(Vsync)] + ([t] + ([t] + [])) + ([t] + ([t] + ([t] + [])));
    RunAppend(c, r, s, [Deliver(Vsync)] + ([t] + ([t] + [])), [t] + ([t] + ([t] + [])));
    SlotIsFound(c, r, s);
    DmaIsStarted(c, r, s.(pc := Start(FromIdle)));
  }

  /** A DMA buffer that has room adds its piece. */
  lemma BufferIsCopied(c: Config, r: Record, s: State, slot: nat, pieces: seq<nat>, queue: seq<nat>, amount: nat)
    requires ValidConfig(c) && Waiting(c, r, s, slot, pieces, queue) && Room(c, pieces)
    ensures Waiting(c, Watch(c, r, s, OneBuffer(amount)), Run(c, s, OneBuffer(amount)), slot, pieces + [Copied(c, amount)], queue)
  {
    hide OneOwner, Control, InOrder;
    var t := Task(true, amount);
    AgreesRun(c, r, s, OneBuffer(amount));
    InvRun(c, s, OneBuffer(amount));
    assert OneBuffer(amount) == [Deliver(Eof)] + ([t] + ([t] + []));
    var r1, s1 := Pair(c, r, s, Deliver(Eof), [t] + ([t] + []));
    var r2, s2 := Pair(c, r1, s1, t, [t] + []);
    assert s2 == s.(pc := Copy) && r2 == r;
    var r3, s3 := Pair(c, r2, s2, t, []);
    RunNone(c, r3, s3);
  }

  lemma {:induction false} BuffersAreCopied(c: Config, r: Record, s: State, slot: nat, queue: seq<nat>, amounts: seq<nat>)
    requires ValidConfig(c) && Waiting(c, r, s, slot, [], queue) && Fitting(c, Pieces(c, amounts))
    ensures Waiting(c, Watch(c, r, s, Buffers(amounts)), Run(c, s, Buffers(amounts)), slot, Pieces(c, amounts), queue)
    decreases |amounts|
  {
    hide OneOwner, Control, Agrees, Step, Room, Copied, OneBuffer;
    if amounts == [] {
      RunNone(c, r, s);
      assert Pieces(c, amounts) == [];
    } else {
      var n := |amounts| - 1;
      var front, pieces := amounts[..n], Pieces(c, amounts);
      assert Pieces(c, front) == pieces[..n];
      forall i | 0 <= i < n
        ensures Room(c, Pieces(c, front)[..i])
      {
        assert pieces[..n][..i] == pieces[..i];
      }
      BuffersAreCopied(c, r, s, slot, queue, front);
      BufferIsCopied(c, Watch(c, r, s, Buffers(front)), Run(c, s, Buffers(front)), slot, pieces[..n], queue, amounts[n]);
      RunAppend(c, r, s, Buffers(front), OneBuffer(amounts[n]));
      assert pieces[..n] + [Copied(c, amounts[n])] == pieces;
    }
  }

  /** A VSYNC while reading stops the DMA. */
  lemma FrameStops(c: Config, r: Record, s: State, amount: nat)
    requires ValidConfig(c) && InRange(c, s) && s.pc == Receive && s.reading && (s.cnt != 0 || !c.jpegMode || c.psramMode)
    ensures var t := Task(true, amount);
            var actions := [Deliver(Vsync)] + ([t] + ([t] + []));
            && Run(c, s, actions) == s.(pc := if c.jpegMode then FinalCopy else Claim, dma := false)
            && Watch(c, r, s, actions) == r
  {
    hide InRange, Room;
    var t := Task(true, amount);
    var r1, s1 := Pair(c, r, s, Deliver(Vsync), [t] + ([t] + []));
    var r2, s2 := Pair(c, r1, s1, t, [t] + []);
    assert s2 == s.(pc := Stop) && r2 == r;
    var r3, s3 := Pair(c, r2, s2, t, []);
    RunNone(c, r3, s3);
  }

  /** When the VSYNC comes, a complete frame goes to the end of the queue, with the length of its pieces. */
  lemma FrameIsQueued(c: Config, r: Record, s: State, slot: nat, pieces: seq<nat>, queue: seq<nat>, amount: nat)
    requires ValidConfig(c) && Waiting(c, r, s, slot, pieces, queue) && |queue| < QueueLength(c)
    requires pieces != [] || !c.jpegMode || c.psramMode
    requires Complete(c, Ended(c, pieces, amount))
    ensures var t := Run(c, s, EndFrame(c, amount));
            && Inv(c, t) && t.pc == Look(FromRead) && t.taking == [] && t.queue == queue + [slot]
            && FrameIn(t, slot) == Frame(slot, LengthOf(c, Ended(c, pieces, amount)))
  {
    hide OneOwner, Control, InOrder, QueueLength, Complete, LengthOf, Frames, Run, Watch, Step, Observe, Room;
    var t := Task(true, amount);
    InvRun(c, s, EndFrame(c, amount));
    var first, last := [Deliver(Vsync)] + ([t] + ([t] + [])), [t] + ([t] + ([t] + []));
    var s3 := s.(pc := if c.jpegMode then FinalCopy else Claim, dma := false);
    FrameStops(c, r, s, amount);
    if c.jpegMode {
      assert EndFrame(c, amount) == first + ([t] + last);
      RunAppend(c, r, s, first, [t] + last);
      var r4, s4 := Pair(c, r, s3, t, last);
      LastPiece(c, r, s3, true, amount);
      ClaimedIsQueued(c, r4, s4, slot, queue, amount);
    } else {
      assert EndFrame(c, amount) == first + last;
      RunAppend(c, r, s, first, last);
      ClaimedIsQueued(c, r, s3, slot, queue, amount);
    }
  }

  /** The last piece of a JPEG frame. */
  lemma LastPiece(c: Config, r: Record, s: State, ok: bool, amount: nat)
    requires ValidConfig(c) && InRange(c, s) && s.pc == FinalCopy && c.jpegMode
    requires s.cnt == |r.pieces| && (!c.psramMode ==> s.len[s.framePos] == Sum(r.pieces))
    ensures InRange(c, Step(c, s, Task(ok, amount)))
    ensures var t, r' := Step(c, s, Task(ok, amount)), Observe(c, r, s, Task(ok, amount));
            && t == s.(pc := Claim, cnt := t.cnt, len := t.len) && |t.len| == |s.len|
            && r'.pieces == Ended(c, r.pieces, amount)
            && t.cnt == |r'.pieces| && (!c.psramMode ==> t.len[s.framePos] == Sum(r'.pieces))
  {
    hide FrameCopyCnt;
    StepInRange(c, s, Task(ok, amount));
    SumMore(r.pieces, Copied(c, amount));
  }

  /** The length of a complete frame is settled, and it is kept. */
  lemma LengthIsSettled(c: Config, r: Record, s: State, a: Action)
    requires ValidConfig(c) && InRange(c, s) && s.pc == Measure && !s.en[s.framePos] && a.Task? && Complete(c, r.pieces)
    requires s.cnt == |r.pieces| && (!c.psramMode ==> s.len[s.framePos] == Sum(r.pieces))
    ensures InRange(c, Step(c, s, a))
    ensures var t := Step(c, s, a);
            && t == s.(pc := Send, len := t.len) && |t.len| == |s.len|
            && t.len[s.framePos] == LengthOf(c, r.pieces)
  {
    StepInRange(c, s, a);
  }

  /** With room in the queue the frame goes to its end. */
  lemma SentWithRoom(c: Config, s: State, a: Action)
    requires ValidConfig(c) && InRange(c, s) && s.pc == Send && !s.en[s.framePos] && a.Task? && |s.queue| < QueueLength(c)
    ensures Step(c, s, a) == s.(pc := Look(FromRead), queue := s.queue + [s.framePos])
  {
    hide QueueLength;
  }

  /** The steps of the task behind a queue it has found full. */
  lemma FullQueueSteps(c: Config, s: State, a: Action)
    requires ValidConfig(c) && InRange(c, s) && a.Task?
    ensures s.pc == Send && !s.en[s.framePos] && |s.queue| == QueueLength(c) ==>
              && Step(c, s, a) == s.(pc := Pop)
              && InRange(c, s.(pc := Pop)) && s.queue != []
              && Step(c, s.(pc := Pop), a) == s.(pc := Resend(s.queue[0]), queue := s.queue[1..])
    ensures s.pc.Resend? && |s.queue| < QueueLength(c) ==>
              Step(c, s, a) == s.(pc := Release(s.pc.popped), queue := s.queue + [s.framePos])
    ensures s.pc.Release? ==>
              s.pc.popped < |s.en| && Step(c, s, a) == s.(pc := Look(FromRead), en := s.en[s.pc.popped := true])
  {
    QueueIsReal(c);
  }

  /** Undisturbed, a frame that finds the queue full takes the place of the oldest one: that one leaves
      at the front and its slot is free, and the new one comes last. */
  lemma FullQueueDropsOldest(c: Config, s: State, a: Action)
    requires ValidConfig(c) && InRange(c, s) && s.pc == Send && !s.en[s.framePos] && a.Task? && |s.queue| == QueueLength(c)
    ensures s.queue != []
    ensures Run(c, s, [a] + ([a] + ([a] + ([a] + [])))) ==
            s.(pc := Look(FromRead), queue := s.queue[1..] + [s.framePos], en := s.en[s.queue[0] := true])
  {
    hide InRange, QueueLength, Step, Observe;
    QueueIsReal(c);
    FullQueueSteps(c, s, a);
    var r1, s1 := Pair(c, NOTHING, s, a, [a] + ([a] + ([a] + [])));
    var r2, s2 := Pair(c, r1, s1, a, [a] + ([a] + []));
    FullQueueSteps(c, s2, a);
    var r3, s3 := Pair(c, r2, s2, a, [a] + []);
    FullQueueSteps(c, s3, a);
    var r4, s4 := Pair(c, r3, s3, a, []);
    RunNone(c, r4, s4);
  }

  /** From the claim on, three steps put a complete frame into a queue that has room. */
  lemma ClaimedIsQueued(c: Config, r: Record, s: State, slot: nat, queue: seq<nat>, amount: nat)
    requires ValidConfig(c) && InRange(c, s) && s.pc == Claim && s.framePos == slot && s.queue == queue
    requires |queue| < QueueLength(c) && Complete(c, r.pieces)
    requires s.cnt == |r.pieces| && (!c.psramMode ==> s.len[slot] == Sum(r.pieces))
    ensures var a := Task(true, amount);
            var t := Run(c, s, [a] + ([a] + ([a] + [])));
            && t.pc == Look(FromRead) && t.taking == s.taking && t.queue == queue + [slot]
            && slot < |t.len| && FrameIn(t, slot) == Frame(slot, LengthOf(c, r.pieces))
  {
    hide QueueLength, Room, Complete, LengthOf, Run, Watch;
    var a := Task(true, amount);
    var r1, s1 := Pair(c, r, s, a, [a] + ([a] + []));
    assert s1 == s.(pc := Measure, en := s.en[slot := false]);
    LengthIsSettled(c, r, s1, a);
    var r2, s2 := Pair(c, r1, s1, a, [a] + []);
    SentWithRoom(c, s2, a);
    var r3, s3 := Pair(c, r2, s2, a, []);
    RunNone(c, r3, s3);
  }

  /** A whole frame: begun in a free slot with an empty queue, made of any number of buffers that have
      room, ended by a VSYNC and then taken, it reaches the consumer with the length of its pieces. */
  lemma FrameIsDelivered(c: Config, r: Record, s: State, amounts: seq<nat>, amount: nat)
    requires ValidConfig(c) && Inv(c, s) && Agrees(c, r, s)
    requires s.pc == Receive && !s.reading && s.en[s.framePos] && s.taking == [] && s.queue == []
    requires Fitting(c, Pieces(c, amounts)) && (amounts != [] || !c.jpegMode || c.psramMode)
    requires Complete(c, Ended(c, Pieces(c, amounts), amount))
    ensures var t := Run(c, s, BeginFrame() + (Buffers(amounts) + (EndFrame(c, amount) + [Take])));
            && t.taking == [s.framePos] && t.queue == []
            && t.len[s.framePos] == LengthOf(c, Ended(c, Pieces(c, amounts), amount))
  {
    hide OneOwner, Control, Agrees, InRange, Step, Observe, Run, Watch, BeginFrame, Buffers, EndFrame, Complete, LengthOf, Ended, Fitting;
    var slot, pieces := s.framePos, Pieces(c, amounts);
    var rest := EndFrame(c, amount) + [Take];
    FrameBegins(c, r, s);
    RunAppend(c, r, s, BeginFrame(), Buffers(amounts) + rest);
    var r1, s1 := Watch(c, r, s, BeginFrame()), Run(c, s, BeginFrame());
    BuffersAreCopied(c, r1, s1, slot, [], amounts);
    RunAppend(c, r1, s1, Buffers(amounts), rest);
    var r2, s2 := Watch(c, r1, s1, Buffers(amounts)), Run(c, s1, Buffers(amounts));
    QueueIsReal(c);
    FrameIsQueued(c, r2, s2, slot, pieces, [], amount);
    RunAppend(c, r2, s2, EndFrame(c, amount), [Take]);
    TakenAlone(c, r2, Run(c, s2, EndFrame(c, amount)), slot);
  }

  lemma TakenAlone(c: Config, r: Record, s: State, slot: nat)
    requires ValidConfig(c) && InRange(c, s) && s.taking == [] && s.queue == [] + [slot]
    ensures var t := Run(c, s, [Take]); t.taking == [slot] && t.queue == [] && t.len == s.len
  {
    RunOne(c, r, s, Take, []);
    assert [Take] + [] == [Take];
    RunNone(c, r, Step(c, s, Take));
  }

  // ---- the next frame ----

  /** The scan goes from slot x on to the first free one. */
  lemma {:induction false} ScanFinds(c: Config, s: State, x: nat, free: nat, a: Action)
    requires ValidConfig(c) && InRange(c, s) && s.pc == Scan(x, FromRead) && a.Task? && x <= free < c.frameCnt
    requires s.en[free] && forall y :: x <= y < free ==> !s.en[y]
    ensures Run(c, s, seq(free - x + 1, _ => a)) == s.(pc := Start(FromRead), framePos := free)
    decreases free - x
  {
    hide InRange;
    var actions := seq(free - x + 1, _ => a);
    assert actions == [a] + actions[1..];
    var r', s' := Pair(c, NOTHING, s, a, actions[1..]);
    if x == free {
      assert actions[1..] == [];
      RunNone(c, r', s');
    } else {
      assert s' == s.(pc := Scan(x + 1, FromRead));
      assert actions[1..] == seq(free - (x + 1) + 1, _ => a);
      ScanFinds(c, s', x + 1, free, a);
    }
  }

  /** Started again, the DMA writes to the slot found, and counting begins anew. */
  lemma ReadingGoesOn(c: Config, r: Record, s: State)
    requires ValidConfig(c) && InRange(c, s) && s.pc == Start(FromRead)
    ensures var a := Task(true, 0);
            Run(c, s, [a] + ([a] + [])) == s.(pc := Receive, dma := true, cnt := 0, len := s.len[s.framePos := 0])
  {
    hide InRange, Room;
    var a := Task(true, 0);
    var r1, s1 := Pair(c, r, s, a, [a] + []);
    assert s1 == s.(pc := Started(FromRead), dma := true);
    var r2, s2 := Pair(c, r1, s1, a, []);
    RunNone(c, r2, s2);
  }

  lemma LooksFurther(c: Config, s: State, a: Action)
    requires ValidConfig(c) && InRange(c, s) && s.pc == Look(FromRead) && !s.en[s.framePos] && a.Task?
    ensures Step(c, s, a) == s.(pc := Scan(0, FromRead))
  {
  }

  /** Behind a frame the task looks for a slot, takes the first free one when its own is not free, and
      goes on reading from the beginning. */
  lemma NextFrameBegins(c: Config, r: Record, s: State, free: nat)
    requires ValidConfig(c) && InRange(c, s) && s.pc == Look(FromRead) && s.reading && !s.en[s.framePos]
    requires free < c.frameCnt && s.en[free] && forall y :: 0 <= y < free ==> !s.en[y]
    ensures var a := Task(true, 0);
            Run(c, s, [a] + (seq(free + 1, _ => a) + ([a] + ([a] + [])))) ==
            s.(pc := Receive, dma := true, framePos := free, cnt := 0, len := s.len[free := 0])
  {
    hide InRange, Room, Run, Step, Observe;
    var a := Task(true, 0);
    var search, rest := seq(free + 1, _ => a), [a] + ([a] + []);
    var r1, s1 := Pair(c, r, s, a, search + rest);
    LooksFurther(c, s, a);
    RunAppend(c, r1, s1, search, rest);
    assert search == seq(free - 0 + 1, _ => a);
    ScanFinds(c, s1, 0, free, a);
    ReadingGoesOn(c, r1, Run(c, s1, search));
  }

  /** The consumer holds the frame it took, shortened to the end of the image if it has found one. */
  lemma TakenIsHeld(c: Config, s: State, newLen: nat)
    requires ValidConfig(c) && InRange(c, s) && |s.taking| == 1
    ensures var t, x := Step(c, s, Keep(newLen)), s.taking[0];
            && t.taking == [] && t.held == s.held + [x] && t.queue == s.queue && t.en == s.en
            && t.len[x] == (if newLen <= s.len[x] && (c.jpegMode || (c.psramMode && c.converts)) then newLen else s.len[x])
            && forall y :: 0 <= y < |s.len| && y != x ==> t.len[y] == s.len[y]
  {
    hide TaskStep;
    StepInRange(c, s, Keep(newLen));
  }
}
