/** The frame slots of cam_hal.c: camera task, interrupt and consumer, one access to the shared state
    at a time. */
module CamPool {

  /** What cam_config and cam_dma_config fix. */
  datatype Config = Config(
    frameCnt: nat,
    grabLatest: bool,
    jpegMode: bool,
    psramMode: bool,
    converts: bool,
    recvSize: nat,
    fbSize: nat,
    dmaHalfBufferSize: nat,
    pixelsPerDma: nat)

  predicate ValidConfig(c: Config) {
    c.frameCnt > 0 && c.dmaHalfBufferSize > 0 && (c.jpegMode ==> c.fbSize == c.recvSize)
  }

  /** frame_buffer_queue_len */
  function QueueLength(c: Config): nat
    requires ValidConfig(c)
  {
    if c.grabLatest && c.frameCnt > 1 then c.frameCnt - 1 else c.frameCnt
  }

  /** frame_copy_cnt */
  function FrameCopyCnt(c: Config): nat
    requires ValidConfig(c)
  {
    c.recvSize / c.dmaHalfBufferSize + if c.psramMode then 1 else 0
  }

  /** The bytes of a slot that its buffer has room for. */
  function Allocated(c: Config): nat {
    if c.psramMode then (if c.fbSize < c.recvSize then c.recvSize else c.fbSize) + c.dmaHalfBufferSize else c.fbSize
  }

  datatype Event = Eof | Vsync

  /** Where cam_start_frame was called from. */
  datatype Caller = FromIdle | FromRead

  /** The next step of cam_task. */
  datatype Pc =
    | Receive
    | Dispatch(event: Event)
    | Look(caller: Caller)
    | Scan(x: nat, caller: Caller)
    | Start(caller: Caller)
    | Started(caller: Caller)
    | SetReading
    | NotStarted(caller: Caller)
    | Copy
    | Stop
    | FinalCopy
    | Claim
    | Measure
    | Send
    | Pop
    | Resend(popped: nat)
    | Release(popped: nat)

  datatype State = State(
    en: seq<bool>,
    len: seq<nat>,
    queue: seq<nat>,
    reading: bool,
    dma: bool,
    pc: Pc,
    framePos: nat,
    cnt: int,
    taking: seq<nat>,
    held: seq<nat>)

  function Init(c: Config): State {
    State(seq(c.frameCnt, _ => true), seq(c.frameCnt, _ => 0), [], false, false, Receive, 0, 0, [], [])
  }

  /** A step of one of the three parties, with what the outside decides. */
  datatype Action =
    | Deliver(event: Event)
    | Task(ok: bool, amount: nat)
    | Overflow
    | Take
    | Keep(newLen: nat)
    | Reject
    | Give(i: nat)

  predicate InRange(c: Config, s: State) {
    && |s.en| == |s.len| == c.frameCnt && s.framePos < c.frameCnt
    && (forall i :: 0 <= i < |s.queue| ==> s.queue[i] < c.frameCnt)
    && (forall i :: 0 <= i < |s.held| ==> s.held[i] < c.frameCnt)
    && (forall i :: 0 <= i < |s.taking| ==> s.taking[i] < c.frameCnt)
    && (match s.pc case Resend(popped) => popped < c.frameCnt case Release(popped) => popped < c.frameCnt case _ => true)
  }

  // ---- the camera task ----

  function Goto(s: State, pc: Pc): State {
    s.(pc := pc)
  }

  function SetEn(s: State, x: nat, en: bool): State
    requires x < |s.en|
  {
    s.(en := s.en[x := en])
  }

  function SetLen(s: State, x: nat, len: nat): State
    requires x < |s.len|
  {
    s.(len := s.len[x := len])
  }

  /** `ok` decides what the hardware or the frame's contents decide; `amount` what ll_cam_memcpy returns. */
  function TaskStep(c: Config, s: State, ok: bool, amount: nat): State
    requires ValidConfig(c) && InRange(c, s)
  {
    if s.pc.Copy? then CopyStep(c, s, ok, amount)
    else if s.pc.Stop? || s.pc.FinalCopy? then StopStep(c, s, amount)
    else if s.pc.Claim? || s.pc.Measure? then ClaimStep(c, s)
    else if s.pc.Send? || s.pc.Pop? || s.pc.Resend? || s.pc.Release? then SendStep(c, s)
    else SearchStep(c, s, ok)
  }

  /** The event loop and cam_start_frame. */
  function SearchStep(c: Config, s: State, ok: bool): State
    requires ValidConfig(c) && InRange(c, s)
  {
    match s.pc
    case Dispatch(e) =>
      if !s.reading then Goto(s, if e == Vsync then Look(FromIdle) else Receive)
      else Goto(s, if e == Eof then Copy else Stop)
    case Look(caller) => Goto(s, if s.en[s.framePos] then Start(caller) else Scan(0, caller))
    case Scan(x, caller) =>
      if x >= c.frameCnt then Goto(s, NotStarted(caller))
      else if s.en[x] then Goto(s, Start(caller)).(framePos := x)
      else Goto(s, Scan(x + 1, caller))
    case Start(caller) => Goto(s, if ok then Started(caller) else NotStarted(caller)).(dma := s.dma || ok)
    case Started(caller) =>
      if caller == FromIdle then Goto(SetLen(s, s.framePos, 0), SetReading)
      else Goto(SetLen(s, s.framePos, 0), Receive).(cnt := 0)
    case SetReading => Goto(s, Receive).(reading := true, cnt := 0)
    case NotStarted(caller) => Goto(s, Receive).(reading := s.reading && caller == FromIdle, cnt := 0)
    case _ => s
  }

  /** A VSYNC event while reading: the DMA stops, and a JPEG frame gets its last piece. */
  function StopStep(c: Config, s: State, amount: nat): State
    requires ValidConfig(c) && InRange(c, s)
  {
    if s.pc.Stop? then
      if s.cnt != 0 || !c.jpegMode || c.psramMode then Goto(s, if c.jpegMode then FinalCopy else Claim).(dma := false)
      else Goto(s, Look(FromRead)).(dma := false)
    else if c.psramMode then Goto(s, Claim).(cnt := s.cnt + 1)
    else if c.fbSize < s.len[s.framePos] + c.pixelsPerDma then Goto(s, Claim)
    else Goto(SetLen(s, s.framePos, s.len[s.framePos] + Copied(c, amount)), Claim).(cnt := s.cnt + 1)
  }

  /** The slot is claimed for the consumer, and its length is settled. */
  function ClaimStep(c: Config, s: State): State
    requires ValidConfig(c) && InRange(c, s)
  {
    if s.pc.Claim? then Goto(SetEn(s, s.framePos, false), Measure)
    else if c.psramMode then
      Goto(SetLen(s, s.framePos, if c.jpegMode then Bytes(c, s.cnt) else c.recvSize), Send)
    else if !c.jpegMode && s.len[s.framePos] != c.fbSize then Goto(SetEn(s, s.framePos, true), Send)
    else Goto(s, Send)
  }

  /** The slot goes into the queue, if need be in place of the oldest one. */
  function SendStep(c: Config, s: State): State
    requires ValidConfig(c) && InRange(c, s)
  {
    match s.pc
    case Send =>
      if s.en[s.framePos] then Goto(s, Look(FromRead))
      else if |s.queue| < QueueLength(c) then Goto(s, Look(FromRead)).(queue := s.queue + [s.framePos])
      else Goto(s, Pop)
    case Pop =>
      if s.queue == [] then Goto(SetEn(s, s.framePos, true), Look(FromRead))
      else Goto(s, Resend(s.queue[0])).(queue := s.queue[1..])
    case Resend(popped) =>
      if |s.queue| < QueueLength(c) then Goto(s, Release(popped)).(queue := s.queue + [s.framePos])
      else Goto(SetEn(s, s.framePos, true), Release(popped))
    case Release(popped) => Goto(SetEn(s, popped, true), Look(FromRead))
    case _ => s
  }

  /** ll_cam_memcpy returns at most what one half buffer holds. */
  function Copied(c: Config, amount: nat): nat {
    if amount <= c.pixelsPerDma then amount else c.pixelsPerDma
  }

  function Bytes(c: Config, cnt: int): nat {
    if cnt < 0 then 0 else cnt * c.dmaHalfBufferSize
  }

  /** One DMA buffer has arrived: room, contents, start marker. */
  function CopyStep(c: Config, s: State, ok: bool, amount: nat): State
    requires ValidConfig(c) && InRange(c, s)
  {
    var f := s.framePos;
    var stopped := Goto(s, Receive).(dma := false);
    if !c.psramMode && c.fbSize < s.len[f] + c.pixelsPerDma then stopped
    else if c.psramMode && s.cnt + 1 >= FrameCopyCnt(c) then stopped.(reading := false)
    else
      var r := if c.psramMode then s else SetLen(s, f, s.len[f] + Copied(c, amount));
      if c.jpegMode && s.cnt == 0 && !ok then Goto(r, Receive).(dma := false, reading := false)
      else Goto(r, Receive).(cnt := s.cnt + 1)
  }

  // ---- all parties ----

  /** One step; an action that is not enabled changes nothing. */
  function Step(c: Config, s: State, a: Action): State
    requires ValidConfig(c) && InRange(c, s)
  {
    match a
    case Deliver(e) => if s.pc == Receive then Goto(s, Dispatch(e)) else s
    case Task(ok, amount) => TaskStep(c, s, ok, amount)
    // ll_cam_send_event, when the event queue is full
    case Overflow => s.(dma := false, reading := false)
    // cam_take
    case Take => if s.taking == [] && s.queue != [] then s.(taking := [s.queue[0]], queue := s.queue[1..]) else s
    case Keep(newLen) =>
      if s.taking == [] then s
      else
        var x := s.taking[0];
        var shortened := if newLen <= s.len[x] && (c.jpegMode || (c.psramMode && c.converts)) then SetLen(s, x, newLen) else s;
        shortened.(taking := [], held := s.held + [x])
    case Reject => if s.taking == [] || !c.jpegMode then s else SetEn(s, s.taking[0], true).(taking := [])
    // cam_give, of a frame the consumer holds
    case Give(i) => if i < |s.held| then SetEn(s, s.held[i], true).(held := s.held[..i] + s.held[i + 1..]) else s
  }

  // ---- ownership ----

  /** The slots the camera task has claimed but not yet passed on. */
  function TaskOwned(s: State): seq<nat>
    requires s.framePos < |s.en|
  {
    match s.pc
    case Measure => [s.framePos]
    case Send => if s.en[s.framePos] then [] else [s.framePos]
    case Pop => [s.framePos]
    case Resend(popped) => [s.framePos, popped]
    case Release(popped) => [popped]
    case _ => []
  }

  /** Everybody who owns a slot, counted. */
  function Owners(s: State): multiset<nat>
    requires s.framePos < |s.en|
  {
    multiset(s.queue) + multiset(s.taking) + multiset(s.held) + multiset(TaskOwned(s))
  }

  /** A slot is free exactly when nobody owns it, and has one owner otherwise. */
  predicate OneOwner(c: Config, s: State)
    requires InRange(c, s)
  {
    forall x :: 0 <= x < c.frameCnt ==> Owners(s)[x] == if s.en[x] then 0 else 1
  }

  predicate Searching(pc: Pc) {
    pc.Receive? || pc.Dispatch? || pc.Look? || pc.Scan? || pc.Start? || pc.Started? || pc.SetReading? || pc.NotStarted?
  }

  predicate FrameFree(pc: Pc) {
    pc.Start? || pc.Started? || pc.SetReading? || pc.Copy? || pc.Stop? || pc.FinalCopy? || pc.Claim?
  }

  predicate CalledIdle(pc: Pc) {
    match pc
    case Look(caller) => caller == FromIdle
    case Scan(_, caller) => caller == FromIdle
    case Start(caller) => caller == FromIdle
    case Started(caller) => caller == FromIdle
    case NotStarted(caller) => caller == FromIdle
    case SetReading => true
    case _ => false
  }

  predicate DmaStopped(pc: Pc) {
    pc.Scan? || pc.FinalCopy? || pc.Claim? || pc.Measure? || pc.Send? || pc.Pop? || pc.Resend? || pc.Release?
  }

  /** Where the task may stand, given what is free and what runs. */
  predicate Control(c: Config, s: State)
    requires ValidConfig(c) && InRange(c, s)
  {
    && |s.queue| <= QueueLength(c) && |s.taking| <= 1
    && (FrameFree(s.pc) ==> s.en[s.framePos])
    && (s.reading && (s.pc.Receive? || s.pc.Dispatch?) ==> s.en[s.framePos])
    && (s.dma ==> s.en[s.framePos])
    && (DmaStopped(s.pc) ==> !s.dma)
    && (CalledIdle(s.pc) ==> !s.reading)
  }

  /** What every step keeps. */
  predicate Inv(c: Config, s: State)
    requires ValidConfig(c)
  {
    InRange(c, s) && Control(c, s) && OneOwner(c, s)
  }

  lemma InvInit(c: Config)
    requires ValidConfig(c)
    ensures Inv(c, Init(c))
  {
  }

  // ---- ownership changes hands ----

  lemma OwnersKept(c: Config, s: State, t: State)
    requires InRange(c, s) && InRange(c, t) && OneOwner(c, s)
    requires t.en == s.en && Owners(t) == Owners(s)
    ensures OneOwner(c, t)
  {
    hide Owners;
  }

  lemma OwnerGained(c: Config, s: State, t: State, x: nat)
    requires InRange(c, s) && InRange(c, t) && OneOwner(c, s) && x < c.frameCnt && s.en[x]
    requires t.en == s.en[x := false] && Owners(t) == Owners(s) + multiset{x}
    ensures OneOwner(c, t)
  {
    hide Owners;
  }

  lemma OwnerLost(c: Config, s: State, t: State, x: nat)
    requires InRange(c, s) && InRange(c, t) && OneOwner(c, s) && x < c.frameCnt
    requires t.en == s.en[x := true] && Owners(s) == Owners(t) + multiset{x}
    ensures OneOwner(c, t) && !s.en[x]
  {
    hide Owners;
    assert Owners(s)[x] >= 1;
  }

  lemma SameOwners(s: State, t: State)
    requires s.framePos < |s.en| && t.framePos < |t.en|
    requires t.queue == s.queue && t.taking == s.taking && t.held == s.held && TaskOwned(t) == TaskOwned(s)
    ensures Owners(t) == Owners(s)
  {
  }

  /** Searching for a free slot and starting the DMA: nobody's slots change. */
  lemma SearchKeeps(c: Config, s: State, ok: bool)
    requires ValidConfig(c) && Inv(c, s)
    requires Searching(s.pc)
    ensures Inv(c, SearchStep(c, s, ok))
  {
    hide OneOwner, Owners, QueueLength, InRange;
    SearchInRange(c, s, ok);
    SearchControl(c, s, ok);
    SearchLeaves(c, s, ok);
    var t := SearchStep(c, s, ok);
    SameOwners(s, t);
    OwnersKept(c, s, t);
  }

  lemma SearchControl(c: Config, s: State, ok: bool)
    requires ValidConfig(c) && InRange(c, s) && Control(c, s) && Searching(s.pc)
    requires InRange(c, SearchStep(c, s, ok))
    ensures Control(c, SearchStep(c, s, ok))
  {
    hide QueueLength, InRange;
    if s.pc.Look? || s.pc.Scan? {
      SearchMoves(c, s, ok);
    }
  }

  /** Looking for a free slot, the task goes on looking or stands before a free one. */
  lemma SearchMoves(c: Config, s: State, ok: bool)
    requires ValidConfig(c) && InRange(c, s) && (s.pc.Look? || s.pc.Scan?)
    ensures var t := SearchStep(c, s, ok);
            && t == s.(pc := t.pc, framePos := t.framePos) && t.framePos < |t.en|
            && t.pc.caller == s.pc.caller
            && ((t.pc.Start? && t.en[t.framePos]) || (t.framePos == s.framePos && (t.pc.Scan? || t.pc.NotStarted?)))
  {
  }

  lemma SearchLeaves(c: Config, s: State, ok: bool)
    requires ValidConfig(c) && InRange(c, s) && Searching(s.pc) && InRange(c, SearchStep(c, s, ok))
    ensures var t := SearchStep(c, s, ok);
            && s.framePos < |s.en| && t.framePos < |t.en| && t.en == s.en
            && t.queue == s.queue && t.taking == s.taking && t.held == s.held && TaskOwned(t) == TaskOwned(s)
  {
  }

  lemma CopyKeeps(c: Config, s: State, ok: bool, amount: nat)
    requires ValidConfig(c) && Inv(c, s) && s.pc.Copy?
    ensures Inv(c, CopyStep(c, s, ok, amount))
  {
    hide OneOwner, Owners, QueueLength, FrameCopyCnt;
    var t := CopyStep(c, s, ok, amount);
    SameOwners(s, t);
    OwnersKept(c, s, t);
  }

  lemma StopKeeps(c: Config, s: State, amount: nat)
    requires ValidConfig(c) && Inv(c, s) && (s.pc.Stop? || s.pc.FinalCopy?)
    ensures Inv(c, StopStep(c, s, amount))
  {
    hide OneOwner, Owners, QueueLength;
    var t := StopStep(c, s, amount);
    SameOwners(s, t);
    OwnersKept(c, s, t);
  }

  /** While the task owns its slot, the slot is not free. */
  lemma Claimed(c: Config, s: State)
    requires InRange(c, s) && OneOwner(c, s) && s.framePos in TaskOwned(s)
    ensures !s.en[s.framePos]
  {
    hide TaskOwned;
    assert Owners(s)[s.framePos] >= multiset(TaskOwned(s))[s.framePos] >= 1;
  }

  /** One more at the end of what the task owns. */
  lemma TaskGains(s: State, t: State, x: nat)
    requires s.framePos < |s.en| && t.framePos < |t.en|
    requires t.queue == s.queue && t.taking == s.taking && t.held == s.held
    requires TaskOwned(s) == [] && TaskOwned(t) == [x]
    ensures Owners(t) == Owners(s) + multiset{x}
  {
    hide TaskOwned;
  }

  lemma ClaimKeeps(c: Config, s: State)
    requires ValidConfig(c) && Inv(c, s) && (s.pc.Claim? || s.pc.Measure?)
    ensures Inv(c, ClaimStep(c, s))
  {
    hide OneOwner, Owners, QueueLength, Bytes;
    var t := ClaimStep(c, s);
    if s.pc.Claim? {
      TaskGains(s, t, s.framePos);
      OwnerGained(c, s, t, s.framePos);
    } else {
      Claimed(c, s);
      if t.en[s.framePos] {
        TaskGains(t, s, s.framePos);
        OwnerLost(c, s, t, s.framePos);
      } else {
        SameOwners(s, t);
        OwnersKept(c, s, t);
      }
    }
  }

  lemma Popped(c: Config, s: State)
    requires InRange(c, s) && s.queue != []
    ensures multiset(s.queue) == multiset{s.queue[0]} + multiset(s.queue[1..])
    ensures forall i :: 0 <= i < |s.queue[1..]| ==> s.queue[1..][i] < c.frameCnt
  {
    assert s.queue == [s.queue[0]] + s.queue[1..];
  }

  /** From the task into the queue. */
  lemma Sent(s: State, t: State, x: nat)
    requires s.framePos < |s.en| && t.framePos < |t.en|
    requires t.queue == s.queue + [x] && t.taking == s.taking && t.held == s.held
    requires multiset(TaskOwned(s)) == multiset(TaskOwned(t)) + multiset{x}
    ensures Owners(t) == Owners(s)
  {
    hide TaskOwned;
  }

  lemma SendKeeps(c: Config, s: State)
    requires ValidConfig(c) && Inv(c, s) && s.pc.Send?
    ensures Inv(c, SendStep(c, s))
  {
    hide OneOwner, Owners, QueueLength;
    var t := SendStep(c, s);
    if !s.en[s.framePos] && |s.queue| < QueueLength(c) {
      Sent(s, t, s.framePos);
    } else {
      SameOwners(s, t);
    }
    OwnersKept(c, s, t);
  }

  lemma PopKeeps(c: Config, s: State)
    requires ValidConfig(c) && Inv(c, s) && s.pc.Pop?
    ensures Inv(c, SendStep(c, s))
  {
    hide OneOwner, Owners, QueueLength;
    var t := SendStep(c, s);
    if s.queue == [] {
      TaskGains(t, s, s.framePos);
      OwnerLost(c, s, t, s.framePos);
    } else {
      Popped(c, s);
      FromQueue(s, t);
      OwnersKept(c, s, t);
    }
  }

  lemma FromQueue(s: State, t: State)
    requires s.framePos < |s.en| && t.framePos < |t.en| && s.queue != []
    requires t.queue == s.queue[1..] && t.taking == s.taking && t.held == s.held
    requires TaskOwned(t) == TaskOwned(s) + [s.queue[0]]
    ensures Owners(t) == Owners(s)
  {
    hide TaskOwned;
    assert s.queue == [s.queue[0]] + s.queue[1..];
  }

  lemma ResendKeeps(c: Config, s: State)
    requires ValidConfig(c) && Inv(c, s) && s.pc.Resend?
    ensures Inv(c, SendStep(c, s))
  {
    hide OneOwner, Owners, QueueLength, Control, InRange, SendStep, TaskOwned;
    var t := SendStep(c, s);
    ResendEffect(c, s);
    if |s.queue| < QueueLength(c) {
      Sent(s, t, s.framePos);
      OwnersKept(c, s, t);
    } else {
      Dropped(s, t);
      OwnerLost(c, s, t, s.framePos);
    }
  }

  lemma ResendEffect(c: Config, s: State)
    requires ValidConfig(c) && InRange(c, s) && Control(c, s) && s.pc.Resend?
    ensures InRange(c, SendStep(c, s)) && Control(c, SendStep(c, s)) && s.framePos < c.frameCnt == |s.en|
    ensures var t := SendStep(c, s);
            && t.framePos == s.framePos && |t.en| == |s.en| && t.taking == s.taking && t.held == s.held
            && TaskOwned(s) == [s.framePos, s.pc.popped] && TaskOwned(t) == [s.pc.popped]
            && (if |s.queue| < QueueLength(c) then t.queue == s.queue + [s.framePos] && t.en == s.en
                else t.queue == s.queue && t.en == s.en[s.framePos := true])
  {
    hide QueueLength;
    SendInRange(c, s);
  }

  lemma Dropped(s: State, t: State)
    requires s.framePos < |s.en| && t.framePos < |t.en|
    requires t.queue == s.queue && t.taking == s.taking && t.held == s.held
    requires |TaskOwned(s)| == 2 && TaskOwned(t) == TaskOwned(s)[1..]
    ensures Owners(s) == Owners(t) + multiset{TaskOwned(s)[0]}
  {
    hide TaskOwned;
    assert TaskOwned(s) == [TaskOwned(s)[0]] + TaskOwned(s)[1..];
  }

  lemma ReleaseKeeps(c: Config, s: State)
    requires ValidConfig(c) && Inv(c, s) && s.pc.Release?
    ensures Inv(c, SendStep(c, s))
  {
    hide OneOwner, Owners, QueueLength;
    var t := SendStep(c, s);
    TaskGains(t, s, s.pc.popped);
    OwnerLost(c, s, t, s.pc.popped);
  }

  /** The task alone. */
  lemma TaskKeeps(c: Config, s: State, ok: bool, amount: nat)
    requires ValidConfig(c) && Inv(c, s)
    ensures Inv(c, TaskStep(c, s, ok, amount))
  {
    hide OneOwner, CopyStep, StopStep, ClaimStep, SendStep, SearchStep, Owners, Control, InRange;
    match s.pc
    case Copy => CopyKeeps(c, s, ok, amount);
    case Stop => StopKeeps(c, s, amount);
    case FinalCopy => StopKeeps(c, s, amount);
    case Claim => ClaimKeeps(c, s);
    case Measure => ClaimKeeps(c, s);
    case Send => SendKeeps(c, s);
    case Pop => PopKeeps(c, s);
    case Resend(_) => ResendKeeps(c, s);
    case Release(_) => ReleaseKeeps(c, s);
    case _ => SearchKeeps(c, s, ok);
  }

  // ---- the consumer ----

  lemma TakeKeeps(c: Config, s: State)
    requires ValidConfig(c) && Inv(c, s)
    ensures Inv(c, Step(c, s, Take))
  {
    hide OneOwner, Owners, QueueLength, TaskStep;
    var t := Step(c, s, Take);
    if s.taking == [] && s.queue != [] {
      Popped(c, s);
      Taken(s, t);
      OwnersKept(c, s, t);
    }
  }

  lemma Taken(s: State, t: State)
    requires s.framePos < |s.en| && t.framePos < |t.en| && s.queue != []
    requires t.queue == s.queue[1..] && s.taking == [] && t.taking == [s.queue[0]] && t.held == s.held
    requires TaskOwned(t) == TaskOwned(s)
    ensures Owners(t) == Owners(s)
  {
    hide TaskOwned;
    assert s.queue == [s.queue[0]] + s.queue[1..];
  }

  lemma KeepKeeps(c: Config, s: State, newLen: nat)
    requires ValidConfig(c) && Inv(c, s)
    ensures Inv(c, Step(c, s, Keep(newLen)))
  {
    hide OneOwner, Owners, QueueLength, TaskStep;
    var t := Step(c, s, Keep(newLen));
    if s.taking != [] {
      Kept(s, t);
      OwnersKept(c, s, t);
    }
  }

  lemma Kept(s: State, t: State)
    requires s.framePos < |s.en| && t.framePos < |t.en| && |s.taking| == 1
    requires t.queue == s.queue && t.taking == [] && t.held == s.held + [s.taking[0]]
    requires TaskOwned(t) == TaskOwned(s)
    ensures Owners(t) == Owners(s)
  {
    hide TaskOwned;
    assert s.taking == [s.taking[0]];
  }

  lemma RejectKeeps(c: Config, s: State)
    requires ValidConfig(c) && Inv(c, s)
    ensures Inv(c, Step(c, s, Reject))
  {
    hide OneOwner, Owners, QueueLength, TaskStep;
    var t := Step(c, s, Reject);
    if s.taking != [] && c.jpegMode {
      Given(c, s, t, s.taking[0]);
      OwnerLost(c, s, t, s.taking[0]);
    }
  }

  lemma GiveKeeps(c: Config, s: State, i: nat)
    requires ValidConfig(c) && Inv(c, s)
    ensures Inv(c, Step(c, s, Give(i)))
  {
    hide OneOwner, Owners, Control, TaskStep;
    var t := Step(c, s, Give(i));
    if i < |s.held| {
      MoreFree(c, s, t);
      Handed(s.held, i);
      Given(c, s, t, s.held[i]);
      OwnerLost(c, s, t, s.held[i]);
    }
  }

  /** More free slots do not change where the task may stand. */
  lemma MoreFree(c: Config, s: State, t: State)
    requires ValidConfig(c) && InRange(c, s) && InRange(c, t) && Control(c, s)
    requires t == s.(en := t.en, held := t.held)
    requires forall x :: 0 <= x < c.frameCnt && s.en[x] ==> t.en[x]
    ensures Control(c, t) && |s.taking| <= 1
  {
    hide QueueLength, FrameFree, CalledIdle, DmaStopped;
  }

  lemma Handed(held: seq<nat>, i: nat)
    requires i < |held|
    ensures multiset(held) == multiset(held[..i] + held[i + 1..]) + multiset{held[i]}
  {
    assert held == held[..i] + [held[i]] + held[i + 1..];
  }

  /** A slot the consumer owns is given back: the task does not own it. */
  lemma Given(c: Config, s: State, t: State, x: nat)
    requires InRange(c, s) && OneOwner(c, s) && |s.taking| <= 1 && x < c.frameCnt
    requires t.queue == s.queue && t.en == s.en[x := true] && t.framePos == s.framePos && t.pc == s.pc
    requires (s.taking == [x] && t.taking == [] && t.held == s.held) ||
             (t.taking == s.taking && multiset(s.held) == multiset(t.held) + multiset{x})
    ensures Owners(s) == Owners(t) + multiset{x}
  {
    hide Owners, OneOwner;
    NotTheTasks(c, s, x);
    LostByConsumer(s, t, x);
  }

  lemma LostByConsumer(s: State, t: State, x: nat)
    requires s.framePos < |s.en| && t.framePos < |t.en| && TaskOwned(t) == TaskOwned(s) && t.queue == s.queue
    requires (s.taking == [x] && t.taking == [] && t.held == s.held) ||
             (t.taking == s.taking && multiset(s.held) == multiset(t.held) + multiset{x})
    ensures Owners(s) == Owners(t) + multiset{x}
  {
    hide TaskOwned;
  }

  /** What the consumer owns the task does not. */
  lemma NotTheTasks(c: Config, s: State, x: nat)
    requires InRange(c, s) && OneOwner(c, s) && x < c.frameCnt
    requires (multiset(s.taking) + multiset(s.held))[x] >= 1
    ensures x !in TaskOwned(s)
    ensures s.pc.Send? && x == s.framePos ==> s.en[x]
  {
    assert Owners(s)[x] <= 1;
    assert multiset(TaskOwned(s))[x] == 0;
  }

  /** Every step of every party keeps the invariant. */
  lemma InvStep(c: Config, s: State, a: Action)
    requires ValidConfig(c) && Inv(c, s)
    ensures Inv(c, Step(c, s, a))
  {
    hide OneOwner, TaskStep, Owners, QueueLength;
    match a
    case Task(ok, amount) => TaskKeeps(c, s, ok, amount);
    case Take => TakeKeeps(c, s);
    case Keep(newLen) => KeepKeeps(c, s, newLen);
    case Reject => RejectKeeps(c, s);
    case Give(i) => GiveKeeps(c, s, i);
    case _ =>
      SameOwners(s, Step(c, s, a));
      OwnersKept(c, s, Step(c, s, a));
  }

  // ---- every run ----

  function Run(c: Config, s: State, actions: seq<Action>): (t: State)
    requires ValidConfig(c) && InRange(c, s)
    ensures InRange(c, t)
    decreases actions
  {
    if actions == [] then s
    else
      StepInRange(c, s, actions[0]);
      Run(c, Step(c, s, actions[0]), actions[1..])
  }

  lemma StepInRange(c: Config, s: State, a: Action)
    requires ValidConfig(c) && InRange(c, s)
    ensures InRange(c, Step(c, s, a))
  {
    hide TaskStep;
    match a
    case Task(ok, amount) => TaskInRange(c, s, ok, amount);
    case _ =>
  }

  lemma TaskInRange(c: Config, s: State, ok: bool, amount: nat)
    requires ValidConfig(c) && InRange(c, s)
    ensures InRange(c, TaskStep(c, s, ok, amount))
  {
    hide SearchStep, CopyStep, StopStep, ClaimStep, SendStep, InRange;
    SendInRange(c, s);
    SearchInRange(c, s, ok);
    CopyInRange(c, s, ok, amount);
    StopInRange(c, s, amount);
    ClaimInRange(c, s);
  }

  lemma SearchInRange(c: Config, s: State, ok: bool)
    requires ValidConfig(c) && InRange(c, s)
    ensures InRange(c, SearchStep(c, s, ok))
  {
  }

  lemma CopyInRange(c: Config, s: State, ok: bool, amount: nat)
    requires ValidConfig(c) && InRange(c, s)
    ensures InRange(c, CopyStep(c, s, ok, amount))
  {
    hide FrameCopyCnt;
  }

  lemma StopInRange(c: Config, s: State, amount: nat)
    requires ValidConfig(c) && InRange(c, s)
    ensures InRange(c, StopStep(c, s, amount))
  {
  }

  lemma ClaimInRange(c: Config, s: State)
    requires ValidConfig(c) && InRange(c, s)
    ensures InRange(c, ClaimStep(c, s))
  {
    hide Bytes;
  }

  lemma SendInRange(c: Config, s: State)
    requires ValidConfig(c) && InRange(c, s)
    ensures InRange(c, SendStep(c, s))
  {
    hide QueueLength;
  }

  lemma {:induction false} InvRun(c: Config, s: State, actions: seq<Action>)
    requires ValidConfig(c) && Inv(c, s)
    ensures Inv(c, Run(c, s, actions))
    decreases actions
  {
    hide Control, OneOwner, Step, InRange;
    if actions != [] {
      InvStep(c, s, actions[0]);
      InvRun(c, Step(c, s, actions[0]), actions[1..]);
    }
  }

  /** At every step of every run from the start a slot is not free exactly when it has an owner, and
      then just one: the queue, the consumer or the task on its way between two events. Between events
      the owners are the queue and the consumer. The slot under DMA is with neither. */
  lemma SlotsHaveOneOwner(c: Config, actions: seq<Action>, x: nat)
    requires ValidConfig(c) && x < c.frameCnt
    ensures var s := Run(c, Init(c), actions);
            && InRange(c, s)
            && Owners(s)[x] == (if s.en[x] then 0 else 1)
            && (s.pc.Receive? ==> (multiset(s.queue) + multiset(s.taking) + multiset(s.held))[x] == if s.en[x] then 0 else 1)
            && (s.dma && x == s.framePos ==> s.en[x] && x !in s.queue && x !in s.taking && x !in s.held)
  {
    var s := Run(c, Init(c), actions);
    InvInit(c);
    InvRun(c, Init(c), actions);
    assert Owners(s)[x] == if s.en[x] then 0 else 1;
    if s.dma && x == s.framePos {
      NotOwned(s, x);
    }
  }

  lemma NotOwned(s: State, x: nat)
    requires s.framePos < |s.en| && Owners(s)[x] == 0
    ensures x !in s.queue && x !in s.taking && x !in s.held
  {
    assert x in s.queue ==> multiset(s.queue)[x] > 0;
    assert x in s.taking ==> multiset(s.taking)[x] > 0;
    assert x in s.held ==> multiset(s.held)[x] > 0;
  }

  // ---- a slot to write to ----

  predicate ConsumerIdle(s: State) {
    s.taking == [] && s.held == []
  }

  lemma {:induction false} AllIn(q: seq<nat>, n: nat)
    requires forall x: nat :: x < n ==> x in q
    ensures |q| >= n
    decreases n
  {
    if n > 0 {
      assert n - 1 in q;
      var i :| 0 <= i < |q| && q[i] == n - 1;
      var rest := q[..i] + q[i + 1..];
      forall x: nat | x < n - 1
        ensures x in rest
      {
        assert x in q;
        var j :| 0 <= j < |q| && q[j] == x;
        assert rest[if j < i then j else j - 1] == x;
      }
      AllIn(rest, n - 1);
    }
  }

  /** With GRAB_LATEST, more than one slot and an idle consumer, some slot is free whenever the task
      looks for one. */
  lemma SomeSlotFree(c: Config, s: State)
    requires ValidConfig(c) && Inv(c, s) && c.grabLatest && c.frameCnt > 1
    requires ConsumerIdle(s) && TaskOwned(s) == []
    ensures exists x :: 0 <= x < c.frameCnt && s.en[x]
  {
    if forall x :: 0 <= x < c.frameCnt ==> !s.en[x] {
      forall x | 0 <= x < c.frameCnt
        ensures x in s.queue
      {
        assert Owners(s)[x] == 1;
      }
      AllIn(s.queue, c.frameCnt);
    }
  }

  /** The search has a free slot ahead of it. */
  predicate FreeAhead(c: Config, s: State)
    requires InRange(c, s)
  {
    match s.pc
    case Look(_) => exists x :: 0 <= x < c.frameCnt && s.en[x]
    case Scan(n, _) => exists x :: n <= x < c.frameCnt && s.en[x]
    case _ => false
  }

  /** Nobody can take a free slot away from the search: it goes on, or it has found one. */
  lemma SearchSucceeds(c: Config, s: State, a: Action)
    requires ValidConfig(c) && Inv(c, s) && FreeAhead(c, s)
    ensures InRange(c, Step(c, s, a))
    ensures var t := Step(c, s, a); FreeAhead(c, t) || (t.pc.Start? && t.en[t.framePos])
  {
    hide OneOwner, Control, QueueLength, TaskStep;
    StepInRange(c, s, a);
    if a.Task? {
      SearchGoesOn(c, s, a.ok, a.amount);
    } else {
      var t, n := Step(c, s, a), if s.pc.Scan? then s.pc.x else 0;
      var x :| n <= x < c.frameCnt && s.en[x];
      assert t.pc == s.pc && t.en[x];
    }
  }

  lemma SearchGoesOn(c: Config, s: State, ok: bool, amount: nat)
    requires ValidConfig(c) && InRange(c, s) && FreeAhead(c, s) && InRange(c, TaskStep(c, s, ok, amount))
    ensures var t := TaskStep(c, s, ok, amount); FreeAhead(c, t) || (t.pc.Start? && t.en[t.framePos])
  {
    hide CopyStep, StopStep, ClaimStep, SendStep;
    var n := if s.pc.Scan? then s.pc.x else 0;
    var x :| n <= x < c.frameCnt && s.en[x];
    assert TaskStep(c, s, ok, amount).en[x];
  }

  predicate Hunting(pc: Pc) {
    pc.Look? || pc.Scan?
  }

  /** As long as the search goes on it has a free slot ahead of it, and it ends at a free slot. */
  lemma {:induction false} SearchRun(c: Config, s: State, actions: seq<Action>)
    requires ValidConfig(c) && Inv(c, s) && FreeAhead(c, s)
    requires forall j :: 0 <= j < |actions| ==> Hunting(Run(c, s, actions[..j]).pc)
    ensures Inv(c, Run(c, s, actions))
    ensures var t := Run(c, s, actions); FreeAhead(c, t) || (t.pc.Start? && t.en[t.framePos])
    decreases actions
  {
    hide OneOwner, Control, FreeAhead, Step;
    InvRun(c, s, actions);
    if actions != [] {
      var a, rest := actions[0], actions[1..];
      StepInRange(c, s, a);
      SearchSucceeds(c, s, a);
      InvStep(c, s, a);
      var t := Step(c, s, a);
      if rest == [] {
        assert Run(c, t, []) == t;
      } else {
        assert actions[..1] == [a] && Run(c, s, actions[..1]) == Run(c, t, []) == t;
        assert Hunting(t.pc);
        forall j | 0 <= j < |rest|
          ensures Hunting(Run(c, t, rest[..j]).pc)
        {
          assert actions[..j + 1][0] == a && actions[..j + 1][1..] == rest[..j];
        }
        SearchRun(c, t, rest);
      }
    }
  }

  /** With GRAB_LATEST and more than one slot no search fails for want of a slot: whatever the run
      before and during the search, if the consumer is idle when the task begins to look, the scan does
      not come to its end, and what the search leads to is a start in a free slot. */
  lemma NoSearchFails(c: Config, before: seq<Action>, during: seq<Action>)
    requires ValidConfig(c) && c.grabLatest && c.frameCnt > 1
    requires var s := Run(c, Init(c), before); s.pc.Look? && ConsumerIdle(s)
    requires forall j :: 0 <= j < |during| ==> Hunting(Run(c, Run(c, Init(c), before), during[..j]).pc)
    ensures var t := Run(c, Run(c, Init(c), before), during);
            match t.pc
            case Look(_) => true
            case Scan(x, _) => x < c.frameCnt
            case Start(_) => t.en[t.framePos]
            case _ => false
  {
    hide Step, OneOwner;
    InvInit(c);
    InvRun(c, Init(c), before);
    var s := Run(c, Init(c), before);
    SomeSlotFree(c, s);
    SearchRun(c, s, during);
  }

  // ---- frame lengths ----

  /** The DMA buffers counted so far: one more may be counted when the frame ends. */
  function CountLimit(c: Config, pc: Pc): int
    requires ValidConfig(c)
  {
    FrameCopyCnt(c) - if pc.Claim? || pc.Measure? || pc.Send? || pc.Pop? || pc.Resend? || pc.Release? || SearchingAfterRead(pc) then 0 else 1
  }

  predicate SearchingAfterRead(pc: Pc) {
    match pc
    case Look(caller) => caller == FromRead
    case Scan(_, caller) => caller == FromRead
    case Start(caller) => caller == FromRead
    case Started(caller) => caller == FromRead
    case NotStarted(caller) => caller == FromRead
    case _ => false
  }

  /** No frame is longer than its buffer. */
  predicate Fits(c: Config, s: State)
    requires ValidConfig(c) && InRange(c, s)
  {
    && (forall x :: 0 <= x < c.frameCnt ==> s.len[x] <= Allocated(c))
    && (c.psramMode && c.jpegMode ==> s.cnt <= CountLimit(c, s.pc))
  }

  /** The bytes of all counted buffers fit a slot allocated with one buffer to spare. */
  lemma CountedBytesFit(c: Config, cnt: int)
    requires ValidConfig(c) && c.psramMode && cnt <= FrameCopyCnt(c)
    ensures Bytes(c, cnt) <= c.recvSize + c.dmaHalfBufferSize <= Allocated(c)
  {
    var half, whole := c.dmaHalfBufferSize, c.recvSize / c.dmaHalfBufferSize;
    assert c.recvSize == whole * half + c.recvSize % half;
    if cnt >= 0 {
      Times(cnt, whole + 1, half);
      assert (whole + 1) * half == whole * half + half;
    }
  }

  lemma Times(a: nat, b: nat, d: nat)
    requires a <= b
    ensures a * d <= b * d
  {
    assert b * d == a * d + (b - a) * d;
  }

  lemma FitsInit(c: Config)
    requires ValidConfig(c)
    ensures Fits(c, Init(c))
  {
    assert c.recvSize / c.dmaHalfBufferSize >= 0;
  }

  /** Every step of every party keeps the lengths within the buffers. */
  lemma FitsStep(c: Config, s: State, a: Action)
    requires ValidConfig(c) && InRange(c, s) && Fits(c, s)
    ensures InRange(c, Step(c, s, a)) && Fits(c, Step(c, s, a))
  {
    StepInRange(c, s, a);
    hide TaskStep, FrameCopyCnt, Bytes;
    match a
    case Task(ok, amount) => FitsTask(c, s, ok, amount);
    case _ =>
  }

  lemma FitsTask(c: Config, s: State, ok: bool, amount: nat)
    requires ValidConfig(c) && InRange(c, s) && Fits(c, s)
    ensures InRange(c, TaskStep(c, s, ok, amount)) && Fits(c, TaskStep(c, s, ok, amount))
  {
    hide SearchStep, CopyStep, StopStep, ClaimStep, SendStep, Fits, InRange;
    if s.pc.Copy? {
      FitsCopy(c, s, ok, amount);
    } else if s.pc.Stop? || s.pc.FinalCopy? {
      FitsStop(c, s, amount);
    } else if s.pc.Claim? || s.pc.Measure? {
      FitsClaim(c, s);
    } else if s.pc.Send? || s.pc.Pop? || s.pc.Resend? || s.pc.Release? {
      FitsSend(c, s);
    } else {
      FitsSearch(c, s, ok);
    }
  }

  lemma FitsCopy(c: Config, s: State, ok: bool, amount: nat)
    requires ValidConfig(c) && InRange(c, s) && Fits(c, s) && s.pc.Copy?
    ensures InRange(c, CopyStep(c, s, ok, amount)) && Fits(c, CopyStep(c, s, ok, amount))
  {
    hide FrameCopyCnt;
  }

  lemma FitsStop(c: Config, s: State, amount: nat)
    requires ValidConfig(c) && InRange(c, s) && Fits(c, s) && (s.pc.Stop? || s.pc.FinalCopy?)
    ensures InRange(c, StopStep(c, s, amount)) && Fits(c, StopStep(c, s, amount))
  {
    hide FrameCopyCnt;
  }

  lemma FitsClaim(c: Config, s: State)
    requires ValidConfig(c) && InRange(c, s) && Fits(c, s) && (s.pc.Claim? || s.pc.Measure?)
    ensures InRange(c, ClaimStep(c, s)) && Fits(c, ClaimStep(c, s))
  {
    hide FrameCopyCnt, Bytes;
    if c.psramMode && c.jpegMode {
      CountedBytesFit(c, s.cnt);
    }
  }

  lemma FitsSend(c: Config, s: State)
    requires ValidConfig(c) && InRange(c, s) && Fits(c, s)
    requires s.pc.Send? || s.pc.Pop? || s.pc.Resend? || s.pc.Release?
    ensures InRange(c, SendStep(c, s)) && Fits(c, SendStep(c, s))
  {
    hide FrameCopyCnt, QueueLength;
  }

  lemma FitsSearch(c: Config, s: State, ok: bool)
    requires ValidConfig(c) && InRange(c, s) && Fits(c, s) && Searching(s.pc)
    ensures InRange(c, SearchStep(c, s, ok)) && Fits(c, SearchStep(c, s, ok))
  {
    hide FrameCopyCnt, InRange;
    SearchInRange(c, s, ok);
    WholeBuffers(c);
    SearchLengths(c, s, ok);
  }

  /** The search empties the slot it has found and begins to count anew. */
  lemma SearchLengths(c: Config, s: State, ok: bool)
    requires ValidConfig(c) && InRange(c, s) && Searching(s.pc)
    ensures var t := SearchStep(c, s, ok);
            && |s.len| == |t.len| == c.frameCnt
            && (forall x :: 0 <= x < c.frameCnt ==> t.len[x] == s.len[x] || t.len[x] == 0)
            && (t.cnt == 0 || (t.cnt == s.cnt && SearchingAfterRead(t.pc) == SearchingAfterRead(s.pc)))
  {
  }

  lemma WholeBuffers(c: Config)
    requires ValidConfig(c)
    ensures c.psramMode ==> FrameCopyCnt(c) >= 1
  {
    assert c.recvSize / c.dmaHalfBufferSize >= 0;
  }

  /** In every run from the start no frame is ever longer than the room of its slot: without PSRAM
      never more than fb_size, with PSRAM never more than recv_size or fb_size and one DMA buffer. */
  lemma {:induction false} FramesFit(c: Config, s: State, actions: seq<Action>)
    requires ValidConfig(c) && InRange(c, s) && Fits(c, s)
    ensures InRange(c, Run(c, s, actions)) && Fits(c, Run(c, s, actions))
    decreases actions
  {
    hide Fits, Step;
    if actions != [] {
      FitsStep(c, s, actions[0]);
      FramesFit(c, Step(c, s, actions[0]), actions[1..]);
    }
  }

  lemma EveryFrameFits(c: Config, actions: seq<Action>, x: nat)
    requires ValidConfig(c) && x < c.frameCnt
    ensures var s := Run(c, Init(c), actions);
            && InRange(c, s)
            && s.len[x] <= (if c.psramMode then (if c.fbSize < c.recvSize then c.recvSize else c.fbSize) + c.dmaHalfBufferSize
                            else c.fbSize)
            && (c.psramMode && c.jpegMode ==> Bytes(c, s.cnt) <= c.recvSize + c.dmaHalfBufferSize)
  {
    FitsInit(c);
    FramesFit(c, Init(c), actions);
    var s := Run(c, Init(c), actions);
    if c.psramMode && c.jpegMode {
      CountedBytesFit(c, s.cnt);
    }
  }
}
