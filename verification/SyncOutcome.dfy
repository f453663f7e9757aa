/**
  What a synchronisation cycle comes to: where every message ends up, what is judged live, and that
  every cycle ends.
*/
module SyncOutcome {
  import opened Common
  import opened BinanceSync

  lemma StepOf(run: seq<State>, k: nat)
    requires IsRun(run) && k + 1 < |run|
    ensures Inv(run[k]) && Inv(run[k + 1]) && Next(run[k], run[k + 1])
  {
    hide Inv, Next;
    InvHolds(run, k);
    InvHolds(run, k + 1);
    assert Next(run[k], run[k + 1]);
  }

  // ---------------------------------------------------------------- judging

  // A message that is judged is dropped if the snapshot has it already, reported as a gap if it is
  // the first newer one and does not follow the snapshot, and fed in every other case.
  lemma JudgedExactly(s: State, s': State)
    requires Inv(s) && SocketNext(s, s') && s.socket.Judge?
    ensures var (n, f) := (s.socket.n, s.stream[s.socket.n]);
      && (s'.socket.Top? <==> f.last <= s.snapshotId)
      && (s'.socket.ReportGap? <==> f.last > s.snapshotId && s.lastU == 0 && f.first > s.snapshotId + 1)
      && (s'.socket == FeedLive(n) && s'.lastU == f.last <==>
            f.last > s.snapshotId && (s.lastU != 0 || f.first <= s.snapshotId + 1))
  {
    hide Increasing, Numbers, FedNumbers, LiveRun;
    var n := s.socket.n;
    if s.lastU != 0 {
      NextIsLive(s, n);
      NewerWhenLive(s, n);
    }
  }

  // Once live, what follows is newer than the snapshot.
  lemma NewerWhenLive(s: State, n: nat)
    requires Inv(s) && s.socket == Judge(n) && s.lastU != 0
    ensures n < |s.stream| && s.stream[n].last > s.snapshotId
  {
    hide Increasing, Numbers, FedNumbers, LiveRun;
    StreamOrder(s.stream, s.firstLive.value, n);
  }

  // ---------------------------------------------------------------- where the messages are

  // Message n is the one at which the gap was found.
  ghost predicate GapAt(s: State, n: nat) {
    (s.socket.ReportGap? || s.gapDetected) && n + 1 == s.next
  }

  ghost predicate Located(s: State, n: nat) {
    || Update(n) in s.buffer || Update(n) in Queue(s) || Buffered(n) in s.fed || Live(n) in s.fed
    || (n < |s.stream| && s.stream[n].last <= s.snapshotId) || GapAt(s, n)
  }

  ghost predicate AllLocated(s: State) {
    forall n: nat {:trigger Located(s, n)} :: n < Bound(s) ==> Located(s, n)
  }

  // the socket thread is on its way out
  predicate Leaving(socket: Socket) {
    socket.ReportGap? || socket.ReportError? || socket.StoreStop? || socket.PushSentinel? || socket.Finished?
  }

  lemma LeavingLocates(s: State, s': State, n: nat)
    requires SocketNext(s, s') && Leaving(s.socket) && n < Bound(s') && (n < Bound(s) ==> Located(s, n))
    ensures Located(s', n)
  {
  }

  lemma SocketLocates(s: State, s': State, n: nat)
    requires Inv(s) && SocketNext(s, s') && n < Bound(s') && (n < Bound(s) ==> Located(s, n))
    ensures Located(s', n)
  {
    if Leaving(s.socket) {
      hide *;
      LeavingLocates(s, s', n);
    } else {
      hide Increasing, Numbers, FedNumbers, LiveRun, LiveOk, Contiguous;
      if s.socket.Judge? { JudgedExactly(s, s'); }
    }
  }

  lemma MainLocates(s: State, s': State, n: nat)
    requires Inv(s) && MainNext(s, s') && n < Bound(s') && Located(s, n)
    requires s.main.StoreId? ==> s.snapshotId == 0
    ensures Located(s', n)
  {
    hide Increasing, Numbers, FedNumbers, LiveRun, LiveOk;
    if s.main.Replay? && s.main.queue != [] {
      var q := s.main.queue;
      assert forall e :: e in q ==> e == q[0] || e in q[1..];
    }
  }

  // before the snapshot is stored its id is 0
  ghost predicate NoIdYet(s: State) {
    s.main.WaitForFirst? || s.main.CheckError? || s.main.Fetch? || s.main.StoreId? ==> s.snapshotId == 0
  }

  lemma NoIdStep(s: State, s': State)
    requires NoIdYet(s) && Next(s, s')
    ensures NoIdYet(s')
  {
    hide SocketNext, MainNext, NoIdYet;
    if SocketNext(s, s') { SocketKeepsId(s, s'); } else { MainSetsId(s, s'); }
  }

  lemma SocketKeepsId(s: State, s': State)
    requires NoIdYet(s) && SocketNext(s, s')
    ensures NoIdYet(s')
  {
  }

  lemma MainSetsId(s: State, s': State)
    requires NoIdYet(s) && MainNext(s, s')
    ensures NoIdYet(s')
  {
    hide Skipped;
  }

  lemma LocatedStep(s: State, s': State, n: nat)
    requires Inv(s) && Next(s, s') && AllLocated(s) && NoIdYet(s) && n < Bound(s')
    ensures Located(s', n)
  {
    hide Inv, Located, SocketNext, MainNext, Bound;
    if n < Bound(s) { assert Located(s, n); }
    if SocketNext(s, s') {
      SocketLocates(s, s', n);
    } else {
      SameBound(s, s');
      MainLocates(s, s', n);
    }
  }

  lemma SameBound(s: State, s': State)
    requires MainNext(s, s')
    ensures Bound(s') == Bound(s)
  {
  }

  lemma AllLocatedStep(s: State, s': State)
    requires Inv(s) && Next(s, s') && AllLocated(s) && NoIdYet(s)
    ensures AllLocated(s') && NoIdYet(s')
  {
    NoIdStep(s, s');
    hide Inv, Next, Located, Bound;
    forall n: nat | n < Bound(s') ensures Located(s', n) { LocatedStep(s, s', n); }
  }

  lemma NoneYet(run: seq<State>)
    requires IsRun(run)
    ensures AllLocated(run[0]) && NoIdYet(run[0])
  {
  }

  // In every interleaving, every message that the socket thread has dealt with is in the buffer, or
  // waits for the replay, or was fed, or is older than the snapshot, or is the one at which the gap
  // was found. No message gets lost.
  lemma {:induction false} NoMessageLost(run: seq<State>, i: nat)
    requires IsRun(run) && i < |run|
    ensures AllLocated(run[i]) && NoIdYet(run[i])
  {
    if i == 0 {
      NoneYet(run);
    } else {
      hide *;
      NoMessageLost(run, i - 1);
      StepOf(run, i - 1);
      AllLocatedStep(run[i - 1], run[i]);
    }
  }

  // A message that was judged in state i, once the socket thread has turned to something else: it
  // was older than the snapshot, or has been fed, or is the one at which the gap was found.
  ghost predicate Settled(s: State, n: nat) {
    (n < |s.stream| && s.stream[n].last <= s.snapshotId) || Live(n) in s.fed || s.socket == FeedLive(n) || GapAt(s, n)
  }

  lemma SettledSocket(s: State, s': State, n: nat)
    requires Inv(s) && SocketNext(s, s') && Settled(s, n) && s.snapshotReady
    ensures Settled(s', n) && s'.snapshotReady
  {
    hide Increasing, Numbers, FedNumbers, LiveRun, LiveOk, Contiguous, MainNext;
  }

  lemma SettledMain(s: State, s': State, n: nat)
    requires Settled(s, n) && MainNext(s, s') && s.snapshotReady && (s.main.Join? || s.main.Done?)
    ensures Settled(s', n) && s'.snapshotReady
  {
  }

  lemma SettledStep(s: State, s': State, n: nat)
    requires Inv(s) && Next(s, s') && Settled(s, n) && s.snapshotReady
    ensures Settled(s', n) && s'.snapshotReady
  {
    ReadyIsOver(s);
    hide Inv, SocketNext, MainNext, Settled;
    if SocketNext(s, s') { SettledSocket(s, s', n); } else { SettledMain(s, s', n); }
  }

  lemma JudgedStep(s: State, s': State, n: nat)
    requires Inv(s) && Next(s, s') && s.socket == Judge(n) && s'.socket != Judge(n)
    ensures Settled(s', n) && s'.snapshotReady
  {
    JudgingFacts(s);
    hide Inv, SocketNext, MainNext, Settled;
    if SocketNext(s, s') {
      JudgedSocket(s, s', n);
    } else {
      SameSocketInMain(s, s');
    }
  }

  lemma JudgingFacts(s: State)
    requires Inv(s) && s.socket.Judge?
    ensures s.socket.n + 1 == s.next <= |s.stream| && s.snapshotReady
  {
  }

  lemma JudgedSocket(s: State, s': State, n: nat)
    requires Inv(s) && SocketNext(s, s') && s.socket == Judge(n) && n + 1 == s.next && s.snapshotReady
    ensures Settled(s', n) && s'.snapshotReady
  {
    JudgedExactly(s, s');
    hide Inv;
  }

  lemma SameSocketInMain(s: State, s': State)
    requires MainNext(s, s')
    ensures s'.socket == s.socket && s'.next == s.next && s'.stream == s.stream
  {
  }

  lemma {:induction false} JudgedMessages(run: seq<State>, i: nat, j: nat, n: nat)
    requires IsRun(run) && i < j < |run| && run[i].socket == Judge(n) && run[i + 1].socket != Judge(n)
    ensures Settled(run[j], n) && run[j].snapshotReady
    decreases j
  {
    hide *;
    StepOf(run, j - 1);
    if j == i + 1 {
      JudgedStep(run[i], run[j], n);
    } else {
      JudgedMessages(run, i, j - 1, n);
      SettledStep(run[j - 1], run[j], n);
    }
  }

  // ---------------------------------------------------------------- stopping early

  // The stream failed before the snapshot was asked for: there is no snapshot, and nothing is fed.
  ghost predicate FailedEarly(s: State) {
    && s.wsError && !s.snapshotReady && s.fed == []
    && (s.main.WaitForFirst? || s.main.CheckError? || s.main.Join? || s.main.Done?)
  }

  lemma {:induction false} EarlyErrorEndsCycle(run: seq<State>, k: nat, j: nat)
    requires IsRun(run) && k <= j < |run|
    requires run[k].wsError && (run[k].main.WaitForFirst? || run[k].main.CheckError?)
    ensures FailedEarly(run[j])
    decreases j
  {
    hide *;
    if j > k {
      EarlyErrorEndsCycle(run, k, j - 1);
      StepOf(run, j - 1);
      FailedStep(run[j - 1], run[j]);
    } else {
      InvHolds(run, j);
      FailsEarly(run[j]);
    }
  }

  lemma FailsEarly(s: State)
    requires Inv(s) && s.wsError && (s.main.WaitForFirst? || s.main.CheckError?)
    ensures FailedEarly(s)
  {
    hide Increasing, Numbers, FedNumbers, LiveRun, LiveOk, Contiguous;
  }

  lemma FailedStep(s: State, s': State)
    requires Inv(s) && FailedEarly(s) && Next(s, s')
    ensures FailedEarly(s')
  {
    if s.socket.FeedLive? { FeedsWhenReady(s); }
    hide Inv, Skipped;
  }

  lemma FeedsWhenReady(s: State)
    requires Inv(s) && s.socket.FeedLive?
    ensures s.snapshotReady
  {
  }

  // After a stop at most one more message is read.
  lemma {:induction false} StopIsHeeded(run: seq<State>, k: nat, j: nat)
    requires IsRun(run) && k <= j < |run| && run[k].stopped
    ensures run[j].stopped && run[j].next <= run[k].next + (if run[j].socket.Reading? then 0 else 1)
    ensures run[j].socket.Reading? ==> run[k].socket.Reading?
    ensures !run[k].socket.Reading? ==> run[j].next == run[k].next
    decreases j
  {
    hide *;
    if j > k {
      StopIsHeeded(run, k, j - 1);
      StepOf(run, j - 1);
      StoppedStep(run[j - 1], run[j]);
    }
  }

  lemma StoppedStep(s: State, s': State)
    requires Next(s, s') && s.stopped
    ensures s'.stopped && !(s'.socket.Reading? && !s.socket.Reading?)
    ensures s'.next == s.next || (s.socket.Reading? && !s'.socket.Reading? && s'.next == s.next + 1)
  {
    hide SocketNext, MainNext;
    if SocketNext(s, s') { StoppedSocket(s, s'); } else { SameSocketInMain(s, s'); StopStays(s, s'); }
  }

  lemma StoppedSocket(s: State, s': State)
    requires SocketNext(s, s') && s.stopped
    ensures s'.stopped && !(s'.socket.Reading? && !s.socket.Reading?)
    ensures s'.next == s.next || (s.socket.Reading? && !s'.socket.Reading? && s'.next == s.next + 1)
  {
  }

  lemma StopStays(s: State, s': State)
    requires MainNext(s, s') && s.stopped
    ensures s'.stopped
  {
    hide Skipped;
  }

  // How a cycle ends: the socket thread has finished, and has told everybody to stop; without a
  // snapshot there was an error of the stream, or the request failed and the socket thread was told.
  ghost predicate EndsOk(s: State) {
    && (s.main.Done? ==> s.socket.Finished?)
    && (s.socket.PushSentinel? || s.socket.Finished? ==> s.stopped)
    && ((s.main.Join? || s.main.Done?) && !s.snapshotReady ==> s.wsError || s.stopped)
  }

  lemma SocketEnds(s: State, s': State)
    requires EndsOk(s) && SocketNext(s, s')
    ensures EndsOk(s') && (s.wsError || s.socket.ReportError? ==> s'.wsError)
  {
  }

  lemma MainEnds(s: State, s': State)
    requires EndsOk(s) && MainNext(s, s')
    ensures EndsOk(s') && s'.wsError == s.wsError && s'.socket == s.socket
  {
    hide Skipped;
  }

  lemma {:induction false} CycleEndsOk(run: seq<State>, i: nat)
    requires IsRun(run) && i < |run|
    ensures EndsOk(run[i])
  {
    if i > 0 {
      hide *;
      CycleEndsOk(run, i - 1);
      StepOf(run, i - 1);
      EndsStep(run[i - 1], run[i]);
    }
  }

  lemma EndsStep(s: State, s': State)
    requires EndsOk(s) && Next(s, s')
    ensures EndsOk(s') && (s.wsError ==> s'.wsError)
    ensures s.socket.ReportError? ==> s'.socket.ReportError? || s'.wsError
  {
    hide SocketNext, MainNext, EndsOk;
    if SocketNext(s, s') { SocketEnds(s, s'); } else { MainEnds(s, s'); }
  }

  // A failure of the stream is always reported.
  lemma {:induction false} FailureIsReported(run: seq<State>, k: nat, j: nat)
    requires IsRun(run) && k <= j < |run| && run[k].socket.ReportError?
    ensures run[j].socket.ReportError? || run[j].wsError
    decreases j
  {
    hide *;
    if j > k {
      FailureIsReported(run, k, j - 1);
      StepOf(run, j - 1);
      CycleEndsOk(run, j - 1);
      EndsStep(run[j - 1], run[j]);
    }
  }

  // ---------------------------------------------------------------- every cycle ends

  function SocketRank(socket: Socket): nat {
    match socket
    case LoadReady(_) => 13
    case Push(_) => 12
    case Judge(_) => 12
    case FeedLive(_) => 11
    case Top => 10
    case Reading => 9
    case ReportGap => 4
    case ReportError => 4
    case StoreStop => 3
    case PushSentinel => 2
    case Finished => 0
  }

  ghost function MainRank(s: State): nat {
    match s.main
    case WaitForFirst => 8 + |s.buffer|
    case CheckError => 7 + |s.buffer|
    case Fetch => 6 + |s.buffer|
    case StoreId(_) => 5 + |s.buffer|
    case Drain(_) => 4 + |s.buffer|
    case Replay(_, queue) => 3 + |queue|
    case StoreReady(_) => 2
    case Join => 1
    case Done => 0
  }

  // what is left to the socket thread
  ghost function SocketLeft(s: State): int {
    10 * (|s.stream| - s.next) + SocketRank(s.socket)
  }

  // how many steps a cycle has still to take at most
  ghost function StepsLeft(s: State): int {
    2 * SocketLeft(s) + MainRank(s)
  }

  lemma StepCounts(s: State, s': State)
    requires Inv(s) && Next(s, s') && Inv(s')
    ensures 0 <= StepsLeft(s') < StepsLeft(s) && s'.stream == s.stream
  {
    ReadSoFar(s);
    ReadSoFar(s');
    hide Inv, SocketNext, MainNext, StepsLeft;
    if SocketNext(s, s') { SocketCounts(s, s'); } else { MainCounts(s, s'); }
  }

  lemma ReadSoFar(s: State)
    requires Inv(s)
    ensures s.next <= |s.stream|
  {
  }

  lemma LeavingLowers(s: State, s': State)
    requires SocketNext(s, s') && Leaving(s.socket)
    ensures SocketLeft(s') < SocketLeft(s) && s'.stream == s.stream && s'.main == s.main
    ensures |s'.buffer| == |s.buffer| || |s'.buffer| == |s.buffer| + 1
  {
  }

  lemma JudgeLowers(s: State, s': State)
    requires SocketNext(s, s') && s.socket.Judge?
    ensures SocketLeft(s') < SocketLeft(s) && s'.stream == s.stream && s'.main == s.main && s'.buffer == s.buffer
  {
  }

  lemma SocketLowers(s: State, s': State)
    requires SocketNext(s, s')
    ensures SocketLeft(s') < SocketLeft(s) && s'.stream == s.stream && s'.main == s.main
    ensures |s'.buffer| == |s.buffer| || |s'.buffer| == |s.buffer| + 1
  {
    if Leaving(s.socket) {
      hide *;
      LeavingLowers(s, s');
    } else if s.socket.Judge? {
      hide *;
      JudgeLowers(s, s');
    }
  }

  lemma SocketCounts(s: State, s': State)
    requires SocketNext(s, s') && s.next <= |s.stream| && s'.next <= |s'.stream|
    ensures 0 <= StepsLeft(s') < StepsLeft(s) && s'.stream == s.stream
  {
    RankOfBuffer(s, s');
    SocketLowers(s, s');
    hide MainRank, SocketRank, SocketNext;
  }

  lemma RankOfBuffer(s: State, s': State)
    ensures s'.main == s.main && |s'.buffer| == |s.buffer| ==> MainRank(s') == MainRank(s)
    ensures s'.main == s.main && |s'.buffer| == |s.buffer| + 1 ==> MainRank(s') <= MainRank(s) + 1
  {
  }

  lemma MainCounts(s: State, s': State)
    requires MainNext(s, s') && s.next <= |s.stream|
    ensures 0 <= StepsLeft(s') < StepsLeft(s) && s'.stream == s.stream
  {
    SameSocketInMain(s, s');
    MainLowers(s, s');
    hide MainNext, SocketRank, MainRank;
  }

  lemma MainLowers(s: State, s': State)
    requires MainNext(s, s')
    ensures MainRank(s') < MainRank(s)
  {
    hide Skipped;
  }

  // the sentinel wakes the main thread up
  ghost predicate Woken(s: State) {
    s.main.WaitForFirst? && s.socket.Finished? ==> s.buffer != []
  }

  lemma {:induction false} WokenHolds(run: seq<State>, i: nat)
    requires IsRun(run) && i < |run|
    ensures Woken(run[i])
  {
    if i > 0 {
      WokenHolds(run, i - 1);
      StepOf(run, i - 1);
      hide *;
      WokenStep(run[i - 1], run[i]);
    }
  }

  lemma WokenStep(s: State, s': State)
    requires Woken(s) && Next(s, s')
    ensures Woken(s')
  {
    hide SocketNext, MainNext, Woken;
    if SocketNext(s, s') { WokenBySocket(s, s'); } else { WokenByMain(s, s'); }
  }

  lemma WokenBySocket(s: State, s': State)
    requires Woken(s) && SocketNext(s, s')
    ensures Woken(s')
  {
  }

  lemma WokenByMain(s: State, s': State)
    requires MainNext(s, s')
    ensures Woken(s')
  {
    hide Skipped;
  }

  lemma CanStep(s: State)
    requires Inv(s) && Woken(s) && !s.main.Done?
    ensures exists s' :: Next(s, s')
  {
    if s.socket.Finished? {
      hide *;
      MainCanStep(s);
    } else {
      hide *;
      SocketCanStep(s);
    }
  }

  ghost function AfterSocket(s: State): State
    requires Pending(s).Some? ==> Pending(s).value < |s.stream|
  {
    match s.socket
    case Top => s.(socket := StoreStop)
    case Reading => s.(socket := ReportError)
    case LoadReady(n) => s.(socket := if s.snapshotReady then Judge(n) else Push(n))
    case Push(n) => s.(buffer := s.buffer + [Update(n)], socket := Top)
    case Judge(n) =>
      var f := s.stream[n];
      if f.last <= s.snapshotId then s.(socket := Top)
      else if (if s.lastU == 0 then f.first > s.snapshotId + 1 else f.first != s.lastU + 1) then s.(socket := ReportGap)
      else s.(socket := FeedLive(n), lastU := f.last, firstLive := if s.lastU == 0 then Some(n) else s.firstLive)
    case FeedLive(n) => s.(fed := s.fed + [Live(n)], socket := Top)
    case ReportGap => s.(gapDetected := true, socket := StoreStop)
    case ReportError => s.(wsError := true, socket := StoreStop)
    case StoreStop => s.(stopped := true, socket := PushSentinel)
    case PushSentinel => s.(buffer := s.buffer + [Sentinel], socket := Finished)
    case Finished => s
  }

  lemma SocketCanStep(s: State)
    requires Inv(s) && !s.socket.Finished?
    ensures exists s' :: Next(s, s')
  {
    hide Increasing, Numbers, FedNumbers, LiveRun, LiveOk, Contiguous, MainNext;
    var s' := AfterSocket(s);
    assert SocketNext(s, s');
    assert Next(s, s');
  }

  ghost function AfterMain(s: State): State {
    match s.main
    case WaitForFirst => s.(main := CheckError)
    case CheckError => s.(main := if s.wsError then Join else Fetch)
    case Fetch => s.(stopped := true, main := Join)
    case StoreId(id) => s.(snapshotId := id, main := Drain(id))
    case Drain(id) => s.(buffer := [], main := Replay(id, s.buffer))
    case Replay(id, queue) =>
      if queue == [] then s.(main := StoreReady(id))
      else if Skipped(s, id, queue[0]) then s.(main := Replay(id, queue[1..]))
      else s.(main := Replay(id, queue[1..]), fed := s.fed + [Buffered(if queue[0].Update? then queue[0].n else 0)])
    case StoreReady(_) => s.(snapshotReady := true, main := Join)
    case Join => s.(main := Done)
    case Done => s
  }

  lemma MainCanStep(s: State)
    requires Woken(s) && s.socket.Finished? && !s.main.Done?
    ensures exists s' :: Next(s, s')
  {
    hide SocketNext, Skipped;
    var s' := AfterMain(s);
    assert MainNext(s, s');
    assert Next(s, s');
  }

  lemma StepsNotNegative(s: State)
    requires Inv(s)
    ensures 0 <= StepsLeft(s)
  {
    ReadSoFar(s);
    hide Inv;
  }

  lemma StepsAtStart(run: seq<State>)
    requires IsRun(run)
    ensures StepsLeft(run[0]) == 20 * |run[0].stream| + 28
  {
  }

  // Every cycle ends: in no run do the two threads wait for each other, so that it can go on until
  // the main thread is done, and a stream of n messages allows 20 n + 28 steps at most.
  lemma {:induction false} EveryCycleEnds(run: seq<State>, i: nat)
    requires IsRun(run) && i < |run|
    ensures run[i].main.Done? || exists s' :: Next(run[i], s')
    ensures 0 <= StepsLeft(run[i]) <= 20 * |run[0].stream| + 28 - i && run[i].stream == run[0].stream
  {
    hide *;
    InvHolds(run, i);
    WokenHolds(run, i);
    if !run[i].main.Done? { CanStep(run[i]); }
    StepsNotNegative(run[i]);
    if i == 0 {
      StepsAtStart(run);
    } else {
      EveryCycleEnds(run, i - 1);
      StepOf(run, i - 1);
      StepCounts(run[i - 1], run[i]);
    }
  }

  // ---------------------------------------------------------------- a run that goes live

  // Messages (1, 1) and (2, 2), and a snapshot at 1 that has the first: the second is fed live.
  ghost function LiveStage(n: nat): State {
    if n == 0 then Going(0, [], false, 0, 0, None, Top, WaitForFirst, [])
    else if n == 1 then Going(0, [], false, 0, 0, None, Reading, WaitForFirst, [])
    else if n == 2 then Going(1, [], false, 0, 0, None, LoadReady(0), WaitForFirst, [])
    else if n == 3 then Going(1, [], false, 0, 0, None, Push(0), WaitForFirst, [])
    else if n == 4 then Going(1, [Update(0)], false, 0, 0, None, Top, WaitForFirst, [])
    else if n == 5 then Going(1, [Update(0)], false, 0, 0, None, Top, CheckError, [])
    else if n == 6 then Going(1, [Update(0)], false, 0, 0, None, Top, Fetch, [])
    else if n == 7 then Going(1, [Update(0)], false, 0, 0, None, Top, StoreId(1), [])
    else if n == 8 then Going(1, [Update(0)], false, 1, 0, None, Top, Drain(1), [])
    else if n == 9 then Going(1, [], false, 1, 0, None, Top, Replay(1, [Update(0)]), [])
    else if n == 10 then Going(1, [], false, 1, 0, None, Top, Replay(1, []), [])
    else if n == 11 then Going(1, [], false, 1, 0, None, Top, StoreReady(1), [])
    else if n == 12 then Going(1, [], true, 1, 0, None, Top, Join, [])
    else if n == 13 then Going(1, [], true, 1, 0, None, Reading, Join, [])
    else if n == 14 then Going(2, [], true, 1, 0, None, LoadReady(1), Join, [])
    else if n == 15 then Going(2, [], true, 1, 0, None, Judge(1), Join, [])
    else if n == 16 then Going(2, [], true, 1, 2, Some(1), FeedLive(1), Join, [])
    else Going(2, [], true, 1, 2, Some(1), Top, Join, [Live(1)])
  }

  ghost function Going(next: nat, buffer: seq<Entry>, ready: bool, id: nat, lastU: nat, first: Option<nat>,
                       socket: Socket, main: Main, fed: seq<Feed>): State {
    State([Frame(1, 1), Frame(2, 2)], next, buffer, ready, false, false, false, id, lastU, first, socket, main, fed)
  }

  lemma LiveSocketStage(n: nat)
    requires n < 4 || 12 <= n < 17
    ensures SocketNext(LiveStage(n), LiveStage(n + 1))
  {
    match n
    case 3 => assert [] + [Update(0)] == [Update(0)];
    case 16 => assert [] + [Live(1)] == [Live(1)];
    case _ =>
  }

  lemma LiveMainStage(n: nat)
    requires 4 <= n < 12
    ensures MainNext(LiveStage(n), LiveStage(n + 1))
  {
    match n
    case 6 => assert LiveStage(7) == LiveStage(6).(main := StoreId(1));
    case 9 =>
      assert [Update(0)][1..] == [];
      assert Skipped(LiveStage(9), 1, Update(0));
    case _ =>
  }

  lemma GoesLive()
    ensures exists run: seq<State> :: IsRun(run) && run[|run| - 1].lastU == 2 && run[|run| - 1].fed == [Live(1)]
  {
    var run := seq(18, n requires 0 <= n => LiveStage(n));
    forall n | 0 <= n < 17
      ensures Next(run[n], run[n + 1])
    {
      if 4 <= n < 12 { LiveMainStage(n); } else { LiveSocketStage(n); }
    }
    assert IsRun(run);
    assert run[|run| - 1] == LiveStage(17);
  }
}
