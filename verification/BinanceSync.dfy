/**
  One synchronisation cycle of hft_clean/binance.hpp: the socket thread reads depth updates from
  the exchange, the main thread fetches a snapshot, replays the buffered updates behind it and
  switches the socket thread to feeding live. Every load, store, push, drain or feed is one step,
  and the steps of the two threads interleave in every way.

  The exchange numbers its updates without holes; the snapshot and the moments at which either
  side fails or is told to stop are arbitrary.
*/
module BinanceSync {
  import opened Common

  // the update ids first..last of one message (U and u in the protocol)
  datatype Frame = Frame(first: nat, last: nat)

  ghost predicate Contiguous(stream: seq<Frame>) {
    && (forall i :: 0 <= i < |stream| ==> 0 < stream[i].first <= stream[i].last)
    && (forall i :: 0 <= i < |stream| - 1 ==> stream[i + 1].first == stream[i].last + 1)
  }

  // what the buffer holds: the number of a message, or the sentinel
  datatype Entry = Update(n: nat) | Sentinel

  // a message handed to the order book, and by which thread
  datatype Feed = Buffered(n: nat) | Live(n: nat)

  // where the socket thread is in ws_loop
  datatype Socket =
    | Top                    // loop condition
    | Reading
    | LoadReady(n: nat)
    | Push(n: nat)
    | Judge(n: nat)          // loads the snapshot's id and decides
    | FeedLive(n: nat)
    | ReportGap
    | ReportError
    | StoreStop
    | PushSentinel
    | Finished

  // where the main thread is in run_one_sync_cycle
  datatype Main =
    | WaitForFirst
    | CheckError
    | Fetch
    | StoreId(id: nat)
    | Drain(id: nat)
    | Replay(id: nat, queue: seq<Entry>)
    | StoreReady(id: nat)
    | Join
    | Done

  datatype State = State(
    stream: seq<Frame>,
    next: nat,               // messages read so far
    buffer: seq<Entry>,
    snapshotReady: bool,
    gapDetected: bool,
    stopped: bool,
    wsError: bool,
    snapshotId: nat,
    lastU: nat,              // last_u of ws_loop
    firstLive: Option<nat>,  // the first message accepted live
    socket: Socket,
    main: Main,
    fed: seq<Feed>)

  ghost predicate Init(s: State) {
    && Contiguous(s.stream)
    && s == State(s.stream, 0, [], false, false, false, false, 0, 0, None, Top, WaitForFirst, [])
  }

  // ---------------------------------------------------------------- the socket thread

  ghost predicate SocketNext(s: State, s': State) {
    match s.socket
    case Top => (!s.stopped && s' == s.(socket := Reading)) || s' == s.(socket := StoreStop)
    case Reading =>
      || s' == s.(socket := ReportError)
      || (s.next < |s.stream| && s' == s.(next := s.next + 1, socket := LoadReady(s.next)))
    case LoadReady(n) => s' == s.(socket := if s.snapshotReady then Judge(n) else Push(n))
    case Push(n) => s' == s.(buffer := s.buffer + [Update(n)], socket := Top)
    case Judge(n) =>
      && n < |s.stream|
      && var f := s.stream[n];
         var gap := if s.lastU == 0 then f.first > s.snapshotId + 1 else f.first != s.lastU + 1;
         s' == if f.last <= s.snapshotId then s.(socket := Top)
               else if gap then s.(socket := ReportGap)
               else s.(socket := FeedLive(n), lastU := f.last,
                       firstLive := if s.lastU == 0 then Some(n) else s.firstLive)
    case FeedLive(n) => s' == s.(fed := s.fed + [Live(n)], socket := Top)
    case ReportGap => s' == s.(gapDetected := true, socket := StoreStop)
    case ReportError => s' == s.(wsError := true, socket := StoreStop)
    case StoreStop => s' == s.(stopped := true, socket := PushSentinel)
    case PushSentinel => s' == s.(buffer := s.buffer + [Sentinel], socket := Finished)
    case Finished => false
  }

  // ---------------------------------------------------------------- the main thread

  // the entry is skipped: the sentinel, or an update the snapshot has already
  ghost predicate Skipped(s: State, id: nat, e: Entry) {
    match e
    case Sentinel => true
    case Update(n) => n < |s.stream| && s.stream[n].last <= id
  }

  ghost predicate MainNext(s: State, s': State) {
    match s.main
    case WaitForFirst => s.buffer != [] && s' == s.(main := CheckError)
    case CheckError => s' == s.(main := if s.wsError then Join else Fetch)
    case Fetch => s' == s.(stopped := true, main := Join) || exists id :: s' == s.(main := StoreId(id))
    case StoreId(id) => s' == s.(snapshotId := id, main := Drain(id))
    case Drain(id) => s' == s.(buffer := [], main := Replay(id, s.buffer))
    case Replay(id, queue) =>
      s' == if queue == [] then s.(main := StoreReady(id))
            else if Skipped(s, id, queue[0]) then s.(main := Replay(id, queue[1..]))
            else s.(main := Replay(id, queue[1..]),
              fed := s.fed + [Buffered(if queue[0].Update? then queue[0].n else 0)])
    case StoreReady(_) => s' == s.(snapshotReady := true, main := Join)
    case Join => s.socket == Finished && s' == s.(main := Done)
    case Done => false
  }

  ghost predicate Next(s: State, s': State) {
    SocketNext(s, s') || MainNext(s, s')
  }

  // ---------------------------------------------------------------- invariant

  // the message the socket thread is busy with
  ghost function Pending(s: State): Option<nat> {
    match s.socket
    case LoadReady(n) => Some(n)
    case Push(n) => Some(n)
    case Judge(n) => Some(n)
    case FeedLive(n) => Some(n)
    case _ => None
  }

  ghost predicate Increasing(ns: seq<nat>, bound: nat) {
    && (forall i, j :: 0 <= i < j < |ns| ==> ns[i] < ns[j])
    && (forall i :: 0 <= i < |ns| ==> ns[i] < bound)
  }

  ghost function Numbers(es: seq<Entry>): seq<nat> {
    if es == [] then [] else Numbers(es[..|es| - 1]) + if es[|es| - 1].Update? then [es[|es| - 1].n] else []
  }

  ghost function FedNumbers(fs: seq<Feed>): (r: seq<nat>)
    ensures |r| == |fs| && forall i :: 0 <= i < |r| ==> r[i] == fs[i].n
  {
    seq(|fs|, i requires 0 <= i < |fs| => fs[i].n)
  }

  // no message from here on has been handled
  ghost function Bound(s: State): nat {
    if Pending(s).Some? then Pending(s).value else s.next
  }

  ghost function Queue(s: State): seq<Entry> {
    if s.main.Replay? then s.main.queue else []
  }

  // the live run: messages from..to-1
  ghost function LiveRun(from: nat, to: nat): (r: seq<Feed>)
    ensures |r| == (if from <= to then to - from else 0) && forall i :: 0 <= i < |r| ==> r[i] == Live(from + i)
  {
    seq(if from <= to then to - from else 0, i requires 0 <= i => Live(from + i))
  }

  ghost predicate AllBuffered(s: State) {
    forall i {:trigger s.fed[i]} :: 0 <= i < |s.fed| ==>
      s.fed[i].Buffered? && s.fed[i].n < |s.stream| && s.stream[s.fed[i].n].last > s.snapshotId
  }

  ghost predicate LiveOk(s: State) {
    if s.lastU == 0 then s.firstLive == None && AllBuffered(s) && !s.socket.FeedLive?
    else
      && s.firstLive.Some? && s.firstLive.value < s.next <= |s.stream|
      && var (from, to) := (s.firstLive.value, Bound(s));
         && from <= to && s.fed == LiveRun(from, to)
         && s.stream[from].first <= s.snapshotId + 1 <= s.stream[from].last
         && (if s.socket.FeedLive? then to < |s.stream| && s.lastU == s.stream[to].last
             else from < to <= |s.stream| && s.lastU == s.stream[to - 1].last)
  }

  ghost predicate Inv(s: State) {
    && Contiguous(s.stream) && s.next <= |s.stream|
    && (Pending(s).Some? ==> Pending(s).value + 1 == s.next)
    && Increasing(FedNumbers(s.fed), Bound(s))
    // nothing is fed before the buffer is replayed, and nothing live before it is done
    && (s.snapshotReady ==> s.main.Join? || s.main.Done?)
    && (s.socket.Judge? || s.socket.FeedLive? || s.socket.ReportGap? || s.lastU != 0 || s.gapDetected ==>
      s.snapshotReady)
    && (s.main.WaitForFirst? || s.main.CheckError? || s.main.Fetch? || s.main.StoreId? || s.main.Drain? ==> s.fed == [])
    && (s.main.Drain? ==> s.snapshotId == s.main.id)
    && (s.main.Replay? || s.main.StoreReady? ==> s.snapshotId == s.main.id && s.lastU == 0)
    // what waits to be replayed comes behind what was
    && (!s.snapshotReady ==> Increasing(FedNumbers(s.fed) + Numbers(Queue(s)) + Numbers(s.buffer), Bound(s)))
    && ((s.gapDetected || s.socket.ReportGap?) ==> s.lastU == 0)
    && (s.gapDetected ==> s.socket.StoreStop? || s.socket.PushSentinel? || s.socket.Finished?)
    && (s.lastU != 0 ==> !s.socket.Push?)
    && LiveOk(s)
  }

  // ---------------------------------------------------------------- small facts

  lemma {:induction false} StreamOrder(stream: seq<Frame>, i: nat, j: nat)
    requires Contiguous(stream) && i < j < |stream|
    ensures stream[i].last < stream[j].first
    decreases j
  {
    assert stream[j - 1 + 1].first == stream[j - 1].last + 1;
    if i < j - 1 { StreamOrder(stream, i, j - 1); }
  }

  lemma {:induction false} NumbersConcat(a: seq<Entry>, b: seq<Entry>)
    ensures Numbers(a + b) == Numbers(a) + Numbers(b)
  {
    if b == [] {
      assert a + b == a;
    } else {
      assert (a + b)[..|a + b| - 1] == a + b[..|b| - 1];
      NumbersConcat(a, b[..|b| - 1]);
    }
  }

  lemma NumbersOne(e: Entry)
    ensures Numbers([e]) == if e.Update? then [e.n] else []
  {
    assert [e][..0] == [];
  }

  lemma IncreasingPart(a: seq<nat>, b: seq<nat>, c: seq<nat>, bound: nat)
    requires Increasing(a + b + c, bound)
    ensures Increasing(a, bound) && Increasing(a + c, bound)
  {
    var all := a + b + c;
    forall i | 0 <= i < |a + c|
      ensures (a + c)[i] == all[if i < |a| then i else i + |b|]
    {
    }
    forall i | 0 <= i < |a| ensures a[i] == all[i] { }
  }

  lemma IncreasingAppend(a: seq<nat>, n: nat, bound: nat)
    requires Increasing(a, n) && n < bound
    ensures Increasing(a + [n], bound)
  {
  }

  lemma IncreasingWider(a: seq<nat>, n: nat, bound: nat)
    requires Increasing(a, n) && n <= bound
    ensures Increasing(a, bound)
  {
  }

  // ---------------------------------------------------------------- the socket thread's steps

  lemma SocketKeeps(s: State, s': State)
    requires Inv(s) && SocketNext(s, s')
    ensures Inv(s')
  {
    match s.socket
    case Push(n) => PushKeeps(s, s');
    case PushSentinel => SentinelKeeps(s, s');
    case Judge(n) => JudgeKeeps(s, s');
    case FeedLive(n) => FeedLiveKeeps(s, s');
    case Top => ReadingKeeps(s, s');
    case Reading => ReadingKeeps(s, s');
    case LoadReady(_) => ReadingKeeps(s, s');
    case _ => StoppingKeeps(s, s');
  }

  lemma SameLive(s: State, s': State)
    requires LiveOk(s) && !s.socket.FeedLive? && !s'.socket.FeedLive? && Bound(s') == Bound(s)
    requires s'.stream == s.stream && s'.fed == s.fed && s'.lastU == s.lastU && s'.firstLive == s.firstLive
    requires s'.snapshotId == s.snapshotId && s.next <= s'.next <= |s.stream|
    ensures LiveOk(s')
  {
  }

  lemma ReadingKeeps(s: State, s': State)
    requires Inv(s) && SocketNext(s, s') && (s.socket.Top? || s.socket.Reading? || s.socket.LoadReady?)
    ensures Inv(s')
  {
    hide Increasing, Numbers, FedNumbers, Contiguous, LiveRun, LiveOk;
    assert Bound(s') == Bound(s);
    SameLive(s, s');
  }

  lemma StoppingKeeps(s: State, s': State)
    requires Inv(s) && SocketNext(s, s') && (s.socket.ReportGap? || s.socket.ReportError? || s.socket.StoreStop?)
    ensures Inv(s')
  {
    hide Increasing, Numbers, FedNumbers, Contiguous, LiveRun;
    assert Bound(s') == Bound(s);
  }

  lemma PushKeeps(s: State, s': State)
    requires Inv(s) && SocketNext(s, s') && s.socket.Push?
    ensures Inv(s')
  {
    hide Increasing, Numbers, FedNumbers, Contiguous, LiveRun;
    var n := s.socket.n;
    NumbersConcat(s.buffer, [Update(n)]);
    NumbersOne(Update(n));
    IncreasingWider(FedNumbers(s.fed), n, n + 1);
    if !s.snapshotReady {
      var all := FedNumbers(s.fed) + Numbers(Queue(s)) + Numbers(s.buffer);
      IncreasingAppend(all, n, n + 1);
      assert FedNumbers(s.fed) + Numbers(Queue(s)) + Numbers(s'.buffer) == all + [n];
    }
  }

  lemma SentinelKeeps(s: State, s': State)
    requires Inv(s) && SocketNext(s, s') && s.socket.PushSentinel?
    ensures Inv(s')
  {
    hide Increasing, Numbers, FedNumbers, Contiguous, LiveRun;
    NumbersConcat(s.buffer, [Sentinel]);
    NumbersOne(Sentinel);
    assert Numbers(s.buffer) + [] == Numbers(s.buffer);
  }

  // The first message accepted live finds nothing replayed behind the snapshot.
  lemma NothingReplayed(s: State, n: nat)
    requires Inv(s) && s.socket == Judge(n) && s.lastU == 0 && n < |s.stream| && s.stream[n].first <= s.snapshotId + 1
    ensures s.fed == []
  {
    if s.fed != [] {
      assert FedNumbers(s.fed)[0] == s.fed[0].n;
      ReplayedIsBehind(s, n, 0);
    }
  }

  lemma ReplayedIsBehind(s: State, n: nat, i: nat)
    requires Inv(s) && s.socket == Judge(n) && s.lastU == 0 && n < |s.stream| && i < |s.fed|
    ensures s.snapshotId + 1 < s.stream[n].first
  {
    assert s.fed[i].Buffered?;
    assert FedNumbers(s.fed)[i] == s.fed[i].n;
    StreamOrder(s.stream, s.fed[i].n, n);
  }

  lemma JudgeKeeps(s: State, s': State)
    requires Inv(s) && SocketNext(s, s') && s.socket.Judge?
    ensures Inv(s')
  {
    hide Increasing, Numbers, FedNumbers, Contiguous;
    var n := s.socket.n;
    IncreasingWider(FedNumbers(s.fed), n, n + 1);
    if s.lastU != 0 {
      NextIsLive(s, n);
    } else if s'.socket.FeedLive? {
      NothingReplayed(s, n);
      assert LiveRun(n, n) == [];
    }
  }

  // Behind a live message comes the next one: no gap and nothing to skip.
  lemma NextIsLive(s: State, n: nat)
    requires Inv(s) && s.socket == Judge(n) && s.lastU != 0
    ensures n < |s.stream| && s.stream[n].first == s.lastU + 1 && s.stream[n].last > s.snapshotId
  {
    assert s.stream[n - 1 + 1].first == s.stream[n - 1].last + 1;
    StreamOrder(s.stream, s.firstLive.value, n);
  }

  lemma FeedLiveKeeps(s: State, s': State)
    requires Inv(s) && SocketNext(s, s') && s.socket.FeedLive?
    ensures Inv(s')
  {
    var (from, n) := (s.firstLive.value, s.socket.n);
    assert LiveRun(from, n + 1) == LiveRun(from, n) + [Live(n)];
    assert FedNumbers(s'.fed) == FedNumbers(s.fed) + [n];
    IncreasingAppend(FedNumbers(s.fed), n, n + 1);
  }

  // ---------------------------------------------------------------- the main thread's steps

  lemma MainKeeps(s: State, s': State)
    requires Inv(s) && MainNext(s, s')
    ensures Inv(s')
  {
    match s.main
    case Drain(id) => DrainKeeps(s, s');
    case Replay(id, queue) => ReplayKeeps(s, s');
    case _ => PlainMainKeeps(s, s');
  }

  lemma PlainMainKeeps(s: State, s': State)
    requires Inv(s) && MainNext(s, s') && !s.main.Drain? && !s.main.Replay?
    ensures Inv(s')
  {
    hide Inv, MainNext;
    if s.main.StoreId? {
      StoreIdKeeps(s, s');
    } else if s.main.StoreReady? || s.main.Join? || s.main.Done? {
      ReadyKeeps(s, s');
    } else {
      FetchKeeps(s, s');
    }
  }

  lemma StoreIdKeeps(s: State, s': State)
    requires Inv(s) && MainNext(s, s') && s.main.StoreId?
    ensures Inv(s')
  {
    hide Increasing, Numbers, FedNumbers, Contiguous, LiveRun;
  }

  lemma ReadyKeeps(s: State, s': State)
    requires Inv(s) && MainNext(s, s') && (s.main.StoreReady? || s.main.Join? || s.main.Done?)
    ensures Inv(s')
  {
    hide Increasing, Numbers, FedNumbers, Contiguous, LiveRun;
  }

  lemma FetchKeeps(s: State, s': State)
    requires Inv(s) && MainNext(s, s') && (s.main.WaitForFirst? || s.main.CheckError? || s.main.Fetch?)
    ensures Inv(s')
  {
    hide Increasing, Numbers, FedNumbers, Contiguous, LiveRun;
  }

  lemma DrainKeeps(s: State, s': State)
    requires Inv(s) && MainNext(s, s') && s.main.Drain?
    ensures Inv(s')
  {
    assert FedNumbers(s.fed) + Numbers(Queue(s)) + Numbers(s.buffer)
      == FedNumbers(s'.fed) + Numbers(Queue(s')) + Numbers(s'.buffer);
  }

  // the first entry of the queue moves on
  lemma QueueStep(s: State, queue: seq<Entry>)
    requires queue != []
    ensures FedNumbers(s.fed) + Numbers(queue) + Numbers(s.buffer)
      == FedNumbers(s.fed) + (if queue[0].Update? then [queue[0].n] else []) + (Numbers(queue[1..]) + Numbers(s.buffer))
  {
    hide Numbers, FedNumbers;
    assert queue == [queue[0]] + queue[1..];
    NumbersConcat([queue[0]], queue[1..]);
    NumbersOne(queue[0]);
  }

  lemma SkipKeeps(s: State, s': State)
    requires Inv(s) && MainNext(s, s') && s.main.Replay?
    requires s.main.queue != [] && Skipped(s, s.main.id, s.main.queue[0])
    ensures Inv(s')
  {
    hide Increasing, Numbers, FedNumbers, Contiguous, LiveRun;
    var queue := s.main.queue;
    QueueStep(s, queue);
    var (a, c) := (FedNumbers(s.fed), Numbers(queue[1..]) + Numbers(s.buffer));
    IncreasingPart(a, if queue[0].Update? then [queue[0].n] else [], c, Bound(s));
    assert a + c == a + Numbers(Queue(s')) + Numbers(s'.buffer);
  }

  lemma FeedBufferedKeeps(s: State, s': State)
    requires Inv(s) && MainNext(s, s') && s.main.Replay?
    requires s.main.queue != [] && !Skipped(s, s.main.id, s.main.queue[0])
    ensures Inv(s')
  {
    hide Increasing, Numbers, Contiguous, LiveRun;
    var queue := s.main.queue;
    var n := queue[0].n;
    QueueStep(s, queue);
    var (a, c) := (FedNumbers(s.fed), Numbers(queue[1..]) + Numbers(s.buffer));
    FirstOfRest(a, n, c, Bound(s));
    assert FedNumbers(s'.fed) == a + [n];
    assert a + [n] + c == FedNumbers(s'.fed) + Numbers(Queue(s')) + Numbers(s'.buffer);
  }

  lemma FirstOfRest(a: seq<nat>, n: nat, c: seq<nat>, bound: nat)
    requires Increasing(a + [n] + c, bound)
    ensures n < bound && Increasing(a + [n], bound)
  {
    assert (a + [n] + c)[|a|] == n;
    assert a + [n] + [] + c == a + [n] + c;
    IncreasingPart(a + [n], [], c, bound);
  }

  lemma ReplayKeeps(s: State, s': State)
    requires Inv(s) && MainNext(s, s') && s.main.Replay?
    ensures Inv(s')
  {
    hide Inv, Skipped;
    if s.main.queue == [] {
      ReplayEnds(s, s');
    } else if Skipped(s, s.main.id, s.main.queue[0]) {
      SkipKeeps(s, s');
    } else {
      FeedBufferedKeeps(s, s');
    }
  }

  lemma ReplayEnds(s: State, s': State)
    requires Inv(s) && MainNext(s, s') && s.main.Replay? && s.main.queue == []
    ensures Inv(s')
  {
    hide Increasing, FedNumbers, Contiguous, LiveRun;
  }

  // ---------------------------------------------------------------- every run

  lemma InitOk(s: State)
    requires Init(s)
    ensures Inv(s)
  {
  }

  lemma InvNext(s: State, s': State)
    requires Inv(s) && Next(s, s')
    ensures Inv(s')
  {
    hide Inv, SocketNext, MainNext;
    if SocketNext(s, s') { SocketKeeps(s, s'); } else { MainKeeps(s, s'); }
  }

  ghost predicate IsRun(run: seq<State>) {
    && run != [] && Init(run[0])
    && forall i :: 0 <= i < |run| - 1 ==> Next(run[i], run[i + 1])
  }

  lemma {:induction false} InvHolds(run: seq<State>, i: nat)
    requires IsRun(run) && i < |run|
    ensures Inv(run[i])
  {
    hide Inv, Next, Init;
    if i == 0 {
      InitOk(run[0]);
    } else {
      InvHolds(run, i - 1);
      assert Next(run[i - 1], run[i - 1 + 1]);
      InvNext(run[i - 1], run[i]);
    }
  }

  // the main thread's next step hands a message to the book
  ghost predicate MainFeeds(s: State) {
    s.main.Replay? && s.main.queue != [] && !Skipped(s, s.main.id, s.main.queue[0])
  }

  // In every state of every run: messages have been fed in the order of the stream, none twice,
  // and the two threads are not feeding at the same time.
  lemma FedInStreamOrder(run: seq<State>, i: nat)
    requires IsRun(run) && i < |run|
    ensures forall a, b :: 0 <= a < b < |run[i].fed| ==> run[i].fed[a].n < run[i].fed[b].n
    ensures !(run[i].socket.FeedLive? && MainFeeds(run[i]))
  {
    InvHolds(run, i);
    var s := run[i];
    forall a, b | 0 <= a < b < |s.fed|
      ensures s.fed[a].n < s.fed[b].n
    {
      assert FedNumbers(s.fed)[a] < FedNumbers(s.fed)[b];
    }
  }

  lemma {:induction false} CoveredBy(stream: seq<Frame>, from: nat, end: nat, id: nat) returns (k: nat)
    requires Contiguous(stream) && from < end <= |stream| && stream[from].first <= id <= stream[end - 1].last
    ensures from <= k < end && stream[k].first <= id <= stream[k].last
    decreases end
  {
    k := end - 1;
    if id < stream[k].first {
      assert stream[end - 2 + 1].first == stream[end - 2].last + 1;
      k := CoveredBy(stream, from, end - 1, id);
    }
  }

  // update id is part of a message that was fed live
  ghost predicate FedLive(s: State, id: nat) {
    exists k {:trigger s.stream[k]} :: 0 <= k < |s.stream| && Live(k) in s.fed
      && s.stream[k].first <= id <= s.stream[k].last
  }

  // Once live, every update from the snapshot on has been fed live, up to the last message.
  lemma LiveWithoutHole(run: seq<State>, i: nat, id: nat)
    requires IsRun(run) && i < |run|
    requires var s := run[i]; s.lastU != 0 && !s.socket.FeedLive? && s.snapshotId + 1 <= id <= s.lastU
    ensures FedLive(run[i], id)
  {
    InvHolds(run, i);
    var s := run[i];
    var (from, to) := (s.firstLive.value, Bound(s));
    var k := CoveredBy(s.stream, from, to, id);
    assert s.fed[k - from] == Live(k);
  }

  // Once live, nothing was replayed from the buffer, and the messages before the first live one,
  // also those that were pushed too late to be replayed, are older than the snapshot.
  lemma NothingMissedOnceLive(run: seq<State>, i: nat, n: nat)
    requires IsRun(run) && i < |run|
    requires var s := run[i]; s.firstLive.Some? && n < s.firstLive.value
    ensures n < |run[i].stream| && run[i].stream[n].last <= run[i].snapshotId
    ensures forall a :: 0 <= a < |run[i].fed| ==> run[i].fed[a].Live?
  {
    InvHolds(run, i);
    StreamOrder(run[i].stream, n, run[i].firstLive.value);
  }

  // A cycle that replays anything from its buffer never goes live: the first message that would
  // be live does not follow the snapshot, and the cycle ends with a gap.
  lemma ReplayNeverGoesLive(run: seq<State>, i: nat)
    requires IsRun(run) && i < |run|
    requires exists a {:trigger run[i].fed[a]} :: 0 <= a < |run[i].fed| && run[i].fed[a].Buffered?
    ensures run[i].lastU == 0 && forall a :: 0 <= a < |run[i].fed| ==> run[i].fed[a].Buffered?
    ensures var s := run[i]; s.socket.Judge? ==>
      s.socket.n < |s.stream| && s.stream[s.socket.n].first > s.snapshotId + 1
  {
    InvHolds(run, i);
    var s := run[i];
    if s.socket.Judge? { NothingReplayedOrGap(s); }
  }

  lemma NothingReplayedOrGap(s: State)
    requires Inv(s) && s.socket.Judge? && s.lastU == 0
    ensures s.socket.n < |s.stream| && (s.fed != [] ==> s.stream[s.socket.n].first > s.snapshotId + 1)
  {
    if s.fed != [] { ReplayedIsBehind(s, s.socket.n, 0); }
  }

  // A gap is reported at the first message judged to be past the snapshot or not at all, and there
  // exactly when it does not begin right behind the snapshot: when the message before it is past
  // the snapshot too. That one may have been replayed, see SpuriousGapExactly.
  lemma GapExactly(s: State, s': State)
    requires Inv(s) && SocketNext(s, s') && s.socket.Judge? && s.stream[s.socket.n].last > s.snapshotId
    ensures s'.socket.ReportGap? <==> s.lastU == 0 && s.stream[s.socket.n].first > s.snapshotId + 1
    ensures s.lastU == 0 && s.socket.n > 0 ==>
      (s'.socket.ReportGap? <==> s.stream[s.socket.n - 1].last > s.snapshotId)
  {
    var n := s.socket.n;
    if s.lastU != 0 { NextIsLive(s, n); }
    if n > 0 { assert s.stream[n - 1 + 1].first == s.stream[n - 1].last + 1; }
  }

  // ---------------------------------------------------------------- what the buffer holds

  // the numbers of the messages that wait to be replayed
  ghost function Waiting(s: State): seq<nat> {
    Numbers(Queue(s)) + Numbers(s.buffer)
  }

  // The messages before the first one that waits.
  ghost function Handled(s: State): int {
    Bound(s) - |Waiting(s)|
  }

  // every message before end that is newer than the snapshot has been replayed
  ghost predicate ReplayedUpTo(s: State, end: int) {
    forall j {:trigger s.stream[j]} :: 0 <= j < end && j < |s.stream| && s.stream[j].last > s.snapshotId ==>
      Buffered(j) in s.fed
  }

  // Until live messages are judged, the messages that wait are the last ones read, without a hole,
  // and the newer ones of those before have been replayed.
  ghost predicate BufferOk(s: State) {
    && (!s.snapshotReady ==>
          && Handled(s) >= 0 && (forall i {:trigger Waiting(s)[i]} :: 0 <= i < |Waiting(s)| ==>
            Waiting(s)[i] == Handled(s) + i)
          && (if s.main.Replay? || s.main.StoreReady? then ReplayedUpTo(s, Handled(s)) else Handled(s) == 0))
    && (forall k: nat {:trigger Buffered(k)} :: Buffered(k) in s.fed ==> ReplayedUpTo(s, k))
  }

  lemma BufferStart(s: State)
    requires Init(s)
    ensures BufferOk(s)
  {
  }

  lemma ReadyBuffer(s: State, s': State)
    requires BufferOk(s) && s'.snapshotReady && s'.stream == s.stream && s'.snapshotId == s.snapshotId
    requires s'.fed == s.fed || exists n :: s'.fed == s.fed + [Live(n)]
    ensures BufferOk(s')
  {
    forall k: nat | Buffered(k) in s'.fed
      ensures ReplayedUpTo(s', k)
    {
      assert Buffered(k) in s.fed && ReplayedUpTo(s, k);
    }
  }

  // A step that leaves alone what waits and what was fed.
  lemma SameWaiting(s: State, s': State)
    requires BufferOk(s) && !s.snapshotReady && !s'.snapshotReady
    requires s'.stream == s.stream && Bound(s') == Bound(s) && Waiting(s') == Waiting(s) && s'.fed == s.fed
    requires s'.main.Replay? || s'.main.StoreReady? ==> Handled(s) == 0 || s.main.Replay? || s.main.StoreReady?
    requires s.main.Replay? || s.main.StoreReady? ==> s'.main.Replay? || s'.main.StoreReady?
    requires s'.snapshotId == s.snapshotId || (s.fed == [] && Handled(s) == 0)
    ensures BufferOk(s')
  {
    forall k: nat | Buffered(k) in s'.fed
      ensures ReplayedUpTo(s', k)
    {
      assert Buffered(k) in s.fed && ReplayedUpTo(s, k);
    }
  }

  lemma PushBuffer(s: State, s': State)
    requires Inv(s) && BufferOk(s) && SocketNext(s, s') && s.socket.Push? && !s.snapshotReady
    ensures BufferOk(s')
  {
    hide Increasing, FedNumbers, Contiguous, LiveRun, LiveOk, Numbers;
    var n := s.socket.n;
    NumbersConcat(s.buffer, [Update(n)]);
    NumbersOne(Update(n));
    assert Waiting(s') == Waiting(s) + [n];
    forall k: nat | Buffered(k) in s'.fed
      ensures ReplayedUpTo(s', k)
    {
      assert Buffered(k) in s.fed && ReplayedUpTo(s, k);
    }
  }

  lemma SocketBuffer(s: State, s': State)
    requires Inv(s) && BufferOk(s) && SocketNext(s, s') && !s.snapshotReady
    ensures BufferOk(s')
  {
    hide Increasing, FedNumbers, Contiguous, LiveRun, LiveOk, Numbers, BufferOk;
    if s.socket.Push? {
      PushBuffer(s, s');
    } else {
      if s.socket.PushSentinel? {
        NumbersConcat(s.buffer, [Sentinel]);
        NumbersOne(Sentinel);
        assert Numbers(s.buffer) + [] == Numbers(s.buffer);
      }
      SameWaiting(s, s');
    }
  }

  // The first entry of the queue is passed over or fed.
  lemma ReplayBuffer(s: State, s': State)
    requires Inv(s) && BufferOk(s) && MainNext(s, s') && !s.snapshotReady && s.main.Replay? && s.main.queue != []
    ensures BufferOk(s')
  {
    hide Increasing, FedNumbers, Contiguous, LiveRun, LiveOk, Numbers;
    var (e, rest) := (s.main.queue[0], Numbers(s.main.queue[1..]));
    assert s.main.queue == [e] + s.main.queue[1..];
    NumbersConcat([e], s.main.queue[1..]);
    NumbersOne(e);
    if e.Sentinel? {
      assert [] + rest == rest;
      assert Waiting(s') == Waiting(s);
      SameWaiting(s, s');
    } else {
      assert Waiting(s) == [e.n] + Waiting(s');
      assert Waiting(s)[0] == e.n == Handled(s);
      assert forall i :: 0 <= i < |Waiting(s')| ==> Waiting(s')[i] == Waiting(s)[i + 1];
      FedOne(s, s', e.n);
    }
  }

  lemma FedOne(s: State, s': State, n: nat)
    requires BufferOk(s) && !s.snapshotReady && !s'.snapshotReady && s.main.Replay? && s'.main.Replay?
    requires s'.stream == s.stream && s'.snapshotId == s.snapshotId && Bound(s') == Bound(s)
    requires Handled(s) == n && Handled(s') == n + 1 && n < |s.stream|
    requires forall i :: 0 <= i < |Waiting(s')| ==> Waiting(s')[i] == n + 1 + i
    requires s'.fed == s.fed + [Buffered(n)] || (s'.fed == s.fed && s.stream[n].last <= s.snapshotId)
    ensures BufferOk(s')
  {
    hide Waiting, Bound;
    assert ReplayedUpTo(s, n);
    forall k: nat | Buffered(k) in s'.fed
      ensures ReplayedUpTo(s', k)
    {
      assert Buffered(k) in s.fed ==> ReplayedUpTo(s, k);
    }
  }

  lemma MainBuffer(s: State, s': State)
    requires Inv(s) && BufferOk(s) && MainNext(s, s') && !s.snapshotReady
    ensures BufferOk(s')
  {
    hide Increasing, FedNumbers, Contiguous, LiveRun, LiveOk, Numbers, BufferOk;
    SameSocket(s, s');
    match s.main
    case Replay(_, queue) =>
      if queue != [] { ReplayBuffer(s, s'); } else { EmptyQueue(s, s'); }
    case StoreReady(_) => ReadyBuffer(s, s');
    case Drain(_) => DrainBuffer(s, s');
    case _ =>
      BeforeReplay(s);
      SameWaiting(s, s');
  }

  lemma SameSocket(s: State, s': State)
    requires s'.socket == s.socket && s'.next == s.next
    ensures Bound(s') == Bound(s)
  {
  }

  lemma BeforeReplay(s: State)
    requires BufferOk(s) && !s.snapshotReady && !s.main.Replay? && !s.main.StoreReady?
    ensures Handled(s) == 0
  {
  }

  lemma EmptyQueue(s: State, s': State)
    requires Inv(s) && BufferOk(s) && MainNext(s, s') && !s.snapshotReady && s.main.Replay? && s.main.queue == []
    ensures BufferOk(s')
  {
    hide Inv, Numbers, BufferOk;
    SameSocket(s, s');
    SameWaiting(s, s');
  }

  lemma DrainBuffer(s: State, s': State)
    requires Inv(s) && BufferOk(s) && MainNext(s, s') && !s.snapshotReady && s.main.Drain?
    ensures BufferOk(s')
  {
    hide Inv, BufferOk;
    BeforeReplay(s);
    SameSocket(s, s');
    assert Numbers([]) == [] && [] + Numbers(s.buffer) == Numbers(s.buffer) + [];
    SameWaiting(s, s');
  }

  lemma ReadySocket(s: State, s': State)
    requires SocketNext(s, s') && s.snapshotReady
    ensures s'.snapshotReady && s'.stream == s.stream && s'.snapshotId == s.snapshotId
    ensures s'.fed == s.fed || exists n :: s'.fed == s.fed + [Live(n)]
  {
    if s.socket.FeedLive? { assert s'.fed == s.fed + [Live(s.socket.n)]; }
  }

  lemma ReadyIsOver(s: State)
    requires Inv(s) && s.snapshotReady
    ensures s.main.Join? || s.main.Done?
  {
    hide Increasing, FedNumbers, Contiguous, LiveRun, LiveOk, Numbers, Pending;
  }

  lemma ReadyMain(s: State, s': State)
    requires MainNext(s, s') && (s.main.Join? || s.main.Done?) && s.snapshotReady
    ensures s'.snapshotReady && s'.stream == s.stream && s'.snapshotId == s.snapshotId && s'.fed == s.fed
  {
  }

  lemma ReadyStep(s: State, s': State)
    requires Inv(s) && BufferOk(s) && Next(s, s') && s.snapshotReady
    ensures BufferOk(s')
  {
    hide SocketNext, MainNext, BufferOk;
    if SocketNext(s, s') {
      ReadySocket(s, s');
    } else {
      hide *;
      ReadyIsOver(s);
      ReadyMain(s, s');
    }
    hide *;
    ReadyBuffer(s, s');
  }

  lemma BufferNext(s: State, s': State)
    requires Inv(s) && BufferOk(s) && Next(s, s')
    ensures BufferOk(s')
  {
    hide Inv, BufferOk, SocketNext, MainNext;
    if s.snapshotReady {
      ReadyStep(s, s');
    } else {
      if SocketNext(s, s') { SocketBuffer(s, s'); } else { MainBuffer(s, s'); }
    }
  }

  lemma {:induction false} BufferHolds(run: seq<State>, i: nat)
    requires IsRun(run) && i < |run|
    ensures BufferOk(run[i])
  {
    hide Inv, Next, Init, BufferOk;
    if i == 0 {
      BufferStart(run[0]);
    } else {
      BufferHolds(run, i - 1);
      InvHolds(run, i - 1);
      assert Next(run[i - 1], run[i - 1 + 1]);
      BufferNext(run[i - 1], run[i]);
    }
  }

  // ---------------------------------------------------------------- gaps where nothing is missing

  // update id is part of a message that was handed to the book
  ghost predicate Covered(s: State, id: nat) {
    exists k {:trigger s.stream[k]} ::
      0 <= k < |s.stream| && (Buffered(k) in s.fed || Live(k) in s.fed) && s.stream[k].first <= id <= s.stream[k].last
  }

  // nothing is missing between the snapshot and message n
  ghost predicate NoneMissing(s: State, n: nat)
    requires n < |s.stream|
  {
    forall id: nat {:trigger Covered(s, id)} :: s.snapshotId < id < s.stream[n].first ==> Covered(s, id)
  }

  // The first message that is judged newer than the snapshot, behind a hole between the two.
  ghost predicate JudgedGap(s: State) {
    s.socket.Judge? && s.lastU == 0 && s.socket.n < |s.stream| && s.stream[s.socket.n].first > s.snapshotId + 1
  }

  lemma OnlyReplayed(s: State, k: nat)
    requires Inv(s) && s.lastU == 0
    ensures Live(k) !in s.fed
    ensures Buffered(k) in s.fed ==> k < Bound(s) && k < |s.stream| && s.stream[k].last > s.snapshotId
  {
    if Buffered(k) in s.fed {
      var i :| 0 <= i < |s.fed| && s.fed[i] == Buffered(k);
      assert FedNumbers(s.fed)[i] == k;
    }
    assert forall i :: 0 <= i < |s.fed| ==> s.fed[i].Buffered?;
  }

  // The replayed messages reach from the snapshot to message n if they reach it at all.
  lemma ReplayedReaches(s: State, n: nat, id: nat)
    requires Inv(s) && BufferOk(s) && n > 0 && n < |s.stream| && Buffered(n - 1) in s.fed
    requires s.stream[0].first <= s.snapshotId + 1 && s.snapshotId < id < s.stream[n].first
    ensures Covered(s, id)
  {
    assert s.stream[n - 1 + 1].first == s.stream[n - 1].last + 1;
    var k := CoveredBy(s.stream, 0, n, id);
    assert ReplayedUpTo(s, n - 1);
    assert Buffered(k) in s.fed;
  }

  // A gap is judged although nothing is missing if and only if the message before was replayed,
  // and the stream began no later than behind the snapshot.
  lemma SpuriousGapExactly(run: seq<State>, i: nat)
    requires IsRun(run) && i < |run| && JudgedGap(run[i])
    ensures var s := run[i]; var n := s.socket.n;
      NoneMissing(s, n) <==> n > 0 && s.stream[0].first <= s.snapshotId + 1 && Buffered(n - 1) in s.fed
  {
    InvHolds(run, i);
    BufferHolds(run, i);
    var s := run[i];
    var n := s.socket.n;
    if n > 0 && s.stream[0].first <= s.snapshotId + 1 && Buffered(n - 1) in s.fed {
      forall id: nat | s.snapshotId < id < s.stream[n].first ensures Covered(s, id) { ReplayedReaches(s, n, id); }
    }
    if NoneMissing(s, n) {
      NothingBefore(s, s.snapshotId + 1, n);
      NothingBefore(s, s.stream[n].first - 1, n);
    }
  }

  // An update before message n that was handed over belongs to a replayed message before n.
  lemma NothingBefore(s: State, id: nat, n: nat)
    requires Inv(s) && JudgedGap(s) && s.socket.n == n && Covered(s, id) && id < s.stream[n].first
    ensures n > 0 && s.stream[0].first <= id
    ensures id == s.stream[n].first - 1 ==> Buffered(n - 1) in s.fed
  {
    var k :| 0 <= k < |s.stream| && (Buffered(k) in s.fed || Live(k) in s.fed)
      && s.stream[k].first <= id <= s.stream[k].last;
    OnlyReplayed(s, k);
    assert k < n;
    if k > 0 { StreamOrder(s.stream, 0, k); }
    if k < n - 1 {
      StreamOrder(s.stream, k, n - 1);
      assert s.stream[n - 1 + 1].first == s.stream[n - 1].last + 1;
    }
  }

  // What the code then does: it reports the gap.
  lemma JudgedGapIsReported(s: State, s': State)
    requires Inv(s) && JudgedGap(s) && SocketNext(s, s')
    ensures s'.socket.ReportGap?
  {
    assert s.stream[s.socket.n].first <= s.stream[s.socket.n].last;
  }

  // ---------------------------------------------------------------- a run that replays

  // Messages (1, 1) and (2, 2) behind a snapshot at 0: the first is pushed before the snapshot is
  // stored and replayed from the buffer, and the second is then judged a gap.
  ghost function Stage(n: nat): State {
    if n == 0 then Gap(0, [], false, false, Top, WaitForFirst, [])
    else if n == 1 then Gap(0, [], false, false, Reading, WaitForFirst, [])
    else if n == 2 then Gap(1, [], false, false, LoadReady(0), WaitForFirst, [])
    else if n == 3 then Gap(1, [], false, false, Push(0), WaitForFirst, [])
    else if n == 4 then Gap(1, [Update(0)], false, false, Top, WaitForFirst, [])
    else if n == 5 then Gap(1, [Update(0)], false, false, Top, CheckError, [])
    else if n == 6 then Gap(1, [Update(0)], false, false, Top, Fetch, [])
    else if n == 7 then Gap(1, [Update(0)], false, false, Top, StoreId(0), [])
    else if n == 8 then Gap(1, [Update(0)], false, false, Top, Drain(0), [])
    else if n == 9 then Gap(1, [], false, false, Top, Replay(0, [Update(0)]), [])
    else if n == 10 then Gap(1, [], false, false, Top, Replay(0, []), [Buffered(0)])
    else if n == 11 then Gap(1, [], false, false, Top, StoreReady(0), [Buffered(0)])
    else if n == 12 then Gap(1, [], true, false, Top, Join, [Buffered(0)])
    else if n == 13 then Gap(1, [], true, false, Reading, Join, [Buffered(0)])
    else if n == 14 then Gap(2, [], true, false, LoadReady(1), Join, [Buffered(0)])
    else if n == 15 then Gap(2, [], true, false, Judge(1), Join, [Buffered(0)])
    else if n == 16 then Gap(2, [], true, false, ReportGap, Join, [Buffered(0)])
    else Gap(2, [], true, true, StoreStop, Join, [Buffered(0)])
  }

  ghost function Gap(next: nat, buffer: seq<Entry>, ready: bool, gap: bool, socket: Socket, main: Main,
                     fed: seq<Feed>): State {
    State([Frame(1, 1), Frame(2, 2)], next, buffer, ready, gap, false, false, 0, 0, None, socket, main, fed)
  }

  lemma SocketStage(n: nat)
    requires n < 4 || 12 <= n < 17
    ensures SocketNext(Stage(n), Stage(n + 1))
  {
    match n
    case 3 => assert [] + [Update(0)] == [Update(0)];
    case 13 => assert Stage(14).next == Stage(13).next + 1;
    case 15 => assert Stage(16) == Stage(15).(socket := ReportGap);
    case _ =>
  }

  lemma MainStage(n: nat)
    requires 4 <= n < 12
    ensures MainNext(Stage(n), Stage(n + 1))
  {
    match n
    case 6 => assert Stage(7) == Stage(6).(main := StoreId(0));
    case 9 =>
      assert [Update(0)][1..] == [] && [] + [Buffered(0)] == [Buffered(0)];
      assert !Skipped(Stage(9), 0, Update(0));
    case _ =>
  }

  // Replaying is reachable, and the gap it leads to is reported although no update is missing.
  lemma ReplayThenGap()
    ensures exists run: seq<State> :: IsRun(run) && var s := run[|run| - 1];
      s.fed == [Buffered(0)] && s.gapDetected && |s.stream| == 2 && s.stream[1].first == s.stream[0].last + 1
  {
    var run := seq(18, n requires 0 <= n => Stage(n));
    forall n | 0 <= n < 17
      ensures Next(run[n], run[n + 1])
    {
      if 4 <= n < 12 { MainStage(n); } else { SocketStage(n); }
    }
    assert IsRun(run);
    assert run[|run| - 1] == Stage(17);
  }

  // Messages (1, 1), (2, 2) and (3, 3) behind a snapshot at 0: the second is pushed after the
  // buffer was drained, so it is never replayed, and the third is judged a gap.
  ghost function LateStage(n: nat): State {
    if n == 0 then Hole(0, [], false, false, Top, WaitForFirst, [])
    else if n == 1 then Hole(0, [], false, false, Reading, WaitForFirst, [])
    else if n == 2 then Hole(1, [], false, false, LoadReady(0), WaitForFirst, [])
    else if n == 3 then Hole(1, [], false, false, Push(0), WaitForFirst, [])
    else if n == 4 then Hole(1, [Update(0)], false, false, Top, WaitForFirst, [])
    else if n == 5 then Hole(1, [Update(0)], false, false, Top, CheckError, [])
    else if n == 6 then Hole(1, [Update(0)], false, false, Top, Fetch, [])
    else if n == 7 then Hole(1, [Update(0)], false, false, Top, StoreId(0), [])
    else if n == 8 then Hole(1, [Update(0)], false, false, Top, Drain(0), [])
    else if n == 9 then Hole(1, [], false, false, Top, Replay(0, [Update(0)]), [])
    else if n == 10 then Hole(1, [], false, false, Top, Replay(0, []), [Buffered(0)])
    else if n == 11 then Hole(1, [], false, false, Reading, Replay(0, []), [Buffered(0)])
    else if n == 12 then Hole(2, [], false, false, LoadReady(1), Replay(0, []), [Buffered(0)])
    else if n == 13 then Hole(2, [], false, false, Push(1), Replay(0, []), [Buffered(0)])
    else if n == 14 then Hole(2, [Update(1)], false, false, Top, Replay(0, []), [Buffered(0)])
    else if n == 15 then Hole(2, [Update(1)], false, false, Top, StoreReady(0), [Buffered(0)])
    else if n == 16 then Hole(2, [Update(1)], true, false, Top, Join, [Buffered(0)])
    else if n == 17 then Hole(2, [Update(1)], true, false, Reading, Join, [Buffered(0)])
    else if n == 18 then Hole(3, [Update(1)], true, false, LoadReady(2), Join, [Buffered(0)])
    else if n == 19 then Hole(3, [Update(1)], true, false, Judge(2), Join, [Buffered(0)])
    else if n == 20 then Hole(3, [Update(1)], true, false, ReportGap, Join, [Buffered(0)])
    else Hole(3, [Update(1)], true, true, StoreStop, Join, [Buffered(0)])
  }

  ghost function Hole(next: nat, buffer: seq<Entry>, ready: bool, gap: bool, socket: Socket, main: Main,
                      fed: seq<Feed>): State {
    State([Frame(1, 1), Frame(2, 2), Frame(3, 3)], next, buffer, ready, gap, false, false, 0, 0, None, socket, main,
      fed)
  }

  lemma LateFirstStage(n: nat)
    requires n < 4
    ensures SocketNext(LateStage(n), LateStage(n + 1))
  {
    assert [] + [Update(0)] == [Update(0)];
  }

  lemma LateSocketStage(n: nat)
    requires 10 <= n < 14 || 16 <= n < 21
    ensures SocketNext(LateStage(n), LateStage(n + 1))
  {
    match n
    case 13 => assert [] + [Update(1)] == [Update(1)];
    case 17 => assert LateStage(18).next == LateStage(17).next + 1;
    case 19 => assert LateStage(20) == LateStage(19).(socket := ReportGap);
    case _ =>
  }

  lemma LateMainStage(n: nat)
    requires 4 <= n < 10 || 14 <= n < 16
    ensures MainNext(LateStage(n), LateStage(n + 1))
  {
    match n
    case 6 => assert LateStage(7) == LateStage(6).(main := StoreId(0));
    case 9 =>
      assert [Update(0)][1..] == [] && [] + [Buffered(0)] == [Buffered(0)];
      assert !Skipped(LateStage(9), 0, Update(0));
    case _ =>
  }

  ghost predicate MissesSecond(s: State) {
    && JudgedGap(s) && s.socket.n == 2 && !NoneMissing(s, 2)
    && s.fed == [Buffered(0)] && s.buffer == [Update(1)]
  }

  // A gap that is reported because an update really is missing: it is still in the buffer.
  lemma PushedTooLate()
    ensures exists run: seq<State> :: IsRun(run) && |run| == 22 && MissesSecond(run[19]) && run[21].gapDetected
  {
    var run := seq(22, n requires 0 <= n => LateStage(n));
    forall n | 0 <= n < 21
      ensures Next(run[n], run[n + 1])
    {
      if n < 4 {
        LateFirstStage(n);
      } else if n < 10 || 14 <= n < 16 {
        LateMainStage(n);
      } else {
        LateSocketStage(n);
      }
    }
    assert IsRun(run);
    assert run[19] == LateStage(19) && run[21] == LateStage(21);
    SpuriousGapExactly(run, 19);
  }
}
