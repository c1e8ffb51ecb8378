/** From every reachable state of the two-party system the closing handshake can be completed on both sides. */
module Completion {
  import opened Prelude
  import opened Errors
  import opened Mask
  import opened Frame
  import opened Decode
  import opened Endpoint
  import opened Runs
  import opened TwoParty

  const KEY: MaskKey := [0, 0, 0, 0]

  function StateOf(x: Side): State {
    x.history.conn.core.state
  }

  function PendingOf(n: Net, byClient: bool): seq<Frame>
    requires |Mine(n, byClient).history.delivered| <= |Peer(n, byClient).history.queued|
  {
    Peer(n, byClient).history.queued[|Mine(n, byClient).history.delivered|..]
  }

  predicate Good(n: Net) {
    NetInv(n) && ValidNet(n)
  }

  predicate PoliteRun(n: Net, moves: seq<Move>) {
    forall i | 0 <= i < |moves| :: PoliteMove(n, moves[i])
  }

  lemma {:induction false} PlayAppend(n: Net, a: seq<Move>, b: seq<Move>)
    requires ValidNet(n)
    ensures Play(n, a + b) == Play(Play(n, a), b)
    decreases |a|
  {
    hide Next, ValidNet;
    if a == [] {
      assert a + b == b;
    } else {
      assert (a + b)[0] == a[0] && (a + b)[1..] == a[1..] + b;
      PlayAppend(Next(n, a[0]), a[1..], b);
    }
  }

  /** Steps any user may take in any state. */
  predicate Harmless(s: Step) {
    s.UserReads? || s.UserFlushes? || s.OctetsArrive? || (s.UserCloses? && s.close.None?)
  }

  lemma HarmlessIsPolite(n: Net, moves: seq<Move>)
    requires forall i | 0 <= i < |moves| :: Harmless(moves[i].step)
    ensures PoliteRun(n, moves)
  {
  }

  predicate AllHarmless(moves: seq<Move>) {
    forall i | 0 <= i < |moves| :: Harmless(moves[i].step)
  }

  lemma OneMove(n: Net, m: Move)
    requires Good(n) && Harmless(m.step)
    ensures Good(Next(n, m)) && Play(n, [m]) == Next(n, m)
  {
    hide NetInv, ValidNet, Next;
    HarmlessIsPolite(n, [m]);
    assert PoliteMove(n, [m][0]);
    NextKeepsInv(n, m);
    assert [m][1..] == [];
  }

  /** A side that has closed queues nothing more and, once its peer has received everything, emits nothing more. */
  lemma ClosedIsSilent(n: Net, byClient: bool, s: Step)
    requires Good(n) && PoliteMove(n, Move(byClient, s)) && !StateOf(Mine(n, byClient)).Active?
    ensures var r := Next(n, Move(byClient, s));
            && Peer(r, byClient) == Peer(n, byClient)
            && Mine(r, byClient).history.queued == Mine(n, byClient).history.queued
            && !StateOf(Mine(r, byClient)).Active?
  {
    hide Link, Moves, Receives, KeepsReceiving, Apply, HistoryInv, Polite;
    var me, peer := Mine(n, byClient), Peer(n, byClient);
    var x := Apply(me.history.conn, EventFor(me, peer, s));
    MoveEffect(me, peer, me.history.conn.core.role, peer.history.conn.core.role, s);
    SilentEffect(me, peer, x);
  }

  lemma SilentEffect(me: Side, peer: Side, x: Effect)
    requires Link(me, peer) && Moves(me.history.conn, peer.history.conn, x) && !StateOf(me).Active?
    ensures x.queued == [] && x.emitted == [] && !x.after.core.state.Active?
  {
    hide BytesInv, FramesInv, StatesInv, DeliveredInv, Sendable;
    assert x.emitted + x.after.writeBuffer == [];
  }

  /** With the peer closed and everything arrived, a read hands over the next pending frame. */
  lemma DrainRead(n: Net, byClient: bool, key: MaskKey, endSeen: bool)
    requires Good(n) && !StateOf(Peer(n, byClient)).Active? && Mine(n, byClient).inbound == []
    requires PendingOf(n, byClient) != []
    ensures var me, peer := Mine(n, byClient), Peer(n, byClient);
            Apply(me.history.conn, EventFor(me, peer, UserReads(key, endSeen))).report.Delivered?
  {
    hide BytesInv, FramesInv, StatesInv, Moves, ReceiveFrame, DecodeOnce, Configured, ReportsInv, HistoryInv,
      Received, Sendable, Shown, StateAfter;
    var me, peer := Mine(n, byClient), Peer(n, byClient);
    var c, y := me.history.conn, peer.history.conn;
    var pending := PendingOf(n, byClient);
    CloseEndsPending(y.core.state, c.core.state, peer.history.queued, |me.history.delivered|);
    var d := DecodeOnce(c.decoder, c.readBuffer);
    SplitStream(peer, me);
    assert me.inbound + y.writeBuffer == [];
    BytesDecode(c.decoder, c.readBuffer, [], pending);
    DecodeKeeps(c.decoder, c.readBuffer);
    assert Sendable(y.core.role, c, pending[0]) by { PendingSendable(n, byClient); }
    SendableParts(y.core.role, c, pending[0]);
    ReceivedIsPlain(y.core.role, c, pending[0]);
    TurnOnFrame(c, y, pending[0], d, key);
  }

  lemma PendingSendable(n: Net, byClient: bool)
    requires NetInv(n) && PendingOf(n, byClient) != []
    ensures Sendable(Peer(n, byClient).history.conn.core.role, Mine(n, byClient).history.conn,
            PendingOf(n, byClient)[0])
  {
    hide BytesInv, StatesInv, Sendable, ReportsInv, HistoryInv;
  }

  lemma PendingDefined(n: Net, byClient: bool)
    requires NetInv(n)
    ensures |Mine(n, byClient).history.delivered| <= |Peer(n, byClient).history.queued|
  {
    hide BytesInv, StatesInv, FramesInv, ReportsInv, HistoryInv;
  }

  // ---- reading until nothing is left ----

  /** The peer has closed and everything it wrote has arrived. */
  predicate Drainable(n: Net, byClient: bool) {
    !StateOf(Peer(n, byClient)).Active? && Mine(n, byClient).inbound == []
  }

  /** Everything the peer queued has been handed over, its Close included, and no octet is left. */
  predicate Settled(n: Net, byClient: bool) {
    && Drainable(n, byClient) && !CanRead(StateOf(Mine(n, byClient)))
    && |Mine(n, byClient).history.delivered| == |Peer(n, byClient).history.queued|
  }

  function ReadsBy(moves: seq<Move>, byClient: bool): nat {
    if moves == [] then 0
    else (if moves[0].byClient == byClient && moves[0].step.UserReads? then 1 else 0) + ReadsBy(moves[1..], byClient)
  }

  function Undelivered(n: Net, byClient: bool): int {
    |Peer(n, byClient).history.queued| - |Mine(n, byClient).history.delivered|
  }

  lemma ReadProgress(n: Net, byClient: bool, s: Step)
    requires Good(n) && PoliteMove(n, Move(byClient, s)) && Drainable(n, byClient)
    ensures var r := Next(n, Move(byClient, s));
            && Drainable(r, byClient)
            && Undelivered(r, byClient) <= Undelivered(n, byClient)
            && (s.UserReads? && Undelivered(n, byClient) > 0 ==> Undelivered(r, byClient) < Undelivered(n, byClient))
            && Peer(r, byClient).history == Peer(n, byClient).history
  {
    hide NetInv, Apply, ValidCore, PoliteMove;
    PendingDefined(n, byClient);
    if s.UserReads? && Undelivered(n, byClient) > 0 {
      DrainRead(n, byClient, s.key, s.endSeen);
    }
  }

  lemma DrainStep(n: Net, byClient: bool, m: Move)
    requires Good(n) && PoliteMove(n, m) && Drainable(n, byClient)
    ensures var r := Next(n, m);
            && Good(r) && Drainable(r, byClient)
            && 0 <= Undelivered(r, byClient) <= Undelivered(n, byClient)
            && (m.byClient == byClient && m.step.UserReads? && Undelivered(n, byClient) > 0 ==>
                  Undelivered(r, byClient) < Undelivered(n, byClient))
  {
    hide NetInv, Next, ValidNet, PoliteMove;
    NextKeepsInv(n, m);
    PendingDefined(Next(n, m), byClient);
    if m.byClient == byClient {
      ReadProgress(n, byClient, m.step);
    } else {
      ClosedIsSilent(n, m.byClient, m.step);
      NextDelivers(n, m);
    }
  }

  lemma NextDelivers(n: Net, m: Move)
    requires ValidNet(n)
    ensures Peer(Next(n, m), m.byClient).history == Peer(n, m.byClient).history
  {
    hide Apply, ValidCore;
  }

  lemma NothingPendingSettles(n: Net, byClient: bool)
    requires Good(n) && Drainable(n, byClient) && Undelivered(n, byClient) <= 0
    ensures Settled(n, byClient)
  {
    hide BytesInv, FramesInv, StatesInv, ReportsInv, HistoryInv;
    CloseEndsPending(StateOf(Peer(n, byClient)), StateOf(Mine(n, byClient)), Peer(n, byClient).history.queued,
                     |Mine(n, byClient).history.delivered|);
  }

  /**
    * Once its peer has closed and everything has arrived, a side that keeps reading is given every pending message,
    * the Close last: as many reads as there are pending messages are enough, whatever either side does in between,
    * and whatever happens afterwards.
    */
  lemma {:induction false} DrainAll(n: Net, byClient: bool, moves: seq<Move>)
    requires Good(n) && PoliteRun(n, moves) && Drainable(n, byClient)
    requires ReadsBy(moves, byClient) >= Undelivered(n, byClient)
    ensures Good(Play(n, moves)) && Settled(Play(n, moves), byClient)
    decreases |moves|
  {
    hide NetInv, Next, ValidNet, PoliteMove, Drainable, Settled, Undelivered;
    if moves == [] {
      NothingPendingSettles(n, byClient);
    } else {
      DrainStep(n, byClient, moves[0]);
      PoliteRest(n, moves);
      DrainAll(Next(n, moves[0]), byClient, moves[1..]);
    }
  }

  lemma PoliteRest(n: Net, moves: seq<Move>)
    requires Good(n) && PoliteRun(n, moves) && moves != []
    ensures PoliteMove(n, moves[0]) && Good(Next(n, moves[0])) && PoliteRun(Next(n, moves[0]), moves[1..])
  {
    hide NetInv, Next, ValidNet, PoliteMove, SameConfigs;
    var r := Next(n, moves[0]);
    NextKeepsInv(n, moves[0]);
    forall i | 0 <= i < |moves[1..]|
      ensures PoliteMove(r, moves[1..][i])
    {
      PoliteOfConfig(n, r, moves[1..][i]);
    }
  }

  // ---- what stays true in every run ----

  /** How far the closing of the connection has come: nothing of this is ever undone. */
  predicate Later(n: Net, r: Net) {
    && (Settled(n, true) ==> Settled(r, true)) && (Settled(n, false) ==> Settled(r, false))
    && (n.server.history.conn.shut ==> r.server.history.conn.shut)
    && (StateOf(n.client).Terminated? ==> StateOf(r.client).Terminated?)
  }

  lemma LaterStep(n: Net, m: Move)
    requires Good(n) && PoliteMove(n, m)
    ensures Later(n, Next(n, m)) && Good(Next(n, m))
  {
    hide NetInv, Next, ValidNet, PoliteMove, Drainable, Undelivered;
    NextKeepsInv(n, m);
    ShutStays(n, m);
    forall b: bool | Settled(n, b)
      ensures Settled(Next(n, m), b)
    {
      SettledIsDrained(n, b);
      DrainStep(n, b, m);
      NothingPendingSettles(Next(n, m), b);
    }
  }

  lemma SettledIsDrained(n: Net, byClient: bool)
    requires Settled(n, byClient)
    ensures Drainable(n, byClient) && Undelivered(n, byClient) == 0
  {
  }

  lemma ShutStays(n: Net, m: Move)
    requires Good(n) && PoliteMove(n, m)
    ensures n.server.history.conn.shut ==> Next(n, m).server.history.conn.shut
    ensures StateOf(n.client).Terminated? ==> StateOf(Next(n, m).client).Terminated?
  {
    hide HistoryInv, Link, Apply, Polite, ConnInv, StepOk;
    var me, peer := Mine(n, m.byClient), Peer(n, m.byClient);
    var e := EventFor(me, peer, m.step);
    PoliteIsNotRaw(me, peer, m.step);
    InvIsValid(me.history);
    EveryStepOk(me.history.conn, e);
    StepShuts(me.history.conn, e, Apply(me.history.conn, e));
  }

  lemma {:induction false} LaterRun(n: Net, moves: seq<Move>)
    requires Good(n) && PoliteRun(n, moves)
    ensures Later(n, Play(n, moves)) && Good(Play(n, moves))
    decreases |moves|
  {
    hide NetInv, Next, ValidNet, PoliteMove, Settled;
    if moves != [] {
      PoliteRest(n, moves);
      LaterStep(n, moves[0]);
      LaterRun(Next(n, moves[0]), moves[1..]);
    }
  }

  lemma {:induction false} PoliteSplit(n: Net, a: seq<Move>, b: seq<Move>)
    requires Good(n) && PoliteRun(n, a + b)
    ensures PoliteRun(n, a) && Good(Play(n, a)) && PoliteRun(Play(n, a), b)
    ensures Play(n, a + b) == Play(Play(n, a), b)
    decreases |a|
  {
    hide NetInv, Next, ValidNet, PoliteMove;
    assert forall i | 0 <= i < |a| :: a[i] == (a + b)[i];
    if a == [] {
      assert a + b == b;
    } else {
      PoliteRest(n, a + b);
      assert (a + b)[0] == a[0] && (a + b)[1..] == a[1..] + b;
      PoliteSplit(Next(n, a[0]), a[1..], b);
    }
  }

  /** A run up to one of its moves, that move, and the rest. */
  lemma AtMove(n: Net, moves: seq<Move>, i: nat) returns (before: Net)
    requires Good(n) && PoliteRun(n, moves) && i < |moves|
    ensures Good(before) && Later(n, before) && PoliteMove(before, moves[i]) && Good(Next(before, moves[i]))
    ensures Later(before, Next(before, moves[i])) && Later(Next(before, moves[i]), Play(n, moves))
            && Good(Play(n, moves))
  {
    hide NetInv, Next, ValidNet, PoliteMove, Later;
    before := Play(n, moves[..i]);
    assert moves == moves[..i] + moves[i..];
    PoliteSplit(n, moves[..i], moves[i..]);
    LaterRun(n, moves[..i]);
    PoliteRest(before, moves[i..]);
    assert moves[i..][0] == moves[i];
    LaterStep(before, moves[i]);
    LaterRun(Next(before, moves[i]), moves[i..][1..]);
    PlayFirst(before, moves[i], moves[i..][1..]);
    assert moves[i..] == [moves[i]] + moves[i..][1..];
  }

  lemma PlayFirst(n: Net, m: Move, rest: seq<Move>)
    requires ValidNet(n)
    ensures Play(n, [m] + rest) == Play(Next(n, m), rest)
  {
    hide Next, ValidNet;
    assert ([m] + rest)[1..] == rest;
  }

  // ---- the end ----

  /** With nothing left to read, a flush by the server shuts its stream down. */
  lemma ServerShuts(n: Net)
    requires Good(n) && Settled(n, false)
    ensures Next(n, Move(false, UserFlushes)).server.history.conn.shut
  {
    hide HistoryInv, Link, ReportsInv;
  }

  /** With everything read nothing is left to decode. */
  lemma NothingToDecode(n: Net)
    requires Good(n) && Settled(n, true)
    ensures var c := n.client.history.conn;
            var d := DecodeOnce(c.decoder, c.readBuffer);
            NeedsInput(d.out) && d.after.header.None? && d.rest == []
  {
    hide FramesInv, StatesInv, DecodeOnce, Configured, ReportsInv, Received, HistoryInv;
    var c := n.client.history.conn;
    SplitStream(n.server, n.client);
    assert n.client.inbound + n.server.history.conn.writeBuffer == [];
    BytesDecode(c.decoder, c.readBuffer, [], PendingOf(n, true));
  }

  lemma NextConn(n: Net, m: Move)
    requires ValidNet(n)
    ensures var me, peer := Mine(n, m.byClient), Peer(n, m.byClient);
            Mine(Next(n, m), m.byClient).history.conn == Apply(me.history.conn, EventFor(me, peer, m.step)).after
  {
    hide Apply, ValidCore;
  }

  /** Once everything has been read from a peer that has shut down its stream, the end of the stream can be seen. */
  lemma ClientSeesEnd(n: Net, key: MaskKey)
    requires Good(n) && Settled(n, true) && n.server.history.conn.shut
    ensures StateOf(Next(n, Move(true, UserReads(key, true))).client).Terminated?
  {
    hide DecodeOnce, ReceiveFrame, NetInv, Next, Settled;
    NothingToDecode(n);
    NextConn(n, Move(true, UserReads(key, true)));
    SettledIsDrained(n, true);
    ClientIsClient(n);
  }

  lemma ClientIsClient(n: Net)
    requires NetInv(n)
    ensures n.client.history.conn.core.role.Client?
  {
    hide Link, HistoryInv;
  }

  /** A server that has been given the client's Close is done at its next read, which touches nothing else. */
  lemma ServerStopsReading(n: Net, key: MaskKey, endSeen: bool)
    requires Good(n) && GivenClose(n.server.history.delivered)
    ensures var r := Next(n, Move(false, UserReads(key, endSeen)));
            && StateOf(r.server).Terminated? && r.client == n.client
            && r.server.history.reports == n.server.history.reports +
               [Failed(if StateOf(n.server).Terminated? then AlreadyClosed else ConnectionClosed)]
            && r.server.history.conn.(core := n.server.history.conn.core) == n.server.history.conn
  {
    hide Link, ReadTurn, GivenClose, ReportsInv, ConnInv, ClosesLast, AllCarried, AllAllowed, AllClean, Subsequence,
      SizesKept;
    assert n.client.inbound + [] == n.client.inbound;
  }

  /** Both have terminated, both users have been told that the connection closed normally, and nothing was lost. */
  predicate CleanEnd(r: Net) {
    && StateOf(r.client).Terminated? && StateOf(r.server).Terminated?
    && Failed(ConnectionClosed) in r.client.history.reports && Failed(ConnectionClosed) in r.server.history.reports
    && CloseIsFinal(r.client) && CloseIsFinal(r.server)
    && DeliveredInOrder(r.client, r.server) && DeliveredInOrder(r.server, r.client)
  }

  lemma TerminatedIsCleanEnd(n: Net)
    requires NetInv(n) && StateOf(n.client).Terminated?
    ensures CleanEnd(n)
  {
    hide NetInv, ReportsInv, CloseIsFinal, DeliveredInOrder;
    InvMeans(n);
  }

  /**
    * Every fair run ends. Once both sides have closed and what they wrote has arrived, it is enough that each reads as
    * often as it has messages pending, that the server then flushes, and that the client then reads and the end of
    * the stream has reached it; anything else may happen in between, in any order.
    */
  lemma EveryFairRunEnds(n: Net, draining: seq<Move>, flushes: seq<Move>, i: nat, last: seq<Move>, j: nat)
    requires Good(n) && Drainable(n, true) && Drainable(n, false) && PoliteRun(n, draining + (flushes + last))
    requires ReadsBy(draining, true) >= Undelivered(n, true) && ReadsBy(draining, false) >= Undelivered(n, false)
    requires i < |flushes| && flushes[i] == Move(false, UserFlushes)
    requires j < |last| && last[j].byClient && last[j].step.UserReads? && last[j].step.endSeen
    ensures Good(Play(n, draining + (flushes + last))) && CleanEnd(Play(n, draining + (flushes + last)))
  {
    hide NetInv, Next, ValidNet, PoliteMove, Drainable, Settled, Undelivered, Play, CleanEnd, ReadsBy, PoliteRun;
    PoliteSplit(n, draining, flushes + last);
    DrainAll(n, true, draining);
    DrainAll(n, false, draining);
    var n1 := Play(n, draining);
    PoliteSplit(n1, flushes, last);
    var n2 := AtMove(n1, flushes, i);
    ServerShuts(n2);
    var n3 := Play(n1, flushes);
    var n4 := AtMove(n3, last, j);
    ClientSeesEnd(n4, last[j].step.key);
    TerminatedIsCleanEnd(Play(n3, last));
  }

  // ---- every run can be brought to its end ----

  /** As many reads by one side as it needs. */
  function Reads(byClient: bool, k: nat): seq<Move>
    decreases k
  {
    if k == 0 then [] else [Move(byClient, UserReads(KEY, false))] + Reads(byClient, k - 1)
  }

  lemma {:induction false} ReadsCount(byClient: bool, k: nat, rest: seq<Move>)
    ensures AllHarmless(Reads(byClient, k))
    ensures forall b :: ReadsBy(Reads(byClient, k) + rest, b) == (if b == byClient then k else 0) + ReadsBy(rest, b)
    decreases k
  {
    if k == 0 {
      assert [] + rest == rest;
    } else {
      ReadsCount(byClient, k - 1, rest);
      assert (Reads(byClient, k) + rest)[1..] == Reads(byClient, k - 1) + rest;
    }
  }

  lemma ServerCloses(n: Net)
    requires Good(n)
    ensures var r := Next(n, Move(false, UserCloses(None, KEY))); Good(r) && !StateOf(r.server).Active?
  {
    hide NetInv, UserClose;
    OneMove(n, Move(false, UserCloses(None, KEY)));
    NotShutWhileActive(n);
    CloseStep(n.server.history.conn, None, KEY, SMOOTH);
  }

  lemma NotShutWhileActive(n: Net)
    requires NetInv(n)
    ensures n.server.history.conn.shut ==> ShutDown(n.server.history.conn)
  {
    hide HistoryInv, Link;
    InvIsValid(n.server.history);
    InvShut(n.server.history.conn);
  }

  /** Everything under way towards a side whose peer has closed arrives. */
  lemma AllArrive(n: Net, byClient: bool)
    requires Good(n) && !StateOf(Peer(n, byClient)).Active?
    ensures var r := Next(n, Move(byClient, OctetsArrive(|Mine(n, byClient).inbound|)));
            Good(r) && Drainable(r, byClient)
  {
    hide NetInv;
    OneMove(n, Move(byClient, OctetsArrive(|Mine(n, byClient).inbound|)));
  }

  /** The server closes, the client reads everything and so closes too, and everything arrives at the server. */
  lemma BothClose(n: Net) returns (moves: seq<Move>)
    requires Good(n)
    ensures AllHarmless(moves)
    ensures var r := Play(n, moves); Good(r) && Drainable(r, true) && Drainable(r, false)
  {
    hide NetInv, Next, ValidNet, Undelivered, Settled, Drainable, ReadsBy, Harmless;
    var m1 := Move(false, UserCloses(None, KEY));
    ServerCloses(n);
    var n1 := Next(n, m1);
    var m2 := Move(true, OctetsArrive(|n1.client.inbound|));
    AllArrive(n1, true);
    var n2 := Next(n1, m2);
    var k := if Undelivered(n2, true) > 0 then Undelivered(n2, true) else 0;
    var a := Reads(true, k);
    ReadsCount(true, k, []);
    assert a + [] == a;
    HarmlessIsPolite(n2, a);
    DrainAll(n2, true, a);
    var n3 := Play(n2, a);
    SettledHasClosed(n3, true);
    var m4 := Move(false, OctetsArrive(|n3.server.inbound|));
    AllArrive(n3, false);
    HarmlessMoves(m1, m2, m4);
    OneMove(n3, m4);
    HarmlessIsPolite(n3, [m4]);
    assert PoliteMove(n3, [m4][0]);
    LaterStep(n3, m4);
    SettledIsDrained(Next(n3, m4), true);
    moves := [m1] + ([m2] + (a + [m4]));
    PlayAppend(n2, a, [m4]);
    PlayFirst(n1, m2, a + [m4]);
    PlayFirst(n, m1, [m2] + (a + [m4]));
  }

  lemma SettledHasClosed(n: Net, byClient: bool)
    requires Settled(n, byClient)
    ensures !StateOf(Mine(n, byClient)).Active?
  {
  }

  lemma HarmlessMoves(m1: Move, m2: Move, m4: Move)
    requires m1.step == UserCloses(None, KEY) && m2.step.OctetsArrive? && m4.step.OctetsArrive?
    ensures Harmless(m1.step) && Harmless(m2.step) && Harmless(m4.step)
  {
  }

  /**
    * No run gets stuck: whatever has happened, polite steps lead to both sides having terminated, each having been
    * told that the connection closed normally.
    */
  lemma ClosingCompletes(n: Net) returns (moves: seq<Move>)
    requires Good(n)
    ensures PoliteRun(n, moves) && Good(Play(n, moves)) && CleanEnd(Play(n, moves))
  {
    hide NetInv, Next, ValidNet, Undelivered, Settled, Drainable, ReadsBy, CleanEnd, PoliteMove;
    var a := BothClose(n);
    var r := Play(n, a);
    var k1 := if Undelivered(r, true) > 0 then Undelivered(r, true) else 0;
    var k2 := if Undelivered(r, false) > 0 then Undelivered(r, false) else 0;
    var draining := Reads(true, k1) + Reads(false, k2);
    ReadsCount(true, k1, Reads(false, k2));
    ReadsCount(false, k2, []);
    assert Reads(false, k2) + [] == Reads(false, k2);
    assert ReadsBy([], true) == ReadsBy([], false) == 0 by { NoReads(); }
    var flush, last := [Move(false, UserFlushes)], [Move(true, UserReads(KEY, true))];
    HarmlessIsPolite(r, draining + (flush + last));
    EveryFairRunEnds(r, draining, flush, 0, last, 0);
    moves := a + (draining + (flush + last));
    HarmlessIsPolite(n, moves);
    PlayAppend(n, a, draining + (flush + last));
  }

  lemma NoReads()
    ensures ReadsBy([], true) == ReadsBy([], false) == 0
  {
  }

  /** So every run of two new endpoints can be carried on to a clean end. */
  lemma EveryRunCanEnd(client: WebSocketConfig, server: WebSocketConfig, moves: seq<Move>) returns (more: seq<Move>)
    requires Usable(client) && Usable(server)
    requires forall i | 0 <= i < |moves| :: PoliteMove(Start(client, server), moves[i])
    ensures var n := Play(Start(client, server), moves); PoliteRun(n, more) && CleanEnd(Play(n, more))
  {
    hide NetInv, Play, PoliteMove, CleanEnd, Usable, Start;
    FreshNetInv(client, server);
    EveryRunKeepsInv(Start(client, server), moves);
    more := ClosingCompletes(Play(Start(client, server), moves));
  }
}
