/** The VectorWar host: the glue between the game and the GGPO rollback
    session. The game state `gs` is an opaque block of bytes; the non-game
    state `ngs` keeps the player table and the desync checksums.

    Calls into code this model does not contain (the GGPO library, the
    NonGameState methods declared in a header) are not executed: they are
    recorded, in order, in two traces, and whatever they return comes in as
    a parameter. */
module VectorWar {
  import opened Memory
  import opened Fletcher

  const MaxPlayers := 64
  /** GGPO_INVALID_HANDLE */
  const InvalidHandle := -1
  /** Frames between two periodic checksum snapshots. */
  const PeriodicInterval := 90
  const DisconnectTimeoutMs := 3000
  const DisconnectNotifyStartMs := 1000
  /** sizeof(int): the size of one player's input. */
  const InputSize := 4

  type PlayerHandle = int

  datatype PlayerType = Local | Remote | Spectator

  datatype ConnectState = Connecting | Synchronizing | Running | Disconnected | Disconnecting

  /** The fields of an `ngs.players` entry that this file writes. */
  datatype PlayerInfo = PlayerInfo(handle: PlayerHandle, kind: PlayerType, connectProgress: int)

  /** `ngs.now` and `ngs.periodic`. */
  datatype FrameChecksum = FrameChecksum(frameNumber: int, checksum: int)

  /** A GGPOErrorCode as GGPO_SUCCEEDED sees it: GGPO_OK, or any of the
      non-zero error codes, which the host code never tells apart. */
  datatype GgpoResult = Success | Failure

  /** Calls into the GGPO library. */
  datatype GgpoCall =
    | StartSession(numPlayers: int, inputSize: int, localPort: int)
    | SessionDisconnectTimeout(ms: int)
    | SessionDisconnectNotifyStart(ms: int)
    | AddPlayer(rosterIndex: int)
    | SetFrameDelay(handle: PlayerHandle, delay: int)
    | TrySynchronizeLocal
    | AddLocalInput(handle: PlayerHandle, input: int)
    | SynchronizeInput
    | AdvanceFrame
    | DisconnectPlayer(handle: PlayerHandle)

  /** Calls of NonGameState methods, whose bodies are not part of this model. */
  datatype NgsCall =
    | SetConnectState(handle: PlayerHandle, state: ConnectState)
    | SetAllConnectStates(state: ConnectState)
    | UpdateConnectProgress(handle: PlayerHandle, progress: int)
    | SetDisconnectTimeout(handle: PlayerHandle, now: int, timeout: int)

  /** The events GGPO reports to vw_on_event_callback. */
  datatype Event =
    | ConnectedToPeer(player: PlayerHandle)
    | SynchronizingWithPeer(player: PlayerHandle, count: int, total: int)
    | SynchronizedWithPeer(player: PlayerHandle)
    | SessionRunning
    | ConnectionInterrupted(player: PlayerHandle, disconnectTimeout: int)
    | ConnectionResumed(player: PlayerHandle)
    | DisconnectedFromPeer(player: PlayerHandle)
    | Timesync(framesAhead: int)

  // ---------------------------------------------------------------------
  // Connection events

  /** C `int` division, which truncates toward zero. */
  function TruncDiv(a: int, b: int): (q: int)
    requires b != 0
    ensures 0 <= a && 0 < b ==> q == a / b
  {
    var m := (if a < 0 then -a else a) / (if b < 0 then -b else b);
    if (a < 0) != (b < 0) then -m else m
  }

  /** `100 * count / total` */
  function Progress(count: int, total: int): int
    requires total != 0
  {
    TruncDiv(100 * count, total)
  }

  /** While synchronization is under way the percentage stays within
      [0, 100] and reaches 100 exactly when every handshake is done. */
  lemma ProgressBounds(count: int, total: int)
    requires 0 <= count <= total && 0 < total
    ensures 0 <= Progress(count, total) <= 100
    ensures Progress(count, total) == 100 <==> count == total
  {
    var q := Progress(count, total);
    DivBounds(100 * count, total);
    assert q * total <= 100 * count <= 100 * total < 101 * total;
    MulLess(q, 101, total);
    assert 100 * count < (q + 1) * total;
    assert q == 100 ==> 100 * total <= 100 * count;
    if count == total {
      MulLess(99, q + 1, total);
    }
  }

  /** More handshakes never lower the percentage. */
  lemma ProgressMonotone(count: int, count': int, total: int)
    requires 0 <= count <= count' && 0 < total
    ensures Progress(count, total) <= Progress(count', total)
  {
    var q, q' := Progress(count, total), Progress(count', total);
    DivBounds(100 * count, total);
    DivBounds(100 * count', total);
    assert q * total <= 100 * count <= 100 * count' < (q' + 1) * total;
    MulLess(q, q' + 1, total);
  }

  /** Floor division by a positive divisor brackets the dividend. */
  lemma DivBounds(a: int, b: int)
    requires 0 < b
    ensures (a / b) * b <= a < (a / b + 1) * b
  {
    assert a == (a / b) * b + a % b;
  }

  lemma MulLess(x: int, y: int, c: int)
    requires 0 < c && x * c < y * c
    ensures x < y
  {
    if x >= y {
      assert x * c - y * c == (x - y) * c;
      MulMono(0, x - y, c);
    }
  }

  /** The NonGameState calls vw_on_event_callback makes for an event: the
      connect state each event sets, the progress it reports, the timer an
      interruption starts (now is the wall-clock time, timeGetTime()). */
  function EventCalls(e: Event, now: int): (r: seq<NgsCall>)
    requires e.SynchronizingWithPeer? ==> e.total != 0
    ensures |r| <= 1
    ensures e.Timesync? <==> r == []
    ensures !e.SessionRunning? && !e.Timesync? ==>
      forall c :: c in r ==> !c.SetAllConnectStates? && c.handle == e.player
    ensures e.SynchronizedWithPeer? ==> r == [UpdateConnectProgress(e.player, 100)]
    ensures e.ConnectionInterrupted? ==> r == [SetDisconnectTimeout(e.player, now, e.disconnectTimeout)]
    ensures e.SynchronizingWithPeer? && 0 <= e.count <= e.total ==>
      r[0].UpdateConnectProgress? && 0 <= r[0].progress <= 100 && (r[0].progress == 100 <==> e.count == e.total)
  {
    match e
    case ConnectedToPeer(p) => [SetConnectState(p, Synchronizing)]
    case SynchronizingWithPeer(p, count, total) =>
      if 0 <= count <= total then ProgressBounds(count, total); [UpdateConnectProgress(p, Progress(count, total))]
      else [UpdateConnectProgress(p, Progress(count, total))]
    case SynchronizedWithPeer(p) => [UpdateConnectProgress(p, 100)]
    case SessionRunning => [SetAllConnectStates(Running)]
    case ConnectionInterrupted(p, timeout) => [SetDisconnectTimeout(p, now, timeout)]
    case ConnectionResumed(p) => [SetConnectState(p, Running)]
    case DisconnectedFromPeer(p) => [SetConnectState(p, Disconnected)]
    case Timesync(_) => []
  }

  /** Only a connection, a resumption or a disconnection sets one player's
      connect state, to Synchronizing, Running and Disconnected
      respectively; only the Running event sets everyone's, to Running. */
  lemma EventConnectStates(e: Event, now: int)
    requires e.SynchronizingWithPeer? ==> e.total != 0
    ensures forall c :: c in EventCalls(e, now) && c.SetConnectState? ==>
      || (e.ConnectedToPeer? && c.state == Synchronizing)
      || (e.ConnectionResumed? && c.state == Running)
      || (e.DisconnectedFromPeer? && c.state == Disconnected)
    ensures forall c :: c in EventCalls(e, now) && c.SetAllConnectStates? ==> e.SessionRunning? && c.state == Running
    ensures e.ConnectedToPeer? || e.ConnectionResumed? || e.DisconnectedFromPeer? ==>
      EventCalls(e, now)[0].SetConnectState?
    ensures e.SessionRunning? ==> EventCalls(e, now)[0].SetAllConnectStates?
  {
  }

  // ---------------------------------------------------------------------
  // The roster

  /** The table entry VectorWar_Init writes for a player: a local player
      starts fully connected, any other at 0 %. */
  function Entry(kind: PlayerType, h: PlayerHandle): PlayerInfo
  {
    PlayerInfo(h, kind, if kind == Local then 100 else 0)
  }

  /** The handle of the last local player of the roster, or prior if none. */
  function LocalHandleOf(roster: seq<PlayerType>, handles: seq<PlayerHandle>, prior: PlayerHandle): PlayerHandle
    requires |roster| == |handles|
  {
    if roster == [] then prior
    else if roster[|roster| - 1] == Local then handles[|handles| - 1]
    else LocalHandleOf(roster[..|roster| - 1], handles[..|handles| - 1], prior)
  }

  /** The NonGameState calls of the roster loop: one per local player. */
  function RosterNgsCalls(roster: seq<PlayerType>, handles: seq<PlayerHandle>): seq<NgsCall>
    requires |roster| == |handles|
  {
    if roster == [] then []
    else
      RosterNgsCalls(roster[..|roster| - 1], handles[..|handles| - 1])
      + (if roster[|roster| - 1] == Local then [SetConnectState(handles[|handles| - 1], Connecting)] else [])
  }

  /** The GGPO calls of the roster loop: every player is added, and a local
      player gets the frame delay. */
  function RosterGgpoCalls(roster: seq<PlayerType>, handles: seq<PlayerHandle>, delay: int): seq<GgpoCall>
    requires |roster| == |handles|
  {
    if roster == [] then []
    else
      var i := |roster| - 1;
      RosterGgpoCalls(roster[..i], handles[..i], delay)
      + [AddPlayer(i)] + (if roster[i] == Local then [SetFrameDelay(handles[i], delay)] else [])
  }

  /** One more roster entry: what the roster loop's next pass adds. */
  lemma RosterStep(roster: seq<PlayerType>, handles: seq<PlayerHandle>, i: nat, delay: int, prior: PlayerHandle)
    requires |roster| == |handles| && i < |roster|
    ensures LocalHandleOf(roster[..i + 1], handles[..i + 1], prior)
      == if roster[i] == Local then handles[i] else LocalHandleOf(roster[..i], handles[..i], prior)
    ensures RosterNgsCalls(roster[..i + 1], handles[..i + 1])
      == RosterNgsCalls(roster[..i], handles[..i])
         + (if roster[i] == Local then [SetConnectState(handles[i], Connecting)] else [])
    ensures RosterGgpoCalls(roster[..i + 1], handles[..i + 1], delay)
      == RosterGgpoCalls(roster[..i], handles[..i], delay)
         + [AddPlayer(i)] + (if roster[i] == Local then [SetFrameDelay(handles[i], delay)] else [])
  {
    assert roster[..i + 1][..i] == roster[..i];
    assert handles[..i + 1][..i] == handles[..i];
  }

  /** With exactly one local player in the roster, the loop records that
      player's handle as the local one and puts only it into Connecting. */
  lemma {:induction false} SingleLocalPlayer(roster: seq<PlayerType>, handles: seq<PlayerHandle>, k: nat, prior: PlayerHandle)
    requires |roster| == |handles| && k < |roster| && roster[k] == Local
    requires forall j :: 0 <= j < |roster| && j != k ==> roster[j] != Local
    ensures LocalHandleOf(roster, handles, prior) == handles[k]
    ensures RosterNgsCalls(roster, handles) == [SetConnectState(handles[k], Connecting)]
  {
    var n := |roster| - 1;
    if k < n {
      SingleLocalPlayer(roster[..n], handles[..n], k, prior);
    } else {
      NoLocalPlayer(roster[..n], handles[..n], prior);
    }
  }

  /** A roster without a local player (a spectator-only or remote-only
      roster) leaves the local handle as it was and puts nobody into
      Connecting. */
  lemma {:induction false} NoLocalPlayer(roster: seq<PlayerType>, handles: seq<PlayerHandle>, prior: PlayerHandle)
    requires |roster| == |handles|
    requires forall j :: 0 <= j < |roster| ==> roster[j] != Local
    ensures LocalHandleOf(roster, handles, prior) == prior
    ensures RosterNgsCalls(roster, handles) == []
  {
    if roster != [] {
      NoLocalPlayer(roster[..|roster| - 1], handles[..|handles| - 1], prior);
    }
  }

  /** How many entries of ps are remote players. */
  function RemoteCount(ps: seq<PlayerInfo>): nat
  {
    if ps == [] then 0
    else RemoteCount(ps[..|ps| - 1]) + (if ps[|ps| - 1].kind == Remote then 1 else 0)
  }

  /** The remote players' handles, in table order: the filter of
      VectorWar_AdvanceFrame and VectorWar_GetNetworkStats. There is one
      handle per remote entry, and the remote entry with k remote entries
      before it supplies handle k. */
  function RemotesOf(ps: seq<PlayerInfo>): (r: seq<PlayerHandle>)
    ensures |r| == RemoteCount(ps) <= |ps|
    ensures forall i :: 0 <= i < |ps| && ps[i].kind == Remote ==>
      RemoteCount(ps[..i]) < |r| && r[RemoteCount(ps[..i])] == ps[i].handle
    ensures forall h :: h in r <==> exists i :: 0 <= i < |ps| && ps[i].kind == Remote && ps[i].handle == h
  {
    if ps == [] then []
    else
      var init := ps[..|ps| - 1];
      var r := RemotesOf(init) + (if ps[|ps| - 1].kind == Remote then [ps[|ps| - 1].handle] else []);
      assert forall i :: 0 <= i < |init| ==> init[i] == ps[i] && init[..i] == ps[..i];
      assert ps[..|ps| - 1] == init;
      r
  }

  // ---------------------------------------------------------------------
  // Frame gating

  /** The GGPO calls of VectorWar_RunFrame, given what the library answers. */
  function RunFrameCalls(local: PlayerHandle, input: int, added: GgpoResult, synced: GgpoResult): seq<GgpoCall>
  {
    var add := if local != InvalidHandle then [AddLocalInput(local, input)] else [];
    var addOk := local == InvalidHandle || added.Success?;
    add + (if addOk then [SynchronizeInput] + (if synced.Success? then [AdvanceFrame] else []) else [])
  }

  /** Whether VectorWar_RunFrame advances the game. */
  predicate Advances(local: PlayerHandle, added: GgpoResult, synced: GgpoResult)
  {
    (local == InvalidHandle || added.Success?) && synced.Success?
  }

  /** Local input is added only for a valid local handle; inputs are
      synchronized only if that add succeeded or was skipped; the game
      advances only if synchronizing succeeded, and always last. */
  lemma RunFrameGating(local: PlayerHandle, input: int, added: GgpoResult, synced: GgpoResult)
    ensures AddLocalInput(local, input) in RunFrameCalls(local, input, added, synced) <==> local != InvalidHandle
    ensures SynchronizeInput in RunFrameCalls(local, input, added, synced) <==> local == InvalidHandle || added.Success?
    ensures AdvanceFrame in RunFrameCalls(local, input, added, synced) <==> Advances(local, added, synced)
    ensures Advances(local, added, synced) ==>
      RunFrameCalls(local, input, added, synced)[|RunFrameCalls(local, input, added, synced)| - 1] == AdvanceFrame
  {
  }

  // ---------------------------------------------------------------------
  // Disconnecting a player

  /** The guard of VectorWar_DisconnectPlayer as written: an upper bound
      only. */
  predicate DisconnectGuardAsWritten(player: int, numPlayers: int)
  {
    player < numPlayers
  }

  /** The guard with the lower bound the table index needs. */
  predicate DisconnectGuard(player: int, numPlayers: int)
  {
    0 <= player < numPlayers
  }

  /** The guard as written lets a negative player through, which then
      indexes the table before its first entry. */
  lemma GuardAsWrittenAdmitsNegative(numPlayers: nat)
    ensures DisconnectGuardAsWritten(-1, numPlayers)
    ensures !DisconnectGuard(-1, numPlayers)
  {
  }

  // ---------------------------------------------------------------------
  // The host

  /** The globals `gs` and `ngs` and the callbacks and entry points that
      use them. */
  class Host {
    /** sizeof(gs) */
    const stateSize: nat
    /** Where gs._framenumber, a 4-byte int, lies within gs. */
    const frameOffset: nat
    /** FRAME_DELAY */
    const frameDelay: int

    /** The game state, as the bytes the callbacks copy. */
    const gs: array<Byte>

    // The fields of ngs this file reads or writes.
    var numPlayers: int
    const players: array<PlayerInfo>
    var localPlayerHandle: PlayerHandle
    var now: FrameChecksum
    var periodic: FrameChecksum

    /** Calls made so far into the GGPO library and into NonGameState. */
    var ggpoCalls: seq<GgpoCall>
    var ngsCalls: seq<NgsCall>

    ghost predicate Valid()
      reads this
    {
      && gs.Length == stateSize
      && frameOffset + 4 <= stateSize
      && players.Length == MaxPlayers
      && gs as object != players as object
      && 0 <= numPlayers <= MaxPlayers
    }

    /** gs._framenumber */
    function FrameNumber(): int
      reads this, gs
      requires Valid()
    {
      Int32At(gs[..], frameOffset)
    }

    /** Both globals start zeroed, as static storage does. */
    constructor (stateSize: nat, frameOffset: nat, frameDelay: int)
      requires frameOffset + 4 <= stateSize
      ensures Valid()
      ensures this.stateSize == stateSize && this.frameOffset == frameOffset && this.frameDelay == frameDelay
      ensures fresh(gs) && fresh(players)
      ensures forall i :: 0 <= i < stateSize ==> gs[i] == 0
      ensures numPlayers == 0 && localPlayerHandle == 0
      ensures now == FrameChecksum(0, 0) && periodic == FrameChecksum(0, 0)
      ensures ggpoCalls == [] && ngsCalls == []
    {
      this.stateSize := stateSize;
      this.frameOffset := frameOffset;
      this.frameDelay := frameDelay;
      gs := new Byte[stateSize](_ => 0);
      players := new PlayerInfo[MaxPlayers](_ => PlayerInfo(0, Local, 0));
      numPlayers := 0;
      localPlayerHandle := 0;
      now, periodic := FrameChecksum(0, 0), FrameChecksum(0, 0);
      ggpoCalls, ngsCalls := [], [];
    }

    /** vw_save_game_state_callback: allocates a buffer of sizeof(gs) bytes
        (allocates says whether malloc succeeds), copies gs into it and tags
        it with the checksum of its first len/2 words. On an allocation
        failure the caller's checksum (checksumIn) is left as it was. */
    method SaveGameState(allocates: bool, checksumIn: int)
      returns (ok: bool, buffer: array?<Byte>, len: int, checksum: int)
      requires Valid()
      ensures ok == allocates && len == stateSize
      ensures !ok ==> buffer == null && checksum == checksumIn
      ensures ok ==> buffer != null && fresh(buffer) && buffer[..] == gs[..]
      ensures ok ==> checksum == Fletcher32(Words(gs[..], stateSize / 2))
    {
      len := stateSize;
      if !allocates {
        return false, null, len, checksumIn;
      }
      buffer := new Byte[len];
      forall i | 0 <= i < len {
        buffer[i] := gs[i];
      }
      checksum := Fletcher32Checksum(buffer, len / 2);
      ok := true;
    }

    /** vw_load_game_state_callback: copies len bytes of buffer over gs. */
    method LoadGameState(buffer: array<Byte>, len: int) returns (ok: bool)
      requires Valid() && buffer != gs
      requires 0 <= len <= stateSize && len <= buffer.Length
      modifies gs
      ensures ok
      ensures gs[..] == buffer[..len] + old(gs[len..])
    {
      forall i | 0 <= i < len {
        gs[i] := buffer[i];
      }
      ok := true;
    }

    /** The rollback pattern GGPO drives: a state saved, the game advanced,
        the saved buffer loaded back. The load restores gs byte for byte. */
    method SaveAdvanceLoad(updated: seq<Byte>)
      requires Valid() && |updated| == stateSize
      modifies this, gs
      ensures Valid()
      ensures gs[..] == old(gs[..])
    {
      var ok, buffer, len, _ := SaveGameState(true, 0);
      AdvanceFrame(updated);
      ok := LoadGameState(buffer, len);
      assert buffer[..len] == buffer[..];
    }

    /** VectorWar_AdvanceFrame. The state gs.Update produces from the
        inputs (updated) replaces gs; ngs.now records its frame number and
        checksum, and becomes the periodic snapshot on every 90th frame. */
    method AdvanceFrame(updated: seq<Byte>)
      requires Valid() && |updated| == stateSize
      modifies this, gs
      ensures Valid()
      ensures gs[..] == updated
      ensures now == FrameChecksum(Int32At(updated, frameOffset), Fletcher32(Words(updated, stateSize / 2)))
      ensures periodic == if now.frameNumber % PeriodicInterval == 0 then now else old(periodic)
      ensures ggpoCalls == old(ggpoCalls) + [GgpoCall.AdvanceFrame]
      ensures numPlayers == old(numPlayers) && localPlayerHandle == old(localPlayerHandle)
      ensures ngsCalls == old(ngsCalls)
    {
      forall i | 0 <= i < stateSize {
        gs[i] := updated[i];
      }
      assert gs[..] == updated;
      var checksum := Fletcher32Checksum(gs, stateSize / 2);
      now := FrameChecksum(FrameNumber(), checksum);
      // C's `%` truncates where Dafny's is Euclidean; a zero remainder is
      // the same under both.
      if now.frameNumber % PeriodicInterval == 0 {
        periodic := now;
      }
      ggpoCalls := ggpoCalls + [GgpoCall.AdvanceFrame];
      // The remote handles gathered here were for a performance monitor
      // whose update is commented out.
      var _ := RemoteHandles();
    }

    /** vw_advance_frame_callback: during a rollback, fetches the inputs and
        advances one frame whatever synchronize_input answers. */
    method AdvanceFrameCallback(updated: seq<Byte>) returns (ok: bool)
      requires Valid() && |updated| == stateSize
      modifies this, gs
      ensures Valid() && ok
      ensures gs[..] == updated
      ensures now == FrameChecksum(Int32At(updated, frameOffset), Fletcher32(Words(updated, stateSize / 2)))
      ensures periodic == if now.frameNumber % PeriodicInterval == 0 then now else old(periodic)
      ensures ggpoCalls == old(ggpoCalls) + [SynchronizeInput, GgpoCall.AdvanceFrame]
      ensures numPlayers == old(numPlayers) && localPlayerHandle == old(localPlayerHandle)
      ensures ngsCalls == old(ngsCalls)
    {
      ggpoCalls := ggpoCalls + [SynchronizeInput];
      AdvanceFrame(updated);
      ok := true;
    }

    /** The remote players among the first num_players table entries, in
        table order, gathered into a MAX_PLAYERS array with a counter. */
    method RemoteHandles() returns (handles: seq<PlayerHandle>)
      requires Valid()
      ensures handles == RemotesOf(players[..numPlayers])
    {
      var buf := new PlayerHandle[MaxPlayers];
      var count := 0;
      for i := 0 to numPlayers
        invariant count <= i
        invariant buf[..count] == RemotesOf(players[..i])
      {
        assert players[..i + 1][..i] == players[..i];
        if players[i].kind == Remote {
          buf[count] := players[i].handle;
          count := count + 1;
        }
      }
      handles := buf[..count];
    }

    /** VectorWar_GetNetworkStats: the statistics GGPO reports (query) for
        each remote player, in table order. */
    method GetNetworkStats<S>(query: PlayerHandle -> S) returns (stats: seq<S>)
      requires Valid()
      ensures |stats| == |RemotesOf(players[..numPlayers])|
      ensures forall i :: 0 <= i < |stats| ==> stats[i] == query(RemotesOf(players[..numPlayers])[i])
    {
      var handles := RemoteHandles();
      stats := [];
      for i := 0 to |handles|
        invariant |stats| == i
        invariant forall j :: 0 <= j < i ==> stats[j] == query(handles[j])
      {
        stats := stats + [query(handles[i])];
      }
    }

    /** vw_on_event_callback */
    method OnEvent(e: Event, time: int) returns (ok: bool)
      requires e.SynchronizingWithPeer? ==> e.total != 0
      modifies this
      ensures ok
      ensures ngsCalls == old(ngsCalls) + EventCalls(e, time)
      ensures ggpoCalls == old(ggpoCalls) && numPlayers == old(numPlayers)
      ensures localPlayerHandle == old(localPlayerHandle) && now == old(now) && periodic == old(periodic)
    {
      ngsCalls := ngsCalls + EventCalls(e, time);
      ok := true;
    }

    /** The roster loop of VectorWar_Init: each entry is added to the
        session and to the player table under the handle GGPO hands back
        (addedHandles, in roster order); a local player starts out
        connecting with full progress and gets the frame delay. */
    method AddRoster(roster: seq<PlayerType>, addedHandles: seq<PlayerHandle>)
      requires Valid() && |roster| == |addedHandles| <= MaxPlayers
      modifies this, players
      ensures Valid() && numPlayers == old(numPlayers)
      ensures forall i :: 0 <= i < |roster| ==> players[i] == Entry(roster[i], addedHandles[i])
      ensures forall i :: |roster| <= i < MaxPlayers ==> players[i] == old(players[i])
      ensures localPlayerHandle == LocalHandleOf(roster, addedHandles, old(localPlayerHandle))
      ensures ngsCalls == old(ngsCalls) + RosterNgsCalls(roster, addedHandles)
      ensures ggpoCalls == old(ggpoCalls) + RosterGgpoCalls(roster, addedHandles, frameDelay)
      ensures now == old(now) && periodic == old(periodic)
    {
      var local, ngs, ggpo := localPlayerHandle, ngsCalls, ggpoCalls;
      for i := 0 to |roster|
        modifies players
        invariant forall j :: 0 <= j < i ==> players[j] == Entry(roster[j], addedHandles[j])
        invariant forall j :: i <= j < MaxPlayers ==> players[j] == old(players[j])
        invariant local == LocalHandleOf(roster[..i], addedHandles[..i], old(localPlayerHandle))
        invariant ngs == old(ngsCalls) + RosterNgsCalls(roster[..i], addedHandles[..i])
        invariant ggpo == old(ggpoCalls) + RosterGgpoCalls(roster[..i], addedHandles[..i], frameDelay)
      {
        RosterStep(roster, addedHandles, i, frameDelay, old(localPlayerHandle));
        var handle := addedHandles[i];
        ggpo := ggpo + [AddPlayer(i)];
        var progress := 0;
        if roster[i] == Local {
          progress := 100;
          local := handle;
          ngs := ngs + [SetConnectState(handle, Connecting)];
          ggpo := ggpo + [SetFrameDelay(handle, frameDelay)];
        }
        players[i] := PlayerInfo(handle, roster[i], progress);
      }
      assert roster[..|roster|] == roster && addedHandles[..|addedHandles|] == addedHandles;
      localPlayerHandle, ngsCalls, ggpoCalls := local, ngs, ggpo;
    }

    /** VectorWar_Init: gs.Init gives initialState, a session is started
        and configured, and every roster entry is added to it and to the
        player table. Of the roster, the first numPlayers are players and
        the rest spectators. */
    method Init(localPort: int, numPlayers: int, roster: seq<PlayerType>, numSpectators: int,
                addedHandles: seq<PlayerHandle>, initialState: seq<Byte>)
      requires Valid()
      requires 0 <= numPlayers && 0 <= numSpectators
      requires |roster| == numPlayers + numSpectators == |addedHandles| <= MaxPlayers
      requires |initialState| == stateSize
      modifies this, gs, players
      ensures Valid()
      ensures gs[..] == initialState && this.numPlayers == numPlayers
      ensures forall i :: 0 <= i < |roster| ==> players[i] == Entry(roster[i], addedHandles[i])
      ensures forall i :: |roster| <= i < MaxPlayers ==> players[i] == old(players[i])
      ensures localPlayerHandle == LocalHandleOf(roster, addedHandles, old(localPlayerHandle))
      ensures ngsCalls == old(ngsCalls) + RosterNgsCalls(roster, addedHandles)
      ensures ggpoCalls == old(ggpoCalls)
        + [StartSession(numPlayers, InputSize, localPort),
           SessionDisconnectTimeout(DisconnectTimeoutMs),
           SessionDisconnectNotifyStart(DisconnectNotifyStartMs)]
        + RosterGgpoCalls(roster, addedHandles, frameDelay)
        + [TrySynchronizeLocal]
      ensures now == old(now) && periodic == old(periodic)
    {
      ghost var table0 := players[..];
      forall i | 0 <= i < stateSize {
        gs[i] := initialState[i];
      }
      assert gs[..] == initialState && players[..] == table0;
      this.numPlayers := numPlayers;
      ggpoCalls := ggpoCalls
        + [StartSession(numPlayers, InputSize, localPort),
           SessionDisconnectTimeout(DisconnectTimeoutMs),
           SessionDisconnectNotifyStart(DisconnectNotifyStartMs)];
      AddRoster(roster, addedHandles);
      ggpoCalls := ggpoCalls + [TrySynchronizeLocal];
    }

    /** VectorWar_RunFrame: the answers of add_local_input (added) and
        synchronize_input (synced) decide which calls follow and whether
        the game advances to updated. */
    method RunFrame(localInput: int, added: GgpoResult, synced: GgpoResult, updated: seq<Byte>)
      requires Valid() && |updated| == stateSize
      modifies this, gs
      ensures Valid()
      ensures ggpoCalls == old(ggpoCalls) + RunFrameCalls(old(localPlayerHandle), localInput, added, synced)
      ensures Advances(old(localPlayerHandle), added, synced) ==>
        gs[..] == updated
        && now == FrameChecksum(Int32At(updated, frameOffset), Fletcher32(Words(updated, stateSize / 2)))
        && periodic == (if now.frameNumber % PeriodicInterval == 0 then now else old(periodic))
      ensures !Advances(old(localPlayerHandle), added, synced) ==>
        gs[..] == old(gs[..]) && now == old(now) && periodic == old(periodic)
      ensures numPlayers == old(numPlayers)
      ensures localPlayerHandle == old(localPlayerHandle) && ngsCalls == old(ngsCalls)
    {
      var result := Success;
      if localPlayerHandle != InvalidHandle {
        ggpoCalls := ggpoCalls + [AddLocalInput(localPlayerHandle, localInput)];
        result := added;
      }
      if result.Success? {
        ggpoCalls := ggpoCalls + [SynchronizeInput];
        result := synced;
        if result.Success? {
          AdvanceFrame(updated);
        }
      }
    }

    /** VectorWar_DisconnectPlayer, with the corrected guard: a player
        inside the table is disconnected by its handle, any other index is
        ignored. GGPO's answer only chooses a log line. */
    method DisconnectPlayer(player: int)
      requires Valid()
      modifies this
      ensures Valid() && numPlayers == old(numPlayers) && localPlayerHandle == old(localPlayerHandle)
      ensures ggpoCalls == old(ggpoCalls)
        + (if DisconnectGuard(player, numPlayers) then [GgpoCall.DisconnectPlayer(players[player].handle)] else [])
      ensures ngsCalls == old(ngsCalls) && now == old(now) && periodic == old(periodic)
    {
      if DisconnectGuard(player, numPlayers) {
        ggpoCalls := ggpoCalls + [GgpoCall.DisconnectPlayer(players[player].handle)];
      }
    }
  }
}
