# VectorWar host glue: checksum, state buffers and session gating

A Dafny model of the host side of VectorWar, the GGPO rollback-netcode
sample game (`vectorwar.cpp`). The game state `gs` is an opaque block of
bytes. The non-game state `ngs` holds the player table, the local player's
handle and two checksum records. The model covers:

- `fletcher32_checksum`, the Fletcher-32 variant used to tag saved states
  and to show a per-frame desync indicator. It is a pure specification
  (`Fletcher.Fletcher32` over 16-bit signed words). Two imperative methods,
  the outer loop and the do-while it calls, read the words little-endian
  from a byte array and are proved equal to that specification. Lemmas say what the
  specification computes:
  - every word is added to sum1 once, in order, and every running sum1 is
    added to sum2;
  - each fold preserves the sums modulo 65535, so the final sums are
    Fletcher's sums modulo 65535 whatever the 360-word blocking;
  - the final sums are 16-bit, and the result packs sum2 into the high
    half and sum1 into the low half.
- The save and load callbacks: a byte copy tagged with the checksum, and
  a byte copy back. A save, then an advance, then a load restores `gs`.
- `VectorWar_AdvanceFrame`: the frame number and checksum recorded in
  `ngs.now`, and the snapshot into `ngs.periodic` every 90th frame.
- `vw_on_event_callback`: the NonGameState call each GGPO event makes, and
  the connection percentage `100 * count / total`.
- `VectorWar_Init`: the session set-up calls and the roster loop that fills
  the player table.
- The remote-handle filter of `VectorWar_AdvanceFrame` and
  `VectorWar_GetNetworkStats`.
- The add-input, synchronize, advance gating of `VectorWar_RunFrame`.
- `VectorWar_DisconnectPlayer` and its table-index guard.

The modules are:
- `Memory`: byte views of a block (`short`s and `int`s, little-endian).
- `Fletcher`: the checksum.
- `VectorWar`: the event table, the roster functions, the gating, and the
  class `Host`. `Host` holds `gs`, the `ngs` fields and the state of the
  callbacks and entry points.

Calls into the GGPO library and into the NonGameState methods are not
executed. They are appended, in order, to two trace fields
(`ggpoCalls`, `ngsCalls`). What GGPO returns (a result code, a handle,
the statistics for a handle) comes in as a method parameter, and so does
the state `gs.Update` produces from the synchronized inputs.

## Model

| member | source | states |
|---|---|---|
| `Fletcher.Fletcher32Checksum` | Source/VectorWarUE4/Private/VectorWar/vectorwar.cpp:27-47 | The nested loops over the first len words of the byte block return `Fletcher32` of those words; the block is only read. |
| `Fletcher.SumBlock` | Source/VectorWarUE4/Private/VectorWar/vectorwar.cpp:35-38 | The do-while over tlen >= 1 words leaves exactly the sums of the inner-loop specification `Run` over those words. |
| `Fletcher.BlockLength` | Source/VectorWarUE4/Private/VectorWar/vectorwar.cpp:33 | A block is never longer than 360 words or than what is left; it is non-empty while words remain, and is either all that is left or exactly 360. |
| `Fletcher.RunClosedForm` | Source/VectorWarUE4/Private/VectorWar/vectorwar.cpp:35-38 | From (a, b), n words leave sum1 = a + Σ d_j and sum2 = b + n·a + Σ (n − j)·d_j: each word enters sum1 once, in order, and sum2 gains every running sum1. |
| `Fletcher.FoldCongruent` | Source/VectorWarUE4/Private/VectorWar/vectorwar.cpp:39-40 | `(s & 0xffff) + (s >> 16)` is congruent to s modulo 65535. |
| `Fletcher.BlocksCongruent` | Source/VectorWarUE4/Private/VectorWar/vectorwar.cpp:32-41 | After the outer loop, whatever the blocking, the sums are congruent modulo 65535 to the unblocked closed form of `RunClosedForm`. |
| `Fletcher.FinalSumsCongruent` | Source/VectorWarUE4/Private/VectorWar/vectorwar.cpp:30-45 | The final sum1 ≡ Σ d_j and sum2 ≡ Σ (n − j)·d_j (mod 65535); the initial 0xffff values count as 0. |
| `Fletcher.BlockKeepsRange` | Source/VectorWarUE4/Private/VectorWar/vectorwar.cpp:33-40 | A block of at most 360 words, then a fold, takes sums in [-40000, 100000] back into that range. |
| `Fletcher.BlocksKeepRange` | Source/VectorWarUE4/Private/VectorWar/vectorwar.cpp:32-41 | The range [-40000, 100000] holds after every block of the outer loop. |
| `Fletcher.FinalSumsAre16Bit` | Source/VectorWarUE4/Private/VectorWar/vectorwar.cpp:43-45 | The second reduction step brings both sums into [0, 0xffff]. |
| `Fletcher.Fletcher32Halves` | Source/VectorWarUE4/Private/VectorWar/vectorwar.cpp:46 | The checksum's low 16 bits are the final sum1 and its high 16 bits the final sum2; each is congruent to Fletcher's sum modulo 65535. |
| `Fletcher.EmptyChecksum` | Source/VectorWarUE4/Private/VectorWar/vectorwar.cpp:30-46 | With no words both sums stay 0xffff, and the packed 0xffffffff reads as the `int` -1. |
| `Fletcher.ToInt32` | Source/VectorWarUE4/Private/VectorWar/vectorwar.cpp:46 | The 32-bit `int` the packed value becomes: within the `int` range and congruent to it modulo 2^32. |
| `Fletcher.FullBlockExceedsInt32` | Source/VectorWarUE4/Private/VectorWar/vectorwar.cpp:30-38 | A first block of 360 words 0x7fff takes sum2 to 2152857795, beyond the largest `int`. |
| `Memory.WordsPrefix` | Source/VectorWarUE4/Private/VectorWar/vectorwar.cpp:150 | The checksum over len/2 words reads only the first 2·(len/2) bytes, so an odd trailing byte does not affect it. |
| `VectorWar.Host.SaveGameState` | Source/VectorWarUE4/Private/VectorWar/vectorwar.cpp:141-152 | len is sizeof(gs). If the allocation succeeds: a fresh buffer byte-identical to gs, tagged with the checksum of its first len/2 words, and true. If it fails: false, no buffer, and the checksum left unwritten. |
| `VectorWar.Host.LoadGameState` | Source/VectorWarUE4/Private/VectorWar/vectorwar.cpp:128-133 | The first len bytes of gs become the buffer's; the rest of gs is unchanged; the answer is true. |
| `VectorWar.Host.SaveAdvanceLoad` | Source/VectorWarUE4/Private/VectorWar/vectorwar.cpp:128-152 | Loading a buffer that save produced restores gs byte for byte, even after the game has advanced in between. |
| `VectorWar.Host.AdvanceFrame` | Source/VectorWarUE4/Private/VectorWar/vectorwar.cpp:318-342 | gs becomes the updated state. `ngs.now` holds its frame number and its checksum over sizeof(gs)/2 words. `ngs.periodic` becomes `ngs.now` exactly when the frame number is a multiple of 90 and is otherwise unchanged. GGPO is told the frame advanced. |
| `VectorWar.Host.AdvanceFrameCallback` | Source/VectorWarUE4/Private/VectorWar/vectorwar.cpp:110-121 | During a rollback, inputs are synchronized, then the frame advances whatever the synchronize call answers: gs, `ngs.now` and `ngs.periodic` change as in `AdvanceFrame`, the player table, local handle and NonGameState calls do not, and the answer is true. |
| `VectorWar.RemotesOf` | Source/VectorWarUE4/Private/VectorWar/vectorwar.cpp:334-340 | The handle filter yields one handle per REMOTE entry, in table order: the REMOTE entry with k REMOTE entries before it supplies handle k. A handle is in the result exactly when a REMOTE entry carries it. |
| `VectorWar.Host.RemoteHandles` | Source/VectorWarUE4/Private/VectorWar/vectorwar.cpp:403-409 | The counter loop into a MAX_PLAYERS array yields exactly `RemotesOf` of the first num_players table entries, in table order. |
| `VectorWar.Host.GetNetworkStats` | Source/VectorWarUE4/Private/VectorWar/vectorwar.cpp:400-420 | One statistics record per remote player, in table order, each the one GGPO reports for that player's handle. |
| `VectorWar.ProgressBounds` | Source/VectorWarUE4/Private/VectorWar/vectorwar.cpp:75-77 | For 0 <= count <= total, `100 * count / total` lies in [0, 100] and is 100 exactly when count == total. |
| `VectorWar.ProgressMonotone` | Source/VectorWarUE4/Private/VectorWar/vectorwar.cpp:76 | More completed handshakes never lower the percentage. |
| `VectorWar.EventCalls` | Source/VectorWarUE4/Private/VectorWar/vectorwar.cpp:67-101 | Every event but a timesync makes exactly one NonGameState call. A per-player event targets that player. A synchronized event sets 100 %. An interruption passes the player, the current time and GGPO's disconnect timeout to `SetDisconnectTimeout`. A synchronizing event reports a percentage in [0, 100] that is 100 only when complete. |
| `VectorWar.EventConnectStates` | Source/VectorWarUE4/Private/VectorWar/vectorwar.cpp:72-95 | Only connected, resumed and disconnected events set one player's state: to Synchronizing, Running and Disconnected. Only the running event sets everyone's, to Running. |
| `VectorWar.Host.OnEvent` | Source/VectorWarUE4/Private/VectorWar/vectorwar.cpp:67-101 | The callback makes exactly the calls of `EventCalls`, touches nothing else, and answers true. |
| `VectorWar.Host.AddRoster` | Source/VectorWarUE4/Private/VectorWar/vectorwar.cpp:241-255 | Entry i of the table gets the i-th handle and type: 100 % for a local player, 0 % otherwise. Later entries are unchanged. The local handle is the last local player's. Each local player is put into Connecting and given the frame delay. Every entry is added to the session in order. |
| `VectorWar.Host.Init` | Source/VectorWarUE4/Private/VectorWar/vectorwar.cpp:210-260 | gs takes its initial state and num_players is set. The session is started, the 3000 ms disconnect timeout and 1000 ms notify start are set, the roster is added as in `AddRoster`, and a local synchronize is tried last. |
| `VectorWar.SingleLocalPlayer` | Source/VectorWarUE4/Private/VectorWar/vectorwar.cpp:241-255 | With exactly one local player in the roster, its handle becomes the local handle, and it is the only player put into Connecting. |
| `VectorWar.NoLocalPlayer` | Source/VectorWarUE4/Private/VectorWar/vectorwar.cpp:241-255 | A roster without a local player leaves the local handle as it was and puts nobody into Connecting. |
| `VectorWar.RunFrameGating` | Source/VectorWarUE4/Private/VectorWar/vectorwar.cpp:350-374 | Local input is added if and only if the local handle is valid. Inputs are synchronized if and only if that add succeeded or was skipped. The game advances if and only if synchronizing also succeeded, and advancing is the last call. |
| `VectorWar.Host.RunFrame` | Source/VectorWarUE4/Private/VectorWar/vectorwar.cpp:350-374 | The calls are those of `RunFrameCalls`. When the gate opens, gs, `ngs.now` and `ngs.periodic` (the 90-frame snapshot) advance as in `AdvanceFrame`. Otherwise gs, `ngs.now` and `ngs.periodic` are unchanged. num_players, the local handle and the NonGameState calls never change. |
| `VectorWar.GuardAsWrittenAdmitsNegative` | Source/VectorWarUE4/Private/VectorWar/vectorwar.cpp:301 | The guard as written lets player -1 through for every table size; the corrected guard does not. |
| `VectorWar.Host.DisconnectPlayer` | Source/VectorWarUE4/Private/VectorWar/vectorwar.cpp:298-310 | A player inside the table is disconnected by its handle. Any other index makes no call. Nothing else changes. |

## Left out

- `Fletcher.Fletcher32Checksum`: the sums are unbounded integers, not C `int`s. A block of 360 words can overflow the 32-bit `int` (`Fletcher.FullBlockExceedsInt32` gives such an input); C leaves that undefined, and the model keeps the exact value. The 360-word blocking is there to prevent overflow, but with signed words it does not; the model follows the code.
- `VectorWar.EventCalls`: the percentage `100 * count / total` is computed in unbounded integers. In C, `100 * count` is an `int` product that overflows once count exceeds 21474836, which is undefined behaviour; the model keeps the exact value. `VectorWar.ProgressBounds` and `VectorWar.ProgressMonotone` are stated for that exact value. For counts up to 21474836 the two agree.
- `Fletcher.Fletcher32`: `sum2 << 16` with sum2 >= 0x8000 shifts into the sign bit of an `int`. The model takes the two's-complement wrap that a 32-bit target gives.
- Words and `gs._framenumber` are read little-endian, as on the x86 Windows target. `VectorWar.Host` takes sizeof(gs) and the offset of `_framenumber` as constructor parameters, because the `GameState` layout (gamestate.h) is not part of this model.
- `gs.Update`, `gs.Init` and the ship and bullet physics (floating point, not part of this model). The state they produce is a parameter (`updated`, `initialState`).
- The GGPO library itself. The calls the modelled functions make to it (session start, disconnect settings, add player, frame delay, try synchronize, add local input, synchronize input, advance frame, disconnect player) are recorded in order with their arguments, and their results are parameters. `ggpo_get_network_stats` is not recorded: its answers for each handle come in as a function parameter of `VectorWar.Host.GetNetworkStats`.
- The NonGameState method bodies (`SetConnectState`, `UpdateConnectProgress`, `SetDisconnectTimeout`), which are in a header that is not part of this model. Their calls are recorded with their arguments.
- `timeGetTime` and the `Sleep` on a timesync event (wall clock). The time is a parameter of `VectorWar.Host.OnEvent`; the sleep is dropped.
- `vw_log_game_state` (file output and float formatting) and the `sprintf_s` log lines in `VectorWar_DisconnectPlayer`. They change no modelled state.
- `vw_begin_game_callback`, which returns true and does nothing else.
- `vw_free_buffer`, a single `free`, and `VectorWar_Idle`, a single `ggpo_idle` call.
- `VectorWar_InitSpectator`, which initialises gs, sets num_players and starts a spectating session. It has no roster loop, and it repeats the first steps of `VectorWar.Host.Init` with a different GGPO start call.
- `VectorWar_Exit`, which zeroes gs and ngs and then closes the session if there is one. The zeroed state is what the `VectorWar.Host` constructor gives.
- The `SYNC_TEST` build, which starts a synctest session and feeds `rand()` inputs.
- The `inputs` and `disconnect_flags` that GGPO hands to `gs.Update`. They only reach the physics.
- The globals' zero initialisation is the `VectorWar.Host` constructor. The `ngs.players` table is modelled with MAX_PLAYERS (64) entries.
- `VectorWar.Host.Init` requires the roster to fit the 64-entry table. The C code writes past the table for a longer roster.
- `VectorWar.Host.LoadGameState` requires len to be at most sizeof(gs) and the buffer to be a block other than gs, as `memcpy` into gs needs.
- `VectorWar.Host.OnEvent` requires a synchronizing event to report a non-zero total, as the C division needs.

## Findings

| source | as written | input that shows it | evidently intended | confidence | as-written member | corrected member |
|---|---|---|---|---|---|---|
| Source/VectorWarUE4/Private/VectorWar/vectorwar.cpp:301 | `player < ngs.num_players` has no lower bound, so `ngs.players[player]` is read for a negative player | `VectorWar_DisconnectPlayer(-1)` reads `ngs.players[-1]`, before the table | only indices 0 <= player < num_players reach the table | medium: not executed; the callers are not part of this model. | `VectorWar.GuardAsWrittenAdmitsNegative` | `VectorWar.Host.DisconnectPlayer` |
