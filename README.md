# das: a Dafny model of the command-replication game core

This project models the sequential core of a small grid-based multiplayer
game. A server replicates game commands to clients and peer servers over TCP.
The model covers six parts:

- **Framing** (`network_util.dfy`, module `NetworkUtil`). Each message is its
  UTF-8 bytes prefixed by their length as a 4-byte big-endian unsigned
  integer. The socket is a class whose `stream` holds the bytes still to
  arrive. Its `recv(n)` hands back a non-empty prefix of at most `n` bytes,
  or nothing at the end of the stream, or it raises. The reader is proved
  correct however `recv` splits the stream. `utf8.dfy` (module `Utf8`) is a
  strict UTF-8 codec that stands in for `str.encode` / `bytes.decode`.
- **Users** (`user.dfy`, module `Users`). The kind-dependent initial hit
  points, attack power, maximum hit points and ids.
- **The client's game state** (`game.dfy`, module `ClientGame`). A 5x5 grid of
  user references, the user registry and the FIFO command list, with the
  grid/position invariant that `add_user` and `remove_user` keep.
- **The client's decision rules** (`app.dfy`, module `App`). The Manhattan
  range query, the priority rules of `simulate_player` (heal, attack, move
  toward the nearest dragon), `simulate_dragon`, and the producer/consumer
  use of the command list.
- **Server commands** (`command.dfy`, module `ServerCommand`). The `applied`
  lifecycle and `NewPlayerCommand.apply` queueing itself. `queue.dfy`
  (module `Queues`) is the `put` of Python's `queue.Queue`.
- **Peer connections** (`p2p_connection.dfy`, module `P2P`). Heartbeat and
  broadcast dispatch, and what a whole sequence of messages does.

Random choices appear in two forms. In the decision functions they are
parameters (`pick`). In the methods they are nondeterministic choices (`:|`).

Coordinates and hit points are integers. `math.fabs` becomes an integer
absolute value, and `hp < MAX_HP/2` becomes `2 * hp < maxHp`.

The model follows the code where its own comments say otherwise: the doc
comments of `common/network_util.py` speak of a 2-byte header, but the code
uses `SIZE_BYTES = 4` and `>I`, and so does the model. Peer messages are
dispatched on `hb`, `bc` and `init`, and `init` does nothing.
`read_message` decodes the body as UTF-8, so `ReadMessage` can fail with
`UnicodeDecodeError`.

## Model

| member | source | states |
|---|---|---|
| `NetworkUtil.HeaderRoundTrip` | common/network_util.py:16 | unpacking the `>I` header of any length below 2^32 gives that length back |
| `NetworkUtil.HeaderUnpackPack` | common/network_util.py:31 | packing the length read from any 4 header bytes gives those 4 bytes back, so the header is a bijection |
| `NetworkUtil.Pack` | common/network_util.py:8-17 | for every string of Unicode scalar values, `pack` succeeds exactly when the UTF-8 length fits in 32 bits; its result then has length 4 + that length, a header that decodes to that length, and the UTF-8 bytes after it |
| `NetworkUtil.Socket.Recv` | common/network_util.py:53 | a `recv(n)` on a healthy socket removes and returns a prefix of at most `n` bytes of the stream, non-empty unless the stream has ended; on a faulty socket it raises and consumes nothing; every call is logged |
| `NetworkUtil.AsksOnlyRemainderAt` | common/network_util.py:47-66 | in a read of `size` bytes, the k-th `recv` asks for `size` minus what the earlier calls delivered, so never more than `size` |
| `NetworkUtil.ReadBytesSpec` | common/network_util.py:38-68 | a successful read yields exactly `size` bytes that are a prefix of the stream, with the rest left; a failure only happens when `size > 0`, and it is a TCP connection error |
| `NetworkUtil.ReadBytesFromSocket` | common/network_util.py:38-68 | for any split of the stream by `recv`, the outcome and the bytes left are those of `ReadBytesSpec`: the first `size` bytes; "Socket Closed" when `recv` raises; "Connection error while reading data." when the stream ends early; no `recv` at all when `size == 0`; every `recv` asks only for the remainder; `size - total_len` decreases on every pass |
| `NetworkUtil.ParseFrame` | common/network_util.py:20-35 | the reference reading of one frame from a stream: header, then body, then UTF-8 decode; it never consumes more than the stream holds, a success consumes at least the header, and `FrameRoundTrip`/`ParsedFrameIsPacked` tie it to `pack` both ways |
| `NetworkUtil.ReadMessage` | common/network_util.py:20-35 | the socket's health never changes; on a healthy socket, `read_message` returns the outcome of parsing one frame off the stream (header, body, UTF-8 decode) and consumes exactly that frame, however `recv` splits it; on a faulty one it raises at once |
| `NetworkUtil.FrameRoundTrip` | common/network_util.py:8-35 | on a stream starting with `pack(s)`, reading a message yields `s` and consumes exactly the `4 + len(utf8(s))` bytes of the frame |
| `NetworkUtil.TwoFrames` | common/network_util.py:8-35 | two packed frames in a row are read back in order; the first read leaves the second frame intact |
| `NetworkUtil.ParsedFrameIsPacked` | common/network_util.py:8-35 | any successfully read message was sent as exactly the frame `pack` builds for it |
| `Utf8.Encode` | common/network_util.py:15 | `str.encode('utf8')`: each character takes one to four bytes, so the encoding is between `len(s)` and `4 * len(s)` bytes long; `DecodeEncode` proves it is undone by `Decode` |
| `Utf8.Decode` | common/network_util.py:35 | strict `bytes.decode('utf8')`: a decoded string has no more characters than there were bytes; `EncodeDecode` proves a success is undone by `Encode` |
| `Utf8.DecodeEncode` | common/network_util.py:15-35 | decoding the UTF-8 encoding of any string gives the string back |
| `Utf8.EncodeDecode` | common/network_util.py:15-35 | bytes that decode successfully are the encoding of what they decode to |
| `Users.InitialStats` | common/user.py:5-27 | a dragon starts with hp 50, ap 1 and an id "D@" followed by the creation time, ignoring the id given; a player starts with hp 15, ap 5 and the id given; in both cases `MAX_HP == hp`; any other type yields no user |
| `Users.DragonIdsDistinct` | common/user.py:8 | distinct `time.time()` readings give distinct dragon ids (two dragons created within one clock tick share an id) |
| `Users.User.constructor` | common/user.py:5-27 | a new user has the given type, an empty `pos`, the initial stats of its type, and `0 <= hp <= MAX_HP` |
| `Users.User.Create` | common/user.py:5-27 | a user exists exactly when the type is a player or a dragon, and then it is fresh, unplaced and has the initial stats of that type |
| `ClientGame.Game.constructor` | client/game.py:6-13 | a new game has a fresh 5x5 grid with every cell empty, no users and no commands, and satisfies the grid invariant |
| `ClientGame.Game.AddUser` | client/game.py:43-50 | on an empty cell: puts `p` there, sets `p.pos = [r, c]`, appends `p` to the users and returns true; on an occupied cell: returns false and changes nothing; other cells never change; adding an unregistered user keeps the grid invariant |
| `ClientGame.RemoveFirstDistinct` | client/game.py:56 | in a duplicate-free list, `list.remove(x)` leaves exactly the other elements, still duplicate-free |
| `ClientGame.Game.RemoveUser` | client/game.py:52-58 | on an occupied cell: removes the occupant from the users, empties the cell and returns true; on an empty cell: returns false and changes nothing; other cells never change; the grid invariant is kept |
| `ClientGame.Game.Epoch` | client/game.py:60-69 | with commands waiting: the head command is sent and removed, and the tail keeps its order, while applying it may change any grid cell and any registered user's fields and may drop users, but adds none; with none: nothing changes, not the lists, not a grid cell, not a user's `pos` or `hp` |
| `ClientGame.Game.EmulateAll` | client/game.py:71-82 | all waiting commands are sent in the order they were queued, and the list ends empty; the applied commands may change the grid and the users' fields and may drop users, but add none; with none waiting: nothing changes, not the registry, not a grid cell, not a user's `pos` or `hp` |
| `ClientGame.Game.SimulatePlayer` | client/game.py:113-116 | the command built for cell (r, c) is a move of value 1 or -1, issued by that cell's occupant |
| `ClientGame.Game.SimulateRow` | client/game.py:108-111 | one pass over row i appends one unit move per occupied cell, left to right, issued by its occupant |
| `ClientGame.Game.SimulateRound` | client/game.py:107-111 | one iteration appends one unit move per occupied cell, in row-major order |
| `ClientGame.Game.Simulate` | client/game.py:105-111 | `_simulate(n)` keeps the earlier commands and appends n rounds; each round holds one unit move per occupied cell in row-major order, issued by its occupant |
| `ClientGame.UnitMovesByAt` | client/game.py:109-111 | the appended commands are, position by position, unit moves whose issuer is the matching occupant id |
| `App.InRange` | client/app.py:109-127 | the range query's result holds no more users than the list, and only users of the list; `InRangeMembers`, `InRangeSubsequence` and `InRangeFirst` state what it selects and in what order |
| `App.ValidPositioned` | client/game.py:43-58 | under the grid invariant that `add_user`/`remove_user` keep, every registered user has a position, so the range query applies to the game's users |
| `App.InRangeMembers` | client/app.py:118-127 | the range query returns exactly the users within `limit` (Manhattan distance) of the point that pass the type filter, in both directions |
| `App.InRangeSubsequence` | client/app.py:119-125 | the range query's result is a subsequence of the users, in the same order |
| `App.InRangeFirst` | client/app.py:59-61 | the result is non-empty exactly when some user is selected, and its first element is the first selected user in list order |
| `App.ClientApp.GetUsersInRange` | client/app.py:109-127 | the loop returns exactly the range query's selection |
| `App.FirstWoundedInRange` | client/app.py:53-56 | the heal loop finds a user exactly when some user in range has `2 * hp < MAX_HP`, and it finds the first such user in list order |
| `App.DragonsOf` | client/app.py:65 | the dragon filter keeps every dragon of the users and nothing else |
| `App.ClosestIndex` | client/app.py:71-75 | the head of the stably sorted dragon list is a dragon of minimum distance, and every dragon before it is strictly farther |
| `App.StepTo` | client/app.py:79-91 | the move's axis is H when the rows match, V when the columns match, and the random pick otherwise; its value points toward the target on that axis |
| `App.PlayerCommand` | client/app.py:46-96 | `simulate_player`: any command it returns is issued by this client, and a move it returns is a unit step; the priority rules are proved in `PlayerHeals`, `PlayerAttacks`, `PlayerMoves` and `PlayerIdle` |
| `App.PlayerHeals` | client/app.py:52-56 | `simulate_player` heals exactly when some player within 5 has `2 * hp < MAX_HP`, and it targets the first one in list order |
| `App.PlayerAttacks` | client/app.py:58-62 | with nobody to heal, it attacks exactly when a dragon is within 2, and it targets the first one in list order |
| `App.PlayerMoves` | client/app.py:64-94 | with nobody to heal and no dragon within 2, it moves exactly when some dragon exists; the move is issued by this player, is a unit step toward a dragon of minimum distance, and follows the axis rules of `StepTo` |
| `App.PlayerIdle` | client/app.py:46-96 | it returns nothing exactly when nobody is to be healed and there is no dragon at all |
| `App.DragonCommand` | client/app.py:98-106 | `simulate_dragon`: any command it returns is an attack on this client; `DragonAttacks` and `AnyNearDragonMayAttack` state who the attacker can be |
| `App.DragonAttacks` | client/app.py:98-106 | `simulate_dragon` returns an attack exactly when a dragon is within 2; the attacker is such a dragon and the target is this client |
| `App.AnyNearDragonMayAttack` | client/app.py:105 | every dragon within 2 is a possible choice of attacker |
| `App.FirstWithId` | client/app.py:23 | the lookup of this client's user finds the first user with this id |
| `App.ClientApp.constructor` | client/app.py:16-23 | the client keeps its id and game and refers to the first user of the game with that id |
| `App.ClientApp.GenerateOne` | client/app.py:41 | one random choice between the player's and a dragon's decision: any command returned is a possible decision; there is always one when a dragon is within 2; there is none when nobody is to be healed and there is no dragon |
| `App.ClientApp.GenerateCommands` | client/app.py:33-44 | `_generate_commands(n)` keeps the earlier commands and appends at most n possible decisions, never None; exactly n when a dragon is within 2; none when there is nothing to do |
| `App.ClientApp.SendHead` | client/app.py:141-147 | with commands waiting, the head is removed and sent, and the tail keeps its order; with none, nothing changes |
| `App.ClientApp.RunStep` | client/app.py:136-147 | one `_run` step generates at most one command and then sends the oldest waiting one (FIFO); nothing is sent only when the list stays empty |
| `ServerCommand.Command.constructor` | server/core/command.py:2-5 | a new command stores its timestamp and id and is not applied |
| `ServerCommand.Command.NewPlayerCommand` | server/core/command.py:12-14 | a new-player command stores its timestamp and id, is not applied and has an empty initial state |
| `ServerCommand.Command.Apply` | server/core/command.py:7-27 | the base `apply` changes neither the command nor the queue; `NewPlayerCommand.apply` sets `applied` and `initial_state == "initial_state"` and appends exactly this command to the back of the queue, earlier entries unchanged; timestamp and id never change and the lifecycle invariant is kept |
| `P2P.P2PConnection.constructor` | server/network/p2p_connection.py:11-14 | a new peer connection starts with a heartbeat of 10000 |
| `P2P.P2PConnection.OnMessage` | server/network/p2p_connection.py:20-35 | `hb` adds exactly 1000 to the heartbeat and leaves the queue alone; `bc` appends exactly its command to the back of the request queue and leaves the heartbeat alone; `init` and unknown types change nothing |
| `P2P.Step` | server/network/p2p_connection.py:20-35 | the effect of one message: the heartbeat never decreases, and the request queue keeps its entries and gains at most one at the back; `OnMessage` is proved to perform it |
| `P2P.RunEffect` | server/network/p2p_connection.py:20-35 | over any message sequence, the heartbeat grows by exactly 1000 per `hb`, and the queue grows by exactly the `bc` commands, in arrival order |
| `P2P.HeartbeatFromStart` | server/network/p2p_connection.py:14-35 | from a new connection, the heartbeat is 10000 + 1000 times the number of `hb` messages, and it never decreases along the sequence |

## Left out

- Sockets beyond the byte stream: connecting, `select`, sending and the receive threads of the client and server transports. The server's client connection is not part of this model. A `recv` that fails after part of a read is not modelled; a socket either works or raises on every `recv`.
- `NetworkUtil.Pack`: strings with lone surrogates, on which `str.encode('utf8')` raises `UnicodeEncodeError`, cannot be expressed, because a Dafny `char` is a Unicode scalar value. So the model has no `UnicodeEncodeError` path.
- The UDP helpers of `common/network_util.py` (`sendto`/`recvfrom` plus JSON) are not part of this model.
- JSON encoding and decoding (`json.loads`, `from_json`, `to_json`): messages and commands are already-parsed datatypes. A peer broadcast carries an already-decoded client command.
- Threads, `time.sleep` and the endless `while True` of `_run`, `emulate` and `_emulate`: one `_run` step is modelled (`RunStep`), not the loop. `ClientApp.__init__`'s handshake through the transport is left out. The constructor takes a game that already holds this client's user.
- Logging, `print` and `Game.__str__`.
- `ClientGame.Game.Epoch`: the effect of `command.apply(self)` on the game is not stated. The move, heal and attack commands and `common.game.Game` are not part of this model. The contract lets an applied command change any grid cell and any registered user's fields (so nothing about the grid or the users' positions and hit points can be concluded after `epoch` or `emulate_all` runs a command). It keeps one assumption: an applied command adds no user to the registry, because the frame of `emulate_all` must name the users it may touch. `sock.send` is modelled as appending to the `sent` log.
- `client/app.py` imports `common.game.Game`, which is not part of this model. The client application is modelled over `ClientGame.Game` from `client/game.py`, which has the same `users` and `commands` attributes.
- `ClientGame.Game.Simulate`: `_simulate` appends plain dictionaries (type, direction, value, user). The model appends the equivalent `Move` command instead. In the source, `epoch` would fail on such a dictionary, since it has no `apply`; the model does not show that.
- `time.time()` is a `clock` string parameter of the user constructor. The default id `"NOT_DEFINED"` of `User(type)` is the constant `DEFAULT_ID`; callers pass it explicitly, since Dafny constructors take no default arguments. `sys.exit()` on an unknown user type becomes "no user" (`None` / `null`).
- Python's negative indexing in `add_user`/`remove_user` is excluded by a `requires` that the cell lies on the grid.
- `ClientGame.Game.RemoveUser` requires the occupant of a non-empty cell to be registered. Otherwise `list.remove` raises, and the model does not capture that exception.
- `P2P.P2PConnection.OnMessage` requires a `bc` message to carry a command. The source fails with a `KeyError` otherwise, and the model does not capture that failure.
- `Queues.Queue` models only `put`; blocking `get` and thread safety are left out.
- The random choices (`random.choice`, the attacker, the player/dragon coin) are free parameters or nondeterministic choices. Their distribution is not modelled.
