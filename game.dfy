/**
 * The client's game state (client/game.py): a fixed 5x5 grid whose cells are
 * empty or refer to a user, the registry of users, and the FIFO list of
 * commands waiting to be applied and sent to the server.
 */
module ClientGame {
  import opened Users

  /** Axis of a move: `h` moves along a row (changes the column), `v` along a column. */
  datatype Direction = H | V

  /** The commands a client produces (MoveCommand, HealCommand, AttackCommand). */
  datatype ClientCommand =
    | Move(issuer: string, value: int, direction: Direction)
    | Heal(issuer: string, target: string)
    | Attack(issuer: string, target: string)

  /** A move by one cell in either direction along either axis. */
  predicate IsUnitMove(cmd: ClientCommand) {
    cmd.Move? && (cmd.value == 1 || cmd.value == -1)
  }

  /** `s` repeated `n` times. */
  function Repeat<T>(s: seq<T>, n: nat): (r: seq<T>)
    ensures |r| == n * |s|
  {
    if n == 0 then [] else Repeat(s, n - 1) + s
  }

  /** `cmds` are unit moves, the k-th issued by `ids[k]`. */
  ghost predicate UnitMovesBy(cmds: seq<ClientCommand>, ids: seq<string>) {
    |cmds| == |ids| &&
    (cmds == [] ||
     (UnitMovesBy(cmds[..|cmds| - 1], ids[..|ids| - 1])
      && IsUnitMove(cmds[|cmds| - 1]) && cmds[|cmds| - 1].issuer == ids[|ids| - 1]))
  }

  lemma UnitMovesByAppend(cmds: seq<ClientCommand>, ids: seq<string>, cmd: ClientCommand)
    requires UnitMovesBy(cmds, ids) && IsUnitMove(cmd)
    ensures UnitMovesBy(cmds + [cmd], ids + [cmd.issuer])
  {
    assert (cmds + [cmd])[..|cmds|] == cmds;
    assert (ids + [cmd.issuer])[..|ids|] == ids;
  }

  lemma {:induction false} UnitMovesByConcat(a: seq<ClientCommand>, aIds: seq<string>,
                                             b: seq<ClientCommand>, bIds: seq<string>)
    requires UnitMovesBy(a, aIds) && UnitMovesBy(b, bIds)
    ensures UnitMovesBy(a + b, aIds + bIds)
    decreases |b|
  {
    if b == [] {
      assert a + b == a && aIds + bIds == aIds;
    } else {
      UnitMovesByConcat(a, aIds, b[..|b| - 1], bIds[..|bIds| - 1]);
      assert (a + b)[..|a + b| - 1] == a + b[..|b| - 1];
      assert (aIds + bIds)[..|aIds + bIds| - 1] == aIds + bIds[..|bIds| - 1];
    }
  }

  /** What `UnitMovesBy` means element by element. */
  lemma {:induction false} UnitMovesByAt(cmds: seq<ClientCommand>, ids: seq<string>)
    requires UnitMovesBy(cmds, ids)
    ensures |cmds| == |ids|
    ensures forall k :: 0 <= k < |cmds| ==> IsUnitMove(cmds[k]) && cmds[k].issuer == ids[k]
  {
    if cmds != [] {
      UnitMovesByAt(cmds[..|cmds| - 1], ids[..|ids| - 1]);
    }
  }

  /** True if no element occurs twice in `s`. */
  ghost predicate Distinct<T>(s: seq<T>) {
    forall i, j :: 0 <= i < j < |s| ==> s[i] != s[j]
  }

  /** `s.remove(x)` on a list that holds `x`: drops the first occurrence of `x`. */
  function RemoveFirst<T(==)>(s: seq<T>, x: T): (r: seq<T>)
    requires x in s
    ensures |r| == |s| - 1
    ensures multiset(r) == multiset(s) - multiset{x}
  {
    if s[0] == x then
      assert s == [s[0]] + s[1..];
      s[1..]
    else
      assert s == [s[0]] + s[1..];
      [s[0]] + RemoveFirst(s[1..], x)
  }

  /** In a list without duplicates, removing `x` leaves exactly the others, still without duplicates. */
  lemma {:induction false} RemoveFirstDistinct<T>(s: seq<T>, x: T)
    requires x in s && Distinct(s)
    ensures Distinct(RemoveFirst(s, x))
    ensures forall y :: y in RemoveFirst(s, x) <==> y in s && y != x
  {
    var r := RemoveFirst(s, x);
    assert s == [s[0]] + s[1..];
    if s[0] == x {
      assert x !in s[1..];
    } else {
      RemoveFirstDistinct(s[1..], x);
      var t := RemoveFirst(s[1..], x);
      assert s[0] !in t;
      forall i, j | 0 <= i < j < |r| ensures r[i] != r[j] {
        if i > 0 {
          assert r[i] == t[i - 1] && r[j] == t[j - 1];
        } else {
          assert r[j] in t;
        }
      }
    }
  }

  class Game {
    const row: int := 5
    const col: int := 5
    /** `grid[r, c]` is null for an empty cell (the source's 0), or the user standing there. */
    const grid: array2<User?>
    var users: seq<User>
    var commands: seq<ClientCommand>
    /** Every command sent to the server, in order (`sock.send` in `epoch`). */
    var sent: seq<ClientCommand>

    ghost predicate Shaped() {
      grid.Length0 == row && grid.Length1 == col
    }

    /** `u` stands on the grid cell its `pos` names. */
    ghost predicate Placed(u: User)
      reads this, grid, u
      requires Shaped()
    {
      |u.pos| == 2 && 0 <= u.pos[0] < row && 0 <= u.pos[1] < col && grid[u.pos[0], u.pos[1]] == u
    }

    /**
     * The grid invariant: every occupied cell holds a registered user whose
     * `pos` is that cell; every registered user stands where its `pos` says;
     * no user is registered twice. So no user occupies two cells.
     */
    ghost predicate Valid()
      reads this, grid, users
    {
      && Shaped()
      && (forall r, c :: 0 <= r < row && 0 <= c < col && grid[r, c] != null ==>
            grid[r, c] in users && grid[r, c].pos == [r, c])
      && (forall i :: 0 <= i < |users| ==> Placed(users[i]))
      && Distinct(users)
    }

    /** A new game: an empty 5x5 grid, no users, no commands. */
    constructor ()
      ensures fresh(grid) && Shaped() && Valid()
      ensures forall r, c :: 0 <= r < row && 0 <= c < col ==> grid[r, c] == null
      ensures users == [] && commands == [] && sent == []
    {
      grid := new User?[5, 5]((r, c) => null);
      users := [];
      commands := [];
      sent := [];
    }

    /**
     * `add_user(p, r, c)`: on an empty cell, puts `p` there, sets its `pos`
     * and registers it; on an occupied cell, changes nothing and fails.
     * Adding a user not yet registered keeps the grid invariant.
     */
    method AddUser(p: User, r: int, c: int) returns (ok: bool)
      requires Shaped() && 0 <= r < row && 0 <= c < col
      modifies this, grid, p
      ensures ok == (old(grid[r, c]) == null)
      ensures ok ==> grid[r, c] == p && p.pos == [r, c] && users == old(users) + [p]
      ensures !ok ==> grid[r, c] == old(grid[r, c]) && p.pos == old(p.pos) && users == old(users)
      ensures forall i, j :: 0 <= i < row && 0 <= j < col && (i != r || j != c) ==> grid[i, j] == old(grid[i, j])
      ensures p.hp == old(p.hp) && commands == old(commands) && sent == old(sent)
      ensures old(Valid()) && p !in old(users) ==> Valid()
    {
      if grid[r, c] == null {
        grid[r, c] := p;
        p.pos := [r, c];
        users := users + [p];
        ok := true;
      } else {
        ok := false;
      }
    }

    /**
     * `remove_user(r, c)`: on an occupied cell, unregisters the occupant and
     * empties the cell; on an empty cell, changes nothing and fails. The
     * occupant must be registered (`list.remove` raises otherwise).
     */
    method RemoveUser(r: int, c: int) returns (ok: bool)
      requires Shaped() && 0 <= r < row && 0 <= c < col
      requires grid[r, c] != null ==> grid[r, c] in users
      modifies this, grid
      ensures ok == (old(grid[r, c]) != null)
      ensures grid[r, c] == null
      ensures ok ==> users == RemoveFirst(old(users), old(grid[r, c]) as User)
      ensures !ok ==> users == old(users)
      ensures forall i, j :: 0 <= i < row && 0 <= j < col && (i != r || j != c) ==> grid[i, j] == old(grid[i, j])
      ensures commands == old(commands) && sent == old(sent)
      ensures old(Valid()) ==> Valid()
    {
      if grid[r, c] == null {
        ok := false;
      } else {
        ghost var wasValid := Valid();
        var u: User := grid[r, c];
        if wasValid {
          RemoveFirstDistinct(users, u);
        }
        users := RemoveFirst(users, u);
        grid[r, c] := null;
        ok := true;
        if wasValid {
          forall i | 0 <= i < |users| ensures Placed(users[i]) {
            var v := users[i];
            assert v in old(users) && v != u;
            assert old(grid[v.pos[0], v.pos[1]]) == v;
          }
        }
      }
    }

    /**
     * `epoch()`: takes the oldest command, applies it and sends it to the
     * server; nothing happens when no command is waiting. What applying a
     * command does to the game is not part of this model, so the contract
     * leaves it open: the grid and the fields of any registered user may
     * change, and users may leave the registry, but none joins it.
     */
    method Epoch()
      modifies this, grid, users
      ensures forall k :: 0 <= k < |users| ==> users[k] in old(users)
      ensures old(commands) != [] ==> commands == old(commands)[1..] && sent == old(sent) + [old(commands)[0]]
      ensures old(commands) == [] ==>
                && commands == [] && sent == old(sent) && users == old(users)
                && (forall i, j :: 0 <= i < grid.Length0 && 0 <= j < grid.Length1 ==> grid[i, j] == old(grid[i, j]))
                && (forall k :: 0 <= k < |users| ==> users[k].pos == old(users[k].pos) && users[k].hp == old(users[k].hp))
    {
      if |commands| > 0 {
        var command := commands[0];
        sent := sent + [command];
        commands := commands[1..];
      }
    }

    /**
     * `emulate_all()`: runs epochs until no command is left; they are sent in
     * the order they were queued. As in `Epoch`, the applied commands may
     * change the grid and the users' fields and may drop users.
     */
    method EmulateAll()
      modifies this, grid, users
      ensures forall k :: 0 <= k < |users| ==> users[k] in old(users)
      ensures commands == [] && sent == old(sent) + old(commands)
      ensures old(commands) == [] ==>
                && users == old(users)
                && (forall i, j :: 0 <= i < grid.Length0 && 0 <= j < grid.Length1 ==> grid[i, j] == old(grid[i, j]))
                && (forall k :: 0 <= k < |users| ==> users[k].pos == old(users[k].pos) && users[k].hp == old(users[k].hp))
    {
      while |commands| > 0
        invariant sent + commands == old(sent) + old(commands)
        invariant forall k :: 0 <= k < |users| ==> users[k] in old(users)
        invariant old(commands) == [] ==>
                    && commands == [] && users == old(users)
                    && (forall i, j :: 0 <= i < grid.Length0 && 0 <= j < grid.Length1 ==> grid[i, j] == old(grid[i, j]))
                    && (forall k :: 0 <= k < |users| ==> users[k].pos == old(users[k].pos) && users[k].hp == old(users[k].hp))
        decreases |commands|
      {
        ghost var before := commands;
        assert forall o: object :: o in users ==> o in old(users);
        Epoch();
        assert before == [before[0]] + commands;
      }
    }

    /** Ids of the occupants of the first `j` cells of row `i`, left to right. */
    function RowIds(i: int, j: int): seq<string>
      requires Shaped() && 0 <= i < row && 0 <= j <= col
      reads grid
    {
      if j == 0 then []
      else RowIds(i, j - 1) + (if grid[i, j - 1] != null then [grid[i, j - 1].id] else [])
    }

    lemma RowIdsSkip(i: int, j: int)
      requires Shaped() && 0 <= i < row && 0 <= j < col && grid[i, j] == null
      ensures RowIds(i, j + 1) == RowIds(i, j)
    {
      assert RowIds(i, j) + [] == RowIds(i, j);
    }

    /** Ids of the occupants of the first `i` rows, row by row. */
    function RowsIds(i: int): seq<string>
      requires Shaped() && 0 <= i <= row
      reads grid
    {
      if i == 0 then [] else RowsIds(i - 1) + RowIds(i - 1, col)
    }

    /** Ids of all occupants in row-major order. */
    function OccupantIds(): seq<string>
      requires Shaped()
      reads grid
    {
      RowsIds(row)
    }

    /** `simulate_player(r, c)` of this file: a random unit move issued by the user at (r, c). */
    method SimulatePlayer(r: int, c: int) returns (cmd: ClientCommand)
      requires Shaped() && 0 <= r < row && 0 <= c < col && grid[r, c] != null
      ensures IsUnitMove(cmd) && cmd.issuer == grid[r, c].id
    {
      var up: bool :| true;
      var value := if up then 1 else -1;
      var direction: Direction :| true;
      cmd := Move(grid[r, c].id, value, direction);
    }

    /** The inner loop of one `_simulate` iteration: one unit move per occupied cell of row `i`, left to right. */
    method SimulateRow(i: int) returns (ghost moves: seq<ClientCommand>)
      requires Shaped() && 0 <= i < row
      modifies this
      ensures users == old(users) && sent == old(sent)
      ensures commands == old(commands) + moves
      ensures UnitMovesBy(moves, RowIds(i, col))
    {
      moves := [];
      for j := 0 to col
        invariant users == old(users) && sent == old(sent)
        invariant commands == old(commands) + moves
        invariant UnitMovesBy(moves, RowIds(i, j))
      {
        if grid[i, j] != null {
          var newCommand := SimulatePlayer(i, j);
          UnitMovesByAppend(moves, RowIds(i, j), newCommand);
          commands := commands + [newCommand];
          moves := moves + [newCommand];
        } else {
          RowIdsSkip(i, j);
        }
      }
    }

    /** One `_simulate` iteration: one unit move per occupied cell, row by row. */
    method SimulateRound() returns (ghost round: seq<ClientCommand>)
      requires Shaped()
      modifies this
      ensures users == old(users) && sent == old(sent)
      ensures commands == old(commands) + round
      ensures UnitMovesBy(round, OccupantIds())
    {
      round := [];
      for i := 0 to row
        invariant users == old(users) && sent == old(sent)
        invariant commands == old(commands) + round
        invariant UnitMovesBy(round, RowsIds(i))
      {
        var moves := SimulateRow(i);
        UnitMovesByConcat(round, RowsIds(i), moves, RowIds(i, col));
        round := round + moves;
      }
    }

    /**
     * `_simulate(iterations)`: each iteration appends one random unit move
     * per occupied cell, row by row, issued by that cell's occupant.
     */
    method Simulate(iterations: nat)
      requires Shaped()
      modifies this
      ensures users == old(users) && sent == old(sent)
      ensures |old(commands)| <= |commands| && commands[..|old(commands)|] == old(commands)
      ensures UnitMovesBy(commands[|old(commands)|..], Repeat(OccupantIds(), iterations))
    {
      ghost var added: seq<ClientCommand> := [];
      for iter := 0 to iterations
        invariant users == old(users) && sent == old(sent)
        invariant commands == old(commands) + added
        invariant UnitMovesBy(added, Repeat(OccupantIds(), iter))
      {
        var round := SimulateRound();
        UnitMovesByConcat(added, Repeat(OccupantIds(), iter), round, OccupantIds());
        added := added + round;
      }
      assert commands[|old(commands)|..] == added;
    }
  }
}
