/**
 * The client application (client/app.py): the range query over the game's
 * users, the decision rules that pick this client's next command, and the
 * producer/consumer use of the game's command list. Random choices are
 * parameters of the decision functions and nondeterministic choices in the
 * methods.
 */
module App {
  import opened Wrappers
  import opened Users
  import opened ClientGame

  /** The `type` argument of `get_users_in_range`: -1 (any type) or one user type. */
  datatype TypeFilter = AnyType | OnlyType(userType: UserType)

  function Abs(x: int): nat {
    if x < 0 then -x else x
  }

  /** Manhattan distance between two grid positions `[row, col]`. */
  function Distance(p: seq<int>, q: seq<int>): nat
    requires |p| == 2 && |q| == 2
  {
    Abs(p[0] - q[0]) + Abs(p[1] - q[1])
  }

  /** Every user has been placed: its `pos` is a row and a column. */
  ghost predicate Positioned(users: seq<User>)
    reads users
  {
    forall i :: 0 <= i < |users| ==> |users[i].pos| == 2
  }

  /** `u` is within `limit` of `point` and passes the type filter. */
  predicate Selected(u: User, point: seq<int>, limit: int, filter: TypeFilter)
    requires |point| == 2 && |u.pos| == 2
    reads u
  {
    Distance(point, u.pos) <= limit && (filter.AnyType? || u.userType == filter.userType)
  }

  /** The users `get_users_in_range` returns, in the order of `users`. */
  function InRange(users: seq<User>, point: seq<int>, limit: int, filter: TypeFilter): (r: seq<User>)
    requires Positioned(users) && |point| == 2
    reads users
    ensures |r| <= |users|
    ensures forall k :: 0 <= k < |r| ==> r[k] in users
  {
    if users == [] then []
    else
      (if Selected(users[0], point, limit, filter) then [users[0]] else [])
      + InRange(users[1..], point, limit, filter)
  }

  /** Extending the list by one user extends the selection by that user if it is selected. */
  lemma {:induction false} InRangeAppend(users: seq<User>, u: User, point: seq<int>, limit: int, filter: TypeFilter)
    requires Positioned(users) && |u.pos| == 2 && |point| == 2
    ensures Positioned(users + [u])
    ensures InRange(users + [u], point, limit, filter)
         == InRange(users, point, limit, filter) + (if Selected(u, point, limit, filter) then [u] else [])
  {
    if users != [] {
      InRangeAppend(users[1..], u, point, limit, filter);
      assert (users + [u])[1..] == users[1..] + [u];
    }
  }

  /** The range query selects exactly the users within the limit that pass the filter. */
  lemma {:induction false} InRangeMembers(users: seq<User>, point: seq<int>, limit: int, filter: TypeFilter)
    requires Positioned(users) && |point| == 2
    ensures forall k :: 0 <= k < |InRange(users, point, limit, filter)| ==>
                        Selected(InRange(users, point, limit, filter)[k], point, limit, filter)
    ensures forall i :: 0 <= i < |users| && Selected(users[i], point, limit, filter) ==>
                        users[i] in InRange(users, point, limit, filter)
  {
    if users != [] {
      InRangeMembers(users[1..], point, limit, filter);
      assert users == [users[0]] + users[1..];
    }
  }

  /** `s` is `t` with some elements left out, the rest in the same order. */
  predicate IsSubsequence<T(==)>(s: seq<T>, t: seq<T>) {
    if s == [] then true
    else if t == [] then false
    else (s[0] == t[0] && IsSubsequence(s[1..], t[1..])) || IsSubsequence(s, t[1..])
  }

  /** The range query keeps the order of the user list. */
  lemma {:induction false} InRangeSubsequence(users: seq<User>, point: seq<int>, limit: int, filter: TypeFilter)
    requires Positioned(users) && |point| == 2
    ensures IsSubsequence(InRange(users, point, limit, filter), users)
  {
    if users != [] {
      InRangeSubsequence(users[1..], point, limit, filter);
      var rest := InRange(users[1..], point, limit, filter);
      if Selected(users[0], point, limit, filter) {
        assert InRange(users, point, limit, filter) == [users[0]] + rest;
      } else {
        assert InRange(users, point, limit, filter) == rest;
        if rest != [] {
          assert IsSubsequence(rest, users[1..]);
        }
      }
    }
  }

  /** The selection is non-empty exactly when some user is selected, and it starts with the first such user. */
  lemma {:induction false} InRangeFirst(users: seq<User>, point: seq<int>, limit: int, filter: TypeFilter)
    requires Positioned(users) && |point| == 2
    ensures InRange(users, point, limit, filter) != [] <==>
              exists i :: 0 <= i < |users| && Selected(users[i], point, limit, filter)
    ensures InRange(users, point, limit, filter) != [] ==>
              exists i :: 0 <= i < |users| && InRange(users, point, limit, filter)[0] == users[i]
                       && Selected(users[i], point, limit, filter)
                       && forall j :: 0 <= j < i ==> !Selected(users[j], point, limit, filter)
  {
    if users != [] {
      InRangeFirst(users[1..], point, limit, filter);
      if !Selected(users[0], point, limit, filter) {
        if InRange(users[1..], point, limit, filter) != [] {
          var i :| 0 <= i < |users| - 1 && InRange(users[1..], point, limit, filter)[0] == users[1..][i]
                   && Selected(users[1..][i], point, limit, filter)
                   && forall j :: 0 <= j < i ==> !Selected(users[1..][j], point, limit, filter);
          assert users[i + 1] == users[1..][i];
          forall j | 0 <= j < i + 1 ensures !Selected(users[j], point, limit, filter) {
            if j > 0 {
              assert users[j] == users[1..][j - 1];
            }
          }
        } else {
          forall i | 0 <= i < |users| ensures !Selected(users[i], point, limit, filter) {
            if i > 0 {
              assert users[i] == users[1..][i - 1];
            }
          }
        }
      }
    }
  }

  /** Below half of the maximum hp (`hp < MAX_HP / 2`, in integers). */
  predicate Wounded(u: User)
    reads u
  {
    2 * u.hp < u.maxHp
  }

  /** The first wounded user of `candidates` (the heal loop of `simulate_player`). */
  function FirstWounded(candidates: seq<User>): Option<User>
    reads candidates
  {
    if candidates == [] then None
    else if Wounded(candidates[0]) then Some(candidates[0])
    else FirstWounded(candidates[1..])
  }

  /** A user this client may heal: a wounded player within 5 of `me`. */
  predicate HealTarget(u: User, me: User)
    requires |u.pos| == 2 && |me.pos| == 2
    reads u, me
  {
    Selected(u, me.pos, 5, OnlyType(Player)) && Wounded(u)
  }

  /** A dragon within 2 of `me`: a target for this player, an attacker of it. */
  predicate NearDragon(u: User, me: User)
    requires |u.pos| == 2 && |me.pos| == 2
    reads u, me
  {
    Selected(u, me.pos, 2, OnlyType(Dragon))
  }

  /** The first wounded user in range is the first user, in list order, who is both in range and wounded. */
  lemma {:induction false} FirstWoundedInRange(users: seq<User>, point: seq<int>, limit: int, filter: TypeFilter)
    requires Positioned(users) && |point| == 2
    ensures FirstWounded(InRange(users, point, limit, filter)).Some? <==>
              exists i :: 0 <= i < |users| && Selected(users[i], point, limit, filter) && Wounded(users[i])
    ensures FirstWounded(InRange(users, point, limit, filter)).Some? ==>
              exists i :: 0 <= i < |users| && FirstWounded(InRange(users, point, limit, filter)).value == users[i]
                       && Selected(users[i], point, limit, filter) && Wounded(users[i])
                       && forall j :: 0 <= j < i ==> !(Selected(users[j], point, limit, filter) && Wounded(users[j]))
  {
    if users != [] {
      FirstWoundedInRange(users[1..], point, limit, filter);
      var rest := InRange(users[1..], point, limit, filter);
      var here := Selected(users[0], point, limit, filter) && Wounded(users[0]);
      if here {
        assert FirstWounded(InRange(users, point, limit, filter)) == Some(users[0]);
      } else {
        assert FirstWounded(InRange(users, point, limit, filter)) == FirstWounded(rest) by {
          if Selected(users[0], point, limit, filter) {
            assert InRange(users, point, limit, filter) == [users[0]] + rest;
            assert ([users[0]] + rest)[1..] == rest;
          } else {
            assert InRange(users, point, limit, filter) == [] + rest == rest;
          }
        }
        if FirstWounded(rest).Some? {
          var i :| 0 <= i < |users| - 1 && FirstWounded(rest).value == users[1..][i]
                   && Selected(users[1..][i], point, limit, filter) && Wounded(users[1..][i])
                   && forall j :: 0 <= j < i ==> !(Selected(users[1..][j], point, limit, filter) && Wounded(users[1..][j]));
          assert users[i + 1] == users[1..][i];
          forall j | 0 <= j < i + 1 ensures !(Selected(users[j], point, limit, filter) && Wounded(users[j])) {
            if j > 0 {
              assert users[j] == users[1..][j - 1];
            }
          }
        } else {
          forall i | 0 <= i < |users| ensures !(Selected(users[i], point, limit, filter) && Wounded(users[i])) {
            if i > 0 {
              assert users[i] == users[1..][i - 1];
            }
          }
        }
      }
    }
  }

  /** The dragons among `users`, in list order. */
  function DragonsOf(users: seq<User>): (r: seq<User>)
    ensures forall k :: 0 <= k < |r| ==> r[k] in users && r[k].userType == Dragon
    ensures forall i :: 0 <= i < |users| && users[i].userType == Dragon ==> users[i] in r
  {
    if users == [] then []
    else (if users[0].userType == Dragon then [users[0]] else []) + DragonsOf(users[1..])
  }

  /**
   * The index of the first user of `ds` at the least distance from `point`: the
   * head of `ds` after a stable sort by distance.
   */
  function ClosestIndex(ds: seq<User>, point: seq<int>): (r: nat)
    requires ds != [] && Positioned(ds) && |point| == 2
    reads ds
    ensures r < |ds|
    ensures forall j :: 0 <= j < |ds| ==> Distance(point, ds[r].pos) <= Distance(point, ds[j].pos)
    ensures forall j :: 0 <= j < r ==> Distance(point, ds[r].pos) < Distance(point, ds[j].pos)
  {
    if |ds| == 1 then 0
    else
      var k := ClosestIndex(ds[1..], point) + 1;
      assert ds[k] == ds[1..][k - 1];
      assert forall j :: 1 <= j < |ds| ==> ds[j] == ds[1..][j - 1];
      if Distance(point, ds[0].pos) <= Distance(point, ds[k].pos) then 0 else k
  }

  /** A move of one cell: its sign and its axis. */
  datatype Step = Step(value: int, direction: Direction)

  /**
   * A unit step from `from` toward `to` on the axis `direction` (H moves
   * along a row, changing the column; V along a column): they differ on
   * that axis and `value` has the sign of the difference.
   */
  predicate StepToward(from: seq<int>, to: seq<int>, value: int, direction: Direction)
    requires |from| == 2 && |to| == 2
  {
    var axis := if direction == H then 1 else 0;
    (value == 1 && to[axis] > from[axis]) || (value == -1 && to[axis] < from[axis])
  }

  /**
   * The step `simulate_player` takes toward its target: along the row when
   * they share a row, along the column when they share a column, along the
   * randomly picked axis `pick` otherwise; the sign is +1 when the target's
   * coordinate on that axis is the greater one.
   */
  function StepTo(from: seq<int>, to: seq<int>, pick: Direction): (r: Step)
    requires |from| == 2 && |to| == 2
    ensures from != to ==> StepToward(from, to, r.value, r.direction)
    ensures from[0] == to[0] ==> r.direction == H
    ensures from[0] != to[0] && from[1] == to[1] ==> r.direction == V
    ensures from[0] != to[0] && from[1] != to[1] ==> r.direction == pick
  {
    var direction :=
      if from[0] == to[0] then H
      else if from[1] == to[1] then V
      else pick;
    var value :=
      if direction == H then (if to[1] > from[1] then 1 else -1)
      else (if to[0] > from[0] then 1 else -1);
    assert from != to && from[0] == to[0] ==> from[1] != to[1];
    Step(value, direction)
  }

  /**
   * `simulate_player`: heal the first wounded player within 5, else attack
   * the first dragon within 2, else take one step toward the closest dragon,
   * else nothing. `pick` is the random axis used when the target shares
   * neither a row nor a column with `me`.
   */
  function PlayerCommand(users: seq<User>, me: User, pick: Direction): (r: Option<ClientCommand>)
    requires Positioned(users) && |me.pos| == 2
    reads users, me
    ensures r.Some? ==> r.value.issuer == me.id
    ensures r.Some? && r.value.Move? ==> IsUnitMove(r.value)
  {
    var heal := FirstWounded(InRange(users, me.pos, 5, OnlyType(Player)));
    if heal.Some? then Some(Heal(me.id, heal.value.id))
    else
      var near := InRange(users, me.pos, 2, OnlyType(Dragon));
      if near != [] then Some(Attack(me.id, near[0].id))
      else
        var dragons := DragonsOf(users);
        if dragons == [] then None
        else
          assert Positioned(dragons);
          var target := dragons[ClosestIndex(dragons, me.pos)];
          var step := StepTo(me.pos, target.pos, pick);
          Some(Move(me.id, step.value, step.direction))
  }

  /** Rule 1: a heal happens exactly when some player within 5 is wounded, and targets the first one. */
  lemma PlayerHeals(users: seq<User>, me: User, pick: Direction)
    requires Positioned(users) && |me.pos| == 2
    ensures (exists i :: 0 <= i < |users| && HealTarget(users[i], me)) <==>
              PlayerCommand(users, me, pick).Some? && PlayerCommand(users, me, pick).value.Heal?
    ensures forall i :: 0 <= i < |users| && HealTarget(users[i], me)
                        && (forall j :: 0 <= j < i ==> !HealTarget(users[j], me)) ==>
              PlayerCommand(users, me, pick) == Some(Heal(me.id, users[i].id))
  {
    FirstWoundedInRange(users, me.pos, 5, OnlyType(Player));
    var heal := FirstWounded(InRange(users, me.pos, 5, OnlyType(Player)));
    if heal.None? {
      assert PlayerCommand(users, me, pick).None? || !PlayerCommand(users, me, pick).value.Heal?;
    }
    forall i | 0 <= i < |users| && HealTarget(users[i], me) && (forall j :: 0 <= j < i ==> !HealTarget(users[j], me))
      ensures PlayerCommand(users, me, pick) == Some(Heal(me.id, users[i].id))
    {
      var k :| 0 <= k < |users| && heal.value == users[k]
               && HealTarget(users[k], me)
               && forall j :: 0 <= j < k ==> !HealTarget(users[j], me);
      assert k == i;
    }
  }

  /** Rule 2: with nobody to heal, an attack happens exactly when a dragon is within 2, and targets the first one. */
  lemma PlayerAttacks(users: seq<User>, me: User, pick: Direction)
    requires Positioned(users) && |me.pos| == 2
    requires forall i :: 0 <= i < |users| ==> !HealTarget(users[i], me)
    ensures (exists i :: 0 <= i < |users| && NearDragon(users[i], me)) <==>
              PlayerCommand(users, me, pick).Some? && PlayerCommand(users, me, pick).value.Attack?
    ensures forall i :: 0 <= i < |users| && NearDragon(users[i], me)
                        && (forall j :: 0 <= j < i ==> !NearDragon(users[j], me)) ==>
              PlayerCommand(users, me, pick) == Some(Attack(me.id, users[i].id))
  {
    FirstWoundedInRange(users, me.pos, 5, OnlyType(Player));
    InRangeFirst(users, me.pos, 2, OnlyType(Dragon));
    var near := InRange(users, me.pos, 2, OnlyType(Dragon));
    forall i | 0 <= i < |users| && NearDragon(users[i], me) && (forall j :: 0 <= j < i ==> !NearDragon(users[j], me))
      ensures PlayerCommand(users, me, pick) == Some(Attack(me.id, users[i].id))
    {
      var k :| 0 <= k < |users| && near[0] == users[k]
               && NearDragon(users[k], me)
               && forall j :: 0 <= j < k ==> !NearDragon(users[j], me);
      assert k == i;
    }
  }

  /** `users[i]` is a dragon no farther from `point` than any other dragon. */
  ghost predicate NearestDragon(users: seq<User>, point: seq<int>, i: int)
    requires Positioned(users) && |point| == 2
    reads users
  {
    && 0 <= i < |users| && users[i].userType == Dragon
    && forall j :: 0 <= j < |users| && users[j].userType == Dragon ==>
                     Distance(point, users[i].pos) <= Distance(point, users[j].pos)
  }

  /**
   * Rule 3: with nobody to heal and no dragon within 2, a move happens
   * exactly when some dragon exists. It issues a unit step toward a nearest
   * dragon: along the row when they share a row, along the column when they
   * share a column, and along the randomly picked axis otherwise.
   */
  lemma PlayerMoves(users: seq<User>, me: User, pick: Direction)
    requires Positioned(users) && |me.pos| == 2
    requires forall i :: 0 <= i < |users| ==> !HealTarget(users[i], me) && !NearDragon(users[i], me)
    ensures (exists i :: 0 <= i < |users| && users[i].userType == Dragon) <==>
              PlayerCommand(users, me, pick).Some? && PlayerCommand(users, me, pick).value.Move?
    ensures PlayerCommand(users, me, pick).Some? && PlayerCommand(users, me, pick).value.Move? ==>
              var m := PlayerCommand(users, me, pick).value;
              m.issuer == me.id &&
              exists i :: NearestDragon(users, me.pos, i) && me.pos != users[i].pos
                && m == Move(me.id, StepTo(me.pos, users[i].pos, pick).value, StepTo(me.pos, users[i].pos, pick).direction)
  {
    FirstWoundedInRange(users, me.pos, 5, OnlyType(Player));
    InRangeFirst(users, me.pos, 2, OnlyType(Dragon));
    var dragons := DragonsOf(users);
    if dragons != [] {
      assert Positioned(dragons);
      var target := dragons[ClosestIndex(dragons, me.pos)];
      var i :| 0 <= i < |users| && users[i] == target;
      forall j | 0 <= j < |users| && users[j].userType == Dragon
        ensures Distance(me.pos, target.pos) <= Distance(me.pos, users[j].pos)
      {
        var k :| 0 <= k < |dragons| && dragons[k] == users[j];
      }
      assert NearestDragon(users, me.pos, i);
      assert !NearDragon(target, me);
    } else {
      forall i | 0 <= i < |users| ensures users[i].userType != Dragon {
        assert users[i] !in dragons;
      }
    }
  }

  /** Rule 4: no command exactly when nobody is to be healed and there is no dragon at all. */
  lemma PlayerIdle(users: seq<User>, me: User, pick: Direction)
    requires Positioned(users) && |me.pos| == 2
    ensures PlayerCommand(users, me, pick).None? <==>
              forall i :: 0 <= i < |users| ==> !HealTarget(users[i], me) && users[i].userType != Dragon
  {
    FirstWoundedInRange(users, me.pos, 5, OnlyType(Player));
    InRangeFirst(users, me.pos, 2, OnlyType(Dragon));
    var dragons := DragonsOf(users);
    if dragons != [] {
      var i :| 0 <= i < |users| && users[i] == dragons[0];
    }
  }

  /**
   * `simulate_dragon`: one of the dragons within 2 of `me` attacks this
   * client; `pick` stands for `random.choice` among them.
   */
  function DragonCommand(users: seq<User>, me: User, pick: nat): (r: Option<ClientCommand>)
    requires Positioned(users) && |me.pos| == 2
    reads users, me
    ensures r.Some? ==> r.value.Attack? && r.value.target == me.id
  {
    var candidates := InRange(users, me.pos, 2, OnlyType(Dragon));
    if candidates == [] then None
    else Some(Attack(candidates[pick % |candidates|].id, me.id))
  }

  /**
   * A dragon attack happens exactly when a dragon is within 2; the attacker
   * is such a dragon and the target is this client.
   */
  lemma DragonAttacks(users: seq<User>, me: User, pick: nat)
    requires Positioned(users) && |me.pos| == 2
    ensures DragonCommand(users, me, pick).Some? <==> exists i :: 0 <= i < |users| && NearDragon(users[i], me)
    ensures DragonCommand(users, me, pick).Some? ==>
              exists i :: 0 <= i < |users| && NearDragon(users[i], me)
                       && DragonCommand(users, me, pick) == Some(Attack(users[i].id, me.id))
  {
    InRangeFirst(users, me.pos, 2, OnlyType(Dragon));
    var candidates := InRange(users, me.pos, 2, OnlyType(Dragon));
    if candidates != [] {
      InRangeMembers(users, me.pos, 2, OnlyType(Dragon));
      var c := candidates[pick % |candidates|];
      assert c in candidates && c in users;
      var i :| 0 <= i < |users| && users[i] == c;
      assert NearDragon(users[i], me);
    }
  }

  /** Every dragon within 2 of this client is a possible attacker. */
  lemma AnyNearDragonMayAttack(users: seq<User>, me: User, i: int)
    requires Positioned(users) && |me.pos| == 2
    requires 0 <= i < |users| && NearDragon(users[i], me)
    ensures exists pick: nat :: DragonCommand(users, me, pick) == Some(Attack(users[i].id, me.id))
  {
    InRangeMembers(users, me.pos, 2, OnlyType(Dragon));
    var candidates := InRange(users, me.pos, 2, OnlyType(Dragon));
    assert users[i] in candidates;
    var k :| 0 <= k < |candidates| && candidates[k] == users[i];
    SmallMod(k, |candidates|);
    assert DragonCommand(users, me, k) == Some(Attack(users[i].id, me.id));
  }

  lemma SmallMod(k: nat, n: nat)
    requires k < n
    ensures k % n == k
  {
  }

  /** A command `_generate_commands` may produce: this player's decision (either random axis) or a dragon's attack. */
  ghost predicate Generated(users: seq<User>, me: User, cmd: ClientCommand)
    requires Positioned(users) && |me.pos| == 2
    reads users, me
  {
    || PlayerCommand(users, me, H) == Some(cmd)
    || PlayerCommand(users, me, V) == Some(cmd)
    || exists pick: nat :: DragonCommand(users, me, pick) == Some(cmd)
  }

  /** Some dragon is within 2 of `me`. */
  ghost predicate SomeDragonNear(users: seq<User>, me: User)
    requires Positioned(users) && |me.pos| == 2
    reads users, me
  {
    exists i :: 0 <= i < |users| && NearDragon(users[i], me)
  }

  /** Nobody near `me` is to be healed and there is no dragon at all. */
  ghost predicate Idle(users: seq<User>, me: User)
    requires Positioned(users) && |me.pos| == 2
    reads users, me
  {
    forall i :: 0 <= i < |users| ==> !HealTarget(users[i], me) && users[i].userType != Dragon
  }

  /** What one iteration of `_generate_commands` promises about its result `c`. */
  ghost predicate OneGenerated(users: seq<User>, me: User, c: Option<ClientCommand>)
    requires Positioned(users) && |me.pos| == 2
    reads users, me
  {
    && (c.Some? ==> Generated(users, me, c.value))
    && (SomeDragonNear(users, me) ==> c.Some?)
    && (Idle(users, me) ==> c.None?)
  }

  /** What `_generate_commands` promises after `n` iterations that appended `added`. */
  ghost predicate GeneratedSoFar(users: seq<User>, me: User, added: seq<ClientCommand>, n: nat)
    requires Positioned(users) && |me.pos| == 2
    reads users, me
  {
    && |added| <= n
    && (forall k :: 0 <= k < |added| ==> Generated(users, me, added[k]))
    && (SomeDragonNear(users, me) ==> |added| == n)
    && (Idle(users, me) ==> added == [])
  }

  lemma GeneratedStep(users: seq<User>, me: User, added: seq<ClientCommand>, n: nat, c: Option<ClientCommand>)
    requires Positioned(users) && |me.pos| == 2
    requires GeneratedSoFar(users, me, added, n) && OneGenerated(users, me, c)
    ensures GeneratedSoFar(users, me, if c.Some? then added + [c.value] else added, n + 1)
  {
  }

  /** The index of the first user whose id is `id`. */
  function FirstWithId(users: seq<User>, id: string): (r: nat)
    requires exists i :: 0 <= i < |users| && users[i].id == id
    ensures r < |users| && users[r].id == id
    ensures forall j :: 0 <= j < r ==> users[j].id != id
  {
    if users[0].id == id then 0
    else
      assert exists i :: 0 <= i < |users| - 1 && users[1..][i].id == id by {
        var i :| 0 <= i < |users| && users[i].id == id;
        assert users[1..][i - 1] == users[i];
      }
      var k := FirstWithId(users[1..], id) + 1;
      assert users[k] == users[1..][k - 1];
      assert forall j :: 1 <= j < k ==> users[j] == users[1..][j - 1];
      k
  }

  /** The grid invariant places every registered user, so the range query applies to the game's users. */
  lemma ValidPositioned(game: Game)
    requires game.Valid()
    ensures Positioned(game.users)
  {
    forall i | 0 <= i < |game.users| ensures |game.users[i].pos| == 2 {
      assert game.Placed(game.users[i]);
    }
  }

  class ClientApp {
    const game: Game
    const id: string
    /** The game's user whose id is this client's id. */
    const me: User
    /** Every command handed to the transport layer, in order. */
    var transmitted: seq<ClientCommand>

    /** Attaches to a game already filled from the server's map and finds this client's own user. */
    constructor (game: Game, id: string)
      requires exists i :: 0 <= i < |game.users| && game.users[i].id == id
      ensures this.game == game && this.id == id && transmitted == []
      ensures me == game.users[FirstWithId(game.users, id)]
    {
      this.game := game;
      this.id := id;
      me := game.users[FirstWithId(game.users, id)];
      transmitted := [];
    }

    /** `get_users_in_range(point, limit, type)`: one pass over the game's users, keeping the selected ones. */
    method GetUsersInRange(point: seq<int>, limit: int, filter: TypeFilter) returns (r: seq<User>)
      requires Positioned(game.users) && |point| == 2
      ensures r == InRange(game.users, point, limit, filter)
    {
      r := [];
      for k := 0 to |game.users|
        invariant Positioned(game.users[..k])
        invariant r == InRange(game.users[..k], point, limit, filter)
      {
        var user := game.users[k];
        InRangeAppend(game.users[..k], user, point, limit, filter);
        assert game.users[..k + 1] == game.users[..k] + [user];
        if Abs(point[0] - user.pos[0]) + Abs(point[1] - user.pos[1]) <= limit {
          if filter.AnyType? {
            r := r + [user];
          } else if user.userType == filter.userType {
            r := r + [user];
          }
        }
      }
      assert game.users[..|game.users|] == game.users;
    }

    /**
     * One iteration of `_generate_commands`: computes the player's and a
     * dragon's decision and picks one of the two at random. The result is a
     * possible decision; there is always one when a dragon is within 2 (both
     * decisions exist) and never one when there is nobody to heal and no
     * dragon.
     */
    method GenerateOne() returns (newCommand: Option<ClientCommand>)
      requires Positioned(game.users) && |me.pos| == 2
      ensures newCommand.Some? ==> Generated(game.users, me, newCommand.value)
      ensures SomeDragonNear(game.users, me) ==> newCommand.Some?
      ensures Idle(game.users, me) ==>
                newCommand.None?
    {
      var axis: Direction :| true;
      var attacker: nat :| true;
      var playerTurn: bool :| true;
      var playerCommand := PlayerCommand(game.users, me, axis);
      var dragonCommand := DragonCommand(game.users, me, attacker);
      newCommand := if playerTurn then playerCommand else dragonCommand;
      PlayerIdle(game.users, me, axis);
      DragonAttacks(game.users, me, attacker);
      if newCommand.Some? && !playerTurn {
        assert DragonCommand(game.users, me, attacker) == Some(newCommand.value);
      }
    }

    /**
     * `_generate_commands(iterations)`: appends the result of each iteration
     * unless it is None, and nothing else. So (see `GeneratedSoFar`) at most
     * `iterations` commands are appended, each one a possible decision;
     * exactly `iterations` when a dragon is within 2; none when there is
     * nobody to heal and no dragon. Earlier commands stay as they were.
     */
    method GenerateCommands(iterations: nat)
      requires Positioned(game.users) && |me.pos| == 2
      modifies game`commands
      ensures game.users == old(game.users) && game.sent == old(game.sent)
      ensures |old(game.commands)| <= |game.commands|
      ensures game.commands[..|old(game.commands)|] == old(game.commands)
      ensures GeneratedSoFar(game.users, me, game.commands[|old(game.commands)|..], iterations)
    {
      ghost var added: seq<ClientCommand> := [];
      for n := 0 to iterations
        invariant game.users == old(game.users) && game.sent == old(game.sent)
        invariant game.commands == old(game.commands) + added
        invariant GeneratedSoFar(game.users, me, added, n)
      {
        var newCommand := GenerateOne();
        GeneratedStep(game.users, me, added, n, newCommand);
        if newCommand.Some? {
          game.commands := game.commands + [newCommand.value];
          added := added + [newCommand.value];
        }
      }
      assert game.commands[|old(game.commands)|..] == added;
    }

    /**
     * The consuming half of a `_run` step: if the list is not empty, pop its
     * head and send it; otherwise do nothing.
     */
    method SendHead() returns (sentCmd: Option<ClientCommand>)
      modifies game`commands, this
      ensures old(game.commands) == [] ==> sentCmd.None? && game.commands == []
      ensures old(game.commands) != [] ==> sentCmd == Some(old(game.commands)[0]) && game.commands == old(game.commands)[1..]
      ensures transmitted == old(transmitted) + (if sentCmd.Some? then [sentCmd.value] else [])
    {
      if |game.commands| > 0 {
        var commandToApply := game.commands[0];
        game.commands := game.commands[1..];
        transmitted := transmitted + [commandToApply];
        sentCmd := Some(commandToApply);
      } else {
        sentCmd := None;
      }
    }

    /**
     * One step of `_run`: generate one command, then send the head of the
     * list. The list is FIFO: the command sent is the oldest one, and what
     * remains keeps its order.
     */
    method RunStep() returns (sentCmd: Option<ClientCommand>, ghost added: seq<ClientCommand>)
      requires Positioned(game.users) && |me.pos| == 2
      modifies game`commands, this
      ensures game.users == old(game.users) && game.sent == old(game.sent)
      ensures GeneratedSoFar(game.users, me, added, 1)
      ensures (if sentCmd.Some? then [sentCmd.value] else []) + game.commands == old(game.commands) + added
      ensures sentCmd.None? <==> old(game.commands) + added == []
      ensures old(game.commands) != [] ==> sentCmd == Some(old(game.commands)[0])
      ensures transmitted == old(transmitted) + (if sentCmd.Some? then [sentCmd.value] else [])
    {
      GenerateCommands(1);
      added := game.commands[|old(game.commands)|..];
      assert game.commands == old(game.commands) + added;
      sentCmd := SendHead();
    }
  }
}
