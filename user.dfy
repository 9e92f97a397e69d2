/**
 * Users of the game (common/user.py): players and dragons, with their
 * hit points, attack power and position on the grid.
 */
module Users {
  import opened Wrappers

  datatype UserType = Dragon | Player

  /**
   * The type tag handed to the constructor: one of the two user types
   * (`USERS.DRAGON`, `USERS.PLAYER`) or anything else.
   */
  datatype TypeTag = Known(userType: UserType) | Unknown(code: int)

  /** The fields `__init__` computes: id, hit points, attack power and the hp cap. */
  datatype Stats = Stats(id: string, hp: int, ap: int, maxHp: int)

  const DRAGON_HP: int := 50
  const DRAGON_AP: int := 1
  const PLAYER_HP: int := 15
  const PLAYER_AP: int := 5

  /** Prefix of every dragon id; the rest is the creation time. */
  const DRAGON_ID_PREFIX: string := "D@"

  /** The id `User(type)` is given when the caller passes none. */
  const DEFAULT_ID: string := "NOT_DEFINED"

  /** True if `p` is a prefix of `s`. */
  predicate IsPrefix(p: string, s: string) {
    |p| <= |s| && s[..|p|] == p
  }

  /**
   * The initial fields of a user of type `tag`. A dragon ignores the id it is
   * given and takes one made of "D@" and the creation time (`clock`, the text
   * of `time.time()`); a player keeps its id. Any other tag yields no user
   * (the source exits the process).
   */
  function InitialStats(tag: TypeTag, id: string, clock: string): (r: Option<Stats>)
    ensures r.Some? <==> tag.Known?
    ensures r.Some? ==> 0 <= r.value.hp == r.value.maxHp && 0 < r.value.ap
    ensures tag == Known(Dragon) ==>
              && r.value.hp == DRAGON_HP && r.value.ap == DRAGON_AP
              && IsPrefix(DRAGON_ID_PREFIX, r.value.id) && r.value.id[|DRAGON_ID_PREFIX|..] == clock
    ensures tag == Known(Player) ==>
              r.value.hp == PLAYER_HP && r.value.ap == PLAYER_AP && r.value.id == id
  {
    match tag
    case Known(Dragon) => Some(Stats(DRAGON_ID_PREFIX + clock, DRAGON_HP, DRAGON_AP, DRAGON_HP))
    case Known(Player) => Some(Stats(id, PLAYER_HP, PLAYER_AP, PLAYER_HP))
    case Unknown(_) => None
  }

  /**
   * Distinct `time.time()` readings give distinct dragon ids. (Two dragons
   * created within one clock tick read the same time and share an id.)
   */
  lemma DragonIdsDistinct(id1: string, id2: string, clock1: string, clock2: string)
    requires clock1 != clock2
    ensures InitialStats(Known(Dragon), id1, clock1).value.id
         != InitialStats(Known(Dragon), id2, clock2).value.id
  {
    var a := InitialStats(Known(Dragon), id1, clock1).value.id;
    var b := InitialStats(Known(Dragon), id2, clock2).value.id;
    assert a[|DRAGON_ID_PREFIX|..] == clock1 && b[|DRAGON_ID_PREFIX|..] == clock2;
  }

  /**
   * A user. `pos` is `[]` until the user is placed on the grid, then
   * `[row, col]`; `hp` may change later, `maxHp` and the rest do not.
   */
  class User {
    const userType: UserType
    const id: string
    const ap: int
    const maxHp: int
    var hp: int
    var pos: seq<int>

    /** `User(type, id)` for a player or a dragon. */
    constructor (userType: UserType, id: string, clock: string)
      ensures this.userType == userType && pos == []
      ensures InitialStats(Known(userType), id, clock) == Some(Stats(this.id, hp, ap, maxHp))
      ensures 0 <= hp <= maxHp
    {
      var stats := InitialStats(Known(userType), id, clock).value;
      this.userType := userType;
      this.id := stats.id;
      this.ap := stats.ap;
      this.maxHp := stats.maxHp;
      hp := stats.hp;
      pos := [];
    }

    /** `User(type, id)` for any type tag: no user for a tag that is neither a player nor a dragon. */
    static method Create(tag: TypeTag, id: string, clock: string) returns (u: User?)
      ensures u == null <==> tag.Unknown?
      ensures u != null ==>
                && fresh(u) && Known(u.userType) == tag && u.pos == []
                && InitialStats(tag, id, clock) == Some(Stats(u.id, u.hp, u.ap, u.maxHp))
    {
      match tag
      case Known(t) => u := new User(t, id, clock);
      case Unknown(_) => u := null;
    }
  }
}
