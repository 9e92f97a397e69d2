/**
 * Server-side commands (server/core/command.py): a command carries a
 * timestamp and an id and remembers whether it has been applied. The plain
 * command's `apply` does nothing; a new-player command records the initial
 * state, marks itself applied and puts itself on the response queue.
 */
module ServerCommand {
  import opened Queues

  /** `Command` or its subclass `NewPlayerCommand`. */
  datatype CommandKind = Plain | NewPlayer

  /** What `NewPlayerCommand.apply` stores as the initial game state. */
  const INITIAL_STATE: string := "initial_state"

  class Command {
    const timestamp: int
    const id: string
    const kind: CommandKind
    var applied: bool
    /** Only meaningful for a new-player command (the base class has no such field). */
    var initialState: string

    /**
     * The lifecycle invariant: a plain command is never applied; a
     * new-player command is applied exactly when it holds the initial state.
     */
    ghost predicate Consistent()
      reads this
    {
      && (kind == Plain ==> !applied)
      && (kind == NewPlayer ==> (applied <==> initialState == INITIAL_STATE))
    }

    /** `Command(timestamp, id)`: stores both and starts unapplied. */
    constructor (timestamp: int, id: string)
      ensures this.timestamp == timestamp && this.id == id && kind == Plain
      ensures !applied && Consistent()
    {
      this.timestamp := timestamp;
      this.id := id;
      kind := Plain;
      applied := false;
      initialState := "";
    }

    /** `NewPlayerCommand(timestamp, id)`: as the base constructor, with an empty initial state. */
    constructor NewPlayerCommand(timestamp: int, id: string)
      ensures this.timestamp == timestamp && this.id == id && kind == NewPlayer
      ensures !applied && initialState == "" && Consistent()
    {
      this.timestamp := timestamp;
      this.id := id;
      kind := NewPlayer;
      applied := false;
      initialState := "";
    }

    /**
     * `apply(response_queue)`. A plain command changes neither itself nor
     * the queue. A new-player command sets the initial state, becomes
     * applied and is appended to the back of the queue, whose earlier
     * entries stay as they were. The timestamp and id never change (they
     * are constants here), and the lifecycle invariant is kept.
     */
    method Apply(responseQueue: Queue<Command>)
      modifies this, responseQueue
      ensures kind == Plain ==>
                applied == old(applied) && initialState == old(initialState)
                && responseQueue.items == old(responseQueue.items)
      ensures kind == NewPlayer ==>
                applied && initialState == INITIAL_STATE
                && responseQueue.items == old(responseQueue.items) + [this]
      ensures old(Consistent()) ==> Consistent()
    {
      if kind == NewPlayer {
        initialState := INITIAL_STATE;
        applied := true;
        responseQueue.Put(this);
      }
    }
  }
}
