/** What the environment can do to a command, and how a method reports its outcome. */
module Environment {

  datatype Reason =
    | AlreadyExists | MissingFrontmatter | RaceLost | Unrecoverable | ConflictUnresolved | CommandFailed

  /** Died stands for a process that died within the method. */
  datatype Reply = Done | Failed(reason: Reason) | Died {
    predicate IsFailure() { !Done? }

    function PropagateFailure(): Reply
      requires IsFailure()
    {
      this
    }

    /** The same outcome without a particular reason. */
    function Plain(): Reply { if Failed? then Failed(CommandFailed) else this }
  }

  /** What the environment does to one command: nothing, or it breaks it (I/O error,
      network error, hook, cancelled context, or the process dies) before or after
      the command had its effect. */
  datatype Fate = Fine | Broken(applied: bool, died: bool) {
    predicate Applied() { Fine? || applied }

    function Outcome(): Reply {
      if Fine? then Done else if died then Died else Failed(CommandFailed)
    }

    /** The outcome of a command that would fail even in a fine environment. */
    function Refusal(): Reply { if Fine? then Failed(CommandFailed) else Outcome() }
  }
}
