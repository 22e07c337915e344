// The last-run-time file: a single timestamp, or no file at all before the first cycle.

module Checkpoint {
  datatype Option<T> = None | Some(value: T)

  /** Value written when the file does not exist yet. */
  const Sentinel: int := 847584000

  /** The timestamp a read yields for a file with `content`. */
  function LastRunTime(content: Option<int>): (t: int)
  {
    match content
    case None => Sentinel
    case Some(t) => t
  }

  class CheckpointFile {
    /** `None` while the file does not exist. */
    var content: Option<int>

    constructor (initial: Option<int>)
      ensures content == initial
    {
      content := initial;
    }

    /** `get_last_run_time`: creates the file with the sentinel when it is missing, then reads it. */
    method GetLastRunTime() returns (t: int)
      modifies this
      ensures old(content) == None ==> t == Sentinel && content == Some(Sentinel)
      ensures old(content).Some? ==> t == old(content).value && content == old(content)
    {
      if content == None {
        content := Some(Sentinel);
      }
      t := content.value;
    }

    /** `update_last_run_time`: overwrites the file with `t`. */
    method UpdateLastRunTime(t: int)
      modifies this
      ensures content == Some(t)
    {
      content := Some(t);
    }
  }
}
