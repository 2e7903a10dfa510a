/** Values the watcher passes around: optional inputs, the log events it
    emits, and how a pass over the directory ended. */
module Events {

  datatype Option<T> = None | Some(value: T)

  /** One informational or error log line of the watcher. */
  datatype Event =
    | Added(name: string)                             // "<name> was added to the directory"
    | Removed(name: string)                           // "<name> was removed from the directory"
    | Found(magic: string, line: nat, file: string)   // "<magic> found on line <line> of <file>"
    | DirectoryNotFound(directory: string)            // "<directory> not found."

  /** How a pass ended: normally, or by the OSError that `os.listdir` or
      `open` raised, which leaves the pass at that point. */
  datatype Outcome = Done | ListingFailed | OpenFailed(path: string)

  function AddedEvents(names: seq<string>): seq<Event> {
    seq(|names|, k requires 0 <= k < |names| => Added(names[k]))
  }

  function RemovedEvents(names: seq<string>): seq<Event> {
    seq(|names|, k requires 0 <= k < |names| => Removed(names[k]))
  }

  /** One `Found` event per matching zero-based line index, carrying the
      one-based line number. */
  function FoundEvents(magic: string, lines: seq<nat>, file: string): seq<Event> {
    seq(|lines|, k requires 0 <= k < |lines| => Found(magic, lines[k] + 1, file))
  }

  /** Regrouping a log split in three parts. */
  lemma AppendAssoc(whole: seq<Event>, done: seq<Event>, next: seq<Event>, rest: seq<Event>)
    requires whole == done + (next + rest)
    ensures whole == (done + next) + rest
  {
  }

  lemma AddedEventsSnoc(names: seq<string>, x: string)
    ensures AddedEvents(names + [x]) == AddedEvents(names) + [Added(x)]
  {
  }

  lemma RemovedEventsSnoc(names: seq<string>, x: string)
    ensures RemovedEvents(names + [x]) == RemovedEvents(names) + [Removed(x)]
  {
  }

  lemma FoundEventsSnoc(magic: string, lines: seq<nat>, i: nat, file: string)
    ensures FoundEvents(magic, lines + [i], file) == FoundEvents(magic, lines, file) + [Found(magic, i + 1, file)]
  {
  }

  /** The `Found` events of a scan name exactly the matching lines, each
      with its one-based number, and only the scanned file. */
  lemma FoundEventsMember(magic: string, lines: seq<nat>, file: string, other: string, j: nat)
    ensures Found(magic, j + 1, other) in FoundEvents(magic, lines, file) <==> other == file && j in lines
  {
    var evs := FoundEvents(magic, lines, file);
    if Found(magic, j + 1, other) in evs {
      var i :| 0 <= i < |evs| && evs[i] == Found(magic, j + 1, other);
      assert lines[i] == j;
    }
    if other == file && j in lines {
      var i :| 0 <= i < |lines| && lines[i] == j;
      assert evs[i] == Found(magic, j + 1, other);
    }
  }

  /** Added and removed events are never `Found` events. */
  lemma DiffEventsNotFound(added: seq<string>, removed: seq<string>)
    ensures forall e :: e in AddedEvents(added) + RemovedEvents(removed) ==> !e.Found?
  {
    forall e | e in AddedEvents(added) + RemovedEvents(removed) ensures !e.Found? {
      if e in AddedEvents(added) {
        var i :| 0 <= i < |added| && AddedEvents(added)[i] == e;
      } else {
        var i :| 0 <= i < |removed| && RemovedEvents(removed)[i] == e;
      }
    }
  }
}
