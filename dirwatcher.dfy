/** The watch-state engine of dirwatcher.py. Each method stands for the
    Python function of the same name and updates the `store` it is given
    in place. Directory listings and file contents are inputs (None when
    `os.listdir` or `open` would raise OSError), and the log lines the
    Python code writes are returned as events. */
module DirWatcher {
  import opened Text
  import opened Events
  import opened SnapshotStore
  import opened ScanSpec
  import opened DiffSpec
  import opened CycleSpec

  /** `initial_fill`: every listed name is set to offset 0 (an existing
      entry too). When the directory cannot be listed the error is logged
      and the store is left alone. */
  method InitialFill(store: Store, directory: string, listing: Option<seq<string>>) returns (events: seq<Event>)
    requires store.Valid()
    modifies store
    ensures store.Valid()
    ensures listing.None? ==>
      events == [DirectoryNotFound(directory)] && store.offsets == old(store.offsets) && store.order == old(store.order)
    ensures listing.Some? ==>
      && events == []
      && store.offsets == Seeded(old(store.offsets), listing.value)
      && store.order == old(store.order) + NewNames(old(store.offsets).Keys, listing.value)
  {
    match listing
    case None =>
      events := [DirectoryNotFound(directory)];
    case Some(names) =>
      events := [];
      ghost var known := store.offsets.Keys;
      for i := 0 to |names|
        invariant store.offsets == Seeded(old(store.offsets), names[..i])
        invariant store.order == old(store.order) + NewNames(known, names[..i])
      {
        SeededStep(old(store.offsets), names, i);
        NewNamesStep(known, names, i);
        SnocAssoc(store.order, old(store.order), NewNames(known, names[..i]), names[i]);
        store.Put(names[i], 0);
      }
      assert names[..|names|] == names;
      GrowConsistent(old(store.offsets), old(store.order), names, store.offsets);
  }

  /** `detect_added_files`: every listed name that is not a key yet is
      added at offset 0 and reported, in listing order; existing keys keep
      their offsets. Fails, changing nothing, when the directory cannot be
      listed. */
  method DetectAddedFiles(store: Store, listing: Option<seq<string>>) returns (events: seq<Event>, outcome: Outcome)
    requires store.Valid()
    modifies store
    ensures store.Valid()
    ensures listing.None? ==>
      outcome == ListingFailed && events == [] && store.offsets == old(store.offsets) && store.order == old(store.order)
    ensures listing.Some? ==>
      var added := NewNames(old(store.offsets).Keys, listing.value);
      && outcome == Done
      && events == AddedEvents(added)
      && store.offsets == WithAdded(old(store.offsets), listing.value)
      && store.order == old(store.order) + added
  {
    events, outcome := [], Done;
    match listing
    case None =>
      outcome := ListingFailed;
    case Some(names) =>
      ghost var known := store.offsets.Keys;
      ghost var start := store.order;
      ghost var added: seq<string> := [];
      for i := 0 to |names|
        invariant store.offsets == WithAdded(old(store.offsets), names[..i])
        invariant added == NewNames(known, names[..i])
        invariant store.order == start + added
        invariant events == AddedEvents(added)
      {
        var f := names[i];
        WithAddedStep(old(store.offsets), names, i);
        NewNamesStep(known, names, i);
        if f !in store.offsets {
          AddedEventsSnoc(added, f);
          events := events + [Added(f)];
          SnocAssoc(store.order, start, added, f);
          store.Put(f, 0);
          added := added + [f];
        }
      }
      assert names[..|names|] == names;
      GrowConsistent(old(store.offsets), old(store.order), names, store.offsets);
  }

  /** `detect_removed_files`: walks the keys in insertion order and pops
      and reports every key that is no longer listed; the rest keep their
      offsets and their order. The listing is only needed when there is a
      key to check, so an unreadable directory fails the pass (changing
      nothing) only when the store is not empty. */
  method DetectRemovedFiles(store: Store, listing: Option<seq<string>>) returns (events: seq<Event>, outcome: Outcome)
    requires store.Valid()
    modifies store
    ensures store.Valid()
    ensures listing.None? ==>
      && events == [] && store.offsets == old(store.offsets) && store.order == old(store.order)
      && outcome == if old(store.order) == [] then Done else ListingFailed
    ensures listing.Some? ==>
      && outcome == Done
      && events == RemovedEvents(Gone(old(store.order), listing.value))
      && store.offsets == WithoutRemoved(old(store.offsets), listing.value)
      && store.order == Kept(old(store.order), listing.value)
  {
    var keys := store.order;
    events, outcome := [], Done;
    match listing
    case None =>
      // `os.listdir` is first called while checking the first key
      if |keys| > 0 {
        outcome := ListingFailed;
      }
    case Some(names) =>
      ghost var kept: seq<string> := [];
      ghost var gone: seq<string> := [];
      for i := 0 to |keys|
        invariant store.offsets == Pruned(old(store.offsets), names, keys[..i])
        invariant store.order == kept + keys[i..]
        invariant kept == Kept(keys[..i], names)
        invariant gone == Gone(keys[..i], names)
        invariant events == RemovedEvents(gone)
      {
        var f := keys[i];
        ghost var later := keys[i + 1..];
        assert store.order == kept + [f] + later by { SplitAt(kept, keys, i); }
        KeptGoneStep(keys, names, i);
        PrunedStep(old(store.offsets), names, keys, i);
        if f !in names {
          assert f in store.offsets by { PrunedHasNext(old(store.offsets), names, keys, i); }
          assert IndexOf(store.order, f) == |kept| && store.order[..|kept|] + store.order[|kept| + 1..] == kept + later by {
            KeptMember(keys[..i], names, f);
            PopBetween(kept, f, later);
          }
          store.Pop(f);
          RemovedEventsSnoc(gone, f);
          events := events + [Removed(f)];
          gone := gone + [f];
        } else {
          kept := kept + [f];
        }
      }
      assert keys[..|keys|] == keys && kept + keys[|keys|..] == kept;
      assert store.offsets == WithoutRemoved(old(store.offsets), names) by {
        PrunedAll(old(store.offsets), names, keys);
      }
      KeptConsistent(old(store.offsets), keys, names);
  }

  /** `search_for_magic`: scans the lines at zero-based index `startLine`
      and after, reports every line containing `magic` in increasing order
      with its one-based number, and leaves the entry of the file's base
      name one past the last matching line; no other entry changes, and
      with no match nothing changes at all. Fails, changing nothing, when
      the file cannot be opened. */
  method SearchForMagic(store: Store, filename: string, startLine: nat, magic: string,
                        content: Option<seq<string>>) returns (events: seq<Event>, outcome: Outcome)
    modifies store
    ensures content.None? ==>
      outcome == OpenFailed(filename) && events == [] && store.offsets == old(store.offsets) && store.order == old(store.order)
    ensures content.Some? ==>
      var m := Matches(content.value, startLine, magic);
      var name := BaseName(filename);
      && outcome == Done
      && events == FoundEvents(magic, m, name)
      && store.offsets == Rescanned(old(store.offsets), name, m)
      && store.order == if m == [] || name in old(store.offsets) then old(store.order) else old(store.order) + [name]
  {
    match content
    case None =>
      events, outcome := [], OpenFailed(filename);
    case Some(lines) =>
      events := ScanLines(store, filename, lines, startLine, magic);
      outcome := Done;
  }

  /** The loop of `search_for_magic` over the lines `file.readlines()`
      returned. */
  method ScanLines(store: Store, filename: string, lines: seq<string>, startLine: nat, magic: string)
    returns (events: seq<Event>)
    modifies store
    ensures var m := Matches(lines, startLine, magic);
      var name := BaseName(filename);
      && events == FoundEvents(magic, m, name)
      && store.offsets == Rescanned(old(store.offsets), name, m)
      && store.order == if m == [] || name in old(store.offsets) then old(store.order) else old(store.order) + [name]
  {
    events := [];
    ghost var name := BaseName(filename);
    ghost var m: seq<nat> := [];
    for i := 0 to |lines|
      invariant m == MatchesIn(lines, startLine, i, magic)
      invariant events == FoundEvents(magic, m, name)
      invariant store.offsets == Rescanned(old(store.offsets), name, m)
      invariant m != [] ==> name in store.offsets
      invariant store.order == if m == [] || name in old(store.offsets) then old(store.order) else old(store.order) + [name]
    {
      MatchesInStep(lines, startLine, i, magic);
      if i >= startLine {
        if Contains(lines[i], magic) {
          var textFile := BaseName(filename);
          FoundEventsSnoc(magic, m, i, name);
          RescannedSnoc(old(store.offsets), name, m, i);
          events := events + [Found(magic, i + 1, textFile)];
          store.Put(textFile, i + 1);
          m := m + [i];
        }
      }
    }
  }

  /** The loop at the end of `watch_directory`: every listed name that
      ends with `extension` is scanned from its stored offset, in listing
      order, and the first file that cannot be opened ends the loop. The
      result is exactly the scan phase `ScanPhase` describes. */
  method ScanFiles(store: Store, path: string, magic: string, extension: Option<string>,
                   names: seq<string>, files: map<string, seq<string>>)
    returns (events: seq<Event>, outcome: Outcome)
    requires forall n :: n in names ==> n in store.offsets && '/' !in n
    modifies store
    ensures var r := ScanPhase(old(store.offsets), names, extension, magic, files);
      && store.offsets == r.offsets && store.order == old(store.order) && events == r.events
      && outcome == if r.failed.Some? then OpenFailed(path + "/" + r.failed.value) else Done
  {
    ghost var whole := ScanPhase(store.offsets, names, extension, magic, files);
    events, outcome := [], Done;
    var i := 0;
    while i < |names|
      invariant i <= |names|
      invariant store.order == old(store.order)
      invariant forall n :: n in names ==> n in store.offsets
      invariant outcome == Done
      invariant var rest := ScanPhase(store.offsets, names[i..], extension, magic, files);
        && whole.offsets == rest.offsets
        && whole.failed == rest.failed
        && whole.events == events + rest.events
    {
      var f := names[i];
      if extension.Some? && EndsWith(f, extension.value) {
        var content := if f in files then Some(files[f]) else None;
        var found;
        ghost var o := store.offsets;
        BaseNameOfJoin(path, f);
        found, outcome := SearchForMagic(store, path + "/" + f, store.offsets[f], magic, content);
        if outcome != Done {
          ScanPhaseFail(o, names, i, extension, magic, files);
          assert events + [] == events;
          return;
        }
        ScanPhaseScan(o, names, i, extension, magic, files);
        ghost var next := ScanPhase(store.offsets, names[i + 1..], extension, magic, files);
        AppendAssoc(whole.events, events, found, next.events);
        events := events + found;
      } else {
        ScanPhaseSkip(store.offsets, names, i, extension, magic, files);
      }
      i := i + 1;
    }
    assert names[i..] == [];
    assert events + [] == events;
  }

  /** `watch_directory`: added-detection, then removed-detection, then a
      scan of every listed file whose name ends with `extension` (none when
      it is None), each from its stored offset and in listing order. An
      OSError ends the cycle where it happens: an unreadable directory
      before anything changes, an unopenable file after the earlier files
      were scanned. The result is exactly the cycle `PollCycle` describes. */
  method WatchDirectory(store: Store, path: string, magic: string, extension: Option<string>,
                        listing: Option<seq<string>>, files: map<string, seq<string>>)
    returns (events: seq<Event>, outcome: Outcome)
    requires store.Valid()
    requires listing.Some? ==> IsListing(listing.value)
    modifies store
    ensures store.Valid()
    ensures var c := PollCycle(old(Snapshot(store.offsets, store.order)), path, magic, extension, listing, files);
      store.offsets == c.after.offsets && store.order == c.after.order && events == c.events && outcome == c.outcome
  {
    ghost var s := Snapshot(store.offsets, store.order);
    events, outcome := DetectAddedFiles(store, listing);
    match listing
    case None =>
    case Some(names) =>
      var removed, found;
      removed, outcome := DetectRemovedFiles(store, listing);
      AddedThenRemoved(s.order, s.offsets.Keys, names);
      SyncedConsistent(s, names);
      found, outcome := ScanFiles(store, path, magic, extension, names, files);
      events := events + removed + found;
  }
}
