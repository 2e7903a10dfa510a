/** What the added/removed detection does to the store, as values: the
    names it reports and the map and key order it leaves. */
module DiffSpec {
  import opened SnapshotStore

  /** The names of `names` that are not in `known`, each at its first
      occurrence, in listing order: the keys an insertion pass adds. */
  function NewNames(known: set<string>, names: seq<string>): seq<string>
    decreases |names|
  {
    if names == [] then []
    else
      var front, x := names[..|names| - 1], names[|names| - 1];
      NewNames(known, front) + (if x in known || x in front then [] else [x])
  }

  /** The entries of `s` that are still listed, in their order. */
  function Kept(s: seq<string>, names: seq<string>): seq<string>
    decreases |s|
  {
    if s == [] then []
    else Kept(s[..|s| - 1], names) + (if s[|s| - 1] in names then [s[|s| - 1]] else [])
  }

  /** The entries of `s` that are no longer listed, in their order. */
  function Gone(s: seq<string>, names: seq<string>): seq<string>
    decreases |s|
  {
    if s == [] then []
    else Gone(s[..|s| - 1], names) + (if s[|s| - 1] !in names then [s[|s| - 1]] else [])
  }

  /** The map after `initial_fill`: every listed name set to 0. */
  function Seeded(offsets: map<string, nat>, names: seq<string>): map<string, nat> {
    offsets + map n | n in names :: 0
  }

  /** The map after `detect_added_files`: unknown listed names added at 0. */
  function WithAdded(offsets: map<string, nat>, names: seq<string>): map<string, nat> {
    offsets + map n | n in names && n !in offsets :: 0
  }

  /** The map after `detect_removed_files`: only listed keys survive. */
  function WithoutRemoved(offsets: map<string, nat>, names: seq<string>): map<string, nat> {
    map k | k in offsets && k in names :: offsets[k]
  }

  /** The keys not yet dropped by a removal pass that has walked the keys
      in `seen`: listed keys, and keys the pass has not reached. */
  function Pruned(offsets: map<string, nat>, names: seq<string>, seen: seq<string>): map<string, nat> {
    map k | k in offsets && (k in names || k !in seen) :: offsets[k]
  }

  /** After `initial_fill` every listed name is a key at offset 0 and
      every other key keeps its offset. */
  lemma SeededEffect(offsets: map<string, nat>, names: seq<string>)
    ensures var r := Seeded(offsets, names);
      && (forall k :: k in r <==> k in offsets || k in names)
      && (forall n :: n in names ==> r[n] == 0)
      && (forall k :: k in offsets && k !in names ==> r[k] == offsets[k])
  {
  }

  /** After added-detection every listed name is a key; a name that was
      not a key starts at 0 and an existing key keeps its offset. */
  lemma WithAddedEffect(offsets: map<string, nat>, names: seq<string>)
    ensures var r := WithAdded(offsets, names);
      && (forall k :: k in r <==> k in offsets || k in names)
      && (forall k :: k in offsets ==> r[k] == offsets[k])
      && (forall n :: n in names && n !in offsets ==> r[n] == 0)
  {
  }

  /** After removed-detection every key is listed, and a listed key keeps
      its offset. */
  lemma WithoutRemovedEffect(offsets: map<string, nat>, names: seq<string>)
    ensures var r := WithoutRemoved(offsets, names);
      && (forall k :: k in r <==> k in offsets && k in names)
      && (forall k :: k in r ==> r[k] == offsets[k])
  {
  }

  /** Once the pass has walked every key, exactly the listed keys remain. */
  lemma PrunedAll(offsets: map<string, nat>, names: seq<string>, keys: seq<string>)
    requires forall k :: k in offsets ==> k in keys
    ensures Pruned(offsets, names, keys) == WithoutRemoved(offsets, names)
  {
  }

  /** The key the removal pass reaches next is still in the store. */
  lemma PrunedHasNext(offsets: map<string, nat>, names: seq<string>, keys: seq<string>, i: nat)
    requires Consistent(offsets, keys) && i < |keys|
    ensures keys[i] in Pruned(offsets, names, keys[..i])
  {
    DistinctIndices(keys);
  }

  lemma SeededStep(offsets: map<string, nat>, names: seq<string>, i: nat)
    requires i < |names|
    ensures Seeded(offsets, names[..i + 1]) == Seeded(offsets, names[..i])[names[i] := 0]
  {
    assert names[..i + 1] == names[..i] + [names[i]];
  }

  lemma WithAddedStep(offsets: map<string, nat>, names: seq<string>, i: nat)
    requires i < |names|
    ensures var m := WithAdded(offsets, names[..i]);
      WithAdded(offsets, names[..i + 1]) == if names[i] in m then m else m[names[i] := 0]
  {
    assert names[..i + 1] == names[..i] + [names[i]];
  }

  lemma NewNamesStep(known: set<string>, names: seq<string>, i: nat)
    requires i < |names|
    ensures names[i] in known || names[i] in names[..i] ==> NewNames(known, names[..i + 1]) == NewNames(known, names[..i])
    ensures names[i] !in known && names[i] !in names[..i] ==>
      NewNames(known, names[..i + 1]) == NewNames(known, names[..i]) + [names[i]]
  {
    assert names[..i + 1][..i] == names[..i];
    assert NewNames(known, names[..i]) + [] == NewNames(known, names[..i]);
  }

  lemma PrunedStep(offsets: map<string, nat>, names: seq<string>, keys: seq<string>, i: nat)
    requires i < |keys|
    ensures var m := Pruned(offsets, names, keys[..i]);
      Pruned(offsets, names, keys[..i + 1]) == if keys[i] in names then m else m - {keys[i]}
  {
    assert keys[..i + 1] == keys[..i] + [keys[i]];
  }

  lemma KeptGoneStep(keys: seq<string>, names: seq<string>, i: nat)
    requires i < |keys|
    ensures keys[i] in names ==>
      Kept(keys[..i + 1], names) == Kept(keys[..i], names) + [keys[i]] && Gone(keys[..i + 1], names) == Gone(keys[..i], names)
    ensures keys[i] !in names ==>
      Kept(keys[..i + 1], names) == Kept(keys[..i], names) && Gone(keys[..i + 1], names) == Gone(keys[..i], names) + [keys[i]]
  {
    assert keys[..i + 1][..i] == keys[..i];
    assert Kept(keys[..i], names) + [] == Kept(keys[..i], names);
    assert Gone(keys[..i], names) + [] == Gone(keys[..i], names);
  }

  /** A name is added exactly when it is listed and was not known. */
  lemma {:induction false} NewNamesMember(known: set<string>, names: seq<string>, x: string)
    ensures x in NewNames(known, names) <==> x in names && x !in known
    decreases |names|
  {
    if names != [] {
      var front := names[..|names| - 1];
      NewNamesMember(known, front, x);
      assert names == front + [names[|names| - 1]];
    }
  }

  /** ... and it is added once. */
  lemma {:induction false} NewNamesDistinct(known: set<string>, names: seq<string>)
    ensures Distinct(NewNames(known, names))
    decreases |names|
  {
    if names != [] {
      var front, x := names[..|names| - 1], names[|names| - 1];
      NewNamesDistinct(known, front);
      NewNamesMember(known, front, x);
      var r := NewNames(known, front);
      if x !in known && x !in front {
        DistinctSnoc(r, x);
      } else {
        assert r + [] == r;
      }
    }
  }

  lemma {:induction false} KeptMember(s: seq<string>, names: seq<string>, x: string)
    ensures x in Kept(s, names) <==> x in s && x in names
    decreases |s|
  {
    if s != [] {
      KeptMember(s[..|s| - 1], names, x);
      assert s == s[..|s| - 1] + [s[|s| - 1]];
    }
  }

  lemma {:induction false} GoneMember(s: seq<string>, names: seq<string>, x: string)
    ensures x in Gone(s, names) <==> x in s && x !in names
    decreases |s|
  {
    if s != [] {
      GoneMember(s[..|s| - 1], names, x);
      assert s == s[..|s| - 1] + [s[|s| - 1]];
    }
  }

  lemma {:induction false} KeptDistinct(s: seq<string>, names: seq<string>)
    requires Distinct(s)
    ensures Distinct(Kept(s, names))
    decreases |s|
  {
    if s != [] {
      var front := s[..|s| - 1];
      KeptDistinct(front, names);
      KeptMember(front, names, s[|s| - 1]);
      var r := Kept(front, names);
      if s[|s| - 1] in names {
        DistinctSnoc(r, s[|s| - 1]);
      } else {
        assert r + [] == r;
      }
    }
  }

  lemma {:induction false} GoneDistinct(s: seq<string>, names: seq<string>)
    requires Distinct(s)
    ensures Distinct(Gone(s, names))
    decreases |s|
  {
    if s != [] {
      var front := s[..|s| - 1];
      GoneDistinct(front, names);
      GoneMember(front, names, s[|s| - 1]);
      var r := Gone(front, names);
      if s[|s| - 1] !in names {
        DistinctSnoc(r, s[|s| - 1]);
      } else {
        assert r + [] == r;
      }
    }
  }

  lemma {:induction false} KeptConcat(a: seq<string>, b: seq<string>, names: seq<string>)
    ensures Kept(a + b, names) == Kept(a, names) + Kept(b, names)
    decreases |b|
  {
    if b != [] {
      var front := b[..|b| - 1];
      KeptConcat(a, front, names);
      assert (a + b)[..|a + b| - 1] == a + front;
    } else {
      assert a + b == a;
    }
  }

  lemma {:induction false} GoneConcat(a: seq<string>, b: seq<string>, names: seq<string>)
    ensures Gone(a + b, names) == Gone(a, names) + Gone(b, names)
    decreases |b|
  {
    if b != [] {
      var front := b[..|b| - 1];
      GoneConcat(a, front, names);
      assert (a + b)[..|a + b| - 1] == a + front;
    } else {
      assert a + b == a;
    }
  }

  /** Initial fill and added-detection keep the store consistent: whatever
      the map sets, its keys become the old keys and the listed names, and
      the new names are appended to the key order once each. */
  lemma GrowConsistent(offsets: map<string, nat>, order: seq<string>, names: seq<string>, grown: map<string, nat>)
    requires Consistent(offsets, order)
    requires forall k :: k in grown <==> k in offsets || k in names
    ensures Consistent(grown, order + NewNames(offsets.Keys, names))
  {
    var added := NewNames(offsets.Keys, names);
    NewNamesDistinct(offsets.Keys, names);
    forall k ensures k in grown <==> k in order + added {
      NewNamesMember(offsets.Keys, names, k);
    }
    forall x | x in order ensures x !in added {
      NewNamesMember(offsets.Keys, names, x);
    }
    DistinctConcat(order, added);
  }

  /** Removed-detection keeps the store consistent: the surviving keys
      are exactly the kept entries of the key order, each once. */
  lemma KeptConsistent(offsets: map<string, nat>, order: seq<string>, names: seq<string>)
    requires Consistent(offsets, order)
    ensures Consistent(WithoutRemoved(offsets, names), Kept(order, names))
  {
    KeptDistinct(order, names);
    forall k ensures k in WithoutRemoved(offsets, names) <==> k in Kept(order, names) {
      KeptMember(order, names, k);
    }
  }

  /** Nothing is removed from a key order whose keys are all listed. */
  lemma {:induction false} AllListed(s: seq<string>, names: seq<string>)
    requires forall x :: x in s ==> x in names
    ensures Kept(s, names) == s && Gone(s, names) == []
    decreases |s|
  {
    if s != [] {
      AllListed(s[..|s| - 1], names);
      assert s == s[..|s| - 1] + [s[|s| - 1]];
    }
  }

  /** Nothing is added when every listed name is already known. */
  lemma NothingNew(known: set<string>, names: seq<string>)
    requires forall x :: x in names ==> x in known
    ensures NewNames(known, names) == []
  {
    var r := NewNames(known, names);
    if r != [] {
      NewNamesMember(known, names, r[0]);
    }
  }

  /** Removed-detection run after added-detection never removes a name
      the added pass just appended: the new names stay at the end of the
      key order and only previously known keys can be reported removed. */
  lemma AddedThenRemoved(order: seq<string>, known: set<string>, names: seq<string>)
    ensures Kept(order + NewNames(known, names), names) == Kept(order, names) + NewNames(known, names)
    ensures Gone(order + NewNames(known, names), names) == Gone(order, names)
  {
    var added := NewNames(known, names);
    forall x | x in added ensures x in names {
      NewNamesMember(known, names, x);
    }
    AllListed(added, names);
    KeptConcat(order, added, names);
    GoneConcat(order, added, names);
  }

  /** Added-detection followed by removed-detection on one listing leaves
      exactly the listed names as keys; a name known before keeps its
      offset and a new one starts at 0. */
  lemma DiffSyncsKeys(offsets: map<string, nat>, names: seq<string>)
    ensures var r := WithoutRemoved(WithAdded(offsets, names), names);
      && (forall k :: k in r <==> k in names)
      && (forall k :: k in r ==> r[k] == if k in offsets then offsets[k] else 0)
  {
  }

  /** A file that disappears and later reappears starts over at offset 0. */
  lemma ReAddedStartsOver(offsets: map<string, nat>, gone: seq<string>, back: seq<string>, name: string)
    requires name in offsets && name !in gone && name in back
    ensures WithAdded(WithoutRemoved(offsets, gone), back)[name] == 0
  {
  }
}
