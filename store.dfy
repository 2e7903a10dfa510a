/** The module-level `store` dictionary: file name -> line offset. A
    Python dict also remembers the order in which its keys were first
    inserted, and `list(store)` walks them in that order, so the model keeps
    that order beside the map. */
module SnapshotStore {

  /** No name occurs twice: each one differs from every name before it. */
  predicate Distinct(s: seq<string>)
    decreases |s|
  {
    |s| == 0 || (s[|s| - 1] !in s[..|s| - 1] && Distinct(s[..|s| - 1]))
  }

  /** The same, position by position. */
  lemma {:induction false} DistinctIndices(s: seq<string>)
    ensures Distinct(s) <==> forall i, j :: 0 <= i < j < |s| ==> s[i] != s[j]
    decreases |s|
  {
    if |s| > 0 {
      var front, x := s[..|s| - 1], s[|s| - 1];
      DistinctIndices(front);
      if Distinct(s) {
        forall i, j | 0 <= i < j < |s| ensures s[i] != s[j] {
          assert s[i] == front[i];
          if j < |s| - 1 {
            assert s[j] == front[j];
          }
        }
      }
      if forall i, j :: 0 <= i < j < |s| ==> s[i] != s[j] {
        forall i, j | 0 <= i < j < |front| ensures front[i] != front[j] {
          assert front[i] == s[i] && front[j] == s[j];
        }
        forall i | 0 <= i < |front| ensures front[i] != x {
          assert front[i] == s[i];
        }
      }
    }
  }

  /** A name not yet present can be appended. */
  lemma DistinctSnoc(s: seq<string>, x: string)
    requires Distinct(s) && x !in s
    ensures Distinct(s + [x])
  {
    assert (s + [x])[..|s|] == s;
  }

  /** Appending to the second part of a split sequence. */
  lemma SnocAssoc(whole: seq<string>, front: seq<string>, back: seq<string>, x: string)
    requires whole == front + back
    ensures whole + [x] == front + (back + [x])
  {
  }

  /** Without its first name, the rest still has no repeats and does not
      hold that name. */
  lemma DistinctTail(s: seq<string>)
    requires Distinct(s) && s != []
    ensures s[0] !in s[1..] && Distinct(s[1..])
  {
    DistinctIndices(s);
    DistinctIndices(s[1..]);
    forall i | 0 <= i < |s| - 1 ensures s[1..][i] != s[0] {
      assert s[1..][i] == s[i + 1];
    }
  }

  /** Two sequences without repeats and without a common name join into one. */
  lemma {:induction false} DistinctConcat(a: seq<string>, b: seq<string>)
    requires Distinct(a) && Distinct(b)
    requires forall x :: x in a ==> x !in b
    ensures Distinct(a + b)
    decreases |b|
  {
    if b == [] {
      assert a + b == a;
    } else {
      var front, x := b[..|b| - 1], b[|b| - 1];
      assert b == front + [x];
      DistinctConcat(a, front);
      DistinctSnoc(a + front, x);
      assert a + b == (a + front) + [x];
    }
  }

  /** Position of `x` in `s`: the first one, and with `Distinct` the only one. */
  function IndexOf(s: seq<string>, x: string): (j: nat)
    requires x in s
    ensures j < |s| && s[j] == x && x !in s[..j]
  {
    if s[0] == x then 0 else 1 + IndexOf(s[1..], x)
  }

  /** Taking the next element of `s` off the part not yet walked. */
  lemma SplitAt(front: seq<string>, s: seq<string>, i: nat)
    requires i < |s|
    ensures front + s[i..] == front + [s[i]] + s[i + 1..]
  {
    assert s[i..] == [s[i]] + s[i + 1..];
  }

  /** Deleting the element between `front` and `back` leaves `front + back`. */
  lemma DeleteBetween(front: seq<string>, x: string, back: seq<string>)
    ensures var s := front + [x] + back; s[..|front|] + s[|front| + 1..] == front + back
  {
    var s := front + [x] + back;
    assert s[..|front|] == front;
    assert s[|front| + 1..] == back;
  }

  /** The first `x` of `front + [x] + back` is the one after `front` when
      `front` has none. */
  lemma {:induction false} IndexAfter(front: seq<string>, x: string, back: seq<string>)
    requires x !in front
    ensures IndexOf(front + [x] + back, x) == |front|
    decreases |front|
  {
    if front != [] {
      var s := front + [x] + back;
      assert s[0] == front[0];
      assert s[1..] == front[1..] + [x] + back;
      IndexAfter(front[1..], x, back);
    }
  }

  /** ... so popping it leaves `front + back`. */
  lemma PopBetween(front: seq<string>, x: string, back: seq<string>)
    requires x !in front
    ensures var s := front + [x] + back; var j := IndexOf(s, x);
      j == |front| && s[..j] + s[j + 1..] == front + back
  {
    IndexAfter(front, x, back);
    DeleteBetween(front, x, back);
  }

  /** Every key of `offsets` appears in `order` exactly once, and nothing else does. */
  ghost predicate Consistent(offsets: map<string, nat>, order: seq<string>) {
    && (forall k :: k in offsets <==> k in order)
    && Distinct(order)
  }

  /** Setting a key keeps the map and the key order in step. */
  lemma PutConsistent(offsets: map<string, nat>, order: seq<string>, key: string, value: nat)
    requires Consistent(offsets, order)
    ensures Consistent(offsets[key := value], if key in offsets then order else order + [key])
  {
    if key !in offsets {
      DistinctSnoc(order, key);
    }
  }

  /** Popping a key keeps the map and the key order in step. */
  lemma PopConsistent(offsets: map<string, nat>, order: seq<string>, key: string)
    requires Consistent(offsets, order) && key in offsets
    ensures var j := IndexOf(order, key);
      Consistent(offsets - {key}, order[..j] + order[j + 1..])
  {
    var j := IndexOf(order, key);
    var front, back := order[..j], order[j + 1..];
    assert order == front + [key] + back;
    DistinctDelete(front, key, back);
  }

  /** Deleting a name from a sequence without repeats leaves one without
      repeats that no longer holds it. */
  lemma {:induction false} DistinctDelete(front: seq<string>, x: string, back: seq<string>)
    requires Distinct(front + [x] + back)
    ensures Distinct(front + back) && x !in front + back
    decreases |back|
  {
    if back == [] {
      assert front + [x] + back == front + [x];
      assert (front + [x])[..|front|] == front;
      assert front + back == front;
    } else {
      var b, y := back[..|back| - 1], back[|back| - 1];
      var s := front + [x] + back;
      assert s == (front + [x] + b) + [y];
      assert s[..|s| - 1] == front + [x] + b;
      DistinctDelete(front, x, b);
      assert front + back == (front + b) + [y];
      DistinctSnoc(front + b, y);
    }
  }

  class Store {
    var offsets: map<string, nat>
    var order: seq<string>

    /** `order` lists every key once, in insertion order. */
    ghost predicate Valid()
      reads this
    {
      Consistent(offsets, order)
    }

    /** `store = dict()` */
    constructor ()
      ensures Valid() && offsets == map[] && order == []
    {
      offsets := map[];
      order := [];
    }

    /** `store[key] = value`: overwrites in place, or appends a new key
        (see `PutConsistent`). */
    method Put(key: string, value: nat)
      modifies this
      ensures offsets == old(offsets)[key := value]
      ensures order == if key in old(offsets) then old(order) else old(order) + [key]
    {
      if key !in offsets {
        order := order + [key];
      }
      offsets := offsets[key := value];
    }

    /** `store.pop(key)`, which raises KeyError on a missing key; the
        watcher only pops keys it has just read from the store. The key
        leaves both the map and the key order (see `PopConsistent`). */
    method Pop(key: string)
      requires key in offsets && key in order
      modifies this
      ensures offsets == old(offsets) - {key}
      ensures var j := IndexOf(old(order), key); order == old(order)[..j] + old(order)[j + 1..]
    {
      var j := IndexOf(order, key);
      order := order[..j] + order[j + 1..];
      offsets := offsets - {key};
    }
  }
}
