/** The three string tests the watcher relies on: Python's substring test
    (`magic_string in line`), `str.endswith`, and the last path component
    taken by `filename.split("/")[-1]`. */
module Text {

  /** `pattern` occurs in `line` starting at position `k`. */
  predicate OccursAt(line: string, pattern: string, k: nat) {
    k + |pattern| <= |line| && line[k..k + |pattern|] == pattern
  }

  /** Python's `pattern in line` on strings: a literal, case-sensitive
      substring test, tried at every start position from the left. The
      empty pattern occurs in every line. */
  predicate Contains(line: string, pattern: string)
    decreases |line|
  {
    pattern <= line || (|line| > 0 && Contains(line[1..], pattern))
  }

  /** The scanning definition agrees with the positional one, both ways. */
  lemma ContainsIffOccurs(line: string, pattern: string)
    ensures Contains(line, pattern) <==> exists k: nat :: OccursAt(line, pattern, k)
  {
    if Contains(line, pattern) {
      ContainsSomewhere(line, pattern);
    }
    if exists k: nat :: OccursAt(line, pattern, k) {
      var k: nat :| OccursAt(line, pattern, k);
      OccursContains(line, pattern, k);
    }
  }

  lemma {:induction false} ContainsSomewhere(line: string, pattern: string)
    requires Contains(line, pattern)
    ensures exists k: nat :: OccursAt(line, pattern, k)
    decreases |line|
  {
    if pattern <= line {
      assert OccursAt(line, pattern, 0);
    } else {
      var tail := line[1..];
      ContainsSomewhere(tail, pattern);
      var k: nat :| OccursAt(tail, pattern, k);
      assert line[k + 1..k + 1 + |pattern|] == tail[k..k + |pattern|];
      assert OccursAt(line, pattern, k + 1);
    }
  }

  lemma {:induction false} OccursContains(line: string, pattern: string, k: nat)
    requires OccursAt(line, pattern, k)
    ensures Contains(line, pattern)
    decreases k
  {
    if k == 0 {
      assert pattern <= line;
    } else {
      var tail := line[1..];
      assert tail[k - 1..k - 1 + |pattern|] == line[k..k + |pattern|];
      OccursContains(tail, pattern, k - 1);
    }
  }

  /** Python's `s.endswith(suffix)`; every string ends with "". */
  predicate EndsWith(s: string, suffix: string) {
    |suffix| <= |s| && s[|s| - |suffix|..] == suffix
  }

  /** `s` ends with `suffix` exactly when `s` is some string followed by `suffix`. */
  lemma EndsWithIffSplit(s: string, suffix: string)
    ensures EndsWith(s, suffix) <==> exists front: string :: front + suffix == s
  {
    if EndsWith(s, suffix) {
      var front := s[..|s| - |suffix|];
      assert front + suffix == s;
    }
    if exists front: string :: front + suffix == s {
      var front: string :| front + suffix == s;
      assert s[|s| - |suffix|..] == suffix;
    }
  }

  /** `path.split("/")[-1]`: the text after the last '/', or the whole
      path when it has none. */
  function BaseName(path: string): string
    decreases |path|
  {
    if |path| == 0 then ""
    else if path[|path| - 1] == '/' then ""
    else BaseName(path[..|path| - 1]) + [path[|path| - 1]]
  }

  /** The base name is a '/'-free suffix of the path that is either all of
      it or preceded by a '/'. */
  lemma {:induction false} BaseNameShape(path: string)
    ensures var r := BaseName(path);
      && '/' !in r
      && EndsWith(path, r)
      && (|r| == |path| || path[|path| - |r| - 1] == '/')
    decreases |path|
  {
    if |path| > 0 && path[|path| - 1] != '/' {
      var front := path[..|path| - 1];
      BaseNameShape(front);
      var r := BaseName(front) + [path[|path| - 1]];
      assert path == front + [path[|path| - 1]];
      assert path[|path| - |r|..] == front[|front| - |BaseName(front)|..] + [path[|path| - 1]];
    }
  }

  /** Joining a directory and a '/'-free entry name with "/" and taking the
      base name gives the entry name back: the store key written by the
      scanner is the name the directory listing reported. */
  lemma {:induction false} BaseNameOfJoin(dir: string, name: string)
    requires '/' !in name
    ensures BaseName(dir + "/" + name) == name
    decreases |name|
  {
    var path := dir + "/" + name;
    if |name| == 0 {
      assert path[|path| - 1] == '/';
    } else {
      var front := name[..|name| - 1];
      assert path[..|path| - 1] == dir + "/" + front;
      assert path[|path| - 1] == name[|name| - 1];
      BaseNameOfJoin(dir, front);
      assert front + [name[|name| - 1]] == name;
    }
  }
}
