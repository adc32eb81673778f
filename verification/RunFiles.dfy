/** The local branch of the selective delete of a run's copied inputs: a sweep
    over the run directory, deepest paths first, that spares contracted output. */
module RunFiles {
  import opened Strings

  /** A path below the run directory, as its components. */
  type Path = seq<string>

  /** The run directory: files and directories strictly below it. */
  datatype Tree = Tree(present: bool, files: set<Path>, dirs: set<Path>)

  // ---- what is kept ---------------------------------------------------------------

  function Posix(p: Path): string {
    Join(p, '/')
  }

  function AttemptPrefix(id: string): string {
    "attempts/" + id + "/"
  }

  predicate KeptUnder(relative: string, prefix: string) {
    relative == prefix + "output.json" || prefix + "output/" <= relative || prefix + "outputs/" <= relative
  }

  /** In keep_relative_uris or under one of keep_relative_prefixes. */
  predicate Kept(relative: string, attempts: seq<string>) {
    KeptUnder(relative, "") || exists i | 0 <= i < |attempts| :: KeptUnder(relative, AttemptPrefix(attempts[i]))
  }

  predicate KeptPath(p: Path, attempts: seq<string>) {
    Kept(Posix(p), attempts)
  }

  predicate Component(c: string) {
    c != "" && '/' !in c
  }

  predicate Components(p: Path) {
    p != [] && forall i | 0 <= i < |p| :: Component(p[i])
  }

  lemma PosixStep(p: Path)
    requires |p| > 1
    ensures Posix(p) == p[0] + "/" + Posix(p[1..])
  {
  }

  lemma HeadMeaning(c: string, rest: string, p: Path)
    requires Component(c) && Components(p)
    ensures c + "/" + rest <= Posix(p) <==> |p| > 1 && p[0] == c && rest <= Posix(p[1..])
  {
    hide Join, Split, Partition;
    var s := Posix(p);
    if |p| > 1 {
      PosixStep(p);
      var tail := Posix(p[1..]);
      PartitionUnique(p[0], '/', tail);
      assert s == p[0] + ['/'] + tail;
      if c + "/" + rest <= s {
        HeadOf(c, rest, s);
        assert tail == s[|c| + 1..];
      }
    } else {
      PartitionUnique(p[0], '/', "");
      SingleJoin(p);
      if c + "/" + rest <= s {
        HeadOf(c, rest, s);
        assert false;
      }
    }
  }

  lemma SingleJoin(p: Path)
    requires |p| == 1
    ensures Posix(p) == p[0]
  {
  }

  lemma HeadOf(c: string, rest: string, s: string)
    requires Component(c) && c + "/" + rest <= s
    ensures |s| > |c| && Partition(s, '/') == Cut(c, true, s[|c| + 1..])
    ensures rest <= s[|c| + 1..]
  {
    hide Partition;
    PartitionUnique(c, '/', s[|c| + 1..]);
    assert s[..|c| + 1] == c + "/";
    assert s == c + ['/'] + s[|c| + 1..];
    assert s[|c| + 1..][..|rest|] == s[..|c + "/" + rest|][|c| + 1..] == rest;
  }

  /** A slash-terminated prefix of a path's text is a proper prefix of its
      components. */
  lemma {:induction false} PrefixMeaning(q: Path, p: Path)
    requires Components(q) && Components(p)
    ensures Posix(q) + "/" <= Posix(p) <==> |q| < |p| && p[..|q|] == q
  {
    hide Join, Posix;
    if |q| == 1 {
      SingleJoin(q);
      HeadMeaning(q[0], "", p);
      assert q[0] + "/" + "" == q[0] + "/";
      assert |p| > 1 && p[0] == q[0] ==> p[..1] == q;
    } else {
      PosixStep(q);
      var rest := Posix(q[1..]) + "/";
      assert Posix(q) + "/" == q[0] + "/" + rest;
      HeadMeaning(q[0], rest, p);
      if |p| > 1 {
        PrefixMeaning(q[1..], p[1..]);
        PrefixHead(q, p);
      }
    }
  }

  lemma PrefixHead(q: Path, p: Path)
    requires |q| > 0 && |p| > 0
    ensures |q| <= |p| && p[..|q|] == q <==> p[0] == q[0] && |q[1..]| <= |p[1..]| && p[1..][..|q[1..]|] == q[1..]
  {
    if |q| <= |p| {
      assert p[..|q|] == [p[0]] + p[1..][..|q| - 1];
      assert q == [q[0]] + q[1..];
    }
  }

  lemma JoinInjective(p: Path, q: Path)
    requires Components(p) && Components(q) && Posix(p) == Posix(q)
    ensures p == q
  {
    SplitOfJoin(p, '/');
    SplitOfJoin(q, '/');
  }

  /** What the envelope and output directories under a directory are. */
  predicate OutputUnder(p: Path, dir: Path) {
    && |p| > |dir| && p[..|dir|] == dir
    && ((|p| == |dir| + 1 && p[|dir|] == "output.json") || (|p| > |dir| + 1 && p[|dir|] in ["output", "outputs"]))
  }

  lemma UnderMeaning(p: Path, dir: Path, prefix: string)
    requires Components(p) && (dir == [] || Components(dir))
    requires prefix == if dir == [] then "" else Posix(dir) + "/"
    ensures KeptUnder(Posix(p), prefix) <==> OutputUnder(p, dir)
  {
    hide Posix, Join, Split;
    var envelope, one, many := dir + ["output.json"], dir + ["output"], dir + ["outputs"];
    Appended(dir, prefix, "output.json");
    Appended(dir, prefix, "output");
    Appended(dir, prefix, "outputs");
    assert prefix + "output/" == prefix + "output" + "/";
    assert prefix + "outputs/" == prefix + "outputs" + "/";
    PrefixMeaning(one, p);
    PrefixMeaning(many, p);
    if Posix(p) == Posix(envelope) {
      JoinInjective(p, envelope);
    }
    OutputCases(p, dir);
  }

  lemma OutputCases(p: Path, dir: Path)
    ensures OutputUnder(p, dir)
       <==> (|| p == dir + ["output.json"]
             || (|dir| + 1 < |p| && p[..|dir| + 1] == dir + ["output"])
             || (|dir| + 1 < |p| && p[..|dir| + 1] == dir + ["outputs"]))
  {
    if |p| > |dir| {
      assert p[..|dir| + 1] == p[..|dir|] + [p[|dir|]];
    }
    if p == dir + ["output.json"] {
      assert p[..|dir|] == dir;
    }
  }

  lemma {:induction false} Appended(dir: Path, prefix: string, last: string)
    requires dir == [] || Components(dir)
    requires prefix == if dir == [] then "" else Posix(dir) + "/"
    requires Component(last)
    ensures Posix(dir + [last]) == prefix + last && Components(dir + [last])
  {
    hide Join;
    if |dir| == 0 {
      SingleJoin([last]);
      assert dir + [last] == [last];
    } else {
      var longer := dir + [last];
      PosixStep(longer);
      assert longer[1..] == dir[1..] + [last];
      if |dir| == 1 {
        SingleJoin(dir);
        Appended([], "", last);
        assert longer[1..] == [] + [last];
      } else {
        PosixStep(dir);
        Appended(dir[1..], Posix(dir[1..]) + "/", last);
        assert Posix(dir) + "/" + last == dir[0] + "/" + (Posix(dir[1..]) + "/" + last);
      }
    }
  }

  /** A file is kept exactly when it is the output envelope or inside an output
      directory, of the run or of one of its attempts. */
  lemma KeptMeaning(p: Path, attempts: seq<string>)
    requires Components(p)
    requires forall i | 0 <= i < |attempts| :: Component(attempts[i])
    ensures KeptPath(p, attempts)
       <==> OutputUnder(p, []) || exists i | 0 <= i < |attempts| :: OutputUnder(p, ["attempts", attempts[i]])
  {
    hide Posix, KeptUnder, OutputUnder;
    UnderMeaning(p, [], "");
    forall i | 0 <= i < |attempts|
      ensures KeptUnder(Posix(p), AttemptPrefix(attempts[i])) <==> OutputUnder(p, ["attempts", attempts[i]])
    {
      AttemptDirectory(attempts[i]);
      UnderMeaning(p, ["attempts", attempts[i]], AttemptPrefix(attempts[i]));
    }
  }

  lemma AttemptDirectory(id: string)
    requires Component(id)
    ensures Components(["attempts", id]) && Posix(["attempts", id]) + "/" == AttemptPrefix(id)
  {
    var dir := ["attempts", id];
    PosixStep(dir);
    assert dir[1..] == [id];
    SingleJoin([id]);
    assert "attempts" + "/" + id + "/" == "attempts/" + id + "/";
  }
}
