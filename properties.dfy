/**
  What a completed pass promises about the whole trees, path by path: where
  the replica ends up (`Mirror`), what the log says happened (`Actions`),
  and what a second pass over the result does.
 */
module Properties {
  import opened FileTree
  import opened Reconcile

  // Walking one step at a time.

  /** A path that starts with `k` walks into the entry `k` of a directory. */
  lemma GetCons(n: Node, k: Name, q: Path)
    ensures Get(n, [k] + q) == if n.Dir? && k in n.entries then Get(n.entries[k], q) else None
  {
    assert ([k] + q)[0] == k && ([k] + q)[1..] == q;
  }

  /** The replica the walk descends into for `k` holds, below it, what the
      replica holds below `k`. */
  lemma ChildGet(m: map<Name, Node>, k: Name, q: Path)
    requires q != []
    ensures Get(Dir(ChildOf(m, k)), q) == Get(Dir(m), [k] + q)
  {
    GetCons(Dir(m), k, q);
    if k in m && m[k].Dir? {
      assert Dir(m[k].entries) == m[k];
    }
  }

  /** A replica file at `q` is kept because its hash equals that of the source file at `q`. */
  predicate Skipped(h: Hasher, s: Node, m: map<Name, Node>, q: Path)
  {
    && IsFile(s, q) && IsFile(Dir(m), q)
    && h(Get(Dir(m), q).value.content) == h(Get(s, q).value.content)
  }

  /** `Skipped` below a source directory `k` is `Skipped` in the walk's view of `k`. */
  lemma SkippedCons(h: Hasher, s: Node, m: map<Name, Node>, k: Name, q: Path)
    requires s.Dir? && IsDirIn(s.entries, k) && q != []
    ensures Skipped(h, s, m, [k] + q) == Skipped(h, s.entries[k], ChildOf(m, k), q)
    ensures IsFile(s, [k] + q) == IsFile(s.entries[k], q)
    ensures IsDir(s, [k] + q) == IsDir(s.entries[k], q)
    ensures IsFile(Dir(m), [k] + q) == IsFile(Dir(ChildOf(m, k)), q)
    ensures IsDir(Dir(m), [k] + q) == IsDir(Dir(ChildOf(m, k)), q)
  {
    GetCons(s, k, q);
    ChildGet(m, k, q);
  }

  // Where the replica ends up.

  /**
    Convergence of files: after a pass, the replica file at every source file's
    path is the replica's own file when it was kept for an equal hash, and
    otherwise a copy of the source file.
   */
  lemma {:induction false} FilesConverge(h: Hasher, s: Node, m: map<Name, Node>, q: Path)
    requires s.Dir? && IsFile(s, q)
    ensures Get(Dir(Mirror(h, s, m)), q) == if Skipped(h, s, m, q) then Get(Dir(m), q) else Get(s, q)
    decreases |q|
  {
    var k, rest := q[0], q[1..];
    assert q == [k] + rest;
    var mm := Mirror(h, s, m);
    GetCons(s, k, rest);
    GetCons(Dir(mm), k, rest);
    GetCons(Dir(m), k, rest);
    assert k in s.entries && k in mm;
    if rest != [] {
      var sk := s.entries[k];
      FilesConverge(h, sk, ChildOf(m, k), rest);
      SkippedCons(h, s, m, k, rest);
      ChildGet(m, k, rest);
    }
  }

  /** Every file of the source is a file of the replica after a pass, with the same hash. */
  lemma FilesHashEqual(h: Hasher, s: Node, m: map<Name, Node>, q: Path)
    requires s.Dir? && IsFile(s, q)
    ensures IsFile(Dir(Mirror(h, s, m)), q)
    ensures h(Get(Dir(Mirror(h, s, m)), q).value.content) == h(Get(s, q).value.content)
  {
    FilesConverge(h, s, m, q);
  }

  /** With a hash that tells contents apart, the replica files become byte-for-byte copies. */
  lemma FilesIdentical(h: Hasher, s: Node, m: map<Name, Node>, q: Path)
    requires forall x: Bytes, y: Bytes :: h(x) == h(y) ==> x == y
    requires s.Dir? && IsFile(s, q)
    ensures Get(Dir(Mirror(h, s, m)), q) == Get(s, q)
  {
    FilesConverge(h, s, m, q);
  }

  /** Every directory of the source is a directory of the replica after a pass. */
  lemma {:induction false} DirsConverge(h: Hasher, s: Node, m: map<Name, Node>, q: Path)
    requires s.Dir? && IsDir(s, q)
    ensures IsDir(Dir(Mirror(h, s, m)), q)
    decreases |q|
  {
    if q != [] {
      var k, rest := q[0], q[1..];
      assert q == [k] + rest;
      var mm := Mirror(h, s, m);
      GetCons(s, k, rest);
      GetCons(Dir(mm), k, rest);
      assert k in s.entries && k in mm;
      DirsConverge(h, s.entries[k], ChildOf(m, k), rest);
    }
  }

  /**
    Orphans: inside a source directory `q`, an entry `k` the source lacks is,
    after a pass, the replica's own directory when it was one (orphan
    directories are kept, contents untouched) and absent otherwise (orphan
    files are deleted).
   */
  lemma {:induction false} OrphansConverge(h: Hasher, s: Node, m: map<Name, Node>, q: Path, k: Name)
    requires s.Dir? && IsDir(s, q) && k !in Get(s, q).value.entries
    ensures Get(Dir(Mirror(h, s, m)), q + [k]) == if IsDir(Dir(m), q + [k]) then Get(Dir(m), q + [k]) else None
    decreases |q|
  {
    var mm := Mirror(h, s, m);
    if q == [] {
      assert q + [k] == [k];
      GetCons(Dir(mm), k, []);
      GetCons(Dir(m), k, []);
    } else {
      var j, rest := q[0], q[1..];
      assert q + [k] == [j] + (rest + [k]);
      assert q == [j] + rest;
      GetCons(s, j, rest);
      GetCons(Dir(mm), j, rest + [k]);
      assert j in s.entries && j in mm;
      OrphansConverge(h, s.entries[j], ChildOf(m, j), rest, k);
      ChildGet(m, j, rest + [k]);
    }
  }

  /** Orphan file removal: after a pass, every file inside a directory the walk
      visited is a file of the source. */
  lemma NoOrphanFiles(h: Hasher, s: Node, m: map<Name, Node>, q: Path, k: Name)
    requires s.Dir? && IsDir(s, q) && IsFile(Dir(Mirror(h, s, m)), q + [k])
    ensures IsFile(s, q + [k])
  {
    GetChild(s, q, k);
    if k in Get(s, q).value.entries {
      if Get(s, q).value.entries[k].Dir? {
        DirsConverge(h, s, m, q + [k]);
      }
    } else {
      OrphansConverge(h, s, m, q, k);
    }
  }

  // What the log says happened.

  /** The actions of a pass, loop by loop. */
  lemma ActionsParts(h: Hasher, p: Path, s: Node, m: map<Name, Node>)
    requires s.Dir?
    ensures Actions(h, p, s, m)
            == CopyActions(h, p, s.entries, m, FileNames(s.entries))
               + OrphanActions(p, s.entries, m, FileNames(m))
               + Creations(p, m, DirNames(s.entries))
               + SubActions(h, p, s, m, DirNames(s.entries))
  {
  }

  /** The loops of one level log actions one step below `p`. */
  lemma LevelWithin(h: Hasher, p: Path, s: Node, m: map<Name, Node>)
    requires s.Dir?
    ensures forall a | a in CopyActions(h, p, s.entries, m, FileNames(s.entries)) :: |a.path| == |p| + 1 && a.path[..|p|] == p
    ensures forall a | a in OrphanActions(p, s.entries, m, FileNames(m)) :: |a.path| == |p| + 1 && a.path[..|p|] == p
    ensures forall a | a in Creations(p, m, DirNames(s.entries)) :: |a.path| == |p| + 1 && a.path[..|p|] == p
  {
    forall k: Name
      ensures (p + [k])[..|p|] == p
    {
    }
  }

  /** Every logged action lies strictly below the directory the pass started at. */
  lemma {:induction false} ActionsWithin(h: Hasher, p: Path, s: Node, m: map<Name, Node>)
    requires s.Dir?
    ensures forall a | a in Actions(h, p, s, m) :: |a.path| > |p| && a.path[..|p|] == p
    decreases s
  {
    ActionsParts(h, p, s, m);
    LevelWithin(h, p, s, m);
    forall a | a in SubActions(h, p, s, m, DirNames(s.entries))
      ensures |a.path| > |p| && a.path[..|p|] == p
    {
      var k :| k in DirNames(s.entries) && a in Actions(h, p + [k], s.entries[k], ChildOf(m, k));
      ActionsWithin(h, p + [k], s.entries[k], ChildOf(m, k));
      assert a.path[..|p|] == a.path[..|p| + 1][..|p|];
    }
  }

  /**
    An action at a path more than one step below `p` comes from the pass
    below the source directory it descends through, and from nowhere else.
   */
  lemma DeepAction(h: Hasher, p: Path, s: Node, m: map<Name, Node>, k: Name, q: Path, a: Action)
    requires s.Dir? && q != [] && a.path == p + [k] + q
    ensures a in Actions(h, p, s, m)
            <==> IsDirIn(s.entries, k) && a in Actions(h, p + [k], s.entries[k], ChildOf(m, k))
  {
    ActionsParts(h, p, s, m);
    if a in Actions(h, p, s, m) {
      assert |a.path| > |p| + 1;
      assert a !in CopyActions(h, p, s.entries, m, FileNames(s.entries));
      assert a !in OrphanActions(p, s.entries, m, FileNames(m));
      assert a !in Creations(p, m, DirNames(s.entries));
      var k' :| k' in DirNames(s.entries) && a in Actions(h, p + [k'], s.entries[k'], ChildOf(m, k'));
      ActionsWithin(h, p + [k'], s.entries[k'], ChildOf(m, k'));
      assert a.path[..|p| + 1] == p + [k];
      assert k' == (p + [k'])[|p|] == (p + [k])[|p|] == k;
    }
    if IsDirIn(s.entries, k) && a in Actions(h, p + [k], s.entries[k], ChildOf(m, k)) {
      assert k in DirNames(s.entries);
      assert a in SubActions(h, p, s, m, DirNames(s.entries));
    }
  }

  /** An action one step below `p` comes from the loops of that level alone. */
  lemma ShallowAction(h: Hasher, p: Path, s: Node, m: map<Name, Node>, k: Name, a: Action)
    requires s.Dir? && a.path == p + [k]
    ensures a in Actions(h, p, s, m)
            <==> a in CopyActions(h, p, s.entries, m, FileNames(s.entries))
                 || a in OrphanActions(p, s.entries, m, FileNames(m))
                 || a in Creations(p, m, DirNames(s.entries))
  {
    ActionsParts(h, p, s, m);
    if a in SubActions(h, p, s, m, DirNames(s.entries)) {
      var k' :| k' in DirNames(s.entries) && a in Actions(h, p + [k'], s.entries[k'], ChildOf(m, k'));
      ActionsWithin(h, p + [k'], s.entries[k'], ChildOf(m, k'));
      assert false;
    }
  }

  /** A source file is logged as copied exactly when it was not kept for an equal hash. */
  lemma {:induction false} CopiedIff(h: Hasher, p: Path, s: Node, m: map<Name, Node>, q: Path)
    requires s.Dir?
    ensures Copied(p + q) in Actions(h, p, s, m) <==> IsFile(s, q) && !Skipped(h, s, m, q)
    decreases s
  {
    ActionsWithin(h, p, s, m);
    if q != [] {
      var k, rest := q[0], q[1..];
      assert q == [k] + rest;
      GetCons(s, k, rest);
      GetCons(Dir(m), k, rest);
      if rest == [] {
        ShallowAction(h, p, s, m, k, Copied(p + q));
      } else {
        assert p + q == p + [k] + rest;
        DeepAction(h, p, s, m, k, rest, Copied(p + q));
        if IsDirIn(s.entries, k) {
          CopiedIff(h, p + [k], s.entries[k], ChildOf(m, k), rest);
          SkippedCons(h, s, m, k, rest);
        }
      }
    }
  }

  /**
    A replica file is logged as deleted exactly when it lies in a source
    directory and was not kept: either the source file of that name differs
    by hash (the delete before the overwrite) or there is no source file of
    that name (an orphan).
   */
  lemma {:induction false} DeletedIff(h: Hasher, p: Path, s: Node, m: map<Name, Node>, q: Path)
    requires s.Dir?
    ensures Deleted(p + q) in Actions(h, p, s, m)
            <==> q != [] && IsFile(Dir(m), q) && IsDir(s, q[..|q| - 1]) && !Skipped(h, s, m, q)
    decreases s
  {
    ActionsWithin(h, p, s, m);
    if q != [] {
      var k, rest := q[0], q[1..];
      assert q == [k] + rest;
      GetCons(s, k, rest);
      GetCons(Dir(m), k, rest);
      if rest == [] {
        assert q[..|q| - 1] == [];
        ShallowAction(h, p, s, m, k, Deleted(p + q));
      } else {
        assert p + q == p + [k] + rest;
        assert q[..|q| - 1] == [k] + rest[..|rest| - 1];
        GetCons(s, k, rest[..|rest| - 1]);
        DeepAction(h, p, s, m, k, rest, Deleted(p + q));
        if IsDirIn(s.entries, k) {
          DeletedIff(h, p + [k], s.entries[k], ChildOf(m, k), rest);
          SkippedCons(h, s, m, k, rest);
        } else {
          assert !IsDir(s, q[..|q| - 1]);
        }
      }
    }
  }

  /** A directory is logged as created exactly when the source has it and the replica does not. */
  lemma {:induction false} CreatedIff(h: Hasher, p: Path, s: Node, m: map<Name, Node>, q: Path)
    requires s.Dir?
    ensures Created(p + q) in Actions(h, p, s, m) <==> IsDir(s, q) && !IsDir(Dir(m), q)
    decreases s
  {
    ActionsWithin(h, p, s, m);
    if q != [] {
      var k, rest := q[0], q[1..];
      assert q == [k] + rest;
      GetCons(s, k, rest);
      GetCons(Dir(m), k, rest);
      if rest == [] {
        ShallowAction(h, p, s, m, k, Created(p + q));
      } else {
        assert p + q == p + [k] + rest;
        DeepAction(h, p, s, m, k, rest, Created(p + q));
        if IsDirIn(s.entries, k) {
          CreatedIff(h, p + [k], s.entries[k], ChildOf(m, k), rest);
          SkippedCons(h, s, m, k, rest);
        }
      }
    }
  }

  // A pass with nothing to do, and a second pass.

  /** The actions of the pass below a source directory are actions of the pass above it. */
  lemma SubPassIncluded(h: Hasher, p: Path, s: Node, m: map<Name, Node>, k: Name)
    requires s.Dir? && IsDirIn(s.entries, k)
    ensures Actions(h, p + [k], s.entries[k], ChildOf(m, k)) <= Actions(h, p, s, m)
  {
    ActionsParts(h, p, s, m);
    assert k in DirNames(s.entries);
    forall a | a in Actions(h, p + [k], s.entries[k], ChildOf(m, k))
      ensures a in SubActions(h, p, s, m, DirNames(s.entries))
    {
    }
  }

  /** A pass that logs nothing leaves the replica as it found it. */
  lemma {:induction false} QuietKeepsReplica(h: Hasher, p: Path, s: Node, m: map<Name, Node>)
    requires s.Dir? && Actions(h, p, s, m) == {}
    ensures Mirror(h, s, m) == m
    decreases s
  {
    ActionsParts(h, p, s, m);
    var es := s.entries;
    var mm := Mirror(h, s, m);
    forall k | k in es
      ensures k in m && mm[k] == m[k]
    {
      if IsFileIn(es, k) {
        assert Copied(p + [k]) !in CopyActions(h, p, es, m, FileNames(es));
      } else {
        assert k in DirNames(es);
        assert Created(p + [k]) !in Creations(p, m, DirNames(es));
        SubPassIncluded(h, p, s, m, k);
        QuietKeepsReplica(h, p + [k], es[k], ChildOf(m, k));
        assert Dir(m[k].entries) == m[k];
      }
    }
    forall k | k in m
      ensures k in mm
    {
      if !m[k].Dir? {
        assert Deleted(p + [k]) !in OrphanActions(p, es, m, FileNames(m));
      }
    }
    assert mm.Keys == m.Keys;
  }

  /** A pass that would leave the replica as it found it logs nothing. */
  lemma {:induction false} UnchangedIsQuiet(h: Hasher, p: Path, s: Node, m: map<Name, Node>)
    requires s.Dir? && Mirror(h, s, m) == m
    ensures Actions(h, p, s, m) == {}
    decreases s
  {
    ActionsParts(h, p, s, m);
    var es := s.entries;
    var mm := Mirror(h, s, m);
    forall k | k in FileNames(es)
      ensures Unchanged(h, es, m, k)
    {
      assert k in mm;
    }
    assert CopyActions(h, p, es, m, FileNames(es)) == {};
    forall k | k in FileNames(m)
      ensures IsFileIn(es, k)
    {
      assert k in mm;
    }
    assert OrphanActions(p, es, m, FileNames(m)) == {};
    forall k | k in DirNames(es)
      ensures IsDirIn(m, k) && Actions(h, p + [k], es[k], ChildOf(m, k)) == {}
    {
      assert k in mm;
      UnchangedIsQuiet(h, p + [k], es[k], ChildOf(m, k));
    }
    assert Creations(p, m, DirNames(es)) == {};
    assert SubActions(h, p, s, m, DirNames(es)) == {};
  }

  /** No-op on match: a pass logs nothing exactly when it leaves the replica unchanged. */
  lemma QuietIffUnchanged(h: Hasher, p: Path, s: Node, m: map<Name, Node>)
    requires s.Dir?
    ensures Actions(h, p, s, m) == {} <==> Mirror(h, s, m) == m
  {
    if Actions(h, p, s, m) == {} {
      QuietKeepsReplica(h, p, s, m);
    }
    if Mirror(h, s, m) == m {
      UnchangedIsQuiet(h, p, s, m);
    }
  }

  /** Mirroring a mirrored replica again leaves it as it is. */
  lemma {:induction false} MirrorIdempotent(h: Hasher, s: Node, m: map<Name, Node>)
    requires s.Dir?
    ensures Mirror(h, s, Mirror(h, s, m)) == Mirror(h, s, m)
    decreases s
  {
    var es := s.entries;
    var mm := Mirror(h, s, m);
    var m2 := Mirror(h, s, mm);
    forall k | k in es
      ensures k in m2 && m2[k] == mm[k]
    {
      if IsFileIn(es, k) {
        assert Unchanged(h, es, mm, k);
      } else {
        MirrorIdempotent(h, es[k], ChildOf(m, k));
      }
    }
    assert m2.Keys == mm.Keys;
  }

  /** A mirrored replica gives the next pass no file to copy onto a directory. */
  lemma {:induction false} MirrorHasNoClash(h: Hasher, s: Node, m: map<Name, Node>)
    requires s.Dir?
    ensures !Clash(s, Mirror(h, s, m))
    decreases s
  {
    var es := s.entries;
    var mm := Mirror(h, s, m);
    forall k | k in es && IsDirIn(mm, k)
      ensures !es[k].File? && !Clash(es[k], mm[k].entries)
    {
      MirrorHasNoClash(h, es[k], ChildOf(m, k));
    }
  }

  /**
    Idempotence: a second pass over a replica the first pass completed does not
    abort, logs nothing and changes nothing.
   */
  lemma SecondPassQuiet(h: Hasher, p: Path, s: Node, m: map<Name, Node>)
    requires s.Dir?
    ensures var mm := Mirror(h, s, m);
            && !Clash(s, mm) && Mirror(h, s, mm) == mm && Actions(h, p, s, mm) == {}
  {
    var mm := Mirror(h, s, m);
    MirrorHasNoClash(h, s, m);
    MirrorIdempotent(h, s, m);
    UnchangedIsQuiet(h, p, s, mm);
  }

  /** A pass that aborts has found a source file where the replica has a directory,
      so it has something to do. */
  lemma {:induction false} ClashIsNotQuiet(h: Hasher, p: Path, s: Node, m: map<Name, Node>)
    requires s.Dir? && Clash(s, m)
    ensures Mirror(h, s, m) != m && Actions(h, p, s, m) != {}
    decreases s
  {
    var k :| k in s.entries && IsDirIn(m, k) && (s.entries[k].File? || Clash(s.entries[k], m[k].entries));
    var mm := Mirror(h, s, m);
    assert k in mm;
    if !s.entries[k].File? {
      ClashIsNotQuiet(h, p + [k], s.entries[k], m[k].entries);
      assert Dir(m[k].entries) == m[k];
    }
    QuietIffUnchanged(h, p, s, m);
  }

  /** A replica that is already the source, node for node, is left as it is. */
  lemma {:induction false} IdenticalIsFixed(h: Hasher, s: Node)
    requires s.Dir?
    ensures Mirror(h, s, s.entries) == s.entries
    decreases s
  {
    var es := s.entries;
    var mm := Mirror(h, s, es);
    forall k | k in es
      ensures k in mm && mm[k] == es[k]
    {
      if es[k].Dir? {
        IdenticalIsFixed(h, es[k]);
      }
    }
    assert mm.Keys == es.Keys;
  }

  /** No-op on exact match: a pass over a replica identical to the source logs nothing. */
  lemma IdenticalIsQuiet(h: Hasher, p: Path, s: Node)
    requires s.Dir?
    ensures Actions(h, p, s, s.entries) == {} && !Clash(s, s.entries)
  {
    IdenticalIsFixed(h, s);
    UnchangedIsQuiet(h, p, s, s.entries);
    MirrorHasNoClash(h, s, s.entries);
  }

  /** The source of a worked example: `a.txt` and `sub/b.txt`. */
  function ExampleSource(hello: Bytes, x: Bytes): Node
  {
    Dir(map["a.txt" := File(hello), "sub" := Dir(map["b.txt" := File(x)])])
  }

  /**
    A worked example: the example source over an empty replica logs the two
    copies and the creation of `sub`, and nothing else.
   */
  lemma ExamplePass(h: Hasher, hello: Bytes, x: Bytes)
    ensures Actions(h, [], ExampleSource(hello, x), map[])
            == {Copied(["a.txt"]), Created(["sub"]), Copied(["sub", "b.txt"])}
  {
    var s := ExampleSource(hello, x);
    var want := {Copied(["a.txt"]), Created(["sub"]), Copied(["sub", "b.txt"])};
    var got := Actions(h, [], s, map[]);
    ExampleFiles(hello, x, ["a.txt"]);
    ExampleFiles(hello, x, ["sub", "b.txt"]);
    ExampleDirs(hello, x, ["sub"]);
    NothingInEmpty(["a.txt"]);
    NothingInEmpty(["sub"]);
    NothingInEmpty(["sub", "b.txt"]);
    assert [] + ["a.txt"] == ["a.txt"] && [] + ["sub"] == ["sub"] && [] + ["sub", "b.txt"] == ["sub", "b.txt"];
    CopiedIff(h, [], s, map[], ["a.txt"]);
    CopiedIff(h, [], s, map[], ["sub", "b.txt"]);
    CreatedIff(h, [], s, map[], ["sub"]);
    assert want <= got;
    ActionsWithin(h, [], s, map[]);
    forall a | a in got
      ensures a in want
    {
      var q := a.path;
      assert [] + q == q;
      match a
      case Copied(_) =>
        CopiedIff(h, [], s, map[], q);
        ExampleFiles(hello, x, q);
      case Created(_) =>
        CreatedIff(h, [], s, map[], q);
        ExampleDirs(hello, x, q);
      case Deleted(_) =>
        DeletedIff(h, [], s, map[], q);
        NothingInEmpty(q);
    }
  }

  /** The worked example again: a second pass logs nothing. */
  lemma ExampleSecondPass(h: Hasher, hello: Bytes, x: Bytes)
    ensures var s := ExampleSource(hello, x);
            Actions(h, [], s, Mirror(h, s, map[])) == {}
  {
    SecondPassQuiet(h, [], ExampleSource(hello, x), map[]);
  }

  /** A pass into an empty replica copies the whole source. */
  lemma {:induction false} MirrorOfEmpty(h: Hasher, s: Node)
    requires s.Dir?
    ensures Mirror(h, s, map[]) == s.entries
    decreases s
  {
    var mm := Mirror(h, s, map[]);
    forall k | k in s.entries
      ensures k in mm && mm[k] == s.entries[k]
    {
      if s.entries[k].Dir? {
        MirrorOfEmpty(h, s.entries[k]);
      }
    }
    assert mm.Keys == s.entries.Keys;
  }

  /** The example source after `a.txt` has been deleted from it. */
  function ExampleSourceLater(x: Bytes): Node
  {
    Dir(map["sub" := Dir(map["b.txt" := File(x)])])
  }

  /**
    The worked example, continued: once `a.txt` is deleted from the source,
    the next pass logs the deletion of the replica's `a.txt` and nothing else.
   */
  lemma ExampleAfterDelete(h: Hasher, hello: Bytes, x: Bytes)
    ensures var m := Mirror(h, ExampleSource(hello, x), map[]);
            Actions(h, [], ExampleSourceLater(x), m) == {Deleted(["a.txt"])}
  {
    var s := ExampleSourceLater(x);
    var m := ExampleSource(hello, x).entries;
    MirrorOfEmpty(h, ExampleSource(hello, x));
    assert Dir(m) == ExampleSource(hello, x);
    var got := Actions(h, [], s, m);
    ExampleFiles(hello, x, ["a.txt"]);
    ExampleLaterShape(x, ["a.txt"]);
    ExampleLaterShape(x, []);
    assert [] + ["a.txt"] == ["a.txt"] && ["a.txt"][..0] == [];
    DeletedIff(h, [], s, m, ["a.txt"]);
    assert Deleted(["a.txt"]) in got;
    ActionsWithin(h, [], s, m);
    forall a | a in got
      ensures a == Deleted(["a.txt"])
    {
      var q := a.path;
      assert [] + q == q;
      ExampleFiles(hello, x, q);
      ExampleLaterShape(x, q);
      ExampleDirs(hello, x, q);
      if q == ["sub", "b.txt"] {
        assert Get(s, q) == Get(Dir(map["b.txt" := File(x)]), ["b.txt"]) == Some(File(x));
        assert Get(Dir(m), q) == Some(File(x));
      }
      match a
      case Copied(_) =>
        CopiedIff(h, [], s, m, q);
      case Created(_) =>
        CreatedIff(h, [], s, m, q);
      case Deleted(_) =>
        DeletedIff(h, [], s, m, q);
    }
  }

  /** The later example source has one file, `sub/b.txt`, and one directory below its root, `sub`. */
  lemma ExampleLaterShape(x: Bytes, q: Path)
    ensures IsFile(ExampleSourceLater(x), q) <==> q == ["sub", "b.txt"]
    ensures IsDir(ExampleSourceLater(x), q) <==> q == [] || q == ["sub"]
  {
    var s := ExampleSourceLater(x);
    var sub := Dir(map["b.txt" := File(x)]);
    if q != [] {
      var k, rest := q[0], q[1..];
      assert q == [k] + rest;
      GetCons(s, k, rest);
      if rest != [] {
        assert rest == [rest[0]] + rest[1..];
        GetCons(sub, rest[0], rest[1..]);
        if rest[1..] != [] {
          GetCons(File(x), rest[1..][0], rest[1..][1..]);
          assert rest[1..] == [rest[1..][0]] + rest[1..][1..];
        }
      }
    }
  }

  /** An empty replica has nothing below its root. */
  lemma NothingInEmpty(q: Path)
    requires q != []
    ensures Get(Dir(map[]), q) == None
  {
  }

  /** The files of the example source are `a.txt` and `sub/b.txt`. */
  lemma ExampleFiles(hello: Bytes, x: Bytes, q: Path)
    ensures IsFile(ExampleSource(hello, x), q) <==> q == ["a.txt"] || q == ["sub", "b.txt"]
  {
    var s := ExampleSource(hello, x);
    var sub := Dir(map["b.txt" := File(x)]);
    if q != [] {
      var k, rest := q[0], q[1..];
      assert q == [k] + rest;
      GetCons(s, k, rest);
      if rest != [] {
        assert rest == [rest[0]] + rest[1..];
        GetCons(sub, rest[0], rest[1..]);
        if rest[1..] != [] {
          GetCons(File(x), rest[1..][0], rest[1..][1..]);
          assert rest[1..] == [rest[1..][0]] + rest[1..][1..];
        }
      }
    }
  }

  /** The only directory below the example source's root is `sub`. */
  lemma ExampleDirs(hello: Bytes, x: Bytes, q: Path)
    ensures IsDir(ExampleSource(hello, x), q) && q != [] <==> q == ["sub"]
  {
    var s := ExampleSource(hello, x);
    var sub := Dir(map["b.txt" := File(x)]);
    if q != [] {
      var k, rest := q[0], q[1..];
      assert q == [k] + rest;
      GetCons(s, k, rest);
      if rest != [] {
        assert rest == [rest[0]] + rest[1..];
        GetCons(sub, rest[0], rest[1..]);
        if rest[1..] != [] {
          GetCons(File(x), rest[1..][0], rest[1..][1..]);
          assert rest[1..] == [rest[1..][0]] + rest[1..][1..];
        }
      }
    }
  }
}
