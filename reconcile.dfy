/**
  What one reconciliation pass of `CopyNewOrChangedFiles` does, stated
  independently of the order in which directory listings are walked: the
  replica entries it leaves behind (`Mirror`), the set of actions it logs
  (`Actions`), and the situation in which it aborts (`Clash`).
 */
module Reconcile {
  import opened FileTree

  /** The lower-case hexadecimal MD5 digest of a file's bytes. */
  type Digest = string

  /** The content fingerprint. It is left uninterpreted: any function of the bytes. */
  type Hasher = Bytes -> Digest

  /**
    One logged mirroring event. `Deleted` and `Created` carry the replica path,
    `Copied` the source path; the copy always writes the replica file at the same
    relative path.
   */
  datatype Action = Deleted(path: Path) | Copied(path: Path) | Created(path: Path)

  /** The replica entries the walk descends into for the source directory `k`:
      those of the replica directory `k`, or none when it has to be created. */
  function ChildOf(r: map<Name, Node>, k: Name): map<Name, Node>
  {
    if IsDirIn(r, k) then r[k].entries else map[]
  }

  /** A source file is skipped when a replica file of that name has an equal hash. */
  predicate Unchanged(h: Hasher, s: map<Name, Node>, r: map<Name, Node>, k: Name)
    requires IsFileIn(s, k)
  {
    IsFileIn(r, k) && h(r[k].content) == h(s[k].content)
  }

  /**
    The pass aborts when, in a directory the walk visits, a source file meets a
    replica directory of the same name: `File.Exists` is false for it and
    `File.Copy` then fails on the existing directory.
   */
  predicate Clash(s: Node, r: map<Name, Node>)
    requires s.Dir?
    decreases s
  {
    exists k | k in s.entries ::
      IsDirIn(r, k) && (s.entries[k].File? || Clash(s.entries[k], r[k].entries))
  }

  /** The replica entries left by a pass over source directory `s` and replica entries `r`. */
  function Mirror(h: Hasher, s: Node, r: map<Name, Node>): map<Name, Node>
    requires s.Dir?
    decreases s
  {
    map k | k in s.entries.Keys + DirNames(r) ::
      if IsFileIn(s.entries, k) then
        (if Unchanged(h, s.entries, r, k) then r[k] else s.entries[k])
      else if k in s.entries then Dir(Mirror(h, s.entries[k], ChildOf(r, k)))
      else r[k]
  }

  /** The actions logged by a pass over source directory `s` and replica entries `r`
      found at path `p`. */
  function Actions(h: Hasher, p: Path, s: Node, r: map<Name, Node>): set<Action>
    requires s.Dir?
    decreases s, 2
  {
    CopyActions(h, p, s.entries, r, FileNames(s.entries))
    + OrphanActions(p, s.entries, r, FileNames(r))
    + DirActions(h, p, s, r, DirNames(s.entries))
  }

  // The three loops of one level, each after handling the names in `done`.

  /** Replica entries after the first loop has handled the source files in `done`. */
  function AfterCopies(h: Hasher, s: map<Name, Node>, r: map<Name, Node>, done: set<Name>): map<Name, Node>
    requires forall k | k in done :: IsFileIn(s, k)
  {
    map k | k in r.Keys + done :: if k in done && !Unchanged(h, s, r, k) then s[k] else r[k]
  }

  /** Actions of the first loop for the source files in `done`. */
  function CopyActions(h: Hasher, p: Path, s: map<Name, Node>, r: map<Name, Node>, done: set<Name>): set<Action>
    requires forall k | k in done :: IsFileIn(s, k)
  {
    (set k | k in done && !Unchanged(h, s, r, k) :: Copied(p + [k]))
    + (set k | k in done && IsFileIn(r, k) && !Unchanged(h, s, r, k) :: Deleted(p + [k]))
  }

  /** Replica entries after the second loop has handled the replica files in `done`. */
  function AfterOrphans(s: map<Name, Node>, c: map<Name, Node>, done: set<Name>): map<Name, Node>
  {
    map k | k in c && !(k in done && IsFileIn(c, k) && !IsFileIn(s, k)) :: c[k]
  }

  /** Actions of the second loop for the replica files in `done`. */
  function OrphanActions(p: Path, s: map<Name, Node>, c: map<Name, Node>, done: set<Name>): set<Action>
  {
    set k | k in done && IsFileIn(c, k) && !IsFileIn(s, k) :: Deleted(p + [k])
  }

  /** Replica entries after the third loop has handled the source directories in `done`. */
  function AfterDirs(h: Hasher, s: Node, c: map<Name, Node>, done: set<Name>): map<Name, Node>
    requires s.Dir? && forall k | k in done :: k in s.entries && s.entries[k].Dir?
  {
    map k | k in c.Keys + done :: if k in done then Dir(Mirror(h, s.entries[k], ChildOf(c, k))) else c[k]
  }

  /** Actions of the third loop, recursion included, for the source directories in `done`. */
  function DirActions(h: Hasher, p: Path, s: Node, c: map<Name, Node>, done: set<Name>): set<Action>
    requires s.Dir? && forall k | k in done :: k in s.entries && s.entries[k].Dir?
    decreases s, 1
  {
    Creations(p, c, done) + SubActions(h, p, s, c, done)
  }

  /** The replica directories the third loop creates. */
  function Creations(p: Path, c: map<Name, Node>, done: set<Name>): set<Action>
  {
    set k | k in done && !IsDirIn(c, k) :: Created(p + [k])
  }

  /** The actions of the passes below the source directories in `done`. */
  function SubActions(h: Hasher, p: Path, s: Node, c: map<Name, Node>, done: set<Name>): set<Action>
    requires s.Dir? && forall k | k in done :: k in s.entries && s.entries[k].Dir?
    decreases s, 0
  {
    set k, a | k in done && a in Actions(h, p + [k], s.entries[k], ChildOf(c, k)) :: a
  }

  /** A source directory meets the same replica entry after the first two loops
      as before them: those loops change files only, and a replica file named
      like a source directory is an orphan. */
  lemma DirEntryAfterFileLoops(h: Hasher, s: map<Name, Node>, r: map<Name, Node>, k: Name)
    requires IsDirIn(s, k)
    ensures var c1 := AfterCopies(h, s, r, FileNames(s));
            var c2 := AfterOrphans(s, c1, FileNames(c1));
            IsDirIn(c2, k) == IsDirIn(r, k) && ChildOf(c2, k) == ChildOf(r, k)
  {
    var c1 := AfterCopies(h, s, r, FileNames(s));
    assert k !in FileNames(s);
    assert k in r ==> k in c1 && c1[k] == r[k];
  }

  /** The three loops of one level together leave `Mirror`. */
  lemma StepsMakeMirror(h: Hasher, s: Node, r: map<Name, Node>)
    requires s.Dir?
    ensures var c1 := AfterCopies(h, s.entries, r, FileNames(s.entries));
            var c2 := AfterOrphans(s.entries, c1, FileNames(c1));
            AfterDirs(h, s, c2, DirNames(s.entries)) == Mirror(h, s, r)
  {
    var es := s.entries;
    var c1 := AfterCopies(h, es, r, FileNames(es));
    var c2 := AfterOrphans(es, c1, FileNames(c1));
    var m := AfterDirs(h, s, c2, DirNames(es));
    var want := Mirror(h, s, r);
    forall k | k in es.Keys + DirNames(r)
      ensures k in m && m[k] == want[k]
    {
      if IsFileIn(es, k) {
        assert k in c1 && k in c2;
      } else if k in es {
        DirEntryAfterFileLoops(h, es, r, k);
      } else {
        assert k in c1 && c1[k] == r[k];
        assert k in c2;
      }
    }
    forall k | k in m
      ensures k in es.Keys + DirNames(r)
    {
      if k !in DirNames(es) {
        assert k in c2 && k in c1;
      }
    }
    assert m.Keys == want.Keys;
  }

  /** The orphan loop sees the same orphan files after the copy loop as before it. */
  lemma OrphansAfterCopies(h: Hasher, p: Path, s: map<Name, Node>, r: map<Name, Node>)
    ensures var c1 := AfterCopies(h, s, r, FileNames(s));
            OrphanActions(p, s, c1, FileNames(c1)) == OrphanActions(p, s, r, FileNames(r))
  {
    var c1 := AfterCopies(h, s, r, FileNames(s));
    forall k
      ensures (k in FileNames(c1) && IsFileIn(c1, k) && !IsFileIn(s, k))
              == (k in FileNames(r) && IsFileIn(r, k) && !IsFileIn(s, k))
    {
      if !IsFileIn(s, k) && k in r {
        assert k in c1 && c1[k] == r[k];
      }
    }
  }

  /** The directory loop's actions depend on the replica entries only through
      the directories it meets. */
  lemma DirActionsAgree(h: Hasher, p: Path, s: Node, c: map<Name, Node>, c': map<Name, Node>, done: set<Name>)
    requires s.Dir? && forall k | k in done :: k in s.entries && s.entries[k].Dir?
    requires forall k | k in done :: IsDirIn(c, k) == IsDirIn(c', k) && ChildOf(c, k) == ChildOf(c', k)
    ensures DirActions(h, p, s, c, done) == DirActions(h, p, s, c', done)
  {
  }

  /** The three loops of one level together log `Actions`. */
  lemma StepsMakeActions(h: Hasher, p: Path, s: Node, r: map<Name, Node>)
    requires s.Dir?
    ensures var c1 := AfterCopies(h, s.entries, r, FileNames(s.entries));
            var c2 := AfterOrphans(s.entries, c1, FileNames(c1));
            CopyActions(h, p, s.entries, r, FileNames(s.entries))
            + OrphanActions(p, s.entries, c1, FileNames(c1))
            + DirActions(h, p, s, c2, DirNames(s.entries))
            == Actions(h, p, s, r)
  {
    var es := s.entries;
    var c1 := AfterCopies(h, es, r, FileNames(es));
    var c2 := AfterOrphans(es, c1, FileNames(c1));
    OrphansAfterCopies(h, p, es, r);
    forall k | k in DirNames(es)
      ensures IsDirIn(c2, k) == IsDirIn(r, k) && ChildOf(c2, k) == ChildOf(r, k)
    {
      DirEntryAfterFileLoops(h, es, r, k);
    }
    DirActionsAgree(h, p, s, c2, r, DirNames(es));
  }

  // How each loop's summary grows by one name.

  lemma CopyStep(h: Hasher, p: Path, s: map<Name, Node>, r: map<Name, Node>, done: set<Name>, k: Name)
    requires forall k' | k' in done :: IsFileIn(s, k')
    requires IsFileIn(s, k) && k !in done
    ensures AfterCopies(h, s, r, done + {k})
            == if Unchanged(h, s, r, k) then AfterCopies(h, s, r, done) else AfterCopies(h, s, r, done)[k := s[k]]
  {
    if Unchanged(h, s, r, k) {
      assert AfterCopies(h, s, r, done + {k}) == AfterCopies(h, s, r, done);
    } else {
      assert AfterCopies(h, s, r, done + {k}) == AfterCopies(h, s, r, done)[k := s[k]];
    }
  }

  lemma CopyActionsStep(h: Hasher, p: Path, s: map<Name, Node>, r: map<Name, Node>, done: set<Name>, k: Name)
    requires forall k' | k' in done :: IsFileIn(s, k')
    requires IsFileIn(s, k) && k !in done
    ensures CopyActions(h, p, s, r, done + {k})
            == CopyActions(h, p, s, r, done)
               + (if Unchanged(h, s, r, k) then {} else {Copied(p + [k])})
               + (if IsFileIn(r, k) && !Unchanged(h, s, r, k) then {Deleted(p + [k])} else {})
  {
  }

  lemma OrphanStep(p: Path, s: map<Name, Node>, c: map<Name, Node>, done: set<Name>, k: Name)
    requires k !in done
    ensures AfterOrphans(s, c, done + {k})
            == if IsFileIn(c, k) && !IsFileIn(s, k) then AfterOrphans(s, c, done) - {k} else AfterOrphans(s, c, done)
    ensures OrphanActions(p, s, c, done + {k})
            == OrphanActions(p, s, c, done) + (if IsFileIn(c, k) && !IsFileIn(s, k) then {Deleted(p + [k])} else {})
  {
  }

  lemma DirStep(h: Hasher, s: Node, c: map<Name, Node>, done: set<Name>, k: Name)
    requires s.Dir? && forall k' | k' in done :: k' in s.entries && s.entries[k'].Dir?
    requires IsDirIn(s.entries, k) && k !in done
    ensures AfterDirs(h, s, c, done + {k})
            == AfterDirs(h, s, c, done)[k := Dir(Mirror(h, s.entries[k], ChildOf(c, k)))]
  {
  }

  lemma DirActionsStep(h: Hasher, p: Path, s: Node, c: map<Name, Node>, done: set<Name>, k: Name)
    requires s.Dir? && forall k' | k' in done :: k' in s.entries && s.entries[k'].Dir?
    requires IsDirIn(s.entries, k) && k !in done
    ensures DirActions(h, p, s, c, done + {k})
            == DirActions(h, p, s, c, done)
               + (if IsDirIn(c, k) then {} else {Created(p + [k])})
               + Actions(h, p + [k], s.entries[k], ChildOf(c, k))
  {
    CreationsStep(p, c, done, k);
    SubActionsStep(h, p, s, c, done, k);
  }

  lemma CreationsStep(p: Path, c: map<Name, Node>, done: set<Name>, k: Name)
    ensures Creations(p, c, done + {k})
            == Creations(p, c, done) + (if IsDirIn(c, k) then {} else {Created(p + [k])})
  {
  }

  lemma SubActionsStep(h: Hasher, p: Path, s: Node, c: map<Name, Node>, done: set<Name>, k: Name)
    requires s.Dir? && forall k' | k' in done :: k' in s.entries && s.entries[k'].Dir?
    requires IsDirIn(s.entries, k) && k !in done
    ensures SubActions(h, p, s, c, done + {k})
            == SubActions(h, p, s, c, done) + Actions(h, p + [k], s.entries[k], ChildOf(c, k))
  {
    var sub := Actions(h, p + [k], s.entries[k], ChildOf(c, k));
    var before := SubActions(h, p, s, c, done);
    var after := SubActions(h, p, s, c, done + {k});
    forall x | x in after
      ensures x in before + sub
    {
      var k' :| k' in done + {k} && x in Actions(h, p + [k'], s.entries[k'], ChildOf(c, k'));
      if k' != k {
        assert k' in done;
      }
    }
    forall x | x in before + sub
      ensures x in after
    {
      if x in before {
        var k' :| k' in done && x in Actions(h, p + [k'], s.entries[k'], ChildOf(c, k'));
        assert k' in done + {k};
      } else {
        assert k in done + {k};
      }
    }
  }

  /** The first loop has not yet touched the entry of a source file it has not reached. */
  lemma UntouchedByCopies(h: Hasher, s: map<Name, Node>, r: map<Name, Node>, done: set<Name>, k: Name)
    requires forall k' | k' in done :: IsFileIn(s, k')
    requires IsFileIn(s, k) && k !in done
    ensures var c := AfterCopies(h, s, r, done);
            (k in c <==> k in r) && (k in r ==> c[k] == r[k])
            && Unchanged(h, s, c, k) == Unchanged(h, s, r, k)
  {
  }

  /** The pass aborts at this level, or below one of its source directories. */
  lemma ClashSplit(s: Node, r: map<Name, Node>)
    requires s.Dir?
    ensures Clash(s, r)
            <==> (exists k | IsFileIn(s.entries, k) :: IsDirIn(r, k))
                 || (exists k | IsDirIn(s.entries, k) :: Clash(s.entries[k], ChildOf(r, k)))
  {
    if Clash(s, r) {
      var k :| k in s.entries && IsDirIn(r, k) && (s.entries[k].File? || Clash(s.entries[k], r[k].entries));
      if s.entries[k].File? {
        assert IsFileIn(s.entries, k);
      } else {
        assert IsDirIn(s.entries, k) && Clash(s.entries[k], ChildOf(r, k));
      }
    }
    if exists k | IsDirIn(s.entries, k) :: Clash(s.entries[k], ChildOf(r, k)) {
      var k :| IsDirIn(s.entries, k) && Clash(s.entries[k], ChildOf(r, k));
      if !IsDirIn(r, k) {
        NoClashWithNothing(s.entries[k]);
      }
    }
  }

  /** A missing replica directory cannot be in the way. */
  lemma NoClashWithNothing(s: Node)
    requires s.Dir?
    ensures !Clash(s, map[])
  {
  }

  /** The third loop has not yet touched the entry of a source directory it has not reached. */
  lemma UntouchedByDirs(h: Hasher, s: Node, c: map<Name, Node>, done: set<Name>, k: Name)
    requires s.Dir? && forall k' | k' in done :: k' in s.entries && s.entries[k'].Dir?
    requires k !in done
    ensures var d := AfterDirs(h, s, c, done);
            (k in d <==> k in c) && (k in c ==> d[k] == c[k])
            && IsDirIn(d, k) == IsDirIn(c, k) && ChildOf(d, k) == ChildOf(c, k)
  {
  }

  /** After the orphan loop no replica file is named like a source directory. */
  lemma OrphansClearDirNames(h: Hasher, s: map<Name, Node>, r: map<Name, Node>, k: Name)
    requires IsDirIn(s, k)
    ensures var c1 := AfterCopies(h, s, r, FileNames(s));
            !IsFileIn(AfterOrphans(s, c1, FileNames(c1)), k)
  {
  }
}
