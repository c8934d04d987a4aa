/**
  The program's mutable state and its mirroring pass. The two directory trees
  are fields of the object, as the file system is state the C# program changes
  in place; the file-system calls it makes (`File.Delete`, `File.Copy`,
  `Directory.CreateDirectory`) and `LogEvent` are the methods that change them.
 */
module Synchronizer {
  import opened FileTree
  import opened Reconcile
  import opened Trace

  class FolderSynchronizer {
    /** `GetMD5Hash`, applied to the bytes of a file. */
    const hash: Hasher
    /** The tree under the source folder; nothing here writes it. */
    var source: Node
    /** The tree under the replica folder. */
    var replica: Node
    /** The mirroring events passed to `LogEvent`, oldest first. */
    var log: seq<Action>
    /** Set while a pass runs. */
    var isSyncing: bool

    constructor (hash: Hasher, source: Node, replica: Node)
      ensures this.hash == hash && this.source == source && this.replica == replica
      ensures log == [] && !isSyncing
    {
      this.hash := hash;
      this.source := source;
      this.replica := replica;
      log := [];
      isSyncing := false;
    }

    /** `File.Delete` of the replica file `p + [k]`. */
    method DeleteFile(p: Path, k: Name)
      requires IsDir(replica, p) && IsFileIn(Entries(replica, p), k)
      modifies this`replica
      ensures replica == Put(old(replica), p, Dir(old(Entries(replica, p)) - {k}))
    {
      replica := Put(replica, p, Dir(Entries(replica, p) - {k}));
    }

    /** `File.Copy` of the source file `p + [k]` to the replica path `p + [k]`;
        it fails, leaving everything as it was, when that path already exists. */
    method CopyFile(p: Path, k: Name) returns (ok: bool)
      requires IsDir(source, p) && IsFileIn(Entries(source, p), k) && IsDir(replica, p)
      modifies this`replica
      ensures ok == (k !in old(Entries(replica, p)))
      ensures replica == if ok then Put(old(replica), p, Dir(old(Entries(replica, p))[k := Entries(source, p)[k]]))
                         else old(replica)
    {
      ok := k !in Entries(replica, p);
      if ok {
        replica := Put(replica, p, Dir(Entries(replica, p)[k := Entries(source, p)[k]]));
      }
    }

    /** `Directory.CreateDirectory` of the missing replica directory `p + [k]`. */
    method CreateDirectory(p: Path, k: Name)
      requires IsDir(replica, p) && k !in Entries(replica, p)
      modifies this`replica
      ensures replica == Put(old(replica), p, Dir(old(Entries(replica, p))[k := Dir(map[])]))
    {
      replica := Put(replica, p, Dir(Entries(replica, p)[k := Dir(map[])]));
    }

    /** `LogEvent`: one more record in the log. */
    method LogEvent(a: Action)
      modifies this`log
      ensures log == old(log) + [a]
    {
      log := log + [a];
    }

    /**
      One iteration of the first loop of `CopyNewOrChangedFiles` at `p`, for
      the source file `k`: when the replica has no file `k`, or one whose hash
      differs, delete that replica file if there is one, then copy. The copy
      fails when the replica holds a directory `k`.
     */
    method CopyIfNewOrChanged(p: Path, k: Name) returns (ok: bool)
      requires IsDir(source, p) && IsFileIn(Entries(source, p), k) && IsDir(replica, p)
      modifies this`replica, this`log
      ensures var es := Entries(source, p);
              var e := old(Entries(replica, p));
              && ok == !IsDirIn(e, k)
              && replica == (if !ok || Unchanged(hash, es, e, k) then old(replica) else Put(old(replica), p, Dir(e[k := es[k]])))
              && log == old(log) + (if ok then FileBlock(hash, p, es, e, k) else [])
    {
      var there := IsFileIn(Entries(replica, p), k);
      var changed := !there || hash(Entries(source, p)[k].content) != hash(Entries(replica, p)[k].content);
      ok := true;
      if changed {
        if there {
          ghost var r0 := replica;
          ghost var e := Entries(replica, p);
          DeleteFile(p, k);
          LogEvent(Deleted(p + [k]));
          ok := CopyFile(p, k);
          PutPut(r0, p, Dir(e - {k}), Dir((e - {k})[k := Entries(source, p)[k]]));
          assert (e - {k})[k := Entries(source, p)[k]] == e[k := Entries(source, p)[k]];
        } else {
          ok := CopyFile(p, k);
        }
        if ok {
          LogEvent(Copied(p + [k]));
        }
      }
    }

    /**
      The first loop of `CopyNewOrChangedFiles` at `p`: every source file in
      turn, stopping when one cannot be copied.
     */
    method CopyNewFiles(p: Path) returns (ok: bool, ghost t: seq<Action>)
      requires IsDir(source, p) && IsDir(replica, p)
      modifies this`replica, this`log
      ensures IsDir(replica, p) && replica == Put(old(replica), p, Dir(Entries(replica, p)))
      ensures ok == forall k | IsFileIn(Entries(source, p), k) :: !IsDirIn(old(Entries(replica, p)), k)
      ensures ok ==> Entries(replica, p)
                     == AfterCopies(hash, Entries(source, p), old(Entries(replica, p)), FileNames(Entries(source, p)))
      ensures !ok ==> Clash(Get(source, p).value, Entries(replica, p))
      ensures log == old(log) + t
      ensures ok ==> var es := Entries(source, p);
                     Logged(t, CopyActions(hash, p, es, old(Entries(replica, p)), FileNames(es)))
                     && FileLevel(t, p, FileNames(es))
    {
      ghost var r0 := replica;
      PutGet(replica, p);
      ghost var es := Entries(source, p);
      ghost var r := Entries(replica, p);
      var names := Listing(FileNames(Entries(source, p)));
      ListedFiles(es, names);
      assert Elements(names[..0]) == {};
      assert AfterCopies(hash, es, r, {}) == r;
      for i := 0 to |names|
        invariant replica == Put(r0, p, Dir(AfterCopies(hash, es, r, Elements(names[..i]))))
        invariant forall k | k in Elements(names[..i]) :: !IsDirIn(r, k)
        invariant log == old(log) + CopyBlocks(hash, p, es, r, names[..i])
      {
        ghost var rep := replica;
        ghost var before := log;
        SeenListed(es, names, i);
        ok := CopyIfNewOrChanged(p, names[i]);
        if !ok {
          CopyLoopAbort(hash, es, r, names, i);
          assert IsDirIn(Entries(replica, p), names[i]) && Get(source, p).value.entries[names[i]].File?;
          t := CopyBlocks(hash, p, es, r, names[..i]);
          return;
        }
        CopyLoopReplica(hash, p, es, r0, r, names, i, rep, replica);
        CopyLoopLog(hash, p, es, r, names, i, old(log), before, log);
      }
      assert names[..|names|] == names;
      CopyLog(hash, p, es, r, names);
      t := CopyBlocks(hash, p, es, r, names);
      ok := true;
    }

    /**
      One iteration of the second loop of `CopyNewOrChangedFiles` at `p`, for
      the replica file `k`: delete it when the source has no file `k`.
     */
    method DeleteIfOrphan(p: Path, k: Name)
      requires IsDir(source, p) && IsDir(replica, p) && IsFileIn(Entries(replica, p), k)
      modifies this`replica, this`log
      ensures var es := Entries(source, p);
              var e := old(Entries(replica, p));
              && replica == (if IsFileIn(es, k) then old(replica) else Put(old(replica), p, Dir(e - {k})))
              && log == old(log) + OrphanBlock(p, es, e, k)
    {
      if !IsFileIn(Entries(source, p), k) {
        DeleteFile(p, k);
        LogEvent(Deleted(p + [k]));
      }
    }

    /**
      The second loop of `CopyNewOrChangedFiles` at `p`: delete every replica
      file for which the source has no file of that name.
     */
    method DeleteOrphanFiles(p: Path) returns (ghost t: seq<Action>)
      requires IsDir(source, p) && IsDir(replica, p)
      modifies this`replica, this`log
      ensures var c := old(Entries(replica, p));
              replica == Put(old(replica), p, Dir(AfterOrphans(Entries(source, p), c, FileNames(c))))
      ensures log == old(log) + t
      ensures var c := old(Entries(replica, p));
              Logged(t, OrphanActions(p, Entries(source, p), c, FileNames(c)))
              && FileLevel(t, p, OrphanNames(Entries(source, p), c))
    {
      ghost var r0 := replica;
      PutGet(replica, p);
      ghost var es := Entries(source, p);
      ghost var c := Entries(replica, p);
      ghost var cur := c;
      var names := Listing(FileNames(Entries(replica, p)));
      ListedFiles(c, names);
      for i := 0 to |names|
        invariant replica == Put(r0, p, Dir(cur))
        invariant cur == AfterOrphans(es, c, Elements(names[..i]))
        invariant log == old(log) + OrphanBlocks(p, es, c, names[..i])
      {
        var k := names[i];
        SeenNext(names, i);
        OrphanStep(p, es, c, Elements(names[..i]), k);
        DeleteIfOrphan(p, k);
        if !IsFileIn(es, k) {
          PutPut(r0, p, Dir(cur), Dir(cur - {k}));
          cur := cur - {k};
        }
      }
      assert names[..|names|] == names;
      OrphanLog(p, es, c, names);
      t := OrphanBlocks(p, es, c, names);
    }

    /**
      One iteration of the third loop of `CopyNewOrChangedFiles` at `p`, for
      the source directory `k`: create the replica directory when it does not
      exist, then mirror the pair. The orphan loop has already run, so no
      replica file is named `k`.
     */
    method MirrorSubdirectory(p: Path, k: Name) returns (ok: bool, ghost sub: map<Name, Node>, ghost t: seq<Action>)
      requires IsDir(source, p) && IsDir(replica, p)
      requires IsDirIn(Entries(source, p), k) && !IsFileIn(Entries(replica, p), k)
      modifies this`replica, this`log
      ensures replica == Put(old(replica), p, Dir(old(Entries(replica, p))[k := Dir(sub)]))
      ensures var es := Entries(source, p);
              var c := old(Entries(replica, p));
              && ok == !Clash(es[k], ChildOf(c, k))
              && (ok ==> sub == Mirror(hash, es[k], ChildOf(c, k)))
              && (!ok ==> Clash(es[k], sub))
      ensures log == old(log) + t
      ensures !IsDirIn(old(Entries(replica, p)), k) ==> |t| > 0 && t[0] == Created(p + [k])
      ensures ok ==> var es := Entries(source, p);
                     var c := old(Entries(replica, p));
                     Logged(t, (if IsDirIn(c, k) then {} else {Created(p + [k])}) + Actions(hash, p + [k], es[k], ChildOf(c, k)))
                     && DirLevel(t, p, {k})
      decreases Get(source, p).value, 0
    {
      ghost var r0 := replica;
      ghost var sk := Entries(source, p)[k];
      ghost var c := Entries(replica, p);
      ghost var block: seq<Action> := [];
      if !IsDirIn(Entries(replica, p), k) {
        CreateDirectory(p, k);
        LogEvent(Created(p + [k]));
        block := [Created(p + [k])];
      }
      SubdirEnter(source, p, k, r0, replica);
      ghost var rep1 := replica;
      ghost var src := source;
      ghost var t';
      ok, t' := CopyNewOrChangedFiles(p + [k]);
      assert source == src && Get(source, p + [k]).value == sk;
      sub := Entries(replica, p + [k]);
      SubdirLeave(r0, p, k, rep1, replica);
      t := block + t';
      SubdirOutcome(hash, p, k, sk, c, block, t', ok, sub);
    }

    /**
      The third loop of `CopyNewOrChangedFiles` at `p`: every source directory
      in turn, stopping when the pass below one of them aborts.
     */
    method MirrorSubdirectories(p: Path) returns (ok: bool, ghost t: seq<Action>)
      requires IsDir(source, p) && IsDir(replica, p)
      requires forall k | IsDirIn(Entries(source, p), k) :: !IsFileIn(Entries(replica, p), k)
      modifies this`replica, this`log
      ensures IsDir(replica, p) && replica == Put(old(replica), p, Dir(Entries(replica, p)))
      ensures var es := Entries(source, p);
              var c := old(Entries(replica, p));
              ok == forall k | IsDirIn(es, k) :: !Clash(es[k], ChildOf(c, k))
      ensures ok ==> Entries(replica, p)
                     == AfterDirs(hash, Get(source, p).value, old(Entries(replica, p)), DirNames(Entries(source, p)))
      ensures !ok ==> Clash(Get(source, p).value, Entries(replica, p))
      ensures log == old(log) + t
      ensures ok ==> Logged(t, DirActions(hash, p, Get(source, p).value, old(Entries(replica, p)), DirNames(Entries(source, p))))
                     && DirLevel(t, p, DirNames(Entries(source, p)))
      decreases Get(source, p).value, 1
    {
      ghost var r0 := replica;
      PutGet(replica, p);
      ghost var s := Get(source, p).value;
      ghost var es := Entries(source, p);
      ghost var c := Entries(replica, p);
      var names := Listing(DirNames(Entries(source, p)));
      ListedDirs(es, names);
      assert Elements(names[..0]) == {};
      assert AfterDirs(hash, s, c, {}) == c;
      t := [];
      for i := 0 to |names|
        invariant Elements(names[..i]) <= DirNames(es)
        invariant replica == Put(r0, p, Dir(AfterDirs(hash, s, c, Elements(names[..i]))))
        invariant forall k | k in Elements(names[..i]) :: !Clash(es[k], ChildOf(c, k))
        invariant log == old(log) + t
        invariant Logged(t, DirActions(hash, p, s, c, Elements(names[..i]))) && DirLevel(t, p, Elements(names[..i]))
      {
        ghost var rep := replica;
        ghost var lg := log;
        ghost var done := Elements(names[..i]);
        SeenNext(names, i);
        UntouchedByDirs(hash, s, c, done, names[i]);
        ghost var sub, t';
        ok, sub, t' := MirrorSubdirectory(p, names[i]);
        LogGrows(old(log), t, t', lg, log);
        if !ok {
          ghost var d := AfterDirs(hash, s, c, done);
          DirLoopAbort(hash, s, d, names[i], sub);
          ReplaceTwice(r0, p, d, d[names[i] := Dir(sub)], rep, replica);
          t := t + t';
          return;
        }
        DirLoopReplica(hash, p, s, r0, c, done, names[i], rep, sub, replica);
        DirLoopLog(hash, p, s, c, done, names[i], t, t');
        t := t + t';
      }
      assert names[..|names|] == names;
      ok := true;
    }

    /**
      `CopyNewOrChangedFiles(source/p, replica/p)`: the three loops, the last one
      descending into every source directory. It aborts, leaving what it has
      done so far, when a copy fails.
     */
    method CopyNewOrChangedFiles(p: Path) returns (ok: bool, ghost t: seq<Action>)
      requires IsDir(source, p) && IsDir(replica, p)
      modifies this`replica, this`log
      ensures IsDir(replica, p) && replica == Put(old(replica), p, Dir(Entries(replica, p)))
      ensures ok == !Clash(Get(source, p).value, old(Entries(replica, p)))
      ensures ok ==> Entries(replica, p) == Mirror(hash, Get(source, p).value, old(Entries(replica, p)))
      ensures !ok ==> Clash(Get(source, p).value, Entries(replica, p))
      ensures log == old(log) + t
      ensures ok ==> Logged(t, Actions(hash, p, Get(source, p).value, old(Entries(replica, p)))) && Within(t, p)
      decreases Get(source, p).value, 2
    {
      ghost var r0 := replica;
      ghost var s := Get(source, p).value;
      ghost var r := Entries(replica, p);
      ghost var t1, t2, t3;
      ok, t1 := CopyNewFiles(p);
      if !ok {
        ClashSplit(s, r);
        t := t1;
        return;
      }
      ghost var rep1 := replica;
      ghost var lg1 := log;
      t2 := DeleteOrphanFiles(p);
      LogGrows(old(log), t1, t2, lg1, log);
      ghost var rep2 := replica;
      ghost var lg2 := log;
      ghost var c1 := Entries(rep1, p);
      forall k | IsDirIn(Entries(source, p), k)
        ensures !IsFileIn(Entries(replica, p), k)
      {
        OrphansClearDirNames(hash, s.entries, r, k);
      }
      ok, t3 := MirrorSubdirectories(p);
      LogGrows(old(log), t1 + t2, t3, lg2, log);
      t := t1 + t2 + t3;
      LevelReplica(hash, p, s, r0, r, rep1, rep2, replica, ok);
      ClashSplit(s, r);
      forall k | IsDirIn(s.entries, k)
        ensures ChildOf(Entries(rep2, p), k) == ChildOf(r, k)
      {
        DirEntryAfterFileLoops(hash, s.entries, r, k);
      }
      if ok {
        LevelLog(hash, p, s, r, t1, t2, t3);
      }
    }

    /**
      `SyncFolders`: one mirroring pass of the whole trees, skipped when a pass
      is already running. A pass that fails is caught and ends the call; the
      busy flag is cleared either way. When either root is not a directory, a
      file-system call on that root throws before anything changes.
     */
    method SyncFolders()
      modifies this`replica, this`log, this`isSyncing
      ensures source == old(source) && isSyncing == old(isSyncing)
      ensures old(isSyncing) || !source.Dir? || !old(replica).Dir? ==> replica == old(replica) && log == old(log)
      ensures !old(isSyncing) && source.Dir? && old(replica).Dir? ==>
                var r := old(replica).entries;
                && replica.Dir? && |old(log)| <= |log| && log[..|old(log)|] == old(log)
                && (!Clash(source, r) ==> replica.entries == Mirror(hash, source, r)
                                          && Logged(log[|old(log)|..], Actions(hash, [], source, r)))
                && (Clash(source, r) ==> Clash(source, replica.entries))
    {
      if isSyncing {
        return;
      }
      isSyncing := true;
      if source.Dir? && replica.Dir? {
        ghost var r := replica.entries;
        ghost var t;
        var ok;
        ok, t := CopyNewOrChangedFiles([]);
        assert replica == Put(old(replica), [], Dir(Entries(replica, [])));
        assert log[|old(log)|..] == t;
      }
      isSyncing := false;
    }
  }

  /** `Directory.GetFiles` and `Directory.GetDirectories`: the names of a listing,
      each once, in an order the file system chooses. */
  method Listing(names: set<Name>) returns (order: seq<Name>)
    ensures Distinct(order) && Elements(order) == names
  {
    order := [];
    var todo := names;
    while todo != {}
      invariant Distinct(order) && Elements(order) == names - todo
      decreases todo
    {
      var k :| k in todo;
      assert Elements(order + [k]) == Elements(order) + {k};
      order := order + [k];
      todo := todo - {k};
    }
  }

  /** What the second loop logs, whatever the listing order. */
  lemma OrphanLog(p: Path, s: map<Name, Node>, c: map<Name, Node>, order: seq<Name>)
    requires Distinct(order) && Elements(order) == FileNames(c)
    ensures var t := OrphanBlocks(p, s, c, order);
            Logged(t, OrphanActions(p, s, c, FileNames(c))) && FileLevel(t, p, OrphanNames(s, c))
  {
    OrphanBlocksTrace(p, s, c, order);
    OrphanBlocksElements(p, s, c, order);
    OrphanBlocksLevel(p, s, c, order, FileNames(c));
    assert FileNames(c) * OrphanNames(s, c) == OrphanNames(s, c);
  }

  /** What the first loop logs, whatever the listing order. */
  lemma CopyLog(h: Hasher, p: Path, s: map<Name, Node>, r: map<Name, Node>, order: seq<Name>)
    requires Distinct(order) && Elements(order) == FileNames(s)
    ensures forall i | 0 <= i < |order| :: IsFileIn(s, order[i])
    ensures var t := CopyBlocks(h, p, s, r, order);
            Logged(t, CopyActions(h, p, s, r, FileNames(s))) && FileLevel(t, p, FileNames(s))
  {
    forall i | 0 <= i < |order|
      ensures IsFileIn(s, order[i])
    {
      assert order[i] in Elements(order);
    }
    CopyBlocksTrace(h, p, s, r, order);
    CopyBlocksElements(h, p, s, r, order);
    CopyBlocksLevel(h, p, s, r, order, FileNames(s));
  }

  /** Every listed name is a source file. */
  lemma ListedFiles(s: map<Name, Node>, names: seq<Name>)
    requires Elements(names) == FileNames(s)
    ensures forall j | 0 <= j < |names| :: IsFileIn(s, names[j])
  {
    forall j | 0 <= j < |names|
      ensures IsFileIn(s, names[j])
    {
      assert names[j] in Elements(names);
    }
  }

  /** When the copy of the `i`-th listed file fails, the replica entry in its
      way is the original directory. */
  lemma CopyLoopAbort(h: Hasher, s: map<Name, Node>, r: map<Name, Node>, names: seq<Name>, i: nat)
    requires Distinct(names) && i < |names| && forall j | 0 <= j < |names| :: IsFileIn(s, names[j])
    ensures var c := AfterCopies(h, s, r, Elements(names[..i]));
            (names[i] in c <==> names[i] in r) && (names[i] in r ==> c[names[i]] == r[names[i]])
  {
    SeenNext(names, i);
    UntouchedByCopies(h, s, r, Elements(names[..i]), names[i]);
  }

  /** One iteration of the first loop keeps the replica directory equal to the
      loop's summary. */
  lemma CopyLoopReplica(h: Hasher, p: Path, s: map<Name, Node>, r0: Node, r: map<Name, Node>, names: seq<Name>, i: nat,
                        rep: Node, rep': Node)
    requires Get(r0, p).Some?
    requires Distinct(names) && i < |names| && forall j | 0 <= j < |names| :: IsFileIn(s, names[j])
    requires rep == Put(r0, p, Dir(AfterCopies(h, s, r, Elements(names[..i]))))
    requires var e := Entries(rep, p);
             && !IsDirIn(e, names[i])
             && rep' == (if Unchanged(h, s, e, names[i]) then rep else Put(rep, p, Dir(e[names[i] := s[names[i]]])))
    ensures rep' == Put(r0, p, Dir(AfterCopies(h, s, r, Elements(names[..i + 1]))))
    ensures !IsDirIn(r, names[i])
  {
    var k := names[i];
    var done := Elements(names[..i]);
    var cur := AfterCopies(h, s, r, done);
    SeenNext(names, i);
    CopyStep(h, p, s, r, done, k);
    UntouchedByCopies(h, s, r, done, k);
    assert Entries(rep, p) == cur;
    if !Unchanged(h, s, cur, k) {
      PutPut(r0, p, Dir(cur), Dir(cur[k := s[k]]));
    }
  }

  /** One iteration of the first loop appends the block of its file to the log. */
  lemma CopyLoopLog(h: Hasher, p: Path, s: map<Name, Node>, r: map<Name, Node>, names: seq<Name>, i: nat,
                    log0: seq<Action>, lg: seq<Action>, lg': seq<Action>)
    requires Distinct(names) && i < |names| && forall j | 0 <= j < |names| :: IsFileIn(s, names[j])
    requires lg == log0 + CopyBlocks(h, p, s, r, names[..i])
    requires forall k | k in Elements(names[..i]) :: IsFileIn(s, k)
    requires lg' == lg + FileBlock(h, p, s, AfterCopies(h, s, r, Elements(names[..i])), names[i])
    ensures lg' == log0 + CopyBlocks(h, p, s, r, names[..i + 1])
  {
    SeenNext(names, i);
    CopyBlocksNext(h, p, s, r, names, i);
    LogGrows(log0, CopyBlocks(h, p, s, r, names[..i]), FileBlock(h, p, s, r, names[i]), lg, lg');
  }

  /** The names met so far are listed names. */
  lemma SeenListed(s: map<Name, Node>, names: seq<Name>, i: nat)
    requires i <= |names| && forall j | 0 <= j < |names| :: IsFileIn(s, names[j])
    ensures forall k | k in Elements(names[..i]) :: IsFileIn(s, k)
  {
    forall k | k in Elements(names[..i])
      ensures IsFileIn(s, k)
    {
      var j :| 0 <= j < i && names[..i][j] == k;
      assert names[j] == k;
    }
  }

  /** Every listed name is a source directory. */
  lemma ListedDirs(s: map<Name, Node>, names: seq<Name>)
    requires Elements(names) == DirNames(s)
    ensures forall j | 0 <= j < |names| :: IsDirIn(s, names[j])
  {
    forall j | 0 <= j < |names|
      ensures IsDirIn(s, names[j])
    {
      assert names[j] in Elements(names);
    }
  }

  /** When the pass below the source directory `k` aborts, the pass at this level
      is left with a clash below `k`. */
  lemma DirLoopAbort(h: Hasher, s: Node, d: map<Name, Node>, k: Name, sub: map<Name, Node>)
    requires s.Dir? && IsDirIn(s.entries, k) && Clash(s.entries[k], sub)
    ensures Clash(s, d[k := Dir(sub)])
  {
    var d' := d[k := Dir(sub)];
    assert k in s.entries && IsDirIn(d', k) && Clash(s.entries[k], d'[k].entries);
  }

  /** One iteration of the third loop keeps the replica directory equal to the
      loop's summary. */
  lemma DirLoopReplica(h: Hasher, p: Path, s: Node, r0: Node, c: map<Name, Node>, done: set<Name>, k: Name,
                       rep: Node, sub: map<Name, Node>, rep': Node)
    requires Get(r0, p).Some? && s.Dir?
    requires forall k' | k' in done :: k' in s.entries && s.entries[k'].Dir?
    requires IsDirIn(s.entries, k) && k !in done
    requires rep == Put(r0, p, Dir(AfterDirs(h, s, c, done)))
    requires sub == Mirror(h, s.entries[k], ChildOf(c, k))
    requires rep' == Put(rep, p, Dir(Entries(rep, p)[k := Dir(sub)]))
    ensures rep' == Put(r0, p, Dir(AfterDirs(h, s, c, done + {k})))
  {
    var cur := AfterDirs(h, s, c, done);
    DirStep(h, s, c, done, k);
    assert Entries(rep, p) == cur;
    PutPut(r0, p, Dir(cur), Dir(cur[k := Dir(sub)]));
  }

  /** One iteration of the third loop appends what the pass below `k` logged. */
  lemma DirLoopLog(h: Hasher, p: Path, s: Node, c: map<Name, Node>, done: set<Name>, k: Name,
                   t: seq<Action>, t': seq<Action>)
    requires s.Dir?
    requires forall k' | k' in done :: k' in s.entries && s.entries[k'].Dir?
    requires IsDirIn(s.entries, k) && k !in done
    requires Logged(t, DirActions(h, p, s, c, done)) && DirLevel(t, p, done)
    requires Logged(t', (if IsDirIn(c, k) then {} else {Created(p + [k])}) + Actions(h, p + [k], s.entries[k], ChildOf(c, k)))
    requires DirLevel(t', p, {k})
    ensures Logged(t + t', DirActions(h, p, s, c, done + {k})) && DirLevel(t + t', p, done + {k})
  {
    DirActionsStep(h, p, s, c, done, k);
    DirLevelsCompatible(t, t', p, done, {k});
    AppendTrace(t, t');
    DirLevelAppend(t, t', p, done, {k});
  }

  /** The three loops of one level leave the replica directory holding `Mirror`,
      or a clash when they abort. */
  lemma LevelReplica(h: Hasher, p: Path, s: Node, r0: Node, r: map<Name, Node>, rep1: Node, rep2: Node, rep3: Node, ok: bool)
    requires s.Dir? && Get(r0, p).Some? && IsDir(r0, p) && Entries(r0, p) == r
    requires var c1 := AfterCopies(h, s.entries, r, FileNames(s.entries));
             && rep1 == Put(r0, p, Dir(c1))
             && rep2 == Put(rep1, p, Dir(AfterOrphans(s.entries, c1, FileNames(c1))))
    requires IsDir(rep3, p) && rep3 == Put(rep2, p, Dir(Entries(rep3, p)))
    requires ok ==> Entries(rep3, p) == AfterDirs(h, s, Entries(rep2, p), DirNames(s.entries))
    ensures rep3 == Put(r0, p, Dir(Entries(rep3, p)))
    ensures ok ==> Entries(rep3, p) == Mirror(h, s, r)
  {
    var c1 := AfterCopies(h, s.entries, r, FileNames(s.entries));
    var c2 := AfterOrphans(s.entries, c1, FileNames(c1));
    PutPut(r0, p, Dir(c1), Dir(c2));
    PutPut(r0, p, Dir(c2), Dir(Entries(rep3, p)));
    if ok {
      StepsMakeMirror(h, s, r);
    }
  }

  /** The log of one level: the two file loops' actions, then the directory loop's. */
  lemma LevelLog(h: Hasher, p: Path, s: Node, r: map<Name, Node>, t1: seq<Action>, t2: seq<Action>, t3: seq<Action>)
    requires s.Dir?
    requires var es := s.entries;
             var c1 := AfterCopies(h, es, r, FileNames(es));
             var c2 := AfterOrphans(es, c1, FileNames(c1));
             && Logged(t1, CopyActions(h, p, es, r, FileNames(es))) && FileLevel(t1, p, FileNames(es))
             && Logged(t2, OrphanActions(p, es, c1, FileNames(c1))) && FileLevel(t2, p, OrphanNames(es, c1))
             && Logged(t3, DirActions(h, p, s, c2, DirNames(es))) && DirLevel(t3, p, DirNames(es))
    ensures Logged(t1 + t2 + t3, Actions(h, p, s, r)) && Within(t1 + t2 + t3, p)
  {
    var es := s.entries;
    var c1 := AfterCopies(h, es, r, FileNames(es));
    LevelsCompatible(t1, t2, p, FileNames(es), OrphanNames(es, c1));
    AppendTrace(t1, t2);
    FileLevelUnion(t1, t2, p, FileNames(es), OrphanNames(es, c1));
    FileDirCompatible(t1 + t2, t3, p, FileNames(es) + OrphanNames(es, c1), DirNames(es));
    AppendTrace(t1 + t2, t3);
    StepsMakeActions(h, p, s, r);
    FileLevelWithin(t1 + t2, p, FileNames(es) + OrphanNames(es, c1));
    DirLevelWithin(t3, p, DirNames(es));
    WithinAppend(t1 + t2, t3, p);
  }

  /** Before the pass descends into the source directory `k`: both sides have a
      directory `p + [k]`, the replica one empty when it was just created. */
  lemma SubdirEnter(src: Node, p: Path, k: Name, r0: Node, rep: Node)
    requires IsDir(src, p) && IsDirIn(Entries(src, p), k)
    requires IsDir(r0, p) && !IsFileIn(Entries(r0, p), k)
    requires rep == if IsDirIn(Entries(r0, p), k) then r0 else Put(r0, p, Dir(Entries(r0, p)[k := Dir(map[])]))
    ensures IsDir(src, p + [k]) && Get(src, p + [k]).value == Entries(src, p)[k]
    ensures IsDir(rep, p + [k]) && Entries(rep, p + [k]) == ChildOf(Entries(r0, p), k)
    ensures rep == Put(r0, p, Dir(Entries(r0, p)[k := Dir(ChildOf(Entries(r0, p), k))]))
  {
    var c := Entries(r0, p);
    var c' := c[k := Dir(ChildOf(c, k))];
    GetChild(src, p, k);
    PutGet(r0, p);
    if IsDirIn(c, k) {
      assert c' == c;
    }
    PutEntry(r0, p, c', k, Dir(map[]));
  }

  /** What one descent reports, from what the recursive pass below `p + [k]` reports. */
  lemma SubdirOutcome(h: Hasher, p: Path, k: Name, sk: Node, c: map<Name, Node>, block: seq<Action>, t: seq<Action>,
                      ok: bool, sub: map<Name, Node>)
    requires sk.Dir?
    requires block == if IsDirIn(c, k) then [] else [Created(p + [k])]
    requires ok == !Clash(sk, ChildOf(c, k))
    requires ok ==> sub == Mirror(h, sk, ChildOf(c, k))
    requires !ok ==> Clash(sk, sub)
    requires ok ==> Logged(t, Actions(h, p + [k], sk, ChildOf(c, k))) && Within(t, p + [k])
    ensures ok ==> Logged(block + t, (if IsDirIn(c, k) then {} else {Created(p + [k])}) + Actions(h, p + [k], sk, ChildOf(c, k)))
                   && DirLevel(block + t, p, {k})
  {
    if ok {
      SubdirTrace(block, t, p, k);
      assert Elements(block) == if IsDirIn(c, k) then {} else {Created(p + [k])};
    }
  }

  /** After the pass below `k`: the replica directory `p` holds what that pass
      left under `k`, and its other entries as they were. */
  lemma SubdirLeave(r0: Node, p: Path, k: Name, rep1: Node, rep2: Node)
    requires IsDir(r0, p)
    requires rep1 == Put(r0, p, Dir(Entries(r0, p)[k := Dir(ChildOf(Entries(r0, p), k))]))
    requires IsDir(rep1, p + [k]) && IsDir(rep2, p + [k]) && rep2 == Put(rep1, p + [k], Dir(Entries(rep2, p + [k])))
    ensures rep2 == Put(r0, p, Dir(Entries(r0, p)[k := Dir(Entries(rep2, p + [k]))]))
  {
    var c := Entries(r0, p);
    var c' := c[k := Dir(ChildOf(c, k))];
    var y := Dir(Entries(rep2, p + [k]));
    PutEntry(r0, p, c', k, y);
    assert c'[k := y] == c[k := y];
  }

  /** Appending to the log twice. */
  lemma LogGrows(l0: seq<Action>, t: seq<Action>, t': seq<Action>, lg: seq<Action>, lg': seq<Action>)
    requires lg == l0 + t && lg' == lg + t'
    ensures lg' == l0 + (t + t')
  {
  }

  /** Writing the directory at `p` twice. */
  lemma ReplaceTwice(r0: Node, p: Path, m1: map<Name, Node>, m2: map<Name, Node>, rep: Node, rep': Node)
    requires Get(r0, p).Some?
    requires rep == Put(r0, p, Dir(m1)) && rep' == Put(rep, p, Dir(m2))
    ensures rep' == Put(r0, p, Dir(m2)) && IsDir(rep', p) && Entries(rep', p) == m2
  {
    PutPut(r0, p, Dir(m1), Dir(m2));
  }
}
