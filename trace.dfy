/**
  Properties of the sequence of actions one pass appends to the event log.
 */
module Trace {
  import opened FileTree
  import opened Reconcile

  /** A piece of log records the set `actions`, each once, every overwrite as a
      deletion immediately followed by the copy. */
  predicate Logged(t: seq<Action>, actions: set<Action>)
  {
    Distinct(t) && OverwritesPaired(t) && Elements(t) == actions
  }

  /** No element occurs twice: no action is logged twice, no name is listed twice. */
  predicate Distinct<T(==)>(s: seq<T>)
  {
    forall i, j | 0 <= i < j < |s| :: s[i] != s[j]
  }

  /** The elements of a sequence: the actions logged, or the names met so far. */
  function Elements<T>(s: seq<T>): set<T>
  {
    set x | x in s
  }

  /** Overwriting is delete-then-copy: a deletion of a path that is also copied
      is immediately followed by that copy. */
  predicate OverwritesPaired(t: seq<Action>)
  {
    forall i | 0 <= i < |t| && t[i].Deleted? && Copied(t[i].path) in t ::
      i + 1 < |t| && t[i + 1] == Copied(t[i].path)
  }

  /** Every action concerns an entry strictly below the directory `p`. */
  predicate Within(t: seq<Action>, p: Path)
  {
    forall i | 0 <= i < |t| :: |t[i].path| > |p| && t[i].path[..|p|] == p
  }

  /** Two pieces of log only share a path when exactly one of the two actions is
      a directory creation (an orphan file replaced by a directory). */
  predicate Compatible(a: seq<Action>, b: seq<Action>)
  {
    forall i, j | 0 <= i < |a| && 0 <= j < |b| && a[i].path == b[j].path :: a[i].Created? != b[j].Created?
  }

  /** Joining two compatible pieces of log keeps both properties. */
  lemma AppendTrace(a: seq<Action>, b: seq<Action>)
    requires Distinct(a) && Distinct(b) && OverwritesPaired(a) && OverwritesPaired(b)
    requires Compatible(a, b)
    ensures Distinct(a + b) && OverwritesPaired(a + b) && Elements(a + b) == Elements(a) + Elements(b)
  {
    var t := a + b;
    forall i, j | 0 <= i < j < |t|
      ensures t[i] != t[j]
    {
      if i < |a| && j >= |a| {
        assert t[i] == a[i] && t[j] == b[j - |a|];
      }
    }
    forall i | 0 <= i < |t| && t[i].Deleted? && Copied(t[i].path) in t
      ensures i + 1 < |t| && t[i + 1] == Copied(t[i].path)
    {
      var q := t[i].path;
      var j :| 0 <= j < |t| && t[j] == Copied(q);
      if i < |a| {
        assert a[i] == t[i];
        if j >= |a| {
          assert false;
        }
        assert a[j] == t[j];
      } else {
        assert b[i - |a|] == t[i];
        if j < |a| {
          assert false;
        }
        assert b[j - |a|] == t[j];
      }
    }
  }

  /** Every action of `t` lies below an entry of `p` named in `names`, and
      the only actions on those entries themselves are directory creations. */
  predicate DirLevel(t: seq<Action>, p: Path, names: set<Name>)
  {
    forall i | 0 <= i < |t| ::
      |t[i].path| > |p| && t[i].path[..|p|] == p && t[i].path[|p|] in names
      && (|t[i].path| == |p| + 1 ==> t[i].Created?)
  }

  /** What the third loop logs for one source directory `k`: an optional creation
      of `p + [k]`, then the log of the pass below it. */
  lemma SubdirTrace(block: seq<Action>, t: seq<Action>, p: Path, k: Name)
    requires block == [] || block == [Created(p + [k])]
    requires Distinct(t) && OverwritesPaired(t) && Within(t, p + [k])
    ensures var u := block + t;
            && Distinct(u) && OverwritesPaired(u) && DirLevel(u, p, {k})
            && Elements(u) == Elements(block) + Elements(t)
  {
    assert (p + [k])[..|p|] == p && (p + [k])[|p|] == k;
    forall i | 0 <= i < |t|
      ensures |t[i].path| > |p| + 1 && t[i].path[..|p|] == p && t[i].path[|p|] == k
    {
      var q := t[i].path;
      assert q[..|p| + 1] == p + [k];
      assert q[..|p|] == q[..|p| + 1][..|p|];
      assert q[|p|] == q[..|p| + 1][|p|];
    }
    forall i, j | 0 <= i < |block| && 0 <= j < |t|
      ensures block[i].path != t[j].path
    {
    }
    AppendTrace(block, t);
    var u := block + t;
    forall i | 0 <= i < |u|
      ensures |u[i].path| > |p| && u[i].path[..|p|] == p && u[i].path[|p|] in {k}
              && (|u[i].path| == |p| + 1 ==> u[i].Created?)
    {
      if i >= |block| {
        assert u[i] == t[i - |block|];
      }
    }
  }

  lemma DirLevelAppend(a: seq<Action>, b: seq<Action>, p: Path, m: set<Name>, n: set<Name>)
    requires DirLevel(a, p, m) && DirLevel(b, p, n)
    ensures DirLevel(a + b, p, m + n)
  {
    var u := a + b;
    forall i | 0 <= i < |u|
      ensures |u[i].path| > |p| && u[i].path[..|p|] == p && u[i].path[|p|] in m + n
              && (|u[i].path| == |p| + 1 ==> u[i].Created?)
    {
      if i < |a| {
        assert u[i] == a[i];
      } else {
        assert u[i] == b[i - |a|];
      }
    }
  }

  /** The logs of two different subdirectories never share a path. */
  lemma DirLevelsCompatible(a: seq<Action>, b: seq<Action>, p: Path, m: set<Name>, n: set<Name>)
    requires DirLevel(a, p, m) && DirLevel(b, p, n)
    requires m !! n
    ensures Compatible(a, b)
  {
    forall i, j | 0 <= i < |a| && 0 <= j < |b|
      ensures a[i].path != b[j].path
    {
      assert a[i].path[|p|] in m && b[j].path[|p|] in n;
    }
  }

  /** The file loops' actions meet the directory loop's only where a directory
      is created in place of a deleted orphan file. */
  lemma FileDirCompatible(a: seq<Action>, b: seq<Action>, p: Path, m: set<Name>, n: set<Name>)
    requires FileLevel(a, p, m) && DirLevel(b, p, n)
    ensures Compatible(a, b)
  {
  }

  lemma FileLevelWithin(t: seq<Action>, p: Path, m: set<Name>)
    requires FileLevel(t, p, m)
    ensures Within(t, p)
  {
  }

  lemma DirLevelWithin(t: seq<Action>, p: Path, m: set<Name>)
    requires DirLevel(t, p, m)
    ensures Within(t, p)
  {
  }

  /** What the first loop logs for the source file `k` of directory `p`: nothing
      when unchanged, a copy when new, a deletion and then a copy when changed. */
  function FileBlock(h: Hasher, p: Path, s: map<Name, Node>, r: map<Name, Node>, k: Name): (t: seq<Action>)
    requires IsFileIn(s, k)
    ensures Unchanged(h, s, r, k) <==> t == []
    ensures Distinct(t) && OverwritesPaired(t)
  {
    if Unchanged(h, s, r, k) then []
    else if IsFileIn(r, k) then [Deleted(p + [k]), Copied(p + [k])]
    else [Copied(p + [k])]
  }

  /** One more name of a listing. */
  lemma SeenNext(order: seq<Name>, i: nat)
    requires i < |order|
    ensures order[..i + 1][..i] == order[..i] && order[..i + 1][i] == order[i]
    ensures Elements(order[..i + 1]) == Elements(order[..i]) + {order[i]}
    ensures Distinct(order) ==> order[i] !in Elements(order[..i]) && Distinct(order[..i + 1])
  {
    assert order[..i + 1] == order[..i] + [order[i]];
  }

  /** What the first loop logs when it meets the source files in `order`. */
  function CopyBlocks(h: Hasher, p: Path, s: map<Name, Node>, r: map<Name, Node>, order: seq<Name>): seq<Action>
    requires forall i | 0 <= i < |order| :: IsFileIn(s, order[i])
  {
    if order == [] then []
    else CopyBlocks(h, p, s, r, order[..|order| - 1]) + FileBlock(h, p, s, r, order[|order| - 1])
  }

  /** The first loop logs, for a source file it has not met before, what it
      would have logged for it first. */
  lemma CopyBlocksNext(h: Hasher, p: Path, s: map<Name, Node>, r: map<Name, Node>, order: seq<Name>, i: nat)
    requires i < |order| && forall j | 0 <= j < |order| :: IsFileIn(s, order[j])
    requires forall k | k in Elements(order[..i]) :: IsFileIn(s, k)
    requires order[i] !in Elements(order[..i])
    ensures FileBlock(h, p, s, AfterCopies(h, s, r, Elements(order[..i])), order[i]) == FileBlock(h, p, s, r, order[i])
    ensures CopyBlocks(h, p, s, r, order[..i + 1]) == CopyBlocks(h, p, s, r, order[..i]) + FileBlock(h, p, s, r, order[i])
  {
    UntouchedByCopies(h, s, r, Elements(order[..i]), order[i]);
    assert order[..i + 1][..i] == order[..i];
  }

  /** The actions in one file's block. */
  lemma FileBlockElements(h: Hasher, p: Path, s: map<Name, Node>, r: map<Name, Node>, k: Name)
    requires IsFileIn(s, k)
    ensures Elements(FileBlock(h, p, s, r, k))
            == (if Unchanged(h, s, r, k) then {} else {Copied(p + [k])})
               + (if IsFileIn(r, k) && !Unchanged(h, s, r, k) then {Deleted(p + [k])} else {})
  {
  }

  /** Every action of `t` is a deletion or a copy of an entry of `p` named in `names`. */
  predicate FileLevel(t: seq<Action>, p: Path, names: set<Name>)
  {
    forall i | 0 <= i < |t| ::
      !t[i].Created? && |t[i].path| == |p| + 1 && t[i].path[..|p|] == p && t[i].path[|p|] in names
  }

  lemma FileBlockLevel(h: Hasher, p: Path, s: map<Name, Node>, r: map<Name, Node>, k: Name)
    requires IsFileIn(s, k)
    ensures FileLevel(FileBlock(h, p, s, r, k), p, {k})
  {
    assert (p + [k])[..|p|] == p && (p + [k])[|p|] == k;
  }

  /** Every action the first loop logs names, inside `p`, one of the files it met. */
  lemma {:induction false} CopyBlocksLevel(h: Hasher, p: Path, s: map<Name, Node>, r: map<Name, Node>, order: seq<Name>, names: set<Name>)
    requires forall i | 0 <= i < |order| :: IsFileIn(s, order[i]) && order[i] in names
    ensures FileLevel(CopyBlocks(h, p, s, r, order), p, names)
    decreases |order|
  {
    if order != [] {
      var n := |order| - 1;
      var k := order[n];
      var front := order[..n];
      assert forall i | 0 <= i < |front| :: front[i] == order[i];
      CopyBlocksLevel(h, p, s, r, front, names);
      FileBlockLevel(h, p, s, r, k);
      LevelAppend(CopyBlocks(h, p, s, r, front), FileBlock(h, p, s, r, k), p, names, {k});
    }
  }

  lemma LevelAppend(a: seq<Action>, b: seq<Action>, p: Path, m: set<Name>, n: set<Name>)
    requires FileLevel(a, p, m) && FileLevel(b, p, n)
    requires n <= m
    ensures FileLevel(a + b, p, m)
  {
    var u := a + b;
    forall i | 0 <= i < |u|
      ensures !u[i].Created? && |u[i].path| == |p| + 1 && u[i].path[..|p|] == p && u[i].path[|p|] in m
    {
      if i < |a| {
        assert u[i] == a[i];
      } else {
        assert u[i] == b[i - |a|];
      }
    }
  }

  /** Whatever the listing order, the first loop logs exactly `CopyActions`. */
  lemma {:induction false} CopyBlocksElements(h: Hasher, p: Path, s: map<Name, Node>, r: map<Name, Node>, order: seq<Name>)
    requires Distinct(order) && forall i | 0 <= i < |order| :: IsFileIn(s, order[i])
    ensures forall k | k in Elements(order) :: IsFileIn(s, k)
    ensures Elements(CopyBlocks(h, p, s, r, order)) == CopyActions(h, p, s, r, Elements(order))
    decreases |order|
  {
    SeenFiles(s, order);
    if order == [] {
      assert Elements(order) == {};
    } else {
      var n := |order| - 1;
      var front := order[..n];
      SeenNext(order, n);
      assert order[..n + 1] == order;
      assert Distinct(front) && forall i | 0 <= i < |front| :: IsFileIn(s, front[i]);
      CopyBlocksElements(h, p, s, r, front);
      CopyElementsStep(h, p, s, r, Elements(front), order[n], CopyBlocks(h, p, s, r, front));
    }
  }

  lemma SeenFiles(s: map<Name, Node>, order: seq<Name>)
    requires forall i | 0 <= i < |order| :: IsFileIn(s, order[i])
    ensures forall k | k in Elements(order) :: IsFileIn(s, k)
  {
    forall k | k in Elements(order)
      ensures IsFileIn(s, k)
    {
      var j :| 0 <= j < |order| && order[j] == k;
    }
  }

  lemma CopyElementsStep(h: Hasher, p: Path, s: map<Name, Node>, r: map<Name, Node>, done: set<Name>, k: Name, t: seq<Action>)
    requires forall k' | k' in done :: IsFileIn(s, k')
    requires IsFileIn(s, k) && k !in done
    requires Elements(t) == CopyActions(h, p, s, r, done)
    ensures Elements(t + FileBlock(h, p, s, r, k)) == CopyActions(h, p, s, r, done + {k})
  {
    ElementsAppend(t, FileBlock(h, p, s, r, k));
    FileBlockElements(h, p, s, r, k);
    CopyActionsStep(h, p, s, r, done, k);
  }

  lemma ElementsAppend(a: seq<Action>, b: seq<Action>)
    ensures Elements(a + b) == Elements(a) + Elements(b)
  {
    assert forall x | x in a + b :: x in a || x in b;
  }

  /** Whatever the listing order, the first loop logs each of its actions once,
      and a deletion right before the copy of the same path. */
  lemma {:induction false} CopyBlocksTrace(h: Hasher, p: Path, s: map<Name, Node>, r: map<Name, Node>, order: seq<Name>)
    requires forall i | 0 <= i < |order| :: IsFileIn(s, order[i])
    requires Distinct(order)
    ensures var t := CopyBlocks(h, p, s, r, order);
            Distinct(t) && OverwritesPaired(t)
    decreases |order|
  {
    if order != [] {
      var n := |order| - 1;
      var k := order[n];
      var front := order[..n];
      assert forall i | 0 <= i < |front| :: front[i] == order[i];
      CopyBlocksTrace(h, p, s, r, front);
      var names := set k' | k' in front;
      CopyBlocksLevel(h, p, s, r, front, names);
      FileBlockLevel(h, p, s, r, k);
      var t := CopyBlocks(h, p, s, r, front);
      var b := FileBlock(h, p, s, r, k);
      assert k !in names;
      LevelsCompatible(t, b, p, names, {k});
      AppendTrace(t, b);
    }
  }

  /** Actions on entries of one directory with disjoint names never share a path. */
  lemma LevelsCompatible(a: seq<Action>, b: seq<Action>, p: Path, m: set<Name>, n: set<Name>)
    requires FileLevel(a, p, m) && FileLevel(b, p, n)
    requires m !! n
    ensures Compatible(a, b)
  {
    forall i, j | 0 <= i < |a| && 0 <= j < |b|
      ensures a[i].path != b[j].path
    {
      assert a[i].path[|p|] in m && b[j].path[|p|] in n;
    }
  }

  /** What the second loop logs for the replica entry `k` of directory `p`. */
  function OrphanBlock(p: Path, s: map<Name, Node>, c: map<Name, Node>, k: Name): seq<Action>
  {
    if IsFileIn(c, k) && !IsFileIn(s, k) then [Deleted(p + [k])] else []
  }

  /** What the second loop logs when it meets the replica files in `order`. */
  function OrphanBlocks(p: Path, s: map<Name, Node>, c: map<Name, Node>, order: seq<Name>): seq<Action>
  {
    if order == [] then []
    else OrphanBlocks(p, s, c, order[..|order| - 1]) + OrphanBlock(p, s, c, order[|order| - 1])
  }

  /** The names of the second loop's candidates: replica files with no source file of that name. */
  function OrphanNames(s: map<Name, Node>, c: map<Name, Node>): set<Name>
  {
    FileNames(c) - FileNames(s)
  }

  lemma OrphanBlockLevel(p: Path, s: map<Name, Node>, c: map<Name, Node>, k: Name)
    ensures FileLevel(OrphanBlock(p, s, c, k), p, {k} * OrphanNames(s, c))
    ensures Elements(OrphanBlock(p, s, c, k))
            == if IsFileIn(c, k) && !IsFileIn(s, k) then {Deleted(p + [k])} else {}
  {
    assert (p + [k])[..|p|] == p && (p + [k])[|p|] == k;
  }

  /** Every deletion the second loop logs is of an orphan file it met. */
  lemma {:induction false} OrphanBlocksLevel(p: Path, s: map<Name, Node>, c: map<Name, Node>, order: seq<Name>, names: set<Name>)
    requires forall i | 0 <= i < |order| :: order[i] in names
    ensures FileLevel(OrphanBlocks(p, s, c, order), p, names * OrphanNames(s, c))
    decreases |order|
  {
    if order != [] {
      var n := |order| - 1;
      var k := order[n];
      var front := order[..n];
      assert forall i | 0 <= i < |front| :: front[i] == order[i];
      OrphanBlocksLevel(p, s, c, front, names);
      OrphanBlockLevel(p, s, c, k);
      LevelAppend(OrphanBlocks(p, s, c, front), OrphanBlock(p, s, c, k), p, names * OrphanNames(s, c), {k} * OrphanNames(s, c));
    }
  }

  /** Whatever the listing order, the second loop logs exactly `OrphanActions`. */
  lemma {:induction false} OrphanBlocksElements(p: Path, s: map<Name, Node>, c: map<Name, Node>, order: seq<Name>)
    ensures Elements(OrphanBlocks(p, s, c, order)) == OrphanActions(p, s, c, Elements(order))
    decreases |order|
  {
    if order == [] {
      assert Elements(order) == {};
    } else {
      var n := |order| - 1;
      var k := order[n];
      var front := order[..n];
      SeenNext(order, n);
      assert order[..n + 1] == order;
      OrphanBlocksElements(p, s, c, front);
      OrphanBlockLevel(p, s, c, k);
      ElementsAppend(OrphanBlocks(p, s, c, front), OrphanBlock(p, s, c, k));
      assert OrphanActions(p, s, c, Elements(front) + {k}) == OrphanActions(p, s, c, Elements(front))
             + if IsFileIn(c, k) && !IsFileIn(s, k) then {Deleted(p + [k])} else {};
    }
  }

  /** Whatever the listing order, the second loop logs each orphan deletion once. */
  lemma {:induction false} OrphanBlocksTrace(p: Path, s: map<Name, Node>, c: map<Name, Node>, order: seq<Name>)
    requires Distinct(order)
    ensures var t := OrphanBlocks(p, s, c, order);
            Distinct(t) && OverwritesPaired(t)
    decreases |order|
  {
    if order != [] {
      var n := |order| - 1;
      var k := order[n];
      var front := order[..n];
      assert forall i | 0 <= i < |front| :: front[i] == order[i];
      OrphanBlocksTrace(p, s, c, front);
      var names := set k' | k' in front;
      OrphanBlocksLevel(p, s, c, front, names);
      OrphanBlockLevel(p, s, c, k);
      assert k !in names;
      var t := OrphanBlocks(p, s, c, front);
      var b := OrphanBlock(p, s, c, k);
      LevelsCompatible(t, b, p, names * OrphanNames(s, c), {k} * OrphanNames(s, c));
      AppendTrace(t, b);
    }
  }

  lemma FileLevelUnion(a: seq<Action>, b: seq<Action>, p: Path, m: set<Name>, n: set<Name>)
    requires FileLevel(a, p, m) && FileLevel(b, p, n)
    ensures FileLevel(a + b, p, m + n)
  {
    var u := a + b;
    forall i | 0 <= i < |u|
      ensures !u[i].Created? && |u[i].path| == |p| + 1 && u[i].path[..|p|] == p && u[i].path[|p|] in m + n
    {
      if i < |a| {
        assert u[i] == a[i];
      } else {
        assert u[i] == b[i - |a|];
      }
    }
  }

  lemma WithinAppend(a: seq<Action>, b: seq<Action>, p: Path)
    requires Within(a, p) && Within(b, p)
    ensures Within(a + b, p)
  {
    var u := a + b;
    forall i | 0 <= i < |u|
      ensures |u[i].path| > |p| && u[i].path[..|p|] == p
    {
      if i < |a| {
        assert u[i] == a[i];
      } else {
        assert u[i] == b[i - |a|];
      }
    }
  }
}
