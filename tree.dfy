/**
  Directory trees as values: a node is a file holding bytes or a directory
  holding a finite map from entry names to nodes. A path is the sequence of
  entry names walked from the root of a tree; the root itself is the empty
  path.
 */
module FileTree {

  type Name = string
  type Bytes = seq<bv8>
  type Path = seq<Name>

  datatype Option<T> = None | Some(value: T)

  datatype Node = File(content: Bytes) | Dir(entries: map<Name, Node>)

  /** The node reached by walking `p` from `n`, if every step exists. */
  function Get(n: Node, p: Path): Option<Node>
    decreases |p|
  {
    if p == [] then Some(n)
    else match n
      case File(_) => None
      case Dir(es) => if p[0] in es then Get(es[p[0]], p[1..]) else None
  }

  /** `File.Exists`: there is a file (not a directory) at `p`. */
  predicate IsFile(n: Node, p: Path)
  {
    Get(n, p).Some? && Get(n, p).value.File?
  }

  /** `Directory.Exists`: there is a directory at `p`. */
  predicate IsDir(n: Node, p: Path)
  {
    Get(n, p).Some? && Get(n, p).value.Dir?
  }

  /** The entries of the directory at `p`. */
  function Entries(n: Node, p: Path): map<Name, Node>
    requires IsDir(n, p)
  {
    Get(n, p).value.entries
  }

  predicate IsFileIn(m: map<Name, Node>, k: Name)
  {
    k in m && m[k].File?
  }

  predicate IsDirIn(m: map<Name, Node>, k: Name)
  {
    k in m && m[k].Dir?
  }

  /** `Directory.GetFiles`: the names of the files directly inside a directory. */
  function FileNames(m: map<Name, Node>): set<Name>
  {
    set k | k in m && m[k].File?
  }

  /** `Directory.GetDirectories`: the names of the subdirectories directly inside a directory. */
  function DirNames(m: map<Name, Node>): set<Name>
  {
    set k | k in m && m[k].Dir?
  }

  /** The two listings of a directory name every entry, each in exactly one of them. */
  lemma ListingsPartition(m: map<Name, Node>)
    ensures FileNames(m) !! DirNames(m) && FileNames(m) + DirNames(m) == m.Keys
  {
    forall k | k in m
      ensures k in FileNames(m) + DirNames(m)
    {
      if m[k].File? {
        assert k in FileNames(m);
      } else {
        assert k in DirNames(m);
      }
    }
  }

  /** The tree `n` with the node at the existing path `p` replaced by `x`. */
  function Put(n: Node, p: Path, x: Node): (r: Node)
    requires Get(n, p).Some?
    ensures Get(r, p) == Some(x)
    ensures p != [] ==> r.Dir? && r.entries.Keys == n.entries.Keys
    decreases |p|
  {
    if p == [] then x
    else Dir(n.entries[p[0] := Put(n.entries[p[0]], p[1..], x)])
  }

  /** One more step from a directory reaches its entry of that name. */
  lemma {:induction false} GetChild(n: Node, p: Path, k: Name)
    requires IsDir(n, p)
    ensures Get(n, p + [k]) == if k in Entries(n, p) then Some(Entries(n, p)[k]) else None
    decreases |p|
  {
    if p != [] {
      assert (p + [k])[0] == p[0];
      assert (p + [k])[1..] == p[1..] + [k];
      GetChild(n.entries[p[0]], p[1..], k);
    }
  }

  /** Replacing a node twice keeps only the second replacement. */
  lemma {:induction false} PutPut(n: Node, p: Path, x: Node, y: Node)
    requires Get(n, p).Some?
    ensures Put(Put(n, p, x), p, y) == Put(n, p, y)
    decreases |p|
  {
    if p != [] {
      PutPut(n.entries[p[0]], p[1..], x, y);
    }
  }

  /** Replacing an entry of a directory is replacing that directory with its updated entries. */
  lemma {:induction false} PutChild(n: Node, p: Path, k: Name, x: Node)
    requires IsDir(n, p) && k in Entries(n, p)
    ensures Get(n, p + [k]).Some? && Put(n, p + [k], x) == Put(n, p, Dir(Entries(n, p)[k := x]))
    decreases |p|
  {
    GetChild(n, p, k);
    if p != [] {
      assert (p + [k])[0] == p[0];
      assert (p + [k])[1..] == p[1..] + [k];
      PutChild(n.entries[p[0]], p[1..], k, x);
    }
  }

  /** Reading and replacing an entry of a directory just written at `p`. */
  lemma PutEntry(n: Node, p: Path, m: map<Name, Node>, k: Name, y: Node)
    requires Get(n, p).Some? && k in m
    ensures Get(Put(n, p, Dir(m)), p + [k]) == Some(m[k])
    ensures Put(Put(n, p, Dir(m)), p + [k], y) == Put(n, p, Dir(m[k := y]))
  {
    var n' := Put(n, p, Dir(m));
    GetChild(n', p, k);
    PutChild(n', p, k, y);
    PutPut(n, p, Dir(m), Dir(m[k := y]));
  }

  /** Writing back the node already at `p` changes nothing. */
  lemma {:induction false} PutGet(n: Node, p: Path)
    requires Get(n, p).Some?
    ensures Put(n, p, Get(n, p).value) == n
    decreases |p|
  {
    if p != [] {
      PutGet(n.entries[p[0]], p[1..]);
    }
  }
}
