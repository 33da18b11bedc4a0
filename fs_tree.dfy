/**
  An abstract file system: a tree whose directories map entry names to
  nodes and whose files hold their contents.  A path is the sequence of
  entry names leading from the root to a node.  The functions here are the
  meaning of the few file-system calls the scaffolder makes; the class in
  scaffold.dfy applies them to its mutable state.
*/
module FsTree {
  import opened Wrappers

  type Name = string
  type Path = seq<Name>

  /** File contents; text and bytes are not told apart (no encoding). */
  type Content = string

  datatype Node = File(content: Content) | Dir(entries: map<Name, Node>)

  /** The node reached by following `p` from `t`, if there is one. */
  function Lookup(t: Node, p: Path): Option<Node>
    decreases |p|
  {
    if p == [] then Some(t)
    else match t
      case File(_) => None
      case Dir(m) => if p[0] in m then Lookup(m[p[0]], p[1..]) else None
  }

  function LookupIn(d: Option<Node>, p: Path): Option<Node>
  {
    if d.None? then None else Lookup(d.value, p)
  }

  /** The entry named `k` of the map, if any. */
  function Get(m: map<Name, Node>, k: Name): Option<Node>
  {
    if k in m then Some(m[k]) else None
  }

  function Parent(p: Path): Path
    requires p != []
  {
    p[..|p| - 1]
  }

  /** Neither path lies on the way to the other. */
  predicate Incomparable(p: Path, q: Path)
  {
    !(p <= q) && !(q <= p)
  }

  /** True iff a node is at `p` and it is a directory. */
  predicate IsDirAt(t: Node, p: Path)
  {
    Lookup(t, p).Some? && Lookup(t, p).value.Dir?
  }

  /** True iff a node is at `p` and it is a file. */
  predicate IsFileAt(t: Node, p: Path)
  {
    Lookup(t, p).Some? && Lookup(t, p).value.File?
  }

  /**
    `t` with the node at `p` replaced by `n`.  Missing directories on the
    way are created (and, as no caller relies on it, a file on the way would
    be replaced by a directory).
  */
  function Put(t: Node, p: Path, n: Node): (r: Node)
    ensures Lookup(r, p) == Some(n)
    ensures p != [] ==> r.Dir?
    decreases |p|
  {
    if p == [] then n
    else
      var m := if t.Dir? then t.entries else map[];
      var c := if p[0] in m then m[p[0]] else Dir(map[]);
      Dir(m[p[0] := Put(c, p[1..], n)])
  }

  /** The node at `p`, or the empty directory that `Put` starts from there. */
  function NodeOrEmpty(t: Node, p: Path): Node
  {
    if Lookup(t, p).Some? then Lookup(t, p).value else Dir(map[])
  }

  /**
    `t` without the entry at `p` (`rmSync` with `recursive` and `force`): a
    missing entry is no error and leaves the tree as it was.
  */
  function Remove(t: Node, p: Path): (r: Node)
    requires p != []
    ensures Lookup(r, p) == None
    ensures Lookup(t, p).None? ==> r == t
    decreases |p|
  {
    match t
    case File(_) => t
    case Dir(m) =>
      if p[0] !in m then t
      else if |p| == 1 then assert Lookup(t, p) == Lookup(m[p[0]], []); Dir(m - {p[0]})
      else Dir(m[p[0] := Remove(m[p[0]], p[1..])])
  }

  /**
    `mkdirSync(p, { recursive: true })`: every missing directory along `p`
    is created, an existing directory at `p` is accepted, and the call fails
    when a file stands at `p` or on the way to it.
  */
  function MakeDirs(t: Node, p: Path): (r: Option<Node>)
    ensures r.Some? ==> IsDirAt(r.value, p)
    ensures r.Some? <==> NoFileAlong(t, p)
    decreases |p|
  {
    match t
    case File(_) => None
    case Dir(m) =>
      if p == [] then Some(t)
      else
        var c := if p[0] in m then m[p[0]] else Dir(map[]);
        match MakeDirs(c, p[1..])
        case None => None
        case Some(c') => Some(Dir(m[p[0] := c']))
  }

  /** No file stands at `p` or at any node on the way there. */
  predicate NoFileAlong(t: Node, p: Path)
    decreases |p|
  {
    t.Dir? && (p == [] || p[0] !in t.entries || NoFileAlong(t.entries[p[0]], p[1..]))
  }

  /**
    `t2` is `t1` itself, or `t1` with the node at `p` replaced.  As `Put`
    creates directories on the way to `p`, what this guarantees is that
    nothing off `p`'s line changes (`OnlyBelowFrame`).
  */
  predicate OnlyBelow(t1: Node, t2: Node, p: Path)
  {
    t2 == t1 || (Lookup(t2, p).Some? && t2 == Put(t1, p, Lookup(t2, p).value))
  }

  // ---------------------------------------------------------------------
  // Lookup

  lemma {:induction false} LookupAppend(t: Node, p: Path, q: Path)
    ensures Lookup(t, p + q) == LookupIn(Lookup(t, p), q)
    decreases |p|
  {
    if p == [] {
      assert p + q == q;
    } else {
      assert (p + q)[0] == p[0];
      assert (p + q)[1..] == p[1..] + q;
      if t.Dir? && p[0] in t.entries {
        LookupAppend(t.entries[p[0]], p[1..], q);
      }
    }
  }

  /** Whatever has a child is a directory. */
  lemma ParentOfEntryIsDir(t: Node, p: Path, k: Name)
    requires Lookup(t, p + [k]).Some?
    ensures IsDirAt(t, p)
    ensures Lookup(t, p + [k]) == Get(Lookup(t, p).value.entries, k)
  {
    LookupAppend(t, p, [k]);
    var n := Lookup(t, p).value;
    assert [k][0] == k && [k][1..] == [];
    assert Lookup(n, [k]) == if n.Dir? && k in n.entries then Some(n.entries[k]) else None;
  }

  /** An entry of a directory is found one step below it. */
  lemma LookupChild(t: Node, p: Path, k: Name)
    requires IsDirAt(t, p) && k in Lookup(t, p).value.entries
    ensures Lookup(t, p + [k]) == Some(Lookup(t, p).value.entries[k])
  {
    LookupAppend(t, p, [k]);
    var n := Lookup(t, p).value;
    assert [k][0] == k && [k][1..] == [];
    assert Lookup(n, [k]) == Lookup(n.entries[k], []);
  }

  lemma LookupEntry(m: map<Name, Node>, k: Name)
    ensures Lookup(Dir(m), [k]) == Get(m, k)
  {
    assert [k][0] == k && [k][1..] == [];
  }

  /** A path apart from `q` is apart from everything below `q`. */
  lemma IncomparableChild(p: Path, q: Path, b: Name)
    requires Incomparable(p, q)
    ensures Incomparable(p, q + [b])
  {
    assert forall i | 0 <= i < |q| :: (q + [b])[i] == q[i];
  }

  /** Paths that go separate ways stay apart one level further down. */
  lemma IncomparableChildren(p: Path, q: Path, a: Name, b: Name)
    requires Incomparable(p, q)
    ensures Incomparable(p + [a], q + [b])
  {
    assert forall i | 0 <= i < |p| :: (p + [a])[i] == p[i];
    assert forall i | 0 <= i < |q| :: (q + [b])[i] == q[i];
  }

  /** A node exists wherever one exists below it. */
  lemma PrefixExists(t: Node, p: Path, q: Path)
    requires p <= q && Lookup(t, q).Some?
    ensures Lookup(t, p).Some?
  {
    assert q == p + q[|p|..];
    LookupAppend(t, p, q[|p|..]);
  }

  // ---------------------------------------------------------------------
  // Put

  lemma {:induction false} LookupPutBelow(t: Node, p: Path, n: Node, q: Path)
    ensures Lookup(Put(t, p, n), p + q) == Lookup(n, q)
    decreases |p|
  {
    if p == [] {
      assert p + q == q;
    } else {
      var m := if t.Dir? then t.entries else map[];
      var c := if p[0] in m then m[p[0]] else Dir(map[]);
      assert (p + q)[0] == p[0];
      assert (p + q)[1..] == p[1..] + q;
      LookupPutBelow(c, p[1..], n, q);
    }
  }

  /** Replacing the node at `p` leaves every path off `p`'s line alone. */
  lemma {:induction false} LookupPutOther(t: Node, p: Path, n: Node, q: Path)
    requires Incomparable(p, q)
    ensures Lookup(Put(t, p, n), q) == Lookup(t, q)
    decreases |p|
  {
    var m := if t.Dir? then t.entries else map[];
    var c := if p[0] in m then m[p[0]] else Dir(map[]);
    if q[0] == p[0] {
      assert Incomparable(p[1..], q[1..]) by {
        assert p == [p[0]] + p[1..] && q == [q[0]] + q[1..];
      }
      LookupPutOther(c, p[1..], n, q[1..]);
      if !(t.Dir? && p[0] in t.entries) {
        // the directory created on the way holds nothing but the new entry
        NewDirectoryHoldsOnly(p[1..], n, q[1..]);
      }
    }
  }

  lemma {:induction false} NewDirectoryHoldsOnly(p: Path, n: Node, q: Path)
    requires Incomparable(p, q)
    ensures Lookup(Dir(map[]), q) == None
  {
  }

  lemma PutPut(t: Node, p: Path, a: Node, b: Node)
    ensures Put(Put(t, p, a), p, b) == Put(t, p, b)
    decreases |p|
  {
    if p != [] {
      var m := if t.Dir? then t.entries else map[];
      var c := if p[0] in m then m[p[0]] else Dir(map[]);
      PutPut(c, p[1..], a, b);
    }
  }

  /** Putting back the node that is already there changes nothing. */
  lemma {:induction false} PutSame(t: Node, p: Path)
    requires Lookup(t, p).Some?
    ensures Put(t, p, Lookup(t, p).value) == t
    decreases |p|
  {
    if p != [] {
      PutSame(t.entries[p[0]], p[1..]);
    }
  }

  lemma {:induction false} PutAppend(t: Node, p: Path, q: Path, n: Node)
    ensures Put(t, p + q, n) == Put(t, p, Put(NodeOrEmpty(t, p), q, n))
    decreases |p|
  {
    if p == [] {
      assert p + q == q;
    } else {
      var m := if t.Dir? then t.entries else map[];
      var c := if p[0] in m then m[p[0]] else Dir(map[]);
      assert (p + q)[0] == p[0];
      assert (p + q)[1..] == p[1..] + q;
      PutAppend(c, p[1..], q, n);
      if t.Dir? && p[0] in t.entries {
        assert NodeOrEmpty(t, p) == NodeOrEmpty(c, p[1..]);
      } else {
        assert NodeOrEmpty(t, p) == Dir(map[]);
        EmptyOrEmpty(p[1..]);
      }
    }
  }

  lemma EmptyOrEmpty(p: Path)
    ensures NodeOrEmpty(Dir(map[]), p) == Dir(map[])
  {
  }

  /** Updating an entry one level below `p` is an update of the directory at `p`. */
  lemma PutChild(t: Node, p: Path, m: map<Name, Node>, k: Name, n: Node)
    ensures Put(Put(t, p, Dir(m)), p + [k], n) == Put(t, p, Dir(m[k := n]))
  {
    var t1 := Put(t, p, Dir(m));
    PutAppend(t1, p, [k], n);
    assert NodeOrEmpty(t1, p) == Dir(m);
    PutPut(t, p, Dir(m), Dir(m[k := n]));
  }

  lemma {:induction false} RemovePut(t: Node, p: Path, n: Node, q: Path)
    requires q != []
    ensures Remove(Put(t, p, n), p + q) == Put(t, p, Remove(n, q))
    decreases |p|
  {
    if p == [] {
      assert p + q == q;
    } else {
      var m := if t.Dir? then t.entries else map[];
      var c := if p[0] in m then m[p[0]] else Dir(map[]);
      assert (p + q)[0] == p[0];
      assert (p + q)[1..] == p[1..] + q;
      RemovePut(c, p[1..], n, q);
    }
  }

  // ---------------------------------------------------------------------
  // Remove

  /** Removing the entry at `p` leaves every path off `p`'s line alone. */
  lemma {:induction false} LookupRemoveOther(t: Node, p: Path, q: Path)
    requires p != [] && Incomparable(p, q)
    ensures Lookup(Remove(t, p), q) == Lookup(t, q)
    decreases |p|
  {
    if t.Dir? && p[0] in t.entries && q[0] == p[0] {
      assert |p| > 1 && |q| > 1 by {
        assert |p| == 1 ==> p <= q;
        assert |q| == 1 ==> q <= p;
      }
      assert Incomparable(p[1..], q[1..]) by {
        assert p == [p[0]] + p[1..] && q == [q[0]] + q[1..];
      }
      LookupRemoveOther(t.entries[p[0]], p[1..], q[1..]);
    }
  }

  /** Nothing is left at `p` or anywhere below it. */
  lemma LookupRemoveBelow(t: Node, p: Path, q: Path)
    requires p != [] && p <= q
    ensures Lookup(Remove(t, p), q) == None
  {
    assert q == p + q[|p|..];
    LookupAppend(Remove(t, p), p, q[|p|..]);
  }

  // ---------------------------------------------------------------------
  // MakeDirs

  /** Creating a directory that is not there yet adds an empty one at `p`. */
  lemma {:induction false} MakeDirsFresh(t: Node, p: Path)
    requires Lookup(t, p).None? && MakeDirs(t, p).Some?
    ensures MakeDirs(t, p).value == Put(t, p, Dir(map[]))
    decreases |p|
  {
    var m := t.entries;
    if p[0] in m {
      MakeDirsFresh(m[p[0]], p[1..]);
    } else {
      MakeDirsEmpty(p[1..]);
    }
  }

  lemma {:induction false} MakeDirsEmpty(p: Path)
    ensures MakeDirs(Dir(map[]), p) == Some(Put(Dir(map[]), p, Dir(map[])))
    decreases |p|
  {
    if p != [] {
      MakeDirsEmpty(p[1..]);
    }
  }

  /** An existing directory is accepted and nothing changes. */
  lemma {:induction false} MakeDirsExisting(t: Node, p: Path)
    requires IsDirAt(t, p)
    ensures MakeDirs(t, p) == Some(t)
    decreases |p|
  {
    if p != [] {
      var m := t.entries;
      MakeDirsExisting(m[p[0]], p[1..]);
      assert m[p[0] := m[p[0]]] == m;
    }
  }

  /**
    One level below an existing node, creating a missing directory succeeds
    exactly when that node is a directory.
  */
  lemma {:induction false} MakeDirsChild(t: Node, p: Path, k: Name)
    requires Lookup(t, p).Some? && Lookup(t, p + [k]).None?
    ensures MakeDirs(t, p + [k]).Some? <==> IsDirAt(t, p)
    decreases |p|
  {
    if p == [] {
      assert [] + [k] == [k];
      assert ([k])[1..] == [];
    } else {
      assert (p + [k])[0] == p[0];
      assert (p + [k])[1..] == p[1..] + [k];
      MakeDirsChild(t.entries[p[0]], p[1..], k);
    }
  }

  // ---------------------------------------------------------------------
  // OnlyBelow

  lemma OnlyBelowTrans(t1: Node, t2: Node, t3: Node, p: Path)
    requires OnlyBelow(t1, t2, p) && OnlyBelow(t2, t3, p)
    ensures OnlyBelow(t1, t3, p)
  {
    if t2 != t1 && t3 != t2 {
      PutPut(t1, p, Lookup(t2, p).value, Lookup(t3, p).value);
    }
  }

  /** A change below `p + q` is a change below `p`. */
  lemma OnlyBelowWiden(t1: Node, t2: Node, p: Path, q: Path)
    requires OnlyBelow(t1, t2, p + q)
    ensures OnlyBelow(t1, t2, p)
  {
    if t2 != t1 {
      var n := Lookup(t2, p + q).value;
      PutAppend(t1, p, q, n);
      var sub := Put(NodeOrEmpty(t1, p), q, n);
      assert t2 == Put(t1, p, sub);
      assert Lookup(t2, p) == Some(sub);
    }
  }

  /** A change below an entry of a directory leaves a directory there. */
  lemma OnlyBelowKeepsDir(t1: Node, t2: Node, p: Path, k: Name)
    requires IsDirAt(t1, p) && OnlyBelow(t1, t2, p + [k])
    ensures IsDirAt(t2, p) && OnlyBelow(t1, t2, p)
  {
    if t2 != t1 {
      var n := Lookup(t2, p + [k]).value;
      PutAppend(t1, p, [k], n);
      var sub := Put(NodeOrEmpty(t1, p), [k], n);
      assert t2 == Put(t1, p, sub);
    }
  }

  /** Nothing off the line of `p` changes. */
  lemma OnlyBelowFrame(t1: Node, t2: Node, p: Path, q: Path)
    requires OnlyBelow(t1, t2, p) && Incomparable(p, q)
    ensures Lookup(t2, q) == Lookup(t1, q)
  {
    if t2 != t1 {
      LookupPutOther(t1, p, Lookup(t2, p).value, q);
    }
  }
}
