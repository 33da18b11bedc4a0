/**
  What `copyTemplate(src, dest)` computes (bin/create-next-prisma.js:36-57),
  stated on values: the node found at the source and the node, if any,
  already at the destination give the node left at the destination, or
  `None` when one of the underlying file-system calls fails.

  A directory is merged into an existing directory (or created), each child
  is copied in turn unless its name is one of the three skipped names, and a
  file overwrites a file.  A directory meeting a file, or a file meeting a
  directory, is where the walk fails.
*/
module TemplateCopy {
  import opened Wrappers
  import opened FsTree

  /** The child names the walk never descends into, at any depth (line 50). */
  function Skipped(name: Name): (r: bool)
    ensures name == "package.json" ==> !r
  {
    name == "node_modules" || name == ".git" || name == "bin"
  }

  /** Some entry name along `p` is one of the skipped names. */
  predicate CrossesSkipped(p: Path)
  {
    exists i | 0 <= i < |p| :: Skipped(p[i])
  }

  /** The node at `dest` after copying `s` there, `dest` having held `d`. */
  function Copy(s: Node, d: Option<Node>): (r: Option<Node>)
    ensures d.None? ==> r.Some?
    decreases s, 1
  {
    match s
    case File(_) =>
      // copyFileSync overwrites a file and refuses a directory
      if d.Some? && d.value.Dir? then None else Some(s)
    case Dir(m) =>
      if d.Some? && d.value.File? then
        // no mkdir (the path exists); every kept child then fails below a file
        if forall k | k in m :: Skipped(k) then d else None
      else
        var base := if d.Some? then d.value.entries else map[];
        match MergeChildren(m, base, m.Keys)
        case None => None
        case Some(e) => Some(Dir(e))
  }

  /**
    The entries of the destination directory, first holding `base`, once
    the children of the source directory named in `ks` have been visited;
    `None` if copying one of the kept ones fails.
  */
  function MergeChildren(m: map<Name, Node>, base: map<Name, Node>, ks: set<Name>)
    : (r: Option<map<Name, Node>>)
    requires ks <= m.Keys
    ensures base == map[] ==> r.Some?
    ensures r.Some? ==> base.Keys <= r.value.Keys
    decreases Dir(m), 0
  {
    if forall k | k in ks && !Skipped(k) :: Copy(m[k], Get(base, k)).Some? then
      Some(map k | k in base.Keys + ks && (k in base || !Skipped(k)) ::
             if k in ks && !Skipped(k) then Copy(m[k], Get(base, k)).value else base[k])
    else
      None
  }

  /**
    The node at the destination, which first held `d`, once the entries
    `ks` of the source directory `m` have been visited one by one; `None`
    once a visit has failed.
  */
  function CopyEntries(m: map<Name, Node>, d: Node, ks: set<Name>): (r: Option<Node>)
    requires ks <= m.Keys
    ensures r.Some? ==> (r.value.Dir? <==> d.Dir?)
  {
    if d.File? then
      if forall k | k in ks :: Skipped(k) then Some(d) else None
    else
      match MergeChildren(m, d.entries, ks)
      case None => None
      case Some(e) => Some(Dir(e))
  }

  /** A file meets a directory, or a directory with something to copy meets a file. */
  predicate Clash(a: Option<Node>, b: Option<Node>)
  {
    a.Some? && b.Some? &&
    ((a.value.File? && b.value.Dir?) ||
     (a.value.Dir? && b.value.File? && exists k | k in a.value.entries :: !Skipped(k)))
  }

  // ---------------------------------------------------------------------
  // The walk, one child at a time

  lemma MergeNothing(m: map<Name, Node>, base: map<Name, Node>)
    ensures MergeChildren(m, base, {}) == Some(base)
  {
    var r := MergeChildren(m, base, {});
    assert r.value == base;
  }

  /** Visiting one more child: a skipped one changes nothing, a kept one adds its copy. */
  lemma MergeStep(m: map<Name, Node>, base: map<Name, Node>, ks: set<Name>, k: Name)
    requires ks <= m.Keys && k in m && k !in ks
    requires MergeChildren(m, base, ks).Some?
    ensures Get(MergeChildren(m, base, ks).value, k) == Get(base, k)
    ensures Skipped(k) ==> MergeChildren(m, base, ks + {k}) == MergeChildren(m, base, ks)
    ensures !Skipped(k) ==>
      match Copy(m[k], Get(base, k))
      case None => MergeChildren(m, base, m.Keys).None?
      case Some(c) =>
        MergeChildren(m, base, ks + {k}) == Some(MergeChildren(m, base, ks).value[k := c])
  {
    var e := MergeChildren(m, base, ks).value;
    var ks' := ks + {k};
    if Skipped(k) {
      assert forall j | j in ks' && !Skipped(j) :: j in ks;
      assert MergeChildren(m, base, ks').value == e;
    } else if Copy(m[k], Get(base, k)).Some? {
      var c := Copy(m[k], Get(base, k)).value;
      assert MergeChildren(m, base, ks').Some?;
      assert MergeChildren(m, base, ks').value == e[k := c];
    }
  }

  /** Before any visit the destination holds what it held. */
  lemma CopyEntriesNone(m: map<Name, Node>, d: Node)
    ensures CopyEntries(m, d, {}) == Some(d)
  {
    if d.Dir? {
      MergeNothing(m, d.entries);
    }
  }

  /** Once every entry is visited, the destination holds the copy. */
  lemma CopyEntriesAll(m: map<Name, Node>, d: Node)
    ensures CopyEntries(m, d, m.Keys) == Copy(Dir(m), Some(d))
  {
  }

  /**
    Visiting one more entry: a skipped one changes nothing; a kept one fails
    when the destination is a file or the entry's own copy fails, and then
    the whole copy fails; otherwise the entry's copy is added.
  */
  lemma CopyEntriesStep(m: map<Name, Node>, d: Node, ks: set<Name>, k: Name)
    requires ks <= m.Keys && k in m && k !in ks && CopyEntries(m, d, ks).Some?
    ensures Skipped(k) ==> CopyEntries(m, d, ks + {k}) == CopyEntries(m, d, ks)
    ensures !Skipped(k) ==>
      var cur := CopyEntries(m, d, ks).value;
      var x := Lookup(cur, [k]);
      if cur.Dir? && Copy(m[k], x).Some? then
        CopyEntries(m, d, ks + {k}) == Some(Dir(cur.entries[k := Copy(m[k], x).value]))
      else
        Copy(Dir(m), Some(d)).None?
  {
    var cur := CopyEntries(m, d, ks).value;
    if d.File? {
      if Skipped(k) {
        assert forall j | j in ks + {k} :: j in ks || j == k;
      }
    } else {
      LookupEntry(cur.entries, k);
      MergeStep(m, d.entries, ks, k);
    }
  }

  // ---------------------------------------------------------------------
  // Properties of the copy

  /**
    Nothing lying under a skipped name is copied, at any depth: wherever a
    path crosses a skipped name the destination keeps what it had.
  */
  lemma {:induction false} CopySkipsExcluded(s: Node, d: Option<Node>, p: Path)
    requires Copy(s, d).Some? && CrossesSkipped(p)
    ensures Lookup(Copy(s, d).value, p) == LookupIn(d, p)
    decreases s
  {
    var r := Copy(s, d).value;
    match s
    case File(_) =>
    case Dir(m) =>
      if !(d.Some? && d.value.File?) {
        var base := if d.Some? then d.value.entries else map[];
        var e := MergeChildren(m, base, m.Keys).value;
        var k := p[0];
        assert LookupIn(d, p) == LookupIn(Get(base, k), p[1..]);
        if k in m && !Skipped(k) {
          assert CrossesSkipped(p[1..]) by {
            var i :| 0 <= i < |p| && Skipped(p[i]);
            assert i > 0 && p[1..][i - 1] == p[i];
          }
          assert e[k] == Copy(m[k], Get(base, k)).value;
          CopySkipsExcluded(m[k], Get(base, k), p[1..]);
        }
      }
  }

  /**
    Every source entry whose path crosses no skipped name reaches the same
    path in the destination; a file with identical contents, and a directory
    as a directory unless a file was already there.
  */
  lemma {:induction false} CopyKeepsEntries(s: Node, d: Option<Node>, p: Path)
    requires Copy(s, d).Some? && !CrossesSkipped(p) && Lookup(s, p).Some?
    ensures Lookup(Copy(s, d).value, p).Some?
    ensures Lookup(s, p).value.File? ==> Lookup(Copy(s, d).value, p) == Lookup(s, p)
    ensures Lookup(s, p).value.Dir? && !(LookupIn(d, p).Some? && LookupIn(d, p).value.File?)
            ==> Lookup(Copy(s, d).value, p).value.Dir?
    decreases s
  {
    if p != [] {
      var m := s.entries;
      var k := p[0];
      assert !Skipped(k) by { assert p[0] == p[0 + 0]; }
      assert !CrossesSkipped(p[1..]) by {
        forall i | 0 <= i < |p[1..]| ensures !Skipped(p[1..][i]) {
          assert p[1..][i] == p[i + 1];
        }
      }
      // the kept child `k` rules out a file at the destination
      assert k in m && !(d.Some? && d.value.File?);
      var base := if d.Some? then d.value.entries else map[];
      var e := MergeChildren(m, base, m.Keys).value;
      assert e[k] == Copy(m[k], Get(base, k)).value;
      assert LookupIn(d, p) == LookupIn(Get(base, k), p[1..]);
      CopyKeepsEntries(m[k], Get(base, k), p[1..]);
    }
  }

  /** Entries of the destination that the source has no counterpart for are left untouched. */
  lemma {:induction false} CopyLeavesOthers(s: Node, d: Option<Node>, p: Path)
    requires Copy(s, d).Some? && Lookup(s, p).None?
    ensures Lookup(Copy(s, d).value, p) == LookupIn(d, p)
    decreases s
  {
    match s
    case File(_) =>
    case Dir(m) =>
      if !(d.Some? && d.value.File?) {
        var base := if d.Some? then d.value.entries else map[];
        var e := MergeChildren(m, base, m.Keys).value;
        var k := p[0];
        assert LookupIn(d, p) == LookupIn(Get(base, k), p[1..]);
        if k in m && !Skipped(k) {
          assert e[k] == Copy(m[k], Get(base, k)).value;
          CopyLeavesOthers(m[k], Get(base, k), p[1..]);
        }
      }
  }

  /**
    Copying the same tree again onto its own copy succeeds and changes
    nothing: existing directories are merged and files overwritten in place.
  */
  lemma {:induction false} CopyIdempotent(s: Node, d: Option<Node>)
    requires Copy(s, d).Some?
    ensures Copy(s, Copy(s, d)) == Copy(s, d)
    decreases s
  {
    match s
    case File(_) =>
    case Dir(m) =>
      if !(d.Some? && d.value.File?) {
        var base := if d.Some? then d.value.entries else map[];
        var e := MergeChildren(m, base, m.Keys).value;
        forall k | k in m && !Skipped(k)
          ensures Copy(m[k], Get(e, k)) == Some(e[k])
        {
          assert e[k] == Copy(m[k], Get(base, k)).value;
          CopyIdempotent(m[k], Get(base, k));
        }
        var e' := MergeChildren(m, e, m.Keys).value;
        assert e' == e;
      }
  }

  /**
    The copy fails exactly when, at some path crossing no skipped name, a
    source file meets a destination directory or a source directory with
    something to copy meets a destination file.  Merging into an existing
    directory is otherwise never an error.
  */
  lemma {:induction false} CopyFailsOnlyOnClash(s: Node, d: Option<Node>)
    ensures Copy(s, d).None? <==>
            exists p :: !CrossesSkipped(p) && Clash(Lookup(s, p), LookupIn(d, p))
    decreases s
  {
    if Copy(s, d).None? {
      var p := ClashWitness(s, d);
    } else {
      forall p | !CrossesSkipped(p) ensures !Clash(Lookup(s, p), LookupIn(d, p)) {
        NoClashOnSuccess(s, d, p);
      }
    }
  }

  lemma {:induction false} ClashWitness(s: Node, d: Option<Node>) returns (p: Path)
    requires Copy(s, d).None?
    ensures !CrossesSkipped(p) && Clash(Lookup(s, p), LookupIn(d, p))
    decreases s
  {
    match s
    case File(_) =>
      p := [];
    case Dir(m) =>
      if d.Some? && d.value.File? {
        p := [];
      } else {
        var base := if d.Some? then d.value.entries else map[];
        var k :| k in m && !Skipped(k) && Copy(m[k], Get(base, k)).None?;
        var q := ClashWitness(m[k], Get(base, k));
        p := [k] + q;
        assert p[1..] == q;
        assert Lookup(s, p) == Lookup(m[k], q);
        assert LookupIn(d, p) == LookupIn(Get(base, k), q);
        forall i | 0 <= i < |p| ensures !Skipped(p[i]) {
          if i > 0 { assert p[i] == q[i - 1]; }
        }
      }
  }

  lemma {:induction false} NoClashOnSuccess(s: Node, d: Option<Node>, p: Path)
    requires Copy(s, d).Some? && !CrossesSkipped(p)
    ensures !Clash(Lookup(s, p), LookupIn(d, p))
    decreases s
  {
    if p != [] && s.Dir? && Lookup(s, p).Some? && LookupIn(d, p).Some? {
      var m := s.entries;
      var k := p[0];
      assert !Skipped(k) by { assert p[0] == p[0 + 0]; }
      assert !CrossesSkipped(p[1..]) by {
        forall i | 0 <= i < |p[1..]| ensures !Skipped(p[1..][i]) {
          assert p[1..][i] == p[i + 1];
        }
      }
      var base := d.value.entries;
      assert Copy(m[k], Get(base, k)).Some?;
      NoClashOnSuccess(m[k], Get(base, k), p[1..]);
    }
  }

  /** A copy into a directory just created has no entry named by a skipped name. */
  lemma FreshCopyHasNoSkipped(s: Node, name: Name)
    requires Skipped(name) && Copy(s, Some(Dir(map[]))).Some?
    ensures Lookup(Copy(s, Some(Dir(map[]))).value, [name]) == None
  {
    assert [name][0] == name;
    CopySkipsExcluded(s, Some(Dir(map[])), [name]);
  }
}
