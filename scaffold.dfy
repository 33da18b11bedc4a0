/**
  The scaffolding pipeline of bin/create-next-prisma.js.  A `Host` holds
  the state the script works on: the file system, the working directory
  and the external commands run so far.  Its methods are the `fs`,
  `process` and `child_process` calls the script makes, each specified by
  the functions of FsTree; `CopyTemplate` is the recursive walk of lines
  36-57 and `Run` is the whole script, lines 11-95.
*/
module Scaffold {
  import opened Wrappers
  import opened FsTree
  import opened TemplateCopy
  import opened Manifest

  /** The two external commands (lines 77 and 80). */
  datatype Command = NpmInstall | PrismaGenerate

  /** A command together with the working directory it ran in. */
  datatype Invocation = Invocation(command: Command, dir: Path)

  const PackageJson: Name := "package.json"
  const BinDir: Name := "bin"

  /** `!projectName` is false: an argument was given and it is not the empty string. */
  predicate ValidName(arg: Option<string>)
  {
    arg.Some? && arg.value != ""
  }

  /**
    The project the file-system steps leave in a freshly created target
    directory: the template copied into it, its `bin` removed if there is
    one, and its manifest patched with the name; `None` when a step fails.
  */
  function Scaffolded(tmpl: Node, name: string): (r: Option<Node>)
    ensures r.Some? ==> r.value.Dir? && IsFileAt(r.value, [PackageJson])
  {
    match Copy(tmpl, Some(Dir(map[])))
    case None => None
    case Some(c) => PatchManifest(WithoutBin(c), name)
  }

  /** The copy once its `bin` entry, if any, is removed (lines 62-65). */
  function WithoutBin(c: Node): (r: Node)
    ensures Lookup(r, [BinDir]) == None
    ensures Lookup(c, [BinDir]).None? ==> r == c
  {
    if Lookup(c, [BinDir]).Some? then Remove(c, [BinDir]) else c
  }

  /**
    The project once its manifest is rewritten with the name put in for the
    placeholder (lines 68-71); `None` when there is no manifest file.
  */
  function PatchManifest(c: Node, name: string): (r: Option<Node>)
    ensures r.Some? <==> IsFileAt(c, [PackageJson])
    ensures r.Some? ==> r.value.Dir?
    ensures r.Some? ==>
              Lookup(r.value, [PackageJson]) == Some(File(Replace(Lookup(c, [PackageJson]).value.content, Token, name)))
  {
    match Lookup(c, [PackageJson])
    case Some(File(text)) => Some(Put(c, [PackageJson], File(Replace(text, Token, name))))
    case _ => None
  }

  /**
    Every file-system step succeeds: the name is usable, the target is
    absent and can be created, and the template scaffolds.
  */
  predicate Prepared(t: Node, arg: Option<string>, target: Path, template: Path)
  {
    ValidName(arg) && Lookup(t, target).None? && MakeDirs(t, target).Some? &&
    Lookup(t, template).Some? && Scaffolded(Lookup(t, template).value, arg.value).Some?
  }

  /** The commands run: none unless the files are ready, and `prisma generate` only after a successful install. */
  function Commands(prepared: bool, installOk: bool, dir: Path): (r: seq<Invocation>)
    ensures r != [] <==> prepared
    ensures |r| == 2 <==> prepared && installOk
    ensures forall i | 0 <= i < |r| :: r[i] == Invocation(if i == 0 then NpmInstall else PrismaGenerate, dir)
  {
    if !prepared then []
    else if installOk then [Invocation(NpmInstall, dir), Invocation(PrismaGenerate, dir)]
    else [Invocation(NpmInstall, dir)]
  }

  // ---------------------------------------------------------------------
  // The scaffolded project

  /** The copy into a fresh directory, the template being a directory, succeeds and has no `bin`. */
  lemma FreshCopy(tmpl: Node)
    requires tmpl.Dir?
    ensures Copy(tmpl, Some(Dir(map[]))).Some?
    ensures WithoutBin(Copy(tmpl, Some(Dir(map[]))).value) == Copy(tmpl, Some(Dir(map[]))).value
  {
    assert Skipped(BinDir);
    FreshCopyHasNoSkipped(tmpl, BinDir);
  }

  /**
    The bin removal of lines 62-65 never finds anything: the copy skipped
    every `bin`, so the project is the patched copy.
  */
  lemma BinRemovalIsNoOp(tmpl: Node, name: string)
    requires tmpl.Dir?
    ensures Scaffolded(tmpl, name) == PatchManifest(Copy(tmpl, Some(Dir(map[]))).value, name)
  {
    FreshCopy(tmpl);
  }

  /** The copy holds the template's manifest exactly when the template does. */
  lemma CopiedManifest(tmpl: Node)
    requires tmpl.Dir?
    ensures Copy(tmpl, Some(Dir(map[]))).Some?
    ensures IsFileAt(Copy(tmpl, Some(Dir(map[]))).value, [PackageJson]) <==> IsFileAt(tmpl, [PackageJson])
    ensures IsFileAt(tmpl, [PackageJson]) ==>
              Lookup(Copy(tmpl, Some(Dir(map[]))).value, [PackageJson]) == Lookup(tmpl, [PackageJson])
  {
    FreshCopy(tmpl);
    var d := Some(Dir(map[]));
    var p := [PackageJson];
    assert !CrossesSkipped(p) by { assert p[0] == PackageJson; }
    assert LookupIn(d, p) == None by { LookupEntry(map[], PackageJson); }
    if Lookup(tmpl, p).Some? {
      CopyKeepsEntries(tmpl, d, p);
    } else {
      CopyLeavesOthers(tmpl, d, p);
    }
  }

  /**
    A template directory scaffolds exactly when it holds a `package.json`
    file: `readFileSync` throws on a missing manifest or a directory.
  */
  lemma ScaffoldedNeedsManifest(tmpl: Node, name: string)
    requires tmpl.Dir?
    ensures Scaffolded(tmpl, name).Some? <==> IsFileAt(tmpl, [PackageJson])
  {
    BinRemovalIsNoOp(tmpl, name);
    CopiedManifest(tmpl);
  }

  /** The manifest of the project is the template's with the name put in for the placeholder. */
  lemma ScaffoldedPatchesManifest(tmpl: Node, name: string)
    requires tmpl.Dir? && Scaffolded(tmpl, name).Some?
    ensures IsFileAt(tmpl, [PackageJson])
    ensures Lookup(Scaffolded(tmpl, name).value, [PackageJson]) ==
            Some(File(Replace(Lookup(tmpl, [PackageJson]).value.content, Token, name)))
  {
    BinRemovalIsNoOp(tmpl, name);
    CopiedManifest(tmpl);
  }

  /** Writing the manifest leaves every other path alone. */
  lemma PutManifestOther(c: Node, n: Node, p: Path)
    requires n.File? && p != [] && p != [PackageJson]
    ensures Lookup(Put(c, [PackageJson], n), p) == if p[0] == PackageJson then None else Lookup(c, p)
  {
    if p[0] == PackageJson {
      assert p == [PackageJson] + p[1..] && p[1..] != [];
      LookupPutBelow(c, [PackageJson], n, p[1..]);
      LookupAppend(c, [PackageJson], p[1..]);
    } else {
      assert Incomparable([PackageJson], p) by { assert p[0] != [PackageJson][0]; }
      LookupPutOther(c, [PackageJson], n, p);
    }
  }

  /**
    Nothing under `node_modules`, `.git` or `bin` reaches the project, at
    any depth.
  */
  lemma ScaffoldedDropsSkipped(tmpl: Node, name: string, p: Path)
    requires tmpl.Dir? && Scaffolded(tmpl, name).Some? && CrossesSkipped(p)
    ensures Lookup(Scaffolded(tmpl, name).value, p) == None
  {
    BinRemovalIsNoOp(tmpl, name);
    CopiedManifest(tmpl);
    var c := Copy(tmpl, Some(Dir(map[]))).value;
    CopySkipsExcluded(tmpl, Some(Dir(map[])), p);
    assert p != [] && Lookup(Dir(map[]), p) == None;
    assert p != [PackageJson];
    PutManifestOther(c, File(Replace(Lookup(c, [PackageJson]).value.content, Token, name)), p);
  }

  /**
    Every file of the template on a path crossing no skipped name is in the
    project with the same contents, the manifest aside.
  */
  lemma ScaffoldedKeepsFiles(tmpl: Node, name: string, p: Path)
    requires tmpl.Dir? && Scaffolded(tmpl, name).Some?
    requires !CrossesSkipped(p) && IsFileAt(tmpl, p) && p != [PackageJson]
    ensures Lookup(Scaffolded(tmpl, name).value, p) == Lookup(tmpl, p)
  {
    BinRemovalIsNoOp(tmpl, name);
    CopiedManifest(tmpl);
    var c := Copy(tmpl, Some(Dir(map[]))).value;
    CopyKeepsEntries(tmpl, Some(Dir(map[])), p);
    var n := File(Replace(Lookup(c, [PackageJson]).value.content, Token, name));
    PutManifestOther(c, n, p);
  }

  /** The project holds nothing that the template does not. */
  lemma ScaffoldedAddsNothing(tmpl: Node, name: string, p: Path)
    requires tmpl.Dir? && Scaffolded(tmpl, name).Some? && Lookup(tmpl, p).None?
    ensures Lookup(Scaffolded(tmpl, name).value, p).None?
  {
    BinRemovalIsNoOp(tmpl, name);
    CopiedManifest(tmpl);
    var c := Copy(tmpl, Some(Dir(map[]))).value;
    CopyLeavesOthers(tmpl, Some(Dir(map[])), p);
    assert p != [] && Lookup(Dir(map[]), p) == None;
    PutManifestOther(c, File(Replace(Lookup(c, [PackageJson]).value.content, Token, name)), p);
  }

  class Host {
    /** The whole file system. */
    var root: Node
    /** The working directory of the process. */
    var cwd: Path
    /** The external commands run so far, oldest first. */
    var invoked: seq<Invocation>

    constructor (t: Node, dir: Path)
      ensures root == t && cwd == dir && invoked == []
    {
      root := t;
      cwd := dir;
      invoked := [];
    }

    // -------------------------------------------------------------------
    // The system calls

    /** `fs.existsSync(p)`. */
    method Exists(p: Path) returns (b: bool)
      ensures b <==> Lookup(root, p).Some?
    {
      b := Lookup(root, p).Some?;
    }

    /** `fs.statSync(p).isDirectory()`; `None` where `statSync` throws. */
    method Stat(p: Path) returns (isDir: Option<bool>)
      ensures isDir.Some? <==> Lookup(root, p).Some?
      ensures isDir.Some? ==> (isDir.value <==> IsDirAt(root, p))
    {
      var n := Lookup(root, p);
      isDir := if n.Some? then Some(n.value.Dir?) else None;
    }

    /** `fs.mkdirSync(p, { recursive: true })`; `false` where it throws. */
    method Mkdir(p: Path) returns (ok: bool)
      modifies this
      ensures ok <==> NoFileAlong(old(root), p)
      ensures ok ==> root == MakeDirs(old(root), p).value && IsDirAt(root, p)
      ensures !ok ==> root == old(root)
      ensures cwd == old(cwd) && invoked == old(invoked)
    {
      var r := MakeDirs(root, p);
      ok := r.Some?;
      if ok {
        root := r.value;
      }
    }

    /** `fs.readdirSync(p)` as the set of entry names; `None` where it throws. */
    method ReadDir(p: Path) returns (names: Option<set<Name>>)
      ensures names.Some? <==> IsDirAt(root, p)
      ensures names.Some? ==> names.value == Lookup(root, p).value.entries.Keys
    {
      var n := Lookup(root, p);
      names := if n.Some? && n.value.Dir? then Some(n.value.entries.Keys) else None;
    }

    /**
      `fs.copyFileSync(src, dest)`: the source must be a file, the
      destination's parent a directory and the destination not a directory;
      a file already there is overwritten.
    */
    method CopyFile(src: Path, dest: Path) returns (ok: bool)
      modifies this
      ensures ok <==> IsFileAt(old(root), src) && dest != [] &&
                      IsDirAt(old(root), Parent(dest)) && !IsDirAt(old(root), dest)
      ensures ok ==> root == Put(old(root), dest, Lookup(old(root), src).value)
      ensures !ok ==> root == old(root)
      ensures cwd == old(cwd) && invoked == old(invoked)
    {
      ok := IsFileAt(root, src) && dest != [] && IsDirAt(root, Parent(dest)) && !IsDirAt(root, dest);
      if ok {
        root := Put(root, dest, Lookup(root, src).value);
      }
    }

    /** `fs.rmSync(p, { recursive: true, force: true })`: a missing entry is no error. */
    method RemoveTree(p: Path)
      requires p != []
      modifies this
      ensures root == Remove(old(root), p)
      ensures cwd == old(cwd) && invoked == old(invoked)
    {
      root := Remove(root, p);
    }

    /** `fs.readFileSync(p, 'utf8')`; `None` where it throws. */
    method ReadFile(p: Path) returns (text: Option<Content>)
      ensures text.Some? <==> IsFileAt(root, p)
      ensures text.Some? ==> Lookup(root, p) == Some(File(text.value))
    {
      var n := Lookup(root, p);
      text := if n.Some? && n.value.File? then Some(n.value.content) else None;
    }

    /** `fs.writeFileSync(p, text)`: creates or truncates the file at `p`. */
    method WriteFile(p: Path, text: Content) returns (ok: bool)
      modifies this
      ensures ok <==> p != [] && IsDirAt(old(root), Parent(p)) && !IsDirAt(old(root), p)
      ensures ok ==> root == Put(old(root), p, File(text))
      ensures !ok ==> root == old(root)
      ensures cwd == old(cwd) && invoked == old(invoked)
    {
      ok := p != [] && IsDirAt(root, Parent(p)) && !IsDirAt(root, p);
      if ok {
        root := Put(root, p, File(text));
      }
    }

    /** `process.chdir(p)`. */
    method Chdir(p: Path) returns (ok: bool)
      modifies this
      ensures ok <==> IsDirAt(root, p)
      ensures cwd == if ok then p else old(cwd)
      ensures root == old(root) && invoked == old(invoked)
    {
      ok := IsDirAt(root, p);
      if ok {
        cwd := p;
      }
    }

    /**
      `execSync(command, { stdio: 'inherit' })` in the working directory;
      whether the command exits with status 0 is given.
    */
    method Exec(c: Command, succeeds: bool) returns (ok: bool)
      modifies this
      ensures ok == succeeds
      ensures invoked == old(invoked) + [Invocation(c, cwd)]
      ensures root == old(root) && cwd == old(cwd)
    {
      invoked := invoked + [Invocation(c, cwd)];
      ok := succeeds;
    }

    // -------------------------------------------------------------------
    // copyTemplate

    /**
      `copyTemplate(src, dest)`: copies the tree at `src` (which is `s`) to
      `dest`, returning `false` where one of the calls throws.  It succeeds
      exactly when the destination's parent is a directory and `Copy` does,
      and then leaves `Copy`'s result at `dest`.  Success or not, nothing
      off `dest`'s line changes and `dest` stays a directory if it was one;
      when the parent is no directory the first call throws and nothing
      changes at all.
    */
    method CopyTemplate(src: Path, dest: Path, ghost s: Node) returns (ok: bool)
      requires Lookup(root, src) == Some(s)
      requires Incomparable(src, dest) && dest != []
      requires Lookup(root, Parent(dest)).Some?
      modifies this
      ensures Lookup(root, src) == Some(s)
      ensures OnlyBelow(old(root), root, dest)
      ensures ok <==> IsDirAt(old(root), Parent(dest)) && Copy(s, old(Lookup(root, dest))).Some?
      ensures ok ==> root == Put(old(root), dest, Copy(s, old(Lookup(root, dest))).value)
      ensures old(IsDirAt(root, dest)) ==> IsDirAt(root, dest)
      ensures !IsDirAt(old(root), Parent(dest)) ==> root == old(root)
      ensures cwd == old(cwd) && invoked == old(invoked)
      decreases s, 2
    {
      ghost var t, d := root, Lookup(root, dest);
      ghost var up, last := Parent(dest), dest[|dest| - 1];
      assert dest == up + [last];
      var st := Stat(src);
      if st == Some(true) {
        var here := Exists(dest);
        if here {
          ParentOfEntryIsDir(t, up, last);
          ok := CopyChildren(src, dest, s);
        } else {
          MakeDirsChild(t, up, last);
          var made := Mkdir(dest);
          if !made {
            return false;
          }
          MakeDirsFresh(t, dest);
          LookupPutOther(t, dest, Dir(map[]), src);
          ghost var t1 := root;
          assert Copy(s, Some(Dir(map[]))) == Copy(s, None);
          ok := CopyChildren(src, dest, s);
          OnlyBelowTrans(t, t1, root, dest);
          if ok {
            PutPut(t, dest, Dir(map[]), Copy(s, None).value);
          }
        }
      } else {
        ok := CopyFile(src, dest);
        LookupPutOther(t, dest, s, src);
      }
    }

    /**
      The loop over the entries of the source directory `s` (lines 44-53),
      into the node already at `dest`: each entry is visited in turn,
      stopping at the first visit that fails.  It succeeds exactly when
      `Copy` of `s` onto that node does, and then leaves `Copy`'s result at
      `dest`.
    */
    method CopyChildren(src: Path, dest: Path, ghost s: Node) returns (ok: bool)
      requires s.Dir? && Lookup(root, src) == Some(s)
      requires Incomparable(src, dest) && Lookup(root, dest).Some?
      modifies this
      ensures Lookup(root, src) == Some(s)
      ensures OnlyBelow(old(root), root, dest)
      ensures ok <==> Copy(s, old(Lookup(root, dest))).Some?
      ensures ok ==> root == Put(old(root), dest, Copy(s, old(Lookup(root, dest))).value)
      ensures old(IsDirAt(root, dest)) ==> IsDirAt(root, dest)
      ensures cwd == old(cwd) && invoked == old(invoked)
      decreases s, 1
    {
      ghost var t, d := root, Lookup(root, dest).value;
      ghost var m := s.entries;
      ghost var cur := d;
      PutSame(t, dest);
      CopyEntriesNone(m, d);
      var names := ReadDir(src);
      var todo := if names.Some? then names.value else {};
      assert m.Keys - todo == {};
      while todo != {}
        invariant todo <= m.Keys
        invariant Lookup(root, src) == Some(s)
        invariant cwd == old(cwd) && invoked == old(invoked)
        invariant CopyEntries(m, d, m.Keys - todo) == Some(cur)
        invariant root == Put(t, dest, cur)
        decreases |todo|
      {
        var name :| name in todo;
        ghost var done := m.Keys - todo;
        CopyEntriesStep(m, d, done, name);
        LookupPutBelow(t, dest, cur, [name]);
        ghost var before := root;
        var visited := VisitEntry(src, dest, s, name);
        OnlyBelowTrans(t, before, root, dest);
        if !visited {
          return false;
        }
        if !Skipped(name) {
          ghost var c := Copy(m[name], Lookup(cur, [name])).value;
          PutChild(t, dest, cur.entries, name, c);
          cur := Dir(cur.entries[name := c]);
        }
        assert m.Keys - (todo - {name}) == done + {name};
        todo := todo - {name};
      }
      assert m.Keys - todo == m.Keys;
      CopyEntriesAll(m, d);
      ok := true;
    }

    /**
      The body of the `forEach` callback (lines 45-53) for the entry `name`
      of the source directory `s`: a skipped name is passed over, any other
      entry is copied with `CopyTemplate` to the same name under `dest`.
    */
    method VisitEntry(src: Path, dest: Path, ghost s: Node, name: Name) returns (ok: bool)
      requires s.Dir? && name in s.entries && Lookup(root, src) == Some(s)
      requires Incomparable(src, dest) && Lookup(root, dest).Some?
      modifies this
      ensures Lookup(root, src) == Some(s)
      ensures OnlyBelow(old(root), root, dest)
      ensures old(IsDirAt(root, dest)) ==> IsDirAt(root, dest)
      ensures Skipped(name) ==> ok && root == old(root)
      ensures !Skipped(name) ==>
                (ok <==> old(IsDirAt(root, dest)) &&
                         Copy(s.entries[name], old(Lookup(root, dest + [name]))).Some?)
      ensures !Skipped(name) && ok ==>
                root == Put(old(root), dest + [name], Copy(s.entries[name], old(Lookup(root, dest + [name]))).value)
      ensures cwd == old(cwd) && invoked == old(invoked)
      decreases s, 0
    {
      if Skipped(name) {
        return true;
      }
      ghost var before := root;
      LookupChild(before, src, name);
      IncomparableChildren(src, dest, name, name);
      assert Parent(dest + [name]) == dest;
      ok := CopyTemplate(src + [name], dest + [name], s.entries[name]);
      IncomparableChild(src, dest, name);
      OnlyBelowFrame(before, root, dest + [name], src);
      OnlyBelowWiden(before, root, dest, [name]);
      if IsDirAt(before, dest) {
        OnlyBelowKeepsDir(before, root, dest, name);
      }
    }

    // -------------------------------------------------------------------
    // The script

    /**
      The file-system steps of the script (lines 31-71) for an absent
      target: create it, copy the template into it, remove its `bin`, patch
      its manifest.  They succeed exactly when `mkdir` can create the target
      and the template scaffolds, and then leave the scaffolded project
      there; otherwise they stop at the failing step and leave what was done.
    */
    method CreateProject(name: string, target: Path, template: Path) returns (ok: bool)
      requires IsDirAt(root, template) && !(template <= target)
      requires Lookup(root, target).None?
      modifies this
      ensures ok <==> MakeDirs(old(root), target).Some? &&
                      Scaffolded(old(Lookup(root, template)).value, name).Some?
      ensures ok ==> root == Put(old(root), target, Scaffolded(old(Lookup(root, template)).value, name).value)
      ensures OnlyBelow(old(root), root, target)
      ensures Lookup(root, template) == old(Lookup(root, template))
      ensures MakeDirs(old(root), target).Some? ==> IsDirAt(root, target)
      // a failed mkdir changes nothing; a missing manifest leaves the copy without `bin`
      ensures MakeDirs(old(root), target).None? ==> root == old(root)
      ensures MakeDirs(old(root), target).Some? && Copy(old(Lookup(root, template)).value, Some(Dir(map[]))).Some? ==>
                root == Put(old(root), target,
                            if ok then Scaffolded(old(Lookup(root, template)).value, name).value
                            else WithoutBin(Copy(old(Lookup(root, template)).value, Some(Dir(map[]))).value))
      ensures cwd == old(cwd) && invoked == old(invoked)
    {
      ghost var t := root;
      ghost var tmpl := Lookup(t, template).value;
      // an absent target is neither the root nor on the way to the template
      assert target != [];
      assert !(target <= template) by {
        if target <= template {
          PrefixExists(t, target, template);
        }
      }
      var made := Mkdir(target);
      if !made {
        return false;
      }
      MakeDirsFresh(t, target);
      ghost var t1 := root;
      LookupPutOther(t, target, Dir(map[]), template);
      assert target == Parent(target) + [target[|target| - 1]];
      ParentOfEntryIsDir(t1, Parent(target), target[|target| - 1]);
      var copied := CopyTemplate(template, target, tmpl);
      OnlyBelowTrans(t, t1, root, target);
      OnlyBelowFrame(t, root, target, template);
      if !copied {
        return false;
      }
      ghost var c := Copy(tmpl, Some(Dir(map[]))).value;
      PutPut(t, target, Dir(map[]), c);
      ok := RemoveBinAndPatch(name, target, t, c);
      OnlyBelowFrame(t, root, target, template);
    }

    /** Lines 61-71, once the copy `c` stands at the target of `t0`. */
    method RemoveBinAndPatch(name: string, target: Path, ghost t0: Node, ghost c: Node) returns (ok: bool)
      requires target != [] && c.Dir? && root == Put(t0, target, c)
      modifies this
      ensures ok <==> PatchManifest(WithoutBin(c), name).Some?
      ensures ok ==> root == Put(t0, target, PatchManifest(WithoutBin(c), name).value)
      ensures !ok ==> root == Put(t0, target, WithoutBin(c))
      ensures cwd == old(cwd) && invoked == old(invoked)
    {
      var binDir := target + [BinDir];
      LookupPutBelow(t0, target, c, [BinDir]);
      var hasBin := Exists(binDir);
      if hasBin {
        RemoveTree(binDir);
        RemovePut(t0, target, c, [BinDir]);
      }
      ghost var c' := WithoutBin(c);
      var manifestPath := target + [PackageJson];
      LookupPutBelow(t0, target, c', [PackageJson]);
      var text := ReadFile(manifestPath);
      if text.None? {
        return false;
      }
      var patched := Replace(text.value, Token, name);
      assert Parent(manifestPath) == target;
      ok := WriteFile(manifestPath, patched);
      PutChild(t0, target, c'.entries, PackageJson, File(patched));
      assert Put(c', [PackageJson], File(patched)) == Dir(c'.entries[PackageJson := File(patched)]);
    }

    /**
      The script with `arg` as `process.argv[2]`, `target` as the resolved
      project directory and `template` as the package's own directory; the
      outcomes of the two external commands are given.  The status is the
      process's exit status.
    */
    method Run(arg: Option<string>, target: Path, template: Path, installOk: bool, generateOk: bool)
      returns (exit: int)
      requires IsDirAt(root, template) && !(template <= target)
      modifies this
      ensures exit == 0 || exit == 1
      // the two checks before anything is written
      ensures !ValidName(arg) || old(Lookup(root, target)).Some? ==>
                exit == 1 && root == old(root) && cwd == old(cwd) && invoked == old(invoked)
      // no rollback: nothing but the target changes, and once created it stays
      ensures OnlyBelow(old(root), root, target)
      ensures Lookup(root, template) == old(Lookup(root, template))
      ensures ValidName(arg) && old(Lookup(root, target)).None? && MakeDirs(old(root), target).Some? ==>
                IsDirAt(root, target)
      // what a failure after the checks leaves: nothing when mkdir fails, else the copy without `bin`
      ensures ValidName(arg) && old(Lookup(root, target)).None? && MakeDirs(old(root), target).None? ==>
                root == old(root)
      ensures ValidName(arg) && old(Lookup(root, target)).None? && MakeDirs(old(root), target).Some? &&
              Copy(old(Lookup(root, template)).value, Some(Dir(map[]))).Some? ==>
                root == Put(old(root), target,
                            if old(Prepared(root, arg, target, template))
                            then Scaffolded(old(Lookup(root, template)).value, arg.value).value
                            else WithoutBin(Copy(old(Lookup(root, template)).value, Some(Dir(map[]))).value))
      // success
      ensures exit == 0 <==> old(Prepared(root, arg, target, template)) && installOk && generateOk
      ensures old(Prepared(root, arg, target, template)) ==>
                root == Put(old(root), target, Scaffolded(old(Lookup(root, template)).value, arg.value).value)
      ensures cwd == if old(Prepared(root, arg, target, template)) then target else old(cwd)
      ensures invoked == old(invoked) + Commands(old(Prepared(root, arg, target, template)), installOk, target)
    {
      if arg.None? || arg.value == "" {
        return 1;
      }
      var taken := Exists(target);
      if taken {
        return 1;
      }
      var created := CreateProject(arg.value, target, template);
      if !created {
        return 1;
      }
      var entered := Chdir(target);
      if !entered {
        return 1;
      }
      var installed := Exec(NpmInstall, installOk);
      if !installed {
        return 1;
      }
      var generated := Exec(PrismaGenerate, generateOk);
      if !generated {
        return 1;
      }
      return 0;
    }
  }
}
