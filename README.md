# create-next-prisma, modelled in Dafny

`create-next-prisma <name>` scaffolds a Next.js + Prisma project. It works in these steps:

1. It rejects a missing or empty name and an existing target.
2. It creates the target directory and copies its own package directory (the template) into it. Entries named `node_modules`, `.git` and `bin` are skipped at every depth.
3. It removes `bin` from the copy if one is there.
4. It replaces the first `{{project-name}}` in the copied `package.json` with the name.
5. It changes into the target and runs `npm install`, then `npx prisma generate`.
6. If any step after the preflight checks throws, it exits with status 1 and leaves what was done.

The model has five modules:

- `Wrappers` (wrappers.dfy) defines `Option`.
- `FsTree` (fs_tree.dfy) is an abstract file system.
  - A `Node` is a file with contents or a directory mapping names to nodes. A `Path` is a sequence of names.
  - `Lookup`, `Put`, `Remove` and `MakeDirs` give the meaning of the calls the script makes.
  - `OnlyBelow(t1, t2, p)` says that `t2` is `t1`, or `t1` with the node at `p` replaced. `Put` creates missing directories on the way to `p` and would turn a file on the way into a directory, so what `OnlyBelowFrame` guarantees is that nothing off `p`'s line changes: every path that is neither on the way to `p` nor below it.
- `TemplateCopy` (template_copy.dfy) defines `Copy(s, d)`. It is the node `copyTemplate` leaves at the destination, given the source node `s` and the destination's previous node `d`, or `None` where a call throws. `CopyEntries` is the state after some of a directory's entries have been visited. The lemmas cover exclusion, preservation, merging, idempotence and exactly when the copy fails.
- `Manifest` (manifest.dfy) models `String.prototype.replace` with a string pattern, as defined in ECMAScript 2022 section 22.1.3.18.
  - The replacement goes through GetSubstitution (section 22.1.3.18.1). `$$`, `$&`, `` $` `` and `$'` are interpreted; `$n` and `$<` stay literal because there are no captures.
  - The lemmas cover first-occurrence replacement and the count of placeholders before and after the patch.
- `Scaffold` (scaffold.dfy) defines the class `Host`. Its fields are the file system `root`, the working directory `cwd` and the list of external commands run so far, `invoked`.
  - Each `fs`, `process` or `child_process` call the script makes is a method, specified with the `FsTree` functions.
  - `CopyTemplate`, `CopyChildren` and `VisitEntry` are the recursive walk, its `forEach` loop and the loop's callback.
  - `CreateProject` and `RemoveBinAndPatch` are the file-system steps. `Run` is the whole script.
  - `Scaffolded(tmpl, name)` is the project the steps leave in a fresh target. Lemmas about it state what the generated project contains.

Three details of the code are easy to misread:

- An empty argument is rejected like a missing one, because the check is `!projectName`.
- The name is not inserted literally. `replace` interprets `$` sequences in it, so `a$$b` becomes `a$b` and `$&` becomes the placeholder itself (`Manifest.SubstitutionSteps`, `Manifest.DollarSequencesInName`).
- The removal of `bin` after the copy never finds anything (`Scaffold.BinRemovalIsNoOp`), names being compared exactly. The model keeps the step as the code has it.

## Model

| member | source | states |
|---|---|---|
| FsTree.Put | bin/create-next-prisma.js:55 | after writing node `n` at `p` (as `copyFileSync` and `writeFileSync` do), `n` is found at `p` and the root is a directory |
| FsTree.Remove | bin/create-next-prisma.js:64 | after `rmSync(p, { recursive, force })` nothing is found at `p`; a missing entry is no error and changes nothing |
| FsTree.LookupRemoveOther | bin/create-next-prisma.js:64 | removing the entry at `p` leaves the node at every path off `p`'s line as it was |
| FsTree.LookupRemoveBelow | bin/create-next-prisma.js:64 | the removal is recursive: nothing is found at any path below `p` |
| FsTree.MakeDirs | bin/create-next-prisma.js:31 | recursive `mkdirSync` succeeds exactly when no file stands at `p` or on the way to it, and then leaves a directory at `p` |
| FsTree.MakeDirsFresh | bin/create-next-prisma.js:31 | creating a directory that was absent adds an empty directory at `p`, creates the missing directories on the way, and changes nothing off `p`'s line (with `LookupPutOther`) |
| FsTree.MakeDirsExisting | bin/create-next-prisma.js:31 | completing the account of recursive `mkdirSync`: on an existing directory it succeeds and changes nothing |
| FsTree.MakeDirsChild | bin/create-next-prisma.js:40-42 | one level below an existing node, creating a missing directory succeeds exactly when that node is a directory |
| FsTree.OnlyBelowFrame | bin/create-next-prisma.js:92-95 | a change confined to the subtree at `p` leaves every path off `p`'s line unchanged |
| FsTree.OnlyBelowKeepsDir | bin/create-next-prisma.js:45-53 | a change below an entry of a directory leaves a directory there, and the change counts as one below that directory |
| TemplateCopy.Skipped | bin/create-next-prisma.js:50 | the names the walk passes over; `package.json` is not one of them, so the manifest is always copied (the meaning at every depth is `CopySkipsExcluded`) |
| TemplateCopy.Copy | bin/create-next-prisma.js:36-57 | the node `copyTemplate` leaves at the destination; copying onto a missing destination never fails |
| TemplateCopy.MergeChildren | bin/create-next-prisma.js:44-53 | merging into an empty directory never fails, and a successful merge keeps every entry the destination already had |
| TemplateCopy.CopyEntries | bin/create-next-prisma.js:44-53 | the destination after some entries are visited; it is a directory exactly when it started as one |
| TemplateCopy.CopyEntriesNone | bin/create-next-prisma.js:44 | before the loop the destination holds what it held |
| TemplateCopy.CopyEntriesAll | bin/create-next-prisma.js:44-53 | after every entry is visited the destination holds `Copy`'s result |
| TemplateCopy.CopyEntriesStep | bin/create-next-prisma.js:45-53 | a visit of a skipped name changes nothing; a kept entry's visit adds that entry's copy, or fails and makes the whole copy fail |
| TemplateCopy.MergeStep | bin/create-next-prisma.js:45-53 | entries not yet visited are as the destination had them; a skipped name changes nothing; a kept entry adds its copy or fails the merge |
| TemplateCopy.CopySkipsExcluded | bin/create-next-prisma.js:50 | at every path that crosses `node_modules`, `.git` or `bin`, at any depth, the destination keeps exactly what it had |
| TemplateCopy.CopyKeepsEntries | bin/create-next-prisma.js:36-57 | every source entry on a path crossing no skipped name reaches the destination: files with identical contents, directories as directories unless a file was there |
| TemplateCopy.CopyLeavesOthers | bin/create-next-prisma.js:40-44 | destination entries with no counterpart in the source are left untouched, because the copy merges rather than replaces |
| TemplateCopy.CopyIdempotent | bin/create-next-prisma.js:40-55 | copying the same tree again onto its own copy succeeds and changes nothing: existing directories are merged and files overwritten |
| TemplateCopy.CopyFailsOnlyOnClash | bin/create-next-prisma.js:36-57 | the copy fails if and only if, on a path crossing no skipped name, a source file meets a destination directory or a source directory with something to copy meets a destination file |
| TemplateCopy.FreshCopyHasNoSkipped | bin/create-next-prisma.js:61-65 | a copy into a new directory has no entry named `bin`, `.git` or `node_modules` at its top |
| Manifest.IndexOf | bin/create-next-prisma.js:70 | the first position at or after `from` where the pattern occurs, or `None` when there is none |
| Manifest.Replace | bin/create-next-prisma.js:70 | without an occurrence of the pattern the text is unchanged; with one and a `$`-free replacement the length changes by the replacement's length minus the pattern's |
| Manifest.GetSubstitution | bin/create-next-prisma.js:70 | a replacement without `$` is inserted as it is |
| Manifest.ReplaceFirstOccurrence | bin/create-next-prisma.js:70 | without the pattern the text is unchanged; otherwise, for any name, the text before and after the first occurrence is kept and the occurrence becomes GetSubstitution of the name; for a `$`-free name that is the name itself |
| Manifest.SubstitutionSteps | bin/create-next-prisma.js:70 | for any rest of the name: `$$` gives `$`, `$&` the matched placeholder, `` $` `` the text before it, `$'` the text after it, and a `$` at the end stays |
| Manifest.SubstitutionLiteralSteps | bin/create-next-prisma.js:70 | for any rest of the name: a `$` before a character other than `$`, `&`, `` ` `` and `'` stays, and any character other than `$` is copied |
| Manifest.DollarSequencesInName | bin/create-next-prisma.js:70 | examples on a manifest that is just the placeholder: `a$$b` gives `a$b`, `a$&b` gives `a{{project-name}}b`, `a$1b` stays |
| Manifest.TokenDoesNotOverlap | bin/create-next-prisma.js:70 | two occurrences of `{{project-name}}` never overlap |
| Manifest.CountFromFirst | bin/create-next-prisma.js:70 | the placeholders in a text are the first one plus those after it |
| Manifest.PatchKeepsLaterTokens | bin/create-next-prisma.js:70 | the patch removes at most one placeholder, whatever the name, so a manifest with two keeps one |
| Manifest.PatchRemovesOneToken | bin/create-next-prisma.js:70 | for a name without `$` or `{`, and a placeholder not preceded by one of its own characters, the patch removes exactly one placeholder |
| Manifest.PatchCanRecreateToken | bin/create-next-prisma.js:70 | `{{{{project-name}}}}` holds the placeholder once, and patching it with the name `project-name` gives the placeholder again, so the count does not drop |
| Manifest.SinglePlaceholderPatched | bin/create-next-prisma.js:68-71 | under the same conditions, a manifest with one placeholder ends up with none, and holds the name where the placeholder was |
| Scaffold.WithoutBin | bin/create-next-prisma.js:62-65 | after the step there is no `bin` entry, and when there was none the copy is left as it was |
| Scaffold.PatchManifest | bin/create-next-prisma.js:68-71 | the patch succeeds exactly when a `package.json` file is there; the manifest is then the `Replace` of its text with the name |
| Scaffold.Scaffolded | bin/create-next-prisma.js:59-71 | a project the steps leave is a directory with a `package.json` file (what it contains is stated by the `Scaffolded*` lemmas below) |
| Scaffold.Commands | bin/create-next-prisma.js:74-80 | no command runs unless the files are ready; the first is `npm install`, the second `prisma generate`, both in the target; the second runs exactly when the install succeeded |
| Scaffold.FreshCopy | bin/create-next-prisma.js:59-65 | copying a template directory into the new target succeeds and leaves no `bin` to remove |
| Scaffold.BinRemovalIsNoOp | bin/create-next-prisma.js:61-65 | the project is the patched copy; the removal step never finds anything |
| Scaffold.CopiedManifest | bin/create-next-prisma.js:59-69 | the copy holds a `package.json` file exactly when the template does, with the same contents |
| Scaffold.ScaffoldedNeedsManifest | bin/create-next-prisma.js:68-69 | the file-system steps succeed on a template directory if and only if the template has a `package.json` file |
| Scaffold.ScaffoldedPatchesManifest | bin/create-next-prisma.js:68-71 | the project's manifest is the template's with the first placeholder replaced by the name |
| Scaffold.PutManifestOther | bin/create-next-prisma.js:71 | writing the manifest file changes no other path, and leaves nothing below the manifest |
| Scaffold.ScaffoldedDropsSkipped | bin/create-next-prisma.js:50 | nothing under `node_modules`, `.git` or `bin`, at any depth, reaches the project |
| Scaffold.ScaffoldedKeepsFiles | bin/create-next-prisma.js:36-57 | every template file on a path crossing no skipped name is in the project with the same contents, the manifest aside |
| Scaffold.ScaffoldedAddsNothing | bin/create-next-prisma.js:36-71 | the project holds nothing the template does not |
| Scaffold.Host.Exists | bin/create-next-prisma.js:22 | `existsSync` reports whether a node (file or directory) is at the path |
| Scaffold.Host.Stat | bin/create-next-prisma.js:37-39 | `statSync(...).isDirectory()` is defined exactly where a node exists, and tells directories from files |
| Scaffold.Host.Mkdir | bin/create-next-prisma.js:31 | recursive `mkdirSync` succeeds exactly when no file is in the way, then the file system is `MakeDirs`'s result; on failure nothing changes |
| Scaffold.Host.ReadDir | bin/create-next-prisma.js:44 | `readdirSync` succeeds exactly on a directory and gives its entry names |
| Scaffold.Host.CopyFile | bin/create-next-prisma.js:55 | `copyFileSync` succeeds exactly when the source is a file, the destination's parent a directory and the destination no directory; it then puts the file there, overwriting; otherwise nothing changes |
| Scaffold.Host.RemoveTree | bin/create-next-prisma.js:64 | the file system afterwards is `Remove`'s result |
| Scaffold.Host.ReadFile | bin/create-next-prisma.js:69 | `readFileSync` succeeds exactly on a file and gives its contents |
| Scaffold.Host.WriteFile | bin/create-next-prisma.js:71 | `writeFileSync` succeeds exactly when the parent is a directory and the path no directory; it then leaves a file with the text there |
| Scaffold.Host.Chdir | bin/create-next-prisma.js:74 | `chdir` succeeds exactly on a directory, which becomes the working directory |
| Scaffold.Host.Exec | bin/create-next-prisma.js:77 | `execSync` records the command with the working directory it ran in, reports its outcome, and changes no file |
| Scaffold.Host.CopyTemplate | bin/create-next-prisma.js:36-57 | the walk succeeds exactly when the destination's parent is a directory and `Copy` succeeds, and then leaves `Copy`'s result at `dest`; nothing off `dest`'s line changes, the source is intact, and a directory at `dest` stays one; when the parent is no directory nothing changes |
| Scaffold.Host.CopyChildren | bin/create-next-prisma.js:44-53 | the loop over the source's entries succeeds exactly when `Copy` onto the node at `dest` does, and then leaves its result there; nothing off `dest`'s line changes |
| Scaffold.Host.VisitEntry | bin/create-next-prisma.js:45-53 | a skipped name is passed over; any other entry is copied to the same name under `dest` and succeeds exactly when `dest` is a directory and the entry's `Copy` succeeds |
| Scaffold.Host.CreateProject | bin/create-next-prisma.js:29-71 | the file-system steps succeed exactly when `mkdir` can create the target and the template scaffolds; they then leave the scaffolded project at the target; a failed `mkdir` changes nothing, and after a successful copy a missing manifest leaves the copy without `bin` at the target; nothing off the target's line changes, and a target once created stays a directory |
| Scaffold.Host.RemoveBinAndPatch | bin/create-next-prisma.js:61-71 | after the copy, the steps succeed exactly when the copy without `bin` has a manifest file, and then leave the patched project at the target |
| Scaffold.Host.Run | bin/create-next-prisma.js:11-95 | a name failing `ValidName` (the `!projectName` test) or an existing target gives exit 1 with nothing changed; a failed `mkdir` changes nothing, and a missing manifest leaves the copy without `bin` at the target; exit 0 exactly when every step and both commands succeed, leaving `Scaffolded` at the target; install runs before generate; no rollback (details below) |

`Scaffold.Host.Run` states the following:

- A missing or empty name, or a target that already exists, gives exit 1 and changes nothing. So a second run with the same name fails.
- Nothing off the target's line changes, and the template is intact. A failed `mkdir` (a file on the way to the target) changes nothing at all.
- There is no rollback: once `mkdir` has succeeded, the target stays a directory whatever fails later. When the template has no `package.json` file, `readFileSync` throws and the target keeps the copy without `bin`; when a command fails, the target keeps the scaffolded project. The copy into the fresh target never fails (`Scaffold.FreshCopy`), so these are all the outcomes.
- The run exits 0 exactly when every file-system step succeeds and both commands succeed. In that case the target holds `Scaffolded(template, name)` and the working directory is the target.
- No command runs unless the files are in place. `npm install` runs before `prisma generate`, both in the target. A failed install means `prisma generate` never runs and the exit status is 1.

## Left out

- Console output (the usage text, the diagnostics and the success report) is left out, because it has no effect on the state.
- `path.resolve` of the name and of the package directory, and `import.meta.url`, are left out. `Run` takes the resolved target and template paths as parameters, so what a name with separators or `..` resolves to is not modelled.
- The outcomes of `npm install` and `npx prisma generate` are parameters of `Run`. The files those commands write (dependencies, the generated client) are not modelled: `Exec` changes no file.
- File-system failures that do not come from the tree's shape are not modelled: permissions, a full disk, too many open files, a name too long.
- Entry names are compared exactly, as on a case-sensitive file system. On a case-insensitive one (the default on macOS and Windows) a template entry `Bin` passes the filter of line 50 and is then found and removed at lines 63-64, and `readFileSync` at line 69 would read a `Package.json`; `Scaffold.BinRemovalIsNoOp` holds only for exact names.
- Symbolic links, modes, timestamps and the UTF-8 decoding of the manifest are not modelled. File contents are strings.
- The order of `readdirSync` is not modelled. The loop visits the entries in an arbitrary order. After a failure the model states only which part of the tree may have changed, not which entries were already copied.
- Other processes changing the file system during the run, and a crash part-way through, are not modelled.
- Scaffold.Host.Run: requires the target not to lie inside the template directory. When a new target lies there through names the walk keeps, the source copies the target into itself, again and again, until a call fails; the model does not cover this case. The requirement also excludes two inputs on which the source behaves normally: a target inside the template that already exists (the check at lines 22-25 exits 1), and a new target under a skipped name such as `<template>/bin/app` (line 50 never walks into it, so the script scaffolds as usual).
- Scaffold.Host.Run: requires the template to exist, as a directory. The script runs from inside it.
- Scaffold.Host.RemoveTree: requires a path other than the root of the file system. The script only removes `<target>/bin`.
- Manifest.PatchRemovesOneToken: stated only for a name without `$` or `{`, and a placeholder not preceded by one of its own characters. Otherwise the name can form a new placeholder. `Manifest.PatchCanRecreateToken` proves the example: in `{{{{project-name}}}}` the name `project-name` recreates `{{project-name}}`, so the count does not drop.
- Manifest.SinglePlaceholderPatched: carries the same conditions, for the same reason.
