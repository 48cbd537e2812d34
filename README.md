# dir_sync: a one-way directory mirror, modelled in Dafny

`dir_sync` keeps a replica directory identical to a source directory. One
pass of `sync` lists the immediate children of a source directory and its
replica directory the way `filecmp.dircmp` does. It then runs four phases in
order:

1. copy each source-only entry into the replica (`copytree` for a directory,
   `copy2` for a file);
2. remove each replica-only entry (`rmtree` for a directory, `unlink` for a
   file);
3. overwrite each common file whose bytes differ; `file_content_sync`
   compares sizes and then 4096-byte chunks read in lockstep;
4. run `sync` again on each directory present on both sides.

Each copy, delete and update writes an informational log line.

This project models those two functions. It proves:

- the pass against a declarative description of its result;
- properties of that result: convergence, idempotence, what happens to each
  child name, and what the log says.

Files:

- `filesystem.dfy` (module `FileSystem`): trees as values.
  - `Entry` is `File(data)` or `Dir(children)`; a path is a sequence of names.
  - `Get` and `Put` look up and replace an entry by path. They come with the
    path lemmas the proofs use.
- `file_compare.dfy` (module `FileCompare`): `file_content_sync`.
  - Each open file is a `Reader` object whose read offset advances with each
    `Read`.
  - The comparison loop is proved to decide byte equality. It also counts the
    chunks it reads: none when sizes differ; up to and including the chunk
    holding the first difference when they differ; every chunk and then one
    empty read at end of file when they are equal.
- `dir_compare.dfy` (module `DirCompare`): the `dircmp` classification.
  - Hidden names (`.`, `..`) and the default ignores (`RCS`, `CVS`, `tags`,
    `.git`, `.hg`, `.bzr`, `_darcs`, `__pycache__`) are dropped from both
    listings.
  - The common names are split by the kind of entry on both sides:
    directories, files, and "funny" (a type mismatch).
- `mirror.dfy` (module `Mirror`): `sync` as a class `Pass`.
  - The class has fields `source`, `replica` and a ghost `log`.
  - `Sync` reconciles the replica directory at a path using one method per
    phase. Each phase has its own loop over the names of its bucket, with
    invariants.
  - The filesystem primitives `CopyTree`, `Copy2`, `RemoveTree` and `Unlink`
    rewrite `replica`.
  - `SyncSpec` is the resulting replica directory, as a function of the two
    directories. `SyncEvents` is the set of log lines a pass writes.
  - `Sync` is proved to leave `SyncSpec` at its path, to leave the source
    untouched, and to log exactly `SyncEvents`, each line once. With `FileSystem.GetPutElsewhere`,
    every replica path outside that directory is unchanged.
- `mirror_properties.dfy` (module `MirrorProperties`): what a pass achieves,
  proved about `SyncSpec` and `SyncEvents`. Through the contract of
  `Mirror.Pass.Sync` these are properties of the pass itself.

A name can be a file on one side and a directory on the other. `dircmp`
compares the types of both sides and puts such a name in `common_funny`. No
phase visits that bucket, so the replica entry stays exactly as it was. The
model follows this (`DirCompare.Compare`, `MirrorProperties.SyncOutcome`).

## Model

| member | source | states |
|---|---|---|
| `FileCompare.FileContentSync` | main.py:13-37 | The result is true exactly when the two files hold the same bytes. When the sizes differ it is false and no chunk is read. When they have one size but differ, the reads go up to and including the chunk holding the first differing byte, and no further. Equal files are read to the empty chunk at end of file. The loop terminates on the remaining length. |
| `FileCompare.FirstDiff` | main.py:34 | For two different byte strings of one length, the offset of the first byte at which they differ: the bytes there differ and every byte before it agrees. |
| `FileCompare.Reader.Read` | main.py:31-32 | A read returns the next at most 4096 bytes from the current offset and advances the offset by the length returned. The empty chunk comes back only at end of file. |
| `DirCompare.Compare` | main.py:48 | The listed names of each side split into the only-here bucket and the three common buckets, with hidden and ignored names dropped from both. The buckets are pairwise disjoint. A common name is a directory when it is a directory on both sides, a file when it is a file on both, and funny otherwise. |
| `FileSystem.GetPutElsewhere` | main.py:53-76 | Every write of a pass replaces the entry at one path under `dst`. Such a write leaves every path that is neither above nor below it as it was. With the contract of `Mirror.Pass.Sync`, a pass changes nothing in the replica outside its own directory. |
| `Mirror.ShallowSync` | main.py:50-77 | The first three phases leave every common directory exactly as the replica had it. |
| `Mirror.Pass.Sync` | main.py:39-80 | One pass on the directory pair at a path does three things. It replaces the replica directory there by `SyncSpec` of the two directories and changes nothing else in the replica. It leaves the source unchanged. The lines it appends to the log are exactly `SyncEvents`, and no line is appended twice, so each is written once. |
| `Mirror.Pass.CopyPhase` | main.py:51-58 | Every source-only name is copied into the replica: a directory as its whole subtree, a file as its bytes. The lines appended are exactly one "copying" line per name: their set is `CopyEvents` and no line is appended twice. |
| `Mirror.Pass.DeletePhase` | main.py:61-69 | Every replica-only name is removed from the replica with all it holds. The lines appended are exactly one "deleting" line per name, naming a directory or a file by the replica's kind: their set is `DeleteEvents` and no line is appended twice. |
| `Mirror.Pass.UpdatePhase` | main.py:72-77 | Every common file whose bytes differ from the source's is overwritten from the source. An identical file is left alone. The lines appended are exactly one "updated" line per overwritten file: their set is `UpdateEvents` and no line is appended twice. |
| `Mirror.Pass.RecursePhase` | main.py:80 | Every common directory becomes its own reconciliation with the source counterpart. The log gains exactly the lines of those recursive passes, each once. |
| `Mirror.Pass.DescendInto` | main.py:80 | One recursive pass of phase 4 advances the replica and the log by that one common directory. |
| `Mirror.Pass.CopyTree` | main.py:57 | `copytree` creates the missing entry as a copy of the whole source subtree. |
| `Mirror.Pass.Copy2` | main.py:58 | `copy2` onto a missing or file path leaves a file holding the source bytes there. It is also the overwrite at main.py:76. |
| `Mirror.Pass.RemoveTree` | main.py:66 | `rmtree` removes a directory entry together with everything below it. |
| `Mirror.Pass.Unlink` | main.py:69 | `unlink` removes a file entry. |
| `Mirror.PhasesApart` | main.py:51-80 | The lines of the four phases of one pass never coincide: copying, deleting and updated lines differ in kind, and the lines of the recursive passes lie at least two names deeper. |
| `Mirror.SubEventsApart` | main.py:80 | The lines of the recursive pass into one common directory never coincide with the lines of the passes into the others, since each names a path through its own child. |
| `Mirror.SyncSpecByPhases` | main.py:48-80 | The declared result of a pass equals the four phases applied one after the other. Each phase works on the replica directory as the previous phase left it. |
| `Mirror.SyncEventsByPhases` | main.py:51-80 | The declared log of a pass equals the lines of the four phases. Each phase inspects the replica directory as the previous phase left it. |
| `MirrorProperties.SyncOutcome` | main.py:48-80 | The fate of every child name after a pass. A source-only name gets the source entry. A replica-only name is gone. A common file gets the source's bytes. A common directory gets its recursive reconciliation. A type mismatch and an ignored name keep the replica's entry as it was. A name on neither side stays absent. |
| `MirrorProperties.MirroredAlongCleanPath` | main.py:39-80 | Along any path with no ignored name and no type mismatch, the replica after the pass has an entry exactly where the source has one. The entry is of the same kind, and every file there holds the source's bytes. So a replica-only entry is gone at any depth. |
| `MirrorProperties.Convergence` | main.py:39-80 | When no name at any depth is ignored or a type mismatch, one pass makes the replica equal to the source tree. |
| `MirrorProperties.SyncSelf` | main.py:39-80 | A pass on a replica identical to the source changes nothing. |
| `MirrorProperties.SyncIdempotent` | main.py:39-80 | A second pass against an unchanged source leaves the replica as the first pass left it. |
| `MirrorProperties.IdempotentAt` | main.py:48-80 | The per-name step of idempotence: each name has the same entry after the second pass as after the first. |
| `MirrorProperties.LoggedForChild` | main.py:51-77 | For each child name of a directory: a "copying" line is logged exactly for a source-only name. A "deleting directory" or "deleting file" line is logged exactly for a replica-only directory or file. An "updated" line is logged exactly for a common file whose bytes differ. |
| `MirrorProperties.LoggedCopying` | main.py:51-52 | A "copying" line names a child exactly when that child is source-only. |
| `MirrorProperties.LoggedDeleting` | main.py:61-68 | A "deleting" line names a child exactly when that child is replica-only, as a directory or as a file by its kind in the replica. |
| `MirrorProperties.LoggedUpdated` | main.py:72-77 | An "updated" line names a child exactly when it is a common file whose bytes differ. |
| `Mirror.EventsBelow` | main.py:51-80 | Every line a pass logs names a path strictly below the directory it was started on. |
| `MirrorProperties.SyncSelfQuiet` | main.py:51-80 | A pass on a replica identical to the source logs nothing. |
| `MirrorProperties.SecondPassQuiet` | main.py:51-80 | A second pass against an unchanged source copies, deletes and updates nothing, so it logs no line. |
| `MirrorProperties.QuietAt` | main.py:48-80 | The per-name step of the second-pass result: after one pass no name is only on one side, every common file agrees with the source, and every common directory's second pass is quiet. |

## Left out

- Command line, logger setup and path resolution (main.py:82-126) are I/O configuration and are not modelled. The log is a ghost list of events rather than formatted text. An event carries the path relative to the root pair, not the absolute `src`/`dst` prefix the message prints.
- The periodic `threading.Timer` and the `try`/`except` around a pass (main.py:128-148) are scheduling and error reporting, so they are not modelled. The timer is restarted only after a pass that raised nothing (main.py:145 is inside the `try`), so a failed pass stops the schedule.
- Metadata is not modelled. Times, permissions and symbolic links do not exist in `Entry`. `copy2` and `copytree` replace content only.
- Special files (neither regular file nor directory) and names whose `stat` fails (a dangling symbolic link, say) are not modelled: every `Entry` is a file or a directory. The program treats them in three ways:
  - one present on both sides lands in `dircmp`'s funny bucket and is never visited;
  - one present only in the source is not a directory to `Path.is_dir()`, so `copy2` is run on it (main.py:57-58), which raises for a FIFO or a dangling link and aborts the pass;
  - one present only in the replica is unlinked (main.py:64-69).
- The source and the replica are two separate trees. The program accepts any two paths (main.py:114-115). When one root lies inside the other, the writes at main.py:57-76 also change the other tree. The model does not cover nested or overlapping roots. `Mirror.Pass.Sync`'s "source unchanged" and `MirrorProperties.Convergence` hold only for disjoint roots.
- Operating-system failures in the middle of a pass (permission denied, vanished path, full disk) are not modelled. Each primitive's `requires` states the state it needs. `Sync` establishes those states itself.
- Mirror.Pass.Sync: requires both entries at its path to be directories. `sync` on a missing root or a root that is a file raises inside `dircmp`, and only the top-level handler sees that. Recursive calls meet the requirement by construction.
- Mirror.Pass.Sync: the log contract states which lines are written and that each is written once, not their order. The order of siblings is not stated, because each phase picks its next name from a set where `dircmp` yields sorted lists; the final tree does not depend on that order. The order of the phases is not stated either: the contract does not say that every "copying" line comes before every "deleting" line, and so on, though the four phase calls in `Sync` run in that order.
- `os.path.normcase` (case-insensitive names on Windows) is not modelled: names are compared exactly.
- `file_content_sync` reads from the real file twice. The model takes both contents as values, so it does not capture a file changing between the size check and the reads.
- `SyncSpec` and `SyncEvents` are defined on every pair of entries. On a pair that is not two directories, the replica entry is returned unchanged and no event is produced. `sync` is never applied to such a pair.
