/**
 * The one-way mirror (`sync` in main.py).
 *
 * For one pair of directories at the same relative path in the source and
 * the replica, `sync` classifies the children (see DirCompare) and runs four
 * phases in order: copy the source-only entries, delete the replica-only
 * entries, overwrite the common files whose content differs, and recurse into
 * the common directories. SyncSpec is the replica directory that results, as
 * a function of the two directories; SyncEvents is the set of log lines the
 * pass writes. Pass.Sync does the work step by step on the replica and is
 * proved to produce exactly these.
 */
module Mirror {
  import opened FileSystem
  import opened DirCompare
  import opened FileCompare

  /** One informational log line of a pass, with the relative path it names. */
  datatype Event =
    | Copying(path: Path)       // a source-only entry is about to be copied
    | DeletingDir(path: Path)   // a replica-only directory is about to be removed
    | DeletingFile(path: Path)  // a replica-only file is about to be removed
    | Updated(path: Path)       // a common file was overwritten

  /** Phase 1: `d` with each of `names` copied in from `s`. */
  function Copied(d: map<string, Entry>, s: map<string, Entry>, names: set<string>): map<string, Entry>
    requires names <= s.Keys
  {
    d + map n | n in names :: s[n]
  }

  /** Phase 3: `d` with each of `names` whose content differs from `s` overwritten from `s`. */
  function Overwritten(d: map<string, Entry>, s: map<string, Entry>, names: set<string>): map<string, Entry>
    requires names <= s.Keys && names <= d.Keys
  {
    d + map n | n in names && d[n] != s[n] :: s[n]
  }

  /**
   * Phases 1 to 3 on the replica directory `d`: the source-only names copied
   * in, the replica-only names removed, the differing common files
   * overwritten. The common directories are still as they were.
   */
  function ShallowSync(s: map<string, Entry>, d: map<string, Entry>): (r: map<string, Entry>)
    ensures forall n :: n in Compare(s, d).commonDirs ==> n in r && r[n] == d[n]
  {
    var c := Compare(s, d);
    Overwritten(Copied(d, s, c.leftOnly) - c.rightOnly, s, c.commonFiles)
  }

  /**
   * The replica directory `dst` after `sync` has reconciled it with the
   * source directory `src`: phases 1 to 3, then each common directory
   * reconciled with its source counterpart. `sync` is only ever run on two
   * directories; on any other pair the replica entry is left as it is.
   */
  function SyncSpec(src: Entry, dst: Entry): (r: Entry)
    ensures src.Dir? && dst.Dir? ==> r.Dir?
    decreases src
  {
    if src.File? || dst.File? then dst
    else
      var s, d := src.children, dst.children;
      var c := Compare(s, d);
      Dir(ShallowSync(s, d) + map n | n in c.commonDirs :: SyncSpec(s[n], d[n]))
  }

  /** Phase 4 so far: `d` with each of `names` replaced by its reconciliation with the same child in `s`. */
  function Descended(d: map<string, Entry>, s: map<string, Entry>, names: set<string>): map<string, Entry>
    requires names <= s.Keys && names <= d.Keys
  {
    d + map n | n in names :: SyncSpec(s[n], d[n])
  }

  ghost function CopyEvents(dir: Path, names: set<string>): set<Event>
  {
    set n | n in names :: Copying(dir + [n])
  }

  ghost function DeleteEvents(dir: Path, d: map<string, Entry>, names: set<string>): set<Event>
    requires names <= d.Keys
  {
    set n | n in names :: if d[n].Dir? then DeletingDir(dir + [n]) else DeletingFile(dir + [n])
  }

  ghost function UpdateEvents(dir: Path, d: map<string, Entry>, s: map<string, Entry>, names: set<string>): set<Event>
    requires names <= s.Keys && names <= d.Keys
  {
    set n | n in names && d[n] != s[n] :: Updated(dir + [n])
  }

  /** The events logged by `sync` on the pair `src`, `dst` found at `dir` (none unless both are directories). */
  ghost function SyncEvents(src: Entry, dst: Entry, dir: Path): set<Event>
    decreases src
  {
    if src.File? || dst.File? then {}
    else
      var s, d := src.children, dst.children;
      var c := Compare(s, d);
      CopyEvents(dir, c.leftOnly) + DeleteEvents(dir, d, c.rightOnly) + UpdateEvents(dir, d, s, c.commonFiles)
      + (set n, e | n in c.commonDirs && e in SyncEvents(s[n], d[n], dir + [n]) :: e)
  }

  /** The events of the recursive passes into each of `names`. */
  ghost function SubEvents(dir: Path, d: map<string, Entry>, s: map<string, Entry>, names: set<string>): set<Event>
    requires names <= s.Keys && names <= d.Keys
  {
    set n, e | n in names && e in SyncEvents(s[n], d[n], dir + [n]) :: e
  }

  ghost function Elements(log: seq<Event>): set<Event>
  {
    set e | e in log
  }

  /** No line of `log` from index `from` on is written twice. */
  ghost predicate Distinct(log: seq<Event>, from: nat)
  {
    forall i, j :: from <= i < j < |log| ==> log[i] != log[j]
  }

  /**
   * The state one pass works on: the source tree, which it only reads, and
   * the replica tree, which it rewrites; `log` holds the informational lines
   * written. The two roots are separate trees.
   */
  class Pass {
    var source: Entry
    var replica: Entry
    ghost var log: seq<Event>

    constructor (source: Entry, replica: Entry)
      ensures this.source == source && this.replica == replica && log == []
    {
      this.source := source;
      this.replica := replica;
      log := [];
    }

    /** shutil.copytree: a new directory `dir + [name]` holding a copy of `tree`. */
    method CopyTree(dir: Path, name: string, tree: Entry)
      requires IsDirAt(replica, dir) && name !in ChildrenAt(replica, dir) && tree.Dir?
      modifies this`replica
      ensures replica == Put(old(replica), dir + [name], tree)
    {
      replica := Put(replica, dir + [name], tree);
    }

    /** shutil.copy2 onto a file path: `dir + [name]` becomes a file holding `data`. */
    method Copy2(dir: Path, name: string, data: seq<byte>)
      requires IsDirAt(replica, dir)
      requires name in ChildrenAt(replica, dir) ==> ChildrenAt(replica, dir)[name].File?
      modifies this`replica
      ensures replica == Put(old(replica), dir + [name], File(data))
    {
      replica := Put(replica, dir + [name], File(data));
    }

    /** shutil.rmtree: the directory `dir + [name]` and all it holds are removed. */
    method RemoveTree(dir: Path, name: string)
      requires IsDirAt(replica, dir) && name in ChildrenAt(replica, dir) && ChildrenAt(replica, dir)[name].Dir?
      modifies this`replica
      ensures replica == Delete(old(replica), dir, name)
    {
      replica := Delete(replica, dir, name);
    }

    /** Path.unlink: the file `dir + [name]` is removed. */
    method Unlink(dir: Path, name: string)
      requires IsDirAt(replica, dir) && name in ChildrenAt(replica, dir) && ChildrenAt(replica, dir)[name].File?
      modifies this`replica
      ensures replica == Delete(old(replica), dir, name)
    {
      replica := Delete(replica, dir, name);
    }

    /**
     * Reconciles the replica directory at `path` with the source directory at
     * the same path: the replica there becomes SyncSpec of the two, nothing
     * outside it changes, the source is untouched, and the lines appended to
     * the log are exactly SyncEvents.
     */
    method Sync(path: Path)
      requires IsDirAt(source, path) && IsDirAt(replica, path)
      modifies this`replica, this`log
      ensures source == old(source)
      ensures replica == Put(old(replica), path, SyncSpec(Get(source, path).value, Get(old(replica), path).value))
      ensures old(log) <= log
      ensures Elements(log[|old(log)|..]) == SyncEvents(Get(source, path).value, Get(old(replica), path).value, path)
      ensures Distinct(log, |old(log)|)
      decreases Get(source, path).value, 2
    {
      var s := ChildrenAt(source, path);
      var d := ChildrenAt(replica, path);
      var c := Compare(s, d);
      ghost var src, dst := Get(source, path).value, Get(replica, path).value;
      ghost var r0 := replica;
      ghost var log0 := log;
      PhasesReady(s, d);

      CopyPhase(path, c.leftOnly);
      ghost var copied := Copied(d, s, c.leftOnly);
      ghost var log1 := log;
      assert IsDirAt(replica, path) && ChildrenAt(replica, path) == copied by {
        PutDirAt(r0, path, copied);
      }

      DeletePhase(path, c.rightOnly);
      ghost var deleted := copied - c.rightOnly;
      ghost var log2 := log;
      assert replica == Put(r0, path, Dir(deleted)) && IsDirAt(replica, path) && ChildrenAt(replica, path) == deleted by {
        PutPut(r0, path, Dir(copied), Dir(deleted));
        PutDirAt(r0, path, deleted);
      }

      UpdatePhase(path, c.commonFiles);
      ghost var updated := Overwritten(deleted, s, c.commonFiles);
      ghost var log3 := log;
      assert replica == Put(r0, path, Dir(updated)) && IsDirAt(replica, path) && ChildrenAt(replica, path) == updated by {
        PutPut(r0, path, Dir(deleted), Dir(updated));
        PutDirAt(r0, path, updated);
      }

      RecursePhase(path, c.commonDirs);
      assert replica == Put(r0, path, SyncSpec(src, dst)) by {
        PutPut(r0, path, Dir(updated), Dir(Descended(updated, s, c.commonDirs)));
        SyncSpecByPhases(src, dst);
      }
      assert log0 <= log && Elements(log[|log0|..]) == SyncEvents(src, dst, path) by {
        LogGrowth(log0, log1, log2);
        LogGrowth(log0, log2, log3);
        LogGrowth(log0, log3, log);
        SyncEventsByPhases(src, dst, path);
      }
      assert Distinct(log, |log0|) by {
        PhasesApart(src, dst, path);
        DistinctPhases(log0, log1, log2, log3, log);
      }
    }

    /** Phase 1 (`for file in c.left_only`): copy each of `names` from the source into the replica. */
    method CopyPhase(path: Path, names: set<string>)
      requires IsDirAt(source, path) && IsDirAt(replica, path)
      requires names <= ChildrenAt(source, path).Keys && names !! ChildrenAt(replica, path).Keys
      modifies this`replica, this`log
      ensures replica == Put(old(replica), path, Dir(Copied(ChildrenAt(old(replica), path), ChildrenAt(source, path), names)))
      ensures old(log) <= log && Elements(log[|old(log)|..]) == CopyEvents(path, names)
      ensures Distinct(log, |old(log)|)
    {
      var s := ChildrenAt(source, path);
      ghost var cur := ChildrenAt(replica, path);
      ghost var r0 := replica;
      ghost var log0 := log;
      PutSelf(replica, path);
      var todo, done := names, {};
      assert Copied(cur, s, done) == cur;
      while todo != {}
        invariant todo + done == names && todo !! done
        invariant replica == Put(r0, path, Dir(Copied(cur, s, done)))
        invariant log0 <= log && Elements(log[|log0|..]) == CopyEvents(path, done)
        invariant Distinct(log, |log0|)
        decreases todo
      {
        var n :| n in todo;
        ghost var m := Copied(cur, s, done);
        PutChildOf(r0, path, m, n, s[n]);
        CopyFresh(path, done, n);
        LogSnoc(log0, log, Copying(path + [n]));
        DistinctSnoc(log0, log, Copying(path + [n]));
        log := log + [Copying(path + [n])];
        if s[n].Dir? {
          CopyTree(path, n, s[n]);
        } else {
          Copy2(path, n, s[n].data);
        }
        CopyStep(path, cur, s, done, n);
        todo, done := todo - {n}, done + {n};
      }
    }

    /** Phase 2 (`for file in c.right_only`): remove each of `names` from the replica, a directory with all it holds. */
    method DeletePhase(path: Path, names: set<string>)
      requires IsDirAt(replica, path)
      requires names <= ChildrenAt(replica, path).Keys
      modifies this`replica, this`log
      ensures replica == Put(old(replica), path, Dir(ChildrenAt(old(replica), path) - names))
      ensures old(log) <= log && Elements(log[|old(log)|..]) == DeleteEvents(path, ChildrenAt(old(replica), path), names)
      ensures Distinct(log, |old(log)|)
    {
      ghost var cur := ChildrenAt(replica, path);
      ghost var r0 := replica;
      ghost var log0 := log;
      PutSelf(replica, path);
      var todo, done := names, {};
      assert cur - done == cur;
      while todo != {}
        invariant todo + done == names && todo !! done
        invariant replica == Put(r0, path, Dir(cur - done))
        invariant log0 <= log && Elements(log[|log0|..]) == DeleteEvents(path, cur, done)
        invariant Distinct(log, |log0|)
        decreases todo
      {
        var n :| n in todo;
        ghost var m := cur - done;
        DeleteChildOf(r0, path, m, n);
        PutDirAt(r0, path, m);
        ghost var ev := if cur[n].Dir? then DeletingDir(path + [n]) else DeletingFile(path + [n]);
        DeleteFresh(path, cur, done, n);
        LogSnoc(log0, log, ev);
        DistinctSnoc(log0, log, ev);
        if ChildrenAt(replica, path)[n].Dir? {
          log := log + [DeletingDir(path + [n])];
          RemoveTree(path, n);
        } else {
          log := log + [DeletingFile(path + [n])];
          Unlink(path, n);
        }
        DeleteStep(path, cur, done, n);
        todo, done := todo - {n}, done + {n};
      }
    }

    /** Phase 3 (`for file in c.common_files`): overwrite each of `names` whose content differs from the source's. */
    method UpdatePhase(path: Path, names: set<string>)
      requires IsDirAt(source, path) && IsDirAt(replica, path)
      requires names <= ChildrenAt(source, path).Keys && names <= ChildrenAt(replica, path).Keys
      requires forall n :: n in names ==> ChildrenAt(source, path)[n].File? && ChildrenAt(replica, path)[n].File?
      modifies this`replica, this`log
      ensures replica == Put(old(replica), path, Dir(Overwritten(ChildrenAt(old(replica), path), ChildrenAt(source, path), names)))
      ensures old(log) <= log
      ensures Elements(log[|old(log)|..]) == UpdateEvents(path, ChildrenAt(old(replica), path), ChildrenAt(source, path), names)
      ensures Distinct(log, |old(log)|)
    {
      var s := ChildrenAt(source, path);
      ghost var cur := ChildrenAt(replica, path);
      ghost var r0 := replica;
      ghost var log0 := log;
      PutSelf(replica, path);
      var todo, done := names, {};
      assert Overwritten(cur, s, done) == cur;
      while todo != {}
        invariant todo + done == names && todo !! done
        invariant replica == Put(r0, path, Dir(Overwritten(cur, s, done)))
        invariant log0 <= log && Elements(log[|log0|..]) == UpdateEvents(path, cur, s, done)
        invariant Distinct(log, |log0|)
        decreases todo
      {
        var n :| n in todo;
        ghost var r1, l1 := replica, log;
        assert IsDirAt(replica, path) && ChildrenAt(replica, path)[n] == cur[n] by {
          PutChildOf(r0, path, Overwritten(cur, s, done), n, s[n]);
        }
        var same;
        ghost var chunks;
        same, chunks := FileContentSync(s[n].data, ChildrenAt(replica, path)[n].data);
        if !same {
          Copy2(path, n, s[n].data);
          log := log + [Updated(path + [n])];
        }
        UpdateInvariant(r0, path, cur, s, done, n, r1, replica, same);
        UpdateLogStep(log0, l1, log, path, cur, s, done, n, same);
        todo, done := todo - {n}, done + {n};
      }
    }

    /** Phase 4 (`for cdir in c.common_dirs`): reconcile each of `names`, a directory on both sides, by a recursive Sync. */
    method RecursePhase(path: Path, names: set<string>)
      requires IsDirAt(source, path) && IsDirAt(replica, path)
      requires names <= ChildrenAt(source, path).Keys && names <= ChildrenAt(replica, path).Keys
      requires forall n :: n in names ==> ChildrenAt(source, path)[n].Dir? && ChildrenAt(replica, path)[n].Dir?
      modifies this`replica, this`log
      ensures source == old(source)
      ensures replica == Put(old(replica), path, Dir(Descended(ChildrenAt(old(replica), path), ChildrenAt(source, path), names)))
      ensures old(log) <= log
      ensures Elements(log[|old(log)|..]) == SubEvents(path, ChildrenAt(old(replica), path), ChildrenAt(source, path), names)
      ensures Distinct(log, |old(log)|)
      decreases Get(source, path).value, 1
    {
      ghost var s := ChildrenAt(source, path);
      ghost var cur := ChildrenAt(replica, path);
      ghost var r0 := replica;
      ghost var log0 := log;
      PutSelf(replica, path);
      var todo, done := names, {};
      assert Descended(cur, s, done) == cur;
      while todo != {}
        invariant todo + done == names && todo !! done
        invariant source == old(source)
        invariant replica == Put(r0, path, Dir(Descended(cur, s, done)))
        invariant log0 <= log
        invariant Elements(log[|log0|..]) == SubEvents(path, cur, s, done)
        invariant Distinct(log, |log0|)
        decreases todo
      {
        var n :| n in todo;
        DescendInto(path, n, r0, cur, done, log0);
        todo, done := todo - {n}, done + {n};
      }
    }

    /**
     * The body of the phase 4 loop (main.py:80), split out of RecursePhase: the
     * recursive Sync of the common directory `name`. The ghost parameters are
     * the loop's state (the replica and the log when the loop began, the
     * directory's children then, and the names already done) so that the
     * invariant can be stated before and after the call.
     */
    method DescendInto(path: Path, name: string, ghost r0: Entry, ghost cur: map<string, Entry>,
                       ghost done: set<string>, ghost log0: seq<Event>)
      requires IsDirAt(source, path) && Get(r0, path).Some?
      requires name !in done && done + {name} <= ChildrenAt(source, path).Keys && done + {name} <= cur.Keys
      requires forall k :: k in done + {name} ==> ChildrenAt(source, path)[k].Dir? && cur[k].Dir?
      requires replica == Put(r0, path, Dir(Descended(cur, ChildrenAt(source, path), done)))
      requires log0 <= log && Elements(log[|log0|..]) == SubEvents(path, cur, ChildrenAt(source, path), done)
      requires Distinct(log, |log0|)
      modifies this`replica, this`log
      ensures source == old(source)
      ensures replica == Put(r0, path, Dir(Descended(cur, ChildrenAt(source, path), done + {name})))
      ensures log0 <= log && Elements(log[|log0|..]) == SubEvents(path, cur, ChildrenAt(source, path), done + {name})
      ensures Distinct(log, |log0|)
      decreases Get(source, path).value, 0
    {
      ghost var s := ChildrenAt(source, path);
      ghost var before := log;
      assert Get(source, path + [name]) == Some(s[name]) && Get(replica, path + [name]) == Some(cur[name]) by {
        PutDirAt(r0, path, Descended(cur, s, done));
        assert Descended(cur, s, done)[name] == cur[name];
        GetChild(source, path, name);
        GetChild(replica, path, name);
      }
      ghost var r1 := replica;
      Sync(path + [name]);
      DescendInvariant(r0, path, cur, s, done, name, r1, replica);
      LogGrowth(log0, before, log);
      RecurseStep(path, cur, s, done, name);
      SubEventsApart(path, cur, s, done, name);
      DistinctAppend(log0, before, log);
    }
  }

  /** Each phase's names are children of the replica directory as the previous phase leaves it, of the kind that phase expects. */
  lemma PhasesReady(s: map<string, Entry>, d: map<string, Entry>)
    ensures var c := Compare(s, d);
            var copied := Copied(d, s, c.leftOnly);
            var deleted := copied - c.rightOnly;
            c.rightOnly <= copied.Keys && c.commonFiles <= s.Keys && c.commonFiles <= deleted.Keys
            && (forall n :: n in c.commonFiles ==> s[n].File? && deleted[n].File?)
            && c.commonDirs <= s.Keys && c.commonDirs <= Overwritten(deleted, s, c.commonFiles).Keys
            && forall n :: n in c.commonDirs ==> s[n].Dir? && Overwritten(deleted, s, c.commonFiles)[n].Dir?
  {
  }

  /** Appending a line to the log adds it to the lines written since `log0`. */
  lemma LogSnoc(log0: seq<Event>, log: seq<Event>, e: Event)
    requires log0 <= log
    ensures log0 <= log + [e]
    ensures Elements((log + [e])[|log0|..]) == Elements(log[|log0|..]) + {e}
  {
    assert (log + [e])[|log0|..] == log[|log0|..] + [e];
  }

  /** Appending a line not yet written since `log0` keeps those lines distinct. */
  lemma DistinctSnoc(log0: seq<Event>, log: seq<Event>, e: Event)
    requires log0 <= log && Distinct(log, |log0|) && e !in Elements(log[|log0|..])
    ensures Distinct(log + [e], |log0|)
  {
  }

  /** The lines a log gains over two stretches are those of each stretch. */
  lemma LogGrowth(log0: seq<Event>, log1: seq<Event>, log2: seq<Event>)
    requires log0 <= log1 <= log2
    ensures log0 <= log2
    ensures Elements(log2[|log0|..]) == Elements(log1[|log0|..]) + Elements(log2[|log1|..])
  {
  }

  // One loop step of each phase, stated on its own so that each loop body stays small.

  lemma CopyStep(dir: Path, cur: map<string, Entry>, s: map<string, Entry>, done: set<string>, n: string)
    requires done + {n} <= s.Keys
    ensures Copied(cur, s, done)[n := s[n]] == Copied(cur, s, done + {n})
    ensures CopyEvents(dir, done + {n}) == CopyEvents(dir, done) + {Copying(dir + [n])}

  {
  }

  /** The line of a name not yet done is not among the lines of the names done: each names its own child. */
  lemma CopyFresh(dir: Path, done: set<string>, n: string)
    requires n !in done
    ensures Copying(dir + [n]) !in CopyEvents(dir, done)
  {
    forall k | k in done
      ensures dir + [k] != dir + [n]
    {
      assert (dir + [k])[|dir|] == k;
    }
  }

  lemma DeleteStep(dir: Path, cur: map<string, Entry>, done: set<string>, n: string)
    requires done + {n} <= cur.Keys
    ensures (cur - done) - {n} == cur - (done + {n})
    ensures DeleteEvents(dir, cur, done + {n})
         == DeleteEvents(dir, cur, done) + {if cur[n].Dir? then DeletingDir(dir + [n]) else DeletingFile(dir + [n])}

  {
  }

  lemma DeleteFresh(dir: Path, cur: map<string, Entry>, done: set<string>, n: string)
    requires n !in done && done + {n} <= cur.Keys
    ensures (if cur[n].Dir? then DeletingDir(dir + [n]) else DeletingFile(dir + [n])) !in DeleteEvents(dir, cur, done)
  {
    forall k | k in done
      ensures dir + [k] != dir + [n]
    {
      assert (dir + [k])[|dir|] == k;
    }
  }

  lemma UpdateStep(dir: Path, cur: map<string, Entry>, s: map<string, Entry>, done: set<string>, n: string)
    requires done + {n} <= s.Keys && done + {n} <= cur.Keys && n !in done
    ensures cur[n] != s[n] ==> Overwritten(cur, s, done)[n := s[n]] == Overwritten(cur, s, done + {n})
    ensures cur[n] != s[n] ==> UpdateEvents(dir, cur, s, done + {n}) == UpdateEvents(dir, cur, s, done) + {Updated(dir + [n])}
    ensures cur[n] == s[n] ==> Overwritten(cur, s, done) == Overwritten(cur, s, done + {n})
    ensures cur[n] == s[n] ==> UpdateEvents(dir, cur, s, done + {n}) == UpdateEvents(dir, cur, s, done)

  {
  }

  lemma UpdateFresh(dir: Path, cur: map<string, Entry>, s: map<string, Entry>, done: set<string>, n: string)
    requires n !in done && done <= s.Keys && done <= cur.Keys
    ensures Updated(dir + [n]) !in UpdateEvents(dir, cur, s, done)
  {
    forall k | k in done
      ensures dir + [k] != dir + [n]
    {
      assert (dir + [k])[|dir|] == k;
    }
  }

  /** The replica after one comparison (and, if the bytes differ, one copy) of phase 3 is the next step of Overwritten. */
  lemma UpdateInvariant(r0: Entry, dir: Path, cur: map<string, Entry>, s: map<string, Entry>, done: set<string>,
                        n: string, before: Entry, after: Entry, same: bool)
    requires Get(r0, dir).Some?
    requires n !in done && done + {n} <= s.Keys && done + {n} <= cur.Keys && s[n].File? && cur[n].File?
    requires same <==> s[n].data == cur[n].data
    requires before == Put(r0, dir, Dir(Overwritten(cur, s, done)))
    requires after == if same then before else Put(before, dir + [n], File(s[n].data))
    ensures same <==> cur[n] == s[n]
    ensures after == Put(r0, dir, Dir(Overwritten(cur, s, done + {n})))
  {
    PutChildOf(r0, dir, Overwritten(cur, s, done), n, s[n]);
    UpdateStep(dir, cur, s, done, n);
  }

  /** The log after one comparison of phase 3 has gained the line of that name exactly when its file was stale. */
  lemma UpdateLogStep(log0: seq<Event>, before: seq<Event>, after: seq<Event>, dir: Path,
                      cur: map<string, Entry>, s: map<string, Entry>, done: set<string>, n: string, same: bool)
    requires n !in done && done + {n} <= s.Keys && done + {n} <= cur.Keys
    requires same <==> cur[n] == s[n]
    requires log0 <= before && Elements(before[|log0|..]) == UpdateEvents(dir, cur, s, done)
    requires Distinct(before, |log0|)
    requires after == if same then before else before + [Updated(dir + [n])]
    ensures log0 <= after && Elements(after[|log0|..]) == UpdateEvents(dir, cur, s, done + {n})
    ensures Distinct(after, |log0|)
  {
    UpdateStep(dir, cur, s, done, n);
    if !same {
      UpdateFresh(dir, cur, s, done, n);
      LogSnoc(log0, before, Updated(dir + [n]));
      DistinctSnoc(log0, before, Updated(dir + [n]));
    }
  }

  lemma RecurseStep(dir: Path, cur: map<string, Entry>, s: map<string, Entry>, done: set<string>, n: string)
    requires done + {n} <= s.Keys && done + {n} <= cur.Keys
    ensures SubEvents(dir, cur, s, done + {n}) == SubEvents(dir, cur, s, done) + SyncEvents(s[n], cur[n], dir + [n])
  {
  }

  lemma SubEventsAgree(dir: Path, d1: map<string, Entry>, d2: map<string, Entry>, s: map<string, Entry>, names: set<string>)
    requires names <= s.Keys && names <= d1.Keys && names <= d2.Keys
    requires forall n :: n in names ==> d1[n] == d2[n]
    ensures SubEvents(dir, d1, s, names) == SubEvents(dir, d2, s, names)
  {
  }

  lemma DescendStep(cur: map<string, Entry>, s: map<string, Entry>, done: set<string>, n: string)
    requires done + {n} <= s.Keys && done + {n} <= cur.Keys
    ensures Descended(cur, s, done)[n := SyncSpec(s[n], cur[n])] == Descended(cur, s, done + {n})
  {
  }

  /** SyncSpec is the four phases run one after the other on the replica directory. */
  lemma SyncSpecByPhases(src: Entry, dst: Entry)
    requires src.Dir? && dst.Dir?
    ensures var s, d := src.children, dst.children;
            SyncSpec(src, dst) == Dir(Descended(ShallowSync(s, d), s, Compare(s, d).commonDirs))
  {
    var s, d := src.children, dst.children;
    var c := Compare(s, d);
    assert SyncSpec(src, dst).children == Descended(ShallowSync(s, d), s, c.commonDirs);
  }

  /** SyncEvents is the events of the four phases, each read against the replica as that phase found it. */
  lemma SyncEventsByPhases(src: Entry, dst: Entry, dir: Path)
    requires src.Dir? && dst.Dir?
    ensures var s, d := src.children, dst.children;
            var c := Compare(s, d);
            var copied := Copied(d, s, c.leftOnly);
            SyncEvents(src, dst, dir)
              == CopyEvents(dir, c.leftOnly) + DeleteEvents(dir, copied, c.rightOnly)
                 + UpdateEvents(dir, copied - c.rightOnly, s, c.commonFiles) + SubEvents(dir, ShallowSync(s, d), s, c.commonDirs)
  {
    var s, d := src.children, dst.children;
    var c := Compare(s, d);
    var copied := Copied(d, s, c.leftOnly);
    assert DeleteEvents(dir, copied, c.rightOnly) == DeleteEvents(dir, d, c.rightOnly);
    assert UpdateEvents(dir, copied - c.rightOnly, s, c.commonFiles) == UpdateEvents(dir, d, s, c.commonFiles);
    SubEventsAgree(dir, ShallowSync(s, d), d, s, c.commonDirs);
  }

  /** The replica after one recursive Sync of phase 4 is the next step of Descended. */
  lemma DescendInvariant(r0: Entry, dir: Path, cur: map<string, Entry>, s: map<string, Entry>, done: set<string>,
                         n: string, before: Entry, after: Entry)
    requires Get(r0, dir).Some?
    requires done + {n} <= s.Keys && done + {n} <= cur.Keys
    requires before == Put(r0, dir, Dir(Descended(cur, s, done)))
    requires after == Put(before, dir + [n], SyncSpec(s[n], cur[n]))
    ensures after == Put(r0, dir, Dir(Descended(cur, s, done + {n})))
  {
    PutChildOf(r0, dir, Descended(cur, s, done), n, SyncSpec(s[n], cur[n]));
    DescendStep(cur, s, done, n);
  }

  /** A name a directory logs is the directory's own path, extended by at least one name. */
  ghost predicate Below(dir: Path, e: Event)
  {
    |e.path| > |dir| && e.path[..|dir|] == dir
  }

  lemma {:induction false} EventsBelow(src: Entry, dst: Entry, dir: Path)
    requires src.Dir? && dst.Dir?
    ensures forall e :: e in SyncEvents(src, dst, dir) ==> Below(dir, e)
    decreases src
  {
    var s, d := src.children, dst.children;
    var c := Compare(s, d);
    forall e | e in SyncEvents(src, dst, dir)
      ensures Below(dir, e)
    {
      if e in CopyEvents(dir, c.leftOnly) {
        var k :| k in c.leftOnly && e == Copying(dir + [k]);
      } else if e in DeleteEvents(dir, d, c.rightOnly) {
        var k :| k in c.rightOnly && e == (if d[k].Dir? then DeletingDir(dir + [k]) else DeletingFile(dir + [k]));
      } else if e in UpdateEvents(dir, d, s, c.commonFiles) {
        var k :| k in c.commonFiles && d[k] != s[k] && e == Updated(dir + [k]);
      } else {
        var k :| k in c.commonDirs && e in SyncEvents(s[k], d[k], dir + [k]);
        EventsBelow(s[k], d[k], dir + [k]);
        assert e.path[..|dir|] == e.path[..|dir + [k]|][..|dir|];
      }
    }
  }

  /** The events of the recursive passes name paths at least two names below `dir`. */
  lemma SubEventsDeep(src: Entry, dst: Entry, dir: Path)
    requires src.Dir? && dst.Dir?
    ensures var c := Compare(src.children, dst.children);
            forall e :: e in SubEvents(dir, dst.children, src.children, c.commonDirs) ==> |e.path| > |dir| + 1
  {
    var s, d := src.children, dst.children;
    var c := Compare(s, d);
    forall e | e in SubEvents(dir, d, s, c.commonDirs)
      ensures |e.path| > |dir| + 1
    {
      var k :| k in c.commonDirs && e in SyncEvents(s[k], d[k], dir + [k]);
      EventsBelow(s[k], d[k], dir + [k]);
    }
  }

  /** Every line of a recursive pass into `dir + [k]` names a path through the child `k`. */
  lemma EventsThrough(src: Entry, dst: Entry, dir: Path, k: string)
    requires src.Dir? && dst.Dir?
    ensures forall e :: e in SyncEvents(src, dst, dir + [k]) ==> |e.path| > |dir| && e.path[|dir|] == k
  {
    EventsBelow(src, dst, dir + [k]);
    forall e | e in SyncEvents(src, dst, dir + [k])
      ensures |e.path| > |dir| && e.path[|dir|] == k
    {
      assert e.path[..|dir| + 1][|dir|] == e.path[|dir|];
    }
  }

  /** The lines of the recursive pass into one common directory are apart from those of the passes into the others. */
  lemma SubEventsApart(dir: Path, d: map<string, Entry>, s: map<string, Entry>, done: set<string>, n: string)
    requires n !in done && done + {n} <= s.Keys && done + {n} <= d.Keys
    requires forall k :: k in done + {n} ==> s[k].Dir? && d[k].Dir?
    ensures SubEvents(dir, d, s, done) !! SyncEvents(s[n], d[n], dir + [n])
  {
    EventsThrough(s[n], d[n], dir, n);
    forall e | e in SubEvents(dir, d, s, done)
      ensures |e.path| > |dir| && e.path[|dir|] in done
    {
      var k :| k in done && e in SyncEvents(s[k], d[k], dir + [k]);
      EventsThrough(s[k], d[k], dir, k);
    }
  }

  lemma CopyShape(dir: Path, names: set<string>)
    ensures forall e :: e in CopyEvents(dir, names) ==> e.Copying? && |e.path| == |dir| + 1
  {
  }

  lemma DeleteShape(dir: Path, d: map<string, Entry>, names: set<string>)
    requires names <= d.Keys
    ensures forall e :: e in DeleteEvents(dir, d, names) ==> (e.DeletingDir? || e.DeletingFile?) && |e.path| == |dir| + 1
  {
  }

  lemma UpdateShape(dir: Path, d: map<string, Entry>, s: map<string, Entry>, names: set<string>)
    requires names <= s.Keys && names <= d.Keys
    ensures forall e :: e in UpdateEvents(dir, d, s, names) ==> e.Updated? && |e.path| == |dir| + 1
  {
  }

  /** The lines of the four phases of one pass are pairwise apart: the kind of line, and the depth, tells them apart. */
  lemma PhasesApart(src: Entry, dst: Entry, dir: Path)
    requires src.Dir? && dst.Dir?
    ensures var s, d := src.children, dst.children;
            var c := Compare(s, d);
            var copied := Copied(d, s, c.leftOnly);
            var e1, e2 := CopyEvents(dir, c.leftOnly), DeleteEvents(dir, copied, c.rightOnly);
            var e3 := UpdateEvents(dir, copied - c.rightOnly, s, c.commonFiles);
            e1 !! e2 && e1 + e2 !! e3 && e1 + e2 + e3 !! SubEvents(dir, ShallowSync(s, d), s, c.commonDirs)
  {
    var s, d := src.children, dst.children;
    var c := Compare(s, d);
    var copied := Copied(d, s, c.leftOnly);
    CopyShape(dir, c.leftOnly);
    DeleteShape(dir, copied, c.rightOnly);
    UpdateShape(dir, copied - c.rightOnly, s, c.commonFiles);
    SubEventsAgree(dir, ShallowSync(s, d), d, s, c.commonDirs);
    SubEventsDeep(src, dst, dir);
  }

  /** Four stretches of distinct lines whose sets are pairwise apart make one stretch of distinct lines. */
  lemma DistinctPhases(log0: seq<Event>, log1: seq<Event>, log2: seq<Event>, log3: seq<Event>, log4: seq<Event>)
    requires log0 <= log1 <= log2 <= log3 <= log4
    requires Distinct(log1, |log0|) && Distinct(log2, |log1|) && Distinct(log3, |log2|) && Distinct(log4, |log3|)
    requires Elements(log1[|log0|..]) !! Elements(log2[|log1|..])
    requires Elements(log1[|log0|..]) + Elements(log2[|log1|..]) !! Elements(log3[|log2|..])
    requires Elements(log1[|log0|..]) + Elements(log2[|log1|..]) + Elements(log3[|log2|..]) !! Elements(log4[|log3|..])
    ensures Distinct(log4, |log0|)
  {
    DistinctAppend(log0, log1, log2);
    LogGrowth(log0, log1, log2);
    DistinctAppend(log0, log2, log3);
    LogGrowth(log0, log2, log3);
    DistinctAppend(log0, log3, log4);
  }

  /** Two stretches of distinct lines whose sets are apart make one stretch of distinct lines. */
  lemma DistinctAppend(log0: seq<Event>, log1: seq<Event>, log2: seq<Event>)
    requires log0 <= log1 <= log2
    requires Distinct(log1, |log0|) && Distinct(log2, |log1|)
    requires Elements(log1[|log0|..]) !! Elements(log2[|log1|..])
    ensures Distinct(log2, |log0|)
  {
    forall i, j | |log0| <= i < |log1| <= j < |log2|
      ensures log2[i] != log2[j]
    {
      assert log2[i] == log1[|log0|..][i - |log0|] && log2[i] in Elements(log1[|log0|..]);
      assert log2[j] == log2[|log1|..][j - |log1|] && log2[j] in Elements(log2[|log1|..]);
    }
  }
}
