/**
 * What one pass of the mirror achieves, proved about SyncSpec and SyncEvents
 * (and so, through the contract of Pass.Sync, about the pass itself):
 * the outcome for each child name, mirroring along every path the pass can
 * reach, convergence, idempotence, and which log lines a pass writes.
 */
module MirrorProperties {
  import opened FileSystem
  import opened DirCompare
  import opened Mirror

  /**
   * The fate of each child name in one pass: copied in, removed, overwritten
   * from the source, reconciled recursively, or (a type mismatch or an
   * ignored name) left exactly as it was.
   */
  lemma SyncOutcome(src: Entry, dst: Entry, n: string)
    requires src.Dir? && dst.Dir?
    ensures var s, d, r := src.children, dst.children, SyncSpec(src, dst).children;
            var c := Compare(s, d);
            && (n in c.leftOnly ==> n in r && r[n] == s[n])
            && (n in c.rightOnly ==> n !in r)
            && (n in c.commonFiles ==> n in r && r[n] == s[n])
            && (n in c.commonDirs ==> n in r && r[n] == SyncSpec(s[n], d[n]))
            && (n in c.commonFunny ==> n in r && r[n] == d[n])
            && (n in Skipped ==> (n in r <==> n in d) && (n in d ==> r[n] == d[n]))
            && (n !in s && n !in d ==> n !in r)
  {
    // Dafny proves this unaided; the case split only keeps the search short.
    var c := Compare(src.children, dst.children);
    if n in c.leftOnly {
      assert n !in c.rightOnly && n !in c.commonFiles && n !in c.commonDirs;
    } else if n in c.commonFiles {
      assert n !in c.commonDirs && n !in c.rightOnly;
    } else if n in c.commonFunny {
      assert n !in c.commonDirs && n !in c.rightOnly && n !in c.commonFiles;
    }
  }

  /** Reconciling a directory with an identical copy of itself changes nothing. */
  lemma {:induction false} SyncSelf(x: Entry)
    requires x.Dir?
    ensures SyncSpec(x, x) == x
    decreases x
  {
    var s := x.children;
    var r := SyncSpec(x, x).children;
    var c := Compare(s, s);
    forall n | n in s || n in r
      ensures n in s && n in r && r[n] == s[n]
    {
      SyncOutcome(x, x, n);
      if n in c.commonDirs {
        SyncSelf(s[n]);
      }
    }
    assert r == s;
  }

  /**
   * Idempotence: a second pass against an unchanged source leaves the
   * replica as the first pass left it.
   */
  lemma {:induction false} SyncIdempotent(src: Entry, dst: Entry)
    requires src.Dir? && dst.Dir?
    ensures SyncSpec(src, SyncSpec(src, dst)) == SyncSpec(src, dst)
    decreases src, 1
  {
    var r, r2 := SyncSpec(src, dst).children, SyncSpec(src, SyncSpec(src, dst)).children;
    forall n | n in r || n in r2
      ensures n in r && n in r2 && r2[n] == r[n]
    {
      IdempotentAt(src, dst, n);
    }
    assert r2 == r;
  }

  /** The step of SyncIdempotent for one child name. */
  lemma {:induction false} IdempotentAt(src: Entry, dst: Entry, n: string)
    requires src.Dir? && dst.Dir?
    ensures var r, r2 := SyncSpec(src, dst).children, SyncSpec(src, SyncSpec(src, dst)).children;
            (n in r <==> n in r2) && (n in r ==> r2[n] == r[n])
    decreases src, 0
  {
    var s, d := src.children, dst.children;
    var once := SyncSpec(src, dst);
    var r := once.children;
    var c, c2 := Compare(s, d), Compare(s, r);
    SyncOutcome(src, dst, n);
    SyncOutcome(src, once, n);
    if n in Skipped {
    } else if n in c.leftOnly {
      if s[n].Dir? {
        assert n in c2.commonDirs;
        SyncSelf(s[n]);
      } else {
        assert n in c2.commonFiles;
      }
    } else if n in c.rightOnly {
      assert n !in s && n !in r;
    } else if n in c.commonFiles {
      assert n in c2.commonFiles;
    } else if n in c.commonDirs {
      assert n in c2.commonDirs;
      SyncIdempotent(s[n], d[n]);
    } else if n in c.commonFunny {
      assert n in c2.commonFunny;
    } else {
      assert n !in s && n !in d && n !in r;
    }
  }

  /** No name at any depth the pass visits is ignored or a file on one side and a directory on the other. */
  ghost predicate Mirrorable(src: Entry, dst: Entry)
    requires src.Dir? && dst.Dir?
    decreases src
  {
    var s, d := src.children, dst.children;
    var c := Compare(s, d);
    && s.Keys !! Skipped
    && d.Keys !! Skipped
    && c.commonFunny == {}
    && forall n :: n in c.commonDirs ==> Mirrorable(s[n], d[n])
  }

  /** Convergence: when nothing is ignored or mismatched, one pass makes the replica equal to the source. */
  lemma {:induction false} Convergence(src: Entry, dst: Entry)
    requires src.Dir? && dst.Dir?
    requires Mirrorable(src, dst)
    ensures SyncSpec(src, dst) == src
    decreases src
  {
    var s, d := src.children, dst.children;
    var r := SyncSpec(src, dst).children;
    var c := Compare(s, d);
    forall n | n in s || n in r
      ensures n in s && n in r && r[n] == s[n]
    {
      SyncOutcome(src, dst, n);
      if n in c.commonDirs {
        Convergence(s[n], d[n]);
      }
    }
    assert r == s;
  }

  /**
   * A path the pass follows to its end: no name on it is ignored, and at
   * every step where both sides have the name, they agree on its kind.
   */
  ghost predicate CleanPath(src: Entry, dst: Entry, p: Path)
    requires src.Dir? && dst.Dir?
    decreases p
  {
    p == [] ||
    (p[0] !in Skipped &&
     (p[0] in src.children && p[0] in dst.children ==>
        SameKind(src.children[p[0]], dst.children[p[0]]) &&
        (src.children[p[0]].Dir? ==> CleanPath(src.children[p[0]], dst.children[p[0]], p[1..]))))
  }

  /**
   * At any depth, along a clean path, the replica after the pass has an
   * entry exactly where the source has one, of the same kind, and every
   * file there holds the source's bytes. In particular an entry absent from
   * the source is gone from the replica with all it held.
   */
  lemma {:induction false} MirroredAlongCleanPath(src: Entry, dst: Entry, p: Path)
    requires src.Dir? && dst.Dir?
    requires CleanPath(src, dst, p)
    ensures Get(SyncSpec(src, dst), p).Some? <==> Get(src, p).Some?
    ensures Get(src, p).Some? ==> (Get(SyncSpec(src, dst), p).value.Dir? <==> Get(src, p).value.Dir?)
    ensures Get(src, p).Some? && Get(src, p).value.File? ==> Get(SyncSpec(src, dst), p) == Get(src, p)
    decreases p
  {
    if p != [] {
      var n, q := p[0], p[1..];
      var s, d := src.children, dst.children;
      var c := Compare(s, d);
      SyncOutcome(src, dst, n);
      if n in c.commonDirs {
        MirroredAlongCleanPath(s[n], d[n], q);
      }
    }
  }

  lemma SyncEventsSplit(src: Entry, dst: Entry, dir: Path)
    requires src.Dir? && dst.Dir?
    ensures var s, d := src.children, dst.children;
            var c := Compare(s, d);
            SyncEvents(src, dst, dir) == CopyEvents(dir, c.leftOnly) + DeleteEvents(dir, d, c.rightOnly)
                                         + UpdateEvents(dir, d, s, c.commonFiles) + SubEvents(dir, d, s, c.commonDirs)
  {
  }

  lemma CopyEventsAt(dir: Path, names: set<string>, n: string)
    ensures Copying(dir + [n]) in CopyEvents(dir, names) <==> n in names
  {
    if Copying(dir + [n]) in CopyEvents(dir, names) {
      var k :| k in names && Copying(dir + [k]) == Copying(dir + [n]);
      assert (dir + [k])[|dir|] == k;
    }
  }

  lemma DeleteEventsAt(dir: Path, d: map<string, Entry>, names: set<string>, n: string)
    requires names <= d.Keys
    ensures DeletingDir(dir + [n]) in DeleteEvents(dir, d, names) <==> n in names && d[n].Dir?
    ensures DeletingFile(dir + [n]) in DeleteEvents(dir, d, names) <==> n in names && d[n].File?
  {
    var evs := DeleteEvents(dir, d, names);
    if DeletingDir(dir + [n]) in evs {
      var k :| k in names && DeletingDir(dir + [n]) == (if d[k].Dir? then DeletingDir(dir + [k]) else DeletingFile(dir + [k]));
      assert (dir + [k])[|dir|] == k;
    }
    if DeletingFile(dir + [n]) in evs {
      var k :| k in names && DeletingFile(dir + [n]) == (if d[k].Dir? then DeletingDir(dir + [k]) else DeletingFile(dir + [k]));
      assert (dir + [k])[|dir|] == k;
    }
    if n in names {
      assert (if d[n].Dir? then DeletingDir(dir + [n]) else DeletingFile(dir + [n])) in evs;
    }
  }

  lemma UpdateEventsAt(dir: Path, d: map<string, Entry>, s: map<string, Entry>, names: set<string>, n: string)
    requires names <= s.Keys && names <= d.Keys
    ensures Updated(dir + [n]) in UpdateEvents(dir, d, s, names) <==> n in names && s[n] != d[n]
  {
    if Updated(dir + [n]) in UpdateEvents(dir, d, s, names) {
      var k :| k in names && d[k] != s[k] && Updated(dir + [k]) == Updated(dir + [n]);
      assert (dir + [k])[|dir|] == k;
    }
  }

  /**
   * The lines a pass logs for the children of one directory: "copying"
   * exactly for the source-only names, "deleting" exactly for the
   * replica-only ones (as a directory or a file, by the replica's kind), and
   * "updated" exactly for the common files whose bytes differ.
   */
  lemma LoggedForChild(src: Entry, dst: Entry, dir: Path, n: string)
    requires src.Dir? && dst.Dir?
    ensures var s, d := src.children, dst.children;
            var c := Compare(s, d);
            var log := SyncEvents(src, dst, dir);
            && (Copying(dir + [n]) in log <==> n in c.leftOnly)
            && (DeletingDir(dir + [n]) in log <==> n in c.rightOnly && d[n].Dir?)
            && (DeletingFile(dir + [n]) in log <==> n in c.rightOnly && d[n].File?)
            && (Updated(dir + [n]) in log <==> n in c.commonFiles && s[n] != d[n])
  {
    LoggedCopying(src, dst, dir, n);
    LoggedDeleting(src, dst, dir, n);
    LoggedUpdated(src, dst, dir, n);
  }

  lemma LoggedCopying(src: Entry, dst: Entry, dir: Path, n: string)
    requires src.Dir? && dst.Dir?
    ensures Copying(dir + [n]) in SyncEvents(src, dst, dir) <==> n in Compare(src.children, dst.children).leftOnly
  {
    var s, d := src.children, dst.children;
    var c := Compare(s, d);
    SyncEventsSplit(src, dst, dir);
    SubEventsDeep(src, dst, dir);
    CopyEventsAt(dir, c.leftOnly, n);
  }

  lemma LoggedDeleting(src: Entry, dst: Entry, dir: Path, n: string)
    requires src.Dir? && dst.Dir?
    ensures var c := Compare(src.children, dst.children);
            && (DeletingDir(dir + [n]) in SyncEvents(src, dst, dir) <==> n in c.rightOnly && dst.children[n].Dir?)
            && (DeletingFile(dir + [n]) in SyncEvents(src, dst, dir) <==> n in c.rightOnly && dst.children[n].File?)
  {
    var s, d := src.children, dst.children;
    var c := Compare(s, d);
    SyncEventsSplit(src, dst, dir);
    SubEventsDeep(src, dst, dir);
    DeleteEventsAt(dir, d, c.rightOnly, n);
  }

  lemma LoggedUpdated(src: Entry, dst: Entry, dir: Path, n: string)
    requires src.Dir? && dst.Dir?
    ensures var s, d := src.children, dst.children;
            Updated(dir + [n]) in SyncEvents(src, dst, dir) <==> n in Compare(s, d).commonFiles && s[n] != d[n]
  {
    var s, d := src.children, dst.children;
    var c := Compare(s, d);
    SyncEventsSplit(src, dst, dir);
    SubEventsDeep(src, dst, dir);
    UpdateEventsAt(dir, d, s, c.commonFiles, n);
  }

  /** A pass over an identical copy logs nothing. */
  lemma {:induction false} SyncSelfQuiet(x: Entry, dir: Path)
    requires x.Dir?
    ensures SyncEvents(x, x, dir) == {}
    decreases x
  {
    var s := x.children;
    var c := Compare(s, s);
    assert c.leftOnly == {} && c.rightOnly == {};
    forall n | n in c.commonDirs
      ensures SyncEvents(s[n], s[n], dir + [n]) == {}
    {
      SyncSelfQuiet(s[n], dir + [n]);
    }
  }

  /**
   * A second pass against an unchanged source copies, deletes and updates
   * nothing, so it logs no line.
   */
  lemma {:induction false} SecondPassQuiet(src: Entry, dst: Entry, dir: Path)
    requires src.Dir? && dst.Dir?
    ensures SyncEvents(src, SyncSpec(src, dst), dir) == {}
    decreases src, 1
  {
    var s := src.children;
    var once := SyncSpec(src, dst);
    var r := once.children;
    var c2 := Compare(s, r);
    forall n | n in s || n in r
      ensures n !in c2.leftOnly && n !in c2.rightOnly
      ensures n in c2.commonFiles ==> s[n] == r[n]
      ensures n in c2.commonDirs ==> SyncEvents(s[n], r[n], dir + [n]) == {}
    {
      QuietAt(src, dst, dir, n);
    }
    assert c2.leftOnly == {} && c2.rightOnly == {};
    assert UpdateEvents(dir, r, s, c2.commonFiles) == {};
    assert SubEvents(dir, r, s, c2.commonDirs) == {};
    SyncEventsSplit(src, once, dir);
  }

  /** The step of SecondPassQuiet for one child name. */
  lemma {:induction false} QuietAt(src: Entry, dst: Entry, dir: Path, n: string)
    requires src.Dir? && dst.Dir?
    ensures var s, r := src.children, SyncSpec(src, dst).children;
            var c2 := Compare(s, r);
            && n !in c2.leftOnly && n !in c2.rightOnly
            && (n in c2.commonFiles ==> s[n] == r[n])
            && (n in c2.commonDirs ==> SyncEvents(s[n], r[n], dir + [n]) == {})
    decreases src, 0
  {
    var s, d := src.children, dst.children;
    var c := Compare(s, d);
    SyncOutcome(src, dst, n);
    if n in c.commonDirs {
      SecondPassQuiet(s[n], d[n], dir + [n]);
    } else if n in c.leftOnly && s[n].Dir? {
      SyncSelfQuiet(s[n], dir + [n]);
    }
  }
}
