/**
 * The directory trees the mirror works on, as values.
 *
 * A file is its byte content; a directory maps each child name to the entry
 * that bears it. Metadata (times, permissions) and symbolic links are not part
 * of the model. A path is the list of names from a root directory down to an
 * entry, so `dir + [name]` is the path the program writes as `dst / name`.
 */
module FileSystem {

  type byte = bv8

  datatype Option<T> = None | Some(value: T)

  datatype Entry = File(data: seq<byte>) | Dir(children: map<string, Entry>)

  type Path = seq<string>

  /** The entry reached by following `p` from `t`, if there is one. */
  function Get(t: Entry, p: Path): (r: Option<Entry>)
    ensures p == [] ==> r == Some(t)
    decreases p
  {
    if p == [] then Some(t)
    else match t
      case File(_) => None
      case Dir(ch) => if p[0] in ch then Get(ch[p[0]], p[1..]) else None
  }

  predicate IsDirAt(t: Entry, p: Path)
  {
    Get(t, p).Some? && Get(t, p).value.Dir?
  }

  /** The children of the directory at `p`. */
  function ChildrenAt(t: Entry, p: Path): map<string, Entry>
    requires IsDirAt(t, p)
  {
    Get(t, p).value.children
  }

  /**
   * `t` with the entry at `p` replaced by `e` (or created, when only the last
   * name of `p` is missing). A path that leads through a file or through a
   * missing directory leaves `t` as it is; the operations that use Put
   * require a path that exists.
   */
  function Put(t: Entry, p: Path, e: Entry): Entry
    decreases p
  {
    if p == [] then e
    else match t
      case File(_) => t
      case Dir(ch) =>
        if p[0] in ch then Dir(ch[p[0] := Put(ch[p[0]], p[1..], e)])
        else if |p| == 1 then Dir(ch[p[0] := e])
        else t
  }

  /** `t` without the child `name` of the directory at `dir`. */
  function Delete(t: Entry, dir: Path, name: string): Entry
    requires IsDirAt(t, dir)
  {
    Put(t, dir, Dir(ChildrenAt(t, dir) - {name}))
  }

  /** Looking up `p + q` is looking up `q` below the entry at `p`. */
  lemma {:induction false} GetAppend(t: Entry, p: Path, q: Path)
    ensures Get(t, p + q) == if Get(t, p).Some? then Get(Get(t, p).value, q) else None
    decreases p
  {
    if p == [] {
      assert p + q == q;
    } else if t.Dir? && p[0] in t.children {
      assert (p + q)[0] == p[0] && (p + q)[1..] == p[1..] + q;
      GetAppend(t.children[p[0]], p[1..], q);
    }
  }

  /** The child `name` of the directory at `dir`, as a path lookup. */
  lemma GetChild(t: Entry, dir: Path, name: string)
    requires IsDirAt(t, dir)
    ensures Get(t, dir + [name]) == if name in ChildrenAt(t, dir) then Some(ChildrenAt(t, dir)[name]) else None
  {
    GetAppend(t, dir, [name]);
  }

  /** After replacing the entry at an existing `p`, everything below `p` is read from the new entry. */
  lemma {:induction false} GetPut(t: Entry, p: Path, e: Entry, q: Path)
    requires Get(t, p).Some?
    ensures Get(Put(t, p, e), p + q) == Get(e, q)
    decreases p
  {
    if p == [] {
      assert p + q == q;
    } else {
      assert (p + q)[0] == p[0] && (p + q)[1..] == p[1..] + q;
      GetPut(t.children[p[0]], p[1..], e, q);
    }
  }

  /** Replacing the entry at `p` leaves every path that is neither above nor below `p` as it was. */
  lemma {:induction false} GetPutElsewhere(t: Entry, p: Path, e: Entry, q: Path)
    requires !(p <= q) && !(q <= p)
    ensures Get(Put(t, p, e), q) == Get(t, q)
    decreases p
  {
    if t.Dir? && p[0] == q[0] && p[0] in t.children {
      assert !(p[1..] <= q[1..]) && !(q[1..] <= p[1..]) by {
        assert p == [p[0]] + p[1..] && q == [q[0]] + q[1..];
      }
      GetPutElsewhere(t.children[p[0]], p[1..], e, q[1..]);
    }
  }

  /** A second replacement at the same existing path overrides the first. */
  lemma {:induction false} PutPut(t: Entry, p: Path, a: Entry, b: Entry)
    requires Get(t, p).Some?
    ensures Put(Put(t, p, a), p, b) == Put(t, p, b)
    decreases p
  {
    if p != [] {
      PutPut(t.children[p[0]], p[1..], a, b);
    }
  }

  /** Writing the child `name` of the directory at `dir` is rewriting that directory. */
  lemma {:induction false} PutChild(t: Entry, dir: Path, name: string, e: Entry)
    requires IsDirAt(t, dir)
    ensures Put(t, dir + [name], e) == Put(t, dir, Dir(ChildrenAt(t, dir)[name := e]))
    decreases dir
  {
    if dir == [] {
      assert dir + [name] == [name];
    } else {
      assert (dir + [name])[0] == dir[0] && (dir + [name])[1..] == dir[1..] + [name];
      PutChild(t.children[dir[0]], dir[1..], name, e);
    }
  }

  /** A directory just written at `dir` is found there with the children written. */
  lemma PutDirAt(t: Entry, dir: Path, m: map<string, Entry>)
    requires Get(t, dir).Some?
    ensures IsDirAt(Put(t, dir, Dir(m)), dir) && ChildrenAt(Put(t, dir, Dir(m)), dir) == m
  {
  }

  /** Writing a child of a directory just rewritten at `dir` is rewriting it once more. */
  lemma PutChildOf(t: Entry, dir: Path, m: map<string, Entry>, name: string, e: Entry)
    requires Get(t, dir).Some?
    ensures IsDirAt(Put(t, dir, Dir(m)), dir) && ChildrenAt(Put(t, dir, Dir(m)), dir) == m
    ensures Put(Put(t, dir, Dir(m)), dir + [name], e) == Put(t, dir, Dir(m[name := e]))
  {
    PutDirAt(t, dir, m);
    PutChild(Put(t, dir, Dir(m)), dir, name, e);
    PutPut(t, dir, Dir(m), Dir(m[name := e]));
  }

  /** Deleting a child of a directory just rewritten at `dir` is rewriting it once more. */
  lemma DeleteChildOf(t: Entry, dir: Path, m: map<string, Entry>, name: string)
    requires Get(t, dir).Some?
    ensures IsDirAt(Put(t, dir, Dir(m)), dir)
    ensures Delete(Put(t, dir, Dir(m)), dir, name) == Put(t, dir, Dir(m - {name}))
  {
  }

  /** Writing back the entry already at `p` changes nothing. */
  lemma {:induction false} PutSelf(t: Entry, p: Path)
    requires Get(t, p).Some?
    ensures Put(t, p, Get(t, p).value) == t
    decreases p
  {
    if p != [] {
      PutSelf(t.children[p[0]], p[1..]);
    }
  }
}
