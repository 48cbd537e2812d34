/**
 * The classification `filecmp.dircmp` makes of the immediate children of a
 * source and a replica directory (the `c = dircmp(src, dst)` of `sync`).
 *
 * Both listings first lose the hidden names and the default-ignored names.
 * A name on both sides is a common directory when it is a directory on both
 * sides, a common file when it is a file on both, and "funny" (a type
 * mismatch) otherwise; `sync` visits no funny name in any phase.
 */
module DirCompare {
  import opened FileSystem

  /** Names dircmp hides by default (os.curdir and os.pardir). */
  const Hidden: set<string> := {".", ".."}

  /** filecmp.DEFAULT_IGNORES. */
  const DefaultIgnores: set<string> :=
    {"RCS", "CVS", "tags", ".git", ".hg", ".bzr", "_darcs", "__pycache__"}

  /** Every name dircmp leaves out of both listings. */
  const Skipped: set<string> := Hidden + DefaultIgnores

  datatype Comparison = Comparison(
    leftOnly: set<string>,
    rightOnly: set<string>,
    commonDirs: set<string>,
    commonFiles: set<string>,
    commonFunny: set<string>)

  /** Same kind of entry: both directories or both files. */
  predicate SameKind(a: Entry, b: Entry)
  {
    a.Dir? == b.Dir?
  }

  function Compare(left: map<string, Entry>, right: map<string, Entry>): (c: Comparison)
    // the five buckets split the listed names of both sides
    ensures c.leftOnly + c.commonDirs + c.commonFiles + c.commonFunny == left.Keys - Skipped
    ensures c.rightOnly + c.commonDirs + c.commonFiles + c.commonFunny == right.Keys - Skipped
    ensures c.leftOnly !! c.rightOnly
    ensures c.leftOnly !! right.Keys && c.rightOnly !! left.Keys
    ensures c.commonDirs !! c.commonFiles && c.commonDirs !! c.commonFunny && c.commonFiles !! c.commonFunny
    // the split of the common names by both sides' kind
    ensures forall n :: n in c.commonDirs ==> left[n].Dir? && right[n].Dir?
    ensures forall n :: n in c.commonFiles ==> left[n].File? && right[n].File?
    ensures forall n :: n in c.commonFunny ==> !SameKind(left[n], right[n])
  {
    var l := left.Keys - Skipped;
    var r := right.Keys - Skipped;
    var common := l * r;
    Comparison(
      l - r,
      r - l,
      set n | n in common && left[n].Dir? && right[n].Dir?,
      set n | n in common && left[n].File? && right[n].File?,
      set n | n in common && !SameKind(left[n], right[n]))
  }
}
