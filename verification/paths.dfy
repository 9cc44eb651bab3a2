/**
 Filesystem paths as the program manipulates them with `std::filesystem`.

 A path is the sequence of its element names after the root (the drive and
 root separator are not modelled).  A trailing separator shows up as a final
 empty name, exactly as iterating over `fs::path` yields it: `C:\d\` is
 `["d", ""]`, `C:\d` is `["d"]`, and `C:\` is `[]`.

 Paths are compared as `fs::path::compare` does: element by element, each
 element compared by its characters, and a proper prefix sorts first.
 */
module Paths {
  import opened Order

  type Name = string

  type Path = seq<Name>

  /** No empty element, except a final one that stands for a trailing separator after some name. */
  predicate WellFormed(p: Path) {
    forall i :: 0 <= i < |p| && p[i] == "" ==> 0 < i == |p| - 1
  }

  predicate EndsInSeparator(p: Path) {
    |p| > 0 && p[|p| - 1] == ""
  }

  /** `p.filename()`: the last element, empty when the path ends in a separator or is only a root. */
  function FileName(p: Path): (r: Name)
    ensures WellFormed(p) ==> (r == "" <==> |p| == 0 || EndsInSeparator(p))
  {
    if |p| == 0 then "" else p[|p| - 1]
  }

  /** `p.parent_path()`: everything but the last element. */
  function ParentPath(p: Path): (r: Path)
    ensures r <= p && |r| == if |p| == 0 then 0 else |p| - 1
    ensures WellFormed(p) ==> WellFormed(r) && !EndsInSeparator(r)
  {
    if |p| == 0 then p else p[..|p| - 1]
  }

  /**
   `p / n` for a relative `n` of at most one element: a separator is added
   only when `p` has a file name, and an empty `n` leaves just that separator.
   */
  function Join(p: Path, n: Name): (r: Path)
    ensures n != "" ==> FileName(r) == n
    ensures n != "" && !EndsInSeparator(p) ==> ParentPath(r) == p
    ensures WellFormed(p) ==> WellFormed(r)
  {
    if n == "" then
      (if |p| == 0 || EndsInSeparator(p) then p else p + [""])
    else if EndsInSeparator(p) then p[..|p| - 1] + [n]
    else p + [n]
  }

  /** `p += s`: plain text appended to the last element, with no separator. */
  function Concat(p: Path, s: string): (r: Path)
    ensures |p| > 0 ==> |r| == |p| && r[..|r| - 1] == p[..|p| - 1]
    ensures FileName(r) == FileName(p) + s
  {
    if |p| == 0 then [s] else p[..|p| - 1] + [p[|p| - 1] + s]
  }

  /**
   The directory a path names, without a trailing separator: `C:\d\` and
   `C:\d` both name `C:\d`.
   */
  function DirBase(p: Path): (r: Path)
    ensures r <= p
    ensures WellFormed(p) ==> WellFormed(r) && !EndsInSeparator(r)
    ensures EndsInSeparator(p) ==> |r| == |p| - 1
    ensures !EndsInSeparator(p) ==> r == p
  {
    if EndsInSeparator(p) then ParentPath(p) else p
  }

  /** `p` lies strictly below the directory `root` names: it extends that directory by at least one name. */
  predicate Below(p: Path, root: Path) {
    |DirBase(root)| < |p| && DirBase(root) <= p
  }

  /** The manifest name the program derives from its target: `parent_path() / filename() += ".sfv"`. */
  function SfvPath(target: Path): (r: Path)
    ensures WellFormed(target) ==> r == Concat(target, ".sfv")
  {
    var r := Concat(Join(ParentPath(target), FileName(target)), ".sfv");
    if WellFormed(target) then JoinParentFileName(target); r else r
  }

  /** Splitting a path into parent and file name and joining them again gives the path back. */
  lemma JoinParentFileName(p: Path)
    requires WellFormed(p)
    ensures Join(ParentPath(p), FileName(p)) == p
  {
    if |p| > 0 {
      assert p == p[..|p| - 1] + [p[|p| - 1]];
    }
  }

  /**
   The manifest sits where the target is, under the target's own name with
   ".sfv" appended: `C:\d` gives `C:\d.sfv`, beside the directory, while
   `C:\d\` gives `C:\d\.sfv`, inside it.
   */
  lemma SfvPathShape(target: Path)
    requires WellFormed(target)
    ensures FileName(SfvPath(target)) == FileName(target) + ".sfv"
    ensures ParentPath(SfvPath(target)) == ParentPath(target)
    ensures WellFormed(SfvPath(target))
  {
    var r := SfvPath(target);
    if |target| > 0 {
      assert r[..|r| - 1] == target[..|target| - 1];
    }
  }

  /** Characters compare by code point. */
  function CharLess(a: char, b: char): bool {
    a < b
  }

  /** Names compare character by character. */
  function NameLess(a: Name, b: Name): bool {
    LexLess(a, b, CharLess)
  }

  /** Paths compare element by element, as `fs::path::compare`. */
  function PathLess(a: Path, b: Path): bool {
    LexLess(a, b, NameLess)
  }

  lemma NameOrder()
    ensures StrictTotalOrder(NameLess)
  {
    assert StrictTotalOrder(CharLess);
    forall a: Name {
      LexIrreflexive(a, CharLess);
    }
    forall a: Name, b: Name, c: Name | NameLess(a, b) && NameLess(b, c) {
      LexTransitive(a, b, c, CharLess);
    }
    forall a: Name, b: Name | a != b {
      LexTotal(a, b, CharLess);
    }
  }

  lemma PathLessIrreflexive(a: Path)
    ensures !PathLess(a, a)
  {
    LexIrreflexive(a, NameLess);
  }

  lemma PathLessTransitive(a: Path, b: Path, c: Path)
    requires PathLess(a, b) && PathLess(b, c)
    ensures PathLess(a, c)
  {
    NameOrder();
    LexTransitive(a, b, c, NameLess);
  }

  lemma PathLessTotal(a: Path, b: Path)
    requires a != b
    ensures PathLess(a, b) || PathLess(b, a)
  {
    NameOrder();
    LexTotal(a, b, NameLess);
  }
}
