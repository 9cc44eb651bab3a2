/**
 The manifest store `m_files` and how `process_file` fills it.

 The store maps a key (a path) to the rendered CRC of the file.  In
 directory mode the key is the file's path relative to the root; for a
 single file it is the file's own name.  Insertion is `try_emplace`, so the
 first file to claim a key keeps it.  A file that cannot be opened, whose
 size cannot be obtained, or whose relative path cannot be computed leaves
 the store as it was.
 */
module Manifest {
  import opened Results
  import opened Crc32
  import opened Chunks
  import opened Hex
  import opened Paths

  type Key = Path

  type Hash = string

  type Store = map<Key, Hash>

  /** What `fs::file_size` reports; on success, the bytes the reads leave in the buffer, one per byte of the reported size. */
  datatype SizeProbe = SizeError | Size(content: seq<Byte>)

  /** One regular file as the program meets it. */
  datatype FileInput = FileInput(path: Path, opens: bool, size: SizeProbe)

  /** `path_dir` empty: a single file; otherwise the directory the keys are relative to. */
  datatype Mode = SingleFile | Directory(root: Path)

  /** `fs::relative(file, root)`, which either yields a path or reports an error. */
  type Relative = (Path, Path) -> Option<Key>

  /** What processing one file amounts to, before the store is consulted. */
  datatype Outcome = OpenFailed | SizeFailed | RelativeFailed | Recorded(key: Key, hash: Hash)

  /** `m_files.try_emplace(k, v)`: the key is bound to `v` only when it was not bound already. */
  function TryEmplace(m: Store, k: Key, v: Hash): (r: Store)
    ensures r.Keys == m.Keys + {k}
    ensures k in m ==> r[k] == m[k]
    ensures k !in m ==> r[k] == v
    ensures forall j :: j in m ==> r[j] == m[j]
  {
    if k in m then m else m[k := v]
  }

  /**
   What `fs::relative` promises for a file strictly below the root: the
   relative path it finds, appended to the directory the root names, is the
   file's path.  Paths outside the root are left free.
   */
  ghost predicate RelativeSound(relative: Relative) {
    forall p: Path, root: Path :: Below(p, root) && relative(p, root).Some? ==> DirBase(root) + relative(p, root).value == p
  }

  /**
   The key a successfully read file would be stored under, if one can be
   computed: for a single file, the one name that locates it in its parent
   directory; in a directory, the names that lead from the root to it.
   */
  function KeyOf(f: FileInput, mode: Mode, relative: Relative): (r: Option<Key>)
    ensures mode.SingleFile? ==> r.Some? && |r.value| == 1
    ensures mode.SingleFile? && WellFormed(f.path) ==> Join(ParentPath(f.path), r.value[0]) == f.path
    ensures mode.Directory? && RelativeSound(relative) && Below(f.path, mode.root) && r.Some? ==>
              DirBase(mode.root) + r.value == f.path
  {
    match mode
    case SingleFile =>
      if WellFormed(f.path) then JoinParentFileName(f.path); Some([FileName(f.path)])
      else Some([FileName(f.path)])
    case Directory(root) => relative(f.path, root)
  }

  /**
   `fs::relative` for the files a directory walk yields: the names that
   follow those of the directory the root names, with or without a trailing
   separator.  A path that does not lie strictly below the root has none.
   */
  function UnderRoot(p: Path, root: Path): (r: Option<Key>)
    ensures r.Some? <==> Below(p, root)
    ensures r.Some? ==> DirBase(root) + r.value == p && |r.value| > 0
  {
    var base := DirBase(root);
    if |base| < |p| && p[..|base|] == base then Some(p[|base|..]) else None
  }

  /** `UnderRoot` is an instance of `fs::relative` as `KeyOf` relies on it. */
  lemma UnderRootSound()
    ensures RelativeSound(UnderRoot)
  {
  }

  /** A trailing separator on the root does not change the relative paths. */
  lemma UnderTrailingSeparator()
    ensures UnderRoot(["d", "a.bin"], ["d", ""]) == Some(["a.bin"])
    ensures UnderRoot(["d", "a.bin"], ["d"]) == Some(["a.bin"])
    ensures UnderRoot(["d"], ["d", ""]) == None
  {
    assert DirBase(["d", ""]) == ["d"];
    assert ["d", "a.bin"][1..] == ["a.bin"];
  }

  /**
   Soundness says nothing about paths outside the root: a `relative` that
   answers them with a `..` form, as `fs::relative` does, still meets it.
   */
  lemma OutsideAnswersAllowed(relative: Relative)
    requires forall p: Path, root: Path ::
               relative(p, root) == if Below(p, root) then UnderRoot(p, root) else Some([".."] + p)
    ensures RelativeSound(relative)
  {
  }

  /** The checks of `process_file` in their order, and what a file that passes them contributes. */
  function Contribution(f: FileInput, mode: Mode, relative: Relative): (r: Outcome)
    ensures r.OpenFailed? <==> !f.opens
    ensures r.SizeFailed? <==> f.opens && f.size.SizeError?
    ensures r.RelativeFailed? <==> f.opens && f.size.Size? && KeyOf(f, mode, relative).None?
    ensures r.Recorded? ==> f.size.Size? && Some(r.key) == KeyOf(f, mode, relative)
    ensures r.Recorded? ==> r.hash == ToHex(Checksum(f.size.content))
  {
    if !f.opens then OpenFailed
    else match f.size
      case SizeError => SizeFailed
      case Size(content) =>
        var crc := FileCrc(content);
        match KeyOf(f, mode, relative)
        case None => RelativeFailed
        case Some(k) => Recorded(k, ToHex(crc))
  }

  predicate Records(f: FileInput, mode: Mode, relative: Relative, k: Key) {
    var c := Contribution(f, mode, relative);
    c.Recorded? && c.key == k
  }

  /** `process_file` seen through its effect on the store. */
  function ProcessFile(m: Store, f: FileInput, mode: Mode, relative: Relative): (r: Store)
    ensures !Contribution(f, mode, relative).Recorded? ==> r == m
    ensures forall k :: k in m ==> k in r && r[k] == m[k]
    ensures forall k :: k in r && k !in m ==> Records(f, mode, relative, k) && r[k] == Contribution(f, mode, relative).hash
    ensures forall k :: Records(f, mode, relative, k) ==> k in r
  {
    match Contribution(f, mode, relative)
    case Recorded(k, h) => TryEmplace(m, k, h)
    case _ => m
  }

  /**
   Processing the files one after another, in the order the directory walk
   yields them: what was stored stays as it was, and a key is added exactly
   when some file records it.
   */
  function BuildFrom(m: Store, files: seq<FileInput>, mode: Mode, relative: Relative): (r: Store)
    ensures forall k :: k in m ==> k in r && r[k] == m[k]
    ensures forall k :: k in r <==> k in m || AnyRecords(files, mode, relative, k)
    decreases |files|
  {
    if |files| == 0 then m
    else
      AnyRecordsConsAll(files, mode, relative);
      BuildFrom(ProcessFile(m, files[0], mode, relative), files[1..], mode, relative)
  }

  /** The store after a whole run: exactly the keys some file records. */
  function Build(files: seq<FileInput>, mode: Mode, relative: Relative): (r: Store)
    ensures forall k {:trigger AnyRecords(files, mode, relative, k)} :: k in r <==> AnyRecords(files, mode, relative, k)
  {
    BuildFrom(map[], files, mode, relative)
  }

  /** Some file of `files` records key `k`. */
  predicate AnyRecords(files: seq<FileInput>, mode: Mode, relative: Relative, k: Key) {
    exists i :: 0 <= i < |files| && Records(files[i], mode, relative, k)
  }

  /** File `i` is the first of `files` to record key `k`. */
  predicate FirstToRecord(files: seq<FileInput>, mode: Mode, relative: Relative, k: Key, i: int) {
    && 0 <= i < |files|
    && Records(files[i], mode, relative, k)
    && forall j :: 0 <= j < i ==> !Records(files[j], mode, relative, k)
  }

  lemma AnyRecordsCons(files: seq<FileInput>, mode: Mode, relative: Relative, k: Key)
    requires |files| > 0
    ensures AnyRecords(files, mode, relative, k) <==>
              Records(files[0], mode, relative, k) || AnyRecords(files[1..], mode, relative, k)
  {
    if AnyRecords(files, mode, relative, k) && !Records(files[0], mode, relative, k) {
      var i :| 0 <= i < |files| && Records(files[i], mode, relative, k);
      assert files[1..][i - 1] == files[i];
    }
    if AnyRecords(files[1..], mode, relative, k) {
      var i :| 0 <= i < |files[1..]| && Records(files[1..][i], mode, relative, k);
      assert files[i + 1] == files[1..][i];
    }
  }

  lemma AnyRecordsConsAll(files: seq<FileInput>, mode: Mode, relative: Relative)
    requires |files| > 0
    ensures forall k :: AnyRecords(files, mode, relative, k) <==>
              Records(files[0], mode, relative, k) || AnyRecords(files[1..], mode, relative, k)
  {
    forall k {
      AnyRecordsCons(files, mode, relative, k);
    }
  }

  lemma FirstToRecordCons(files: seq<FileInput>, mode: Mode, relative: Relative, k: Key, i: int)
    requires |files| > 0 && !Records(files[0], mode, relative, k)
    requires FirstToRecord(files, mode, relative, k, i)
    ensures FirstToRecord(files[1..], mode, relative, k, i - 1)
  {
    assert i != 0;
    forall j | 0 <= j < i - 1
      ensures !Records(files[1..][j], mode, relative, k)
    {
      assert files[1..][j] == files[j + 1];
    }
  }

  lemma {:induction false} BuildFromFirstWins(m: Store, files: seq<FileInput>, mode: Mode, relative: Relative, k: Key)
    ensures k in BuildFrom(m, files, mode, relative) <==> k in m || AnyRecords(files, mode, relative, k)
    ensures k in m ==> BuildFrom(m, files, mode, relative)[k] == m[k]
    ensures forall i :: k !in m && FirstToRecord(files, mode, relative, k, i) ==>
              BuildFrom(m, files, mode, relative)[k] == Contribution(files[i], mode, relative).hash
    decreases |files|
  {
    if |files| > 0 {
      var m' := ProcessFile(m, files[0], mode, relative);
      BuildFromFirstWins(m', files[1..], mode, relative, k);
      AnyRecordsCons(files, mode, relative, k);
      if k !in m && !Records(files[0], mode, relative, k) {
        forall i | FirstToRecord(files, mode, relative, k, i)
          ensures FirstToRecord(files[1..], mode, relative, k, i - 1)
        {
          FirstToRecordCons(files, mode, relative, k, i);
        }
      }
    }
  }

  /**
   First write wins over a whole run: a key is in the manifest exactly when
   some file records it, and it keeps the CRC of the first file that did.
   */
  lemma BuildFirstWins(files: seq<FileInput>, mode: Mode, relative: Relative, k: Key)
    ensures k in Build(files, mode, relative) <==> AnyRecords(files, mode, relative, k)
    ensures forall i :: FirstToRecord(files, mode, relative, k, i) ==>
              Build(files, mode, relative)[k] == Contribution(files[i], mode, relative).hash
  {
    BuildFromFirstWins(map[], files, mode, relative, k);
  }

  /** The keys in ascending path order, as a `std::map` iterates them. */
  predicate Increasing(ks: seq<Key>) {
    forall i, j :: 0 <= i < j < |ks| ==> PathLess(ks[i], ks[j])
  }

  predicate IsLeast(k: Key, ks: set<Key>) {
    k in ks && forall j :: j in ks && j != k ==> PathLess(k, j)
  }

  lemma {:induction false} LeastExists(ks: set<Key>)
    requires ks != {}
    ensures exists k :: IsLeast(k, ks)
    decreases ks
  {
    var x :| x in ks;
    if ks == {x} {
      assert IsLeast(x, ks);
    } else {
      var rest := ks - {x};
      LeastExists(rest);
      var m :| IsLeast(m, rest);
      if PathLess(x, m) {
        forall j | j in ks && j != x
          ensures PathLess(x, j)
        {
          if j != m {
            PathLessTransitive(x, m, j);
          }
        }
        assert IsLeast(x, ks);
      } else {
        PathLessTotal(x, m);
        assert IsLeast(m, ks);
      }
    }
  }

  lemma LeastUnique(ks: set<Key>)
    ensures forall a, b :: IsLeast(a, ks) && IsLeast(b, ks) ==> a == b
  {
    forall a, b | IsLeast(a, ks) && IsLeast(b, ks)
      ensures a == b
    {
      if a != b {
        PathLessTransitive(a, b, a);
        PathLessIrreflexive(a);
      }
    }
  }

  /** The keys of a store in iteration order: each once, ascending. */
  function SortedKeys(ks: set<Key>): (r: seq<Key>)
    ensures Increasing(r)
    ensures forall k :: k in r <==> k in ks
    ensures |r| == |ks|
    decreases ks
  {
    if ks == {} then []
    else
      LeastExists(ks);
      LeastUnique(ks);
      var k :| IsLeast(k, ks);
      var rest := SortedKeys(ks - {k});
      assert forall j :: 0 <= j < |rest| ==> rest[j] in ks - {k};
      [k] + rest
  }

  /** The first element of an ascending sequence is the least of its elements. */
  lemma HeadIsLeast(a: seq<Key>)
    requires Increasing(a) && |a| > 0
    ensures IsLeast(a[0], set k | k in a)
  {
  }

  /** Two ascending sequences with the same elements are the same sequence. */
  lemma {:induction false} IncreasingUnique(a: seq<Key>, b: seq<Key>)
    requires Increasing(a) && Increasing(b)
    requires forall k :: k in a <==> k in b
    ensures a == b
    decreases |a|
  {
    if |a| > 0 {
      assert a[0] in b;
    }
    if |b| > 0 {
      assert b[0] in a;
    }
    if |a| > 0 && |b| > 0 {
      var ks := set k | k in a;
      assert ks == set k | k in b;
      HeadIsLeast(a);
      HeadIsLeast(b);
      LeastUnique(ks);
      forall k
        ensures k in a[1..] <==> k in b[1..]
      {
        if k in a[1..] {
          var i :| 1 <= i < |a| && a[i] == k;
          assert PathLess(a[0], k);
          PathLessIrreflexive(k);
          assert k in b;
          var j :| 0 <= j < |b| && b[j] == k;
          assert j != 0;
          assert b[1..][j - 1] == k;
        }
        if k in b[1..] {
          var j :| 1 <= j < |b| && b[j] == k;
          assert PathLess(b[0], k);
          PathLessIrreflexive(k);
          assert k in a;
          var i :| 0 <= i < |a| && a[i] == k;
          assert i != 0;
          assert a[1..][i - 1] == k;
        }
      }
      IncreasingUnique(a[1..], b[1..]);
      assert a == [a[0]] + a[1..] && b == [b[0]] + b[1..];
    }
  }
}
