/**
 One run of the program in build mode, from the target path and the files
 found under it to the manifest text: every file through `process_file`,
 then `write_sfv` on the manifest path derived from the target.
 */
module Run {
  import opened Results
  import opened Crc32
  import opened Hex
  import opened Paths
  import opened Manifest
  import opened Sfv

  /**
   The manifest text a run writes, or nothing when it writes no file: no
   file is written exactly when the manifest cannot be created or no file
   was recorded at all.
   */
  function Generate(target: Path, files: seq<FileInput>, mode: Mode, relative: Relative, created: bool): (r: Option<string>)
    ensures r.None? <==> !created || forall k :: !AnyRecords(files, mode, relative, k)
  {
    var m := Build(files, mode, relative);
    assert |m| == 0 <==> forall k :: k !in m by {
      if |m| != 0 {
        var k :| k in m;
      }
    }
    WriteSfv(m, SfvPath(target), created)
  }

  /** Every hash in a built store is eight upper-case hexadecimal digits. */
  lemma {:induction false} BuildFromHashes(m: Store, files: seq<FileInput>, mode: Mode, relative: Relative)
    requires forall k :: k in m ==> IsHash(m[k])
    ensures forall k :: k in BuildFrom(m, files, mode, relative) ==> IsHash(BuildFrom(m, files, mode, relative)[k])
    decreases |files|
  {
    if |files| > 0 {
      var m' := ProcessFile(m, files[0], mode, relative);
      forall k | k in m'
        ensures IsHash(m'[k])
      {
        if k !in m {
          assert IsHash(Contribution(files[0], mode, relative).hash);
        }
      }
      BuildFromHashes(m', files[1..], mode, relative);
    }
  }

  /** The keys every file could be stored under are ones the text form can carry. */
  ghost predicate KeysRenderable(files: seq<FileInput>, mode: Mode, relative: Relative) {
    forall i :: 0 <= i < |files| && KeyOf(files[i], mode, relative).Some? ==> ValidKey(KeyOf(files[i], mode, relative).value)
  }

  lemma BuildValid(files: seq<FileInput>, mode: Mode, relative: Relative)
    requires KeysRenderable(files, mode, relative)
    ensures ValidStore(Build(files, mode, relative))
  {
    var m := Build(files, mode, relative);
    BuildFromHashes(map[], files, mode, relative);
    forall k | k in m
      ensures ValidKey(k)
    {
      BuildFirstWins(files, mode, relative, k);
      var i :| 0 <= i < |files| && Records(files[i], mode, relative, k);
    }
  }

  /** What a listing says about one key of the store it describes. */
  lemma DescribesKey(es: seq<(Key, Hash)>, m: Store, k: Key)
    requires Describes(es, m)
    ensures (exists j :: 0 <= j < |es| && es[j].0 == k) <==> k in m
    ensures k in m ==> exists j :: 0 <= j < |es| && es[j] == (k, m[k])
  {
    if k in m {
      var j :| 0 <= j < |es| && es[j].0 == k;
      assert es[j] == (k, m[k]);
    }
  }

  /** What a written manifest says about one key of a store the text form can carry. */
  lemma WrittenKey(m: Store, sfvPath: Path, created: bool, k: Key)
    requires ValidStore(m) && WriteSfv(m, sfvPath, created).Some?
    ensures var parsed := ParseManifest(WriteSfv(m, sfvPath, created).value);
            && parsed.Some?
            && ((exists j :: 0 <= j < |parsed.value| && parsed.value[j].0 == k) <==> k in m && k != SelfKey(sfvPath))
            && (k in m && k != SelfKey(sfvPath) ==> exists j :: 0 <= j < |parsed.value| && parsed.value[j] == (k, m[k]))
  {
    var parsed := ParseManifest(WriteSfv(m, sfvPath, created).value);
    DescribesKey(parsed.value, m - {SelfKey(sfvPath)}, k);
  }

  /**
   What a run writes, end to end: when a manifest is written, it lists a key
   exactly when some file recorded it and it is not the manifest's own name,
   and the hash beside it is that of the first file to record it.
   */
  lemma GenerateListsFirstRecords(target: Path, files: seq<FileInput>, mode: Mode, relative: Relative, created: bool, k: Key)
    requires KeysRenderable(files, mode, relative)
    requires Generate(target, files, mode, relative, created).Some?
    ensures var parsed := ParseManifest(Generate(target, files, mode, relative, created).value);
            && parsed.Some?
            && ((exists j :: 0 <= j < |parsed.value| && parsed.value[j].0 == k) <==>
                  AnyRecords(files, mode, relative, k) && k != SelfKey(SfvPath(target)))
            && forall i :: FirstToRecord(files, mode, relative, k, i) && k != SelfKey(SfvPath(target)) ==>
                  exists j :: 0 <= j < |parsed.value| && parsed.value[j] == (k, Contribution(files[i], mode, relative).hash)
  {
    BuildValid(files, mode, relative);
    WrittenKey(Build(files, mode, relative), SfvPath(target), created, k);
    BuildFirstWins(files, mode, relative, k);
  }

  /** In single-file mode the one entry is never taken for the manifest: the manifest's name is longer. */
  lemma SingleFileNeverDropped(target: Path)
    requires WellFormed(target)
    ensures SelfKey(SfvPath(target)) != [FileName(target)]
  {
    SfvPathShape(target);
    assert |FileName(SfvPath(target))| == |FileName(target)| + 4;
  }

  /**
   The emptiness test comes before the removal: a store whose only entry
   carries the manifest's own name still produces a manifest, an empty one.
   */
  lemma OnlySelfEntryWritesEmpty(sfvPath: Path, h: Hash)
    ensures WriteSfv(map[SelfKey(sfvPath) := h], sfvPath, true) == Some("")
  {
    var m := map[SelfKey(sfvPath) := h];
    assert m - {SelfKey(sfvPath)} == map[];
    assert Entries(map[]) == [];
  }

  /**
   In directory mode the entry removed is the one whose relative path is the
   manifest's file name, a file directly inside the directory; the manifest
   of a target without a trailing separator is its sibling, another file.
   */
  lemma RemovedKeyIsInsideRoot(root: Path)
    requires WellFormed(root) && |root| > 0 && !EndsInSeparator(root)
    ensures SelfKey(SfvPath(root)) == [FileName(root) + ".sfv"]
    ensures root + SelfKey(SfvPath(root)) != SfvPath(root)
  {
    SfvPathShape(root);
    assert |root + SelfKey(SfvPath(root))| == |root| + 1;
  }

  lemma CrcAB()
    ensures Checksum([0x41, 0x42]) == 0x3069_4C07
  {
    var d: seq<Byte> := [0x41, 0x42];
    UpdateIsInvertedRegister(0, d);
  }

  lemma CrcCD()
    ensures Checksum([0x43, 0x44]) == 0xEB3C_8BB0
  {
    var d: seq<Byte> := [0x43, 0x44];
    UpdateIsInvertedRegister(0, d);
  }

  /** Four more digits after a prefix that reads as `v` read as `v` followed by their values. */
  lemma ParseFourMore(s: string, a: char, b: char, c: char, d: char, v: nat)
    requires Parse(s) == Some(v)
    requires IsDigit(a) && IsDigit(b) && IsDigit(c) && IsDigit(d)
    ensures Parse(s + [a, b, c, d]) ==
              Some((((v * 16 + DigitValue(a).value) * 16 + DigitValue(b).value) * 16 + DigitValue(c).value) * 16 + DigitValue(d).value)
  {
    ParseSnoc(s, a);
    ParseSnoc(s + [a], b);
    ParseSnoc(s + [a] + [b], c);
    ParseSnoc(s + [a] + [b] + [c], d);
    assert s + [a] + [b] + [c] + [d] == s + [a, b, c, d];
  }

  /** The CRC of "AB" renders as these eight digits. */
  lemma HexAB()
    ensures ToHex(0x3069_4C07) == "30694C07"
  {
    ParseFourMore("", '3', '0', '6', '9', 0);
    assert "" + "3069" == "3069";
    ParseFourMore("3069", '4', 'C', '0', '7', 0x3069);
    assert "3069" + "4C07" == "30694C07";
    ToHexOnto("30694C07", 0x3069_4C07);
  }

  /** The CRC of "CD" renders as these eight digits. */
  lemma HexCD()
    ensures ToHex(0xEB3C_8BB0) == "EB3C8BB0"
  {
    ParseFourMore("", 'E', 'B', '3', 'C', 0);
    assert "" + "EB3C" == "EB3C";
    ParseFourMore("EB3C", '8', 'B', 'B', '0', 0xEB3C);
    assert "EB3C" + "8BB0" == "EB3C8BB0";
    ToHexOnto("EB3C8BB0", 0xEB3C_8BB0);
  }

  /** The two files of the scenario below, met in the order b, a. */
  function ScenarioFiles(): seq<FileInput> {
    [FileInput(["d", "b.bin"], true, Size([0x43, 0x44])),
     FileInput(["d", "a.bin"], true, Size([0x41, 0x42]))]
  }

  /** `b.bin` is recorded under its name below `d`, with the CRC of "CD". */
  lemma ScenarioRecordsB()
    ensures Contribution(ScenarioFiles()[0], Directory(["d"]), UnderRoot) == Recorded(["b.bin"], "EB3C8BB0")
  {
    CrcCD();
    HexCD();
    assert KeyOf(ScenarioFiles()[0], Directory(["d"]), UnderRoot) == Some(["b.bin"]);
  }

  /** `a.bin` is recorded under its name below `d`, with the CRC of "AB". */
  lemma ScenarioRecordsA()
    ensures Contribution(ScenarioFiles()[1], Directory(["d"]), UnderRoot) == Recorded(["a.bin"], "30694C07")
  {
    CrcAB();
    HexAB();
    assert KeyOf(ScenarioFiles()[1], Directory(["d"]), UnderRoot) == Some(["a.bin"]);
  }

  /** Building from two files is processing the first, then the second. */
  lemma BuildTwo(files: seq<FileInput>, mode: Mode, relative: Relative)
    requires |files| == 2
    ensures Build(files, mode, relative) == ProcessFile(ProcessFile(map[], files[0], mode, relative), files[1], mode, relative)
  {
    var m1 := ProcessFile(map[], files[0], mode, relative);
    var m2 := ProcessFile(m1, files[1], mode, relative);
    assert files[1..][0] == files[1];
    assert |files[1..][1..]| == 0;
    assert BuildFrom(m2, files[1..][1..], mode, relative) == m2;
    assert BuildFrom(m1, files[1..], mode, relative) == m2;
    assert BuildFrom(map[], files, mode, relative) == BuildFrom(m1, files[1..], mode, relative);
  }

  /** A file recorded under a key the store lacks adds exactly that binding. */
  lemma ProcessNewKey(m: Store, f: FileInput, mode: Mode, relative: Relative, k: Key, h: Hash)
    requires Contribution(f, mode, relative) == Recorded(k, h) && k !in m
    ensures ProcessFile(m, f, mode, relative) == m[k := h]
  {
  }

  /** Both files are recorded under their names relative to `d`, with their CRCs. */
  lemma ScenarioStore(files: seq<FileInput>)
    requires files == ScenarioFiles()
    ensures Build(files, Directory(["d"]), UnderRoot) == map[["b.bin"] := "EB3C8BB0", ["a.bin"] := "30694C07"]
  {
    var mode := Directory(["d"]);
    var ka, kb: Key := ["a.bin"], ["b.bin"];
    var m0: Store := map[];
    var m1 := m0[kb := "EB3C8BB0"];
    assert ProcessFile(m0, files[0], mode, UnderRoot) == m1 by {
      ScenarioRecordsB();
      ProcessNewKey(m0, files[0], mode, UnderRoot, kb, "EB3C8BB0");
    }
    assert ProcessFile(m1, files[1], mode, UnderRoot) == m1[ka := "30694C07"] by {
      ScenarioRecordsA();
      ProcessNewKey(m1, files[1], mode, UnderRoot, ka, "30694C07");
    }
    BuildTwo(files, mode, UnderRoot);
  }

  /** The manifest of target `d` is the sibling `d.sfv`. */
  lemma ScenarioSfvPath()
    ensures SfvPath(["d"]) == ["d.sfv"]
  {
    assert ParentPath(["d"]) == [] && FileName(["d"]) == "d";
    assert Join([], "d") == ["d"];
    assert "d" + ".sfv" == "d.sfv";
    assert Concat(["d"], ".sfv") == [] + ["d" + ".sfv"];
  }

  /** The store lists in path order: `a.bin` before `b.bin`. */
  lemma ScenarioEntries()
    ensures Entries(map[["b.bin"] := "EB3C8BB0", ["a.bin"] := "30694C07"])
            == [(["a.bin"], "30694C07"), (["b.bin"], "EB3C8BB0")]
  {
    var ka, kb: Key := ["a.bin"], ["b.bin"];
    var m := map[kb := "EB3C8BB0", ka := "30694C07"];
    assert PathLess(ka, kb);
    IncreasingUnique(SortedKeys(m.Keys), [ka, kb]);
  }

  /** The line of a one-name key is the name, a space, the hash and a newline. */
  lemma OneNameLine(n: Name, h: Hash)
    ensures Line([n], h) == n + " " + h + "\n"
  {
  }

  /** The text of a two-entry listing is the two lines one after the other. */
  lemma TwoLines(a: (Key, Hash), b: (Key, Hash))
    ensures Text([a, b]) == Line(a.0, a.1) + Line(b.0, b.1)
  {
    assert [a, b][1..] == [b] && [b][1..] == [];
  }

  /** The text of that listing: one line per entry, name, space, hash, newline. */
  lemma ScenarioText()
    ensures Text([(["a.bin"], "30694C07"), (["b.bin"], "EB3C8BB0")]) == "a.bin 30694C07\nb.bin EB3C8BB0\n"
  {
    TwoLines((["a.bin"], "30694C07"), (["b.bin"], "EB3C8BB0"));
    OneNameLine("a.bin", "30694C07");
    OneNameLine("b.bin", "EB3C8BB0");
  }

  /** A non-empty store that does not hold the manifest's own name is written whole. */
  lemma WriteWhole(m: Store, sfvPath: Path)
    requires |m| > 0 && SelfKey(sfvPath) !in m
    ensures WriteSfv(m, sfvPath, true) == Some(Text(Entries(m)))
  {
    assert m - {SelfKey(sfvPath)} == m;
  }

  /** Written to `d.sfv`, which is not one of its keys, that store gives the two lines. */
  lemma ScenarioWrite()
    ensures WriteSfv(map[["b.bin"] := "EB3C8BB0", ["a.bin"] := "30694C07"], ["d.sfv"], true)
            == Some("a.bin 30694C07\nb.bin EB3C8BB0\n")
  {
    var m := map[["b.bin"] := "EB3C8BB0", ["a.bin"] := "30694C07"];
    assert SelfKey(["d.sfv"]) == ["d.sfv"];
    WriteWhole(m, ["d.sfv"]);
    ScenarioEntries();
    ScenarioText();
  }

  /**
   A directory `d` holding `a.bin` = "AB" and `b.bin` = "CD", met in the
   order b, a: the manifest `d.sfv` lists both, in path order, each with the
   CRC-32 of its content.
   */
  lemma TwoFileScenario()
    ensures Generate(["d"], ScenarioFiles(), Directory(["d"]), UnderRoot, true)
            == Some("a.bin 30694C07\nb.bin EB3C8BB0\n")
  {
    ScenarioStore(ScenarioFiles());
    ScenarioSfvPath();
    ScenarioWrite();
  }
}
