# lazy_crc in Dafny

LazyCRC is a small Windows command-line tool. It takes one file or one
directory, computes the CRC-32 of every regular file it finds, and writes an
SFV manifest: one line `<path> <CRC>` per file, the CRC as eight upper-case
hexadecimal digits. This project models the core of `lazy_crc/main.cpp` and
proves properties of that model:

- the chunked read loop of `process_file` and the CRC-32 it computes;
- `to_hex`, the rendering of a CRC as text;
- the store `m_files`, and how `process_file` fills it with `try_emplace`;
- `write_sfv`, which turns the store into the manifest text;
- the manifest path `path_sfv` that `wmain` derives from its argument.

Modules, in dependency order:

- `Results` (`results.dfy`): the `Option` type.
- `Crc32` (`crc32.dfy`): the reflected CRC-32 of IEEE 802.3 (polynomial 0xEDB88320, inverted on entry and exit), byte by byte. It also gives the incremental entry point the library exposes.
- `Chunks` (`chunks.dfy`): the 4 KiB read loop, as a function and as a method with a loop.
- `Hex` (`hex.dfy`): `to_hex` for a 32-bit value, and a reader `Parse` that states what the rendering preserves.
- `Order` (`order.dfy`): lexicographic order on sequences, proved a strict total order.
- `Paths` (`paths.dfy`): `filename()`, `parent_path()`, `/`, `+=`, and path comparison. A path is the sequence of names after its root; a trailing separator is a final empty name.
- `Manifest` (`manifest.dfy`): the store, one file's contribution, `try_emplace`, a whole run's store, and the key order of `std::map`. It also holds `UnderRoot`, one instance of `fs::relative`.
- `Sfv` (`sfv.dfy`): `write_sfv`, and a reader `ParseManifest` that states what the written text contains.
- `Run` (`run.dfy`): one build run from files to manifest text. It holds end-to-end properties and a worked two-file example.

What the environment decides is passed in as data:

- `FileInput.opens` says whether the file opens.
- `FileInput.size` says whether `fs::file_size` succeeds, and if so the bytes read.
- `Relative` is the result of `fs::relative`.
- `created` says whether the manifest file could be opened.

How the code behaves, as this model follows it:

- The chunk size is `CHUNK_SIZE` = 4096 bytes.
- There is no verify mode and no log of bad files.
- The manifest is `parent_path() / filename() += ".sfv"`.
  - For a directory `C:\d` the manifest is `C:\d.sfv`, beside the directory, not inside it.
  - Only a trailing separator (`C:\d\`) puts it inside, as `C:\d\.sfv`.
- `write_sfv` tests the store for emptiness before it removes the entry named like the manifest. A store whose only entry has that name still produces a manifest file, and the file is empty.
- In directory mode the removed entry is the file whose relative path is the manifest's name, e.g. `d\d.sfv` for target `C:\d`. That is a file inside the directory, not the manifest beside it.

## Model

| member | source | states |
|---|---|---|
| `Crc32.Update` | lazy_crc/main.cpp:103 | an empty slice leaves the running CRC as it was; its partners `UpdateIsInvertedRegister` and `UpdateAppend` state what a non-empty slice does |
| `Crc32.Checksum` | lazy_crc/main.cpp:92 | the CRC of no bytes, starting from the seed 0, is 0 |
| `Crc32.UpdateIsInvertedRegister` | lazy_crc/main.cpp:103 | continuing a CRC over data inverts the previous CRC into the register, shifts every byte through the reflected polynomial, and inverts once at the end |
| `Crc32.UpdateAppend` | lazy_crc/main.cpp:103 | feeding `a` then `b` gives the same CRC as feeding `a + b`, which is what lets the loop pass each chunk's result into the next call |
| `Crc32.CheckValue` | lazy_crc/main.cpp:103 | the CRC-32 of "123456789" is 0xCBF43926, the standard check value |
| `Chunks.NextChunk` | lazy_crc/main.cpp:97-98 | the next slice is positive, at most a chunk, at most what is left, and smaller than a chunk only when it is all that is left |
| `Chunks.FoldChunks` | lazy_crc/main.cpp:95-106 | for every positive chunk size, folding the slices gives the CRC of the whole remaining content, so chunking never changes the result |
| `Chunks.FileCrc` | lazy_crc/main.cpp:92-106 | the CRC the loop leaves for a file is the CRC-32 of its content, and 0 for an empty file |
| `Chunks.ChunkedCrc` | lazy_crc/main.cpp:92-106 | the loop ends with every byte processed; the slices are positive, all full chunks except possibly the last, and add up to the file size; the CRC is that of the content |
| `Hex.DigitValue` | lazy_crc/main.cpp:62 | a character is a digit exactly when it is one of `0-9A-F` (upper case), and its value is its position among them |
| `Hex.ToHex` | lazy_crc/main.cpp:56-65 | a CRC renders as exactly eight digits that read back as the CRC |
| `Hex.ToHexInjective` | lazy_crc/main.cpp:56-65 | two CRCs render alike exactly when they are equal |
| `Hex.ToHexOnto` | lazy_crc/main.cpp:56-65 | every string of eight digits is the rendering of exactly the value it reads as, so a manifest hash identifies one CRC |
| `Hex.DigitsRoundTrip` | lazy_crc/main.cpp:61-62 | `w` digits of a value below 16^w read back as that value |
| `Hex.RenderParsed` | lazy_crc/main.cpp:61-62 | every digit string is the rendering, at its own width, of what it reads as |
| `Hex.ZeroPadded` | lazy_crc/main.cpp:61 | a value that needs only `k` digits is rendered as `w - k` fill zeros followed by its `k` digits |
| `Hex.ZeroRendering` | lazy_crc/main.cpp:61-62 | the CRC 0 of an empty file renders as `00000000` |
| `Paths.FileName` | lazy_crc/main.cpp:127 | the file name is empty exactly for a bare root or a path ending in a separator |
| `Paths.ParentPath` | lazy_crc/main.cpp:183 | the parent is the path less its last element, and never ends in a separator |
| `Paths.Join` | lazy_crc/main.cpp:183 | joining a non-empty name makes it the file name, and, onto a path without a trailing separator, leaves that path as the parent |
| `Paths.Concat` | lazy_crc/main.cpp:183 | `+=` appends to the file name and leaves the elements before it unchanged |
| `Paths.DirBase` | lazy_crc/main.cpp:111 | the directory a root names is the root less a trailing separator, a prefix of it that never ends in a separator |
| `Paths.SfvPath` | lazy_crc/main.cpp:183 | for every well-formed target, splitting it into parent and file name and joining them again leaves the target, so the manifest path is the target with ".sfv" appended to its last name |
| `Paths.JoinParentFileName` | lazy_crc/main.cpp:183 | joining a path's parent and its file name gives the path back |
| `Paths.SfvPathShape` | lazy_crc/main.cpp:183 | the manifest keeps the target's parent, and its file name is the target's plus ".sfv" |
| `Paths.PathLessIrreflexive` | lazy_crc/main.cpp:41 | no path sorts before itself in the store's order |
| `Paths.PathLessTransitive` | lazy_crc/main.cpp:41 | the store's path order is transitive |
| `Paths.PathLessTotal` | lazy_crc/main.cpp:41 | any two different paths are ordered one way or the other |
| `Manifest.TryEmplace` | lazy_crc/main.cpp:122-127 | the key is added; an existing binding keeps its value, and only an absent key takes the new one |
| `Manifest.KeyOf` | lazy_crc/main.cpp:109-127 | a single file is keyed by one name, the one that joined to its parent directory gives its path back; in a directory, for a file strictly below the root and an `fs::relative` that keeps its promise there, the key appended to the root's directory gives the file's path |
| `Manifest.Contribution` | lazy_crc/main.cpp:75-128 | a file fails to open, fails the size probe, or fails the relative path, each exactly under its own condition and in that order; otherwise it is recorded under its key with the rendered CRC of its content |
| `Manifest.ProcessFile` | lazy_crc/main.cpp:69-132 | a failing file leaves the store as it was; existing bindings never change; a new binding belongs to the file's key with its hash |
| `Manifest.BuildFrom` | lazy_crc/main.cpp:199-203 | processing files one after another never changes a stored binding, and adds a key exactly when some file records it |
| `Manifest.Build` | lazy_crc/main.cpp:199-203 | after a run the store holds exactly the keys some file records |
| `Manifest.BuildFirstWins` | lazy_crc/main.cpp:199-203 | after a run a key is stored exactly when some file recorded it, with the hash of the first file that did |
| `Manifest.SortedKeys` | lazy_crc/main.cpp:152 | the store's keys in iteration order: ascending, each key once, nothing else |
| `Manifest.IncreasingUnique` | lazy_crc/main.cpp:152 | two ascending sequences with the same keys are equal, so the iteration order is determined |
| `Sfv.Entries` | lazy_crc/main.cpp:152 | the visited entries list every binding of the store once, in ascending key order, and nothing else |
| `Sfv.DescribesUnique` | lazy_crc/main.cpp:152 | only one listing describes a given store, so the manifest text depends on the store alone |
| `Sfv.SelfKey` | lazy_crc/main.cpp:142 | the entry looked up is a single name, the one that joined to the manifest's directory gives the manifest's path |
| `Sfv.RenderPath` | lazy_crc/main.cpp:153 | a key whose names hold no newline renders without one; its partner `SplitRender` recovers the names |
| `Sfv.Line` | lazy_crc/main.cpp:153 | every line ends in the newline of `std::endl`, and for a valid key and hash the text before it holds no newline; its partner `ParseRenderedLine` reads that text back as the key and hash |
| `Sfv.Text` | lazy_crc/main.cpp:152-153 | no entries write nothing, and any other listing writes text ending in a newline; its partner `TextRoundTrip` reads it back |
| `Sfv.WriteSfv` | lazy_crc/main.cpp:136-162 | no file is written exactly when the store is empty or the file cannot be created; otherwise the text, if not empty, ends in a newline, and reads back, line by line, as the store without the manifest's own name, in key order |
| `Sfv.SplitRender` | lazy_crc/main.cpp:153 | a key rendered with `\` separators splits back into the same names |
| `Sfv.ParseRenderedLine` | lazy_crc/main.cpp:153 | a line `path hash` reads back as its key and hash |
| `Sfv.TextRoundTrip` | lazy_crc/main.cpp:152-153 | the lines written for a listing read back as that listing, in order |
| `Run.Generate` | lazy_crc/main.cpp:195-222 | a run whose walk completes writes no manifest exactly when the manifest cannot be created or no file was recorded |
| `Run.GenerateListsFirstRecords` | lazy_crc/main.cpp:195-222 | a written manifest lists a key exactly when some file recorded it and it is not the manifest's name, and gives it the hash of the first file that recorded it |
| `Run.SingleFileNeverDropped` | lazy_crc/main.cpp:142 | in single-file mode the manifest's name never equals the file's key, so the entry is never removed |
| `Run.OnlySelfEntryWritesEmpty` | lazy_crc/main.cpp:139-144 | a store holding only the manifest's own name still yields a manifest, and it is empty |
| `Run.RemovedKeyIsInsideRoot` | lazy_crc/main.cpp:142-144 | for a directory target without a trailing separator, the removed key is the target's name plus ".sfv", and the file it names inside the directory is not the manifest |
| `Manifest.UnderRoot` | lazy_crc/main.cpp:111 | a path has a relative path exactly when it extends the root's directory by at least one name, and that relative path, appended to the directory, gives the path back |
| `Manifest.UnderRootSound` | lazy_crc/main.cpp:111 | `UnderRoot` keeps the promise `KeyOf` relies on: every relative path it gives for a file below the root, appended to the root's directory, is the file's path |
| `Manifest.OutsideAnswersAllowed` | lazy_crc/main.cpp:111 | that promise leaves paths outside the root free: a relative-path function answering them with a `..` form still keeps it |
| `Manifest.UnderTrailingSeparator` | lazy_crc/main.cpp:111 | `d\a.bin` relative to `d\` and to `d` is `a.bin` both times, and `d` itself is not below `d\` |
| `Run.TwoFileScenario` | lazy_crc/main.cpp:195-222 | directory `d` with `b.bin` = "CD" met before `a.bin` = "AB" gives `a.bin 30694C07` then `b.bin EB3C8BB0` in `d.sfv` |

## Left out

- The command line and the dispatch in `wmain` are not modelled. That covers the argument count, the existence test, the choice between a non-empty directory, a regular file and neither, and the exit codes. `Run.Generate` takes the files and the mode as given.
- The recursive directory walk is not modelled. The files come in as a sequence in the order the iterator yields them, and that order is left open.
- Run.Generate: the walk can throw. A subdirectory the process may not enter makes the iterator throw `fs::filesystem_error`, nothing catches it, the program ends before `write_sfv`, and no manifest is written although files were recorded; the model assumes the walk completes.
- File I/O is not modelled. Opening, the size probe and creating the manifest are inputs (`opens`, `size`, `created`). The content is the bytes the reads deliver.
- Short or failed reads are not modelled. The source does not check `file.read`, so its effect on the CRC is left open.
- The full-size buffer is not modelled. When `new char[file_size]` cannot allocate it, the `std::bad_alloc` is not caught, the program ends before `write_sfv`, and no manifest is written; the model assumes the allocation succeeds.
- The `static_cast<size_t>` of the file size is not modelled. It is an identity on the 64-bit target.
- The table-driven slicing-by-16 algorithm of `crc32_16bytes_prefetch` is not modelled. Only the bitwise CRC-32 it computes is.
- The mutex and `lock_guard` are not modelled. The program calls `process_file` from one thread only.
- Console messages, timing, and the wait for Enter are not modelled. They have no effect on the store or the manifest.
- The conversion of the manifest to UTF-8 (`utf16_to_utf8`) is not modelled. `Sfv.Text` is the wide text before conversion.
- Text-mode translation of `\n` into `\r\n` by `std::ofstream` is not modelled. Lines end in the `\n` that `std::endl` inserts.
- The drive and root of a path are not modelled. A path is its names after the root.
- `/` is modelled only for one name on the right. That is the only way the program uses it.
- `fs::relative` is a parameter. `Manifest.RelativeSound` names what `Manifest.KeyOf` relies on it for, for files strictly below the root, and `Manifest.UnderRoot` is one instance that meets it, used in the example.
- Manifest.UnderRoot: a path that is the root itself or lies outside it has no relative path here, where `fs::relative` gives `.` or a path through `..`.
- Symbolic links are not modelled. The walk yields a link to a file as a regular file, and `fs::relative` compares canonical paths, so such a file is stored under a `..` key or, for a link to another drive, under an empty key. The model takes every path to be canonical, so for a tree without such links `RelativeSound` is what `fs::relative` gives; for a link, `Manifest.UnderRoot` gives the link's own name instead.
- `Paths.CharLess` compares characters by code point. `fs::path::compare` on Windows compares UTF-16 code units, and the two orders differ only for characters outside the Basic Multilingual Plane.
- `to_hex` is modelled for `uint32_t` only, the one type it is called with.
