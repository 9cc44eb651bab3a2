/**
 Serialisation of the store by `write_sfv`, and its manifest text format.

 Nothing is written for an empty store.  Otherwise the entry named like the
 manifest itself is dropped (the test for emptiness comes first, so a store
 holding only that entry still produces an empty manifest), and every other
 entry becomes one line `<path> <hash>` ended by `std::endl`, in key order.

 `ParseManifest` reads such text back.  It is not part of the program; it
 is the yardstick for what the written text contains.
 */
module Sfv {
  import opened Results
  import opened Hex
  import opened Paths
  import opened Manifest

  /** The separator `path.c_str()` puts between names: the native one on Windows. */
  const Separator: char := '\\'

  /**
   `path.c_str()` of a relative path: the names joined by separators.  Names
   without a newline give a text without one, so a key stays on its line.
   */
  function RenderPath(p: Path): (r: string)
    ensures (forall i :: 0 <= i < |p| ==> ValidName(p[i])) ==> '\n' !in r
    decreases |p|
  {
    if |p| == 0 then ""
    else if |p| == 1 then p[0]
    else p[0] + [Separator] + RenderPath(p[1..])
  }

  /**
   `data << path.c_str() << ' ' << hash << std::endl`: one line, ended by a
   newline, the only one in it when the key and hash are valid.
   */
  function Line(k: Key, h: Hash): (r: string)
    ensures |r| > 0 && r[|r| - 1] == '\n'
    ensures ValidKey(k) && IsHash(h) ==> '\n' !in r[..|r| - 1]
  {
    var body := RenderPath(k) + " " + h;
    if ValidKey(k) && IsHash(h) then
      BodyHasNoNewline(k, h);
      assert (body + "\n")[..|body|] == body;
      body + "\n"
    else body + "\n"
  }

  /** The lines of a listing, one after another: nothing for no entries, otherwise text ending in a newline. */
  function Text(entries: seq<(Key, Hash)>): (r: string)
    ensures |entries| == 0 <==> r == ""
    ensures r != "" ==> r[|r| - 1] == '\n'
    decreases |entries|
  {
    if |entries| == 0 then "" else Line(entries[0].0, entries[0].1) + Text(entries[1..])
  }

  /** `es` lists exactly the bindings of `m`, each once, in ascending key order. */
  ghost predicate Describes(es: seq<(Key, Hash)>, m: Store) {
    && (forall i, j :: 0 <= i < j < |es| ==> PathLess(es[i].0, es[j].0))
    && (forall i :: 0 <= i < |es| ==> es[i].0 in m && m[es[i].0] == es[i].1)
    && (forall k :: k in m ==> exists i :: 0 <= i < |es| && es[i].0 == k)
  }

  function KeysOf(es: seq<(Key, Hash)>): (ks: seq<Key>)
    ensures |ks| == |es| && forall i :: 0 <= i < |es| ==> ks[i] == es[i].0
  {
    seq(|es|, i requires 0 <= i < |es| => es[i].0)
  }

  /** The store's bindings in the order `for (auto const & [path, hash] : m_files)` visits them. */
  function Entries(m: Store): (es: seq<(Key, Hash)>)
    ensures Describes(es, m)
  {
    var ks := SortedKeys(m.Keys);
    var es := seq(|ks|, i requires 0 <= i < |ks| => (ks[i], m[ks[i]]));
    SortedEntriesDescribe(m, ks, es);
    es
  }

  lemma SortedEntriesDescribe(m: Store, ks: seq<Key>, es: seq<(Key, Hash)>)
    requires Increasing(ks) && forall k :: k in ks <==> k in m
    requires |es| == |ks| && forall i :: 0 <= i < |ks| ==> es[i] == (ks[i], m[ks[i]])
    ensures Describes(es, m)
  {
    forall k | k in m
      ensures exists i :: 0 <= i < |es| && es[i].0 == k
    {
      var i :| 0 <= i < |ks| && ks[i] == k;
      assert es[i].0 == k;
    }
  }

  /** A listing of a store is unique: the manifest text depends on the store alone. */
  lemma DescribesUnique(a: seq<(Key, Hash)>, b: seq<(Key, Hash)>, m: Store)
    requires Describes(a, m) && Describes(b, m)
    ensures a == b
  {
    var ka, kb := KeysOf(a), KeysOf(b);
    forall k
      ensures k in ka <==> k in kb
    {
      if k in ka {
        var i :| 0 <= i < |ka| && ka[i] == k;
        var j :| 0 <= j < |b| && b[j].0 == k;
        assert kb[j] == k;
      }
      if k in kb {
        var j :| 0 <= j < |kb| && kb[j] == k;
        var i :| 0 <= i < |a| && a[i].0 == k;
        assert ka[i] == k;
      }
    }
    IncreasingUnique(ka, kb);
    assert forall i :: 0 <= i < |a| ==> a[i] == (ka[i], m[ka[i]]);
  }

  /** `path_sfv.filename()` as a store key: the one name that locates the manifest in its directory. */
  function SelfKey(sfvPath: Path): (r: Key)
    ensures |r| == 1
    ensures WellFormed(sfvPath) ==> Join(ParentPath(sfvPath), r[0]) == sfvPath
  {
    if WellFormed(sfvPath) then JoinParentFileName(sfvPath); [FileName(sfvPath)] else [FileName(sfvPath)]
  }

  predicate ValidName(n: Name) {
    Separator !in n && '\n' !in n
  }

  /** A key the text form can carry: at least one name, and no name holding a separator or a newline. */
  predicate ValidKey(k: Key) {
    |k| > 0 && forall i :: 0 <= i < |k| ==> ValidName(k[i])
  }

  predicate IsHash(h: string) {
    |h| == Width && AllDigits(h)
  }

  predicate ValidStore(m: Store) {
    forall k :: k in m ==> ValidKey(k) && IsHash(m[k])
  }

  /**
   `write_sfv`.  `created` says whether the output file could be opened;
   the result is the text written to it, or nothing when no file is written.
   */
  function WriteSfv(m: Store, sfvPath: Path, created: bool): (r: Option<string>)
    ensures r.None? <==> |m| == 0 || !created
    ensures r.Some? && r.value != "" ==> r.value[|r.value| - 1] == '\n'
    ensures r.Some? && ValidStore(m) ==>
              var parsed := ParseManifest(r.value);
              parsed.Some? && Describes(parsed.value, m - {SelfKey(sfvPath)})
  {
    if |m| == 0 then None
    else
      var kept := m - {SelfKey(sfvPath)};
      if !created then None
      else
        var es := Entries(kept);
        ValidEntriesReadBack(es, kept);
        Some(Text(es))
  }

  /** The first position of `c` in `s`, or `|s|` when there is none. */
  function IndexOf(s: string, c: char): (i: nat)
    ensures i <= |s|
    ensures i < |s| ==> s[i] == c
    ensures forall j :: 0 <= j < i ==> s[j] != c
    decreases |s|
  {
    if |s| == 0 then 0 else if s[0] == c then 0 else 1 + IndexOf(s[1..], c)
  }

  /** The lines of a text, each without its newline. */
  function Lines(t: string): seq<string>
    decreases |t|
  {
    if |t| == 0 then []
    else
      var i := IndexOf(t, '\n');
      if i == |t| then [t] else [t[..i]] + Lines(t[i + 1..])
  }

  /** A rendered path cut back into names at each separator. */
  function SplitPath(s: string): Path
    decreases |s|
  {
    var i := IndexOf(s, Separator);
    if i == |s| then [s] else [s[..i]] + SplitPath(s[i + 1..])
  }

  /** A line is a path, one space, and eight hexadecimal digits. */
  function ParseLine(l: string): Option<(Key, Hash)> {
    if |l| < Width + 1 then None
    else
      var cut := |l| - Width - 1;
      var h := l[cut + 1..];
      if l[cut] == ' ' && IsHash(h) then Some((SplitPath(l[..cut]), h)) else None
  }

  function ParseLines(ls: seq<string>): Option<seq<(Key, Hash)>>
    decreases |ls|
  {
    if |ls| == 0 then Some([])
    else
      match (ParseLine(ls[0]), ParseLines(ls[1..]))
      case (Some(e), Some(es)) => Some([e] + es)
      case _ => None
  }

  /** A manifest is a sequence of lines, each ended by a newline. */
  function ParseManifest(t: string): Option<seq<(Key, Hash)>> {
    if t != "" && t[|t| - 1] != '\n' then None else ParseLines(Lines(t))
  }

  lemma IndexOfFirst(a: string, c: char, rest: string)
    requires c !in a
    ensures IndexOf(a + [c] + rest, c) == |a|
    ensures IndexOf(a, c) == |a|
  {
    var s := a + [c] + rest;
    assert s[|a|] == c;
  }

  /** Cutting at the first separator splits off the leading name. */
  lemma SplitPathCons(a: Name, rest: string)
    requires Separator !in a
    ensures SplitPath(a + [Separator] + rest) == [a] + SplitPath(rest)
  {
    IndexOfFirst(a, Separator, rest);
    var s := a + [Separator] + rest;
    assert s[..|a|] == a && s[|a| + 1..] == rest;
  }

  lemma {:induction false} SplitRender(p: Path)
    requires ValidKey(p)
    ensures SplitPath(RenderPath(p)) == p
    decreases |p|
  {
    if |p| == 1 {
      IndexOfFirst(p[0], Separator, "");
      assert p == [p[0]];
    } else {
      assert ValidKey(p[1..]);
      SplitRender(p[1..]);
      SplitPathCons(p[0], RenderPath(p[1..]));
      assert p == [p[0]] + p[1..];
    }
  }

  lemma ParseRenderedLine(k: Key, h: Hash)
    requires ValidKey(k) && IsHash(h)
    ensures ParseLine(RenderPath(k) + " " + h) == Some((k, h))
  {
    var l := RenderPath(k) + " " + h;
    var cut := |l| - Width - 1;
    assert cut == |RenderPath(k)|;
    assert l[..cut] == RenderPath(k) && l[cut + 1..] == h;
    SplitRender(k);
  }

  /** The listing of a store whose keys and hashes the text form can carry reads back unchanged. */
  lemma ValidEntriesReadBack(es: seq<(Key, Hash)>, m: Store)
    requires Describes(es, m)
    ensures ValidStore(m) ==> ParseManifest(Text(es)) == Some(es)
  {
    if ValidStore(m) {
      TextRoundTrip(es);
    }
  }

  /** Cutting at the first newline splits off the leading line. */
  lemma LinesCons(body: string, rest: string)
    requires '\n' !in body
    ensures Lines(body + "\n" + rest) == [body] + Lines(rest)
  {
    IndexOfFirst(body, '\n', rest);
    var t := body + "\n" + rest;
    assert t[..|body|] == body && t[|body| + 1..] == rest;
  }

  /** A line body holds no newline: the path has none, and neither do the space and the digits. */
  lemma BodyHasNoNewline(k: Key, h: Hash)
    requires ValidKey(k) && IsHash(h)
    ensures '\n' !in RenderPath(k) + " " + h
  {
    var body := RenderPath(k) + " " + h;
    forall i | 0 <= i < |body|
      ensures body[i] != '\n'
    {
      if i > |RenderPath(k)| {
        assert body[i] == h[i - |RenderPath(k)| - 1];
      }
    }
  }

  /** The first line of a listing's text is the first entry's, ended by its newline. */
  lemma TextCons(es: seq<(Key, Hash)>)
    requires |es| > 0
    ensures Text(es) == RenderPath(es[0].0) + " " + es[0].1 + "\n" + Text(es[1..])
  {
  }

  /** Reading a line, then the lines after it. */
  lemma ParseLinesCons(l: string, ls: seq<string>)
    ensures ParseLines([l] + ls) ==
              if ParseLine(l).Some? && ParseLines(ls).Some? then Some([ParseLine(l).value] + ParseLines(ls).value) else None
  {
    assert ([l] + ls)[1..] == ls;
  }

  /** The lines of text written from valid entries read back as those entries. */
  lemma {:induction false} TextLines(es: seq<(Key, Hash)>)
    requires forall i :: 0 <= i < |es| ==> ValidKey(es[i].0) && IsHash(es[i].1)
    ensures ParseLines(Lines(Text(es))) == Some(es)
    decreases |es|
  {
    if |es| > 0 {
      var body := RenderPath(es[0].0) + " " + es[0].1;
      var rest := Text(es[1..]);
      TextCons(es);
      BodyHasNoNewline(es[0].0, es[0].1);
      LinesCons(body, rest);
      ParseRenderedLine(es[0].0, es[0].1);
      TextLines(es[1..]);
      ParseLinesCons(body, Lines(rest));
      assert es == [es[0]] + es[1..];
    }
  }

  /** Text written from valid entries reads back as those entries, in the same order. */
  lemma TextRoundTrip(es: seq<(Key, Hash)>)
    requires forall i :: 0 <= i < |es| ==> ValidKey(es[i].0) && IsHash(es[i].1)
    ensures ParseManifest(Text(es)) == Some(es)
  {
    TextLines(es);
  }
}
