/** The `tree`-style listing of an archive folder that `build_archive_tree` in
    folder_search.py produces, over an in-memory picture of the directory tree.
    Only folders and `.rvt` files are listed; folders come first, each group in
    lower-cased name order; the last entry of a folder is drawn with `└──`, the
    others with `├──`. */
module ArchiveTree {
  import opened PyStr

  /** A directory entry as `Path.iterdir` yields it. A folder that cannot be
      listed (`PermissionError`) is `readable == false`. */
  datatype Entry =
    | File(name: string)
    | Dir(name: string, readable: bool, children: seq<Entry>)

  /** What the archive root path names. */
  datatype RootState = Missing | Exists(entry: Entry)

  /** The answer of `build_archive_tree`: its lines, or the `NotADirectoryError`
      that `iterdir` raises, uncaught, when the root is a file. */
  datatype Listing = Tree(lines: seq<string>) | NotADirectoryError

  /** The path separator of the Windows paths the script scans. */
  const Sep: char := '\\'

  const NoEntriesNotice: string := "  (no folders or .rvt files found)"

  /** `str(directory / name)`: the name appended to the folder's path. */
  function JoinPath(dirPath: string, name: string): (p: string)
    ensures |dirPath| + |name| <= |p|
    ensures p[..|dirPath|] == dirPath && p[|p| - |name|..] == name
  {
    if |dirPath| > 0 && dirPath[|dirPath| - 1] == Sep then dirPath + name
    else dirPath + [Sep] + name
  }

  /** `safe_iterdir`: the entries of a folder, none when it cannot be read. */
  function ListDir(d: Entry): (r: seq<Entry>)
    requires d.Dir?
    ensures forall e :: e in r ==> e in d.children
    ensures !d.readable ==> r == []
  {
    if d.readable then d.children else []
  }

  // ---------------------------------------------------------------------------
  // Which entries are listed: folders and `.rvt` files
  // ---------------------------------------------------------------------------

  /** `name.rfind('.')`. */
  function LastDot(name: string): (i: int)
    ensures -1 <= i < |name|
    ensures i >= 0 ==> name[i] == '.'
    ensures forall j :: i < j < |name| ==> name[j] != '.'
  {
    if name == [] then -1
    else if name[|name| - 1] == '.' then |name| - 1
    else LastDot(name[..|name| - 1])
  }

  /** `PurePath.suffix`: from the last dot on, unless that dot starts or ends
      the name. */
  function Suffix(name: string): (suffix: string)
    ensures suffix == [] || (2 <= |suffix| < |name| && suffix[0] == '.'
                             && suffix == name[|name| - |suffix|..])
    ensures forall j :: 0 < j < |suffix| ==> suffix[j] != '.'
  {
    var i := LastDot(name);
    if 0 < i < |name| - 1 then name[i..] else ""
  }

  /** `entry.suffix.lower() == ".rvt"`. */
  predicate IsRvt(name: string) {
    Lower(Suffix(name)) == ".rvt"
  }

  /** The filter of the list comprehension in `walk`. */
  predicate Qualifies(e: Entry) {
    e.Dir? || IsRvt(e.name)
  }

  /** A file is listed exactly when its name has at least one character before
      a final `.rvt`, in any letter case. */
  lemma RvtSuffixRule(name: string)
    ensures IsRvt(name) <==> |name| >= 5 && Lower(name[|name| - 4..]) == ".rvt"
  {
    var n := |name|;
    var i := LastDot(name);
    if IsRvt(name) {
      assert Suffix(name) == name[i..];
      assert |name[i..]| == 4;
    }
    if n >= 5 && Lower(name[n - 4..]) == ".rvt" {
      assert name[n - 4..][0] == name[n - 4];
      assert LowerChar(name[n - 4]) == '.';
      forall j | n - 4 < j < n ensures name[j] != '.' {
        assert name[n - 4..][j - (n - 4)] == name[j];
        assert LowerChar(name[j]) != '.';
      }
      assert i == n - 4;
    }
  }

  /** The entries of `es` that are listed, in their original order. */
  function Qualifying(es: seq<Entry>): (r: seq<Entry>)
    ensures forall e :: e in r ==> e in es
  {
    if es == [] then []
    else
      assert es == es[..|es| - 1] + [es[|es| - 1]];
      Qualifying(es[..|es| - 1]) + (if Qualifies(es[|es| - 1]) then [es[|es| - 1]] else [])
  }

  /** The filter keeps exactly the folders and `.rvt` files. */
  lemma {:induction false} QualifyingMembers(es: seq<Entry>)
    ensures forall e :: e in Qualifying(es) <==> e in es && Qualifies(e)
  {
    if es != [] {
      var init, x := es[..|es| - 1], es[|es| - 1];
      assert es == init + [x];
      QualifyingMembers(init);
    }
  }

  lemma {:induction false} QualifyingConcat(a: seq<Entry>, b: seq<Entry>)
    ensures Qualifying(a + b) == Qualifying(a) + Qualifying(b)
    decreases |b|
  {
    if b != [] {
      assert (a + b)[..|a + b| - 1] == a + b[..|b| - 1];
      QualifyingConcat(a, b[..|b| - 1]);
    } else {
      assert a + b == a;
    }
  }

  // ---------------------------------------------------------------------------
  // The order of the entries: `entries.sort(key=lambda p: (not p.is_dir(), p.name.lower()))`
  // ---------------------------------------------------------------------------

  /** The sort key compared as Python compares tuples: folders (key `False`)
      before files (key `True`), then lower-cased names. */
  predicate KeyLess(a: Entry, b: Entry) {
    (a.Dir? && !b.Dir?) || (a.Dir? == b.Dir? && LexLess(Lower(a.name), Lower(b.name)))
  }

  lemma KeyLessIrreflexive(a: Entry)
    ensures !KeyLess(a, a)
  {
    LexLessIrreflexive(Lower(a.name));
  }

  lemma KeyLessTransitive(a: Entry, b: Entry, c: Entry)
    ensures KeyLess(a, b) && KeyLess(b, c) ==> KeyLess(a, c)
  {
    if KeyLess(a, b) && KeyLess(b, c) && a.Dir? == c.Dir? {
      LexLessTransitive(Lower(a.name), Lower(b.name), Lower(c.name));
    }
  }

  /** No entry sorts strictly before an entry placed ahead of it. */
  ghost predicate Arranged(es: seq<Entry>) {
    forall i, j :: 0 <= i < j < |es| ==> !KeyLess(es[j], es[i])
  }

  /** Places `x` after every entry of `es` whose key is not greater than its
      own, as a stable sort places a later element. */
  function Insert(x: Entry, es: seq<Entry>): seq<Entry> {
    if es == [] then [x]
    else if KeyLess(x, es[0]) then [x] + es
    else [es[0]] + Insert(x, es[1..])
  }

  lemma {:induction false} InsertPermutes(x: Entry, es: seq<Entry>)
    ensures multiset(Insert(x, es)) == multiset(es) + multiset{x}
  {
    if es != [] && !KeyLess(x, es[0]) {
      assert es == [es[0]] + es[1..];
      InsertPermutes(x, es[1..]);
    }
  }

  lemma {:induction false} InsertArranged(x: Entry, es: seq<Entry>)
    requires Arranged(es)
    ensures Arranged(Insert(x, es))
  {
    if es == [] {
    } else if KeyLess(x, es[0]) {
      forall j | 0 <= j < |es| ensures !KeyLess(es[j], x) {
        KeyLessTransitive(es[j], x, es[0]);
        KeyLessIrreflexive(es[0]);
      }
    } else {
      var rest := Insert(x, es[1..]);
      InsertArranged(x, es[1..]);
      InsertPermutes(x, es[1..]);
      forall j | 0 <= j < |rest| ensures !KeyLess(rest[j], es[0]) {
        assert rest[j] in multiset(es[1..]) + multiset{x};
        if rest[j] != x {
          assert rest[j] in es[1..];
        }
      }
    }
  }

  /** `entries.sort(...)`: an insertion sort that takes the entries from the
      front, each placed after the entries already placed whose key is not
      greater than its own. */
  function Arrange(es: seq<Entry>): seq<Entry> {
    if es == [] then [] else Insert(es[|es| - 1], Arrange(es[..|es| - 1]))
  }

  /** Sorting gains and loses nothing: the result is a permutation. */
  lemma {:induction false} ArrangePermutes(es: seq<Entry>)
    ensures multiset(Arrange(es)) == multiset(es)
    ensures forall e :: e in Arrange(es) <==> e in es
  {
    if es != [] {
      var init, x := es[..|es| - 1], es[|es| - 1];
      assert es == init + [x];
      ArrangePermutes(init);
      InsertPermutes(x, Arrange(init));
    }
    forall e ensures e in Arrange(es) <==> e in es {
      assert e in Arrange(es) <==> e in multiset(Arrange(es));
      assert e in es <==> e in multiset(es);
    }
  }

  /** The sorted entries are in key order: folders before files, and within
      each group no name sorts, lower-cased, before the name ahead of it. */
  lemma {:induction false} ArrangeOrdered(es: seq<Entry>)
    ensures var r := Arrange(es);
      && Arranged(r)
      && (forall i, j :: 0 <= i < j < |r| && r[j].Dir? ==> r[i].Dir?)
      && (forall i, j :: 0 <= i < j < |r| && r[i].Dir? == r[j].Dir? ==>
            !LexLess(Lower(r[j].name), Lower(r[i].name)))
  {
    if es != [] {
      ArrangeOrdered(es[..|es| - 1]);
      InsertArranged(es[|es| - 1], Arrange(es[..|es| - 1]));
    }
  }

  /** The entries `walk` lists for folder `d`, in the order it lists them. */
  function Entries(d: Entry): (r: seq<Entry>)
    requires d.Dir?
    ensures forall e :: e in r ==> e in d.children
  {
    ArrangePermutes(Qualifying(ListDir(d)));
    Arrange(Qualifying(ListDir(d)))
  }

  /** A folder lists exactly its folders and `.rvt` files, each as often as it
      holds it, and none when it cannot be read. */
  lemma EntriesAreQualifying(d: Entry)
    requires d.Dir?
    ensures multiset(Entries(d)) == multiset(Qualifying(ListDir(d)))
    ensures forall e :: e in Entries(d) <==> d.readable && e in d.children && Qualifies(e)
  {
    QualifyingMembers(ListDir(d));
    ArrangePermutes(Qualifying(ListDir(d)));
  }

  // ---------------------------------------------------------------------------
  // The lines, as a function of the tree
  // ---------------------------------------------------------------------------

  function Connector(last: bool): string {
    if last then "└──" else "├──"
  }

  /** What the prefix of a folder's subtree gains under the folder's line. */
  function Extension(last: bool): (ext: string)
    ensures |ext| == |Connector(last) + " "|
  {
    if last then "    " else "│   "
  }

  /** How an entry is named on its line: a folder by its name and a slash, a
      file by its full path. */
  function Label(e: Entry, dirPath: string): (text: string)
    ensures e.Dir? ==> |text| == |e.name| + 1 && text[..|e.name|] == e.name && text[|e.name|] == '/'
    ensures e.File? ==> |dirPath| + |e.name| <= |text|
                        && text[..|dirPath|] == dirPath && text[|text| - |e.name|..] == e.name
  {
    if e.Dir? then e.name + "/" else JoinPath(dirPath, e.name)
  }

  /** The line that names entry `e` of the folder at `dirPath` itself. */
  function EntryLine(e: Entry, last: bool, dirPath: string, prefix: string): string {
    prefix + Connector(last) + " " + Label(e, dirPath)
  }

  /** The lines of entry `e` of the folder at `dirPath`: its own line, then for
      a folder the lines of its subtree. */
  function EntryLines(e: Entry, last: bool, dirPath: string, prefix: string): seq<string>
    decreases e, 2, 0
  {
    [EntryLine(e, last, dirPath, prefix)]
    + if e.Dir? then WalkLines(e, JoinPath(dirPath, e.name), prefix + Extension(last)) else []
  }

  /** The lines of the first `n` listed entries of folder `d`. */
  function RenderPrefix(d: Entry, n: nat, dirPath: string, prefix: string): seq<string>
    requires d.Dir? && n <= |Entries(d)|
    decreases d, 0, n
  {
    if n == 0 then []
    else
      var e := Entries(d)[n - 1];
      assert e in d.children;
      RenderPrefix(d, n - 1, dirPath, prefix) + EntryLines(e, n == |Entries(d)|, dirPath, prefix)
  }

  /** The lines of the first `n + 1` entries: those of the first `n`, then
      those of entry `n`. */
  lemma RenderPrefixStep(d: Entry, n: nat, dirPath: string, prefix: string)
    requires d.Dir? && n < |Entries(d)|
    ensures Entries(d)[n] in d.children
    ensures RenderPrefix(d, n + 1, dirPath, prefix)
         == RenderPrefix(d, n, dirPath, prefix)
            + EntryLines(Entries(d)[n], n == |Entries(d)| - 1, dirPath, prefix)
  {
  }

  /** The lines `walk(d, prefix)` appends. */
  function WalkLines(d: Entry, dirPath: string, prefix: string): seq<string>
    requires d.Dir?
    decreases d, 1, 0
  {
    RenderPrefix(d, |Entries(d)|, dirPath, prefix)
  }

  /** The answer of `build_archive_tree` for the root path `root`. */
  function ArchiveTree(root: string, state: RootState): (listing: Listing)
    ensures state.Missing? <==> listing == Tree(["Archive directory not found -> " + root])
    ensures listing.NotADirectoryError? <==> state.Exists? && !state.entry.Dir?
    ensures state.Exists? && state.entry.Dir? ==>
      listing.Tree? && |listing.lines| >= 2 && listing.lines[0] == "Tree for " + root + ":"
  {
    match state
    case Missing => Tree(["Archive directory not found -> " + root])
    case Exists(e) =>
      if !e.Dir? then NotADirectoryError
      else
        var body := WalkLines(e, root, "");
        Tree(["Tree for " + root + ":"] + if body == [] then [NoEntriesNotice] else body)
  }

  // ---------------------------------------------------------------------------
  // How many lines: one per listed entry of the whole tree
  // ---------------------------------------------------------------------------

  /** The lines an entry accounts for: its own, and for a folder one per
      entry listed anywhere beneath it. */
  function Weight(e: Entry): nat
    decreases e, 2, 0
  {
    1 + if e.Dir? then Listed(e) else 0
  }

  /** The number of entries listed beneath folder `d`, counted over its
      qualifying entries in the order the folder yields them. */
  function Listed(d: Entry): nat
    requires d.Dir?
    decreases d, 1, 0
  {
    SumWeights(d, Qualifying(ListDir(d)))
  }

  /** The total weight of entries `es` of folder `d`. */
  function SumWeights(d: Entry, es: seq<Entry>): nat
    requires d.Dir? && forall e :: e in es ==> e in d.children
    decreases d, 0, |es|
  {
    if es == [] then 0
    else
      assert es[0] in es;
      Weight(es[0]) + SumWeights(d, es[1..])
  }

  lemma {:induction false} SumWeightsConcat(d: Entry, a: seq<Entry>, b: seq<Entry>)
    requires d.Dir? && forall e :: e in a + b ==> e in d.children
    ensures SumWeights(d, a + b) == SumWeights(d, a) + SumWeights(d, b)
  {
    if a == [] {
      assert a + b == b;
    } else {
      assert (a + b)[1..] == a[1..] + b;
      SumWeightsConcat(d, a[1..], b);
    }
  }

  lemma {:induction false} SumWeightsInsert(d: Entry, x: Entry, es: seq<Entry>)
    requires d.Dir? && x in d.children && forall e :: e in es ==> e in d.children
    ensures forall e :: e in Insert(x, es) ==> e in d.children
    ensures SumWeights(d, Insert(x, es)) == Weight(x) + SumWeights(d, es)
  {
    InsertPermutes(x, es);
    assert forall e :: e in Insert(x, es) ==> e in multiset(es) + multiset{x};
    if es != [] && !KeyLess(x, es[0]) {
      SumWeightsInsert(d, x, es[1..]);
    }
  }

  /** Sorting does not change how many lines the entries account for. */
  lemma {:induction false} SumWeightsArrange(d: Entry, es: seq<Entry>)
    requires d.Dir? && forall e :: e in es ==> e in d.children
    ensures forall e :: e in Arrange(es) ==> e in d.children
    ensures SumWeights(d, Arrange(es)) == SumWeights(d, es)
  {
    ArrangePermutes(es);
    if es != [] {
      var m := |es| - 1;
      var init, x := es[..m], es[m];
      assert forall e :: e in init ==> e in es;
      SumWeightsArrange(d, init);
      SumWeightsInsert(d, x, Arrange(init));
      SumWeightsSnoc(d, es, m);
      assert es[..m + 1] == es;
    }
  }

  lemma SumWeightsSnoc(d: Entry, es: seq<Entry>, n: nat)
    requires d.Dir? && n < |es| && forall e :: e in es ==> e in d.children
    ensures es[n] in d.children
    ensures SumWeights(d, es[..n + 1]) == SumWeights(d, es[..n]) + Weight(es[n])
  {
    assert es[..n + 1] == es[..n] + [es[n]];
    SumWeightsConcat(d, es[..n], [es[n]]);
    assert SumWeights(d, [es[n]]) == Weight(es[n]) by { assert [es[n]][1..] == []; }
  }

  lemma {:induction false} EntryLinesCount(e: Entry, last: bool, dirPath: string, prefix: string)
    ensures |EntryLines(e, last, dirPath, prefix)| == Weight(e)
    decreases e, 2, 0
  {
    if e.Dir? {
      WalkLinesCount(e, JoinPath(dirPath, e.name), prefix + Extension(last));
    }
  }

  lemma {:induction false} RenderPrefixCount(d: Entry, n: nat, dirPath: string, prefix: string)
    requires d.Dir? && n <= |Entries(d)|
    ensures |RenderPrefix(d, n, dirPath, prefix)| == SumWeights(d, Entries(d)[..n])
    decreases d, 0, n
  {
    if n > 0 {
      var es, m: nat := Entries(d), n - 1;
      RenderPrefixStep(d, m, dirPath, prefix);
      RenderPrefixCount(d, m, dirPath, prefix);
      EntryLinesCount(es[m], m == |es| - 1, dirPath, prefix);
      SumWeightsSnoc(d, es, m);
    }
  }

  /** `walk` appends one line per entry listed anywhere beneath the folder;
      an unreadable folder yields none. */
  lemma {:induction false} WalkLinesCount(d: Entry, dirPath: string, prefix: string)
    requires d.Dir?
    ensures |WalkLines(d, dirPath, prefix)| == Listed(d)
    ensures !d.readable ==> WalkLines(d, dirPath, prefix) == []
    decreases d, 1, 0
  {
    var es := Entries(d);
    RenderPrefixCount(d, |es|, dirPath, prefix);
    assert es[..|es|] == es;
    SumWeightsArrange(d, Qualifying(ListDir(d)));
  }

  /** The listing of an existing folder: the header, then one line per listed
      entry, or the notice when nothing beneath the folder is listed. */
  lemma ArchiveTreeShape(root: string, d: Entry)
    requires d.Dir?
    ensures var listing := ArchiveTree(root, Exists(d));
      && listing.Tree?
      && listing.lines[0] == "Tree for " + root + ":"
      && (Listed(d) == 0 ==> listing.lines == ["Tree for " + root + ":", NoEntriesNotice])
      && (Listed(d) > 0 ==> listing.lines == ["Tree for " + root + ":"] + WalkLines(d, root, "")
                            && |listing.lines| == 1 + Listed(d))
  {
    WalkLinesCount(d, root, "");
  }

  // ---------------------------------------------------------------------------
  // Indentation: which lines belong to which folder
  // ---------------------------------------------------------------------------

  /** Every line of `ls` extends `prefix`. */
  ghost predicate Indented(ls: seq<string>, prefix: string) {
    forall i :: 0 <= i < |ls| ==> |prefix| < |ls[i]| && ls[i][..|prefix|] == prefix
  }

  /** A line that names an entry of the folder drawn with `prefix`: a connector
      right after the prefix. Lines of deeper folders have a space or `│` there. */
  predicate AtLevel(line: string, prefix: string) {
    |prefix| < |line| && (line[|prefix|] == '├' || line[|prefix|] == '└')
  }

  /** The lines of `ls` at the level of `prefix`, in order. */
  function LevelLines(ls: seq<string>, prefix: string): seq<string> {
    if ls == [] then []
    else (if AtLevel(ls[0], prefix) then [ls[0]] else []) + LevelLines(ls[1..], prefix)
  }

  lemma {:induction false} LevelLinesConcat(a: seq<string>, b: seq<string>, prefix: string)
    ensures LevelLines(a + b, prefix) == LevelLines(a, prefix) + LevelLines(b, prefix)
  {
    if a == [] {
      assert a + b == b;
    } else {
      assert (a + b)[1..] == a[1..] + b;
      LevelLinesConcat(a[1..], b, prefix);
    }
  }

  lemma IndentedConcat(a: seq<string>, b: seq<string>, prefix: string)
    requires Indented(a, prefix) && Indented(b, prefix)
    ensures Indented(a + b, prefix)
  {
    forall i | 0 <= i < |a + b| ensures |prefix| < |(a + b)[i]| && (a + b)[i][..|prefix|] == prefix {
      if i >= |a| { assert (a + b)[i] == b[i - |a|]; }
    }
  }

  /** The line of an entry extends the prefix and carries a connector right
      after it. */
  lemma EntryLineAtLevel(e: Entry, last: bool, dirPath: string, prefix: string)
    ensures var line := EntryLine(e, last, dirPath, prefix);
      |prefix| < |line| && line[..|prefix|] == prefix && AtLevel(line, prefix)
  {
    var rest := Connector(last) + " " + Label(e, dirPath);
    assert EntryLine(e, last, dirPath, prefix) == prefix + rest;
    assert rest[0] == Connector(last)[0];
  }

  /** Lines that extend `prefix + Extension(last)` extend `prefix` and are
      not at its level. */
  lemma {:induction false} DeeperLines(ls: seq<string>, prefix: string, last: bool)
    requires Indented(ls, prefix + Extension(last))
    ensures Indented(ls, prefix)
    ensures LevelLines(ls, prefix) == []
  {
    var ext := prefix + Extension(last);
    forall i | 0 <= i < |ls| ensures ls[i][..|prefix|] == prefix && !AtLevel(ls[i], prefix) {
      assert ls[i][..|prefix|] == ls[i][..|ext|][..|prefix|] == ext[..|prefix|];
      assert ls[i][|prefix|] == ls[i][..|ext|][|prefix|] == Extension(last)[0];
    }
    if ls != [] {
      DeeperLines(ls[1..], prefix, last);
    }
  }

  lemma {:induction false} EntryLinesIndented(e: Entry, last: bool, dirPath: string, prefix: string)
    ensures Indented(EntryLines(e, last, dirPath, prefix), prefix)
    ensures LevelLines(EntryLines(e, last, dirPath, prefix), prefix) == [EntryLine(e, last, dirPath, prefix)]
    decreases e, 2, 0
  {
    var line := EntryLine(e, last, dirPath, prefix);
    EntryLineAtLevel(e, last, dirPath, prefix);
    var sub := if e.Dir? then WalkLines(e, JoinPath(dirPath, e.name), prefix + Extension(last)) else [];
    if e.Dir? {
      WalkLinesIndented(e, JoinPath(dirPath, e.name), prefix + Extension(last));
    }
    DeeperLines(sub, prefix, last);
    IndentedConcat([line], sub, prefix);
    LevelLinesConcat([line], sub, prefix);
    assert LevelLines([line], prefix) == [line] by { assert [line][1..] == []; }
  }

  lemma {:induction false} RenderPrefixIndented(d: Entry, n: nat, dirPath: string, prefix: string)
    requires d.Dir? && n <= |Entries(d)|
    ensures Indented(RenderPrefix(d, n, dirPath, prefix), prefix)
    decreases d, 0, n
  {
    if n > 0 {
      var es, m: nat := Entries(d), n - 1;
      var e, last := es[m], m == |es| - 1;
      RenderPrefixStep(d, m, dirPath, prefix);
      RenderPrefixIndented(d, m, dirPath, prefix);
      EntryLinesIndented(e, last, dirPath, prefix);
      IndentedConcat(RenderPrefix(d, m, dirPath, prefix), EntryLines(e, last, dirPath, prefix), prefix);
    }
  }

  /** Every line `walk(d, prefix)` appends starts with `prefix` and goes on past it. */
  lemma {:induction false} WalkLinesIndented(d: Entry, dirPath: string, prefix: string)
    requires d.Dir?
    ensures Indented(WalkLines(d, dirPath, prefix), prefix)
    decreases d, 1, 0
  {
    RenderPrefixIndented(d, |Entries(d)|, dirPath, prefix);
  }

  /** Entry `n` adds exactly its own line to the lines at the folder's level. */
  lemma RenderPrefixLevelStep(d: Entry, n: nat, dirPath: string, prefix: string)
    requires d.Dir? && n < |Entries(d)|
    ensures LevelLines(RenderPrefix(d, n + 1, dirPath, prefix), prefix)
         == LevelLines(RenderPrefix(d, n, dirPath, prefix), prefix)
            + [EntryLine(Entries(d)[n], n == |Entries(d)| - 1, dirPath, prefix)]
  {
    var e, last := Entries(d)[n], n == |Entries(d)| - 1;
    RenderPrefixStep(d, n, dirPath, prefix);
    EntryLinesIndented(e, last, dirPath, prefix);
    LevelLinesConcat(RenderPrefix(d, n, dirPath, prefix), EntryLines(e, last, dirPath, prefix), prefix);
  }

  /** The lines that name the first `n` of the entries `es` of one folder. */
  function NamingLines(es: seq<Entry>, n: nat, dirPath: string, prefix: string): seq<string>
    requires n <= |es|
  {
    if n == 0 then []
    else NamingLines(es, n - 1, dirPath, prefix) + [EntryLine(es[n - 1], n - 1 == |es| - 1, dirPath, prefix)]
  }

  lemma {:induction false} NamingLinesIndex(es: seq<Entry>, n: nat, dirPath: string, prefix: string)
    requires n <= |es|
    ensures |NamingLines(es, n, dirPath, prefix)| == n
    ensures forall i :: 0 <= i < n ==>
      NamingLines(es, n, dirPath, prefix)[i] == EntryLine(es[i], i == |es| - 1, dirPath, prefix)
  {
    if n > 0 {
      var m: nat := n - 1;
      NamingLinesIndex(es, m, dirPath, prefix);
      var prev, names := NamingLines(es, m, dirPath, prefix), NamingLines(es, n, dirPath, prefix);
      var line := EntryLine(es[m], m == |es| - 1, dirPath, prefix);
      assert names == prev + [line];
      forall i | 0 <= i < n ensures names[i] == EntryLine(es[i], i == |es| - 1, dirPath, prefix) {
        if i < m {
          assert names[i] == prev[i];
        } else {
          assert i == m;
          assert names[i] == line;
        }
      }
    }
  }

  lemma {:induction false} RenderPrefixLevel(d: Entry, n: nat, dirPath: string, prefix: string)
    requires d.Dir? && n <= |Entries(d)|
    ensures LevelLines(RenderPrefix(d, n, dirPath, prefix), prefix) == NamingLines(Entries(d), n, dirPath, prefix)
  {
    if n > 0 {
      var m: nat := n - 1;
      RenderPrefixLevel(d, m, dirPath, prefix);
      RenderPrefixLevelStep(d, m, dirPath, prefix);
    }
  }

  /** The lines of `walk(d, prefix)` at the folder's own level are exactly one
      per listed entry, in the sorted order, each with `└──` when it is the
      last entry and `├──` otherwise; all other lines are deeper. */
  lemma WalkLevel(d: Entry, dirPath: string, prefix: string)
    requires d.Dir?
    ensures var es, level := Entries(d), LevelLines(WalkLines(d, dirPath, prefix), prefix);
      && |level| == |es|
      && forall i :: 0 <= i < |es| ==>
           level[i] == prefix + Connector(i == |es| - 1) + " " + Label(es[i], dirPath)
  {
    RenderPrefixLevel(d, |Entries(d)|, dirPath, prefix);
    NamingLinesIndex(Entries(d), |Entries(d)|, dirPath, prefix);
  }

  // ---------------------------------------------------------------------------
  // Entries that are not listed leave no trace
  // ---------------------------------------------------------------------------

  /** The rendering of a folder depends on its listed entries alone. */
  lemma {:induction false} RenderPrefixSameEntries(d1: Entry, d2: Entry, n: nat, dirPath: string, prefix: string)
    requires d1.Dir? && d2.Dir? && Entries(d1) == Entries(d2) && n <= |Entries(d1)|
    ensures RenderPrefix(d1, n, dirPath, prefix) == RenderPrefix(d2, n, dirPath, prefix)
  {
    if n > 0 {
      var m: nat := n - 1;
      RenderPrefixSameEntries(d1, d2, m, dirPath, prefix);
      RenderPrefixStep(d1, m, dirPath, prefix);
      RenderPrefixStep(d2, m, dirPath, prefix);
    }
  }

  /** A file that is not an `.rvt` file changes nothing in a folder's lines,
      wherever it sits among the folder's entries. */
  lemma NonRvtFileIgnored(name: string, readable: bool, before: seq<Entry>, x: Entry, after: seq<Entry>,
                          dirPath: string, prefix: string)
    requires x.File? && !IsRvt(x.name)
    ensures WalkLines(Dir(name, readable, before + [x] + after), dirPath, prefix)
         == WalkLines(Dir(name, readable, before + after), dirPath, prefix)
  {
    var with, without := Dir(name, readable, before + [x] + after), Dir(name, readable, before + after);
    QualifyingConcat(before + [x], after);
    QualifyingConcat(before, [x]);
    QualifyingConcat(before, after);
    assert Qualifying([x]) == [] by { assert [x][..0] == []; }
    assert Qualifying(before + [x]) == Qualifying(before);
    RenderPrefixSameEntries(with, without, |Entries(with)|, dirPath, prefix);
  }

  /** The lines of an entry are its own line, then its subtree's lines. */
  lemma EntryLinesSplit(e: Entry, last: bool, dirPath: string, prefix: string, subtree: seq<string>)
    requires subtree == if e.Dir? then WalkLines(e, JoinPath(dirPath, e.name), prefix + Extension(last)) else []
    ensures EntryLines(e, last, dirPath, prefix) == [EntryLine(e, last, dirPath, prefix)] + subtree
  {
  }

  lemma Regroup(a: seq<string>, b: seq<string>, c: seq<string>, d: seq<string>)
    ensures a + b + c + d == a + (b + (c + d))
  {
  }

  // ---------------------------------------------------------------------------
  // The procedure itself
  // ---------------------------------------------------------------------------

  /** The state `walk` shares through its closure: the list of lines. */
  class TreeBuilder {
    var lines: seq<string>

    constructor (header: string)
      ensures lines == [header]
    {
      lines := [header];
    }

    /** `walk(directory, prefix)`: appends the lines of the folder's subtree. */
    method Walk(directory: Entry, dirPath: string, prefix: string)
      requires directory.Dir?
      modifies this
      ensures lines == old(lines) + WalkLines(directory, dirPath, prefix)
      decreases directory
    {
      var entries := Qualifying(ListDir(directory));
      entries := Arrange(entries);
      var idx: nat := 0;
      while idx < |entries|
        invariant entries == Entries(directory)
        invariant idx <= |entries|
        invariant lines == old(lines) + RenderPrefix(directory, idx, dirPath, prefix)
      {
        var entry := entries[idx];
        var last := idx == |entries| - 1;
        RenderPrefixStep(directory, idx, dirPath, prefix);
        var line := EntryLine(entry, last, dirPath, prefix);
        ghost var subtree: seq<string> := [];
        lines := lines + [line];
        if entry.Dir? {
          Walk(entry, JoinPath(dirPath, entry.name), prefix + Extension(last));
          subtree := WalkLines(entry, JoinPath(dirPath, entry.name), prefix + Extension(last));
        }
        EntryLinesSplit(entry, last, dirPath, prefix, subtree);
        Regroup(old(lines), RenderPrefix(directory, idx, dirPath, prefix), [line], subtree);
        idx := idx + 1;
      }
    }
  }

  /** `build_archive_tree(root)`. */
  method BuildArchiveTree(root: string, state: RootState) returns (result: Listing)
    ensures result == ArchiveTree(root, state)
    ensures state.Missing? <==> result == Tree(["Archive directory not found -> " + root])
    ensures state.Exists? && state.entry.Dir? ==>
      result.Tree? && |result.lines| >= 2 && result.lines[0] == "Tree for " + root + ":"
  {
    match state
    case Missing =>
      return Tree(["Archive directory not found -> " + root]);
    case Exists(e) =>
      if !e.Dir? {
        return NotADirectoryError;
      }
      var builder := new TreeBuilder("Tree for " + root + ":");
      builder.Walk(e, root, "");
      var lines := builder.lines;
      if |lines| == 1 {
        lines := lines + [NoEntriesNotice];
      }
      return Tree(lines);
  }
}
