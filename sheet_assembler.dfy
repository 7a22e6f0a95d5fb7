/**
 * The workbook bookkeeping of json2excel.js around the flattener: the
 * multi-sheet configuration (which language directories hold which logical
 * file, base language first) and the per-language merge lists (MERGE_DATA).
 * Directory listings and parsed files are inputs; nothing is read here.
 */
module SheetAssembler {
  import opened Wrappers
  import opened Sequences
  import opened JsonTree
  import opened Flattener

  /** A listing entry named exactly `.json` is skipped everywhere. */
  const BareJson := ".json"

  // ---------------------------------------------------------------------------
  // _getMultiSheetConfig

  /** One directory-listing entry: file `file` found in language directory `lang`. */
  datatype Entry = Entry(lang: string, file: string)

  /** The entries of one language directory, in listing order. */
  function Listed(lang: string, files: seq<string>): seq<Entry>
    decreases |files|
  {
    if files == [] then []
    else Listed(lang, files[..|files| - 1]) + [Entry(lang, files[|files| - 1])]
  }

  /** Every listing entry, directory by directory, in scan order. */
  function Scan(dirs: seq<string>, listings: seq<seq<string>>): seq<Entry>
    requires |dirs| == |listings|
    decreases |dirs|
  {
    if dirs == [] then []
    else
      var n := |dirs| - 1;
      Scan(dirs[..n], listings[..n]) + Listed(dirs[n], listings[n])
  }

  /**
   * The configuration object: its logical files in property order (the order
   * `Object.keys` later reports them) and each file's language list.
   */
  datatype Config = Config(files: seq<string>, langs: map<string, seq<string>>)

  /** One pass of the inner loop: the base language is unshifted, any other pushed. */
  function Record(c: Config, e: Entry): Config {
    if e.file == BareJson then c
    else
      var cur := if e.file in c.langs then c.langs[e.file] else [];
      var files := if e.file in c.langs then c.files else c.files + [e.file];
      Config(files, c.langs[e.file := if e.lang == BaseLanguage then [e.lang] + cur else cur + [e.lang]])
  }

  /** The configuration after recording `es` in order, starting from `{}`. */
  function Assemble(es: seq<Entry>): Config
    decreases |es|
  {
    if es == [] then Config([], map[])
    else Record(Assemble(es[..|es| - 1]), es[|es| - 1])
  }

  /** What `_getMultiSheetConfig` returns for these directories and their listings. */
  function ConfigOf(dirs: seq<string>, listings: seq<seq<string>>): Config
    requires |dirs| == |listings|
  {
    Assemble(Scan(dirs, listings))
  }

  lemma AssembleSnoc(es: seq<Entry>, e: Entry, es': seq<Entry>)
    requires es' == es + [e]
    ensures Assemble(es') == Record(Assemble(es), e)
  {
    assert es'[..|es|] == es;
  }

  lemma ListedSnoc(lang: string, files: seq<string>, j: nat)
    requires j < |files|
    ensures Listed(lang, files[..j + 1]) == Listed(lang, files[..j]) + [Entry(lang, files[j])]
  {
    assert files[..j + 1][..j] == files[..j];
  }

  lemma ScanSnoc(dirs: seq<string>, listings: seq<seq<string>>, i: nat)
    requires |dirs| == |listings| && i < |dirs|
    ensures Scan(dirs[..i + 1], listings[..i + 1]) == Scan(dirs[..i], listings[..i]) + Listed(dirs[i], listings[i])
  {
    assert dirs[..i + 1][..i] == dirs[..i];
    assert listings[..i + 1][..i] == listings[..i];
  }

  /** `_getMultiSheetConfig` (json2excel.js:91-114): one pass over every language directory. */
  method BuildConfig(dirs: seq<string>, listings: seq<seq<string>>) returns (c: Config)
    requires |dirs| == |listings|
    ensures c == ConfigOf(dirs, listings)
  {
    c := Config([], map[]);
    var i := 0;
    while i < |dirs|
      invariant 0 <= i <= |dirs|
      invariant c == Assemble(Scan(dirs[..i], listings[..i]))
    {
      var lang := dirs[i];
      var files := listings[i];
      ghost var done := Scan(dirs[..i], listings[..i]);
      assert files[..0] == [] && done + [] == done;
      var j := 0;
      while j < |files|
        invariant 0 <= j <= |files|
        invariant c == Assemble(done + Listed(lang, files[..j]))
      {
        var file := files[j];
        c := RecordEntry(c, lang, file);
        ListedSnoc(lang, files, j);
        ConcatAssoc(done, Listed(lang, files[..j]), [Entry(lang, file)]);
        AssembleSnoc(done + Listed(lang, files[..j]), Entry(lang, file), done + Listed(lang, files[..j + 1]));
        j := j + 1;
      }
      assert files[..|files|] == files;
      ScanSnoc(dirs, listings, i);
      i := i + 1;
    }
    assert dirs[..|dirs|] == dirs && listings[..|listings|] == listings;
  }

  /** The inner loop's body for one listing entry `file` of directory `lang`. */
  method RecordEntry(c: Config, lang: string, file: string) returns (c': Config)
    ensures c' == Record(c, Entry(lang, file))
  {
    c' := c;
    if file != BareJson {
      if file !in c'.langs {
        c' := Config(c'.files + [file], c'.langs[file := []]);
      }
      var cur := c'.langs[file];
      if lang == BaseLanguage {
        cur := [lang] + cur;
      } else {
        cur := cur + [lang];
      }
      c' := c'.(langs := c'.langs[file := cur]);
    }
  }

  // ---------------------------------------------------------------------------
  // Reference description of the configuration

  /** The file names of the entries, `.json` skipped, in scan order. */
  function FileNames(es: seq<Entry>): seq<string>
    decreases |es|
  {
    if es == [] then []
    else
      var e := es[|es| - 1];
      FileNames(es[..|es| - 1]) + (if e.file == BareJson then [] else [e.file])
  }

  /** The directories whose listing names `f`, in scan order. */
  function HoldersOf(es: seq<Entry>, f: string): seq<string>
    decreases |es|
  {
    if es == [] then []
    else
      var e := es[|es| - 1];
      HoldersOf(es[..|es| - 1], f) + (if e.file == f then [e.lang] else [])
  }

  /** `n` copies of `x`. */
  function Copies(n: nat, x: string): seq<string>
    decreases n
  {
    if n == 0 then [] else [x] + Copies(n - 1, x)
  }

  /** The elements of `s` other than `x`, in order. */
  function Without(s: seq<string>, x: string): seq<string>
    decreases |s|
  {
    if s == [] then []
    else Without(s[..|s| - 1], x) + (if s[|s| - 1] == x then [] else [s[|s| - 1]])
  }

  /** `s` with every occurrence of the base language moved to the front. */
  function BaseFirst(s: seq<string>): seq<string> {
    Copies(multiset(s)[BaseLanguage], BaseLanguage) + Without(s, BaseLanguage)
  }

  lemma {:induction false} CopiesSnoc(n: nat, x: string)
    ensures Copies(n, x) + [x] == [x] + Copies(n, x)
    decreases n
  {
    if n > 0 {
      CopiesSnoc(n - 1, x);
      ConcatAssoc([x], Copies(n - 1, x), [x]);
    }
  }

  lemma WithoutSnoc(h: seq<string>, x: string, lang: string, h': seq<string>)
    requires h' == h + [lang]
    ensures Without(h', x) == Without(h, x) + (if lang == x then [] else [lang])
  {
    assert h'[..|h|] == h;
  }

  lemma CountSnoc(h: seq<string>, lang: string, h': seq<string>)
    requires h' == h + [lang]
    ensures multiset(h')[BaseLanguage] == multiset(h)[BaseLanguage] + (if lang == BaseLanguage then 1 else 0)
  {
    assert multiset(h') == multiset(h) + multiset{lang};
  }

  /** Recording one more holder of `f` changes its language list as the loop body does. */
  lemma BaseFirstSnoc(h: seq<string>, lang: string)
    ensures BaseFirst(h + [lang]) == if lang == BaseLanguage then [lang] + BaseFirst(h) else BaseFirst(h) + [lang]
  {
    var h' := h + [lang];
    var n := multiset(h)[BaseLanguage];
    var w := Without(h, BaseLanguage);
    WithoutSnoc(h, BaseLanguage, lang, h');
    CountSnoc(h, lang, h');
    if lang == BaseLanguage {
      CopiesSnoc(n, BaseLanguage);
      assert Copies(n + 1, BaseLanguage) == [BaseLanguage] + Copies(n, BaseLanguage);
      assert Without(h', BaseLanguage) == w + [] == w;
      ConcatAssoc([BaseLanguage], Copies(n, BaseLanguage), w);
    } else {
      ConcatAssoc(Copies(n, BaseLanguage), w, [lang]);
    }
  }

  lemma FileNamesSnoc(es: seq<Entry>, e: Entry, es': seq<Entry>, f: string)
    requires es' == es + [e]
    ensures FileNames(es') == FileNames(es) + (if e.file == BareJson then [] else [e.file])
    ensures HoldersOf(es', f) == HoldersOf(es, f) + (if e.file == f then [e.lang] else [])
  {
    assert es'[..|es|] == es;
  }

  /** What recording one entry does to the file order and to file membership. */
  lemma RecordFiles(c: Config, e: Entry)
    ensures Record(c, e).files == if e.file == BareJson || e.file in c.langs then c.files else c.files + [e.file]
    ensures forall f :: f in Record(c, e).langs <==> f in c.langs || (f == e.file && f != BareJson)
  {
  }

  /** What recording one entry does to the language list of `f`. */
  lemma RecordLangs(c: Config, e: Entry, f: string)
    ensures f in Record(c, e).langs <==> f in c.langs || (f == e.file && f != BareJson)
    ensures f != e.file && f in c.langs ==> Record(c, e).langs[f] == c.langs[f]
    ensures f == e.file && f != BareJson ==>
      var cur := if f in c.langs then c.langs[f] else [];
      Record(c, e).langs[f] == if e.lang == BaseLanguage then [e.lang] + cur else cur + [e.lang]
  {
  }

  /**
   * The configuration names exactly the files that occur outside `.json`
   * entries, in order of first occurrence.
   */
  lemma {:induction false} AssembleFiles(es: seq<Entry>)
    ensures Assemble(es).files == Dedup(FileNames(es))
    ensures forall f :: f in Assemble(es).langs <==> f in FileNames(es)
    decreases |es|
  {
    if es != [] {
      var init := es[..|es| - 1];
      var e := es[|es| - 1];
      var names := FileNames(init);
      FileNamesSnoc(init, e, es, "");
      AssembleSnoc(init, e, es);
      AssembleFiles(init);
      RecordFiles(Assemble(init), e);
      if e.file != BareJson {
        assert e.file in Assemble(init).langs <==> e.file in Dedup(names);
        DedupSnoc(names, e.file, FileNames(es));
      } else {
        assert FileNames(es) == names + [] == names;
      }
    }
  }

  /**
   * The language list of `f` holds every directory whose listing names it,
   * as often as it does, base language first and the others in scan order.
   */
  lemma {:induction false} AssembleLangs(es: seq<Entry>, f: string)
    ensures f in Assemble(es).langs <==> f != BareJson && HoldersOf(es, f) != []
    ensures f in Assemble(es).langs ==> Assemble(es).langs[f] == BaseFirst(HoldersOf(es, f))
    decreases |es|
  {
    if es != [] {
      var init := es[..|es| - 1];
      var e := es[|es| - 1];
      var h := HoldersOf(init, f);
      var c := Assemble(init);
      FileNamesSnoc(init, e, es, f);
      AssembleSnoc(init, e, es);
      AssembleLangs(init, f);
      RecordLangs(c, e, f);
      if e.file == f && f != BareJson {
        var cur := if f in c.langs then c.langs[f] else [];
        assert cur == BaseFirst(h) by {
          if f !in c.langs {
            assert h == [];
            assert BaseFirst([]) == [];
          }
        }
        BaseFirstSnoc(h, e.lang);
      } else if e.file != f {
        assert HoldersOf(es, f) == h + [] == h;
      }
    }
  }

  lemma {:induction false} ListedHolds(lang: string, files: seq<string>, x: string, f: string)
    ensures Entry(x, f) in Listed(lang, files) <==> x == lang && f in files
    decreases |files|
  {
    if files != [] {
      var n := |files| - 1;
      ListedHolds(lang, files[..n], x, f);
      assert files == files[..n] + [files[n]];
    }
  }

  lemma {:induction false} HoldersIn(es: seq<Entry>, f: string, x: string)
    ensures x in HoldersOf(es, f) <==> Entry(x, f) in es
    decreases |es|
  {
    if es != [] {
      var init := es[..|es| - 1];
      FileNamesSnoc(init, es[|es| - 1], es, f);
      HoldersIn(init, f, x);
      assert es == init + [es[|es| - 1]];
    }
  }

  /** A directory that lists `f` contributes its entry to the scan. */
  lemma {:induction false} ScanEntryFrom(dirs: seq<string>, listings: seq<seq<string>>, x: string, f: string, i: nat)
    requires |dirs| == |listings| && i < |dirs| && dirs[i] == x && f in listings[i]
    ensures Entry(x, f) in Scan(dirs, listings)
    decreases |dirs|
  {
    var n := |dirs| - 1;
    assert Scan(dirs, listings) == Scan(dirs[..n], listings[..n]) + Listed(dirs[n], listings[n]);
    if i == n {
      ListedHolds(dirs[n], listings[n], x, f);
    } else {
      assert dirs[..n][i] == x && listings[..n][i] == listings[i];
      ScanEntryFrom(dirs[..n], listings[..n], x, f, i);
    }
  }

  /** An entry of the scan comes from a directory of its language that lists its file. */
  lemma {:induction false} ScanEntryWitness(dirs: seq<string>, listings: seq<seq<string>>, x: string, f: string) returns (i: nat)
    requires |dirs| == |listings| && Entry(x, f) in Scan(dirs, listings)
    ensures i < |dirs| && dirs[i] == x && f in listings[i]
    decreases |dirs|
  {
    var n := |dirs| - 1;
    assert Scan(dirs, listings) == Scan(dirs[..n], listings[..n]) + Listed(dirs[n], listings[n]);
    if Entry(x, f) in Listed(dirs[n], listings[n]) {
      ListedHolds(dirs[n], listings[n], x, f);
      i := n;
    } else {
      i := ScanEntryWitness(dirs[..n], listings[..n], x, f);
      assert dirs[..n][i] == dirs[i] && listings[..n][i] == listings[i];
    }
  }

  lemma ScanHolds(dirs: seq<string>, listings: seq<seq<string>>, x: string, f: string)
    requires |dirs| == |listings|
    ensures Entry(x, f) in Scan(dirs, listings) <==> exists i :: 0 <= i < |dirs| && dirs[i] == x && f in listings[i]
  {
    if Entry(x, f) in Scan(dirs, listings) {
      var i := ScanEntryWitness(dirs, listings, x, f);
    }
    if exists i :: 0 <= i < |dirs| && dirs[i] == x && f in listings[i] {
      var i :| 0 <= i < |dirs| && dirs[i] == x && f in listings[i];
      ScanEntryFrom(dirs, listings, x, f, i);
    }
  }

  /**
   * The configuration's files are distinct; each is a name other than `.json`
   * found in some directory, and every such name is a file of the configuration.
   */
  lemma ConfigFiles(dirs: seq<string>, listings: seq<seq<string>>, f: string)
    requires |dirs| == |listings|
    ensures Distinct(ConfigOf(dirs, listings).files)
    ensures f in ConfigOf(dirs, listings).files <==> f in ConfigOf(dirs, listings).langs
    ensures f in ConfigOf(dirs, listings).langs <==>
      f != BareJson && exists i :: 0 <= i < |dirs| && f in listings[i]
  {
    var es := Scan(dirs, listings);
    AssembleFiles(es);
    AssembleLangs(es, f);
    if f != BareJson && exists i :: 0 <= i < |dirs| && f in listings[i] {
      var i :| 0 <= i < |dirs| && f in listings[i];
      ScanHolds(dirs, listings, dirs[i], f);
      HoldersIn(es, f, dirs[i]);
    }
    if HoldersOf(es, f) != [] {
      var x := HoldersOf(es, f)[0];
      HoldersIn(es, f, x);
      ScanHolds(dirs, listings, x, f);
    }
  }

  /**
   * A language is on the list of `f` exactly when its directory lists `f`,
   * and the base language, when present, comes first.
   */
  lemma ConfigLangs(dirs: seq<string>, listings: seq<seq<string>>, f: string, x: string)
    requires |dirs| == |listings|
    requires f in ConfigOf(dirs, listings).langs
    ensures x in ConfigOf(dirs, listings).langs[f] <==>
      exists i :: 0 <= i < |dirs| && dirs[i] == x && f in listings[i]
    ensures BaseLanguage in ConfigOf(dirs, listings).langs[f] ==> ConfigOf(dirs, listings).langs[f][0] == BaseLanguage
  {
    var es := Scan(dirs, listings);
    var h := HoldersOf(es, f);
    AssembleLangs(es, f);
    HoldersIn(es, f, x);
    ScanHolds(dirs, listings, x, f);
    BaseFirstMembers(h, x);
    if BaseLanguage in BaseFirst(h) {
      BaseFirstMembers(h, BaseLanguage);
      assert multiset(h)[BaseLanguage] > 0;
    }
  }

  lemma {:induction false} WithoutMembers(s: seq<string>, x: string, y: string)
    ensures y in Without(s, x) <==> y in s && y != x
    decreases |s|
  {
    if s != [] {
      WithoutMembers(s[..|s| - 1], x, y);
      assert s == s[..|s| - 1] + [s[|s| - 1]];
    }
  }

  lemma {:induction false} CopiesMembers(n: nat, x: string, y: string)
    ensures y in Copies(n, x) <==> n > 0 && y == x
    decreases n
  {
    if n > 0 {
      CopiesMembers(n - 1, x, y);
    }
  }

  lemma BaseFirstMembers(h: seq<string>, y: string)
    ensures y in BaseFirst(h) <==> y in h
  {
    WithoutMembers(h, BaseLanguage, y);
    CopiesMembers(multiset(h)[BaseLanguage], BaseLanguage, y);
  }

  lemma {:induction false} HoldersConcat(a: seq<Entry>, b: seq<Entry>, f: string)
    ensures HoldersOf(a + b, f) == HoldersOf(a, f) + HoldersOf(b, f)
    decreases |b|
  {
    if b == [] {
      assert a + b == a;
    } else {
      var init := b[..|b| - 1];
      var e := b[|b| - 1];
      ConcatAssoc(a, init, [e]);
      assert b == init + [e];
      FileNamesSnoc(init, e, b, f);
      FileNamesSnoc(a + init, e, a + b, f);
      HoldersConcat(a, init, f);
      ConcatAssoc(HoldersOf(a, f), HoldersOf(init, f), if e.file == f then [e.lang] else []);
    }
  }

  /** A directory whose listing names each file once holds `f` once or not at all. */
  lemma {:induction false} ListedHolders(lang: string, files: seq<string>, f: string)
    requires Distinct(files)
    ensures HoldersOf(Listed(lang, files), f) == if f in files then [lang] else []
    decreases |files|
  {
    if files != [] {
      var n := |files| - 1;
      var init := files[..n];
      assert files == init + [files[n]];
      DistinctPrefix(files, n);
      ListedHolders(lang, init, f);
      FileNamesSnoc(Listed(lang, init), Entry(lang, files[n]), Listed(lang, files), f);
      if files[n] == f {
        assert f !in init;
      }
    }
  }

  /** A directory missing from the earlier names adds its language at most once to the holders of `f`. */
  lemma ScanHoldersStep(d: seq<string>, l: seq<seq<string>>, x: string, files: seq<string>, f: string, h: seq<string>)
    requires |d| == |l| && x !in d
    requires h == HoldersOf(Scan(d, l), f) && Distinct(h)
    ensures Distinct(h + if f in files then [x] else [])
  {
    if f in files {
      HoldersIn(Scan(d, l), f, x);
      ScanHolds(d, l, x, f);
      DistinctAppend(h, x);
    } else {
      assert h + [] == h;
    }
  }

  /** Distinct directory names, each listing naming a file once: no language twice per file. */
  lemma {:induction false} ScanHoldersDistinct(dirs: seq<string>, listings: seq<seq<string>>, f: string)
    requires |dirs| == |listings| && Distinct(dirs)
    requires forall i :: 0 <= i < |listings| ==> Distinct(listings[i])
    ensures Distinct(HoldersOf(Scan(dirs, listings), f))
    decreases |dirs|
  {
    if dirs != [] {
      var n := |dirs| - 1;
      var d, l := dirs[..n], listings[..n];
      DistinctPrefix(dirs, n);
      assert forall i :: 0 <= i < |l| ==> l[i] == listings[i];
      ScanHoldersDistinct(d, l, f);
      HoldersConcat(Scan(d, l), Listed(dirs[n], listings[n]), f);
      ListedHolders(dirs[n], listings[n], f);
      assert dirs[n] !in d by {
        forall i | 0 <= i < n ensures d[i] != dirs[n] {
          assert d[i] == dirs[i];
        }
      }
      ScanHoldersStep(d, l, dirs[n], listings[n], f, HoldersOf(Scan(d, l), f));
    }
  }

  lemma {:induction false} WithoutDistinct(s: seq<string>, x: string)
    requires Distinct(s)
    ensures Distinct(Without(s, x))
    decreases |s|
  {
    if s != [] {
      var n := |s| - 1;
      var init := s[..n];
      DistinctPrefix(s, n);
      WithoutDistinct(init, x);
      if s[n] != x {
        WithoutMembers(init, x, s[n]);
        DistinctAppend(Without(init, x), s[n]);
      } else {
        assert Without(s, x) == Without(init, x) + [];
      }
    }
  }

  lemma {:induction false} DistinctOnce(s: seq<string>, x: string)
    requires Distinct(s)
    ensures multiset(s)[x] <= 1
    decreases |s|
  {
    if s != [] {
      var n := |s| - 1;
      var init := s[..n];
      assert s == init + [s[n]];
      DistinctPrefix(s, n);
      DistinctOnce(init, x);
      assert multiset(s) == multiset(init) + multiset{s[n]};
      if s[n] == x {
        assert x !in init;
        assert multiset(init)[x] == 0;
      }
    }
  }

  lemma BaseFirstDistinct(h: seq<string>)
    requires Distinct(h)
    ensures Distinct(BaseFirst(h))
  {
    var w := Without(h, BaseLanguage);
    WithoutDistinct(h, BaseLanguage);
    DistinctOnce(h, BaseLanguage);
    WithoutMembers(h, BaseLanguage, BaseLanguage);
    if multiset(h)[BaseLanguage] == 1 {
      assert Copies(1, BaseLanguage) == [BaseLanguage];
      DistinctCons(BaseLanguage, w);
    } else {
      assert BaseFirst(h) == [] + w == w;
    }
  }

  /**
   * When directory names are distinct and each listing names a file once
   * (as a directory listing does), no file's language list repeats a language.
   */
  lemma ConfigDistinct(dirs: seq<string>, listings: seq<seq<string>>, f: string)
    requires |dirs| == |listings| && Distinct(dirs)
    requires forall i :: 0 <= i < |listings| ==> Distinct(listings[i])
    requires f in ConfigOf(dirs, listings).langs
    ensures Distinct(ConfigOf(dirs, listings).langs[f])
  {
    AssembleLangs(Scan(dirs, listings), f);
    ScanHoldersDistinct(dirs, listings, f);
    BaseFirstDistinct(HoldersOf(Scan(dirs, listings), f));
  }

  // ---------------------------------------------------------------------------
  // MERGE_DATA: one list of rows per language, keys in insertion order

  /** One `push(...sheetData)`: the rows of one sheet for language `lang`. */
  datatype Sheet = Sheet(lang: string, rows: seq<Row>)

  /** The merge lists as a value: languages in property order and each one's rows. */
  datatype Merge = Merge(langs: seq<string>, lists: map<string, seq<Row>>)

  /** The list of `lang` so far; a language not yet seen starts empty. */
  function Prior(lists: map<string, seq<Row>>, lang: string): seq<Row> {
    if lang in lists then lists[lang] else []
  }

  /** `if (!MERGE_DATA[lang]) MERGE_DATA[lang] = []; MERGE_DATA[lang].push(...rows)`. */
  function PushRows(m: Merge, s: Sheet): Merge {
    Merge(WithKey(m.langs, s.lang), m.lists[s.lang := Prior(m.lists, s.lang) + s.rows])
  }

  /** The merge lists after pushing `sheets` in order. */
  function Merged(m: Merge, sheets: seq<Sheet>): Merge
    decreases |sheets|
  {
    if sheets == [] then m
    else PushRows(Merged(m, sheets[..|sheets| - 1]), sheets[|sheets| - 1])
  }

  /** The rows of the sheets of language `lang`, concatenated in order. */
  function Collect(sheets: seq<Sheet>, lang: string): seq<Row>
    decreases |sheets|
  {
    if sheets == [] then []
    else
      var s := sheets[|sheets| - 1];
      Collect(sheets[..|sheets| - 1], lang) + (if s.lang == lang then s.rows else [])
  }

  /** The languages of `sheets`, in order. */
  function LangsOf(sheets: seq<Sheet>): seq<string>
    decreases |sheets|
  {
    if sheets == [] then [] else LangsOf(sheets[..|sheets| - 1]) + [sheets[|sheets| - 1].lang]
  }

  /** The property order names every list exactly once. */
  predicate Consistent(m: Merge) {
    && Distinct(m.langs)
    && (forall l :: l in m.langs ==> l in m.lists)
    && (forall l :: l in m.lists ==> l in m.langs)
  }

  /** `{ en: [] }` (json2excel.js:16). */
  const Initial := Merge([BaseLanguage], map[BaseLanguage := []])

  lemma MergedSnoc(m: Merge, sheets: seq<Sheet>, s: Sheet, sheets': seq<Sheet>)
    requires sheets' == sheets + [s]
    ensures Merged(m, sheets') == PushRows(Merged(m, sheets), s)
    ensures Collect(sheets', s.lang) == Collect(sheets, s.lang) + s.rows
    ensures forall l :: l != s.lang ==> Collect(sheets', l) == Collect(sheets, l)
    ensures LangsOf(sheets') == LangsOf(sheets) + [s.lang]
  {
    assert sheets'[..|sheets|] == sheets;
  }

  /** Pushing two sequences of sheets is pushing the first, then the second. */
  lemma {:induction false} MergedConcat(m: Merge, a: seq<Sheet>, b: seq<Sheet>)
    ensures Merged(m, a + b) == Merged(Merged(m, a), b)
    decreases |b|
  {
    if b == [] {
      assert a + b == a;
    } else {
      var b0 := b[..|b| - 1];
      MergedConcat(m, a, b0);
      assert (a + b)[..|a + b| - 1] == a + b0;
      assert (a + b)[|a + b| - 1] == b[|b| - 1];
    }
  }

  /**
   * After pushing `sheets`, each language's list is its old list followed by
   * the rows of that language's sheets in push order; a language has a list
   * exactly when it had one or some sheet is in it.
   */
  lemma {:induction false} MergedLists(m: Merge, sheets: seq<Sheet>, l: string)
    ensures l in Merged(m, sheets).lists <==> l in m.lists || l in LangsOf(sheets)
    ensures Prior(Merged(m, sheets).lists, l) == Prior(m.lists, l) + Collect(sheets, l)
    decreases |sheets|
  {
    if sheets != [] {
      var init := sheets[..|sheets| - 1];
      var s := sheets[|sheets| - 1];
      MergedSnoc(m, init, s, sheets);
      MergedLists(m, init, l);
      if s.lang == l {
        ConcatAssoc(Prior(m.lists, l), Collect(init, l), s.rows);
      }
    }
  }

  /**
   * Pushing keeps the lists consistent with their property order, and a
   * language already present keeps its position: new languages only go last.
   */
  lemma {:induction false} MergedOrder(m: Merge, sheets: seq<Sheet>)
    requires Consistent(m)
    ensures Consistent(Merged(m, sheets))
    ensures |m.langs| <= |Merged(m, sheets).langs| && Merged(m, sheets).langs[..|m.langs|] == m.langs
    decreases |sheets|
  {
    if sheets != [] {
      var init := sheets[..|sheets| - 1];
      var s := sheets[|sheets| - 1];
      MergedSnoc(m, init, s, sheets);
      MergedOrder(m, init);
      var before := Merged(m, init);
      if s.lang !in before.langs {
        DistinctAppend(before.langs, s.lang);
        assert (before.langs + [s.lang])[..|m.langs|] == before.langs[..|m.langs|];
      }
    }
  }

  /**
   * Starting from `{ en: [] }`, the base language stays the first sheet of
   * the merge workbook and every language's list is exactly the rows of its
   * sheets, in push order.
   */
  lemma FromInitial(sheets: seq<Sheet>, l: string)
    ensures Merged(Initial, sheets).langs != [] && Merged(Initial, sheets).langs[0] == BaseLanguage
    ensures BaseLanguage in Merged(Initial, sheets).lists
    ensures Prior(Merged(Initial, sheets).lists, l) == Collect(sheets, l)
  {
    assert Consistent(Initial);
    MergedOrder(Initial, sheets);
    MergedLists(Initial, sheets, l);
    MergedLists(Initial, sheets, BaseLanguage);
  }

  /** Lists reached by pushing from a valid state are valid. */
  lemma MergedValid(m: Merge, sheets: seq<Sheet>, now: Merge)
    requires Consistent(m) && BaseLanguage in m.lists && now == Merged(m, sheets)
    ensures Consistent(now) && BaseLanguage in now.lists
  {
    MergedOrder(m, sheets);
    MergedLists(m, sheets, BaseLanguage);
  }

  /** The module-level MERGE_DATA object. */
  class MergeData {
    var langs: seq<string>
    var lists: map<string, seq<Row>>

    function Current(): Merge
      reads this
    {
      Merge(langs, lists)
    }

    predicate Valid()
      reads this
    {
      Consistent(Current()) && BaseLanguage in lists
    }

    /** `const MERGE_DATA = { en: [] }`. */
    constructor ()
      ensures Current() == Initial && Valid()
    {
      langs := [BaseLanguage];
      lists := map[BaseLanguage := []];
    }

    /** Push the rows of one sheet onto its language's list, creating the list if absent. */
    method Push(s: Sheet)
      requires Valid()
      modifies this
      ensures Current() == PushRows(old(Current()), s)
      ensures Valid()
    {
      if s.lang !in lists {
        lists := lists[s.lang := []];
        DistinctAppend(langs, s.lang);
        langs := langs + [s.lang];
      }
      lists := lists[s.lang := lists[s.lang] + s.rows];
    }

    /**
     * `_generateExcelMerge` (json2excel.js:74-88): the base-language rows of
     * every file of a flat directory are pushed onto the base list.
     */
    method MergeBaseFiles(files: seq<string>, trees: map<string, Obj>)
      requires Valid()
      requires forall f :: f in files && f != BareJson ==> f in trees
      modifies this
      ensures Current() == Merged(old(Current()), BaseSheets(files, trees))
      ensures Valid()
    {
      ghost var m := Current();
      ghost var done: seq<Sheet> := [];
      var i := 0;
      while i < |files|
        invariant 0 <= i <= |files|
        invariant done == BaseSheets(files[..i], trees)
        invariant Current() == Merged(m, done)
      {
        var f := files[i];
        BaseSheetsSnoc(files, trees, i);
        if f != BareJson {
          var s := Sheet(BaseLanguage, SheetRows(trees[f], f, BaseLanguage, None));
          MergedValid(m, done, Current());
          Push(s);
          MergedSnoc(m, done, s, done + [s]);
          done := done + [s];
        }
        i := i + 1;
      }
      assert files[..|files|] == files;
      MergedValid(m, done, Current());
    }

    /**
     * `_generateExcelMultiSheetMerge` up to the workbook (json2excel.js:137-151):
     * for every file in configuration order and every language on its list,
     * that sheet's rows are pushed onto the language's list.
     */
    method MergeConfigSheets(c: Config, disk: map<Entry, Obj>)
      requires Valid()
      requires Loadable(c, disk)
      modifies this
      ensures Current() == Merged(old(Current()), ConfigSheets(c.files, c, disk))
      ensures Valid()
    {
      ghost var m := Current();
      var i := 0;
      while i < |c.files|
        invariant 0 <= i <= |c.files|
        invariant Current() == Merged(m, ConfigSheets(c.files[..i], c, disk))
      {
        MergeNextFile(c, disk, i, m);
        i := i + 1;
      }
      assert c.files[..|c.files|] == c.files;
      MergedValid(m, ConfigSheets(c.files, c, disk), Current());
    }

    /** One pass of the outer loop: the sheets of the `i`-th configured file extend the merge of the files before it. */
    method MergeNextFile(c: Config, disk: map<Entry, Obj>, i: nat, ghost m: Merge)
      requires Loadable(c, disk) && i < |c.files|
      requires Consistent(m) && BaseLanguage in m.lists
      requires Current() == Merged(m, ConfigSheets(c.files[..i], c, disk))
      modifies this
      ensures Current() == Merged(m, ConfigSheets(c.files[..i + 1], c, disk))
    {
      var f := c.files[i];
      MergedValid(m, ConfigSheets(c.files[..i], c, disk), Current());
      MergeFileSheets(f, c.langs[f], disk);
      ConfigMergedSnoc(m, c, disk, i);
    }

    /** The inner loop of `_generateExcelMultiSheetMerge`: the sheets of one file, in its language order. */
    method MergeFileSheets(f: string, ls: seq<string>, disk: map<Entry, Obj>)
      requires Valid()
      requires forall l :: l in ls ==> Entry(l, f) in disk
      modifies this
      ensures Current() == Merged(old(Current()), FileSheets(f, ls, disk))
      ensures Valid()
    {
      ghost var m := Current();
      ghost var done: seq<Sheet> := [];
      var j := 0;
      while j < |ls|
        invariant 0 <= j <= |ls|
        invariant done == FileSheets(f, ls[..j], disk)
        invariant Current() == Merged(m, done)
      {
        var s := Sheet(ls[j], SheetRows(disk[Entry(ls[j], f)], f, ls[j], BaseOf(disk, f)));
        MergedValid(m, done, Current());
        Push(s);
        MergedSnoc(m, done, s, done + [s]);
        FileSheetsSnoc(f, ls, j, disk);
        done := done + [s];
        j := j + 1;
      }
      assert ls[..|ls|] == ls;
      MergedValid(m, done, Current());
    }
  }

  /** The base-language sheets of a flat directory's files, `.json` skipped. */
  function BaseSheets(files: seq<string>, trees: map<string, Obj>): seq<Sheet>
    requires forall f :: f in files && f != BareJson ==> f in trees
    decreases |files|
  {
    if files == [] then []
    else
      var f := files[|files| - 1];
      BaseSheets(files[..|files| - 1], trees) +
        (if f == BareJson then [] else [Sheet(BaseLanguage, SheetRows(trees[f], f, BaseLanguage, None))])
  }

  /** The base-language tree of logical file `f`, if its directory holds one. */
  function BaseOf(disk: map<Entry, Obj>, f: string): Option<Obj> {
    if Entry(BaseLanguage, f) in disk then Some(disk[Entry(BaseLanguage, f)]) else None
  }

  /** Every file of the configuration is on the list of every language named for it. */
  predicate Loadable(c: Config, disk: map<Entry, Obj>) {
    forall f :: f in c.files ==> f in c.langs && forall l :: l in c.langs[f] ==> Entry(l, f) in disk
  }

  /** The sheets of file `f` for the languages `ls`, in list order. */
  function FileSheets(f: string, ls: seq<string>, disk: map<Entry, Obj>): seq<Sheet>
    requires forall l :: l in ls ==> Entry(l, f) in disk
    decreases |ls|
  {
    if ls == [] then []
    else
      var l := ls[|ls| - 1];
      FileSheets(f, ls[..|ls| - 1], disk) + [Sheet(l, SheetRows(disk[Entry(l, f)], f, l, BaseOf(disk, f)))]
  }

  /** The sheets of the files `fs`, file by file, each in its language order. */
  function ConfigSheets(fs: seq<string>, c: Config, disk: map<Entry, Obj>): seq<Sheet>
    requires forall f :: f in fs ==> f in c.langs && forall l :: l in c.langs[f] ==> Entry(l, f) in disk
    decreases |fs|
  {
    if fs == [] then []
    else
      var f := fs[|fs| - 1];
      ConfigSheets(fs[..|fs| - 1], c, disk) + FileSheets(f, c.langs[f], disk)
  }

  /** The rows of language `l` for the files `fs`: each file's sheet in that language, if it has one. */
  function LangRows(fs: seq<string>, c: Config, disk: map<Entry, Obj>, l: string): seq<Row>
    requires forall f :: f in fs ==> f in c.langs && forall l :: l in c.langs[f] ==> Entry(l, f) in disk
    decreases |fs|
  {
    if fs == [] then []
    else
      var f := fs[|fs| - 1];
      LangRows(fs[..|fs| - 1], c, disk, l) +
        (if l in c.langs[f] then SheetRows(disk[Entry(l, f)], f, l, BaseOf(disk, f)) else [])
  }

  lemma {:induction false} CollectConcat(a: seq<Sheet>, b: seq<Sheet>, l: string)
    ensures Collect(a + b, l) == Collect(a, l) + Collect(b, l)
    decreases |b|
  {
    if b == [] {
      assert a + b == a;
    } else {
      var init := b[..|b| - 1];
      var s := b[|b| - 1];
      assert b == init + [s];
      ConcatAssoc(a, init, [s]);
      MergedSnoc(Initial, init, s, b);
      MergedSnoc(Initial, a + init, s, a + b);
      CollectConcat(a, init, l);
      ConcatAssoc(Collect(a, l), Collect(init, l), if s.lang == l then s.rows else []);
    }
  }

  lemma {:induction false} CollectFile(f: string, ls: seq<string>, disk: map<Entry, Obj>, l: string)
    requires Distinct(ls) && forall l :: l in ls ==> Entry(l, f) in disk
    ensures Collect(FileSheets(f, ls, disk), l) ==
      if l in ls then SheetRows(disk[Entry(l, f)], f, l, BaseOf(disk, f)) else []
    decreases |ls|
  {
    if ls != [] {
      var n := |ls| - 1;
      var init := ls[..n];
      assert ls == init + [ls[n]];
      DistinctPrefix(ls, n);
      var s := Sheet(ls[n], SheetRows(disk[Entry(ls[n], f)], f, ls[n], BaseOf(disk, f)));
      MergedSnoc(Initial, FileSheets(f, init, disk), s, FileSheets(f, ls, disk));
      CollectFile(f, init, disk, l);
      if ls[n] == l {
        assert l !in init;
      }
    }
  }

  /**
   * Each language's merge list is the concatenation, in configuration order,
   * of every file's rows for that language (files without it contribute nothing).
   */
  lemma {:induction false} CollectConfig(fs: seq<string>, c: Config, disk: map<Entry, Obj>, l: string)
    requires forall f :: f in fs ==> f in c.langs && forall l :: l in c.langs[f] ==> Entry(l, f) in disk
    requires forall f :: f in fs ==> Distinct(c.langs[f])
    ensures Collect(ConfigSheets(fs, c, disk), l) == LangRows(fs, c, disk, l)
    decreases |fs|
  {
    if fs != [] {
      var n := |fs| - 1;
      var f := fs[n];
      CollectConfig(fs[..n], c, disk, l);
      CollectConcat(ConfigSheets(fs[..n], c, disk), FileSheets(f, c.langs[f], disk), l);
      CollectFile(f, c.langs[f], disk, l);
    }
  }

  lemma BaseSheetsSnoc(files: seq<string>, trees: map<string, Obj>, i: nat)
    requires i < |files| && forall f :: f in files && f != BareJson ==> f in trees
    ensures files[i] == BareJson ==> BaseSheets(files[..i + 1], trees) == BaseSheets(files[..i], trees)
    ensures files[i] != BareJson ==>
      BaseSheets(files[..i + 1], trees) ==
        BaseSheets(files[..i], trees) + [Sheet(BaseLanguage, SheetRows(trees[files[i]], files[i], BaseLanguage, None))]
  {
    assert files[..i + 1][..i] == files[..i];
    assert BaseSheets(files[..i], trees) + [] == BaseSheets(files[..i], trees);
  }

  lemma FileSheetsSnoc(f: string, ls: seq<string>, j: nat, disk: map<Entry, Obj>)
    requires j < |ls| && forall l :: l in ls ==> Entry(l, f) in disk
    ensures FileSheets(f, ls[..j + 1], disk) ==
      FileSheets(f, ls[..j], disk) + [Sheet(ls[j], SheetRows(disk[Entry(ls[j], f)], f, ls[j], BaseOf(disk, f)))]
  {
    assert ls[..j + 1][..j] == ls[..j];
  }

  lemma ConfigSheetsSnoc(c: Config, disk: map<Entry, Obj>, i: nat)
    requires Loadable(c, disk) && i < |c.files|
    ensures ConfigSheets(c.files[..i + 1], c, disk) ==
      ConfigSheets(c.files[..i], c, disk) + FileSheets(c.files[i], c.langs[c.files[i]], disk)
  {
    assert c.files[..i + 1][..i] == c.files[..i];
  }

  /** Merging the sheets of one more configured file continues the merge of the files before it. */
  lemma ConfigMergedSnoc(m: Merge, c: Config, disk: map<Entry, Obj>, i: nat)
    requires Loadable(c, disk) && i < |c.files|
    ensures Merged(m, ConfigSheets(c.files[..i + 1], c, disk))
         == Merged(Merged(m, ConfigSheets(c.files[..i], c, disk)), FileSheets(c.files[i], c.langs[c.files[i]], disk))
  {
    ConfigSheetsSnoc(c, disk, i);
    MergedConcat(m, ConfigSheets(c.files[..i], c, disk), FileSheets(c.files[i], c.langs[c.files[i]], disk));
  }
}
