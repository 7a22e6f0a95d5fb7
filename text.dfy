/**
 * The string operations the tool relies on: `String.prototype.split` with a
 * one-character separator, the joins that build keys, and
 * `path.basename(name, ext)` applied to bare file names.
 */
module Text {

  /** `s.split(sep)`: the pieces between separators; always at least one, possibly empty. */
  function Split(s: string, sep: char): (parts: seq<string>)
    ensures |parts| >= 1
    decreases |s|
  {
    if s == [] then [""]
    else
      var rest := Split(s[1..], sep);
      if s[0] == sep then [""] + rest
      else [[s[0]] + rest[0]] + rest[1..]
  }

  /** `parts.join(sep)`. */
  function Join(parts: seq<string>, sep: char): string
    decreases |parts|
  {
    if parts == [] then ""
    else if |parts| == 1 then parts[0]
    else parts[0] + [sep] + Join(parts[1..], sep)
  }

  /** Text without the separator is a single piece. */
  lemma {:induction false} SplitNoSep(p: string, sep: char)
    requires sep !in p
    ensures Split(p, sep) == [p]
    decreases |p|
  {
    if p != [] {
      SplitNoSep(p[1..], sep);
      assert [p[0]] + p[1..] == p;
    }
  }

  /** No piece of a split contains the separator. */
  lemma {:induction false} SplitPieces(s: string, sep: char)
    ensures forall i :: 0 <= i < |Split(s, sep)| ==> sep !in Split(s, sep)[i]
    decreases |s|
  {
    if s != [] {
      SplitPieces(s[1..], sep);
      var rest := Split(s[1..], sep);
      if s[0] != sep {
        assert forall i :: 1 <= i < |Split(s, sep)| ==> Split(s, sep)[i] == rest[i];
        assert Split(s, sep)[0] == [s[0]] + rest[0];
      }
    }
  }

  /** Prefixing a character to the first piece commutes with appending more pieces. */
  lemma ConsFirst(c: char, left: seq<string>, more: seq<string>)
    requires |left| >= 1
    ensures [[c] + (left + more)[0]] + (left + more)[1..] == ([[c] + left[0]] + left[1..]) + more
  {
    assert (left + more)[1..] == left[1..] + more;
  }

  /** A separator between two texts splits exactly there. */
  lemma {:induction false} SplitConcat(x: string, y: string, sep: char)
    ensures Split(x + [sep] + y, sep) == Split(x, sep) + Split(y, sep)
    decreases |x|
  {
    var s := x + [sep] + y;
    if x == [] {
      assert s == [sep] + y;
      assert s[1..] == y;
    } else {
      assert s[1..] == x[1..] + [sep] + y;
      SplitConcat(x[1..], y, sep);
      if x[0] != sep {
        ConsFirst(x[0], Split(x[1..], sep), Split(y, sep));
      }
    }
  }

  /** Split undoes Join when no piece contains the separator. */
  lemma {:induction false} SplitJoin(parts: seq<string>, sep: char)
    requires |parts| >= 1
    requires forall i :: 0 <= i < |parts| ==> sep !in parts[i]
    ensures Split(Join(parts, sep), sep) == parts
    decreases |parts|
  {
    SplitNoSep(parts[0], sep);
    if |parts| > 1 {
      var rest := parts[1..];
      var joined := Join(rest, sep);
      assert Join(parts, sep) == parts[0] + [sep] + joined;
      SplitJoin(rest, sep);
      SplitConcat(parts[0], joined, sep);
      assert parts == [parts[0]] + rest;
    }
  }

  /** Joining one more piece appends the separator and that piece. */
  lemma {:induction false} JoinSnoc(parts: seq<string>, x: string, sep: char)
    requires |parts| >= 1
    ensures Join(parts + [x], sep) == Join(parts, sep) + [sep] + x
    decreases |parts|
  {
    if |parts| > 1 {
      assert (parts + [x])[1..] == parts[1..] + [x];
      JoinSnoc(parts[1..], x, sep);
    } else {
      assert (parts + [x])[1..] == [x];
    }
  }

  /** A character that is neither the separator nor in any piece is not in the joined text. */
  lemma {:induction false} JoinAvoids(parts: seq<string>, sep: char, c: char)
    requires c != sep
    requires forall i :: 0 <= i < |parts| ==> c !in parts[i]
    ensures c !in Join(parts, sep)
    decreases |parts|
  {
    if |parts| > 1 {
      JoinAvoids(parts[1..], sep, c);
    }
  }

  /** Join undoes Split: splitting loses nothing. */
  lemma {:induction false} JoinSplit(s: string, sep: char)
    ensures Join(Split(s, sep), sep) == s
    decreases |s|
  {
    if s != [] {
      JoinSplit(s[1..], sep);
      var rest := Split(s[1..], sep);
      if s[0] == sep {
        assert Join([""] + rest, sep) == "" + [sep] + Join(rest, sep);
        assert s == [s[0]] + s[1..];
      } else {
        var parts := [[s[0]] + rest[0]] + rest[1..];
        assert parts[1..] == rest[1..];
        if |rest| == 1 {
          assert s == [s[0]] + rest[0];
        } else {
          assert Join(rest, sep) == rest[0] + [sep] + Join(rest[1..], sep);
          assert Join(parts, sep) == [s[0]] + rest[0] + [sep] + Join(rest[1..], sep);
          assert s == [s[0]] + s[1..];
        }
      }
    }
  }

  /** The text before the first separator, `s.split(sep)[0]`. */
  lemma SplitHead(p: string, s: string, sep: char)
    requires sep !in p
    ensures Split(p + [sep] + s, sep)[0] == p
  {
    SplitConcat(p, s, sep);
    SplitNoSep(p, sep);
  }

  /** The text after the last separator, `s.split(sep).pop()`. */
  lemma SplitLast(p: string, s: string, sep: char)
    requires sep !in s
    ensures var parts := Split(p + [sep] + s, sep); parts[|parts| - 1] == s
  {
    SplitConcat(p, s, sep);
    SplitNoSep(s, sep);
  }

  function EndsWith(s: string, ext: string): bool {
    |ext| <= |s| && s[|s| - |ext|..] == ext
  }

  /** `s` without its trailing `/` characters. */
  function TrimSlashes(s: string): (r: string)
    ensures |r| <= |s| && r == s[..|r|]
    ensures r == [] || r[|r| - 1] != '/'
    decreases |s|
  {
    if s != [] && s[|s| - 1] == '/' then TrimSlashes(s[..|s| - 1]) else s
  }

  /** The text after the last `/` of `s`, or all of `s` when it has none. */
  function LastSegment(s: string): (r: string)
    ensures '/' !in r && |r| <= |s|
    decreases |s|
  {
    if s == [] || s[|s| - 1] == '/' then [] else LastSegment(s[..|s| - 1]) + [s[|s| - 1]]
  }

  /**
   * `path.basename(path, ext)` as Node's POSIX implementation computes it, for
   * an extension without `/`. Trailing slashes are ignored, the last segment
   * is kept, and `ext` is cut from its end when the segment is longer than
   * `ext`. Node's special cases are kept too. A path equal to a non-empty
   * `ext` gives "". A segment equal to `ext` is kept whole. A segment
   * that is a proper suffix of `ext` keeps the trailing slashes. A path of
   * slashes only is returned whole when `ext` is no longer than it.
   */
  function Basename(path: string, ext: string): string
    requires '/' !in ext
  {
    var p := TrimSlashes(path);
    var b := LastSegment(p);
    if ext == [] || |ext| > |path| then b
    else if path == ext then ""
    else if p == [] then path
    else if |b| > |ext| && EndsWith(b, ext) then b[..|b| - |ext|]
    else if |b| < |ext| && EndsWith(ext, b) then b + path[|p|..]
    else b
  }

  /** `path.basename(name, '.json')`: the logical name of a JSON file. */
  function JsonBasename(name: string): string {
    Basename(name, ".json")
  }

  lemma {:induction false} LastSegmentWhole(s: string)
    requires '/' !in s
    ensures LastSegment(s) == s
    decreases |s|
  {
    if s != [] {
      var n := |s| - 1;
      assert s[n] in s;
      LastSegmentWhole(s[..n]);
      assert s == s[..n] + [s[n]];
    }
  }

  lemma {:induction false} LastSegmentAfter(d: string, n: string)
    requires '/' !in n
    ensures LastSegment(d + "/" + n) == n
    decreases |n|
  {
    var s := d + "/" + n;
    if n == [] {
      assert s[|s| - 1] == '/';
    } else {
      var k := |n| - 1;
      assert n[k] in n;
      assert s[..|s| - 1] == d + "/" + n[..k];
      LastSegmentAfter(d, n[..k]);
      assert n == n[..k] + [n[k]];
    }
  }

  /** A name without `/` that ends with `ext` loses exactly `ext`; the name `ext` itself gives "". */
  lemma BasenameStrips(n: string, ext: string)
    requires '/' !in n && '/' !in ext && ext != []
    ensures Basename(n + ext, ext) == n
  {
    var path := n + ext;
    assert path[|path| - 1] == ext[|ext| - 1];
    assert ext[|ext| - 1] in ext;
    assert TrimSlashes(path) == path;
    assert '/' !in path;
    LastSegmentWhole(path);
    if n == [] {
      assert path == ext;
    } else {
      assert path[|path| - |ext|..] == ext;
      assert path[..|path| - |ext|] == n;
    }
  }

  /** A name without `/` that does not end with `ext` is unchanged. */
  lemma BasenameKeeps(name: string, ext: string)
    requires '/' !in name && '/' !in ext && !EndsWith(name, ext)
    ensures Basename(name, ext) == name
  {
    if name != [] {
      assert name[|name| - 1] in name;
    }
    assert TrimSlashes(name) == name;
    LastSegmentWhole(name);
  }

  /**
   * Directory components are dropped: below a `/`, a non-empty last segment
   * is treated alone, and a segment equal to `ext` is kept whole.
   */
  lemma BasenameDir(d: string, n: string, ext: string)
    requires n != [] && '/' !in n && '/' !in ext
    ensures Basename(d + "/" + n, ext) == if |n| > |ext| && EndsWith(n, ext) then n[..|n| - |ext|] else n
  {
    var path := d + "/" + n;
    assert path[|path| - 1] == n[|n| - 1];
    assert n[|n| - 1] in n;
    assert TrimSlashes(path) == path;
    LastSegmentAfter(d, n);
    assert path[|path|..] == [];
    assert '/' in path by { assert path[|d|] == '/'; }
  }

  /** Below a directory, a segment longer than `ext` that ends with it loses exactly `ext`. */
  lemma BasenameDirStrips(d: string, m: string, ext: string)
    requires m != [] && '/' !in m && '/' !in ext
    ensures Basename(d + "/" + (m + ext), ext) == m
  {
    var n := m + ext;
    assert '/' !in n;
    BasenameDir(d, n, ext);
    assert n[|n| - |ext|..] == ext && n[..|n| - |ext|] == m;
  }

  /** The example of Node's documentation: directories and the extension go. */
  lemma BasenameNodeExample()
    ensures Basename("/foo/bar/baz/asdf/quux.html", ".html") == "quux"
  {
    assert "/foo/bar/baz/asdf/quux.html" == "/foo/bar/baz/asdf" + "/" + ("quux" + ".html");
    BasenameDirStrips("/foo/bar/baz/asdf", "quux", ".html");
  }

  /** A segment equal to the extension below a directory is kept whole. */
  lemma BasenameDirExtension()
    ensures Basename("dir/.json", ".json") == ".json"
  {
    assert "dir/.json" == "dir" + "/" + ".json";
    BasenameDir("dir", ".json", ".json");
  }
}
