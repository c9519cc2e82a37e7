/**
 * The string side of the view model: joining path parts, the single
 * "//" collapse of `joinPath`, splitting on a delimiter, the way a
 * path string names a location (parsed into segments the way
 * `java.io.File` normalises it) and the rename rule that keeps a
 * file's extension.
 */
module PathStrings {

  /** `File.separator` on Android. */
  const Separator: char := '/'

  /** A path segment as `java.io.File` keeps it: non-empty, without a separator. */
  predicate IsSegment(x: string) {
    x != "" && Separator !in x
  }

  predicate AllSegments(xs: seq<string>) {
    forall k :: 0 <= k < |xs| ==> IsSegment(xs[k])
  }

  function Last<T>(xs: seq<T>): T
    requires xs != []
  {
    xs[|xs| - 1]
  }

  // ---------------------------------------------------------------------
  // joinToString and replace("//", "/")
  // ---------------------------------------------------------------------

  /**
   * `parts.joinToString(File.separator)`: nothing for no parts, else the
   * first part followed, when there are more, by a separator and the rest.
   */
  function Join(parts: seq<string>): (r: string)
    ensures parts == [] ==> r == ""
    ensures parts != [] ==> |r| >= |parts[0]| && r[..|parts[0]|] == parts[0]
    ensures |parts| >= 2 ==> |r| > |parts[0]| && r[|parts[0]|] == Separator
  {
    if |parts| == 0 then ""
    else if |parts| == 1 then parts[0]
    else parts[0] + [Separator] + Join(parts[1..])
  }

  /**
   * `s.replace("//", "/")`: occurrences of "//" are found left to right,
   * without overlapping, and each becomes one separator.
   */
  function Collapse(s: string): (r: string)
    ensures |r| <= |s|
    ensures |s| >= 2 && s[0] == Separator && s[1] == Separator ==> |r| < |s|
  {
    if |s| >= 2 && s[0] == Separator && s[1] == Separator then [Separator] + Collapse(s[2..])
    else if s == [] then []
    else [s[0]] + Collapse(s[1..])
  }

  /** `joinPath(vararg pathList)`: the plain join with every "//" collapsed once. */
  function JoinPath(parts: seq<string>): (r: string)
    ensures |r| <= |Join(parts)|
  {
    Collapse(Join(parts))
  }

  /** A prefix without separators passes through the collapse untouched. */
  lemma {:induction false} CollapseSkipsPlainPrefix(x: string, y: string)
    requires Separator !in x
    ensures Collapse(x + y) == x + Collapse(y)
  {
    if x == [] {
      assert x + y == y;
    } else {
      assert (x + y)[0] == x[0] && x[0] != Separator;
      assert (x + y)[1..] == x[1..] + y;
      CollapseSkipsPlainPrefix(x[1..], y);
      calc {
        Collapse(x + y);
        [x[0]] + Collapse(x[1..] + y);
        [x[0]] + (x[1..] + Collapse(y));
        { assert [x[0]] + x[1..] == x; }
        x + Collapse(y);
      }
    }
  }

  /** Parts that are proper segments give a join with nothing to collapse. */
  lemma {:induction false} JoinPathOfSegments(parts: seq<string>)
    requires AllSegments(parts)
    ensures JoinPath(parts) == Join(parts)
  {
    if |parts| == 1 {
      CollapseSkipsPlainPrefix(parts[0], "");
      assert parts[0] + "" == parts[0];
    } else if |parts| > 1 {
      var rest := Join(parts[1..]);
      JoinPathOfSegments(parts[1..]);
      assert rest[0] == parts[1][0];
      assert parts[0] + [Separator] + rest == parts[0] + ([Separator] + rest);
      CollapseSkipsPlainPrefix(parts[0], [Separator] + rest);
      assert ([Separator] + rest)[1..] == rest;
    }
  }

  /** An empty middle part leaves "//", which the collapse turns back into one separator. */
  lemma EmptyMiddlePart(a: string, b: string)
    requires Separator !in a && Separator !in b
    ensures JoinPath([a, "", b]) == a + [Separator] + b
  {
    var tail := [Separator, Separator] + b;
    assert Join([a, "", b]) == a + tail by {
      assert [a, "", b][1..] == ["", b];
      assert ["", b][1..] == [b];
      assert Join(["", b]) == "" + [Separator] + b;
    }
    CollapseSkipsPlainPrefix(a, tail);
    CollapseDoubleSeparator(b);
    assert a + ([Separator] + b) == a + [Separator] + b;
  }

  /** "//" in front of a plain name collapses to a single separator. */
  lemma CollapseDoubleSeparator(b: string)
    requires Separator !in b
    ensures Collapse([Separator, Separator] + b) == [Separator] + b
  {
    assert ([Separator, Separator] + b)[2..] == b;
    CollapseSkipsPlainPrefix(b, "");
    assert b + "" == b;
  }


  // ---------------------------------------------------------------------
  // split(delimiter): Kotlin's literal split, keeping empty pieces
  // ---------------------------------------------------------------------

  /**
   * `s.split(sep)` with a one-character literal delimiter: never empty,
   * and for the separator, joining the pieces gives `s` back.
   */
  function Split(s: string, sep: char): (r: seq<string>)
    ensures |r| >= 1
  {
    if s == [] then [""]
    else if s[0] == sep then [""] + Split(s[1..], sep)
    else
      var t := Split(s[1..], sep);
      [[s[0]] + t[0]] + t[1..]
  }

  /** Joining the pieces of a split on the separator gives back the string. */
  lemma {:induction false} JoinOfSplit(s: string)
    ensures Join(Split(s, Separator)) == s
  {
    if s != [] {
      var t := Split(s[1..], Separator);
      JoinOfSplit(s[1..]);
      assert s == [s[0]] + s[1..];
      if s[0] == Separator {
        assert ([""] + t)[1..] == t;
      } else {
        var r := [[s[0]] + t[0]] + t[1..];
        assert r[1..] == t[1..];
        if |t| >= 2 {
          assert [s[0]] + t[0] + [Separator] + Join(t[1..]) == [s[0]] + (t[0] + [Separator] + Join(t[1..]));
        }
      }
    }
  }


  /** For separator-free parts, splitting the join gives the parts back. */
  lemma {:induction false} SplitOfJoin(parts: seq<string>)
    requires parts != []
    requires forall k :: 0 <= k < |parts| ==> Separator !in parts[k]
    ensures Split(Join(parts), Separator) == parts
  {
    if |parts| == 1 {
      SplitWithoutDelimiter(parts[0], Separator);
    } else {
      SplitOfJoin(parts[1..]);
      SplitWithoutDelimiter(parts[0], Separator);
      SplitAtDelimiter(parts[0], Join(parts[1..]), Separator);
      assert parts == [parts[0]] + parts[1..];
    }
  }

  /** No piece of a split holds the delimiter. */
  lemma {:induction false} SplitPiecesLackDelimiter(s: string, sep: char)
    ensures forall k :: 0 <= k < |Split(s, sep)| ==> sep !in Split(s, sep)[k]
  {
    if s != [] {
      SplitPiecesLackDelimiter(s[1..], sep);
    }
  }

  /** Splitting at one occurrence of the delimiter splits the two sides independently. */
  lemma {:induction false} SplitAtDelimiter(x: string, y: string, sep: char)
    ensures Split(x + [sep] + y, sep) == Split(x, sep) + Split(y, sep)
  {
    if x == [] {
      assert x + [sep] + y == [sep] + y;
      assert ([sep] + y)[1..] == y;
    } else {
      var s := x + [sep] + y;
      assert s[0] == x[0];
      assert s[1..] == x[1..] + [sep] + y;
      SplitAtDelimiter(x[1..], y, sep);
    }
  }

  /** A string without the delimiter splits into itself alone. */
  lemma {:induction false} SplitWithoutDelimiter(s: string, sep: char)
    ensures sep !in s ==> Split(s, sep) == [s]
  {
    if s != [] && sep !in s {
      SplitWithoutDelimiter(s[1..], sep);
      assert [s[0]] + s[1..] == s;
    }
  }

  /** A string holding the delimiter splits into at least two pieces. */
  lemma {:induction false} SplitAtLeastTwo(s: string, sep: char)
    requires sep in s
    ensures |Split(s, sep)| >= 2
  {
    if s[0] != sep {
      SplitAtLeastTwo(s[1..], sep);
    }
  }

  /**
   * The last piece of a split is a suffix of the string; when the
   * delimiter occurs, that suffix is preceded by a delimiter.
   */
  lemma {:induction false} LastPieceIsSuffix(s: string, sep: char)
    ensures var e := Last(Split(s, sep));
      |e| <= |s| && s[|s| - |e|..] == e &&
      (sep in s ==> |e| < |s| && s[|s| - |e| - 1] == sep) &&
      (sep !in s ==> e == s)
  {
    if sep !in s {
      SplitWithoutDelimiter(s, sep);
    } else if s[0] == sep {
      LastPieceIsSuffix(s[1..], sep);
      assert Last(Split(s, sep)) == Last(Split(s[1..], sep));
    } else {
      var t := Split(s[1..], sep);
      assert sep in s[1..];
      LastPieceIsSuffix(s[1..], sep);
      SplitAtLeastTwo(s[1..], sep);
      assert Last(Split(s, sep)) == Last(t);
    }
  }

  // ---------------------------------------------------------------------
  // The name a path string stands for
  // ---------------------------------------------------------------------

  /** Drops the empty pieces. */
  function NonEmpty(xs: seq<string>): (r: seq<string>)
    ensures |r| <= |xs|
  {
    if xs == [] then []
    else if xs[0] == "" then NonEmpty(xs[1..])
    else [xs[0]] + NonEmpty(xs[1..])
  }

  lemma {:induction false} NonEmptyAppend(a: seq<string>, b: seq<string>)
    ensures NonEmpty(a + b) == NonEmpty(a) + NonEmpty(b)
  {
    if a == [] {
      assert a + b == b;
    } else {
      assert (a + b)[0] == a[0];
      assert (a + b)[1..] == a[1..] + b;
      NonEmptyAppend(a[1..], b);
      if a[0] == "" {
        assert NonEmpty(a + b) == NonEmpty(a[1..] + b);
      } else {
        assert NonEmpty(a + b) == [a[0]] + NonEmpty(a[1..] + b);
        assert [a[0]] + (NonEmpty(a[1..]) + NonEmpty(b)) == ([a[0]] + NonEmpty(a[1..])) + NonEmpty(b);
      }
    }
  }

  /**
   * The segments of the path a string names, as `java.io.File` reads
   * it: the pieces between separators, with empty pieces (doubled or
   * trailing separators) dropped.
   */
  function Segments(s: string): (r: seq<string>)
    ensures AllSegments(r)
    ensures IsSegment(s) ==> r == [s]
  {
    SplitPiecesLackDelimiter(s, Separator);
    NonEmptyKeepsPieces(Split(s, Separator));
    SplitWithoutDelimiter(s, Separator);
    assert [s][1..] == [];
    NonEmpty(Split(s, Separator))
  }

  lemma {:induction false} NonEmptyKeepsPieces(xs: seq<string>)
    ensures forall k :: 0 <= k < |NonEmpty(xs)| ==> NonEmpty(xs)[k] != "" && NonEmpty(xs)[k] in xs
  {
    if xs != [] {
      NonEmptyKeepsPieces(xs[1..]);
    }
  }

  /** A separator between two strings names the concatenation of their paths. */
  lemma SegmentsAtSeparator(x: string, y: string)
    ensures Segments(x + [Separator] + y) == Segments(x) + Segments(y)
  {
    SplitAtDelimiter(x, y, Separator);
    NonEmptyAppend(Split(x, Separator), Split(y, Separator));
  }

  /** Joining proper segments and parsing the result gives the segments back. */
  lemma {:induction false} SegmentsOfJoin(xs: seq<string>)
    requires AllSegments(xs)
    ensures Segments(Join(xs)) == xs
  {
    if |xs| == 0 {
    } else if |xs| == 1 {
      assert IsSegment(xs[0]);
    } else {
      var rest := Join(xs[1..]);
      assert Join(xs) == xs[0] + [Separator] + rest;
      SegmentsAtSeparator(xs[0], rest);
      assert IsSegment(xs[0]);
      SegmentsOfJoin(xs[1..]);
      assert xs == [xs[0]] + xs[1..];
    }
  }

  /**
   * Collapse facts on split pieces: the first piece stays and the
   * remaining pieces agree once empty pieces are dropped.
   */
  lemma {:induction false} CollapseKeepsPieces(s: string)
    ensures Split(Collapse(s), Separator)[0] == Split(s, Separator)[0]
    ensures NonEmpty(Split(Collapse(s), Separator)[1..]) == NonEmpty(Split(s, Separator)[1..])
  {
    var sep := Separator;
    if s == [] {
    } else if |s| >= 2 && s[0] == sep && s[1] == sep {
      var r := s[2..];
      CollapseKeepsPieces(r);
      var c := Split(Collapse(r), sep);
      var t := Split(r, sep);
      assert Collapse(s) == [sep] + Collapse(r);
      assert ([sep] + Collapse(r))[1..] == Collapse(r);
      assert Split(Collapse(s), sep) == [""] + c;
      assert s[1..] == [sep] + r;
      assert ([sep] + r)[1..] == r;
      assert Split(s, sep) == [""] + ([""] + t);
      assert c == [c[0]] + c[1..];
      assert t == [t[0]] + t[1..];
      NonEmptyAppend([c[0]], c[1..]);
      NonEmptyAppend([t[0]], t[1..]);
      NonEmptyAppend([""], t);
      assert ([""] + c)[1..] == c;
      assert ([""] + ([""] + t))[1..] == [""] + t;
    } else if s[0] == sep {
      var r := s[1..];
      CollapseKeepsPieces(r);
      var c := Split(Collapse(r), sep);
      var t := Split(r, sep);
      assert Collapse(s) == [sep] + Collapse(r);
      assert ([sep] + Collapse(r))[1..] == Collapse(r);
      assert Split(Collapse(s), sep) == [""] + c;
      assert Split(s, sep) == [""] + t;
      assert c == [c[0]] + c[1..];
      assert t == [t[0]] + t[1..];
      NonEmptyAppend([c[0]], c[1..]);
      NonEmptyAppend([t[0]], t[1..]);
      assert ([""] + c)[1..] == c;
      assert ([""] + t)[1..] == t;
    } else {
      var r := s[1..];
      CollapseKeepsPieces(r);
      var c := Split(Collapse(r), sep);
      var t := Split(r, sep);
      assert Collapse(s) == [s[0]] + Collapse(r);
      assert ([s[0]] + Collapse(r))[0] == s[0];
      assert ([s[0]] + Collapse(r))[1..] == Collapse(r);
      assert Split(Collapse(s), sep) == [[s[0]] + c[0]] + c[1..];
      assert Split(s, sep) == [[s[0]] + t[0]] + t[1..];
    }
  }

  /** The "//" collapse of `joinPath` never changes which location a path names. */
  lemma CollapseKeepsSegments(s: string)
    ensures Segments(Collapse(s)) == Segments(s)
  {
    var c := Split(Collapse(s), Separator);
    var t := Split(s, Separator);
    CollapseKeepsPieces(s);
    assert c == [c[0]] + c[1..];
    assert t == [t[0]] + t[1..];
    NonEmptyAppend([c[0]], c[1..]);
    NonEmptyAppend([t[0]], t[1..]);
  }

  /** `joinPath(a, b)` names the path of `a` followed by the path of `b`. */
  lemma JoinPathSegments2(a: string, b: string)
    ensures Segments(JoinPath([a, b])) == Segments(a) + Segments(b)
  {
    assert [a, b][1..] == [b];
    assert Join([b]) == b;
    CollapseKeepsSegments(Join([a, b]));
    SegmentsAtSeparator(a, b);
  }

  /** `joinPath(a, b, c)` names the path of `a`, then of `b`, then of `c`. */
  lemma JoinPathSegments3(a: string, b: string, c: string)
    ensures Segments(JoinPath([a, b, c])) == Segments(a) + Segments(b) + Segments(c)
  {
    assert [a, b, c][1..] == [b, c];
    assert [b, c][1..] == [c];
    assert Join([c]) == c;
    assert Join([b, c]) == b + [Separator] + c;
    CollapseKeepsSegments(Join([a, b, c]));
    assert Join([a, b, c]) == a + [Separator] + (b + [Separator] + c);
    SegmentsAtSeparator(a, b + [Separator] + c);
    SegmentsAtSeparator(b, c);
  }

  // ---------------------------------------------------------------------
  // Rename: the new name keeps the old extension
  // ---------------------------------------------------------------------

  /**
   * `name.split(".").last()`: the text after the last '.', or the
   * whole name when it has none.
   */
  function Extension(name: string): (e: string)
    ensures '.' !in e
    ensures |e| <= |name| && name[|name| - |e|..] == e
    ensures '.' in name ==> |e| < |name| && name[|name| - |e| - 1] == '.'
    ensures '.' !in name ==> e == name
  {
    SplitPiecesLackDelimiter(name, '.');
    LastPieceIsSuffix(name, '.');
    Last(Split(name, '.'))
  }

  /**
   * The target name `renameFile` builds: the new name plus the old
   * extension when the old name has a '.', else the new name as given.
   */
  function RenameTarget(oldName: string, newFileName: string): (r: string)
    ensures '.' !in oldName ==> r == newFileName
    ensures '.' in oldName ==>
      |r| > |newFileName| && r[..|newFileName|] == newFileName && r[|newFileName|] == '.' &&
      var e := r[|newFileName| + 1..];
      '.' !in e && |e| < |oldName| &&
      oldName[|oldName| - |e| - 1] == '.' && oldName[|oldName| - |e|..] == e
  {
    if '.' in oldName then
      var e := Extension(oldName);
      assert (newFileName + "." + e)[|newFileName| + 1..] == e;
      newFileName + "." + e
    else newFileName
  }

  /** A name `stem.ext` (ext without '.') is renamed to `newFileName.ext`. */
  lemma RenameKeepsExtension(stem: string, ext: string, newFileName: string)
    requires '.' !in ext
    ensures RenameTarget(stem + "." + ext, newFileName) == newFileName + "." + ext
  {
    var name := stem + "." + ext;
    assert name[|stem|] == '.';
    SplitAtDelimiter(stem, ext, '.');
    SplitWithoutDelimiter(ext, '.');
  }
}
