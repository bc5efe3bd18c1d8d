/**
 * The parts of Rust's `std::path` (Unix flavour) that the include walker
 * relies on, written over plain strings: `components`, `file_name`,
 * `file_stem`, `extension` and `strip_prefix`.
 */
module RustPath {
  import opened Wrappers

  /** `std::path::Component` for Unix paths (there is no prefix component). */
  datatype Component = RootDir | CurDir | ParentDir | Normal(name: string)

  /** The pieces of `s` between '/' separators: "a//b" gives ["a", "", "b"]. */
  function Split(s: string): (r: seq<string>)
    ensures |r| >= 1
    decreases |s|
  {
    if s == [] then [""]
    else
      var rest := Split(s[1..]);
      if s[0] == '/' then [""] + rest
      else [[s[0]] + rest[0]] + rest[1..]
  }

  /** Joins pieces with '/' separators; the inverse of `Split`. */
  function Join(ps: seq<string>): string
    requires |ps| >= 1
  {
    if |ps| == 1 then ps[0] else ps[0] + "/" + Join(ps[1..])
  }

  /** What one piece between separators contributes to the component list.
    * A "." counts only as the very first piece of a relative path. */
  function Classify(piece: string, first: bool): seq<Component>
  {
    if piece == "" then []
    else if piece == "." then (if first then [CurDir] else [])
    else if piece == ".." then [ParentDir]
    else [Normal(piece)]
  }

  function FromPieces(ps: seq<string>, first: bool): seq<Component>
  {
    if ps == [] then [] else Classify(ps[0], first) + FromPieces(ps[1..], false)
  }

  /** `Path::components`: repeated separators and inner "." are dropped. */
  function Components(p: string): seq<Component>
  {
    if |p| > 0 && p[0] == '/' then [RootDir] + FromPieces(Split(p[1..]), false)
    else FromPieces(Split(p), true)
  }

  /** `Path::file_name`: the last component, when it is a normal one. */
  function FileName(p: string): Option<string>
  {
    var cs := Components(p);
    if cs != [] && cs[|cs| - 1].Normal? then Some(cs[|cs| - 1].name) else None
  }

  /** Position of the last '.' in `f`. */
  function LastDot(f: string): (r: Option<nat>)
    ensures r.Some? ==> r.value < |f| && f[r.value] == '.' && '.' !in f[r.value + 1..]
    ensures r.None? ==> '.' !in f
  {
    if f == [] then None
    else if f[|f| - 1] == '.' then Some(|f| - 1)
    else
      var r := LastDot(f[..|f| - 1]);
      assert f == f[..|f| - 1] + [f[|f| - 1]];
      r
  }

  /** `rsplit_file_at_dot`: the part before and the part after the last '.';
    * a name whose only '.' is its first character has no "after" part. */
  function RSplitFileAtDot(f: string): (r: (Option<string>, Option<string>))
    ensures r.0.None? ==> r.1 == Some(f)
    ensures r.0.Some? ==> r.0.value <= f
    ensures r.0.Some? && r.1.Some? ==> f == r.0.value + "." + r.1.value && '.' !in r.1.value
  {
    if f == ".." then (Some(f), None)
    else match LastDot(f)
      case None => (None, Some(f))
      case Some(i) =>
        if i == 0 then (Some(f), None)
        else
          assert f == f[..i] + "." + f[i + 1..];
          (Some(f[..i]), Some(f[i + 1..]))
  }

  /** `Path::file_stem`: `before.or(after)` of the file name. */
  function FileStem(p: string): (r: Option<string>)
    ensures r.Some? <==> FileName(p).Some?
    ensures r.Some? ==> r.value <= FileName(p).value
  {
    match FileName(p)
    case None => None
    case Some(f) =>
      var (before, after) := RSplitFileAtDot(f);
      if before.Some? then before else after
  }

  /** `Path::extension`: `before.and(after)` of the file name. */
  function Extension(p: string): (r: Option<string>)
    ensures r.Some? ==> FileName(p).Some? && FileStem(p).Some?
    ensures r.Some? ==> '.' !in r.value && FileName(p).value == FileStem(p).value + "." + r.value
  {
    match FileName(p)
    case None => None
    case Some(f) =>
      var (before, after) := RSplitFileAtDot(f);
      if before.Some? then after else None
  }

  function ComponentText(c: Component): string
  {
    match c
    case RootDir => "/"
    case CurDir => "."
    case ParentDir => ".."
    case Normal(name) => name
  }

  function JoinTexts(cs: seq<Component>): string
  {
    if cs == [] then ""
    else if |cs| == 1 then ComponentText(cs[0])
    else ComponentText(cs[0]) + "/" + JoinTexts(cs[1..])
  }

  /** A component list written back as a path with single '/' separators. */
  function Render(cs: seq<Component>): string
  {
    if cs != [] && cs[0] == RootDir then "/" + JoinTexts(cs[1..]) else JoinTexts(cs)
  }

  /** `Path::strip_prefix`: succeeds when the components of `base` are a
    * prefix of those of `p`, and gives the remaining components. */
  function StripPrefix(p: string, base: string): (r: Option<string>)
    ensures r.Some? ==> |Components(base)| <= |Components(p)|
    ensures Components(p) == Components(base) ==> r == Some("")
  {
    var pc, bc := Components(p), Components(base);
    if bc <= pc then Some(Render(pc[|bc|..])) else None
  }

  /** A relative path whose pieces are all non-empty and none is ".". */
  predicate Clean(rel: string)
  {
    forall i :: 0 <= i < |Split(rel)| ==> Split(rel)[i] != "" && Split(rel)[i] != "."
  }

  // ---------------------------------------------------------------------
  // Splitting and joining

  lemma {:induction false} JoinSplit(s: string)
    ensures Join(Split(s)) == s
    decreases |s|
  {
    if s != [] {
      var rest := Split(s[1..]);
      JoinSplit(s[1..]);
      assert s == [s[0]] + s[1..];
      if s[0] == '/' {
        assert Split(s) == [""] + rest;
        assert ([""] + rest)[1..] == rest;
      } else if |rest| == 1 {
        assert Split(s) == [[s[0]] + rest[0]];
      } else {
        JoinConsFirst(s[0], rest);
      }
    }
  }

  /** Prepending a character to the first piece prepends it to the joined string. */
  lemma {:induction false} JoinConsFirst(c: char, rest: seq<string>)
    requires |rest| >= 2
    ensures Join([[c] + rest[0]] + rest[1..]) == [c] + Join(rest)
  {
    var ps := [[c] + rest[0]] + rest[1..];
    assert ps[0] == [c] + rest[0];
    assert ps[1..] == rest[1..];
    var x, y := rest[0], Join(rest[1..]);
    assert Join(ps) == ([c] + x) + "/" + y;
    assert Join(rest) == x + "/" + y;
    assert ([c] + x) + "/" + y == [c] + (x + "/" + y);
  }

  lemma {:induction false} SplitAppend(a: string, b: string)
    ensures Split(a + "/" + b) == Split(a) + Split(b)
    decreases |a|
  {
    var s := a + "/" + b;
    if a == [] {
      assert s == "/" + b;
      assert s[1..] == b;
    } else {
      assert s[0] == a[0];
      assert s[1..] == a[1..] + "/" + b;
      SplitAppend(a[1..], b);
    }
  }

  lemma {:induction false} SplitOfName(n: string)
    requires '/' !in n
    ensures Split(n) == [n]
    decreases |n|
  {
    if n != [] {
      assert '/' !in n[1..] by {
        forall i | 0 <= i < |n[1..]| ensures n[1..][i] != '/' { assert n[1..][i] == n[i + 1]; }
      }
      SplitOfName(n[1..]);
      assert n == [n[0]] + n[1..];
    }
  }

  lemma {:induction false} FromPiecesAppend(a: seq<string>, b: seq<string>, first: bool)
    requires a != []
    ensures FromPieces(a + b, first) == FromPieces(a, first) + FromPieces(b, false)
    decreases |a|
  {
    assert (a + b)[0] == a[0];
    assert (a + b)[1..] == a[1..] + b;
    if |a| > 1 {
      FromPiecesAppend(a[1..], b, false);
    } else {
      assert a[1..] == [];
    }
  }

  lemma FromPiecesSingle(piece: string, first: bool)
    ensures FromPieces([piece], first) == Classify(piece, first)
  {
    assert [piece][1..] == [];
  }

  /** Appending "/" + rel to a non-empty path appends the components of rel. */
  lemma ComponentsOfJoin(dir: string, rel: string)
    requires dir != ""
    ensures Components(dir + "/" + rel) == Components(dir) + FromPieces(Split(rel), false)
  {
    var p := dir + "/" + rel;
    if dir[0] == '/' {
      assert p[1..] == dir[1..] + "/" + rel;
      SplitAppend(dir[1..], rel);
      FromPiecesAppend(Split(dir[1..]), Split(rel), false);
    } else {
      SplitAppend(dir, rel);
      FromPiecesAppend(Split(dir), Split(rel), true);
    }
  }

  /** A clean relative path consists of normal and ".." components only and
    * is written back unchanged. */
  lemma {:induction false} CleanPieces(ps: seq<string>)
    requires ps != []
    requires forall i :: 0 <= i < |ps| ==> ps[i] != "" && ps[i] != "."
    ensures FromPieces(ps, false) != [] && FromPieces(ps, false)[0] != RootDir
    ensures JoinTexts(FromPieces(ps, false)) == Join(ps)
    decreases |ps|
  {
    var c := Classify(ps[0], false);
    assert |c| == 1 && ComponentText(c[0]) == ps[0];
    if |ps| > 1 {
      CleanPieces(ps[1..]);
      assert FromPieces(ps, false) == c + FromPieces(ps[1..], false);
    }
  }

  // ---------------------------------------------------------------------
  // file_name, file_stem, extension

  /** A bare name (no separator, not "", "." or "..") is its own file name. */
  lemma FileNameOfBare(n: string)
    requires '/' !in n && n != "" && n != "." && n != ".."
    ensures Components(n) == [Normal(n)]
    ensures FileName(n) == Some(n)
  {
    SplitOfName(n);
    assert n[0] != '/' by { assert n[0] in n; }
    FromPiecesSingle(n, true);
  }

  /** The file name of dir + "/" + n is n, for any non-empty directory. */
  lemma FileNameOfJoin(dir: string, n: string)
    requires dir != ""
    requires '/' !in n && n != "" && n != "." && n != ".."
    ensures Components(dir + "/" + n) == Components(dir) + [Normal(n)]
    ensures FileName(dir + "/" + n) == Some(n)
  {
    ComponentsOfJoin(dir, n);
    SplitOfName(n);
    FromPiecesSingle(n, false);
  }

  /** A path ending in "/.." has no file name. */
  lemma {:induction false} NoFileNameAfterParent(dir: string)
    ensures FileName(dir + "/..") == None
  {
    var p := dir + "/..";
    if dir == "" {
      assert p == "/..";
      assert p[1..] == "..";
      SplitOfName("..");
      FromPiecesSingle("..", false);
    } else {
      assert p == dir + "/" + "..";
      ComponentsOfJoin(dir, "..");
      SplitOfName("..");
      FromPiecesSingle("..", false);
      var cs := Components(p);
      assert cs == Components(dir) + [ParentDir];
      assert cs[|cs| - 1] == ParentDir;
    }
  }

  /** The root alone, the empty path and "." have no file name. */
  lemma NoFileNameSpecial()
    ensures FileName("") == None
    ensures FileName("/") == None
    ensures FileName(".") == None
    ensures FileName("..") == None
  {
    assert "/"[1..] == "";
    SplitOfName(".");
    SplitOfName("..");
    FromPiecesSingle("", true);
    FromPiecesSingle("", false);
    FromPiecesSingle(".", true);
    FromPiecesSingle("..", true);
  }

  /** A stem exists exactly when a file name does. */
  lemma StemIffFileName(p: string)
    ensures FileStem(p).Some? <==> FileName(p).Some?
    ensures Extension(p).Some? ==> FileStem(p).Some?
  {
  }

  /** s + "." + e with a non-empty s and no '.' in e: stem s, extension e. */
  lemma {:induction false} SplitAtLastDot(s: string, e: string)
    requires s != "" && '.' !in e && s + "." + e != ".."
    ensures RSplitFileAtDot(s + "." + e) == (Some(s), Some(e))
  {
    var f := s + "." + e;
    var r := LastDot(f);
    assert f[|s|] == '.';
    assert f[|s|] in f;
    assert r == Some(|s|);
    assert f[..|s|] == s;
    assert f[|s| + 1..] == e;
  }

  /** A name without '.', or whose only '.' leads, is its own stem and has no extension. */
  lemma {:induction false} NoDotName(f: string)
    requires f != ".."
    requires '.' !in f || (f != [] && f[0] == '.' && '.' !in f[1..])
    ensures RSplitFileAtDot(f) == (if '.' !in f then (None, Some(f)) else (Some(f), None))
  {
  }

  // ---------------------------------------------------------------------
  // strip_prefix

  /** Stripping dir from dir + "/" + rel gives rel back, for a clean rel. */
  lemma StripPrefixOfJoin(dir: string, rel: string)
    requires dir != "" && Clean(rel)
    ensures StripPrefix(dir + "/" + rel, dir) == Some(rel)
  {
    var pc := Components(dir + "/" + rel);
    var bc := Components(dir);
    ComponentsOfJoin(dir, rel);
    CleanPieces(Split(rel));
    assert pc[|bc|..] == FromPieces(Split(rel), false);
    JoinSplit(rel);
  }
}
