/**
 * src/dependency_forest.rs: `keyify`, the node table and its build step
 * `add_includes_from_file`, and the two graph views `children` and
 * `get_nodes`. Nodes are referred to by their keys in the table.
 */
module DependencyForest {
  import opened Wrappers
  import opened RustPath
  import opened LineScan
  import Nom
  import FileIo
  import IncludeGrammar

  // ---------------------------------------------------------------------
  // keyify

  /** The extensions `keyify` tags as headers. */
  predicate IsHeaderExt(e: string)
  {
    e == "h" || e == "hpp" || e == "hxx"
  }

  /** The extensions `keyify` tags as sources. */
  predicate IsSourceExt(e: string)
  {
    e == "c" || e == "cpp" || e == "cxx"
  }

  const StemError: string := "Cannot determine filestem of path."

  /** The suffix `keyify` appends for an extension (or for none). */
  function TypeTag(ext: Option<string>): string
  {
    match ext
    case None => "_hdr"
    case Some(e) =>
      if IsHeaderExt(e) then "_hdr"
      else if IsSourceExt(e) then "_src"
      else ""
  }

  /** `keyify`: the file stem followed by the tag of the extension; an error
    * exactly when the path has no file name. */
  function Keyify(path: string): (r: Result<string, string>)
    ensures r.Err? <==> FileName(path).None?
    ensures r.Err? ==> r.error == StemError
  {
    StemIffFileName(path);
    var t := TypeTag(Extension(path));
    match FileStem(path)
    case Some(s) => Ok(s + t)
    case None => Err(StemError)
  }

  /** A name s.e (s non-empty, no '.' in e): s followed by the tag of e, and
    * the bare stem for any extension outside the six, whatever its case. */
  lemma KeyifyWithExtension(path: string, s: string, e: string)
    requires FileName(path) == Some(s + "." + e)
    requires s != "" && '.' !in e && s + "." + e != ".."
    ensures FileStem(path) == Some(s) && Extension(path) == Some(e)
    ensures IsHeaderExt(e) ==> Keyify(path) == Ok(s + "_hdr")
    ensures IsSourceExt(e) ==> Keyify(path) == Ok(s + "_src")
    ensures !IsHeaderExt(e) && !IsSourceExt(e) ==> Keyify(path) == Ok(s)
  {
    SplitAtLastDot(s, e);
    assert FileStem(path) == Some(s) && Extension(path) == Some(e);
    assert Keyify(path) == Ok(s + TypeTag(Some(e)));
    assert s + "" == s;
  }

  /** A name without '.' (or whose only '.' leads, as in ".h") has no
    * extension: the whole name followed by "_hdr". */
  lemma KeyifyWithoutExtension(path: string, n: string)
    requires FileName(path) == Some(n) && n != ".."
    requires '.' !in n || (n != [] && n[0] == '.' && '.' !in n[1..])
    ensures Keyify(path) == Ok(n + "_hdr")
  {
    NoDotName(n);
    assert FileStem(path) == Some(n) && Extension(path) == None;
  }

  /** The empty path, the root and paths ending in ".." have no key. */
  lemma KeyifyErrors(dir: string)
    ensures Keyify("") == Err(StemError)
    ensures Keyify("/") == Err(StemError)
    ensures Keyify(dir + "/..") == Err(StemError)
  {
    NoFileNameSpecial();
    NoFileNameAfterParent(dir);
  }

  /** KeyifyWithExtension for a bare name s.e (no directory). */
  lemma KeyifyOfBareName(p: string, s: string, e: string)
    requires p == s + "." + e && '/' !in p && p != ".."
    requires s != "" && '.' !in e
    ensures Keyify(p) == Ok(s + TypeTag(Some(e)))
  {
    assert |p| >= 2;
    FileNameOfBare(p);
    KeyifyWithExtension(p, s, e);
    assert s + "" == s;
  }

  // Keys of a few paths: a source, a name without extension and a
  // leading-dot name (headers under a directory are LetterHeaderExample below). The path and the key are parameters fixed by
  // the precondition.

  lemma KeyifySourceExample(p: string, k: string)
    requires p == "main.cpp" && k == "main_src"
    ensures Keyify(p) == Ok(k)
  {
    assert p == "main" + "." + "cpp" && '/' !in p && '.' !in "cpp";
    KeyifyOfBareName(p, "main", "cpp");
    assert "main" + "_src" == k;
  }

  lemma KeyifyBareExample(p: string, k: string)
    requires p == "vector" && k == "vector_hdr"
    ensures Keyify(p) == Ok(k)
  {
    FileNameOfBare(p);
    KeyifyWithoutExtension(p, p);
    assert p + "_hdr" == k;
  }

  lemma KeyifyLeadingDotExample(p: string, k: string)
    requires p == ".h" && k == ".h_hdr"
    ensures Keyify(p) == Ok(k)
  {
    FileNameOfBare(p);
    assert p[1..] == "h";
    KeyifyWithoutExtension(p, p);
    assert p + "_hdr" == k;
  }

  /** The extension test is case-sensitive: s.h is a header, s.H is keyed by
    * its bare stem. */
  lemma KeyifyCaseSensitive(s: string)
    requires s != "" && '/' !in s
    ensures Keyify(s + ".h") == Ok(s + "_hdr")
    ensures Keyify(s + ".H") == Ok(s)
  {
    assert s + ".h" == s + "." + "h" && '/' !in ".h" && '.' !in "h";
    assert s + ".H" == s + "." + "H" && '/' !in ".H" && '.' !in "H";
    KeyifyOfBareName(s + ".h", s, "h");
    KeyifyOfBareName(s + ".H", s, "H");
    assert IsHeaderExt("h") && !IsHeaderExt("H") && !IsSourceExt("H");
    assert s + "" == s;
  }

  // ---------------------------------------------------------------------
  // The node table as values

  /** `DependencyNode`: the path of the file (when the file was scanned), the
    * keys of the files including it, and the keys of the files it includes. */
  datatype Node = Node(path: Option<string>, usedBy: seq<string>, uses: seq<string>)

  /** `DependencyNode::default()`. */
  const EmptyNode := Node(None, [], [])

  /** The node `entry(k).or_insert(Default::default())` finds or creates. */
  function Entry(m: map<string, Node>, k: string): Node
  {
    if k in m then m[k] else EmptyNode
  }

  /** `add_includes_from_file` looks at files without extension and at the six
    * header and source extensions, and returns at once on any other. */
  predicate Processes(path: string)
  {
    match Extension(path)
    case None => true
    case Some(e) => IsHeaderExt(e) || IsSourceExt(e)
  }

  /** Every dependency has a key (the `unwrap` in the `uses` map). */
  predicate AllKeyable(deps: seq<string>)
  {
    forall i :: 0 <= i < |deps| ==> Keyify(deps[i]).Ok?
  }

  /** What the build step needs so that none of its `unwrap`s panics: a file
    * it processes lies under the directory and all its dependencies have keys. */
  predicate Admissible(dir: string, path: string, deps: seq<string>)
  {
    Processes(path) && Keyify(path).Ok? ==> StripPrefix(path, dir).Some? && AllKeyable(deps)
  }

  /** The keys of the dependencies, in order, duplicates kept. */
  function KeysOf(deps: seq<string>): (ks: seq<string>)
    requires AllKeyable(deps)
    ensures |ks| == |deps|
    ensures forall i :: 0 <= i < |deps| ==> ks[i] == Keyify(deps[i]).value
  {
    seq(|deps|, i requires 0 <= i < |deps| => Keyify(deps[i]).value)
  }

  /** The node of `kf` with its path set and its `uses` replaced. */
  function Register(m: map<string, Node>, kf: string, rel: string, ks: seq<string>): map<string, Node>
  {
    m[kf := Entry(m, kf).(path := Some(rel), uses := ks)]
  }

  /** One step of the `used_by` loop: kf appended to the node of kd. */
  function PushUsedBy(m: map<string, Node>, kf: string, kd: string): map<string, Node>
  {
    m[kd := Entry(m, kd).(usedBy := Entry(m, kd).usedBy + [kf])]
  }

  /** The `used_by` loop over the dependency keys ks, in order. */
  function AddUsedBy(m: map<string, Node>, kf: string, ks: seq<string>): (r: map<string, Node>)
    ensures m.Keys <= r.Keys
    ensures forall i :: 0 <= i < |ks| ==> ks[i] in r
  {
    if ks == [] then m
    else PushUsedBy(AddUsedBy(m, kf, ks[..|ks| - 1]), kf, ks[|ks| - 1])
  }

  /** `add_includes_from_file` on the table m, for a file with dependencies deps. */
  function Ingest(m: map<string, Node>, dir: string, path: string, deps: seq<string>): (r: map<string, Node>)
    requires Admissible(dir, path, deps)
    ensures m.Keys <= r.Keys
    ensures Processes(path) && Keyify(path).Ok? ==>
      Keyify(path).value in r && forall i :: 0 <= i < |deps| ==> Keyify(deps[i]).value in r
  {
    if !Processes(path) then m
    else match Keyify(path)
      case Err(_) => m
      case Ok(kf) =>
        var ks := KeysOf(deps);
        AddUsedBy(Register(m, kf, StripPrefix(path, dir).value, ks), kf, ks)
  }

  predicate AllAdmissible(dir: string, files: seq<(string, FileRead)>, parser: string -> Option<Nom.Parsed>)
  {
    forall i :: 0 <= i < |files| ==> Admissible(dir, files[i].0, Deps(files[i].1, parser))
  }

  /** `fill_from_directory`'s walk: the build step applied to each file in turn. */
  function IngestAll(m: map<string, Node>, dir: string, files: seq<(string, FileRead)>,
                     parser: string -> Option<Nom.Parsed>): (r: map<string, Node>)
    requires AllAdmissible(dir, files, parser)
    ensures m.Keys <= r.Keys
  {
    if files == [] then m
    else
      var last := files[|files| - 1];
      Ingest(IngestAll(m, dir, files[..|files| - 1], parser), dir, last.0, Deps(last.1, parser))
  }

  // ---------------------------------------------------------------------
  // What the build step does

  /** n copies of x. */
  function Repeat(x: string, n: nat): (r: seq<string>)
    ensures |r| == n && forall i :: 0 <= i < n ==> r[i] == x
  {
    if n == 0 then [] else Repeat(x, n - 1) + [x]
  }

  function Elems(ks: seq<string>): set<string>
  {
    set k | k in ks
  }

  /** A file that is not processed, or has no key, leaves the table alone. */
  lemma IngestSkips(m: map<string, Node>, dir: string, path: string, deps: seq<string>)
    requires Admissible(dir, path, deps)
    requires !Processes(path) || Keyify(path).Err?
    ensures Ingest(m, dir, path, deps) == m
  {
  }

  /** A processed file with key kf: registered, then the `used_by` loop. */
  lemma IngestProcessed(m: map<string, Node>, dir: string, path: string, deps: seq<string>, kf: string)
    requires Admissible(dir, path, deps)
    requires Processes(path) && Keyify(path) == Ok(kf)
    ensures StripPrefix(path, dir).Some? && AllKeyable(deps)
    ensures Ingest(m, dir, path, deps)
      == AddUsedBy(Register(m, kf, StripPrefix(path, dir).value, KeysOf(deps)), kf, KeysOf(deps))
  {
  }

  /** What the `used_by` loop does to one key x. */
  lemma {:induction false} AddUsedByAt(m: map<string, Node>, kf: string, ks: seq<string>, x: string)
    ensures x in AddUsedBy(m, kf, ks) <==> x in m || x in ks
    ensures x in AddUsedBy(m, kf, ks) ==>
      AddUsedBy(m, kf, ks)[x] == Entry(m, x).(usedBy := Entry(m, x).usedBy + Repeat(kf, multiset(ks)[x]))
    decreases |ks|
  {
    if ks == [] {
      assert Entry(m, x).usedBy + [] == Entry(m, x).usedBy;
    } else {
      var init, last := ks[..|ks| - 1], ks[|ks| - 1];
      assert ks == init + [last];
      AddUsedByAt(m, kf, init, x);
      PushUsedByAt(m, AddUsedBy(m, kf, init), kf, init, last, x);
    }
  }

  /** One more step of the `used_by` loop, seen from the key x. */
  lemma PushUsedByAt(m: map<string, Node>, prev: map<string, Node>, kf: string,
                     init: seq<string>, last: string, x: string)
    requires x in prev <==> x in m || x in init
    requires x in prev ==>
      prev[x] == Entry(m, x).(usedBy := Entry(m, x).usedBy + Repeat(kf, multiset(init)[x]))
    ensures var r, ks := PushUsedBy(prev, kf, last), init + [last];
      && (x in r <==> x in m || x in ks)
      && (x in r ==> r[x] == Entry(m, x).(usedBy := Entry(m, x).usedBy + Repeat(kf, multiset(ks)[x])))
  {
    var ks := init + [last];
    var c := multiset(init)[x];
    assert multiset(ks) == multiset(init) + multiset{last};
    var e := Entry(m, x).(usedBy := Entry(m, x).usedBy + Repeat(kf, c));
    if x !in prev {
      assert x !in init;
      assert Entry(m, x).usedBy + Repeat(kf, c) == Entry(m, x).usedBy;
    }
    assert Entry(prev, x) == e;
    if x == last {
      assert Repeat(kf, c + 1) == Repeat(kf, c) + [kf];
      assert e.usedBy + [kf] == Entry(m, x).usedBy + Repeat(kf, c + 1);
    } else {
      assert x in ks <==> x in init;
    }
  }

  /** The `used_by` loop creates the missing nodes of ks and appends kf to
    * each node once per occurrence of its key in ks; nothing else changes. */
  lemma AddUsedByEffect(m: map<string, Node>, kf: string, ks: seq<string>)
    ensures AddUsedBy(m, kf, ks).Keys == m.Keys + Elems(ks)
    ensures forall x :: x in AddUsedBy(m, kf, ks) ==>
      AddUsedBy(m, kf, ks)[x] == Entry(m, x).(usedBy := Entry(m, x).usedBy + Repeat(kf, multiset(ks)[x]))
  {
    forall x ensures (x in AddUsedBy(m, kf, ks) <==> x in m || x in ks)
      && (x in AddUsedBy(m, kf, ks) ==>
        AddUsedBy(m, kf, ks)[x] == Entry(m, x).(usedBy := Entry(m, x).usedBy + Repeat(kf, multiset(ks)[x])))
    {
      AddUsedByAt(m, kf, ks, x);
    }
  }

  /** The build step on a file it skips (other extension, or no key) leaves the
    * table alone; on a processed file with key kf and dependency keys ks, the
    * node of kf gets the stripped path and `uses` = ks, every node of ks
    * exists afterwards, each node gets kf appended to its `used_by` once per
    * occurrence of its key in ks, and nothing else changes. */
  lemma IngestEffect(m: map<string, Node>, dir: string, path: string, deps: seq<string>)
    requires Admissible(dir, path, deps)
    ensures !Processes(path) || Keyify(path).Err? ==> Ingest(m, dir, path, deps) == m
    ensures Processes(path) && Keyify(path).Ok? ==>
      var r, kf, ks := Ingest(m, dir, path, deps), Keyify(path).value, KeysOf(deps);
      && r.Keys == m.Keys + {kf} + Elems(ks)
      && r[kf].path == StripPrefix(path, dir)
      && r[kf].uses == ks
      && (forall x :: x in r && x != kf ==> r[x].path == Entry(m, x).path && r[x].uses == Entry(m, x).uses)
      && (forall x :: x in r ==> r[x].usedBy == Entry(m, x).usedBy + Repeat(kf, multiset(ks)[x]))
  {
    if Processes(path) && Keyify(path).Ok? {
      var kf, ks, rel := Keyify(path).value, KeysOf(deps), StripPrefix(path, dir).value;
      var reg := Register(m, kf, rel, ks);
      var r := AddUsedBy(reg, kf, ks);
      assert Ingest(m, dir, path, deps) == r;
      RegisterThenAddUsedBy(m, kf, rel, ks);
    }
  }

  /** IngestEffect for the table built from m by Register and AddUsedBy. */
  lemma RegisterThenAddUsedBy(m: map<string, Node>, kf: string, rel: string, ks: seq<string>)
    ensures var r := AddUsedBy(Register(m, kf, rel, ks), kf, ks);
      && r.Keys == m.Keys + {kf} + Elems(ks)
      && r[kf].path == Some(rel)
      && r[kf].uses == ks
      && (forall x :: x in r && x != kf ==> r[x].path == Entry(m, x).path && r[x].uses == Entry(m, x).uses)
      && (forall x :: x in r ==> r[x].usedBy == Entry(m, x).usedBy + Repeat(kf, multiset(ks)[x]))
  {
    var reg := Register(m, kf, rel, ks);
    AddUsedByEffect(reg, kf, ks);
    assert forall x :: x != kf ==> Entry(reg, x) == Entry(m, x);
    assert Entry(reg, kf) == Entry(m, kf).(path := Some(rel), uses := ks);
  }

  /** Every key a node uses is in the table, and that node lists the user in
    * its `used_by`. */
  predicate Reciprocal(m: map<string, Node>)
  {
    forall a, j :: a in m && 0 <= j < |m[a].uses| ==>
      m[a].uses[j] in m && a in m[m[a].uses[j]].usedBy
  }

  /** The build step keeps the table reciprocal. */
  lemma IngestKeepsReciprocal(m: map<string, Node>, dir: string, path: string, deps: seq<string>)
    requires Admissible(dir, path, deps) && Reciprocal(m)
    ensures Reciprocal(Ingest(m, dir, path, deps))
  {
    IngestEffect(m, dir, path, deps);
    if Processes(path) && Keyify(path).Ok? {
      var r, kf, ks := Ingest(m, dir, path, deps), Keyify(path).value, KeysOf(deps);
      forall a, j | a in r && 0 <= j < |r[a].uses|
        ensures r[a].uses[j] in r && a in r[r[a].uses[j]].usedBy
      {
        var b := r[a].uses[j];
        if a == kf {
          assert b in ks;
          assert multiset(ks)[b] > 0;
          assert r[b].usedBy[|Entry(m, b).usedBy|] == kf;
        } else {
          assert a in m && r[a].uses == m[a].uses;
          assert b in m && a in m[b].usedBy;
          assert m[b].usedBy <= r[b].usedBy;
        }
      }
    }
  }

  /** Filling keeps the table reciprocal, starting from any reciprocal table. */
  lemma {:induction false} IngestAllKeepsReciprocal(m: map<string, Node>, dir: string,
      files: seq<(string, FileRead)>, parser: string -> Option<Nom.Parsed>)
    requires AllAdmissible(dir, files, parser) && Reciprocal(m)
    ensures Reciprocal(IngestAll(m, dir, files, parser))
    decreases |files|
  {
    if files != [] {
      var init, last := files[..|files| - 1], files[|files| - 1];
      AllAdmissiblePrefix(dir, files, parser, |files| - 1);
      IngestAllKeepsReciprocal(m, dir, init, parser);
      IngestKeepsReciprocal(IngestAll(m, dir, init, parser), dir, last.0, Deps(last.1, parser));
    }
  }

  lemma AllAdmissiblePrefix(dir: string, files: seq<(string, FileRead)>,
      parser: string -> Option<Nom.Parsed>, n: nat)
    requires AllAdmissible(dir, files, parser) && n <= |files|
    ensures AllAdmissible(dir, files[..n], parser)
  {
    forall i | 0 <= i < n ensures Admissible(dir, files[..n][i].0, Deps(files[..n][i].1, parser)) {
      assert files[..n][i] == files[i];
    }
  }

  /** A file directly under a non-empty directory is recorded with its path
    * relative to that directory. */
  lemma IngestRecordsRelativePath(m: map<string, Node>, dir: string, rel: string, path: string,
      deps: seq<string>, kf: string)
    requires dir != "" && Clean(rel) && path == dir + "/" + rel
    requires Processes(path) && Keyify(path) == Ok(kf) && AllKeyable(deps)
    ensures Admissible(dir, path, deps)
    ensures var r := Ingest(m, dir, path, deps);
      kf in r && r[kf].path == Some(rel)
  {
    StripPrefixOfJoin(dir, rel);
    IngestEffect(m, dir, path, deps);
  }

  /** Every node that lists a user in its `used_by` is used by it. */
  predicate ConverseReciprocal(m: map<string, Node>)
  {
    forall b, j :: b in m && 0 <= j < |m[b].usedBy| ==>
      m[b].usedBy[j] in m && b in m[m[b].usedBy[j]].uses
  }

  /** The dependency keys of a file with the single dependency d. */
  lemma SingleDependency(d: string, kd: string)
    requires Keyify(d) == Ok(kd)
    ensures AllKeyable([d]) && KeysOf([d]) == [kd] && multiset([kd])[kd] == 1
  {
  }

  /** The build step on a processed file, seen from one key x: x is in the
    * table afterwards exactly when it was, is the file's key or one of its
    * dependency keys, and its `used_by` grows by kf once per occurrence. */
  lemma IngestUsedByAt(m: map<string, Node>, dir: string, path: string, deps: seq<string>,
      kf: string, x: string)
    requires Admissible(dir, path, deps) && Processes(path) && Keyify(path) == Ok(kf)
    ensures AllKeyable(deps)
    ensures x in Ingest(m, dir, path, deps) <==> x in m || x == kf || x in KeysOf(deps)
    ensures x in Ingest(m, dir, path, deps) ==>
      Ingest(m, dir, path, deps)[x].usedBy == Entry(m, x).usedBy + Repeat(kf, multiset(KeysOf(deps))[x])
  {
    IngestProcessed(m, dir, path, deps, kf);
    var reg := Register(m, kf, StripPrefix(path, dir).value, KeysOf(deps));
    AddUsedByAt(reg, kf, KeysOf(deps), x);
    assert Entry(reg, x).usedBy == Entry(m, x).usedBy;
  }

  /** The build step on a processed file with the single dependency d
    * appends the file's key to the `used_by` of d's node. */
  lemma IngestSingleUse(m: map<string, Node>, dir: string, p: string, d: string, kp: string, kd: string)
    requires Processes(p) && Keyify(p) == Ok(kp) && StripPrefix(p, dir).Some?
    requires Keyify(d) == Ok(kd)
    ensures Admissible(dir, p, [d])
    ensures kd in Ingest(m, dir, p, [d])
    ensures Ingest(m, dir, p, [d])[kd].usedBy == Entry(m, kd).usedBy + [kp]
  {
    SingleDependency(d, kd);
    assert Repeat(kp, 1) == [kp];
    IngestUsedByAt(m, dir, p, [d], kp, kd);
  }

  /** Two files that each include d, built one after the other: the node of
    * d lists them in that order (as tests/integration_test.rs checks for
    * `vector_hdr`). */
  lemma UsedByInFileOrder(dir: string, pa: string, pb: string, d: string, ka: string, kb: string, kd: string)
    requires Processes(pa) && Keyify(pa) == Ok(ka) && StripPrefix(pa, dir).Some?
    requires Processes(pb) && Keyify(pb) == Ok(kb) && StripPrefix(pb, dir).Some?
    requires Keyify(d) == Ok(kd)
    ensures Admissible(dir, pa, [d]) && Admissible(dir, pb, [d])
    ensures var r := Ingest(Ingest(map[], dir, pa, [d]), dir, pb, [d]);
      kd in r && r[kd].usedBy == [ka, kb]
  {
    IngestSingleUse(map[], dir, pa, d, ka, kd);
    var m1 := Ingest(map[], dir, pa, [d]);
    IngestSingleUse(m1, dir, pb, d, kb, kd);
    assert Entry(m1, kd).usedBy == [ka];
  }

  /** When two files share a key, the later one's `uses` replaces the
    * earlier one's while `used_by` entries stay: the table is reciprocal but
    * the converse fails. */
  lemma SharedKeyBreaksConverse(dir: string, pa: string, pb: string, d: string, k: string, kd: string)
    requires Processes(pa) && Keyify(pa) == Ok(k) && StripPrefix(pa, dir).Some?
    requires Processes(pb) && Keyify(pb) == Ok(k) && StripPrefix(pb, dir).Some?
    requires Keyify(d) == Ok(kd)
    ensures Admissible(dir, pa, [d]) && Admissible(dir, pb, [])
    ensures var r := Ingest(Ingest(map[], dir, pa, [d]), dir, pb, []);
      Reciprocal(r) && !ConverseReciprocal(r)
  {
    SingleDependency(d, kd);
    assert AllKeyable([]) && KeysOf([]) == [];
    var m1 := Ingest(map[], dir, pa, [d]);
    IngestEffect(map[], dir, pa, [d]);
    IngestKeepsReciprocal(map[], dir, pa, [d]);
    var r := Ingest(m1, dir, pb, []);
    IngestEffect(m1, dir, pb, []);
    IngestKeepsReciprocal(m1, dir, pb, []);
    assert r[kd].usedBy == m1[kd].usedBy;
    assert m1[kd].usedBy[|m1[kd].usedBy| - 1] == k;
    assert r[k].uses == [];
  }

  /** A header s.h and a header s.hpp in the same walk share the key
    * s_hdr (for instance "x.h" and "x.hpp"). */
  lemma SharedHeaderKey(s: string)
    requires s != "" && '/' !in s
    ensures Keyify(s + ".h") == Ok(s + "_hdr") && Keyify(s + ".hpp") == Ok(s + "_hdr")
  {
    assert s + ".h" == s + "." + "h" && '/' !in ".h" && '.' !in "h";
    assert s + ".hpp" == s + "." + "hpp" && '/' !in ".hpp" && '.' !in "hpp";
    KeyifyOfBareName(s + ".h", s, "h");
    KeyifyOfBareName(s + ".hpp", s, "hpp");
    assert IsHeaderExt("h") && IsHeaderExt("hpp");
  }

  /** A header name directly under a non-empty directory: processed, keyed
    * by its stem and "_hdr", and recorded by its name. */
  lemma HeaderInDirectory(dir: string, name: string, stem: string, path: string, key: string)
    requires dir != "" && stem != "" && '/' !in name
    requires name == stem + "." + "h" && path == dir + "/" + name && key == stem + "_hdr"
    ensures Processes(path) && Keyify(path) == Ok(key) && StripPrefix(path, dir) == Some(name)
  {
    assert |name| == |stem| + 2;
    FileNameOfJoin(dir, name);
    assert '.' !in "h";
    KeyifyWithExtension(path, stem, "h");
    assert Processes(path);
    SplitOfName(name);
    assert Clean(name);
    StripPrefixOfJoin(dir, name);
  }

  /** A file of one directive line has that directive's target as its one
    * dependency, whatever whitespace surrounds `#include` and whatever follows
    * the target. */
  lemma OneLineDeps(line: string, file: FileRead, ws1: string, ws2: string,
      d: IncludeGrammar.Delim, h: string, rest: string)
    requires Nom.AllMultispace(ws1) && Nom.AllMultispace(ws2) && IncludeGrammar.ValidTarget(d, h)
    requires line == IncludeGrammar.IncludeLine(ws1, ws2, d, h, rest) && file == Opened([Read(line)])
    ensures Deps(file, FileIo.IncludeParser) == [h]
  {
    FileIo.IncludeParserAccepts(ws1, ws2, d, h, rest);
    CollectTargetsSingle(Read(line), FileIo.IncludeParser);
  }

  /** The one dependency of a file holding the line `#include <vector>`. */
  lemma VectorDeps(line: string, file: FileRead, h: string)
    requires line == "#include <vector>" && file == Opened([Read(line)]) && h == "vector"
    ensures Deps(file, FileIo.IncludeParser) == [h]
  {
    assert IncludeGrammar.IncludeLine("", " ", IncludeGrammar.Angle, h, "") == line;
    assert Nom.AllMultispace("") && Nom.AllMultispace(" ");
    OneLineDeps(line, file, "", " ", IncludeGrammar.Angle, h, "");
  }

  /** The one-letter headers of tests/integration_test.rs: "dir/c.h" under
    * "dir" is processed, keyed "c_hdr" and recorded as "c.h". */
  lemma LetterHeaderExample(c: char, p: string, k: string)
    requires c != '/' && p == "dir/" + [c] + ".h" && k == [c] + "_hdr"
    ensures Processes(p) && Keyify(p) == Ok(k) && StripPrefix(p, "dir") == Some([c] + ".h")
  {
    var name := [c] + ".h";
    assert name == [c] + "." + "h" && '/' !in name;
    assert p == "dir" + "/" + name;
    HeaderInDirectory("dir", name, [c], p, k);
  }

  /** The scenario of tests/integration_test.rs, for any one-letter header
    * names a and b (the test uses "a" and "b"): "dir/a.h" and then "dir/b.h",
    * each holding the line `#include <vector>`, leave `vector_hdr` used by
    * `a_hdr` and then `b_hdr`. */
  lemma VectorUsedByExample(a: char, b: char, pa: string, pb: string, line: string, file: FileRead,
      ka: string, kb: string, kd: string)
    requires a != '/' && pa == "dir/" + [a] + ".h" && ka == [a] + "_hdr"
    requires b != '/' && pb == "dir/" + [b] + ".h" && kb == [b] + "_hdr"
    requires line == "#include <vector>" && file == Opened([Read(line)]) && kd == "vector_hdr"
    ensures Admissible("dir", pa, Deps(file, FileIo.IncludeParser))
    ensures Admissible("dir", pb, Deps(file, FileIo.IncludeParser))
    ensures var deps := Deps(file, FileIo.IncludeParser);
      var r := Ingest(Ingest(map[], "dir", pa, deps), "dir", pb, deps);
      kd in r && r[kd].usedBy == [ka, kb]
  {
    var d := "vector";
    VectorDeps(line, file, d);
    LetterHeaderExample(a, pa, ka);
    LetterHeaderExample(b, pb, kb);
    KeyifyBareExample(d, kd);
    UsedByInFileOrder("dir", pa, pb, d, ka, kb, kd);
  }

  // ---------------------------------------------------------------------
  // The forest object

  /** `DependencyForest`: the source directory and the table of nodes by key. */
  class Forest {
    var directory: string
    var nodeMap: map<string, Node>

    /** Every key a node uses has a node that lists the user. */
    predicate Valid()
      reads this
    {
      Reciprocal(nodeMap)
    }

    /** `Default::default()`: no directory, no nodes. */
    constructor ()
      ensures directory == "" && nodeMap == map[]
      ensures Valid()
    {
      directory := "";
      nodeMap := map[];
    }

    /** `fill_from_directory`: remember the directory, then run the build
      * step on each file the walk yields (a path and what reading it gave). */
    method FillFromDirectory(dir: string, files: seq<(string, FileRead)>)
      requires AllAdmissible(dir, files, FileIo.IncludeParser)
      modifies this
      ensures directory == dir
      ensures nodeMap == IngestAll(old(nodeMap), dir, files, FileIo.IncludeParser)
      ensures old(Valid()) ==> Valid()
    {
      directory := dir;
      for i := 0 to |files|
        invariant directory == dir
        invariant AllAdmissible(dir, files[..i], FileIo.IncludeParser)
        invariant nodeMap == IngestAll(old(nodeMap), dir, files[..i], FileIo.IncludeParser)
      {
        AllAdmissiblePrefix(dir, files, FileIo.IncludeParser, i + 1);
        assert files[..i + 1][..i] == files[..i];
        AddIncludesFromFile(files[i].0, files[i].1);
      }
      assert files[..|files|] == files;
      if old(Valid()) {
        IngestAllKeepsReciprocal(old(nodeMap), dir, files, FileIo.IncludeParser);
      }
    }

    /** `add_includes_from_file`: skip other extensions and keyless paths;
      * otherwise record the file's relative path and the keys it uses, and
      * append its key to the `used_by` of each dependency. */
    method AddIncludesFromFile(path: string, file: FileRead)
      requires Admissible(directory, path, Deps(file, FileIo.IncludeParser))
      modifies this
      ensures directory == old(directory)
      ensures nodeMap == Ingest(old(nodeMap), directory, path, Deps(file, FileIo.IncludeParser))
      ensures old(Valid()) ==> Valid()
    {
      ghost var m0 := nodeMap;
      var ext := Extension(path);
      if ext.Some? && !(IsHeaderExt(ext.value) || IsSourceExt(ext.value)) {
        IngestSkips(m0, directory, path, Deps(file, FileIo.IncludeParser));
        return;
      }
      var key := Keyify(path);
      match key
      case Err(why) =>
        // the source prints the error
        IngestSkips(m0, directory, path, Deps(file, FileIo.IncludeParser));
      case Ok(kf) =>
        IngestProcessed(m0, directory, path, Deps(file, FileIo.IncludeParser), kf);
        var deps := FileIo.GetDeps(file);
        var rel := StripPrefix(path, directory).value;
        RecordFile(kf, rel, deps);
        if Reciprocal(m0) {
          IngestKeepsReciprocal(m0, directory, path, Deps(file, FileIo.IncludeParser));
        }
    }

    /** The `Ok(kf)` branch of `add_includes_from_file`: find or create the
      * node of kf, set its path and replace its `uses` by the dependency
      * keys, then run the `used_by` loop. */
    method RecordFile(kf: string, rel: string, deps: seq<string>)
      requires AllKeyable(deps)
      modifies this
      ensures directory == old(directory)
      ensures nodeMap == AddUsedBy(Register(old(nodeMap), kf, rel, KeysOf(deps)), kf, KeysOf(deps))
    {
      nodeMap := nodeMap[kf := Entry(nodeMap, kf)];
      var uses := KeysOf(deps);
      nodeMap := nodeMap[kf := nodeMap[kf].(path := Some(rel), uses := uses)];
      assert nodeMap == Register(old(nodeMap), kf, rel, uses);
      AppendUsedBy(kf, deps);
    }

    /** The loop of `add_includes_from_file` that appends kf to the `used_by`
      * of the node of each dependency, creating missing nodes. */
    method AppendUsedBy(kf: string, deps: seq<string>)
      requires AllKeyable(deps)
      modifies this
      ensures directory == old(directory)
      ensures nodeMap == AddUsedBy(old(nodeMap), kf, KeysOf(deps))
    {
      ghost var uses := KeysOf(deps);
      for i := 0 to |deps|
        invariant directory == old(directory)
        invariant nodeMap == AddUsedBy(old(nodeMap), kf, uses[..i])
      {
        assert uses[..i + 1][..i] == uses[..i];
        var key := Keyify(deps[i]);
        match key
        case Ok(kd) =>
          var entry := Entry(nodeMap, kd);
          nodeMap := nodeMap[kd := entry.(usedBy := entry.usedBy + [kf])];
        case Err(why) =>
          assert false;
      }
      assert uses[..|deps|] == uses;
    }

    /** `children`: the nodes of the keys the node uses, in order. */
    method Children(node: Node) returns (v: seq<Node>)
      requires forall i :: 0 <= i < |node.uses| ==> node.uses[i] in nodeMap
      ensures |v| == |node.uses|
      ensures forall i :: 0 <= i < |v| ==> v[i] == nodeMap[node.uses[i]]
    {
      v := [];
      for i := 0 to |node.uses|
        invariant |v| == i
        invariant forall j :: 0 <= j < i ==> v[j] == nodeMap[node.uses[j]]
      {
        v := v + [nodeMap[node.uses[i]]];
      }
    }

    /** `get_nodes`: every node once, in the table's iteration order, which
      * is left open; `order` is the key of each node returned. */
    method GetNodes() returns (v: seq<Node>, ghost order: seq<string>)
      ensures |v| == |order| == |nodeMap|
      ensures forall i, j :: 0 <= i < j < |order| ==> order[i] != order[j]
      ensures forall i :: 0 <= i < |order| ==> order[i] in nodeMap && v[i] == nodeMap[order[i]]
      ensures forall k :: k in nodeMap ==> k in order
      ensures forall i :: 0 <= i < |v| ==> v[i] in nodeMap.Values
      ensures forall k :: k in nodeMap ==> nodeMap[k] in v
    {
      v, order := [], [];
      var rest := nodeMap.Keys;
      while rest != {}
        invariant |v| == |order| && |rest| + |order| == |nodeMap|
        invariant forall k :: k in nodeMap <==> k in rest || k in order
        invariant forall k :: k in rest ==> k !in order
        invariant forall i, j :: 0 <= i < j < |order| ==> order[i] != order[j]
        invariant forall i :: 0 <= i < |order| ==> order[i] in nodeMap && v[i] == nodeMap[order[i]]
        decreases |rest|
      {
        var k :| k in rest;
        v, order := v + [nodeMap[k]], order + [k];
        rest := rest - {k};
      }
      ValuesListed(nodeMap, v, order);
    }

    /** `len` of the graph: the number of nodes `get_nodes` returns. */
    method Len() returns (n: nat)
      ensures n == |nodeMap|
    {
      var v;
      ghost var order;
      v, order := GetNodes();
      n := |v|;
    }
  }

  /** Nodes listed key by key, every key once: the list holds exactly the
    * table's nodes. */
  lemma ValuesListed(m: map<string, Node>, v: seq<Node>, order: seq<string>)
    requires |v| == |order|
    requires forall i :: 0 <= i < |order| ==> order[i] in m && v[i] == m[order[i]]
    requires forall k :: k in m ==> k in order
    ensures forall i :: 0 <= i < |v| ==> v[i] in m.Values
    ensures forall k :: k in m ==> m[k] in v
  {
    forall k | k in m ensures m[k] in v {
      var i :| 0 <= i < |order| && order[i] == k;
      assert v[i] == m[k];
    }
  }

  /** On a reciprocal table, `children` of any node has its precondition. */
  lemma ReciprocalChildrenDefined(m: map<string, Node>, k: string)
    requires Reciprocal(m) && k in m
    ensures forall i :: 0 <= i < |m[k].uses| ==> m[k].uses[i] in m
  {
  }
}
