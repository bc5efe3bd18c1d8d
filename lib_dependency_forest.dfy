/**
 * The `dependency_forest` module inlined in src/lib.rs. Its `keyify`,
 * `DependencyNode`, `DependencyForest`, `children` and `get_nodes` are
 * copies of those in src/dependency_forest.rs; its `add_includes_from_file`
 * reads the dependencies with the older parser of the inlined `file_io`.
 * The struct is the same as the newer one, so the methods here work on a
 * `DependencyForest.Forest`.
 */
module LibDependencyForest {
  import opened Wrappers
  import opened RustPath
  import opened LineScan
  import Nom
  import LibFileIo
  import FileIo
  import DependencyForest
  import IncludeGrammar

  /** The inlined copy of `keyify`. */
  function Keyify(path: string): (r: Result<string, string>)
    ensures r == DependencyForest.Keyify(path)
  {
    var t :=
      match Extension(path)
      case Some(e) =>
        if e == "h" || e == "hpp" || e == "hxx" then "_hdr"
        else if e == "c" || e == "cpp" || e == "cxx" then "_src"
        else ""
      case None => "_hdr";
    match FileStem(path)
    case Some(s) => Ok(s + t)
    case None => Err("Cannot determine filestem of path.")
  }

  /** `add_includes_from_file` of src/lib.rs: the same skip, path, `uses`
    * and `used_by` updates as the newer one, with dependencies read by the
    * older parser. */
  method AddIncludesFromFile(forest: DependencyForest.Forest, path: string, file: FileRead)
    requires DependencyForest.Admissible(forest.directory, path, Deps(file, LibFileIo.IncludeParser))
    modifies forest
    ensures forest.directory == old(forest.directory)
    ensures forest.nodeMap
      == DependencyForest.Ingest(old(forest.nodeMap), forest.directory, path, Deps(file, LibFileIo.IncludeParser))
    ensures old(forest.Valid()) ==> forest.Valid()
  {
    ghost var m0 := forest.nodeMap;
    var ext := Extension(path);
    if ext.Some? && !(ext.value == "h" || ext.value == "hpp" || ext.value == "hxx"
                      || ext.value == "c" || ext.value == "cpp" || ext.value == "cxx") {
      DependencyForest.IngestSkips(m0, forest.directory, path, Deps(file, LibFileIo.IncludeParser));
      return;
    }
    var key := Keyify(path);
    match key
    case Err(why) =>
      // the source prints the error
      DependencyForest.IngestSkips(m0, forest.directory, path, Deps(file, LibFileIo.IncludeParser));
    case Ok(kf) =>
      DependencyForest.IngestProcessed(m0, forest.directory, path, Deps(file, LibFileIo.IncludeParser), kf);
      var deps := LibFileIo.GetDeps(file);
      var rel := StripPrefix(path, forest.directory).value;
      forest.RecordFile(kf, rel, deps);
      if DependencyForest.Reciprocal(m0) {
        DependencyForest.IngestKeepsReciprocal(m0, forest.directory, path, Deps(file, LibFileIo.IncludeParser));
      }
  }

  /** `fill_from_directory` of src/lib.rs. */
  method FillFromDirectory(forest: DependencyForest.Forest, dir: string, files: seq<(string, FileRead)>)
    requires DependencyForest.AllAdmissible(dir, files, LibFileIo.IncludeParser)
    modifies forest
    ensures forest.directory == dir
    ensures forest.nodeMap == DependencyForest.IngestAll(old(forest.nodeMap), dir, files, LibFileIo.IncludeParser)
    ensures old(forest.Valid()) ==> forest.Valid()
  {
    forest.directory := dir;
    for i := 0 to |files|
      invariant forest.directory == dir
      invariant DependencyForest.AllAdmissible(dir, files[..i], LibFileIo.IncludeParser)
      invariant forest.nodeMap == DependencyForest.IngestAll(old(forest.nodeMap), dir, files[..i], LibFileIo.IncludeParser)
    {
      DependencyForest.AllAdmissiblePrefix(dir, files, LibFileIo.IncludeParser, i + 1);
      assert files[..i + 1][..i] == files[..i];
      AddIncludesFromFile(forest, files[i].0, files[i].1);
    }
    assert files[..|files|] == files;
    if old(forest.Valid()) {
      DependencyForest.IngestAllKeepsReciprocal(old(forest.nodeMap), dir, files, LibFileIo.IncludeParser);
    }
  }

  /** No line read starts with whitespace. */
  predicate Unindented(lines: seq<LineRead>)
  {
    forall i :: 0 <= i < |lines| && lines[i].Read? ==>
      lines[i].text == [] || !Nom.IsMultispace(lines[i].text[0])
  }

  /** On files without indented lines, both `get_deps` give the same dependencies. */
  lemma {:induction false} DepsAgreeUnindented(lines: seq<LineRead>)
    requires Unindented(lines)
    ensures CollectTargets(lines, LibFileIo.IncludeParser) == CollectTargets(lines, FileIo.IncludeParser)
    decreases |lines|
  {
    if lines != [] {
      var init, last := lines[..|lines| - 1], lines[|lines| - 1];
      assert Unindented(init) by {
        forall i | 0 <= i < |init| && init[i].Read?
          ensures init[i].text == [] || !Nom.IsMultispace(init[i].text[0])
        {
          assert init[i] == lines[i];
        }
      }
      DepsAgreeUnindented(init);
      if last.Read? {
        LibFileIo.ParsersAgreeUnindented(last.text);
      }
    }
  }

  /** An indented directive is a dependency for the newer `get_deps` only. */
  lemma IndentedDirectiveDiffers(ws1: string, d: IncludeGrammar.Delim, h: string)
    requires ws1 != [] && Nom.AllMultispace(ws1) && IncludeGrammar.ValidTarget(d, h)
    ensures var lines := [Read(IncludeGrammar.IncludeLine(ws1, " ", d, h, ""))];
      CollectTargets(lines, FileIo.IncludeParser) == [h]
      && CollectTargets(lines, LibFileIo.IncludeParser) == []
  {
    var line := IncludeGrammar.IncludeLine(ws1, " ", d, h, "");
    FileIo.IncludeParserAccepts(ws1, " ", d, h, "");
    assert line[0] == ws1[0];
    LibFileIo.IndentedRejected(line);
    CollectTargetsSingle(Read(line), FileIo.IncludeParser);
    CollectTargetsSingle(Read(line), LibFileIo.IncludeParser);
  }
}
