# cpp_include_walker, modelled in Dafny

`cpp_include_walker` scans a directory of C/C++ files and builds a table
of `#include` dependencies. Each file and each included header becomes a
node keyed by `keyify` of its path: the file stem plus `_hdr` for a header
extension or none, `_src` for a source extension, and the bare stem for any
other extension (an included `<x.inl>` is keyed `x`). A node
records the file's path relative to the scanned directory, the keys it
`uses`, and the keys of the files it is `used_by`. The crate then orders
the nodes with `get_topological_order`.

The crate has two generations of each part. The modules inlined in
`src/lib.rs` are the ones the crate compiles. The separate files
`src/file_io.rs`, `src/dependency_forest.rs` and `src/simple_graph.rs` are
newer variants. Both are modelled, one Dafny module per source module:

| Dafny module | models |
|---|---|
| `RustPath` | the parts of Rust's `std::path` that the crate relies on: components, `file_name`, `file_stem`, `extension`, `strip_prefix` (Unix rules, paths as strings) |
| `Nom` | the `nom` combinators the parsers use: `multispace0`, `tag`, `delimited` with `is_not` |
| `IncludeGrammar` | the shared `alt` of the two target forms, and the directive grammar as a predicate |
| `LineScan` | the lines `read_lines` yields, and the per-line loop of `get_deps` as a fold |
| `FileIo` | `include_parser` and `get_deps` of `src/file_io.rs` (leading whitespace allowed) |
| `LibFileIo` | `include_parser` and `get_deps` of `src/lib.rs` (`#include` must start the line) |
| `DependencyForest` | `keyify`, `DependencyNode`, and the `DependencyForest` class of `src/dependency_forest.rs`, with `fill_from_directory`, `add_includes_from_file`, `children`, `get_nodes` and `len` |
| `LibDependencyForest` | the copies in `src/lib.rs`: `keyify`, and `add_includes_from_file`/`fill_from_directory` reading dependencies with the older parser |
| `SimpleGraph` | the Kahn-shaped `get_topological_order` of `src/simple_graph.rs`, as written |
| `LibSimpleGraph` | the sort-based `get_topological_order` of `src/lib.rs` |

The node table is a `class Forest` with fields `directory` and `nodeMap`,
and its methods update them in place. Each method is proved against a
function on values: `Ingest` for one file and `IngestAll` for a walk.
The lemmas state what those functions do and prove the invariant they
keep (`Reciprocal`: whenever A uses B, B is in the table and lists A in its
`used_by`). The Kahn routine is an imperative method over an `int` array
and a candidate stack. Its contract says what it returns on every input:
the node list reversed, always `Ok`.

Where the repository's own description and the code disagree, the model
follows the code:
- `DependencyNode` has no key field. Nodes are known by their key in the table.
- The Kahn-shaped `get_topological_order` never computes in-degrees. Its result is the `get_nodes` order reversed whatever the edges are, so a parent may come before or after its child, and it never reports a cycle (`OrderIgnoresEdges`, `TwoCycleAccepted`).
- The doc comment at src/dependency_forest.rs:15 says that no extension appends nothing. The code appends `_hdr`, and gives the bare stem for an unknown extension.

## Model

| member | source | states |
|---|---|---|
| DependencyForest.Keyify | src/dependency_forest.rs:18-39 | the key is an error exactly when the path has no file name, and the error text is "Cannot determine filestem of path." |
| DependencyForest.KeyifyWithExtension | src/dependency_forest.rs:24-34 | for a name s.e: extension h/hpp/hxx gives s + "_hdr", c/cpp/cxx gives s + "_src", any other extension gives the bare stem s |
| DependencyForest.KeyifyWithoutExtension | src/dependency_forest.rs:33 | a name without extension (including a leading-dot name such as ".h") gives the whole name + "_hdr" |
| DependencyForest.KeyifyErrors | src/dependency_forest.rs:35-38 | the empty path, "/" and any path ending in "/.." have no key |
| DependencyForest.KeyifyOfBareName | src/dependency_forest.rs:21-36 | a bare name s.e is keyed by s and the tag of e |
| DependencyForest.KeyifySourceExample | src/dependency_forest.rs:29-30 | "main.cpp" has key "main_src" |
| DependencyForest.KeyifyBareExample | src/dependency_forest.rs:33 | "vector" has key "vector_hdr" |
| DependencyForest.KeyifyLeadingDotExample | src/dependency_forest.rs:22-23 | ".h" has no extension and key ".h_hdr" |
| DependencyForest.KeyifyCaseSensitive | src/dependency_forest.rs:26-31 | for any bare stem s, s.h has key s_hdr while s.H has key s: the extension test is case-sensitive |
| DependencyForest.SharedHeaderKey | src/dependency_forest.rs:26-27 | s.h and s.hpp get the same key s_hdr |
| DependencyForest.KeysOf | src/dependency_forest.rs:107 | the dependency keys keep the order and length of the dependencies, one key each |
| DependencyForest.AddUsedBy | src/dependency_forest.rs:112-125 | the `used_by` loop keeps every key of the table and leaves every dependency key in it |
| DependencyForest.Ingest | src/dependency_forest.rs:82-129 | the build step never removes a key; a processed file with a key leaves its own key and every dependency's key in the table |
| DependencyForest.IngestAll | src/dependency_forest.rs:71-78 | building over a walk never removes a key |
| DependencyForest.IngestSkips | src/dependency_forest.rs:86-94 | a file with an extension outside the six, or without a key, leaves the table unchanged |
| DependencyForest.AddUsedByAt | src/dependency_forest.rs:112-125 | after the `used_by` loop, a key is in the table exactly when it was before or is a dependency key, and its node has kf appended once per occurrence |
| DependencyForest.AddUsedByEffect | src/dependency_forest.rs:112-125 | the `used_by` loop adds exactly the dependency keys to the table and appends kf to each node once per occurrence of its key |
| DependencyForest.IngestEffect | src/dependency_forest.rs:82-129 | full effect of the build step: the file's node gets the stripped path and `uses` replaced by the dependency keys; every dependency node exists and gains the file's key once per occurrence; other paths and `uses` are unchanged |
| DependencyForest.RegisterThenAddUsedBy | src/dependency_forest.rs:100-125 | the same effect, stated for the register-then-loop sequence |
| DependencyForest.IngestKeepsReciprocal | src/dependency_forest.rs:107-121 | the build step keeps the table reciprocal |
| DependencyForest.IngestAllKeepsReciprocal | src/dependency_forest.rs:71-78 | filling from a reciprocal table gives a reciprocal table |
| DependencyForest.AllAdmissiblePrefix | src/dependency_forest.rs:77 | a prefix of an admissible walk is admissible |
| DependencyForest.IngestRecordsRelativePath | src/dependency_forest.rs:105-106 | a file directly under the directory is recorded with its path relative to the directory |
| DependencyForest.IngestUsedByAt | src/dependency_forest.rs:112-122 | the build step seen from one key: membership and `used_by` growth |
| DependencyForest.IngestSingleUse | src/dependency_forest.rs:118-121 | a file with one dependency appends its key to that dependency's `used_by` |
| DependencyForest.UsedByInFileOrder | src/dependency_forest.rs:112-125 | two files that each include d, built in turn, appear in d's `used_by` in that order |
| DependencyForest.SharedKeyBreaksConverse | src/dependency_forest.rs:107 | when two files share a key, the table stays reciprocal but the converse fails |
| DependencyForest.HeaderInDirectory | src/dependency_forest.rs:86-106 | a header directly under a non-empty directory is processed, keyed stem + "_hdr", and recorded by its name |
| DependencyForest.OneLineDeps | src/file_io.rs:58-74 | a file whose one line is a directive, with any whitespace before and after `#include` and any text after the target, has that directive's target as its only dependency |
| DependencyForest.VectorDeps | src/file_io.rs:58-74 | the line `#include <vector>` gives the one dependency "vector" |
| DependencyForest.LetterHeaderExample | tests/integration_test.rs:16 | for a one-letter name c, "dir/c.h" under "dir" is processed, keyed c_hdr and recorded as c.h (the test's a.h and b.h) |
| DependencyForest.VectorUsedByExample | tests/integration_test.rs:16 | after "dir/a.h" and "dir/b.h" (any one-letter names), each including `<vector>`, `vector_hdr` is used by [a_hdr, b_hdr] in that order |
| DependencyForest.Forest.constructor | src/dependency_forest.rs:60-66 | the default forest has no directory and no nodes, and is reciprocal |
| DependencyForest.Forest.FillFromDirectory | src/dependency_forest.rs:71-78 | sets the directory, then applies the build step to each file in walk order; keeps the table reciprocal |
| DependencyForest.Forest.AddIncludesFromFile | src/dependency_forest.rs:82-129 | the new table is the build step applied to the old one, the directory is unchanged, and a reciprocal table stays reciprocal |
| DependencyForest.Forest.RecordFile | src/dependency_forest.rs:98-125 | or_insert of the file's node, path and `uses` set, then the `used_by` loop |
| DependencyForest.Forest.AppendUsedBy | src/dependency_forest.rs:112-125 | the loop appends the file's key to each dependency node in order; its error branch cannot be reached |
| DependencyForest.Forest.Children | src/dependency_forest.rs:137-144 | returns the nodes of the node's `uses`, same length, same order |
| DependencyForest.Forest.GetNodes | src/dependency_forest.rs:146-152 | returns as many nodes as the table holds, each a node of the table and every node of the table among them, one per key in an unspecified key order |
| DependencyForest.Forest.Len | src/simple_graph.rs:16-18 | the length of `get_nodes`, i.e. the number of nodes in the table |
| DependencyForest.ReciprocalChildrenDefined | src/dependency_forest.rs:141 | on a reciprocal table, `children` never indexes a missing key |
| FileIo.GetDeps | src/file_io.rs:54-75 | the targets of the accepted lines, in line order; read errors and rejected lines add nothing; an unopenable file gives none; at most one per line |
| FileIo.IncludeParser | src/file_io.rs:33-45 | an accepted line is `#include` after leading whitespace, with a non-empty target and at least ten characters (the tag and the two delimiters) not returned in target or rest |
| FileIo.DirectiveSkipped | src/file_io.rs:39-40 | leading whitespace then `#include` is consumed |
| FileIo.IncludeParserAccepts | src/file_io.rs:33-45 | every line spelled ws `#include` ws target rest parses to (rest, target) |
| FileIo.IncludeParserSound | src/file_io.rs:33-45 | every accepted line is so spelled, with the returned target and rest |
| FileIo.IncludeParserExact | src/file_io.rs:33-45 | accepts with (rest, h) if and only if the line spells a directive with target h followed by rest |
| FileIo.EmptyTargetRejected | src/file_io.rs:36-37 | `<>` and `""` are rejected whatever the whitespace |
| FileIo.DepsAreTargets | src/file_io.rs:58-74 | every collected dependency is the target of a directive on some line |
| FileIo.ExampleAcceptsAngle | src/file_io.rs:145 | "#include <a0.h>" gives ("", "a0.h") |
| FileIo.ExampleAcceptsQuote | src/file_io.rs:146 | "#include \"b1.h\"" gives ("", "b1.h") |
| FileIo.ExampleAcceptsBlankTarget | src/file_io.rs:135 | "#include < >" is accepted with target " " |
| FileIo.ExampleAcceptsNoSpace | src/file_io.rs:139 | "#include<b.cpp>" is accepted |
| FileIo.ExampleAcceptsIndented | src/file_io.rs:140 | " #include <a.hpp>" is accepted |
| FileIo.ExampleRejectsNoInclude | src/file_io.rs:128 | "noinclude" is rejected |
| FileIo.ExampleRejectsEmptyAngle | src/file_io.rs:129 | "#include <>" is rejected |
| FileIo.ExampleRejectsEmptyQuote | src/file_io.rs:130 | "#include \"\"" is rejected |
| LineScan.LineTarget | src/file_io.rs:61-68 | a line contributes at most one target |
| LineScan.CollectTargetsSingle | src/file_io.rs:60-69 | one line gives exactly its own contribution |
| LineScan.CollectTargetsAppend | src/file_io.rs:60-69 | scanning two runs of lines concatenates their targets |
| LineScan.CollectTargets | src/file_io.rs:60-69 | the per-line loop collects at most one target per line |
| LineScan.CollectTargetsStep | src/file_io.rs:60-69 | one more line adds exactly that line's target at the end |
| LineScan.Deps | src/file_io.rs:54-75 | an opened file gives at most one dependency per line; a file that cannot be opened gives none |
| LineScan.CollectTargetsSound | src/file_io.rs:60-69 | each target comes from some line |
| LibFileIo.GetDeps | src/lib.rs:55-76 | as FileIo.GetDeps, with the older parser |
| LibFileIo.IncludeParser | src/lib.rs:34-46 | an accepted line starts with `#include`, with a non-empty target and at least ten characters not returned in target or rest |
| LibFileIo.IncludeParserAccepts | src/lib.rs:34-46 | `#include` ws target rest, at the start of the line, parses to (rest, target) |
| LibFileIo.IncludeParserSound | src/lib.rs:34-46 | every accepted line is a directive with nothing before `#include` |
| LibFileIo.IncludeParserExact | src/lib.rs:34-46 | accepts with (rest, h) if and only if the line spells such a directive |
| LibFileIo.IndentedRejected | src/lib.rs:41 | a line starting with whitespace is rejected |
| LibFileIo.NewerParserSkipsIndent | src/file_io.rs:39-42 | the newer parser is the older one after `multispace0` |
| LibFileIo.ParsersAgreeUnindented | src/lib.rs:41-43 | the two parsers agree on lines that do not start with whitespace |
| LibFileIo.NewerParserExtends | src/lib.rs:41-43 | whatever the older parser accepts, the newer one accepts with the same result |
| LibFileIo.DepsAreTargets | src/lib.rs:59-70 | every dependency is the target of an unindented directive |
| LibFileIo.ExampleAcceptsAngle | src/lib.rs:41-45 | "#include <a0.h>" gives ("", "a0.h") |
| LibFileIo.ExampleRejectsIndented | src/lib.rs:41 | " #include <a.hpp>" is rejected |
| LibDependencyForest.Keyify | src/lib.rs:162-183 | the inlined `keyify` equals the newer one on every path |
| LibDependencyForest.AddIncludesFromFile | src/lib.rs:221-268 | the same build step on the table, with dependencies from the older parser; a reciprocal table stays reciprocal |
| LibDependencyForest.FillFromDirectory | src/lib.rs:210-217 | sets the directory, folds the build step over the walk, keeps the table reciprocal |
| LibDependencyForest.DepsAgreeUnindented | src/lib.rs:55-76 | on files without indented lines both `get_deps` give the same dependencies |
| LibDependencyForest.IndentedDirectiveDiffers | src/lib.rs:41 | an indented directive is a dependency for the newer `get_deps` only |
| SimpleGraph.Reversed | src/simple_graph.rs:42-44 | the reversal has the same length and puts element i at position n-1-i |
| SimpleGraph.ReversedTwice | src/simple_graph.rs:42-44 | reversing twice gives the list back |
| SimpleGraph.ReversedPermutes | src/simple_graph.rs:42-44 | the result holds every node exactly as often as the node list |
| SimpleGraph.GetTopologicalOrder | src/simple_graph.rs:21-60 | if no node has more children than there are nodes, the result is always Ok(the node list reversed) |
| SimpleGraph.OrderIgnoresEdges | src/simple_graph.rs:21-60 | for a -> b, the node list [a, b] gives Ok([b, a]), child first, and the node list [b, a] gives Ok([a, b]), parent first: the order ignores the edges |
| SimpleGraph.TwoCycleAccepted | src/simple_graph.rs:54-59 | a two-node cycle gives Ok, not "Circular dependency detected!" |
| LibSimpleGraph.GetTopologicalOrder | src/lib.rs:133-140 | the result is a permutation of the nodes, non-decreasing by number of children, and stable: nodes with equally many children keep their order |
| LibSimpleGraph.InsertSorted | src/lib.rs:136 | inserting into a sorted list keeps it sorted |
| LibSimpleGraph.InsertMembers | src/lib.rs:136 | insertion adds exactly the inserted element |
| LibSimpleGraph.InsertFilter | src/lib.rs:136 | insertion puts the element first among those with its key |
| LibSimpleGraph.SortBySorted | src/lib.rs:136 | the sort's result is sorted by key |
| LibSimpleGraph.SortByPermutes | src/lib.rs:136 | the sort's result is a permutation of its input |
| LibSimpleGraph.SortByStable | src/lib.rs:136 | the sort keeps the relative order of elements with equal keys |
| LibSimpleGraph.SortedStableUnique | src/lib.rs:136 | two sorted lists with the same elements per key in the same order are equal |
| LibSimpleGraph.OrderIsTheStableSort | src/lib.rs:136 | any stable sort by number of children (as `sort_by` is) gives exactly this result |
| LibSimpleGraph.LeavesFirst | src/lib.rs:136 | no node with children comes before a node without children |
| RustPath.StemIffFileName | src/dependency_forest.rs:22-23 | a path has a stem exactly when it has a file name; an extension implies a stem |
| RustPath.RSplitFileAtDot | src/dependency_forest.rs:22-23 | with no part before the dot the whole name is the part after; the part before is a prefix of the name; with both parts, the name is before + "." + after and after has no '.' |
| RustPath.FileStem | src/dependency_forest.rs:22 | a stem exists exactly when a file name does, and is a prefix of it |
| RustPath.Extension | src/dependency_forest.rs:23 | an extension has no '.', and the file name is the stem, a '.', and the extension |
| RustPath.SplitAtLastDot | src/dependency_forest.rs:22-23 | a name s.e (s non-empty, no '.' in e) has stem s and extension e |
| RustPath.NoDotName | src/dependency_forest.rs:22-23 | a name without '.', or whose only '.' leads, has no extension |
| RustPath.NoFileNameAfterParent | src/dependency_forest.rs:35-37 | a path ending in "/.." has no file name |
| RustPath.NoFileNameSpecial | src/dependency_forest.rs:35-37 | "", "/", "." and ".." have no file name |
| RustPath.FileNameOfJoin | src/dependency_forest.rs:22-23 | dir/n has file name n |
| RustPath.StripPrefixOfJoin | src/dependency_forest.rs:105-106 | stripping dir from dir/rel gives rel |
| RustPath.StripPrefix | src/dependency_forest.rs:105-106 | stripping succeeds only when the base has no more components than the path, and a path stripped of a base with the same components is empty |
| Nom.Multispace0 | src/file_io.rs:39 | skips a whitespace prefix and stops at a non-whitespace character |
| Nom.Multispace0Skips | src/file_io.rs:39-41 | on whitespace ws followed by a non-whitespace start, exactly ws is skipped |
| Nom.Tag | src/file_io.rs:40 | succeeds exactly on inputs that start with the tag, and returns the rest |
| Nom.SpanNot | src/file_io.rs:36-37 | the longest prefix without the close character stops at that character |
| Nom.DelimitedExact | src/file_io.rs:36-37 | open, non-empty run without close, close, rest parses to (rest, run) |
| Nom.DelimitedShape | src/file_io.rs:36-37 | whatever is accepted has that shape |
| IncludeGrammar.TargetExact | src/file_io.rs:35-38 | both target forms are parsed back exactly |
| IncludeGrammar.TargetShape | src/file_io.rs:35-38 | every accepted target is one of the two forms, non-empty and without its close character |
| IncludeGrammar.TargetRejectsEmpty | src/file_io.rs:36-37 | empty targets are rejected in both forms |

## Left out

- File system I/O: `read_lines`, `ls_apply` and the file opening in `get_deps` are not modelled. The walk is an input sequence of (path, what reading the file gave), and each file is `Opened(lines)` or `OpenError`, with each line `Read(text)` or `ReadError`.
- The order of `fs::read_dir` and of `HashMap` iteration is unspecified. The walk order is an input, and `GetNodes` returns the nodes in some order, with a ghost out-parameter naming it.
- The `recursive` flag of `fill_from_directory` only steers the directory walk, so it is part of the walk input.
- `println!` error reporting is console output. Those branches are modelled as doing nothing else.
- src/main.rs is a hard-coded directory plus printing.
- `include_order` and the crate-root `DependencyForest` used by tests/integration_test.rs and benches/benchmarks.rs are not in the source. Of that test, the `len` call is `Forest.Len` and the `used_by` assertion at tests/integration_test.rs:16 is VectorUsedByExample; the `include_order` assertions are not modelled.
- Non-UTF-8 paths (`to_str().unwrap()`): paths are strings.
- nom internals: each combinator is written directly over strings, in complete-input mode.
- `children` and `get_nodes` in src/lib.rs:276-291 are character-for-character copies of those in src/dependency_forest.rs. The same members `DependencyForest.Forest.Children` and `GetNodes` model both. The `src/lib.rs` build methods work on a `DependencyForest.Forest`.
- DependencyForest.Forest.AddIncludesFromFile: a panicking `unwrap` is modelled as a precondition (`Admissible`): the file must lie under the directory, and every dependency must have a key.
- DependencyForest.Forest.Children: indexing a missing key panics in the source. The precondition requires every used key to be in the table. On a reciprocal table this always holds (ReciprocalChildrenDefined).
- SimpleGraph.GetTopologicalOrder: requires every node to have at most as many children as there are nodes. Otherwise `in_degree[i]` is out of bounds and the source panics. The `i32` counters are unbounded integers. They never go below minus the number of nodes, so they cannot wrap for fewer than 2^31 nodes.
- RustPath.StripPrefix: renders the remaining components joined by single '/' separators. The source returns the original spelling, so for a path with doubled separators or "." components the two differ. The model agrees on clean relative paths (StripPrefixOfJoin).
- LibSimpleGraph.GetTopologicalOrder: the library `sort_by` is modelled by a stable insertion sort. A stable sort's result is unique (OrderIsTheStableSort), so the result is the same, but the merge-sort steps and the in-place update of the vector are not modelled.
