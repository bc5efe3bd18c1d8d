/**
 * What `read_lines` hands to `get_deps`, and the fold `get_deps` performs
 * over it: one include target per accepted line, in line order.
 */
module LineScan {
  import opened Wrappers
  import opened Nom

  /** One item of `io::Lines`: a line, or an error reading it (which is skipped). */
  datatype LineRead = Read(text: string) | ReadError

  /** The outcome of `read_lines(filename)`: the file's lines, or an open error. */
  datatype FileRead = Opened(lines: seq<LineRead>) | OpenError

  /** The target one line contributes under `parser`. */
  function LineTarget(l: LineRead, parser: string -> Option<Parsed>): (r: seq<string>)
    ensures |r| <= 1
  {
    match l
    case ReadError => []
    case Read(text) =>
      match parser(text)
      case Some(p) => [p.output]
      case None => []
  }

  /** The targets of the lines `parser` accepts, in line order. */
  function CollectTargets(lines: seq<LineRead>, parser: string -> Option<Parsed>): (ts: seq<string>)
    ensures |ts| <= |lines|
  {
    if lines == [] then []
    else CollectTargets(lines[..|lines| - 1], parser) + LineTarget(lines[|lines| - 1], parser)
  }

  /** `get_deps` as a function of what reading the file gave. */
  function Deps(file: FileRead, parser: string -> Option<Parsed>): (deps: seq<string>)
    ensures file.Opened? ==> |deps| <= |file.lines|
    ensures file.OpenError? ==> deps == []
  {
    match file
    case OpenError => []
    case Opened(lines) => CollectTargets(lines, parser)
  }

  /** Scanning one more line adds that line's target. */
  lemma CollectTargetsStep(lines: seq<LineRead>, i: nat, parser: string -> Option<Parsed>)
    requires i < |lines|
    ensures CollectTargets(lines[..i + 1], parser)
      == CollectTargets(lines[..i], parser) + LineTarget(lines[i], parser)
  {
    assert lines[..i + 1][..i] == lines[..i];
  }

  /** A single line gives exactly what it contributes. */
  lemma CollectTargetsSingle(l: LineRead, parser: string -> Option<Parsed>)
    ensures CollectTargets([l], parser) == LineTarget(l, parser)
  {
    assert [l][..0] == [];
  }

  /** Scanning two runs of lines one after the other concatenates their targets. */
  lemma {:induction false} CollectTargetsAppend(a: seq<LineRead>, b: seq<LineRead>, parser: string -> Option<Parsed>)
    ensures CollectTargets(a + b, parser) == CollectTargets(a, parser) + CollectTargets(b, parser)
    decreases |b|
  {
    if b == [] {
      assert a + b == a;
    } else {
      var b' := b[..|b| - 1];
      assert (a + b)[..|a + b| - 1] == a + b';
      assert (a + b)[|a + b| - 1] == b[|b| - 1];
      CollectTargetsAppend(a, b', parser);
    }
  }

  /** Every collected target is what some line contributes. */
  lemma {:induction false} CollectTargetsSound(lines: seq<LineRead>, parser: string -> Option<Parsed>, j: nat)
    requires j < |CollectTargets(lines, parser)|
    ensures exists i :: 0 <= i < |lines| && LineTarget(lines[i], parser) == [CollectTargets(lines, parser)[j]]
    decreases |lines|
  {
    var init := lines[..|lines| - 1];
    var last := lines[|lines| - 1];
    if j < |CollectTargets(init, parser)| {
      CollectTargetsSound(init, parser, j);
      var i :| 0 <= i < |init| && LineTarget(init[i], parser) == [CollectTargets(init, parser)[j]];
      assert lines[i] == init[i];
    } else {
      assert lines[|lines| - 1] == last;
    }
  }
}
