/**
 * The `file_io` module inlined in src/lib.rs: the older `#include` parser,
 * which wants `#include` at the very start of the line, and its `get_deps`.
 */
module LibFileIo {
  import opened Wrappers
  import opened Nom
  import opened LineScan
  import opened IncludeGrammar
  import FileIo

  /** `include_parser`: `#include`, optional whitespace, then a quoted or
    * angle-bracketed target. */
  function IncludeParser(input: string): (r: Option<Parsed>)
    ensures r.Some? ==> "#include" <= input
    ensures r.Some? ==> r.value.output != [] && |r.value.output| + |r.value.rest| + 10 <= |input|
  {
    match Tag("#include", input)
    case None => None
    case Some(input) => Target(Multispace0(input))
  }

  /** `get_deps` over what reading the file gave, with this parser. */
  method GetDeps(file: FileRead) returns (deps: seq<string>)
    ensures deps == Deps(file, IncludeParser)
    ensures file.Opened? ==> |deps| <= |file.lines|
  {
    deps := [];
    match file
    case OpenError =>
      // the source prints "Could not open file."
    case Opened(lines) =>
      for i := 0 to |lines|
        invariant deps == CollectTargets(lines[..i], IncludeParser)
      {
        CollectTargetsStep(lines, i, IncludeParser);
        match lines[i]
        case ReadError =>
        case Read(line) =>
          var output := IncludeParser(line);
          if output.Some? {
            deps := deps + [output.value.output];
          }
      }
      assert lines[..|lines|] == lines;
  }

  /** Every unindented directive of the grammar is accepted. */
  lemma IncludeParserAccepts(ws2: string, d: Delim, h: string, rest: string)
    requires AllMultispace(ws2) && ValidTarget(d, h)
    ensures IncludeParser(IncludeLine("", ws2, d, h, rest)) == Some(Parsed(rest, h))
  {
    var target := Enclose(d, h) + rest;
    var after := ws2 + target;
    var line := IncludeLine("", ws2, d, h, rest);
    assert line == "#include" + after;
    assert line[..|"#include"|] == "#include";
    assert line[|"#include"|..] == after;
    assert Tag("#include", line) == Some(after);
    assert target[0] == Open(d);
    Multispace0Skips(ws2, target);
    TargetExact(d, h, rest);
  }

  /** Whatever is accepted is an unindented directive of the grammar. */
  lemma IncludeParserSound(line: string)
    requires IncludeParser(line).Some?
    ensures var p := IncludeParser(line).value;
      exists ws2, d :: Spells(line, "", ws2, d, p.output, p.rest)
  {
    var p := IncludeParser(line).value;
    var b := Tag("#include", line).value;
    assert line == "#include" + b;
    var c := Multispace0(b);
    var ws2 := LeadingSpace(b);
    assert Target(c) == Some(p);
    TargetShape(c);
    var d :| ValidTarget(d, p.output) && c == Enclose(d, p.output) + p.rest;
    calc {
      line;
      "" + ("#include" + (ws2 + (Enclose(d, p.output) + p.rest)));
      { IncludeLineNested("", ws2, d, p.output, p.rest); }
      IncludeLine("", ws2, d, p.output, p.rest);
    }
    assert Spells(line, "", ws2, d, p.output, p.rest);
  }

  /** The parser accepts a line with target h and remainder rest exactly
    * when the line spells such a directive with nothing before `#include`. */
  lemma IncludeParserExact(line: string, h: string, rest: string)
    ensures IncludeParser(line) == Some(Parsed(rest, h))
        <==> exists ws2, d :: Spells(line, "", ws2, d, h, rest)
  {
    if IncludeParser(line) == Some(Parsed(rest, h)) {
      IncludeParserSound(line);
    }
    if exists ws2, d :: Spells(line, "", ws2, d, h, rest) {
      var ws2, d :| Spells(line, "", ws2, d, h, rest);
      IncludeParserAccepts(ws2, d, h, rest);
    }
  }

  /** A line that starts with whitespace is always rejected. */
  lemma IndentedRejected(line: string)
    requires line != [] && IsMultispace(line[0])
    ensures IncludeParser(line) == None
  {
    assert line[0] != "#include"[0];
  }

  /** The newer parser of src/file_io.rs is this one after skipping leading whitespace. */
  lemma NewerParserSkipsIndent(line: string)
    ensures FileIo.IncludeParser(line) == IncludeParser(Multispace0(line))
  {
  }

  /** Both parsers agree on every line that does not start with whitespace. */
  lemma ParsersAgreeUnindented(line: string)
    requires line == [] || !IsMultispace(line[0])
    ensures FileIo.IncludeParser(line) == IncludeParser(line)
  {
    Multispace0Skips("", line);
    assert "" + line == line;
  }

  /** Whatever the older parser accepts, the newer one accepts with the same result. */
  lemma NewerParserExtends(line: string)
    requires IncludeParser(line).Some?
    ensures FileIo.IncludeParser(line) == IncludeParser(line)
  {
    var b := Tag("#include", line).value;
    assert line == "#include" + b;
    assert line[0] == '#';
    ParsersAgreeUnindented(line);
  }

  /** Every dependency `get_deps` collects is the target of an unindented directive. */
  lemma DepsAreTargets(lines: seq<LineRead>, j: nat)
    requires j < |CollectTargets(lines, IncludeParser)|
    ensures var t := CollectTargets(lines, IncludeParser)[j];
      exists i, ws2, d, rest :: 0 <= i < |lines| && lines[i].Read?
        && Spells(lines[i].text, "", ws2, d, t, rest)
  {
    var t := CollectTargets(lines, IncludeParser)[j];
    CollectTargetsSound(lines, IncludeParser, j);
    var i :| 0 <= i < |lines| && LineTarget(lines[i], IncludeParser) == [t];
    var p := IncludeParser(lines[i].text).value;
    IncludeParserSound(lines[i].text);
    var ws2, d :| Spells(lines[i].text, "", ws2, d, p.output, p.rest);
  }

  /** The older parser accepts the unindented directive of the unit tests. */
  lemma ExampleAcceptsAngle()
    ensures IncludeParser("#include <a0.h>") == Some(Parsed("", "a0.h"))
  {
    assert IncludeLine("", " ", Angle, "a0.h", "") == "#include <a0.h>";
    IncludeParserAccepts(" ", Angle, "a0.h", "");
  }

  /** ... but not the indented one the newer parser accepts. */
  lemma ExampleRejectsIndented()
    ensures IncludeParser(" #include <a.hpp>") == None
  {
    IndentedRejected(" #include <a.hpp>");
  }
}
