/**
 * src/file_io.rs: the `#include` line parser (whitespace allowed before the
 * directive) and `get_deps`, which collects the target of every accepted line.
 */
module FileIo {
  import opened Wrappers
  import opened Nom
  import opened LineScan
  import opened IncludeGrammar

  /** `include_parser`: optional whitespace, `#include`, optional whitespace,
    * then a quoted or angle-bracketed target. */
  function IncludeParser(input: string): (r: Option<Parsed>)
    ensures r.Some? ==> "#include" <= Multispace0(input)
    ensures r.Some? ==> r.value.output != [] && |r.value.output| + |r.value.rest| + 10 <= |input|
  {
    var input := Multispace0(input);
    match Tag("#include", input)
    case None => None
    case Some(input) => Target(Multispace0(input))
  }

  /** `get_deps` over what reading the file gave: the targets of the accepted
    * lines, in order; an unopenable file gives no targets. */
  method GetDeps(file: FileRead) returns (deps: seq<string>)
    ensures deps == Deps(file, IncludeParser)
    ensures file.Opened? ==> |deps| <= |file.lines|
  {
    deps := [];
    match file
    case OpenError =>
      // the source prints "Could not open file."
    case Opened(lines) =>
      for i := 0 to |lines|
        invariant deps == CollectTargets(lines[..i], IncludeParser)
      {
        CollectTargetsStep(lines, i, IncludeParser);
        match lines[i]
        case ReadError =>
        case Read(line) =>
          var output := IncludeParser(line);
          if output.Some? {
            deps := deps + [output.value.output];
          }
      }
      assert lines[..|lines|] == lines;
  }

  /** Leading whitespace and the `#include` tag are consumed, leaving what follows. */
  lemma DirectiveSkipped(ws1: string, after: string)
    requires AllMultispace(ws1)
    ensures Tag("#include", Multispace0(ws1 + "#include" + after)) == Some(after)
  {
    var tail := "#include" + after;
    assert ws1 + "#include" + after == ws1 + tail;
    assert tail[0] == '#';
    Multispace0Skips(ws1, tail);
    assert tail[..|"#include"|] == "#include";
    assert tail[|"#include"|..] == after;
  }

  /** Every directive of the grammar is accepted, with its target and the text after it. */
  lemma IncludeParserAccepts(ws1: string, ws2: string, d: Delim, h: string, rest: string)
    requires AllMultispace(ws1) && AllMultispace(ws2) && ValidTarget(d, h)
    ensures IncludeParser(IncludeLine(ws1, ws2, d, h, rest)) == Some(Parsed(rest, h))
  {
    var target := Enclose(d, h) + rest;
    var after := ws2 + target;
    var line := IncludeLine(ws1, ws2, d, h, rest);
    assert line == ws1 + "#include" + after;
    DirectiveSkipped(ws1, after);
    assert Tag("#include", Multispace0(line)) == Some(after);
    assert target[0] == Open(d);
    Multispace0Skips(ws2, target);
    assert Multispace0(after) == target;
    TargetExact(d, h, rest);
    assert Target(target) == Some(Parsed(rest, h));
  }

  /** Whatever is accepted is a directive of the grammar. */
  lemma IncludeParserSound(line: string)
    requires IncludeParser(line).Some?
    ensures var p := IncludeParser(line).value;
      exists ws1, ws2, d :: Spells(line, ws1, ws2, d, p.output, p.rest)
  {
    var p := IncludeParser(line).value;
    var a := Multispace0(line);
    var ws1 := LeadingSpace(line);
    assert Tag("#include", a).Some?;
    var b := Tag("#include", a).value;
    assert a == "#include" + b;
    var c := Multispace0(b);
    var ws2 := LeadingSpace(b);
    assert Target(c) == Some(p);
    TargetShape(c);
    var d :| ValidTarget(d, p.output) && c == Enclose(d, p.output) + p.rest;
    calc {
      line;
      ws1 + ("#include" + (ws2 + (Enclose(d, p.output) + p.rest)));
      { IncludeLineNested(ws1, ws2, d, p.output, p.rest); }
      IncludeLine(ws1, ws2, d, p.output, p.rest);
    }
    assert Spells(line, ws1, ws2, d, p.output, p.rest);
  }

  /** The parser accepts a line with target h and remainder rest exactly
    * when the line spells such a directive. */
  lemma IncludeParserExact(line: string, h: string, rest: string)
    ensures IncludeParser(line) == Some(Parsed(rest, h))
        <==> exists ws1, ws2, d :: Spells(line, ws1, ws2, d, h, rest)
  {
    if IncludeParser(line) == Some(Parsed(rest, h)) {
      IncludeParserSound(line);
    }
    if exists ws1, ws2, d :: Spells(line, ws1, ws2, d, h, rest) {
      var ws1, ws2, d :| Spells(line, ws1, ws2, d, h, rest);
      IncludeParserAccepts(ws1, ws2, d, h, rest);
    }
  }

  /** `<>` and `""` are rejected, whatever surrounds them. */
  lemma EmptyTargetRejected(ws1: string, ws2: string, d: Delim, rest: string)
    requires AllMultispace(ws1) && AllMultispace(ws2)
    ensures IncludeParser(ws1 + "#include" + ws2 + Enclose(d, "") + rest) == None
  {
    var target := Enclose(d, "") + rest;
    var after := ws2 + target;
    var line := ws1 + "#include" + ws2 + Enclose(d, "") + rest;
    assert line == ws1 + "#include" + after;
    DirectiveSkipped(ws1, after);
    assert Tag("#include", Multispace0(line)) == Some(after);
    assert target[0] == Open(d);
    Multispace0Skips(ws2, target);
    assert Multispace0(after) == target;
    TargetRejectsEmpty(d, rest);
    assert Target(target) == None;
  }

  /** Every dependency `get_deps` collects is the target of one of the lines. */
  lemma DepsAreTargets(lines: seq<LineRead>, j: nat)
    requires j < |CollectTargets(lines, IncludeParser)|
    ensures var t := CollectTargets(lines, IncludeParser)[j];
      exists i, ws1, ws2, d, rest :: 0 <= i < |lines| && lines[i].Read?
        && Spells(lines[i].text, ws1, ws2, d, t, rest)
  {
    var t := CollectTargets(lines, IncludeParser)[j];
    CollectTargetsSound(lines, IncludeParser, j);
    var i :| 0 <= i < |lines| && LineTarget(lines[i], IncludeParser) == [t];
    var p := IncludeParser(lines[i].text).value;
    IncludeParserSound(lines[i].text);
    var ws1, ws2, d :| Spells(lines[i].text, ws1, ws2, d, p.output, p.rest);
  }

  // The unit tests of the source, one lemma each.

  lemma ExampleAcceptsAngle()
    ensures IncludeParser("#include <a0.h>") == Some(Parsed("", "a0.h"))
  {
    assert IncludeLine("", " ", Angle, "a0.h", "") == "#include <a0.h>";
    IncludeParserAccepts("", " ", Angle, "a0.h", "");
  }

  lemma ExampleAcceptsQuote()
    ensures IncludeParser("#include \"b1.h\"") == Some(Parsed("", "b1.h"))
  {
    assert IncludeLine("", " ", Quote, "b1.h", "") == "#include \"b1.h\"";
    IncludeParserAccepts("", " ", Quote, "b1.h", "");
  }

  lemma ExampleAcceptsBlankTarget()
    ensures IncludeParser("#include < >") == Some(Parsed("", " "))
  {
    assert IncludeLine("", " ", Angle, " ", "") == "#include < >";
    IncludeParserAccepts("", " ", Angle, " ", "");
  }

  lemma ExampleAcceptsNoSpace()
    ensures IncludeParser("#include<b.cpp>") == Some(Parsed("", "b.cpp"))
  {
    assert IncludeLine("", "", Angle, "b.cpp", "") == "#include<b.cpp>";
    IncludeParserAccepts("", "", Angle, "b.cpp", "");
  }

  lemma ExampleAcceptsIndented()
    ensures IncludeParser(" #include <a.hpp>") == Some(Parsed("", "a.hpp"))
  {
    assert IncludeLine(" ", " ", Angle, "a.hpp", "") == " #include <a.hpp>";
    IncludeParserAccepts(" ", " ", Angle, "a.hpp", "");
  }

  lemma ExampleRejectsNoInclude()
    ensures IncludeParser("noinclude") == None
  {
    Multispace0Skips("", "noinclude");
    assert "noinclude"[0] != "#include"[0];
  }

  lemma ExampleRejectsEmptyAngle()
    ensures IncludeParser("#include <>") == None
  {
    assert "" + "#include" + " " + Enclose(Angle, "") + "" == "#include <>";
    EmptyTargetRejected("", " ", Angle, "");
  }

  lemma ExampleRejectsEmptyQuote()
    ensures IncludeParser("#include \"\"") == None
  {
    assert "" + "#include" + " " + Enclose(Quote, "") + "" == "#include \"\"";
    EmptyTargetRejected("", " ", Quote, "");
  }
}
