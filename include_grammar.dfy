/**
 * The shape of an `#include` directive both include parsers recognise, and
 * the `alt` of the two delimited target forms they share.
 */
module IncludeGrammar {
  import opened Wrappers
  import opened Nom

  /** The two target forms: `"..."` and `<...>`. */
  datatype Delim = Quote | Angle

  function Open(d: Delim): char
  {
    match d
    case Quote => '"'
    case Angle => '<'
  }

  function Close(d: Delim): char
  {
    match d
    case Quote => '"'
    case Angle => '>'
  }

  /** A target the delimited parser accepts between the delimiters of d. */
  predicate ValidTarget(d: Delim, h: string)
  {
    h != [] && Close(d) !in h
  }

  function Enclose(d: Delim, h: string): string
  {
    [Open(d)] + h + [Close(d)]
  }

  /** The directive text `ws1 #include ws2 "h"` (or with <h>), followed by rest. */
  function IncludeLine(ws1: string, ws2: string, d: Delim, h: string, rest: string): string
  {
    ws1 + "#include" + ws2 + Enclose(d, h) + rest
  }

  /** `line` is a directive naming h with delimiters d, whitespace ws1 and ws2, then rest. */
  predicate Spells(line: string, ws1: string, ws2: string, d: Delim, h: string, rest: string)
  {
    AllMultispace(ws1) && AllMultispace(ws2) && ValidTarget(d, h)
    && line == IncludeLine(ws1, ws2, d, h, rest)
  }

  /** The directive text, nested the way the parsers take it apart. */
  lemma IncludeLineNested(ws1: string, ws2: string, d: Delim, h: string, rest: string)
    ensures IncludeLine(ws1, ws2, d, h, rest) == ws1 + ("#include" + (ws2 + (Enclose(d, h) + rest)))
  {
  }

  /** `alt((delimited('"', is_not("\""), '"'), delimited('<', is_not(">"), '>')))`. */
  function Target(s: string): (r: Option<Parsed>)
    ensures r.Some? ==> r.value.output != [] && |r.value.output| + |r.value.rest| + 2 == |s|
  {
    match Delimited('"', '"', s)
    case Some(p) => Some(p)
    case None => Delimited('<', '>', s)
  }

  /** A well-formed target in either form is parsed back exactly. */
  lemma TargetExact(d: Delim, h: string, rest: string)
    requires ValidTarget(d, h)
    ensures Target(Enclose(d, h) + rest) == Some(Parsed(rest, h))
  {
    var s := Enclose(d, h) + rest;
    assert s == [Open(d)] + h + [Close(d)] + rest;
    DelimitedExact(Open(d), Close(d), h, rest);
  }

  /** Whatever Target accepts is a well-formed target in one of the two forms. */
  lemma TargetShape(s: string)
    requires Target(s).Some?
    ensures var p := Target(s).value;
      exists d :: ValidTarget(d, p.output) && s == Enclose(d, p.output) + p.rest
  {
    var p := Target(s).value;
    if Delimited('"', '"', s).Some? {
      DelimitedShape('"', '"', s);
      assert s == Enclose(Quote, p.output) + p.rest;
    } else {
      DelimitedShape('<', '>', s);
      assert s == Enclose(Angle, p.output) + p.rest;
    }
  }

  /** An empty target is rejected in both forms. */
  lemma TargetRejectsEmpty(d: Delim, rest: string)
    ensures Target(Enclose(d, "") + rest) == None
  {
    var s := Enclose(d, "") + rest;
    assert s[1..] == [Close(d)] + rest;
    assert SpanNot(s[1..], Close(d)) == 0;
  }
}
