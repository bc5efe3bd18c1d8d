/**
 * The few `nom` combinators the include parsers are built from, each
 * written directly as a function over strings (complete-input mode).
 */
module Nom {
  import opened Wrappers

  /** What a successful nom parser gives back: the unconsumed input and its output. */
  datatype Parsed = Parsed(rest: string, output: string)

  /** The characters `multispace0` skips. */
  predicate IsMultispace(c: char)
  {
    c == ' ' || c == '\t' || c == '\r' || c == '\n'
  }

  predicate AllMultispace(s: string)
  {
    forall i :: 0 <= i < |s| ==> IsMultispace(s[i])
  }

  /** The number of whitespace characters s starts with. */
  function SpaceCount(s: string): (n: nat)
    ensures n <= |s|
    ensures forall i :: 0 <= i < n ==> IsMultispace(s[i])
    ensures n < |s| ==> !IsMultispace(s[n])
  {
    if s != [] && IsMultispace(s[0]) then 1 + SpaceCount(s[1..]) else 0
  }

  /** `multispace0`: never fails, skips the longest run of whitespace. */
  function Multispace0(s: string): (rest: string)
    ensures |rest| <= |s| && rest == s[|s| - |rest|..]
    ensures AllMultispace(s[..|s| - |rest|])
    ensures rest == [] || !IsMultispace(rest[0])
  {
    s[SpaceCount(s)..]
  }

  /** The whitespace `multispace0` skips. */
  function LeadingSpace(s: string): (ws: string)
    ensures AllMultispace(ws) && s == ws + Multispace0(s)
  {
    var k := SpaceCount(s);
    assert s == s[..k] + s[k..];
    s[..k]
  }

  /** `tag(t)`: the input must start with t. */
  function Tag(t: string, s: string): (r: Option<string>)
    ensures r.Some? <==> t <= s
    ensures r.Some? ==> s == t + r.value
  {
    if t <= s then Some(s[|t|..]) else None
  }

  /** Length of the longest prefix of s that does not contain c. */
  function SpanNot(s: string, c: char): (n: nat)
    ensures n <= |s| && c !in s[..n]
    ensures n < |s| ==> s[n] == c
  {
    if s == [] || s[0] == c then 0
    else
      var n := SpanNot(s[1..], c);
      assert s[..n + 1] == [s[0]] + s[1..][..n];
      n + 1
  }

  /** `delimited(char(open), is_not([close]), char(close))`: the open
    * character, a non-empty run without the close character, then the close
    * character. */
  function Delimited(open: char, close: char, s: string): (r: Option<Parsed>)
    ensures r.Some? ==> r.value.output != [] && |r.value.output| + |r.value.rest| + 2 == |s|
  {
    if s == [] || s[0] != open then None
    else
      var n := SpanNot(s[1..], close);
      if n == 0 then None              // is_not accepts no empty run
      else if n + 1 == |s| then None   // the close character is missing
      else Some(Parsed(s[n + 2..], s[1..n + 1]))
  }

  /** Multispace0 skips a whitespace prefix and stops at anything else. */
  lemma Multispace0Skips(ws: string, s: string)
    requires AllMultispace(ws)
    requires s == [] || !IsMultispace(s[0])
    ensures Multispace0(ws + s) == s
  {
    var t := ws + s;
    assert SpaceCount(t) == |ws|;
    assert t[|ws|..] == s;
  }

  /** The span without c stops exactly at the first c. */
  lemma {:induction false} SpanNotStops(h: string, c: char, tail: string)
    requires c !in h
    ensures SpanNot(h + [c] + tail, c) == |h|
    decreases |h|
  {
    var s := h + [c] + tail;
    if h != [] {
      assert s[0] == h[0] && h[0] in h;
      assert s[1..] == h[1..] + [c] + tail;
      SpanNotStops(h[1..], c, tail);
    }
  }

  /** A delimited run is parsed back exactly. */
  lemma DelimitedExact(open: char, close: char, h: string, rest: string)
    requires h != [] && close !in h
    ensures Delimited(open, close, [open] + h + [close] + rest) == Some(Parsed(rest, h))
  {
    var s := [open] + h + [close] + rest;
    assert s[1..] == h + [close] + rest;
    SpanNotStops(h, close, rest);
    var n := SpanNot(s[1..], close);
    assert s[n + 2..] == rest;
    assert s[1..n + 1] == h;
  }

  /** What a successful Delimited consumed. */
  lemma DelimitedShape(open: char, close: char, s: string)
    requires Delimited(open, close, s).Some?
    ensures var p := Delimited(open, close, s).value;
      p.output != [] && close !in p.output && s == [open] + p.output + [close] + p.rest
  {
    var n := SpanNot(s[1..], close);
    assert s[1..][..n] == s[1..n + 1];
    assert s == [s[0]] + s[1..n + 1] + [s[n + 1]] + s[n + 2..];
  }
}
