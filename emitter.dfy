/**
  The edge-list text report: a header line, then one "(from, to, weight)"
  line per edge in input order, every number in signed decimal.
 */
module Emitter {
  import opened Wire
  import opened Optional
  import opened Decoder
  import opened DecimalText

  /** The first line of every report. */
  const ReportHeader: string := "Список ребер графа:"

  /** One report line; indices are printed as stored, zero-based. */
  function FormatEdge(e: Edge): string {
    "(" + Decimal(e.from) + ", " + Decimal(e.to) + ", " + Decimal(e.weight) + ")"
  }

  /** `lines` is the report of `edges`: the header, then each edge's line in order. */
  predicate IsReportOf(lines: seq<string>, edges: seq<Edge>) {
    && |lines| == 1 + |edges|
    && lines[0] == ReportHeader
    && forall i :: 0 <= i < |edges| ==> lines[i + 1] == FormatEdge(edges[i])
  }

  /** f applied to each element of s, in order, built from the front as a writer appends. */
  function MapLines<T>(f: T -> string, s: seq<T>): (lines: seq<string>)
    ensures |lines| == |s|
  {
    if s == [] then [] else MapLines(f, s[..|s| - 1]) + [f(s[|s| - 1])]
  }

  lemma {:induction false} MapLinesAt<T>(f: T -> string, s: seq<T>)
    ensures forall j :: 0 <= j < |s| ==> MapLines(f, s)[j] == f(s[j])
    decreases |s|
  {
    if s != [] {
      var init := s[..|s| - 1];
      MapLinesAt(f, init);
      assert forall j :: 0 <= j < |init| ==> init[j] == s[j];
    }
  }

  /** The header followed by the edge lines, in order, is the report of the edges. */
  lemma ReportOfEdgeLines(edges: seq<Edge>)
    ensures IsReportOf([ReportHeader] + MapLines(FormatEdge, edges), edges)
  {
    MapLinesAt(FormatEdge, edges);
  }

  /**
    writeEdges with the output file replaced by the sequence of lines written
    to it (each is terminated by a newline in the file).
   */
  method WriteEdges(edges: seq<Edge>) returns (lines: seq<string>)
    ensures IsReportOf(lines, edges)
  {
    lines := [ReportHeader];
    var i := 0;
    while i < |edges|
      invariant 0 <= i <= |edges|
      invariant lines == [ReportHeader] + MapLines(FormatEdge, edges[..i])
    {
      assert edges[..i + 1][..i] == edges[..i];
      assert MapLines(FormatEdge, edges[..i + 1]) == MapLines(FormatEdge, edges[..i]) + [FormatEdge(edges[i])];
      lines := lines + [FormatEdge(edges[i])];
      i := i + 1;
    }
    assert edges[..i] == edges;
    ReportOfEdgeLines(edges);
  }

  // Reading a report back, to show that it determines the edges it lists.

  /** Splits text at every ','; there is always at least one part. */
  function SplitOnComma(s: string): (parts: seq<string>)
    ensures |parts| >= 1
    decreases |s|
  {
    if s == [] then [[]]
    else
      var rest := SplitOnComma(s[1..]);
      if s[0] == ',' then [[]] + rest else [[s[0]] + rest[0]] + rest[1..]
  }

  function ParseInt16(s: string): Option<Int16> {
    match ParseDecimal(s)
    case Some(x) => if -0x8000 <= x < 0x8000 then Some(x) else None
    case None => None
  }

  /** Reads the "a, b, c" between the parentheses of an edge line. */
  function ParseFields(inner: string): Option<Edge> {
    var parts := SplitOnComma(inner);
    if |parts| != 3 || |parts[1]| == 0 || parts[1][0] != ' ' || |parts[2]| == 0 || parts[2][0] != ' ' then None
    else
      match (ParseInt16(parts[0]), ParseInt16(parts[1][1..]), ParseInt16(parts[2][1..]))
      case (Some(from), Some(to), Some(weight)) => Some(Edge(from, to, weight))
      case _ => None
  }

  /** Reads a line of the form "(a, b, c)". */
  function ParseEdgeLine(line: string): Option<Edge> {
    if |line| < 2 || line[0] != '(' || line[|line| - 1] != ')' then None
    else ParseFields(line[1..|line| - 1])
  }

  function ParseEdgeLines(lines: seq<string>): Option<seq<Edge>> {
    if lines == [] then Some([])
    else
      match (ParseEdgeLine(lines[0]), ParseEdgeLines(lines[1..]))
      case (Some(e), Some(es)) => Some([e] + es)
      case _ => None
  }

  /** Reads a whole report: the header, then edge lines. */
  function ParseReport(lines: seq<string>): Option<seq<Edge>> {
    if |lines| == 0 || lines[0] != ReportHeader then None else ParseEdgeLines(lines[1..])
  }

  /** s holds no ','. */
  predicate NoComma(s: string) {
    forall i :: 0 <= i < |s| ==> s[i] != ','
  }

  lemma NoCommaInDecimal(x: int)
    ensures NoComma(Decimal(x))
  {
    DecimalShape(x);
    assert forall i :: 1 <= i < |Decimal(x)| ==> Decimal(x)[1..][i - 1] == Decimal(x)[i];
  }

  lemma {:induction false} SplitOnCommaNoComma(a: string)
    requires NoComma(a)
    ensures SplitOnComma(a) == [a]
    decreases |a|
  {
    if a != [] {
      SplitOnCommaNoComma(a[1..]);
      assert [a[0]] + a[1..] == a;
    }
  }

  lemma {:induction false} SplitOnCommaFirst(a: string, b: string)
    requires NoComma(a)
    ensures SplitOnComma(a + [','] + b) == [a] + SplitOnComma(b)
    decreases |a|
  {
    if a == [] {
      assert (a + [','] + b)[1..] == b;
    } else {
      assert (a + [','] + b)[1..] == a[1..] + [','] + b;
      SplitOnCommaFirst(a[1..], b);
      assert [a[0]] + a[1..] == a;
    }
  }

  lemma ParseInt16OfDecimal(x: Int16)
    ensures ParseInt16(Decimal(x)) == Some(x)
  {
    ParseDecimalOfDecimal(x);
  }

  lemma NoCommaAfterSpace(t: string)
    requires NoComma(t)
    ensures NoComma(" " + t)
  {
  }

  lemma Regroup(f: string, t: string, w: string)
    ensures f + ", " + t + ", " + w == f + [','] + ((" " + t) + [','] + (" " + w))
  {
    assert ", " == [','] + " ";
  }

  lemma SplitThreeFields(f: string, t: string, w: string)
    requires NoComma(f) && NoComma(t) && NoComma(w)
    ensures SplitOnComma(f + ", " + t + ", " + w) == [f, " " + t, " " + w]
  {
    var st, sw := " " + t, " " + w;
    NoCommaAfterSpace(t);
    NoCommaAfterSpace(w);
    var rest := st + [','] + sw;
    calc {
      SplitOnComma(f + ", " + t + ", " + w);
      { Regroup(f, t, w); }
      SplitOnComma(f + [','] + rest);
      { SplitOnCommaFirst(f, rest); }
      [f] + SplitOnComma(rest);
      { SplitOnCommaFirst(st, sw); SplitOnCommaNoComma(sw); }
      [f] + ([st] + [sw]);
    }
  }

  lemma ParseEdgeLineUnwrap(inner: string)
    ensures ParseEdgeLine("(" + inner + ")") == ParseFields(inner)
  {
    var line := "(" + inner + ")";
    assert line[1..|line| - 1] == inner;
  }

  /** An edge line reads back as the edge it was made from. */
  lemma ParseFormatEdge(e: Edge)
    ensures ParseEdgeLine(FormatEdge(e)) == Some(e)
  {
    var f, t, w := Decimal(e.from), Decimal(e.to), Decimal(e.weight);
    var inner := f + ", " + t + ", " + w;
    assert FormatEdge(e) == "(" + inner + ")";
    ParseEdgeLineUnwrap(inner);
    NoCommaInDecimal(e.from);
    NoCommaInDecimal(e.to);
    NoCommaInDecimal(e.weight);
    SplitThreeFields(f, t, w);
    var parts := SplitOnComma(inner);
    assert parts[1][1..] == t;
    assert parts[2][1..] == w;
    ParseInt16OfDecimal(e.from);
    ParseInt16OfDecimal(e.to);
    ParseInt16OfDecimal(e.weight);
  }

  lemma {:induction false} ParseEdgeLinesOf(body: seq<string>, edges: seq<Edge>)
    requires |body| == |edges|
    requires forall i :: 0 <= i < |edges| ==> body[i] == FormatEdge(edges[i])
    ensures ParseEdgeLines(body) == Some(edges)
    decreases |edges|
  {
    if edges != [] {
      ParseFormatEdge(edges[0]);
      ParseEdgeLinesOf(body[1..], edges[1..]);
      assert [edges[0]] + edges[1..] == edges;
    }
  }

  /**
    A report lists its edges faithfully: reading it back gives exactly the
    edges, in order, with every number intact.
   */
  lemma ParseReportOf(lines: seq<string>, edges: seq<Edge>)
    requires IsReportOf(lines, edges)
    ensures ParseReport(lines) == Some(edges)
  {
    ParseEdgeLinesOf(lines[1..], edges);
  }

  /** So two different edge lists never produce the same report. */
  lemma ReportDeterminesEdges(lines: seq<string>, e1: seq<Edge>, e2: seq<Edge>)
    requires IsReportOf(lines, e1) && IsReportOf(lines, e2)
    ensures e1 == e2
  {
    ParseReportOf(lines, e1);
    ParseReportOf(lines, e2);
  }

  /** Example: the edges (0, 1, 10) and (1, 0, -5) give exactly these lines. */
  lemma ReportExample(lines: seq<string>)
    requires IsReportOf(lines, [Edge(0, 1, 10), Edge(1, 0, -5)])
    ensures lines == [ReportHeader, "(0, 1, 10)", "(1, 0, -5)"]
  {
    var edges := [Edge(0, 1, 10), Edge(1, 0, -5)];
    assert lines[0 + 1] == FormatEdge(edges[0]);
    assert lines[1 + 1] == FormatEdge(edges[1]);
    assert Decimal(0) == "0";
    assert Decimal(1) == "1";
    assert Decimal(10) == "10";
    assert Decimal(-5) == "-5";
    assert FormatEdge(edges[0]) == "(0, 1, 10)";
    assert FormatEdge(edges[1]) == "(1, 0, -5)";
  }

  /** Example: the least int16 weight is printed in full, with its sign. */
  lemma MinWeightExample()
    ensures FormatEdge(Edge(0, 0, -0x8000)) == "(0, 0, -32768)"
  {
    assert Decimal(0) == "0";
    assert Digits(327) == "327";
    assert Digits(32768) == "32768";
    assert Decimal(-0x8000) == "-32768";
  }
}
