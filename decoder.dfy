/**
  The binary graph decoder: an int16 vertex count followed by zero or more
  (from, to, weight) int16 triples, read until the input ends.
 */
module Decoder {
  import opened Wire

  /** A directed weighted edge; no identity beyond its triple. */
  datatype Edge = Edge(from: Int16, to: Int16, weight: Int16)

  /** The record field whose read hit the end of the input. */
  datatype Field = From | To | Weight

  datatype DecodeError =
    | TruncatedHeader
    | TruncatedRecord(field: Field)
    | BadIndex(from: Int16, to: Int16)

  /** A decoded graph, or the error that abandoned the decode (no edges then). */
  datatype Decoded =
    | Success(numVertices: Int16, edges: seq<Edge>)
    | Failure(error: DecodeError)

  /** The edges decoded from the record area, or the first error met there. */
  datatype RecordsResult = Records(edges: seq<Edge>) | Rejected(error: DecodeError)

  /** Both endpoints lie in [0, n). The weight is never checked. */
  predicate ValidEdge(n: int, e: Edge) {
    0 <= e.from < n && 0 <= e.to < n
  }

  /** Every edge has both endpoints in [0, n). */
  predicate AllValid(n: int, es: seq<Edge>) {
    forall i :: 0 <= i < |es| ==> ValidEdge(n, es[i])
  }

  /** The k-th complete record of a record area. */
  function EdgeAt(rs: seq<Byte>, k: nat): Edge
    requires 6 * k + 6 <= |rs|
  {
    Edge(Int16At(rs, 6 * k), Int16At(rs, 6 * k + 2), Int16At(rs, 6 * k + 4))
  }

  /** The field being read when a record area ends `rest` bytes into a record (1 <= rest <= 5). */
  function MissingField(rest: nat): Field {
    if rest < 2 then From else if rest < 4 then To else Weight
  }

  /** Prefixes already accepted edges to the outcome of the rest of the input. */
  function Prepend(es: seq<Edge>, r: RecordsResult): RecordsResult {
    match r
    case Records(more) => Records(es + more)
    case Rejected(e) => Rejected(e)
  }

  /**
    Reference definition of the record area: records are taken in order, each
    checked as soon as it is complete; the first truncation or bad index wins.
   */
  function DecodeRecords(n: Int16, rs: seq<Byte>): (r: RecordsResult)
    decreases |rs|
    ensures r.Records? ==> 6 * |r.edges| == |rs|
    ensures r.Records? ==> AllValid(n, r.edges)
    ensures r.Rejected? ==> !r.error.TruncatedHeader?
  {
    if |rs| == 0 then Records([])
    else if |rs| < 6 then Rejected(TruncatedRecord(MissingField(|rs|)))
    else
      var e := EdgeAt(rs, 0);
      if !ValidEdge(n, e) then Rejected(BadIndex(e.from, e.to))
      else Prepend([e], DecodeRecords(n, rs[6..]))
  }

  /**
    Reference definition of the whole decode. Only an input shorter than two
    bytes is a header error; a success keeps the header value and exactly one
    valid edge per six bytes after it.
   */
  function Decode(bs: seq<Byte>): (r: Decoded)
    ensures (r.Failure? && r.error.TruncatedHeader?) <==> |bs| < 2
    ensures r.Success? ==> |bs| == 2 + 6 * |r.edges| && r.numVertices == Int16At(bs, 0)
    ensures r.Success? ==> AllValid(r.numVertices, r.edges)
  {
    if |bs| < 2 then Failure(TruncatedHeader)
    else
      match DecodeRecords(Int16At(bs, 0), bs[2..])
      case Records(es) => Success(Int16At(bs, 0), es)
      case Rejected(e) => Failure(e)
  }

  /**
    readGraph over the file's bytes: reads the vertex count, then reads triples
    with a cursor until the input is exhausted at a record boundary, appending
    each validated edge.
   */
  method ReadGraph(data: seq<Byte>) returns (r: Decoded)
    ensures r == Decode(data)
  {
    var header := ReadInt16(data, 0);
    if !header.Value? {
      return Failure(TruncatedHeader);
    }
    var numVertices := header.v;
    var edges: seq<Edge> := [];
    var pos := 2;
    assert data[pos..] == data[2..];
    while true
      invariant 2 <= pos <= |data|
      invariant numVertices == Int16At(data, 0)
      invariant DecodeRecords(numVertices, data[2..])
             == Prepend(edges, DecodeRecords(numVertices, data[pos..]))
      decreases |data| - pos
    {
      var from := ReadInt16(data, pos);
      if from.Eof? {
        break;
      }
      if from.UnexpectedEof? {
        return Failure(TruncatedRecord(From));
      }
      var to := ReadInt16(data, pos + 2);
      if !to.Value? {
        return Failure(TruncatedRecord(To));
      }
      var weight := ReadInt16(data, pos + 4);
      if !weight.Value? {
        return Failure(TruncatedRecord(Weight));
      }
      if from.v < 0 || from.v >= numVertices || to.v < 0 || to.v >= numVertices {
        return Failure(BadIndex(from.v, to.v));
      }
      var e := Edge(from.v, to.v, weight.v);
      assert e == EdgeAt(data[pos..], 0);
      assert data[pos..][6..] == data[pos + 6..];
      edges := edges + [e];
      pos := pos + 6;
    }
    return Success(numVertices, edges);
  }
}
