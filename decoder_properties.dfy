/**
  What the decoder promises: an encoder it inverts, and exact conditions for
  success and for each kind of failure.
 */
module DecoderProperties {
  import opened Wire
  import opened Decoder

  /** The six bytes of one record. */
  function EncodeEdge(e: Edge): (bs: seq<Byte>)
    ensures |bs| == 6
  {
    EncodeInt16(e.from) + EncodeInt16(e.to) + EncodeInt16(e.weight)
  }

  /** The record area holding the given edges, in order. */
  function EncodeEdges(es: seq<Edge>): (bs: seq<Byte>)
    ensures |bs| == 6 * |es|
  {
    if es == [] then [] else EncodeEdge(es[0]) + EncodeEdges(es[1..])
  }

  /** A whole file: the vertex count, then the records. */
  function EncodeGraph(n: Int16, es: seq<Edge>): (bs: seq<Byte>)
    ensures |bs| == 2 + 6 * |es|
  {
    EncodeInt16(n) + EncodeEdges(es)
  }

  /** Every complete record of a record area has valid indices. */
  ghost predicate CompleteRecordsValid(n: int, rs: seq<Byte>) {
    forall k: nat :: 6 * k + 6 <= |rs| ==> ValidEdge(n, EdgeAt(rs, k))
  }

  /** Every complete record before record k has valid indices. */
  ghost predicate ValidBefore(n: int, rs: seq<Byte>, k: nat) {
    forall j: nat :: j < k && 6 * j + 6 <= |rs| ==> ValidEdge(n, EdgeAt(rs, j))
  }

  /** A record area is well formed: whole records only, each with valid indices. */
  ghost predicate WellFormedRecords(n: int, rs: seq<Byte>) {
    |rs| % 6 == 0 && CompleteRecordsValid(n, rs)
  }

  /** A whole file is well formed: a complete header and a well-formed record area. */
  ghost predicate WellFormed(bs: seq<Byte>) {
    |bs| >= 2 && WellFormedRecords(Int16At(bs, 0), bs[2..])
  }

  lemma EdgeAtShift(rs: seq<Byte>, k: nat)
    requires 6 * k + 12 <= |rs|
    ensures EdgeAt(rs[6..], k) == EdgeAt(rs, k + 1)
  {
  }

  lemma EdgeAtPrefix(e: Edge, rest: seq<Byte>)
    ensures EdgeAt(EncodeEdge(e) + rest, 0) == e
    ensures (EncodeEdge(e) + rest)[6..] == rest
  {
  }

  /** Decoding a record area of valid edges gives back those edges, in order. */
  lemma {:induction false} DecodeEncodeRecords(n: Int16, es: seq<Edge>)
    requires AllValid(n, es)
    ensures DecodeRecords(n, EncodeEdges(es)) == Records(es)
  {
    if es != [] {
      var rs := EncodeEdges(es);
      EdgeAtPrefix(es[0], EncodeEdges(es[1..]));
      assert ValidEdge(n, es[0]);
      DecodeEncodeRecords(n, es[1..]);
      assert [es[0]] + es[1..] == es;
    }
  }

  /**
    Round trip: a vertex count and valid edges, encoded as a little-endian
    int16 header followed by int16 triples, decode to exactly that count and
    those edges in the same order. Any weight, -32768 included, survives.
   */
  lemma RoundTrip(n: Int16, es: seq<Edge>)
    requires AllValid(n, es)
    ensures Decode(EncodeGraph(n, es)) == Success(n, es)
  {
    var bs := EncodeGraph(n, es);
    DecodeEncodeInt16(n);
    assert bs[..2] == EncodeInt16(n);
    assert bs[2..] == EncodeEdges(es);
    DecodeEncodeRecords(n, es);
  }

  /** A record area's complete records are valid exactly when its first one and all after it are. */
  lemma CompleteRecordsValidShift(n: int, rs: seq<Byte>)
    requires |rs| >= 6
    ensures CompleteRecordsValid(n, rs) <==>
              ValidEdge(n, EdgeAt(rs, 0)) && CompleteRecordsValid(n, rs[6..])
  {
    var tail := rs[6..];
    if CompleteRecordsValid(n, rs) {
      forall k: nat | 6 * k + 6 <= |tail|
        ensures ValidEdge(n, EdgeAt(tail, k))
      {
        EdgeAtShift(rs, k);
        assert ValidEdge(n, EdgeAt(rs, k + 1));
      }
    }
    if ValidEdge(n, EdgeAt(rs, 0)) && CompleteRecordsValid(n, tail) {
      forall k: nat | 6 * k + 6 <= |rs|
        ensures ValidEdge(n, EdgeAt(rs, k))
      {
        if k > 0 {
          EdgeAtShift(rs, k - 1);
          assert ValidEdge(n, EdgeAt(tail, k - 1));
        }
      }
    }
  }

  lemma {:induction false} DecodedEdgesAreRecords(n: Int16, rs: seq<Byte>)
    requires DecodeRecords(n, rs).Records?
    ensures forall k :: 0 <= k < |rs| / 6 ==> DecodeRecords(n, rs).edges[k] == EdgeAt(rs, k)
    decreases |rs|
  {
    if |rs| >= 6 {
      var es := DecodeRecords(n, rs).edges;
      var tail := rs[6..];
      DecodedEdgesAreRecords(n, tail);
      assert es == [EdgeAt(rs, 0)] + DecodeRecords(n, tail).edges;
      forall k | 0 <= k < |rs| / 6
        ensures es[k] == EdgeAt(rs, k)
      {
        if k > 0 {
          EdgeAtShift(rs, k - 1);
        }
      }
    }
  }

  /**
    The record area decodes exactly when it is well formed, and then its
    edges are its records in order.
   */
  lemma {:induction false} DecodeRecordsCharacterised(n: Int16, rs: seq<Byte>)
    ensures DecodeRecords(n, rs).Records? <==> WellFormedRecords(n, rs)
    ensures DecodeRecords(n, rs).Records? ==>
              forall k :: 0 <= k < |rs| / 6 ==> DecodeRecords(n, rs).edges[k] == EdgeAt(rs, k)
    decreases |rs|
  {
    if |rs| >= 6 {
      CompleteRecordsValidShift(n, rs);
      if ValidEdge(n, EdgeAt(rs, 0)) {
        DecodeRecordsCharacterised(n, rs[6..]);
      }
    } else if |rs| > 0 {
      assert !WellFormedRecords(n, rs);
    }
    if DecodeRecords(n, rs).Records? {
      DecodedEdgesAreRecords(n, rs);
    }
  }

  /**
    Clean end: the decode succeeds exactly when the input is 2 + 6k bytes long
    and every record's indices are valid; the result is the header value and
    the k records in read order, all with valid indices.
   */
  lemma DecodeSucceedsIffWellFormed(bs: seq<Byte>)
    ensures Decode(bs).Success? <==> WellFormed(bs)
    ensures Decode(bs).Success? ==>
              && Decode(bs).numVertices == Int16At(bs, 0)
              && 6 * |Decode(bs).edges| + 2 == |bs|
              && (forall k :: 0 <= k < |Decode(bs).edges| ==>
                    Decode(bs).edges[k] == EdgeAt(bs[2..], k))
              && AllValid(Decode(bs).numVertices, Decode(bs).edges)
  {
    if |bs| >= 2 {
      DecodeRecordsCharacterised(Int16At(bs, 0), bs[2..]);
    }
  }

  /** Truncated header: fewer than two bytes cannot hold the vertex count. */
  lemma TruncatedHeaderFails(bs: seq<Byte>)
    ensures Decode(bs) == Failure(TruncatedHeader) <==> |bs| < 2
  {
  }

  /**
    Truncated record: when the record area ends 1 to 5 bytes into a record and
    no earlier record has a bad index, the decode fails naming the field that
    could not be read. No edges are returned.
   */
  lemma {:induction false} TruncatedRecordReported(n: Int16, rs: seq<Byte>)
    requires |rs| % 6 != 0
    requires CompleteRecordsValid(n, rs)
    ensures DecodeRecords(n, rs) == Rejected(TruncatedRecord(MissingField(|rs| % 6)))
    decreases |rs|
  {
    if |rs| >= 6 {
      CompleteRecordsValidShift(n, rs);
      TruncatedRecordReported(n, rs[6..]);
    }
  }

  /** Any input whose length is not 2 + 6k fails, whatever its contents. */
  lemma TruncatedInputFails(bs: seq<Byte>)
    requires |bs| < 2 || (|bs| - 2) % 6 != 0
    ensures Decode(bs).Failure?
  {
    DecodeSucceedsIffWellFormed(bs);
  }

  /**
    Out-of-range index: when record k is the first complete record with an
    index outside [0, n), the decode fails naming that record's from and to.
   */
  lemma {:induction false} BadIndexReported(n: Int16, rs: seq<Byte>, k: nat)
    requires 6 * k + 6 <= |rs|
    requires !ValidEdge(n, EdgeAt(rs, k))
    requires ValidBefore(n, rs, k)
    ensures DecodeRecords(n, rs) == Rejected(BadIndex(EdgeAt(rs, k).from, EdgeAt(rs, k).to))
    decreases k
  {
    if k > 0 {
      assert ValidEdge(n, EdgeAt(rs, 0));
      EdgeAtShift(rs, k - 1);
      forall j: nat | j < k - 1
        ensures ValidEdge(n, EdgeAt(rs[6..], j))
      {
        EdgeAtShift(rs, j);
        assert ValidEdge(n, EdgeAt(rs, j + 1));
      }
      assert ValidBefore(n, rs[6..], k - 1);
      BadIndexReported(n, rs[6..], k - 1);
    }
  }

  /**
    Truncated record, for a whole file: an input of 2 + 6k + r bytes with
    1 <= r <= 5 whose complete records are all valid fails on the field that
    the r left-over bytes could not fill.
   */
  lemma TruncatedFileReported(bs: seq<Byte>)
    requires |bs| >= 2 && (|bs| - 2) % 6 != 0
    requires CompleteRecordsValid(Int16At(bs, 0), bs[2..])
    ensures Decode(bs) == Failure(TruncatedRecord(MissingField((|bs| - 2) % 6)))
  {
    TruncatedRecordReported(Int16At(bs, 0), bs[2..]);
  }

  /**
    Out-of-range index, for a whole file: the first complete record with an
    index outside [0, numVertices) makes the decode fail naming its from and to,
    whatever follows it.
   */
  lemma BadIndexFileReported(bs: seq<Byte>, k: nat)
    requires 6 * k + 8 <= |bs|
    requires !ValidEdge(Int16At(bs, 0), EdgeAt(bs[2..], k))
    requires ValidBefore(Int16At(bs, 0), bs[2..], k)
    ensures Decode(bs) == Failure(BadIndex(EdgeAt(bs[2..], k).from, EdgeAt(bs[2..], k).to))
  {
    BadIndexReported(Int16At(bs, 0), bs[2..], k);
  }

  /** The least int16 weight decodes unchanged: weights are never checked. */
  lemma MinWeightRoundTrip(n: Int16, from: Int16, to: Int16)
    requires 0 <= from < n && 0 <= to < n
    ensures Decode(EncodeGraph(n, [Edge(from, to, -0x8000)])) == Success(n, [Edge(from, to, -0x8000)])
  {
    RoundTrip(n, [Edge(from, to, -0x8000)]);
  }

  /**
    The header is never range-checked, but with a vertex count of zero or less
    no record can be valid: only an input of exactly two bytes succeeds, and a
    first complete record is rejected as a bad index. (A first record cut
    short still fails as a truncated record, as its index is never checked.)
   */
  lemma NonPositiveCountHasNoEdges(bs: seq<Byte>)
    ensures Decode(bs).Success? && Decode(bs).numVertices <= 0 ==>
              Decode(bs).edges == [] && |bs| == 2
    ensures |bs| >= 8 && Int16At(bs, 0) <= 0 ==>
              Decode(bs) == Failure(BadIndex(EdgeAt(bs[2..], 0).from, EdgeAt(bs[2..], 0).to))
  {
    DecodeSucceedsIffWellFormed(bs);
    if |bs| >= 8 && Int16At(bs, 0) <= 0 {
      BadIndexFileReported(bs, 0);
    }
  }

  /** Example: three vertices and the single record (3, 0, 5) fail naming from = 3. */
  lemma OutOfRangeExample()
    ensures Decode(EncodeGraph(3, [Edge(3, 0, 5)])) == Failure(BadIndex(3, 0))
  {
  }
}
