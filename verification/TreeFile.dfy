/** Database files written from a list of nodes: every such search tree occurs in a file that opens. */
module TreeFile {
  import opened Bytes
  import opened Decoder
  import opened SearchTree

  predicate Packable(node: (Word, Word), recordLength: nat)
    requires recordLength == 6 || recordLength == 7 || recordLength == 8
  {
    var limit := if recordLength == 7 then 0x1000_0000 else Pow256(recordLength / 2);
    node.0 < limit && node.1 < limit
  }

  predicate AllPackable(nodes: seq<(Word, Word)>, recordLength: nat)
    requires recordLength == 6 || recordLength == 7 || recordLength == 8
  {
    forall i :: 0 <= i < |nodes| ==> Packable(nodes[i], recordLength)
  }

  function PackNodes(nodes: seq<(Word, Word)>, recordLength: nat): (b: seq<Byte>)
    requires (recordLength == 6 || recordLength == 7 || recordLength == 8) && AllPackable(nodes, recordLength)
    ensures |b| == |nodes| * recordLength
  {
    if nodes == [] then []
    else
      var init, last := nodes[..|nodes| - 1], nodes[|nodes| - 1];
      assert Packable(last, recordLength);
      Distributes(|init|, recordLength);
      PackNodes(init, recordLength) + PackNode(last.0, last.1, recordLength)
  }

  lemma Distributes(n: nat, length: nat)
    ensures (n + 1) * length == n * length + length
  {
  }

  /** The `i`-th node stands in its place. */
  lemma {:induction false} PackedAt(nodes: seq<(Word, Word)>, recordLength: nat, i: nat, at: nat, node: seq<Byte>,
                                    b: seq<Byte>)
    requires (recordLength == 6 || recordLength == 7 || recordLength == 8) && AllPackable(nodes, recordLength)
    requires i < |nodes| && Packable(nodes[i], recordLength) && at == i * recordLength
    requires node == PackNode(nodes[i].0, nodes[i].1, recordLength) && b == PackNodes(nodes, recordLength)
    ensures at + recordLength <= |b| && b[at..at + recordLength] == node
    decreases |nodes|
  {
    var init, last := nodes[..|nodes| - 1], nodes[|nodes| - 1];
    var packed, end := PackNodes(init, recordLength), PackNode(last.0, last.1, recordLength);
    assert b == packed + end;
    if i < |nodes| - 1 {
      PackedAt(init, recordLength, i, at, node, packed);
      TakeOfConcat(packed, end, at, at + recordLength);
    } else {
      EndOfConcat(packed, end, at, at + recordLength);
    }
  }

  lemma EndOfConcat(a: seq<Byte>, b: seq<Byte>, from: nat, to: nat)
    requires from == |a| && to == |a| + |b|
    ensures to == |a + b| && (a + b)[from..to] == b
  {
  }

  lemma TakeOfConcat(a: seq<Byte>, b: seq<Byte>, from: nat, to: nat)
    requires from <= to <= |a|
    ensures (a + b)[from..to] == a[from..to]
  {
  }

  /** A file with these nodes and this data section. */
  function FileOf(nodes: seq<(Word, Word)>, recordLength: nat, data: Section): seq<Byte>
    requires (recordLength == 6 || recordLength == 7 || recordLength == 8) && AllPackable(nodes, recordLength)
  {
    PackNodes(nodes, recordLength) + (seq(MMDB_DATA_SECTION_SEPARATOR, _ => 0) + data)
  }

  /** Whatever the nodes and the data, there is a file that opens and reads back as just that. */
  lemma FileRoundTrip(nodes: seq<(Word, Word)>, recordLength: nat, ipVersion: nat, data: Section) returns (db: Layout)
    requires (recordLength == 6 || recordLength == 7 || recordLength == 8) && AllPackable(nodes, recordLength)
    requires 1 <= |nodes| && (ipVersion == 4 || ipVersion == 6)
    requires |nodes| * recordLength + MMDB_DATA_SECTION_SEPARATOR + |data| < 0x1_0000_0000
    ensures db.Opened() && db.ipVersion == ipVersion && db.recordLength == recordLength
    ensures db.DataSection() == data && db.Unpacked() == Index(nodes, |data|)
  {
    NodesFit(|nodes|, recordLength);
    db := Layout(FileOf(nodes, recordLength, data), |nodes|, recordLength, ipVersion);
    DataOf(db, nodes, recordLength, data);
    forall i | 0 <= i < |nodes|
      ensures db.Unpacked().nodes[i] == nodes[i]
    {
      UnpackedNode(db, nodes, recordLength, data, i);
    }
    assert db.Unpacked().nodes == nodes;
  }

  lemma NodesFit(n: nat, length: nat)
    requires length >= 1
    ensures n <= n * length
  {
  }

  lemma DataOf(db: Layout, nodes: seq<(Word, Word)>, recordLength: nat, data: Section)
    requires (recordLength == 6 || recordLength == 7 || recordLength == 8) && AllPackable(nodes, recordLength)
    requires db.file == FileOf(nodes, recordLength, data) && db.TreeSize() == |nodes| * recordLength
    ensures |db.file| == db.TreeSize() + MMDB_DATA_SECTION_SEPARATOR + |data|
    ensures db.file[db.TreeSize() + MMDB_DATA_SECTION_SEPARATOR..] == data
  {
  }

  lemma UnpackedNode(db: Layout, nodes: seq<(Word, Word)>, recordLength: nat, data: Section, i: nat)
    requires (recordLength == 6 || recordLength == 7 || recordLength == 8) && AllPackable(nodes, recordLength)
    requires i < |nodes| == db.nodeCount && db.recordLength == recordLength && db.Opened()
    requires db.file == FileOf(nodes, recordLength, data)
    ensures db.Unpacked().nodes[i] == nodes[i]
  {
    assert Packable(nodes[i], recordLength);
    var packed, at := PackNodes(nodes, recordLength), i * recordLength;
    var node := PackNode(nodes[i].0, nodes[i].1, recordLength);
    PackedAt(nodes, recordLength, i, at, node, packed);
    TakeOfConcat(packed, seq(MMDB_DATA_SECTION_SEPARATOR, _ => 0) + data, at, at + recordLength);
    NodeRoundTrip(nodes[i].0, nodes[i].1, recordLength);
    ReadsAs(db, i, node);
  }

  /** What the bytes of a node hold is what the file unpacks to there. */
  lemma ReadsAs(db: Layout, node: Word, b: seq<Byte>)
    requires db.Opened() && node < db.nodeCount
    requires var at := node * db.recordLength;
             at + db.recordLength <= |db.file| && db.file[at..at + db.recordLength] == b
    ensures db.Unpacked().nodes[node] == (RecordOf(b, false), RecordOf(b, true))
  {
    db.UnpackedAt(node, false);
    db.UnpackedAt(node, true);
  }
}
