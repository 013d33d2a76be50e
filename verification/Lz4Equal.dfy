// A block worked out in full: equal bytes, from the first probe to the last literal, and back.
module Lz4Equal {
  import opened Lz4Format
  import opened Lz4Copy
  import opened Lz4Count
  import opened Lz4Greedy
  import opened Lz4Track
  import opened Lz4Compress
  import opened Lz4Stream
  import opened Lz4Accept
  import opened Lz4Reference

  function Repeated(x: byte, n: nat): (s: seq<byte>)
    ensures |s| == n && forall k :: 0 <= k < n ==> s[k] == x
  {
    seq(n, _ => x)
  }

  /** One literal, a match of all but six bytes at distance one, and five last literals. */
  function EqualBlock(x: byte, n: nat): (b: Block)
    requires n >= 13
    ensures AllEncodable(b.sequences)
  {
    Block([Sequence([x], 1, n - 6)], [x, x, x, x, x])
  }

  lemma EncodeEqual(x: byte, n: nat)
    requires n >= 13
    ensures EncodeBlock(EqualBlock(x, n))
            == [(0x10 + if n - 10 >= 15 then 15 else n - 10) as byte, x, 1, 0] + Extension(n - 10)
               + [0x50 as byte, x, x, x, x, x]
    ensures |EncodeBlock(EqualBlock(x, n))| == 10 + (n + 230) / 255 <= n / 255 + 11
  {
    hide EncodeSequences;
    var q := Sequence([x], 1, n - 6);
    EncodeOne(q);
    ShareOfRun(n - 10);
    assert Extension(1) == [] && Extension(5) == [];
    assert EncodeSequence(q) == [Token(q), x, 1, 0] + Extension(n - 10);
    assert EncodeLast([x, x, x, x, x]) == [0x50 as byte, x, x, x, x, x];
  }

  /** It stands for the `n` equal bytes. */
  lemma EqualMeaning(x: byte, n: nat)
    requires n >= 13
    ensures Meaning([], EqualBlock(x, n)) == Some(Repeated(x, n))
  {
    hide CopyMatch;
    var sequences := EqualBlock(x, n).sequences;
    assert sequences[..|sequences| - 1] == [] && [] + [x] == [x];
    ReplayNone([]);
    CopyMatchUnique([x], 1, n - 6, Repeated(x, n - 5));
    assert Replay([], sequences) == Some(Repeated(x, n - 5));
    assert Repeated(x, n - 5) + [x, x, x, x, x] == Repeated(x, n);
  }

  /** Both decoders accept it, for an output of exactly `n` bytes. */
  lemma EqualIsAccepted(x: byte, n: nat, junk: seq<byte>)
    requires n >= 13 && |junk| == n
    ensures var s := EncodeBlock(EqualBlock(x, n));
            && Conforms(s, 0, 0, n) && DecodeFrom(s, 0, []) == Some(Repeated(x, n))
            && AcceptsBlock(s, 0, n)
            && RefDecode(s, 0, [], junk).Accepted? && RefDecode(s, 0, [], junk).consumed == |s|
  {
    hide Meaning, EncodeBlock, Conforms, DecodeFrom, RefDecode, Accepts, SizeFrom;
    var b := EqualBlock(x, n);
    EqualMeaning(x, n);
    DecodeOfEncode(b, []);
    EncodeConformsExactly(b, []);
    EncodeEqual(x, n);
    ConformingBlockAccepted(EncodeBlock(b), 0, 0, n, n >= 64);
    SizeOfDecode(EncodeBlock(b), 0, []);
    AcceptsWhole(EncodeBlock(b), [], junk);
  }

  // ----- Compression -----

  /** All bytes of the block are `x`, and nothing in front of it is available. */
  ghost predicate AllEqual(c: Call, x: byte) {
    && c.Valid() && c.inputSize >= 13 && c.lowLimit == c.source && c.startIndex == 0
    && forall k :: c.source <= k < c.Iend() ==> c.src[k] == x
  }

  lemma SameHash(c: Call, x: byte, p: nat)
    requires AllEqual(c, x) && c.source <= p <= c.Iend() - 8
    ensures c.HashPosition(p) == c.hash(c.tableType, Repeated(x, HashWidth(c.tableType)))
  {
    assert c.src[p..p + HashWidth(c.tableType)] == Repeated(x, HashWidth(c.tableType));
  }

  lemma {:induction false} EqualRun(s: seq<byte>, i: nat, j: nat, limit: int)
    requires j <= i <= limit <= |s| && forall k :: j <= k < limit ==> s[k] == s[j]
    ensures CommonRun(s, i, j, limit) == limit - i
    decreases limit - i
  {
    if i < limit {
      EqualRun(s, i + 1, j + 1, limit);
    }
  }

  /** The first probe finds the match that the whole block consists of, for every hash and every acceleration. */
  lemma GreedyOnEqual(c: Call, x: byte, acceleration: nat, table: seq<nat>)
    requires AllEqual(c, x) && acceleration >= 1 && c.HashesInto(|table|)
    ensures GreedyBlock(c, acceleration, table, None) == EqualBlock(x, c.inputSize)
  {
    hide Search, Chain, Put;
    var n, ip := c.inputSize, c.source + 1;
    var first := Put(c, table, c.source);
    FirstProbe(c, x, acceleration, table);
    ProbeFirst(ip, acceleration);
    GreedyAfterSearch(c, acceleration, first, ip, c.source, None);
    assert Puts(c, first, ip, acceleration, 0) == first;
    BackUnfoldAtStart(c, ip);
    ChainOnEqual(c, x, acceleration, Puts(c, first, ip, acceleration, 1));
    assert c.src[c.Iend() - 5..c.Iend()] == [x, x, x, x, x];
  }

  lemma FirstProbe(c: Call, x: byte, acceleration: nat, table: seq<nat>)
    requires AllEqual(c, x) && acceleration >= 1 && c.HashesInto(|table|)
    ensures var first := Put(c, table, c.source);
            && Search(c, first, c.source + 1, acceleration, 0) == Found(0)
            && EntryAt(c, first, c.source + 1, acceleration, 0) == 0 == c.Position(0) - c.source
  {
    var ip, first := c.source + 1, Put(c, table, c.source);
    SameHash(c, x, c.source);
    SameHash(c, x, ip);
    ProbeFirst(ip, acceleration);
    assert EntryAt(c, first, ip, acceleration, 0) == 0;
    assert c.src[c.source..c.source + 4] == c.src[ip..ip + 4];
    assert Probe(ip, acceleration, 1) == ip + 1;
  }

  lemma BackUnfoldAtStart(c: Call, ip: nat)
    requires c.source < ip <= |c.src| && c.lowLimit == c.source
    ensures Back(c, ip, c.source, c.source) == 0
  {
  }

  lemma ChainOnEqual(c: Call, x: byte, acceleration: nat, table: seq<nat>)
    requires AllEqual(c, x) && c.Searchable(table, acceleration)
    ensures Chain(c, acceleration, table, c.source + 1, c.source, c.source, None)
            == Parse([Sequence([x], 1, c.inputSize - 6)], c.Iend() - 5, table)
  {
    hide Greedy, Put, Matches;
    EqualRun(c.src, c.source + 5, c.source + 4, c.MatchLimit());
    assert c.src[c.source..c.source + 1] == [x];
  }

  /** Equal bytes, compressed: for every hash function and every acceleration the block is that one, if it fits. */
  method CompressEqual(stream: Stream, x: byte, n: nat, dest: array<byte>, acceleration: int) returns (size: nat)
    requires stream.HashesFit() && dest != stream.hashTable as object
    requires 13 <= n <= MAX_INPUT_SIZE
    modifies stream, stream.hashTable, dest
    ensures size == if 10 + (n + 230) / 255 <= dest.Length then 10 + (n + 230) / 255 else 0
    ensures size <= n / 255 + 11
    ensures size > 0 ==> dest[..size] == EncodeBlock(EqualBlock(x, n))
  {
    hide Compressed, GreedyBlock, EncodeBlock, WholeParse;
    var src := Repeated(x, n);
    size := stream.CompressFastExtState(src, 0, dest, 0, n, dest.Length, acceleration);
    EncodeEqual(x, n);
    ghost var c := Call(src, 0, n, 0, 0, if n < 65547 then ByU16 else ByU32, NoDictIssue, stream.hash);
    GreedyOnEqual(c, x, Clamp(acceleration), seq(stream.hashTable.Length, _ => 0));
    assert dest[..size] == dest[0..0 + size];
  }
}
