// The greedy parse as a specification: which positions are probed, which of them become matches, and
// where a block ends.  It knows nothing of the output but how much room is left.
module Lz4Greedy {
  import opened Lz4Format
  import opened Lz4Count

  datatype TableType = ByU32 | ByU16

  /** Whether entries older than the available history must be filtered out one by one. */
  datatype DictIssue = NoDictIssue | DictSmall

  /** How many bytes the hash of a position looks at. */
  function HashWidth(tableType: TableType): nat {
    if tableType == ByU16 then 4 else 8
  }

  /** What stays fixed during one compression call.  Memory is `src`; the block to compress starts
      at `source`, table index `startIndex` stands for that position, and the history that matches may
      reach into starts at `lowLimit`.  The hash function is arbitrary. */
  datatype Call = Call(src: seq<byte>, source: nat, inputSize: nat, startIndex: nat, lowLimit: nat,
                       tableType: TableType, dictIssue: DictIssue, hash: (TableType, seq<byte>) -> nat)
  {
    function Iend(): nat { source + inputSize }

    function MfLimitPlusOne(): int { Iend() - MF_LIMIT + 1 }

    function MatchLimit(): int { Iend() - LAST_LITERALS }

    /** Table index of the oldest position that may be used. */
    function PrefixIdxLimit(): int { startIndex - (source - lowLimit) }

    function Index(position: nat): int { startIndex + position - source }

    function Position(index: nat): int { source + index - startIndex }

    ghost predicate Valid() {
      && lowLimit <= source && Iend() <= |src|
      && (tableType == ByU16 ==> startIndex + inputSize < LIMIT_64K)
    }

    function HashPosition(position: nat): nat
      requires position + HashWidth(tableType) <= |src|
    {
      hash(tableType, src[position..position + HashWidth(tableType)])
    }

    /** An entry that the acceptance tests let through refers to available history. */
    ghost predicate EntrySafe(index: nat) {
      || index >= PrefixIdxLimit()
      || dictIssue == DictSmall
      || (tableType == ByU32 && index + DISTANCE_MAX < startIndex)
    }

    /** Entries of this call sit in the bucket of their own hash. */
    ghost predicate EntryIndexed(index: nat, bucket: nat) {
      index > startIndex ==>
        Position(index) + HashWidth(tableType) <= |src| && HashPosition(Position(index)) == bucket
    }

    ghost predicate HashesInto(n: nat) {
      forall t, w :: hash(t, w) < n
    }

    /** Every entry is below `limit`, safe, and in its bucket. */
    ghost predicate TableOk(table: seq<nat>, limit: int) {
      && HashesInto(|table|)
      && forall b :: 0 <= b < |table| ==> table[b] < limit && EntrySafe(table[b]) && EntryIndexed(table[b], b)
    }

    /** A match as the encoder needs it. */
    ghost predicate MatchAt(m: nat, ip: nat, n: nat) {
      && lowLimit <= m < ip && ip - m <= DISTANCE_MAX && ip + n <= |src|
      && src[m..m + n] == src[ip..ip + n]
    }

    /** A block long enough to be searched, and a table that its hashes fit. */
    ghost predicate Searchable(table: seq<nat>, acceleration: nat) {
      Valid() && inputSize >= 13 && acceleration >= 1 && HashesInto(|table|)
    }
  }

  // ----- The search -----

  /** The step after the `k`th probe: one at first, then the acceleration, and one more after every 64 probes. */
  function Step(acceleration: nat, k: nat): nat {
    if k == 0 then 1 else acceleration + (k - 1) / 64
  }

  /** The `k`th position that a search from `ip` looks at. */
  function Probe(ip: nat, acceleration: nat, k: nat): (p: nat)
    ensures p >= ip
  {
    if k == 0 then ip else Probe(ip, acceleration, k - 1) + Step(acceleration, k - 1)
  }

  lemma ProbeFirst(ip: nat, acceleration: nat)
    ensures Probe(ip, acceleration, 0) == ip
  {
  }

  lemma ProbeGrows(ip: nat, acceleration: nat, k: nat)
    requires acceleration >= 1
    ensures Probe(ip, acceleration, k) < Probe(ip, acceleration, k + 1)
  {
  }

  lemma {:induction false} ProbesGrow(ip: nat, acceleration: nat, j: nat, k: nat)
    requires acceleration >= 1 && j <= k
    ensures Probe(ip, acceleration, j) + (k - j) <= Probe(ip, acceleration, k)
  {
    if j < k {
      ProbesGrow(ip, acceleration, j, k - 1);
      ProbeGrows(ip, acceleration, k - 1);
    }
  }

  lemma ProbesBelow(ip: nat, acceleration: nat, k: nat, limit: int)
    requires acceleration >= 1 && Probe(ip, acceleration, k) <= limit
    ensures forall j :: 0 <= j < k ==> Probe(ip, acceleration, j) < limit
  {
    hide Probe;
    forall j | 0 <= j < k ensures Probe(ip, acceleration, j) < limit {
      ProbesGrow(ip, acceleration, j, k);
    }
  }

  /** The table after the index of a position has gone into the bucket of its hash. */
  ghost function Put(c: Call, table: seq<nat>, position: nat): (r: seq<nat>)
    requires c.source <= position && position + HashWidth(c.tableType) <= |c.src| && c.HashesInto(|table|)
    ensures |r| == |table|
  {
    table[c.HashPosition(position) := c.Index(position)]
  }

  /** The table after the first `k` probes. */
  ghost function Puts(c: Call, table: seq<nat>, ip: nat, acceleration: nat, k: nat): (r: seq<nat>)
    requires c.Searchable(table, acceleration) && c.source <= ip
    requires Probe(ip, acceleration, k) <= c.MfLimitPlusOne()
    ensures |r| == |table|
  {
    if k == 0 then table
    else
      ProbeGrows(ip, acceleration, k - 1);
      Put(c, Puts(c, table, ip, acceleration, k - 1), Probe(ip, acceleration, k - 1))
  }

  lemma PutsNext(c: Call, table: seq<nat>, ip: nat, acceleration: nat, k: nat)
    requires c.Searchable(table, acceleration) && c.source <= ip
    requires Probe(ip, acceleration, k) + Step(acceleration, k) <= c.MfLimitPlusOne()
    ensures Probe(ip, acceleration, k + 1) == Probe(ip, acceleration, k) + Step(acceleration, k)
    ensures c.HashPosition(Probe(ip, acceleration, k)) < |table|
    ensures Puts(c, table, ip, acceleration, k + 1)
            == Put(c, Puts(c, table, ip, acceleration, k), Probe(ip, acceleration, k))
    ensures EntryAt(c, table, ip, acceleration, k)
            == Puts(c, table, ip, acceleration, k)[c.HashPosition(Probe(ip, acceleration, k))]
  {
    hide Put;
  }

  /** The entry that the `k`th probe finds in the bucket of its hash. */
  ghost function EntryAt(c: Call, table: seq<nat>, ip: nat, acceleration: nat, k: nat): nat
    requires c.Searchable(table, acceleration) && c.source <= ip
    requires Probe(ip, acceleration, k) <= c.MfLimitPlusOne()
  {
    Puts(c, table, ip, acceleration, k)[c.HashPosition(Probe(ip, acceleration, k))]
  }

  /** The entry stands for an available position, 1 to 65535 bytes back, with the same four bytes. */
  ghost predicate Matches(c: Call, entry: nat, position: nat)
    requires position + 4 <= |c.src|
  {
    var m := c.Position(entry);
    c.lowLimit <= m < position <= m + 65535 && c.src[m..m + 4] == c.src[position..position + 4]
  }

  /** How a search ends: at its `k`th probe, with a match or because the next one would come too late. */
  datatype Hunt = Found(k: nat) | Exhausted(k: nat)

  ghost function Search(c: Call, table: seq<nat>, ip: nat, acceleration: nat, k: nat): (r: Hunt)
    requires c.Searchable(table, acceleration) && c.source <= ip
    requires Probe(ip, acceleration, k) <= c.MfLimitPlusOne()
    ensures Probe(ip, acceleration, r.k) <= c.MfLimitPlusOne()
    ensures r.Found? ==>
              Probe(ip, acceleration, r.k + 1) <= c.MfLimitPlusOne()
              && Matches(c, EntryAt(c, table, ip, acceleration, r.k), Probe(ip, acceleration, r.k))
    decreases c.MfLimitPlusOne() - Probe(ip, acceleration, k)
  {
    ProbeGrows(ip, acceleration, k);
    if Probe(ip, acceleration, k + 1) > c.MfLimitPlusOne() then Exhausted(k)
    else if Matches(c, EntryAt(c, table, ip, acceleration, k), Probe(ip, acceleration, k)) then Found(k)
    else Search(c, table, ip, acceleration, k + 1)
  }

  /** Every probe from the `from`th to before the `k`th finds an entry that does not fit. */
  ghost predicate NoneMatches(c: Call, table: seq<nat>, ip: nat, acceleration: nat, from: nat, k: nat)
    requires c.Searchable(table, acceleration) && c.source <= ip
    requires Probe(ip, acceleration, k) <= c.MfLimitPlusOne()
  {
    ProbesBelow(ip, acceleration, k, c.MfLimitPlusOne());
    forall j :: from <= j < k ==> !Matches(c, EntryAt(c, table, ip, acceleration, j), Probe(ip, acceleration, j))
  }

  lemma NoneMatchesNext(c: Call, table: seq<nat>, ip: nat, acceleration: nat, from: nat, k: nat)
    requires c.Searchable(table, acceleration) && c.source <= ip
    requires Probe(ip, acceleration, k + 1) <= c.MfLimitPlusOne() && Probe(ip, acceleration, k) < c.MfLimitPlusOne()
    requires NoneMatches(c, table, ip, acceleration, from, k)
    requires !Matches(c, EntryAt(c, table, ip, acceleration, k), Probe(ip, acceleration, k))
    ensures NoneMatches(c, table, ip, acceleration, from, k + 1)
  {
    hide Matches, EntryAt, Probe;
  }

  /** No probe before the end of the search fits, and the search ends only where it must. */
  lemma {:induction false} SearchIsFirst(c: Call, table: seq<nat>, ip: nat, acceleration: nat, k: nat)
    requires c.Searchable(table, acceleration) && c.source <= ip
    requires Probe(ip, acceleration, k) <= c.MfLimitPlusOne()
    ensures var r := Search(c, table, ip, acceleration, k);
            && k <= r.k && NoneMatches(c, table, ip, acceleration, k, r.k)
            && (r.Exhausted? <==> Probe(ip, acceleration, r.k + 1) > c.MfLimitPlusOne())
    decreases c.MfLimitPlusOne() - Probe(ip, acceleration, k)
  {
    hide Matches, EntryAt, Probe;
    ProbeGrows(ip, acceleration, k);
    if Probe(ip, acceleration, k + 1) <= c.MfLimitPlusOne()
       && !Matches(c, EntryAt(c, table, ip, acceleration, k), Probe(ip, acceleration, k)) {
      SearchIsFirst(c, table, ip, acceleration, k + 1);
    }
  }

  /** Among the first `k` probes, none has the hash `h` from the `from`th on. */
  ghost predicate NoneHashes(c: Call, ip: nat, acceleration: nat, from: nat, k: nat, h: nat)
    requires c.Valid() && acceleration >= 1 && Probe(ip, acceleration, k) <= c.MfLimitPlusOne()
  {
    ProbesBelow(ip, acceleration, k, c.MfLimitPlusOne());
    forall j :: from <= j < k ==> c.HashPosition(Probe(ip, acceleration, j)) != h
  }

  /** The `j`th probe has the hash `h`, and no later one of the first `k` has. */
  ghost predicate LastWithHash(c: Call, ip: nat, acceleration: nat, j: nat, k: nat, h: nat)
    requires c.Valid() && acceleration >= 1 && j < k && Probe(ip, acceleration, k) <= c.MfLimitPlusOne()
  {
    ProbesBelow(ip, acceleration, k, c.MfLimitPlusOne());
    c.HashPosition(Probe(ip, acceleration, j)) == h && NoneHashes(c, ip, acceleration, j + 1, k, h)
  }

  /** A bucket holds the last position probed with its hash, or what it held before the search. */
  lemma {:induction false} EntryIsLatest(c: Call, table: seq<nat>, ip: nat, acceleration: nat, k: nat, h: nat)
    requires c.Searchable(table, acceleration) && c.source <= ip && h < |table|
    requires Probe(ip, acceleration, k) <= c.MfLimitPlusOne()
    ensures var e := Puts(c, table, ip, acceleration, k)[h];
            || (e == table[h] && NoneHashes(c, ip, acceleration, 0, k, h))
            || exists j :: 0 <= j < k && LastWithHash(c, ip, acceleration, j, k, h)
                           && e == c.Index(Probe(ip, acceleration, j))
    decreases k
  {
    hide Probe, Call.HashPosition;
    if k > 0 {
      ProbeGrows(ip, acceleration, k - 1);
      var p := Probe(ip, acceleration, k - 1);
      EntryIsLatest(c, table, ip, acceleration, k - 1, h);
      if c.HashPosition(p) == h {
        assert LastWithHash(c, ip, acceleration, k - 1, k, h);
      } else if !(Puts(c, table, ip, acceleration, k - 1)[h] == table[h] && NoneHashes(c, ip, acceleration, 0, k - 1, h)) {
        var j :| 0 <= j < k - 1 && LastWithHash(c, ip, acceleration, j, k - 1, h)
                 && Puts(c, table, ip, acceleration, k - 1)[h] == c.Index(Probe(ip, acceleration, j));
        assert LastWithHash(c, ip, acceleration, j, k, h);
      }
    }
  }

  /** How far a match from `m` at `ip` reaches back over equal bytes. */
  ghost function Back(c: Call, ip: nat, m: nat, anchor: nat): (b: nat)
    requires m <= ip <= |c.src|
    ensures b <= ip - anchor || b == 0
    ensures b <= m - c.lowLimit || b == 0
    decreases m
  {
    if ip > anchor && m > c.lowLimit && c.src[ip - 1] == c.src[m - 1] then 1 + Back(c, ip - 1, m - 1, anchor) else 0
  }

  /** It reaches back as far as bytes agree, and no further than the anchor and the oldest byte available. */
  lemma {:induction false} BackIsLongest(c: Call, ip: nat, m: nat, anchor: nat)
    requires m <= ip <= |c.src|
    ensures var b := Back(c, ip, m, anchor);
            && b <= m && (forall k :: m - b <= k < m ==> c.src[k] == c.src[k + (ip - m)])
            && (ip - b <= anchor || m - b <= c.lowLimit || c.src[ip - b - 1] != c.src[m - b - 1])
    decreases m
  {
    if ip > anchor && m > c.lowLimit && c.src[ip - 1] == c.src[m - 1] {
      BackIsLongest(c, ip - 1, m - 1, anchor);
    }
  }

  // ----- The parse -----

  /** Sequences, the position from which the rest is literals, and the table at the end. */
  datatype Parse = Parse(sequences: seq<Sequence>, anchor: nat, table: seq<nat>)

  function Join(done: seq<Sequence>, rest: Parse): Parse {
    Parse(done + rest.sequences, rest.anchor, rest.table)
  }

  /** Less room than `n` bytes; no room at all is given when the output need not be filled. */
  predicate Short(room: Option<int>, n: int) {
    room.Some? && room.value < n
  }

  function Less(room: Option<int>, n: int): Option<int> {
    if room.None? then None else Some(room.value - n)
  }

  /** From the main loop on, with the search to start at `ip` and literals pending from `anchor`.  When the
      output is to be filled, the literals of a sequence must leave room for eleven more bytes. */
  ghost function Greedy(c: Call, acceleration: nat, table: seq<nat>, ip: nat, anchor: nat, room: Option<int>): (r: Parse)
    requires c.Searchable(table, acceleration)
    requires c.source <= anchor <= ip <= c.MfLimitPlusOne()
    ensures |r.table| == |table|
    decreases c.Iend() - anchor, 1
  {
    match Search(c, table, ip, acceleration, 0)
    case Exhausted(k) => Parse([], anchor, Puts(c, table, ip, acceleration, k))
    case Found(k) =>
      ProbesGrow(ip, acceleration, 0, k);
      ProbeGrows(ip, acceleration, k);
      var p, m := Probe(ip, acceleration, k), c.Position(EntryAt(c, table, ip, acceleration, k));
      var next := Puts(c, table, ip, acceleration, k + 1);
      var b := Back(c, p, m, anchor);
      var used := 1 + |Extension(p - b - anchor)| + (p - b - anchor);
      if Short(room, used + 11) then Parse([], anchor, next)
      else Chain(c, acceleration, next, p - b, m - b, anchor, Less(room, used))
  }

  /** From a match at `ip` on, whose literals are accounted for: the longest match, cut short when the room runs
      out, and the matches that follow it at once. */
  ghost function Chain(c: Call, acceleration: nat, table: seq<nat>, ip: nat, m: nat, anchor: nat, room: Option<int>): (r: Parse)
    requires c.Searchable(table, acceleration)
    requires c.source <= anchor <= ip < c.MfLimitPlusOne() && c.lowLimit <= m < ip
    ensures |r.table| == |table|
    decreases c.Iend() - anchor, 0
  {
    var mc := CommonRun(c.src, ip + 4, m + 4, c.MatchLimit());
    if Short(room, 11) then Parse([], anchor, table)
    else if Short(room, 8 + |Extension(mc)|) then
      var cut := 14 + (room.value - 8) * 255;
      Parse([Sequence(c.src[anchor..ip], ip - m, 4 + cut)], ip + 4 + cut, table)
    else
      var q, next := Sequence(c.src[anchor..ip], ip - m, 4 + mc), ip + 4 + mc;
      var left := Less(room, 2 + |Extension(mc)|);
      if next >= c.MfLimitPlusOne() then Parse([q], next, table)
      else
        var second := Put(c, table, next - 2);
        var entry := second[c.HashPosition(next)];
        var third := Put(c, second, next);
        Join([q], if Matches(c, entry, next) then Chain(c, acceleration, third, next, c.Position(entry), next, Less(left, 1))
                  else Greedy(c, acceleration, third, next + 1, next, left))
  }

  /** How many of the last literals there is room for: their number, and what it takes to write it. */
  function LastRun(rest: nat, room: Option<int>): (n: nat)
    ensures n <= rest
  {
    if !Short(room, 1 + |Extension(rest)| + rest) then rest
    else if room.value < 1 then 0
    else
      var r := room.value - 1;
      RunFits(r, rest);
      r - (r + 241) / 256
  }

  lemma RunFits(r: nat, rest: nat)
    requires r < |Extension(rest)| + rest
    ensures 0 <= r - (r + 241) / 256 <= rest
  {
  }

  ghost function WholeParse(c: Call, acceleration: nat, table: seq<nat>, room: Option<int>): (r: Parse)
    requires c.Valid() && acceleration >= 1 && c.HashesInto(|table|)
    ensures |r.table| == |table|
  {
    if c.inputSize < 13 then Parse([], c.source, table)
    else Greedy(c, acceleration, Put(c, table, c.source), c.source + 1, c.source, room)
  }
}
