// How far the compressor has come on the greedy parse, and what is certain when it gives up.
module Lz4Track {
  import opened Lz4Format
  import opened Lz4Count
  import opened Lz4Greedy

  /** The sequences `done` are the start of the parse `whole`, which goes on with a search. */
  ghost predicate OnTrack(whole: Parse, c: Call, acceleration: nat, done: seq<Sequence>, table: seq<nat>, ip: nat, anchor: nat,
                          room: Option<int>)
  {
    && c.Searchable(table, acceleration) && c.source <= anchor <= ip <= c.MfLimitPlusOne()
    && whole == Join(done, Greedy(c, acceleration, table, ip, anchor, room))
  }

  /** The same when it goes on with the match `m` at `ip`. */
  ghost predicate OnChain(whole: Parse, c: Call, acceleration: nat, done: seq<Sequence>, table: seq<nat>, ip: nat, m: nat,
                          anchor: nat, room: Option<int>)
  {
    && c.Searchable(table, acceleration) && c.source <= anchor <= ip < c.MfLimitPlusOne()
    && c.lowLimit <= m < ip <= m + 65535
    && whole == Join(done, Chain(c, acceleration, table, ip, m, anchor, room))
  }

  /** All the sequences are there, and the rest is literals. */
  predicate Settled(whole: Parse, done: seq<Sequence>, anchor: nat) {
    whole.sequences == done && whole.anchor == anchor
  }

  lemma JoinTwice(done: seq<Sequence>, q: Sequence, rest: Parse)
    ensures Join(done, Join([q], rest)) == Join(done + [q], rest)
  {
    assert done + ([q] + rest.sequences) == done + [q] + rest.sequences;
  }

  lemma JoinNothing(done: seq<Sequence>, anchor: nat, table: seq<nat>)
    ensures Settled(Join(done, Parse([], anchor, table)), done, anchor)
  {
    assert done + [] == done;
  }

  // ----- Steps -----

  lemma TrackStarts(c: Call, acceleration: nat, table: seq<nat>, room: Option<int>)
    requires c.Valid() && acceleration >= 1 && c.HashesInto(|table|) && c.inputSize >= 13
    ensures OnTrack(WholeParse(c, acceleration, table, room), c, acceleration, [], Put(c, table, c.source), c.source + 1,
                    c.source, room)
  {
    hide Greedy;
    var whole := WholeParse(c, acceleration, table, room);
    assert [] + whole.sequences == whole.sequences;
  }

  /** What the parse makes of the outcome of a search. */
  lemma GreedyAfterSearch(c: Call, acceleration: nat, table: seq<nat>, ip: nat, anchor: nat, room: Option<int>)
    requires c.Searchable(table, acceleration) && c.source <= anchor <= ip <= c.MfLimitPlusOne()
    ensures match Search(c, table, ip, acceleration, 0)
            case Exhausted(k) =>
              Greedy(c, acceleration, table, ip, anchor, room) == Parse([], anchor, Puts(c, table, ip, acceleration, k))
            case Found(k) =>
              var p, m := Probe(ip, acceleration, k), c.Position(EntryAt(c, table, ip, acceleration, k));
              && ip <= p < c.MfLimitPlusOne() && c.lowLimit <= m < p <= m + 65535 && p <= |c.src|
              && Probe(ip, acceleration, k + 1) <= c.MfLimitPlusOne()
              && var b := Back(c, p, m, anchor);
              && b <= p - anchor && b <= m - c.lowLimit
              && var used := 1 + |Extension(p - b - anchor)| + (p - b - anchor);
              && var next := Puts(c, table, ip, acceleration, k + 1);
                 Greedy(c, acceleration, table, ip, anchor, room)
                 == if Short(room, used + 11) then Parse([], anchor, next)
                    else Chain(c, acceleration, next, p - b, m - b, anchor, Less(room, used))
  {
    hide Search, Puts, Chain, Back, Extension, EntryAt, Probe;
    ProbeFirst(ip, acceleration);
    match Search(c, table, ip, acceleration, 0)
    case Exhausted(k) =>
    case Found(k) =>
      ProbeGrows(ip, acceleration, k);
  }

  lemma TrackExhausted(whole: Parse, c: Call, acceleration: nat, done: seq<Sequence>, table: seq<nat>, ip: nat, anchor: nat,
                       room: Option<int>, k: nat)
    requires OnTrack(whole, c, acceleration, done, table, ip, anchor, room)
    requires Search(c, table, ip, acceleration, 0) == Exhausted(k)
    ensures Settled(whole, done, anchor) && whole.table == Puts(c, table, ip, acceleration, k)
  {
    hide Search, Puts, Greedy;
    GreedyAfterSearch(c, acceleration, table, ip, anchor, room);
    JoinNothing(done, anchor, Puts(c, table, ip, acceleration, k));
  }

  lemma TrackFound(whole: Parse, c: Call, acceleration: nat, done: seq<Sequence>, table: seq<nat>, ip: nat, anchor: nat,
                   room: Option<int>, k: nat, p: nat, m: nat)
    requires OnTrack(whole, c, acceleration, done, table, ip, anchor, room)
    requires Search(c, table, ip, acceleration, 0) == Found(k)
    requires p == Probe(ip, acceleration, k) && m == c.Position(EntryAt(c, table, ip, acceleration, k))
    ensures m <= p <= |c.src|
    ensures var b := Back(c, p, m, anchor);
            && anchor <= p - b && b <= m
            && var lit := p - b - anchor;
               var used := 1 + |Extension(lit)| + lit;
               if Short(room, used + 11) then Settled(whole, done, anchor)
               else OnChain(whole, c, acceleration, done, Puts(c, table, ip, acceleration, k + 1), p - b, m - b, anchor,
                            Less(room, used))
  {
    hide Search, Puts, Greedy, Chain, Back, Extension, EntryAt, Probe;
    GreedyAfterSearch(c, acceleration, table, ip, anchor, room);
    JoinNothing(done, anchor, Puts(c, table, ip, acceleration, k + 1));
  }

  lemma ChainFull(whole: Parse, c: Call, acceleration: nat, done: seq<Sequence>, table: seq<nat>, ip: nat, m: nat, anchor: nat,
                  room: Option<int>)
    requires OnChain(whole, c, acceleration, done, table, ip, m, anchor, room) && Short(room, 11)
    ensures Settled(whole, done, anchor)
  {
    hide Greedy;
    JoinNothing(done, anchor, table);
  }

  lemma ChainCut(whole: Parse, c: Call, acceleration: nat, done: seq<Sequence>, table: seq<nat>, ip: nat, m: nat, anchor: nat,
                 room: Option<int>, mc: nat)
    requires OnChain(whole, c, acceleration, done, table, ip, m, anchor, room) && !Short(room, 11)
    requires mc == CommonRun(c.src, ip + 4, m + 4, c.MatchLimit()) && Short(room, 8 + |Extension(mc)|)
    ensures var cut := 14 + (room.value - 8) * 255;
            Settled(whole, done + [Sequence(c.src[anchor..ip], ip - m, 4 + cut)], ip + 4 + cut)
  {
    hide Greedy, Extension, CommonRun;
  }

  /** The match is as long as it can be: what the parse goes on with. */
  lemma ChainGoesOn(whole: Parse, c: Call, acceleration: nat, done: seq<Sequence>, table: seq<nat>, ip: nat, m: nat,
                    anchor: nat, room: Option<int>, mc: nat)
    requires OnChain(whole, c, acceleration, done, table, ip, m, anchor, room) && !Short(room, 11)
    requires mc == CommonRun(c.src, ip + 4, m + 4, c.MatchLimit()) && !Short(room, 8 + |Extension(mc)|)
    ensures var all, next := done + [Sequence(c.src[anchor..ip], ip - m, 4 + mc)], ip + 4 + mc;
            var left := Less(room, 2 + |Extension(mc)|);
            if next >= c.MfLimitPlusOne() then Settled(whole, all, next) && whole.table == table
            else
              var second := Put(c, table, next - 2);
              var entry := second[c.HashPosition(next)];
              var third := Put(c, second, next);
              if Matches(c, entry, next) then
                c.Position(entry) >= 0
                && OnChain(whole, c, acceleration, all, third, next, c.Position(entry), next, Less(left, 1))
              else OnTrack(whole, c, acceleration, all, third, next + 1, next, left)
  {
    hide Greedy, Extension, CommonRun, Put;
    var q, next := Sequence(c.src[anchor..ip], ip - m, 4 + mc), ip + 4 + mc;
    var left := Less(room, 2 + |Extension(mc)|);
    if next < c.MfLimitPlusOne() {
      var second := Put(c, table, next - 2);
      var entry := second[c.HashPosition(next)];
      var third := Put(c, second, next);
      var rest := if Matches(c, entry, next) then Chain(c, acceleration, third, next, c.Position(entry), next, Less(left, 1))
                  else Greedy(c, acceleration, third, next + 1, next, left);
      JoinTwice(done, q, rest);
    }
  }

  // ----- What the rest of the parse looks like -----

  lemma ChainUnfold(c: Call, acceleration: nat, table: seq<nat>, ip: nat, m: nat, anchor: nat, room: Option<int>)
    requires c.Searchable(table, acceleration) && c.source <= anchor <= ip < c.MfLimitPlusOne()
    requires c.lowLimit <= m < ip <= m + 65535
    ensures var mc := CommonRun(c.src, ip + 4, m + 4, c.MatchLimit());
            var r := Chain(c, acceleration, table, ip, m, anchor, room);
            && ip + 4 + mc + 5 <= c.Iend()
            && if Short(room, 11) then r == Parse([], anchor, table)
               else if Short(room, 8 + |Extension(mc)|) then
                 var cut := 14 + (room.value - 8) * 255;
                 cut < mc && r == Parse([Sequence(c.src[anchor..ip], ip - m, 4 + cut)], ip + 4 + cut, table)
               else
                 var q, next := Sequence(c.src[anchor..ip], ip - m, 4 + mc), ip + 4 + mc;
                 if next >= c.MfLimitPlusOne() then r == Parse([q], next, table)
                 else
                   var left := Less(room, 2 + |Extension(mc)|);
                   var second := Put(c, table, next - 2);
                   var entry := second[c.HashPosition(next)];
                   var third := Put(c, second, next);
                   r == Join([q], if Matches(c, entry, next) then
                                    Chain(c, acceleration, third, next, c.Position(entry), next, Less(left, 1))
                                  else Greedy(c, acceleration, third, next + 1, next, left))
  {
    hide Greedy, Extension, CommonRun, Put, Matches;
    var mc := CommonRun(c.src, ip + 4, m + 4, c.MatchLimit());
    if !Short(room, 11) && Short(room, 8 + |Extension(mc)|) {
      CutIsShorter(room.value, mc);
    }
  }

  lemma {:induction false} GreedyShape(c: Call, acceleration: nat, table: seq<nat>, ip: nat, anchor: nat, room: Option<int>)
    requires c.Searchable(table, acceleration) && c.source <= anchor <= ip <= c.MfLimitPlusOne()
    ensures var r := Greedy(c, acceleration, table, ip, anchor, room);
            && AllEncodable(r.sequences) && anchor <= r.anchor <= c.Iend()
            && (r.sequences == [] ==> r.anchor == anchor)
            && (room.None? && r.sequences != [] ==> r.anchor + 5 <= c.Iend())
    decreases c.Iend() - anchor, 1
  {
    hide Search, Puts, Greedy, Chain, Back, Extension, EntryAt, CommonRun, Probe;
    ProbeFirst(ip, acceleration);
    GreedyAfterSearch(c, acceleration, table, ip, anchor, room);
    match Search(c, table, ip, acceleration, 0)
    case Exhausted(k) =>
    case Found(k) =>
      var p, m := Probe(ip, acceleration, k), c.Position(EntryAt(c, table, ip, acceleration, k));
      var b := Back(c, p, m, anchor);
      var used := 1 + |Extension(p - b - anchor)| + (p - b - anchor);
      if !Short(room, used + 11) {
        ChainShape(c, acceleration, Puts(c, table, ip, acceleration, k + 1), p - b, m - b, anchor, Less(room, used));
      }
  }

  lemma {:induction false} ChainShape(c: Call, acceleration: nat, table: seq<nat>, ip: nat, m: nat, anchor: nat, room: Option<int>)
    requires c.Searchable(table, acceleration) && c.source <= anchor <= ip < c.MfLimitPlusOne()
    requires c.lowLimit <= m < ip <= m + 65535
    ensures var r := Chain(c, acceleration, table, ip, m, anchor, room);
            && AllEncodable(r.sequences) && anchor <= r.anchor <= c.Iend() && (r.sequences == [] ==> r.anchor == anchor)
            && (room.None? ==>
                  && r.anchor + 5 <= c.Iend() && r.sequences != []
                  && r.sequences[0]
                     == Sequence(c.src[anchor..ip], ip - m, 4 + CommonRun(c.src, ip + 4, m + 4, c.MatchLimit())))
    decreases c.Iend() - anchor, 0
  {
    hide Chain, Greedy, Extension, CommonRun, Put;
    ChainUnfold(c, acceleration, table, ip, m, anchor, room);
    var mc := CommonRun(c.src, ip + 4, m + 4, c.MatchLimit());
    var next := ip + 4 + mc;
    if !Short(room, 11) && !Short(room, 8 + |Extension(mc)|) && next < c.MfLimitPlusOne() {
      var left := Less(room, 2 + |Extension(mc)|);
      var second := Put(c, table, next - 2);
      var entry := second[c.HashPosition(next)];
      var third := Put(c, second, next);
      if Matches(c, entry, next) {
        ChainShape(c, acceleration, third, next, c.Position(entry), next, Less(left, 1));
      } else {
        GreedyShape(c, acceleration, third, next + 1, next, left);
      }
    }
  }

  lemma CutIsShorter(room: int, mc: nat)
    requires 11 <= room < 8 + |Extension(mc)|
    ensures 14 + (room - 8) * 255 < mc
  {
  }

  lemma {:induction false} EncodeConcat(a: seq<Sequence>, b: seq<Sequence>)
    requires AllEncodable(a) && AllEncodable(b)
    ensures AllEncodable(a + b) && EncodeSequences(a + b) == EncodeSequences(a) + EncodeSequences(b)
    decreases |b|
  {
    hide EncodeSequence;
    if b == [] {
      assert a + b == a;
    } else {
      var all, front, q := a + b, b[..|b| - 1], b[|b| - 1];
      EncodeConcat(a, front);
      assert all[..|all| - 1] == a + front && all[|all| - 1] == q;
      assert EncodeSequences(all) == EncodeSequences(a + front) + EncodeSequence(q);
    }
  }

  // ----- The block of the parse -----

  lemma WholeShape(c: Call, acceleration: nat, table: seq<nat>, room: Option<int>)
    requires c.Valid() && acceleration >= 1 && c.HashesInto(|table|)
    ensures var p := WholeParse(c, acceleration, table, room);
            AllEncodable(p.sequences) && c.source <= p.anchor <= c.Iend()
  {
    hide Greedy, Put;
    if c.inputSize >= 13 {
      GreedyShape(c, acceleration, Put(c, table, c.source), c.source + 1, c.source, room);
    }
  }

  /** The block that the greedy parse makes: its sequences, and as many last literals as there is room for. */
  ghost function GreedyBlock(c: Call, acceleration: nat, table: seq<nat>, room: Option<int>): (b: Block)
    requires c.Valid() && acceleration >= 1 && c.HashesInto(|table|)
    ensures AllEncodable(b.sequences)
  {
    WholeShape(c, acceleration, table, room);
    var p := WholeParse(c, acceleration, table, room);
    var n := LastRun(c.Iend() - p.anchor, Less(room, |EncodeSequences(p.sequences)|));
    Block(p.sequences, c.src[p.anchor..p.anchor + n])
  }

  // ----- Too large a block -----

  /** The block of the parse does not fit `n` bytes. */
  ghost predicate TooBig(whole: Parse, c: Call, n: int) {
    && AllEncodable(whole.sequences) && whole.anchor <= c.Iend() <= |c.src|
    && |EncodeBlock(Block(whole.sequences, c.src[whole.anchor..c.Iend()]))| > n
  }

  /** Whatever comes after a match, the block is at least as large as its first sequences and six bytes. */
  lemma ChainSize(whole: Parse, c: Call, acceleration: nat, done: seq<Sequence>, table: seq<nat>, ip: nat, m: nat, anchor: nat,
                  mc: nat, n: int)
    requires OnChain(whole, c, acceleration, done, table, ip, m, anchor, None) && AllEncodable(done)
    requires mc == CommonRun(c.src, ip + 4, m + 4, c.MatchLimit())
    requires var lit := ip - anchor;
             |EncodeSequences(done)| + 1 + |Extension(lit)| + lit + 2 + |Extension(mc)| + 6 > n
    ensures TooBig(whole, c, n)
  {
    hide Chain, CommonRun, EncodeSequences, EncodeSequence, Extension, EncodeLast;
    ChainShape(c, acceleration, table, ip, m, anchor, None);
    var rest := Chain(c, acceleration, table, ip, m, anchor, None).sequences;
    EncodeConcat(done, rest);
    assert rest == [rest[0]] + rest[1..];
    EncodeConcat([rest[0]], rest[1..]);
    EncodeOne(rest[0]);
    EncodeSequenceSize(rest[0]);
    EncodeLastSize(c.src[whole.anchor..c.Iend()]);
  }

  lemma EncodeOne(q: Sequence)
    requires Encodable(q)
    ensures AllEncodable([q]) && EncodeSequences([q]) == EncodeSequence(q)
  {
    hide EncodeSequence;
    assert [q][..0] == [];
    assert EncodeSequences([]) == [];
  }

  /** The check before the literals of a sequence only ever refuses blocks that do not fit. */
  lemma LiteralsTooBig(whole: Parse, c: Call, acceleration: nat, done: seq<Sequence>, table: seq<nat>, ip: nat, m: nat,
                       anchor: nat, n: int)
    requires OnChain(whole, c, acceleration, done, table, ip, m, anchor, None) && AllEncodable(done)
    requires |EncodeSequences(done)| + 1 + (ip - anchor) + (2 + 1 + 5) + (ip - anchor) / 255 > n
    ensures TooBig(whole, c, n)
  {
    hide OnChain, EncodeSequences, TooBig;
    OnChainBounds(whole, c, acceleration, done, table, ip, m, anchor, None);
    ShareOfRun(ip - anchor);
    ChainSize(whole, c, acceleration, done, table, ip, m, anchor, CommonRun(c.src, ip + 4, m + 4, c.MatchLimit()), n);
  }

  lemma OnChainBounds(whole: Parse, c: Call, acceleration: nat, done: seq<Sequence>, table: seq<nat>, ip: nat, m: nat,
                      anchor: nat, room: Option<int>)
    requires OnChain(whole, c, acceleration, done, table, ip, m, anchor, room)
    ensures anchor <= ip < c.MfLimitPlusOne() && m < ip && c.Iend() <= |c.src|
  {
    hide Chain;
  }

  lemma ShareOfRun(n: nat)
    ensures n / 255 <= |Extension(n)| == (n + 240) / 255
  {
  }
}
