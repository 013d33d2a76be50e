// The match finder: a lossy hash table of positions, probed with growing steps.
module Lz4Search {
  import opened Lz4Format
  import opened Lz4Count
  import opened Lz4Greedy

  const SKIP_TRIGGER := 64  // 2 to the power of 6

  lemma TableLimitGrows(c: Call, table: seq<nat>, limit: int, limit': int)
    requires c.TableOk(table, limit) && limit <= limit'
    ensures c.TableOk(table, limit')
  {
  }

  /** Storing the index of a position in the bucket of its hash. */
  method PutIndexOnHash(c: Call, table: array<nat>, position: nat, h: nat, ghost limit: int)
    requires c.Valid() && c.source <= position && position + HashWidth(c.tableType) <= |c.src|
    requires c.TableOk(table[..], limit) && h == c.HashPosition(position)
    requires c.tableType == ByU16 ==> c.Index(position) < 65536
    requires c.Index(position) < limit
    modifies table
    ensures c.TableOk(table[..], limit)
    ensures table[..] == Put(c, old(table[..]), position)
  {
    table[h] := c.Index(position);
  }

  /** The acceptance tests on a candidate index. */
  predicate Acceptable(c: Call, matchIndex: nat, current: nat) {
    && !(c.dictIssue == DictSmall && matchIndex < c.PrefixIdxLimit())
    && !(c.tableType != ByU16 && matchIndex + DISTANCE_MAX < current)
  }

  /** An accepted entry lies 1 to 65535 bytes back, inside the available history. */
  lemma AcceptedIsInWindow(c: Call, matchIndex: nat, position: nat)
    requires c.Valid() && c.source <= position
    requires c.EntrySafe(matchIndex) && matchIndex < c.Index(position)
    requires c.tableType == ByU16 ==> c.Index(position) < 65536
    requires Acceptable(c, matchIndex, c.Index(position))
    ensures c.lowLimit <= c.Position(matchIndex) < position
    ensures 1 <= position - c.Position(matchIndex) <= DISTANCE_MAX
  {
  }

  /** The acceptance tests let an entry through exactly when it stands for a position in the window. */
  lemma AcceptableIsFit(c: Call, matchIndex: nat, position: nat)
    requires c.Valid() && c.source <= position && position + 4 <= |c.src|
    requires c.EntrySafe(matchIndex) && matchIndex < c.Index(position)
    requires c.tableType == ByU16 ==> c.Index(position) < 65536
    ensures Acceptable(c, matchIndex, c.Index(position)) ==> c.lowLimit <= c.Position(matchIndex) < position
    ensures Matches(c, matchIndex, position) <==>
            Acceptable(c, matchIndex, c.Index(position))
            && var m := c.Position(matchIndex); c.src[m..m + 4] == c.src[position..position + 4]
  {
    if Acceptable(c, matchIndex, c.Index(position)) {
      AcceptedIsInWindow(c, matchIndex, position);
    }
  }

  lemma FitIsMatch(c: Call, entry: nat, position: nat)
    requires position + 4 <= |c.src| && Matches(c, entry, position)
    ensures c.MatchAt(c.Position(entry), position, MIN_MATCH)
  {
  }

  /** A search from `ip0` on the table `was` has made `k` probes in vain and looks at `forwardIp` next. */
  ghost predicate Hunting(c: Call, was: seq<nat>, now: seq<nat>, ip0: nat, acceleration: nat, k: nat, forwardIp: nat)
  {
    && c.Searchable(was, acceleration) && c.source <= ip0
    && forwardIp == Probe(ip0, acceleration, k) <= c.MfLimitPlusOne()
    && now == Puts(c, was, ip0, acceleration, k)
    && NoneMatches(c, was, ip0, acceleration, 0, k)
    && Search(c, was, ip0, acceleration, 0) == Search(c, was, ip0, acceleration, k)
  }

  /** The outcome of a search: after `k` probes in vain the next one finds a match, `m` for `ip`, or comes too late. */
  ghost predicate Hunted(c: Call, was: seq<nat>, now: seq<nat>, ip0: nat, acceleration: nat, found: bool, ip: nat, m: nat,
                         k: nat)
  {
    && c.Searchable(was, acceleration) && c.source <= ip0
    && Probe(ip0, acceleration, k) <= c.MfLimitPlusOne() && NoneMatches(c, was, ip0, acceleration, 0, k)
    && (found <==> Probe(ip0, acceleration, k + 1) <= c.MfLimitPlusOne())
    && (found ==>
          && ip == Probe(ip0, acceleration, k) && Matches(c, EntryAt(c, was, ip0, acceleration, k), ip)
          && m == c.Position(EntryAt(c, was, ip0, acceleration, k)))
    && now == Puts(c, was, ip0, acceleration, if found then k + 1 else k)
    && Search(c, was, ip0, acceleration, 0) == if found then Found(k) else Exhausted(k)
  }

  lemma HuntStarts(c: Call, table: seq<nat>, ip0: nat, acceleration: nat)
    requires c.Searchable(table, acceleration) && c.source <= ip0 <= c.MfLimitPlusOne()
    ensures Hunting(c, table, table, ip0, acceleration, 0, ip0)
  {
    hide Search;
  }

  lemma HuntFails(c: Call, was: seq<nat>, now: seq<nat>, ip0: nat, acceleration: nat, k: nat, ip: nat, m: nat)
    requires Hunting(c, was, now, ip0, acceleration, k, ip)
    requires ip + Step(acceleration, k) > c.MfLimitPlusOne()
    ensures Hunted(c, was, now, ip0, acceleration, false, ip, m, k)
  {
    hide Matches, EntryAt, Puts, NoneMatches;
    SearchUnfold(c, was, ip0, acceleration, k);
  }

  lemma HuntMisses(c: Call, was: seq<nat>, now: seq<nat>, ip0: nat, acceleration: nat, k: nat, ip: nat, h: nat)
    requires Hunting(c, was, now, ip0, acceleration, k, ip)
    requires ip + Step(acceleration, k) <= c.MfLimitPlusOne() && h == c.HashPosition(ip) < |now|
    requires !Matches(c, now[h], ip)
    ensures Hunting(c, was, Put(c, now, ip), ip0, acceleration, k + 1, ip + Step(acceleration, k))
  {
    hide Matches, Search, Puts, Probe, EntryAt, NoneMatches, Put;
    PutsNext(c, was, ip0, acceleration, k);
    SearchUnfold(c, was, ip0, acceleration, k);
    NoneMatchesNext(c, was, ip0, acceleration, 0, k);
  }

  lemma HuntSucceeds(c: Call, was: seq<nat>, now: seq<nat>, ip0: nat, acceleration: nat, k: nat, ip: nat, h: nat)
    requires Hunting(c, was, now, ip0, acceleration, k, ip)
    requires ip + Step(acceleration, k) <= c.MfLimitPlusOne() && h == c.HashPosition(ip) < |now|
    requires Matches(c, now[h], ip)
    ensures Hunted(c, was, Put(c, now, ip), ip0, acceleration, true, ip, c.Position(now[h]), k)
  {
    hide Matches, Search, Puts, Probe, EntryAt, NoneMatches, Put;
    PutsNext(c, was, ip0, acceleration, k);
    SearchUnfold(c, was, ip0, acceleration, k);
  }

  /** The tests on the entry that the hash of `ip` finds, which gives way to the index of `ip`. */
  method TestCandidate(c: Call, table: array<nat>, ip: nat, h: nat) returns (found: bool, m: nat)
    requires c.Valid() && c.source <= ip < c.MfLimitPlusOne() && c.TableOk(table[..], c.Index(ip))
    requires h == c.HashPosition(ip)
    modifies table
    ensures c.TableOk(table[..], c.Index(ip) + 1)
    ensures h < table.Length && table[..] == Put(c, old(table[..]), ip)
    ensures found <==> Matches(c, old(table[h]), ip)
    ensures found ==> c.MatchAt(m, ip, MIN_MATCH) && m == c.Position(old(table[h]))
  {
    TableHashes(c, table[..], c.Index(ip));
    EntryBounds(c, table[..], h, c.Index(ip));
    hide Call.TableOk, Matches;
    var current := c.Index(ip);
    var matchIndex := table[h];
    TableLimitGrows(c, table[..], c.Index(ip), c.Index(ip) + 1);
    PutIndexOnHash(c, table, ip, h, c.Index(ip) + 1);
    AcceptableIsFit(c, matchIndex, ip);
    found, m := false, 0;
    if Acceptable(c, matchIndex, current) {
      m := c.Position(matchIndex);
      found := c.src[m..m + 4] == c.src[ip..ip + 4];
      if found {
        FitIsMatch(c, matchIndex, ip);
      }
    }
  }

  /** The search loop: candidates at growing distances until four bytes agree. */
  method FindMatch(c: Call, table: array<nat>, ip0: nat, forwardH0: nat, acceleration: nat)
    returns (found: bool, ip: nat, m: nat, ghost k: nat)
    requires c.Valid() && c.source <= ip0 && ip0 <= c.MfLimitPlusOne()
    requires c.inputSize >= MIN_LENGTH
    requires c.TableOk(table[..], c.Index(ip0))
    requires forwardH0 == c.HashPosition(ip0)
    requires acceleration >= 1
    modifies table
    ensures found ==> ip0 <= ip < c.MfLimitPlusOne() && c.MatchAt(m, ip, MIN_MATCH) && c.TableOk(table[..], c.Index(ip) + 1)
    ensures !found ==> c.TableOk(table[..], c.Index(c.Iend()))
    ensures Hunted(c, old(table[..]), table[..], ip0, acceleration, found, ip, m, k)
  {
    TableHashes(c, table[..], c.Index(ip0));
    HuntStarts(c, table[..], ip0, acceleration);
    hide Call.TableOk, Call.MatchAt, Matches, Hunting, Hunted, Put;
    var forwardH, forwardIp, step, searchMatchNb := forwardH0, ip0, 1, acceleration * SKIP_TRIGGER;
    ip, m, k := ip0, 0, 0;
    while true
      invariant ip0 <= forwardIp <= c.MfLimitPlusOne()
      invariant step == Step(acceleration, k) && searchMatchNb == 64 * acceleration + k
      invariant c.TableOk(table[..], c.Index(forwardIp)) && forwardH == c.HashPosition(forwardIp)
      invariant Hunting(c, old(table[..]), table[..], ip0, acceleration, k, forwardIp)
      decreases c.MfLimitPlusOne() - forwardIp
    {
      ghost var was := table[..];
      var h := forwardH;
      ip := forwardIp;
      forwardIp := forwardIp + step;
      step := searchMatchNb / SKIP_TRIGGER;
      searchMatchNb := searchMatchNb + 1;
      if forwardIp > c.MfLimitPlusOne() {
        TableLimitGrows(c, table[..], c.Index(ip), c.Index(c.Iend()));
        HuntFails(c, old(table[..]), was, ip0, acceleration, k, ip, m);
        return false, ip, m, k;
      }
      forwardH := c.HashPosition(forwardIp);
      found, m := TestCandidate(c, table, ip, h);
      if found {
        HuntSucceeds(c, old(table[..]), was, ip0, acceleration, k, ip, h);
        return true, ip, m, k;
      }
      HuntMisses(c, old(table[..]), was, ip0, acceleration, k, ip, h);
      TableLimitGrows(c, table[..], c.Index(ip) + 1, c.Index(forwardIp));
      k := k + 1;
    }
  }

  lemma TableHashes(c: Call, table: seq<nat>, limit: int)
    requires c.TableOk(table, limit)
    ensures c.HashesInto(|table|)
  {
  }

  lemma EntryBounds(c: Call, table: seq<nat>, h: nat, limit: int)
    requires c.TableOk(table, limit) && h < |table|
    ensures table[h] < limit && c.EntrySafe(table[h])
  {
  }

  lemma SearchUnfold(c: Call, table: seq<nat>, ip: nat, acceleration: nat, k: nat)
    requires c.Searchable(table, acceleration) && c.source <= ip
    requires Probe(ip, acceleration, k) <= c.MfLimitPlusOne()
    ensures Search(c, table, ip, acceleration, k)
            == if Probe(ip, acceleration, k + 1) > c.MfLimitPlusOne() then Exhausted(k)
               else if Matches(c, EntryAt(c, table, ip, acceleration, k), Probe(ip, acceleration, k)) then Found(k)
               else Search(c, table, ip, acceleration, k + 1)
  {
    hide Matches, EntryAt, Probe;
  }

  lemma MatchBack(c: Call, m: nat, ip: nat, n: nat)
    requires c.MatchAt(m, ip, n) && m > c.lowLimit && c.src[ip - 1] == c.src[m - 1]
    ensures c.MatchAt(m - 1, ip - 1, n + 1)
  {
    OneByteMore(c.src, m - 1, ip - 1, n + 1);
  }

  lemma MatchBounds(c: Call, m: nat, ip: nat, n: nat)
    requires c.MatchAt(m, ip, n)
    ensures c.lowLimit <= m < ip && ip + n <= |c.src|
  {
  }

  lemma BackUnfold(c: Call, ip: nat, m: nat, anchor: nat)
    requires m <= ip <= |c.src|
    ensures Back(c, ip, m, anchor)
            == if ip > anchor && m > c.lowLimit && c.src[ip - 1] == c.src[m - 1] then 1 + Back(c, ip - 1, m - 1, anchor) else 0
  {
  }

  /** Extends a match backwards over equal bytes. */
  method CatchUp(c: Call, ip0: nat, m0: nat, anchor: nat) returns (ip: nat, m: nat)
    requires c.Valid() && c.source <= anchor <= ip0 && c.MatchAt(m0, ip0, MIN_MATCH)
    ensures anchor <= ip <= ip0 && ip0 - ip == m0 - m
    ensures c.MatchAt(m, ip, MIN_MATCH + (ip0 - ip))
    ensures ip0 - ip == Back(c, ip0, m0, anchor)
  {
    hide Call.MatchAt, Back;
    ip, m := ip0, m0;
    MatchBounds(c, m, ip, MIN_MATCH);
    BackUnfold(c, ip, m, anchor);
    while ip > anchor && m > c.lowLimit && c.src[ip - 1] == c.src[m - 1]
      invariant anchor <= ip <= ip0 && ip0 - ip == m0 - m && m < ip
      invariant c.MatchAt(m, ip, MIN_MATCH + (ip0 - ip))
      invariant Back(c, ip0, m0, anchor) == ip0 - ip + Back(c, ip, m, anchor)
    {
      BackUnfold(c, ip, m, anchor);
      MatchBack(c, m, ip, MIN_MATCH + (ip0 - ip));
      ip, m := ip - 1, m - 1;
    }
    BackUnfold(c, ip, m, anchor);
  }

  /** Counting past the first four bytes completes the match. */
  lemma MatchExtends(c: Call, m: nat, ip: nat, known: nat, matchCode: nat)
    requires c.Valid() && c.MatchAt(m, ip, known) && known >= MIN_MATCH
    requires ip + known <= c.MatchLimit()
    requires matchCode == CommonRun(c.src, ip + MIN_MATCH, m + MIN_MATCH, c.MatchLimit())
    ensures ip + MIN_MATCH + matchCode <= c.MatchLimit()
    ensures matchCode + MIN_MATCH >= known
    ensures c.MatchAt(m, ip, MIN_MATCH + matchCode)
  {
    hide CommonRun;
    CountedRun(c.src, m, ip, known, matchCode, c.MatchLimit());
  }

  lemma CountedRun(src: seq<byte>, m: nat, ip: nat, known: nat, matchCode: nat, limit: nat)
    requires m < ip && MIN_MATCH <= known && ip + known <= limit <= |src|
    requires src[m..m + known] == src[ip..ip + known]
    requires matchCode == CommonRun(src, ip + MIN_MATCH, m + MIN_MATCH, limit)
    ensures known <= MIN_MATCH + matchCode && ip + MIN_MATCH + matchCode <= limit
    ensures src[m..m + MIN_MATCH + matchCode] == src[ip..ip + MIN_MATCH + matchCode]
  {
    hide CommonRun;
    CommonRunLongest(src, ip + MIN_MATCH, m + MIN_MATCH, limit);
    EqualSlicesSplit(src, m, ip, known, MIN_MATCH);
    CommonRunSkip(src, ip + MIN_MATCH, m + MIN_MATCH, limit, known - MIN_MATCH);
    EqualSlicesJoin(src, m, ip, MIN_MATCH, matchCode);
  }

  lemma EqualSlicesSplit(src: seq<byte>, m: nat, ip: nat, n: nat, k: nat)
    requires k <= n && m + n <= |src| && ip + n <= |src|
    requires src[m..m + n] == src[ip..ip + n]
    ensures src[m..m + k] == src[ip..ip + k]
    ensures src[m + k..m + n] == src[ip + k..ip + n]
  {
    assert src[m..m + k] == src[m..m + n][..k];
    assert src[ip..ip + k] == src[ip..ip + n][..k];
    assert src[m + k..m + n] == src[m..m + n][k..];
    assert src[ip + k..ip + n] == src[ip..ip + n][k..];
  }

  lemma EqualSlicesJoin(src: seq<byte>, m: nat, ip: nat, k: nat, n: nat)
    requires m + k + n <= |src| && ip + k + n <= |src|
    requires src[m..m + k] == src[ip..ip + k]
    requires src[m + k..m + k + n] == src[ip + k..ip + k + n]
    ensures src[m..m + k + n] == src[ip..ip + k + n]
  {
    assert src[m..m + k + n] == src[m..m + k] + src[m + k..m + k + n];
    assert src[ip..ip + k + n] == src[ip..ip + k] + src[ip + k..ip + k + n];
  }

  /** Replaying a match from the history reproduces the source. */
  lemma {:induction false} MatchReplays(src: seq<byte>, low: nat, m: nat, ip: nat, n: nat)
    requires low <= m < ip && ip + n <= |src|
    requires src[m..m + n] == src[ip..ip + n]
    ensures CopyMatch(src[low..ip], ip - m, n) == src[low..ip + n]
  {
    var g := src[low..ip + n];
    forall k | ip - low <= k < |g| ensures g[k] == g[k - (ip - m)] {
      assert g[k] == src[ip..ip + n][k - (ip - low)];
      assert g[k - (ip - m)] == src[m..m + n][k - (ip - low)];
    }
    CopyMatchUnique(src[low..ip], ip - m, n, g);
  }

  /** One of the positions from `from` to before `end` has the hash `b`. */
  ghost predicate Hashed(c: Call, from: nat, end: nat, b: nat)
    requires end + HashWidth(c.tableType) <= |c.src| + 1
  {
    exists p: nat :: from <= p < end && c.HashPosition(p) == b
  }

  /** Clears the buckets of the positions `from..=last`. */
  method ClearHashes(c: Call, table: array<nat>, from: nat, last: nat)
    requires c.Valid() && c.source < from && last + HashWidth(c.tableType) <= |c.src|
    requires c.TableOk(table[..], c.Index(last) + 1)
    requires c.EntrySafe(0)
    modifies table
    ensures c.TableOk(table[..], if from <= last then c.Index(from) else c.Index(last) + 1)
    ensures forall b :: 0 <= b < table.Length ==> table[b] == if Hashed(c, from, last + 1, b) then 0 else old(table[b])
  {
    if from > last {
      return;
    }
    for ptr := from to last + 1
      invariant c.TableOk(table[..], c.Index(last) + 1)
      invariant forall b :: 0 <= b < table.Length ==> !(c.Index(from) <= table[b] < c.Index(ptr))
      invariant forall b :: 0 <= b < table.Length ==> table[b] == if Hashed(c, from, ptr, b) then 0 else old(table[b])
    {
      var h := c.HashPosition(ptr);
      table[h] := 0;
      HashedNext(c, from, ptr, table.Length);
    }
  }

  lemma HashedNext(c: Call, from: nat, ptr: nat, n: nat)
    requires from <= ptr && ptr + HashWidth(c.tableType) <= |c.src|
    ensures forall b: nat :: b < n ==> (Hashed(c, from, ptr + 1, b) <==> Hashed(c, from, ptr, b) || c.HashPosition(ptr) == b)
  {
    forall b: nat | b < n
      ensures Hashed(c, from, ptr + 1, b) <==> Hashed(c, from, ptr, b) || c.HashPosition(ptr) == b
    {
      if Hashed(c, from, ptr, b) {
        var p: nat :| from <= p < ptr && c.HashPosition(p) == b;
        assert from <= p < ptr + 1;
      }
    }
  }
}
