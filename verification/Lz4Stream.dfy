// Compression streams: one hash table reused over fast resets, renormalisations and blocks that
// continue each other.  Memory is a sequence of bytes and pointers are positions in it.
module Lz4Stream {
  import opened Lz4Format
  import opened Lz4Copy
  import opened Lz4Greedy
  import opened Lz4Track
  import opened Lz4Compress

  const GB := 1024 * 1024 * 1024
  const INT_MAX := 0x7FFF_FFFF
  const U32_LIMIT := 0x1_0000_0000
  const ACCELERATION_DEFAULT := 1
  const ACCELERATION_MAX := 65537

  /** Where the bytes before the block may be used: not at all, or `dictSize` of them. */
  datatype DictDirective = NoDict | WithPrefix64k

  /** Accelerations below one stand for one, and those above 65537 for 65537. */
  function Clamp(acceleration: int): (r: nat)
    ensures 1 <= r <= 65537
    ensures 1 <= acceleration <= 65537 ==> r == acceleration
    ensures acceleration < 1 ==> r == 1
    ensures acceleration > 65537 ==> r == 65537
  {
    if acceleration < 1 then ACCELERATION_DEFAULT
    else if acceleration > ACCELERATION_MAX then ACCELERATION_MAX
    else acceleration
  }

  /** An entry after renormalisation by `delta`. */
  function Renormalised(entry: nat, delta: nat): nat {
    if entry < delta then 0 else entry - delta
  }

  /** Renormalisation keeps the distance of every entry within 64 KB of the current offset, and puts
      every other entry out of reach of any position that is still to be compressed. */
  lemma RenormKeepsDistances(entry: nat, currentOffset: nat, position: nat)
    requires currentOffset > 64 * KB && entry < currentOffset
    ensures var delta := currentOffset - 64 * KB;
            var e := Renormalised(entry, delta);
            && e < 64 * KB
            && (currentOffset - entry <= 64 * KB ==> 64 * KB - e == currentOffset - entry)
            && (currentOffset - entry > 64 * KB && position >= 64 * KB ==> e + DISTANCE_MAX < position)
  {
  }

  class Stream {
    const hash: (TableType, seq<byte>) -> nat
    const hashTable: array<nat>
    var currentOffset: nat
    var tableType: Option<TableType>  // None stands for clearedTable
    var dictionary: Option<nat>       // None stands for NULL
    var dictSize: nat

    ghost predicate HashesFit()
      reads this
    {
      forall t, w :: hash(t, w) < hashTable.Length
    }

    /** Entries refer to positions already given an index; an unused table is all zero. */
    ghost predicate Valid()
      reads this, hashTable
    {
      && HashesFit()
      && (forall b :: 0 <= b < hashTable.Length ==> hashTable[b] < currentOffset || hashTable[b] == 0)
      && (tableType.None? ==> currentOffset == 0)
      && (tableType == Some(ByU16) ==> currentOffset < LIMIT_64K)
      && dictSize <= currentOffset
      && currentOffset < U32_LIMIT
    }

    /** The invariant of a stream used with the continue interface only. */
    ghost predicate Continuing()
      reads this, hashTable
    {
      Valid() && (tableType == None || tableType == Some(ByU32)) && currentOffset <= 0x8000_0000
    }

    constructor (hash: (TableType, seq<byte>) -> nat, size: nat)
      requires forall t, w :: hash(t, w) < size
      ensures Valid() && Continuing() && fresh(hashTable)
      ensures currentOffset == 0 && tableType == None && dictionary == None && dictSize == 0
      ensures this.hash == hash
    {
      this.hash := hash;
      hashTable := new nat[size](_ => 0);
      currentOffset, tableType, dictionary, dictSize := 0, None, None, 0;
    }

    method ClearTable()
      modifies hashTable
      ensures forall b :: 0 <= b < hashTable.Length ==> hashTable[b] == 0
    {
      for i := 0 to hashTable.Length
        invariant forall b :: 0 <= b < i ==> hashTable[b] == 0
      {
        hashTable[i] := 0;
      }
    }

    /** LZ4_initStream on a stream that exists already. */
    method Init()
      requires HashesFit()
      modifies this, hashTable
      ensures Continuing()
      ensures currentOffset == 0 && tableType == None && dictionary == None && dictSize == 0
    {
      ClearTable();
      currentOffset, tableType, dictionary, dictSize := 0, None, None, 0;
    }

    /** No entry of the table can be taken for history by a block that starts at `currentOffset`. */
    ghost predicate HistoryUnreachable(tt: TableType)
      reads this, hashTable
    {
      forall b :: 0 <= b < hashTable.Length ==>
        hashTable[b] >= currentOffset || (tt == ByU32 && hashTable[b] + DISTANCE_MAX < currentOffset) || tt == ByU16
    }

    /** When the table must be cleared before a block of `inputSize` bytes. */
    ghost predicate MustClear(inputSize: nat, tt: TableType)
      reads this
    {
      tableType != None
      && (tableType != Some(tt) || inputSize >= 4096
          || (tt == ByU16 && currentOffset + inputSize >= 0xFFFF) || (tt == ByU32 && currentOffset > 0x4000_0000))
    }

    /** The table and the index that a block of `inputSize` bytes starts with. */
    ghost function PreparedTable(inputSize: nat, tt: TableType): seq<nat>
      reads this, hashTable
    {
      if MustClear(inputSize, tt) then seq(hashTable.Length, _ => 0) else hashTable[..]
    }

    ghost function PreparedOffset(inputSize: nat, tt: TableType): nat
      reads this
    {
      if MustClear(inputSize, tt) || currentOffset == 0 then 0
      else if tt == ByU32 then currentOffset + 65536
      else currentOffset
    }

    /** LZ4_prepareTable. */
    method PrepareTable(inputSize: nat, tt: TableType)
      requires Valid()
      modifies this, hashTable
      ensures Valid()
      ensures dictionary == None && dictSize == 0
      ensures tableType == None || tableType == Some(tt)
      ensures tt == ByU32 ==> HistoryUnreachable(tt)
      ensures currentOffset == 0 ==> forall b :: 0 <= b < hashTable.Length ==> hashTable[b] == 0
      ensures tt == ByU32 && inputSize >= 4 * KB ==> currentOffset == 0
      ensures tt == ByU32 ==> currentOffset <= GB + 64 * KB
      ensures tt == ByU16 && currentOffset != 0 ==> currentOffset + inputSize < 0xFFFF
      ensures old(Continuing()) && tt == ByU32 ==> Continuing()
      ensures hashTable[..] == old(PreparedTable(inputSize, tt)) && currentOffset == old(PreparedOffset(inputSize, tt))
      ensures tableType == if old(MustClear(inputSize, tt)) then None else old(tableType)
    {
      if tableType != None {
        if tableType != Some(tt)
           || (tt == ByU16 && currentOffset + inputSize >= 0xFFFF)
           || (tt == ByU32 && currentOffset > GB)
           || inputSize >= 4 * KB {
          ClearTable();
          currentOffset, tableType := 0, None;
        }
      }
      if currentOffset != 0 && tt == ByU32 {
        currentOffset := currentOffset + 64 * KB;
      }
      dictionary, dictSize := None, 0;
    }

    /** LZ4_resetStream_fast. */
    method ResetFast()
      requires Continuing()
      modifies this, hashTable
      ensures Continuing() && dictionary == None && dictSize == 0
      ensures HistoryUnreachable(ByU32)
      ensures hashTable[..] == old(PreparedTable(0, ByU32)) && currentOffset == old(PreparedOffset(0, ByU32))
    {
      PrepareTable(0, ByU32);
    }

    /** LZ4_renormDictT: rescales the table before indices overflow. */
    method RenormDictT(nextSize: nat)
      requires Continuing() && nextSize <= INT_MAX
      requires dictionary.Some? || dictSize == 0
      modifies this, hashTable
      ensures Continuing()
      ensures old(currentOffset) + nextSize <= 0x8000_0000 ==>
        && currentOffset == old(currentOffset) && dictSize == old(dictSize) && dictionary == old(dictionary)
        && hashTable[..] == old(hashTable[..])
      ensures old(currentOffset) + nextSize > 0x8000_0000 ==>
        currentOffset == 64 * KB && dictSize == (if old(dictSize) > 64 * KB then 64 * KB else old(dictSize))
      ensures old(currentOffset) + nextSize > 0x8000_0000 && nextSize <= MAX_INPUT_SIZE ==>
        && (forall b :: 0 <= b < hashTable.Length ==>
              hashTable[b] == Renormalised(old(hashTable[b]), old(currentOffset) - 64 * KB))
      ensures tableType == old(tableType) && dictSize <= old(dictSize)
      ensures dictionary.Some? <==> old(dictionary).Some?
      ensures dictionary.Some? ==> dictionary.value + dictSize == old(dictionary).value + old(dictSize)
    {
      if currentOffset + nextSize > 0x8000_0000 {
        var delta := (currentOffset - 64 * KB) % U32_LIMIT;  // wraps for an oversized nextSize
        for i := 0 to hashTable.Length
          modifies hashTable
          invariant forall b :: 0 <= b < i ==> hashTable[b] == Renormalised(old(hashTable[b]), delta)
          invariant forall b :: i <= b < hashTable.Length ==> hashTable[b] == old(hashTable[b])
        {
          hashTable[i] := if hashTable[i] < delta then 0 else hashTable[i] - delta;
        }
        currentOffset := 64 * KB;
        var was := dictSize;
        if dictSize > 64 * KB {
          dictSize := 64 * KB;
        }
        if dictionary.Some? {
          dictionary := Some(dictionary.value + was - dictSize);
        }
      }
    }

    /** What renormalisation before a block of `size` bytes makes of the table, the offset and the history. */
    ghost predicate MustRescale(size: nat)
      reads this
    {
      currentOffset + size > 0x8000_0000
    }

    ghost function RescaledTable(size: nat): seq<nat>
      requires currentOffset >= 65536 || !MustRescale(size)
      reads this, hashTable
    {
      if !MustRescale(size) then hashTable[..]
      else seq(hashTable.Length, b requires 0 <= b < hashTable.Length reads this, hashTable =>
                 if hashTable[b] + 65536 < currentOffset then 0 else hashTable[b] + 65536 - currentOffset)
    }

    ghost function RescaledOffset(size: nat): nat
      reads this
    {
      if MustRescale(size) then 65536 else currentOffset
    }

    /** The history that a block may refer to: all of it, but no more than 64 KB of it after renormalisation. */
    ghost function History(size: nat): nat
      reads this
    {
      if MustRescale(size) && dictSize > 65536 then 65536 else dictSize
    }

    // ----- One block -----

    /** The outcome of compressing into `budget` bytes: exactly the greedy block, or nothing if it is larger. */
    ghost predicate Outcome(c: Call, acceleration: nat, was: seq<nat>, dest: seq<byte>, start: nat, budget: int, result: nat)
      requires c.Valid() && acceleration >= 1 && c.HashesInto(|was|)
      reads hashTable
    {
      var b := GreedyBlock(c, acceleration, was, None);
      && (result == 0 <==> |EncodeBlock(b)| > budget)
      && (result > 0 ==>
            && start + result <= |dest| && dest[start..start + result] == EncodeBlock(b)
            && hashTable[..] == WholeParse(c, acceleration, was, None).table)
    }

    /** The call record for a block at `source` of memory `src`. */
    ghost function CallFor(src: seq<byte>, source: nat, inputSize: nat, tt: TableType, dict: DictDirective, issue: DictIssue): Call
      reads this
      requires dict == WithPrefix64k ==> dictSize <= source
    {
      Call(src, source, inputSize, currentOffset, if dict == WithPrefix64k then source - dictSize else source, tt, issue, hash)
    }

    /** Entries of earlier blocks that are safe make a table the block compressor can start with. */
    lemma TableReady(c: Call)
      requires Valid() && c.startIndex == currentOffset && c.hash == hash
      requires forall b :: 0 <= b < hashTable.Length ==> c.EntrySafe(hashTable[b])
      ensures c.TableOk(hashTable[..], c.startIndex + 1) && c.HashesInto(hashTable.Length)
      ensures c.startIndex == 0 && c.lowLimit <= c.source ==> c.EntrySafe(0)
    {
    }

    lemma EntriesBelow(c: Call, limit: int)
      requires c.TableOk(hashTable[..], limit)
      ensures forall b :: 0 <= b < hashTable.Length ==> hashTable[b] < limit
    {
      hide Call.EntrySafe;
      forall b | 0 <= b < hashTable.Length ensures hashTable[b] < limit {
        assert hashTable[..][b] < limit;
      }
    }

    /** LZ4_compress_generic_validated.  The block may match into the history of the stream in prefix
        mode; entries that could lead elsewhere are filtered, too far, or absent. */
    method CompressGenericValidated(src: seq<byte>, source: nat, dest: array<byte>, start: nat, inputSize: nat,
                                    maxOutputSize: int, directive: Directive, tt: TableType, dict: DictDirective,
                                    issue: DictIssue, acceleration: nat) returns (result: nat, inputConsumed: nat)
      requires Valid() && dest != hashTable as object
      requires 0 < inputSize <= MAX_INPUT_SIZE && source + inputSize <= |src| && acceleration >= 1
      requires directive == NotLimited ==> start + CompressBound(inputSize) <= dest.Length
      requires start <= dest.Length && start + maxOutputSize <= dest.Length
      requires tableType == None || tableType == Some(tt)
      requires currentOffset + inputSize < U32_LIMIT
      requires dict == NoDict ==> dictSize == 0
      requires dict == WithPrefix64k ==> dictSize <= source && tt == ByU32
      requires tt == ByU16 && inputSize < LIMIT_64K ==> currentOffset + inputSize < LIMIT_64K
      requires forall b :: 0 <= b < hashTable.Length ==> CallFor(src, source, inputSize, tt, dict, issue).EntrySafe(hashTable[b])
      requires directive == FillOutput ==> currentOffset == 0
      modifies this, hashTable, dest
      ensures Valid()
      ensures dictionary == old(dictionary)
      ensures tableType == old(tableType) || tableType == Some(tt)
      ensures var cap := if directive == NotLimited then start + CompressBound(inputSize) else start + maxOutputSize;
              SameOutside(old(dest[..]), dest[..], start, cap) && start + result <= (if start <= cap then cap else start)
      ensures result == 0 ==>
        || (tt == ByU16 && inputSize >= LIMIT_64K)
        || (directive == FillOutput && maxOutputSize < 1)
        || (directive == LimitedOutput && maxOutputSize < CompressBound(inputSize))
      ensures result > 0 || (directive != FillOutput && tt == ByU32) ==>
        && currentOffset == old(currentOffset) + inputSize && dictSize == old(dictSize) + inputSize
      ensures currentOffset <= old(currentOffset) + inputSize
      ensures inputConsumed <= inputSize
      ensures result > 0 ==>
        && (directive != FillOutput ==> inputConsumed == inputSize)
        && (inputConsumed == inputSize || result + 1 >= maxOutputSize)
        && result <= CompressBound(inputConsumed)
        && var low := if dict == WithPrefix64k then source - old(dictSize) else source;
           Compressed(dest[start..start + result], src[low..source], src[low..source + inputConsumed])
      ensures !(directive == FillOutput && maxOutputSize < 1) && !(tt == ByU16 && inputSize >= 65547) ==>
        var c := old(CallFor(src, source, inputSize, tt, dict, issue));
        && c.Valid() && c.HashesInto(hashTable.Length)
        && GreedilyDone(c, directive, maxOutputSize, acceleration, old(hashTable[..]), hashTable[..], dest[..], start, result,
                        inputConsumed)
    {
      hide Compressed, Call.TableOk, Call.EntrySafe, Call.HashesInto, GreedilyDone;
      if directive == FillOutput && maxOutputSize < 1 {
        return 0, 0;
      }
      if tt == ByU16 && inputSize >= LIMIT_64K {
        return 0, 0;
      }
      var low := if dict == WithPrefix64k then source - dictSize else source;
      var c := Call(src, source, inputSize, currentOffset, low, tt, issue, hash);
      var olimit := start + maxOutputSize;
      var cap := if directive == NotLimited then start + CompressBound(inputSize) else if olimit < start then start else olimit;
      var t := Target(start, cap, olimit, directive);
      TableReady(c);
      dictSize := dictSize + inputSize;
      currentOffset := currentOffset + inputSize;
      tableType := Some(tt);
      result, inputConsumed := CompressBlock(c, t, dest, hashTable, acceleration);
      EntriesBelow(c, if c.inputSize < MIN_LENGTH then c.startIndex + 1 else c.Index(c.Iend()));
    }

    /** LZ4_compress_generic: unsupported and empty inputs, then the block compressor. */
    method CompressGeneric(src: seq<byte>, source: nat, dest: array<byte>, start: nat, srcSize: int,
                           dstCapacity: int, directive: Directive, tt: TableType, dict: DictDirective,
                           issue: DictIssue, acceleration: nat) returns (result: nat, inputConsumed: nat)
      requires Valid() && dest != hashTable as object
      requires source + srcSize <= |src| && source <= |src| && acceleration >= 1
      requires directive == NotLimited && 0 <= srcSize <= MAX_INPUT_SIZE ==> start + CompressBound(srcSize) <= dest.Length
      requires start <= dest.Length && start + dstCapacity <= dest.Length
      requires tableType == None || tableType == Some(tt)
      requires 0 < srcSize <= MAX_INPUT_SIZE ==> currentOffset + srcSize < U32_LIMIT
      requires dict == NoDict ==> dictSize == 0
      requires dict == WithPrefix64k ==> dictSize <= source && tt == ByU32
      requires tt == ByU16 && 0 < srcSize < LIMIT_64K ==> currentOffset + srcSize < LIMIT_64K
      requires srcSize > 0 ==> forall b :: 0 <= b < hashTable.Length ==>
        CallFor(src, source, srcSize, tt, dict, issue).EntrySafe(hashTable[b])
      requires directive == FillOutput ==> currentOffset == 0
      modifies this, hashTable, dest
      ensures Valid()
      ensures dictionary == old(dictionary)
      ensures tableType == old(tableType) || tableType == Some(tt)
      ensures SameOutside(old(dest[..]), dest[..], start, Cap(start, srcSize, dstCapacity, directive))
      ensures start + result <= Cap(start, srcSize, dstCapacity, directive) || result == 0
      ensures result == 0 && 0 <= srcSize <= MAX_INPUT_SIZE ==>
        || (tt == ByU16 && srcSize >= LIMIT_64K)
        || (directive == FillOutput && dstCapacity < 1)
        || (directive == LimitedOutput && dstCapacity < CompressBound(srcSize))
      ensures 0 < srcSize <= MAX_INPUT_SIZE && (result > 0 || (directive != FillOutput && tt == ByU32)) ==>
        && currentOffset == old(currentOffset) + srcSize && dictSize == old(dictSize) + srcSize
      ensures !(0 < srcSize <= MAX_INPUT_SIZE) ==> currentOffset == old(currentOffset) && dictSize == old(dictSize)
      ensures srcSize == 0 && (directive == NotLimited || dstCapacity > 0) ==> result == 1 && dest[start..start + 1] == [0]
      ensures result > 0 ==>
        && 0 <= srcSize <= MAX_INPUT_SIZE && inputConsumed <= srcSize
        && (directive != FillOutput ==> inputConsumed == srcSize)
        && (inputConsumed == srcSize || result + 1 >= dstCapacity)
        && result <= CompressBound(inputConsumed)
        && var low := if dict == WithPrefix64k then source - old(dictSize) else source;
           Compressed(dest[start..start + result], src[low..source], src[low..source + inputConsumed])
      ensures 0 < srcSize <= MAX_INPUT_SIZE && !(directive == FillOutput && dstCapacity < 1)
              && !(tt == ByU16 && srcSize >= 65547) ==>
        var c := old(CallFor(src, source, srcSize, tt, dict, issue));
        && c.Valid() && c.HashesInto(hashTable.Length)
        && GreedilyDone(c, directive, dstCapacity, acceleration, old(hashTable[..]), hashTable[..], dest[..], start, result,
                        inputConsumed)
    {
      hide Compressed, GreedilyDone, Call.HashesInto;
      if srcSize < 0 || srcSize > MAX_INPUT_SIZE {
        return 0, 0;
      }
      if srcSize == 0 {
        if directive != NotLimited && dstCapacity <= 0 {
          return 0, 0;
        }
        dest[start] := 0;
        assert dest[start..start + 1] == [0];
        EmptyCompressed(src[if dict == WithPrefix64k then source - dictSize else source..source]);
        return 1, 0;
      }
      result, inputConsumed := CompressGenericValidated(src, source, dest, start, srcSize, dstCapacity, directive, tt, dict,
                                                        issue, acceleration);
    }

    /** LZ4_compress_fast_continue in prefix mode: the block at `source` follows the history in memory,
        or there is no history yet.  The result decodes after the last `history` bytes. */
    method CompressFastContinue(src: seq<byte>, source: nat, dest: array<byte>, start: nat, inputSize: nat,
                                maxOutputSize: int, acceleration: int) returns (result: nat, ghost history: nat)
      requires Continuing() && dest != hashTable as object
      requires 0 < inputSize <= INT_MAX && source + inputSize <= |src|
      requires start <= dest.Length && start + maxOutputSize <= dest.Length
      requires dictSize == 0 || (dictionary.Some? && dictionary.value + dictSize == source)
      modifies this, hashTable, dest
      ensures Continuing()
      ensures inputSize <= 0x7E00_0000 ==> dictionary.Some? && dictionary.value + dictSize == source + inputSize
      ensures dictSize <= source + inputSize
      ensures SameOutside(old(dest[..]), dest[..], start, start + maxOutputSize)
      ensures start + result <= start + maxOutputSize || result == 0
      ensures inputSize <= 0x7E00_0000 && maxOutputSize >= inputSize + inputSize / 255 + 16 ==> result > 0
      ensures result > 0 ==>
        && history <= source && history <= old(dictSize)
        && inputSize <= 0x7E00_0000 && result <= CompressBound(inputSize)
        && Compressed(dest[start..start + result], src[source - history..source], src[source - history..source + inputSize])
      ensures history == old(History(inputSize)) && (inputSize <= 0x7E00_0000 ==> dictSize == history + inputSize)
      ensures inputSize <= 0x7E00_0000 ==>
        var offset := old(RescaledOffset(inputSize));
        var c := Call(src, source, inputSize, offset, source - history, ByU32,
                      if history < 65536 && history < offset then DictSmall else NoDictIssue, hash);
        && history <= source && c.Valid() && c.HashesInto(hashTable.Length)
        && old(currentOffset >= 65536 || !MustRescale(inputSize))
        && Outcome(c, Clamp(acceleration), old(RescaledTable(inputSize)), dest[..], start, maxOutputSize, result)
    {
      hide Compressed, GreedilyDone, Outcome, Call.HashesInto;
      RenormDictT(inputSize);
      assert inputSize <= MAX_INPUT_SIZE ==> hashTable[..] == old(RescaledTable(inputSize));
      if dictSize < 4 && !(dictSize > 0 && dictionary == Some(source - dictSize)) {
        dictSize, dictionary := 0, Some(source);
      }
      history := dictSize;
      var issue := if dictSize < 64 * KB && dictSize < currentOffset then DictSmall else NoDictIssue;
      ghost var c, was := CallFor(src, source, inputSize, ByU32, WithPrefix64k, issue), hashTable[..];
      var consumed;
      result, consumed := CompressGeneric(src, source, dest, start, inputSize, maxOutputSize, LimitedOutput, ByU32,
                                          WithPrefix64k, issue, Clamp(acceleration));
      if inputSize <= MAX_INPUT_SIZE {
        DoneIsOutcome(c, LimitedOutput, Clamp(acceleration), was, hashTable, dest[..], start, maxOutputSize, result, consumed, this);
      }
    }

    /** LZ4_compress_fast_extState: a fresh table for one independent block. */
    method CompressFastExtState(src: seq<byte>, source: nat, dest: array<byte>, start: nat, inputSize: int,
                                maxOutputSize: int, acceleration: int) returns (result: nat)
      requires HashesFit()
      requires dest != hashTable as object && source <= |src| && source + inputSize <= |src|
      requires start <= dest.Length && start + maxOutputSize <= dest.Length
      modifies this, hashTable, dest
      ensures Valid()
      ensures SameOutside(old(dest[..]), dest[..], start, start + maxOutputSize)
      ensures 0 <= inputSize <= 0x7E00_0000 && maxOutputSize >= inputSize + inputSize / 255 + 16 ==> result > 0
      ensures inputSize == 0 && maxOutputSize > 0 ==> result == 1 && dest[start..start + 1] == [0]
      ensures result > 0 ==>
        && result <= maxOutputSize && 0 <= inputSize <= 0x7E00_0000 && result <= CompressBound(inputSize)
        && Compressed(dest[start..start + result], [], src[source..source + inputSize])
      ensures 0 < inputSize <= 0x7E00_0000 ==>
        var c := Call(src, source, inputSize, 0, source, if inputSize < 65547 then ByU16 else ByU32, NoDictIssue, hash);
        && c.Valid() && c.HashesInto(hashTable.Length)
        && Outcome(c, Clamp(acceleration), seq(hashTable.Length, _ => 0), dest[..], start, maxOutputSize, result)
    {
      hide Compressed, GreedilyDone, Outcome, Call.HashesInto;
      Init();
      var directive := if inputSize >= 0 && maxOutputSize >= CompressBound(inputSize) then NotLimited else LimitedOutput;
      var tt := if inputSize < LIMIT_64K then ByU16 else ByU32;
      ghost var c, was := CallFor(src, source, if inputSize < 0 then 0 else inputSize, tt, NoDict, NoDictIssue), hashTable[..];
      assert was == seq(hashTable.Length, _ => 0);
      var consumed;
      result, consumed := CompressGeneric(src, source, dest, start, inputSize, maxOutputSize, directive, tt, NoDict,
                                          NoDictIssue, Clamp(acceleration));
      if 0 < inputSize <= MAX_INPUT_SIZE {
        DoneIsOutcome(c, directive, Clamp(acceleration), was, hashTable, dest[..], start, maxOutputSize, result, consumed, this);
      }
      assert src[source..source] == [];
    }

    /** LZ4_compress_fast_extState_fastReset: one independent block on a table that is not cleared. */
    method CompressFastReset(src: seq<byte>, source: nat, dest: array<byte>, start: nat, srcSize: nat,
                             dstCapacity: int, acceleration: int) returns (result: nat)
      requires Valid() && dest != hashTable as object && source + srcSize <= |src|
      requires start <= dest.Length && start + dstCapacity <= dest.Length
      modifies this, hashTable, dest
      ensures Valid()
      ensures SameOutside(old(dest[..]), dest[..], start, start + dstCapacity)
      ensures srcSize <= 0x7E00_0000 && dstCapacity >= srcSize + srcSize / 255 + 16 ==> result > 0
      ensures srcSize == 0 && dstCapacity > 0 ==> result == 1 && dest[start..start + 1] == [0]
      ensures result > 0 ==>
        && result <= dstCapacity && srcSize <= 0x7E00_0000 && result <= CompressBound(srcSize)
        && Compressed(dest[start..start + result], [], src[source..source + srcSize])
      ensures 0 < srcSize <= 0x7E00_0000 ==>
        var tt := if srcSize < 65547 then ByU16 else ByU32;
        var offset := old(PreparedOffset(srcSize, tt));
        var c := Call(src, source, srcSize, offset, source, tt, if tt == ByU16 && offset != 0 then DictSmall else NoDictIssue, hash);
        && c.Valid() && c.HashesInto(hashTable.Length)
        && Outcome(c, Clamp(acceleration), old(PreparedTable(srcSize, tt)), dest[..], start, dstCapacity, result)
    {
      hide Compressed, GreedilyDone, Outcome, Call.HashesInto;
      var directive := if dstCapacity >= CompressBound(srcSize) then NotLimited else LimitedOutput;
      var consumed;
      ghost var c, was;
      if srcSize < LIMIT_64K {
        PrepareTable(srcSize, ByU16);
        var issue := if currentOffset != 0 then DictSmall else NoDictIssue;
        c, was := CallFor(src, source, srcSize, ByU16, NoDict, issue), hashTable[..];
        result, consumed := CompressGeneric(src, source, dest, start, srcSize, dstCapacity, directive, ByU16, NoDict,
                                            issue, Clamp(acceleration));
      } else {
        PrepareTable(srcSize, ByU32);
        c, was := CallFor(src, source, srcSize, ByU32, NoDict, NoDictIssue), hashTable[..];
        result, consumed := CompressGeneric(src, source, dest, start, srcSize, dstCapacity, directive, ByU32, NoDict,
                                            NoDictIssue, Clamp(acceleration));
      }
      if 0 < srcSize <= MAX_INPUT_SIZE {
        DoneIsOutcome(c, directive, Clamp(acceleration), was, hashTable, dest[..], start, dstCapacity, result, consumed, this);
      }
      assert src[source..source] == [];
    }

    /** LZ4_compress_destSize_extState: as much of the source as fits the target.  Unless all of it fits,
        at most one byte of the target stays unused. */
    method CompressDestSize(src: seq<byte>, source: nat, dest: array<byte>, start: nat, srcSize: nat, targetDstSize: int)
      returns (result: nat, consumed: nat)
      requires HashesFit()
      requires dest != hashTable as object && source + srcSize <= |src|
      requires start <= dest.Length && start + targetDstSize <= dest.Length
      modifies this, hashTable, dest
      ensures SameOutside(old(dest[..]), dest[..], start, start + targetDstSize)
      ensures srcSize <= 0x7E00_0000 && targetDstSize >= 1 ==> result > 0
      ensures srcSize == 0 && targetDstSize > 0 ==> result == 1 && dest[start..start + 1] == [0]
      ensures srcSize <= 0x7E00_0000 && targetDstSize >= srcSize + srcSize / 255 + 16 ==> consumed == srcSize
      ensures result > 0 ==>
        && result <= targetDstSize && consumed <= srcSize
        && (consumed == srcSize || result + 1 >= targetDstSize)
        && Compressed(dest[start..start + result], [], src[source..source + consumed])
      ensures 0 < srcSize <= 0x7E00_0000 && targetDstSize >= srcSize + srcSize / 255 + 16 ==>
        var c := Call(src, source, srcSize, 0, source, if srcSize < 65547 then ByU16 else ByU32, NoDictIssue, hash);
        && c.Valid() && c.HashesInto(hashTable.Length)
        && Outcome(c, 1, seq(hashTable.Length, _ => 0), dest[..], start, targetDstSize, result)
      ensures 0 < srcSize <= 0x7E00_0000 && 1 <= targetDstSize < srcSize + srcSize / 255 + 16 ==>
        var c := Call(src, source, srcSize, 0, source, if srcSize < 65547 then ByU16 else ByU32, NoDictIssue, hash);
        && c.Valid() && c.HashesInto(hashTable.Length)
        && var b := GreedyBlock(c, 1, seq(hashTable.Length, _ => 0), Some(targetDstSize));
           && result > 0 && dest[start..start + result] == EncodeBlock(b)
           && consumed == Covered(b.sequences) + |b.last|
    {
      hide Compressed, GreedyBlock, Outcome, Call.HashesInto;
      Init();
      if targetDstSize >= CompressBound(srcSize) {
        result := CompressFastExtState(src, source, dest, start, srcSize, targetDstSize, 1);
        return result, srcSize;
      }
      var tt := if srcSize < LIMIT_64K then ByU16 else ByU32;
      assert hashTable[..] == seq(hashTable.Length, _ => 0);
      result, consumed := CompressGeneric(src, source, dest, start, srcSize, targetDstSize, FillOutput, tt, NoDict,
                                          NoDictIssue, 1);
      assert src[source..source] == [];
    }
  }

  /** What is exact about the whole block is exact about the block within a budget. */
  lemma DoneIsOutcome(c: Call, directive: Directive, acceleration: nat, was: seq<nat>, now: array<nat>, dest: seq<byte>,
                      start: nat, budget: int, result: nat, inputConsumed: nat, stream: Stream)
    requires c.Valid() && acceleration >= 1 && c.HashesInto(|was|) && directive != FillOutput && now == stream.hashTable
    requires GreedilyDone(c, directive, budget, acceleration, was, now[..], dest, start, result, inputConsumed)
    requires directive == NotLimited ==> result <= budget
    ensures stream.Outcome(c, acceleration, was, dest, start, budget, result)
  {
    hide GreedyBlock, EncodeBlock, WholeParse;
    if result > 0 {
      assert |dest[start..start + result]| == result;
    }
  }

  /** End of the bytes that a call may write. */
  function Cap(start: nat, inputSize: int, maxOutputSize: int, directive: Directive): int {
    if directive == NotLimited then start + (if inputSize < 0 then 0 else CompressBound(inputSize)) else start + maxOutputSize
  }

  lemma EmptyCompressed(h: seq<byte>)
    ensures Compressed([0], h, h)
  {
    assert HeadAt([0], 0) == Last(1, 0);
    var s: seq<byte> := [0];
    assert h + s[1..1] == h;
  }
}
