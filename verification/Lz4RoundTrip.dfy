// Compression and decompression together: single blocks, truncated blocks, whole streams, and the
// optimised decoder against the reference one.
module Lz4RoundTrip {
  import opened Lz4Format
  import opened Lz4Copy
  import opened Lz4Greedy
  import Lz4Track
  import opened Lz4Compress
  import opened Lz4Stream
  import opened Lz4Accept
  import opened Lz4Decode
  import opened Lz4Reference

  // ----- A longer history changes nothing -----

  lemma {:induction false} CopyMatchLater(pre: seq<byte>, h: seq<byte>, offset: nat, n: nat)
    requires offset <= |h|
    ensures CopyMatch(pre + h, offset, n) == pre + CopyMatch(h, offset, n)
  {
    if n > 0 {
      CopyMatchLater(pre, h, offset, n - 1);
    }
  }

  /** A block that decodes after `h` decodes after any history that ends in `h`. */
  lemma {:induction false} DecodeLater(s: seq<byte>, i: nat, pre: seq<byte>, h: seq<byte>)
    requires DecodeFrom(s, i, h).Some?
    ensures DecodeFrom(s, i, pre + h) == Some(pre + DecodeFrom(s, i, h).value)
    decreases |s| - i
  {
    hide HeadAt, CopyMatch;
    match HeadAt(s, i)
    case Last(p, ll) =>
      assert pre + h + s[p..p + ll] == pre + (h + s[p..p + ll]);
    case Full(p, ll, offset, ml, next) =>
      var g := h + s[p..p + ll];
      assert pre + h + s[p..p + ll] == pre + g;
      CopyMatchLater(pre, g, offset, ml);
      DecodeLater(s, next, pre, CopyMatch(g, offset, ml));
  }

  /** More history or more room keeps a block conforming. */
  lemma {:induction false} ConformsLater(s: seq<byte>, i: nat, n: nat, end: int, more: nat, room: nat)
    requires Conforms(s, i, n, end)
    ensures Conforms(s, i, more + n, more + end + room)
    decreases |s| - i
  {
    hide HeadAt;
    match HeadAt(s, i)
    case Full(p, ll, offset, ml, next) => ConformsLater(s, next, n + ll + ml, end, more, room);
    case _ =>
  }

  lemma CompressedLater(out: seq<byte>, pre: seq<byte>, h: seq<byte>, g: seq<byte>)
    requires Compressed(out, h, g)
    ensures Compressed(out, pre + h, pre + g)
  {
    hide DecodeFrom, Conforms;
    DecodeLater(out, 0, pre, h);
    ConformsLater(out, 0, |h|, |g|, |pre|, 0);
  }

  // ----- The API decoders -----

  /** LZ4_decompress_safe. */
  method DecompressSafe(source: seq<byte>, dst: array<byte>, dest: nat, maxDecompressedSize: int) returns (result: int)
    requires dest <= dst.Length && dest + maxDecompressedSize <= dst.Length
    modifies dst
    ensures SameOutside(old(dst[..]), dst[..], dest, dest + maxDecompressedSize)
    ensures result >= 0 ==>
      result <= maxDecompressedSize && DecodeFrom(source, 0, []) == Some(dst[dest..dest + result])
    ensures result >= 0 <==> AcceptsBlock(source, 0, maxDecompressedSize)
    ensures maxDecompressedSize > 0 && Conforms(source, 0, 0, maxDecompressedSize) ==> result >= 0
  {
    hide DecodeFrom, Conforms, AcceptsBlock;
    ghost var before := dst[dest..dest];
    assert before == [];
    result := DecompressGeneric(source, dst, dest, maxDecompressedSize, Lz4Decode.NoDict, dest, dest);
  }

  lemma SliceKept(was: seq<byte>, now: seq<byte>, from: nat, at: nat, end: int)
    requires from <= at <= |was| && SameOutside(was, now, at, end)
    ensures now[from..at] == was[from..at]
  {
  }

  /** Decoding state of a stream whose blocks are decoded next to each other in `dst`. */
  class StreamDecode {
    var prefixSize: nat
    var prefixEnd: nat

    constructor ()
      ensures prefixSize == 0
    {
      prefixSize, prefixEnd := 0, 0;
    }

    /** LZ4_decompress_safe_continue, for a block decoded right after the previous one or the first. */
    method DecompressSafeContinue(source: seq<byte>, dst: array<byte>, dest: nat, maxOutputSize: int) returns (result: int)
      requires prefixSize == 0 || prefixEnd == dest
      requires prefixSize <= dest <= dst.Length && dest + maxOutputSize <= dst.Length
      modifies this, dst
      ensures SameOutside(old(dst[..]), dst[..], dest, dest + maxOutputSize)
      ensures result > 0 ==>
        && prefixSize == old(prefixSize) + result && prefixEnd == dest + result
        && result <= maxOutputSize
        && DecodeFrom(source, 0, old(dst[dest - prefixSize..dest])) == Some(dst[dest - old(prefixSize)..dest + result])
      ensures result <= 0 ==> prefixSize == old(prefixSize) && prefixEnd == old(prefixEnd)
      ensures result == 0 ==> DecodeFrom(source, 0, old(dst[dest - prefixSize..dest])) == Some(old(dst[dest - prefixSize..dest]))
      ensures result >= 0 <==> AcceptsBlock(source, old(prefixSize), maxOutputSize)
      ensures maxOutputSize > 0 && Conforms(source, 0, old(prefixSize), old(prefixSize) + maxOutputSize) ==> result >= 0
    {
      hide DecodeFrom, Conforms, AcceptsBlock;
      ghost var was, before := dst[..], dst[dest - prefixSize..dest];
      if prefixSize == 0 {
        assert before == [];
        result := DecompressSafe(source, dst, dest, maxOutputSize);
        if result <= 0 {
          assert dst[dest..dest] == [];
          return;
        }
        prefixSize, prefixEnd := result, dest + result;
      } else {
        if prefixSize >= 64 * KB - 1 {
          result := DecompressGeneric(source, dst, dest, maxOutputSize, Lz4Decode.WithPrefix64k, dest - 64 * KB, dest - prefixSize);
        } else {
          result := DecompressGeneric(source, dst, dest, maxOutputSize, Lz4Decode.NoDict, dest - prefixSize, dest - prefixSize);
        }
        if result <= 0 {
          SliceKept(was, dst[..], dest - prefixSize, dest, dest + maxOutputSize);
          return;
        }
        prefixSize, prefixEnd := prefixSize + result, prefixEnd + result;
      }
    }
  }

  // ----- Round trips -----

  /** Decoding a compressed block into room for at least its content gives the content back. */
  method DecodeBack(block: seq<byte>, dst: array<byte>, dest: nat, room: nat, ghost content: seq<byte>) returns (result: int)
    requires Compressed(block, [], content) && |content| <= room && dest + room <= dst.Length
    requires room > 0 || block == [0]
    modifies dst
    ensures SameOutside(old(dst[..]), dst[..], dest, dest + room)
    ensures result == |content| && dst[dest..dest + result] == content
  {
    hide DecodeFrom, Conforms, Accepts;
    ConformsLater(block, 0, 0, |content|, 0, room - |content|);
    result := DecompressSafe(block, dst, dest, room);
  }

  /** Single-block round trip: for every hash function, acceleration and source, a block compressed into
      enough room decodes, in exactly the source size, to the source. */
  method RoundTrip(stream: Stream, src: seq<byte>, packed: array<byte>, dst: array<byte>, acceleration: int)
    returns (size: nat, result: int)
    requires stream.HashesFit()
    requires packed != stream.hashTable as object && dst != packed && dst != stream.hashTable as object
    requires |src| <= 0x7E00_0000 && |src| + |src| / 255 + 16 <= packed.Length && |src| <= dst.Length
    modifies stream, stream.hashTable, packed, dst
    ensures 0 < size <= |src| + |src| / 255 + 16
    ensures result == |src| && dst[..result] == src
  {
    hide Compressed, Stream.Outcome, Lz4Track.GreedyBlock, Call.Valid, Call.HashesInto;
    size := stream.CompressFastExtState(src, 0, packed, 0, |src|, packed.Length, acceleration);
    assert src[0..|src|] == src;
    result := DecodeBack(packed[0..size], dst, 0, |src|, src);
    assert dst[..result] == dst[0..0 + result];
  }

  /** The same on a table left over from earlier blocks. */
  method RoundTripFastReset(stream: Stream, src: seq<byte>, packed: array<byte>, dst: array<byte>, acceleration: int)
    returns (size: nat, result: int)
    requires stream.Valid()
    requires packed != stream.hashTable as object && dst != packed && dst != stream.hashTable as object
    requires |src| <= 0x7E00_0000 && |src| + |src| / 255 + 16 <= packed.Length && |src| <= dst.Length
    modifies stream, stream.hashTable, packed, dst
    ensures stream.Valid()
    ensures 0 < size <= |src| + |src| / 255 + 16
    ensures result == |src| && dst[..result] == src
  {
    hide Compressed, Stream.Outcome, Lz4Track.GreedyBlock, Call.Valid, Call.HashesInto;
    size := stream.CompressFastReset(src, 0, packed, 0, |src|, packed.Length, acceleration);
    assert src[0..|src|] == src;
    result := DecodeBack(packed[0..size], dst, 0, |src|, src);
    assert dst[..result] == dst[0..0 + result];
  }

  /** fillOutput: the block fits the target, and decodes to exactly the source bytes that were consumed;
      unless everything was consumed, at most one byte of the target is unused. */
  method RoundTripDestSize(stream: Stream, src: seq<byte>, packed: array<byte>, target: nat, dst: array<byte>)
    returns (size: nat, consumed: nat, result: int)
    requires stream.HashesFit()
    requires packed != stream.hashTable as object && dst != packed && dst != stream.hashTable as object
    requires |src| <= 0x7E00_0000 && 0 < target <= packed.Length && |src| <= dst.Length
    modifies stream, stream.hashTable, packed, dst
    ensures 0 < size <= target && consumed <= |src|
    ensures consumed == |src| || size + 1 >= target
    ensures SameOutside(old(packed[..]), packed[..], 0, target)
    ensures result == consumed && dst[..result] == src[..consumed]
  {
    hide Compressed, Stream.Outcome, Lz4Track.GreedyBlock, Call.Valid, Call.HashesInto;
    size, consumed := stream.CompressDestSize(src, 0, packed, 0, |src|, target);
    ghost var written := packed[..];
    assert src[0..consumed] == src[..consumed];
    result := DecodeBack(packed[0..size], dst, 0, |src|, src[..consumed]);
    assert packed[..] == written;
    assert dst[..result] == dst[0..0 + result];
  }

  function Total(sizes: seq<nat>): nat {
    if sizes == [] then 0 else Total(sizes[..|sizes| - 1]) + sizes[|sizes| - 1]
  }

  lemma {:induction false} TotalPrefix(sizes: seq<nat>, k: nat)
    requires k <= |sizes|
    ensures Total(sizes[..k]) <= Total(sizes)
    decreases |sizes|
  {
    if k < |sizes| {
      assert sizes[..|sizes| - 1][..k] == sizes[..k];
      TotalPrefix(sizes[..|sizes| - 1], k);
    } else {
      assert sizes[..k] == sizes;
    }
  }

  /** One block of a stream, compressed in prefix mode and decoded next to the blocks before it. */
  method StreamBlock(enc: Stream, dec: StreamDecode, src: seq<byte>, pos: nat, size: nat, packed: array<byte>,
                     dst: array<byte>, acceleration: int)
    requires enc.Continuing() && packed != enc.hashTable as object && dst != packed && dst != enc.hashTable as object
    requires enc as object != dec
    requires 0 < size <= 0x7E00_0000 && pos + size <= |src| && |src| <= dst.Length
    requires size + size / 255 + 16 <= packed.Length
    requires enc.dictSize == 0 || (enc.dictionary.Some? && enc.dictionary.value + enc.dictSize == pos)
    requires dec.prefixSize == pos && (pos == 0 || dec.prefixEnd == pos)
    requires dst[..pos] == src[..pos]
    modifies enc, enc.hashTable, dec, packed, dst
    ensures enc.Continuing()
    ensures enc.dictionary.Some? && enc.dictionary.value + enc.dictSize == pos + size
    ensures dec.prefixSize == pos + size && dec.prefixEnd == pos + size
    ensures dst[..pos + size] == src[..pos + size]
  {
    hide Compressed, DecodeFrom, Conforms, AcceptsBlock, Stream.Outcome, Stream.Continuing, Stream.History, Stream.MustRescale;
    hide Stream.RescaledTable, Stream.RescaledOffset, Call.Valid, Call.HashesInto, Clamp;
    var n, history := enc.CompressFastContinue(src, pos, packed, 0, size, packed.Length, acceleration);
    var block := packed[0..n];
    BlockAfter(src, pos, history, size, block);
    assert dst[0..pos] == src[..pos];
    var result := dec.DecompressSafeContinue(block, dst, pos, size);
    if result > 0 {
      assert dst[0..pos + result] == src[..pos + size];
      assert dst[..pos + size] == dst[0..pos + result];
    }
  }

  /** A block compressed against part of what precedes it decodes after all of what precedes it. */
  lemma BlockAfter(src: seq<byte>, pos: nat, history: nat, size: nat, block: seq<byte>)
    requires history <= pos && pos + size <= |src|
    requires Compressed(block, src[pos - history..pos], src[pos - history..pos + size])
    ensures DecodeFrom(block, 0, src[..pos]) == Some(src[..pos + size])
    ensures Conforms(block, 0, pos, pos + size)
  {
    hide DecodeFrom, Conforms;
    var pre := src[..pos - history];
    CompressedLater(block, pre, src[pos - history..pos], src[pos - history..pos + size]);
    assert pre + src[pos - history..pos] == src[..pos];
    assert pre + src[pos - history..pos + size] == src[..pos + size];
  }

  /** Streaming round trip over a whole run: any sequence of non-empty blocks laid side by side, each
      compressed against the ones before it, with the compressor reset before any of them or not,
      decodes block by block to the concatenation. */
  method StreamRoundTrip(enc: Stream, dec: StreamDecode, src: seq<byte>, sizes: seq<nat>, resets: seq<bool>,
                         packed: array<byte>, dst: array<byte>, accelerations: seq<int>)
    requires enc.Continuing() && enc.dictSize == 0 && dec.prefixSize == 0 && enc as object != dec
    requires packed != enc.hashTable as object && dst != packed && dst != enc.hashTable as object
    requires forall k :: 0 <= k < |sizes| ==> 0 < sizes[k] <= 0x7E00_0000 && sizes[k] + sizes[k] / 255 + 16 <= packed.Length
    requires Total(sizes) == |src| <= dst.Length && |resets| == |accelerations| == |sizes|
    modifies enc, enc.hashTable, dec, packed, dst
    ensures enc.Continuing()
    ensures dst[..|src|] == src
  {
    var pos := 0;
    for k := 0 to |sizes|
      invariant enc.Continuing()
      invariant pos == Total(sizes[..k]) <= |src|
      invariant enc.dictSize == 0 || (enc.dictionary.Some? && enc.dictionary.value + enc.dictSize == pos)
      invariant dec.prefixSize == pos && (pos == 0 || dec.prefixEnd == pos)
      invariant dst[..pos] == src[..pos]
    {
      assert sizes[..k + 1][..k] == sizes[..k];
      TotalPrefix(sizes, k + 1);
      if resets[k] {
        enc.ResetFast();
      }
      StreamBlock(enc, dec, src, pos, sizes[k], packed, dst, accelerations[k]);
      pos := pos + sizes[k];
    }
    assert sizes[..|sizes|] == sizes;
  }

  // ----- The optimised decoder and the reference -----

  /** Given exactly the bytes that the reference consumed, the optimised decoder accepts a block that
      the reference accepts, unless the output is empty and the only token is not zero; and it writes
      the same bytes exactly when every offset of zero falls on zeros. */
  method DecodersAgree(s: seq<byte>, reference: array<byte>, optimised: array<byte>, start: nat, ostart: nat, size: nat)
    returns (consumed: int, result: int)
    requires start <= ostart && ostart + size <= reference.Length && reference != optimised
    requires reference[..] == optimised[..]
    requires RefDecode(s, 0, reference[start..ostart], reference[start..ostart + size]) != RanOut
    modifies reference, optimised
    ensures consumed < 0 <==>
            RefDecode(s, 0, old(reference[start..ostart]), old(reference[start..ostart + size])) == Rejected
    ensures consumed >= 0 ==> 0 < consumed <= |s|
    ensures consumed >= 0 ==> (result == size <==> size > 0 || s[0] == 0)
    ensures consumed >= 0 && result >= 0 ==>
              (reference[..] == optimised[..]
               <==> ZeroJunk(s[..consumed], 0, ostart - start, old(reference[start..ostart + size])))
  {
    hide RefDecode, DecodeFrom, Conforms, ZeroJunk, Accepts;
    ghost var h, junk := reference[start..ostart], reference[start..ostart + size];
    consumed := DecompressUnsafeGeneric(s, reference, ostart, size, start);
    result := -1;
    if consumed < 0 {
      return;
    }
    ReferenceMeans(s, h, junk);
    ghost var was := optimised[..];
    assert optimised[start..ostart] == h;
    result := DecompressGeneric(s[..consumed], optimised, ostart, size, Lz4Decode.NoDict, start, start);
    if result >= 0 {
      SameBuffers(was, reference[..], optimised[..], start, ostart, ostart + size);
    }
  }

  /** The other way: when the optimised decoder fills the output from `s`, the reference accepts `s` as
      a whole exactly when it conforms to the end-of-block rules. */
  method OptimisedAgainstReference(s: seq<byte>, optimised: array<byte>, start: nat, ostart: nat, size: nat)
    returns (result: int)
    requires start <= ostart && ostart + size <= optimised.Length
    modifies optimised
    ensures var h, junk := old(optimised[start..ostart]), old(optimised[start..ostart + size]);
            var r := RefDecode(s, 0, h, junk);
            && (result >= 0 <==> AcceptsBlock(s, |h|, size))
            && (result == size ==> (r.Accepted? && r.consumed == |s| <==> Conforms(s, 0, |h|, |junk|)))
  {
    hide RefDecode, DecodeFrom, Conforms, SizeFrom, AcceptsBlock;
    ghost var h, junk := optimised[start..ostart], optimised[start..ostart + size];
    result := DecompressGeneric(s, optimised, ostart, size, Lz4Decode.NoDict, start, start);
    AcceptsWhole(s, h, junk);
    SizeOfDecode(s, 0, h);
  }

  lemma SameBuffers(was: seq<byte>, a: seq<byte>, b: seq<byte>, start: nat, from: nat, until: nat)
    requires start <= from <= until <= |was| == |a| == |b|
    requires SameOutside(was, a, from, until) && SameOutside(was, b, from, until)
    ensures a == b <==> a[start..until] == b[start..until]
  {
    if a[start..until] == b[start..until] {
      forall k | 0 <= k < |a| ensures a[k] == b[k] {
        if from <= k < until {
          assert a[k] == a[start..until][k - start] == b[start..until][k - start];
        }
      }
    }
  }

  /** What the reference accepts conforms, fills the output and is read alike by the format, except for
      offsets of zero. */
  lemma ReferenceMeans(s: seq<byte>, h: seq<byte>, junk: seq<byte>)
    requires |h| <= |junk| && RefDecode(s, 0, h, junk).Accepted?
    ensures var r := RefDecode(s, 0, h, junk); var t := s[..r.consumed];
            && 0 < r.consumed <= |s| && |r.output| == |junk|
            && Conforms(t, 0, |h|, |junk|)
            && DecodeFrom(t, 0, h).Some? && |DecodeFrom(t, 0, h).value| == |junk|
            && (DecodeFrom(t, 0, h).value == r.output <==> ZeroJunk(t, 0, |h|, junk))
            && (|h| == |junk| ==> (t == [0] <==> s[0] == 0))
  {
    hide RefDecode, DecodeFrom, Conforms, ZeroJunk;
    var t := s[..RefDecode(s, 0, h, junk).consumed];
    AcceptedConforms(s, 0, h, junk);
    AcceptedOutput(s, 0, h, h, junk);
    SizeOfDecode(t, 0, h);
    if |h| == |junk| {
      OutputIsHistory(s, h, junk);
      EmptyOutput(s, h);
      assert s[..1] == [s[0]];
    }
  }

  lemma OutputIsHistory(s: seq<byte>, h: seq<byte>, junk: seq<byte>)
    requires |h| == |junk| && RefDecode(s, 0, h, junk).Accepted?
    ensures RefDecode(s, 0, h, h).Accepted? && RefDecode(s, 0, h, h).consumed == RefDecode(s, 0, h, junk).consumed
  {
    hide CopyOverJunk, ReadLength;
  }

  /** With no output to produce, the reference accepts every token below 16 and consumes only it. */
  lemma EmptyOutput(s: seq<byte>, h: seq<byte>)
    ensures |s| > 0 && s[0] < 16 ==> RefDecode(s, 0, h, h).Accepted? && RefDecode(s, 0, h, h).consumed == 1
    ensures |s| > 0 && s[0] >= 16 ==> !RefDecode(s, 0, h, h).Accepted?
  {
  }

  /** The token 5 alone: the reference takes it for an empty block, the optimised decoder does not. */
  lemma ReferenceAcceptsMore()
    ensures RefDecode([5], 0, [], []).Accepted? && !AcceptsBlock([5], 0, 0)
  {
    EmptyOutput([5], []);
  }

  /** Fourteen literals, a match of 18 bytes at a distance of 8, and no last literals, into 32 bytes: the
      shortcut lets the match run to the end of the output, which the reference rejects. */
  lemma OptimisedAcceptsMore(junk: seq<byte>)
    requires |junk| == 32
    ensures var s := [0xEE] + seq(14, _ => 7) + [8, 0, 0];
            && AcceptsBlock(s, 0, 32) && DecodeFrom(s, 0, []).Some? && |DecodeFrom(s, 0, []).value| == 32
            && RefDecode(s, 0, [], junk) == Rejected && !Conforms(s, 0, 0, 32)
  {
    var lits: seq<byte> := seq(14, _ => 7);
    var s: seq<byte> := [0xEE] + lits + [8, 0, 0];
    assert s[15] == 8 && s[16] == 0 && s[17] == 0;
    assert HeadAt(s, 0) == Full(1, 14, 8, 18, 17);
    assert HeadAt(s, 17) == Last(18, 0);
    assert Accepts(s, 17, 32, 32, false);
    assert Shortcut(s, 0, 0, 32);
    assert Passes(s, 0, 0, 32, false);
    assert SizeFrom(s, 17, 32) == Some(32);
    SizeOfDecode(s, 0, []);
    assert [] + s[1..15] == s[1..15];
  }

  /** A literal and a match at distance zero over a buffer of ones: the reference leaves the ones, the
      optimised decoder reads zeros. */
  lemma ZeroOffsetDiffers()
    ensures var s, junk: seq<byte> := [0x10, 7, 0, 0, 0x80] + seq(8, _ => 7), seq(13, _ => 1);
            && RefDecode(s, 0, [], junk).Accepted? && RefDecode(s, 0, [], junk).consumed == |s| && AcceptsBlock(s, 0, 13)
            && DecodeFrom(s, 0, []).Some? && DecodeFrom(s, 0, []).value != RefDecode(s, 0, [], junk).output
  {
    var s, junk: seq<byte> := [0x10, 7, 0, 0, 0x80] + seq(8, _ => 7), seq(13, _ => 1);
    assert s[0] == 0x10 && s[2] == 0 && s[3] == 0 && s[4] == 0x80;
    assert HeadAt(s, 0) == Full(1, 1, 0, 4, 4);
    assert HeadAt(s, 4) == Last(5, 8);
    assert Conforms(s, 4, 5, 13) && SizeFrom(s, 4, 5) == Some(13);
    ConformingAccepted(s, 0, [], junk);
    ConformingBlockAccepted(s, 0, 0, 13, false);
    AcceptedOutput(s, 0, [], [], junk);
    assert junk[1] == 1;
    assert s[..|s|] == s;
  }
}
