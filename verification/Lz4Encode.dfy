// How the compressor writes one sequence: token, extended lengths, wild copy of the literals, offset
// and match length written four bytes ahead of need.
module Lz4Encode {
  import opened Lz4Format
  import opened Lz4Copy

  lemma LengthStep(before: seq<byte>, len: nat)
    requires len >= 255
    ensures before + LengthBytes(len) == before + [255] + LengthBytes(len - 255)
    ensures len / 255 == 1 + (len - 255) / 255
  {
  }

  lemma LastLengthByte(len: nat)
    requires len < 255
    ensures LengthBytes(len) == [len] && len / 255 == 0
  {
  }

  /** Extended length: one 255 per 255, then the remainder. */
  method WriteLength(dest: array<byte>, op0: nat, n: nat) returns (op: nat)
    requires op0 + n / 255 + 1 <= dest.Length
    modifies dest
    ensures op == op0 + n / 255 + 1
    ensures SameOutside(old(dest[..]), dest[..], op0, op)
    ensures dest[op0..op] == LengthBytes(n)
  {
    hide LengthBytes;
    op := op0;
    var len := n;
    assert dest[op0..op] + LengthBytes(len) == LengthBytes(n);
    while len >= 255
      invariant 0 <= len <= n && op0 <= op && op + len / 255 == op0 + n / 255
      invariant SameOutside(old(dest[..]), dest[..], op0, op)
      invariant dest[op0..op] + LengthBytes(len) == LengthBytes(n)
    {
      ghost var before := dest[op0..op];
      LengthStep(before, len);
      dest[op] := 255;
      assert dest[op0..op + 1] == before + [255];
      op, len := op + 1, len - 255;
    }
    ghost var before := dest[op0..op];
    LastLengthByte(len);
    dest[op] := len;
    assert dest[op0..op + 1] == before + [len];
    op := op + 1;
  }

  /** The token's high half and the literal length. */
  method EncodeToken(dest: array<byte>, token: nat, length: nat) returns (op: nat)
    requires token + 1 + |Extension(length)| <= dest.Length
    modifies dest
    ensures op == token + 1 + |Extension(length)|
    ensures SameOutside(old(dest[..]), dest[..], token, op)
    ensures dest[token] == Nibble(length) * 16
    ensures dest[token + 1..op] == Extension(length)
  {
    op := token + 1;
    if length >= RUN_MASK {
      dest[token] := RUN_MASK * 16;
      op := WriteLength(dest, op, length - RUN_MASK);
    } else {
      dest[token] := length * 16;
    }
  }

  /** Token and literals of a sequence; the copy may write up to eight bytes past its end. */
  method EncodeLiterals(dest: array<byte>, token: nat, src: seq<byte>, anchor: nat, litLength: nat, cap: nat) returns (op: nat)
    requires token + 1 + |Extension(litLength)| + litLength + (if litLength == 0 then 8 else 7) <= cap <= dest.Length
    requires anchor + litLength + 8 <= |src|
    modifies dest
    ensures op == token + 1 + |Extension(litLength)| + litLength
    ensures SameOutside(old(dest[..]), dest[..], token, cap)
    ensures dest[token] == Nibble(litLength) * 16
    ensures dest[token + 1..op] == Extension(litLength) + src[anchor..anchor + litLength]
  {
    hide Extension, Nibble, WildEnd;
    op := EncodeToken(dest, token, litLength);
    ghost var was := dest[..];
    WildCopy8From(dest, op, src, anchor, op + litLength);
    Appended(was, dest[..], token + 1, op, src, anchor, litLength);
    op := op + litLength;
  }

  lemma Appended(was: seq<byte>, now: seq<byte>, from: nat, op: nat, src: seq<byte>, anchor: nat, n: nat)
    requires from <= op && op + n <= |now| && anchor + n <= |src|
    requires SameOutside(was, now, op, |now|)
    requires forall k :: op <= k < op + n ==> now[k] == src[anchor + k - op]
    ensures now[from..op + n] == was[from..op] + src[anchor..anchor + n]
  {
  }

  method Write32(dest: array<byte>, op: nat)
    requires op + 4 <= dest.Length
    modifies dest
    ensures SameOutside(old(dest[..]), dest[..], op, op + 4)
    ensures forall k :: op <= k < op + 4 ==> dest[k] == 255
  {
    dest[op], dest[op + 1], dest[op + 2], dest[op + 3] := 255, 255, 255, 255;
  }

  lemma {:induction false} LengthBytesAre(n: nat, s: seq<byte>)
    requires |s| == n / 255 + 1
    requires forall k :: 0 <= k < n / 255 ==> s[k] == 255
    requires s[n / 255] == n % 255
    ensures s == LengthBytes(n)
    decreases n
  {
    if n >= 255 {
      LengthBytesAre(n - 255, s[1..]);
      assert s == [255] + s[1..];
    }
  }

  /** An extended length written four 255s at a time, ahead of need. */
  method WriteLengthAhead(dest: array<byte>, op0: nat, n: nat, cap: nat) returns (op: nat)
    requires op0 + n / 255 + 4 <= cap <= dest.Length
    modifies dest
    ensures op == op0 + n / 255 + 1
    ensures SameOutside(old(dest[..]), dest[..], op0, cap)
    ensures dest[op0..op] == LengthBytes(n)
  {
    op := op0;
    var matchCode := n;
    Write32(dest, op);
    while matchCode >= 4 * 255
      invariant op0 <= op && matchCode >= 0 && op - op0 + matchCode / 255 == n / 255
      invariant matchCode % 255 == n % 255
      invariant SameOutside(old(dest[..]), dest[..], op0, cap)
      invariant forall k :: op0 <= k < op + 4 ==> dest[k] == 255
    {
      op := op + 4;
      Write32(dest, op);
      matchCode := matchCode - 4 * 255;
    }
    op := op + matchCode / 255;
    dest[op] := matchCode % 255;
    op := op + 1;
    LengthBytesAre(n, dest[op0..op]);
  }

  /** Match length: the low half of the token, and the extension. */
  method EncodeMatchLength(dest: array<byte>, token: nat, op0: nat, matchCode: nat, cap: nat) returns (op: nat)
    requires token < op0 && op0 + (if matchCode >= ML_MASK then (matchCode - 15) / 255 + 4 else 0) <= cap <= dest.Length
    requires dest[token] % 16 == 0
    modifies dest
    ensures op == op0 + |Extension(matchCode)|
    ensures SameOutside(old(dest[..])[token := dest[token]], dest[..], op0, cap)
    ensures dest[token] == old(dest[token]) + Nibble(matchCode)
    ensures dest[op0..op] == Extension(matchCode)
  {
    op := op0;
    if matchCode >= ML_MASK {
      dest[token] := dest[token] + ML_MASK;
      op := WriteLengthAhead(dest, op, matchCode - ML_MASK, cap);
    } else {
      dest[token] := dest[token] + matchCode;
    }
  }

  method WriteLE16(dest: array<byte>, op: nat, v: nat)
    requires op + 2 <= dest.Length && v <= DISTANCE_MAX
    modifies dest
    ensures SameOutside(old(dest[..]), dest[..], op, op + 2)
    ensures dest[op] == v % 256 && dest[op + 1] == v / 256
  {
    dest[op] := v % 256;
    dest[op + 1] := v / 256;
  }
}
