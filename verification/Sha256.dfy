/**
  Streaming SHA-256 of src/hashcalc/hashcalc.c over an abstract compression function: whatever the pieces a
  message arrives in, the digest is the one of FIPS 180-4 sections 5.1.1 and 6.2.
 */
module Sha256 {
  import opened Common
  import opened Arith

  type word = n: nat | n < 0x1_0000_0000
  type Words = s: seq<word> | |s| == 8 witness [0, 0, 0, 0, 0, 0, 0, 0]

  /** The initial hash value. */
  const H0: Words := [0x6a09e667, 0xbb67ae85, 0x3c6ef372, 0xa54ff53a, 0x510e527f, 0x9b05688c, 0x1f83d9ab, 0x5be0cd19]

  /** x in n bytes, most significant first. */
  function Be(x: nat, n: nat): (b: seq<byte>)
    ensures |b| == n
    decreases n
  {
    if n == 0 then [] else Be(x / 256, n - 1) + [x % 256]
  }

  // ---- the standard -----------------------------------------------------------------------------------

  /** The number of zero bytes: the least that makes the length with the 1 bit and the length field whole blocks. */
  function Fill(len: nat): (z: nat)
    ensures z < 64 && (len + 1 + z + 8) % 64 == 0
  {
    if len % 64 < 56 then 55 - len % 64 else 119 - len % 64
  }

  function Padded(m: seq<byte>): (p: seq<byte>)
    ensures |p| % 64 == 0
  {
    m + [0x80] + Zeros(Fill(|m|)) + Be(8 * |m| % U64, 8)
  }

  type Compression = (Words, seq<byte>) -> Words

  /** The hash value after all blocks. */
  function Fold(f: Compression, h: Words, blocks: seq<byte>): Words
    requires |blocks| % 64 == 0
    decreases |blocks|
  {
    if blocks == [] then h else Fold(f, f(h, blocks[..64]), blocks[64..])
  }

  function WordBytes(ws: seq<word>): (b: seq<byte>)
    ensures |b| == 4 * |ws|
  {
    if ws == [] then [] else WordBytes(ws[..|ws| - 1]) + Be(ws[|ws| - 1], 4)
  }

  function Digest(f: Compression, m: seq<byte>): (d: seq<byte>)
    ensures |d| == 32
  {
    WordBytes(Fold(f, H0, Padded(m)))
  }

  lemma {:induction false} FoldJoin(f: Compression, h: Words, a: seq<byte>, b: seq<byte>)
    requires |a| % 64 == 0 && |b| % 64 == 0
    ensures Fold(f, h, a + b) == Fold(f, Fold(f, h, a), b)
    decreases |a|
  {
    if a == [] {
      assert a + b == b;
    } else {
      assert (a + b)[..64] == a[..64] && (a + b)[64..] == a[64..] + b;
      FoldJoin(f, f(h, a[..64]), a[64..], b);
    }
  }

  lemma FoldOne(f: Compression, h: Words, b: seq<byte>)
    requires |b| == 64
    ensures Fold(f, h, b) == f(h, b)
  {
    assert b[..64] == b && b[64..] == [];
  }

  lemma FoldNext(f: Compression, h: Words, a: seq<byte>, b: seq<byte>)
    requires |a| % 64 == 0 && |b| == 64
    ensures |a + b| % 64 == 0 && Fold(f, h, a + b) == f(Fold(f, h, a), b)
  {
    FoldJoin(f, h, a, b);
    FoldOne(f, Fold(f, h, a), b);
  }

  // ---- padding loses nothing --------------------------------------------------------------------------

  lemma {:induction false} BeInjective(x: nat, y: nat, n: nat)
    requires Be(x, n) == Be(y, n) && x < Pow(256, n) && y < Pow(256, n)
    ensures x == y
    decreases n
  {
    if n == 0 {
    } else {
      assert Be(x, n)[..n - 1] == Be(x / 256, n - 1) && Be(y, n)[..n - 1] == Be(y / 256, n - 1);
      assert Be(x, n)[n - 1] == x % 256 && Be(y, n)[n - 1] == y % 256;
      BeInjective(x / 256, y / 256, n - 1);
    }
  }

  /** Different messages of less than 2^64 bits are padded to different blocks. */
  lemma PaddingInjective(m: seq<byte>, m': seq<byte>)
    requires 8 * |m| < U64 && 8 * |m'| < U64 && Padded(m) == Padded(m')
    ensures m == m'
  {
    hide Be, Fill;
    PaddedEnd(m);
    PaddedEnd(m');
    BigPow();
    DivUnique(8 * |m|, U64, 0, 8 * |m|);
    DivUnique(8 * |m'|, U64, 0, 8 * |m'|);
    BeInjective(8 * |m|, 8 * |m'|, 8);
  }

  lemma PaddedEnd(m: seq<byte>)
    ensures var p := Padded(m);
      |p| >= |m| + 9 && p[|p| - 8..] == Be(8 * |m| % U64, 8) && p[..|m|] == m
  {
    hide Be, Fill;
  }

  lemma BigPow()
    ensures Pow(256, 8) == U64
  {
    assert Pow(256, 4) == 0x1_0000_0000;
    assert Pow(256, 8) == 256 * 256 * 256 * 256 * Pow(256, 4);
  }

  // ---- what the standard fixes ----------------------------------------------------------------------------

  /** The initial words are the first 32 bits behind the point of the square roots of the first eight primes. */
  lemma RootsOfPrimes(i: nat)
    requires i < 8
    ensures var p := [2, 3, 5, 7, 11, 13, 17, 19][i];
      var x: nat := [1, 1, 2, 2, 3, 3, 4, 4][i] * 0x1_0000_0000 + (H0[i] as int);
      x * x <= p * 0x1_0000_0000_0000_0000 < (x + 1) * (x + 1)
  {
    var p := [2, 3, 5, 7, 11, 13, 17, 19][i];
    if i == 0 { assert p == 2; } else if i == 1 { assert p == 3; } else if i == 2 { assert p == 5; }
    else if i == 3 { assert p == 7; } else if i == 4 { assert p == 11; } else if i == 5 { assert p == 13; }
    else if i == 6 { assert p == 17; } else { assert p == 19; }
  }

  lemma {:induction false} BeAt(x: nat, n: nat, j: nat)
    requires j < n
    ensures Be(x, n)[j] == x / Pow(256, n - 1 - j) % 256
    decreases n
  {
    if j == n - 1 {
      assert Pow(256, 0) == 1;
    } else {
      BeAt(x / 256, n - 1, j);
      BeAtStep(x, n, j);
    }
  }

  lemma BeAtStep(x: nat, n: nat, j: nat)
    requires j + 1 < n
    ensures x / 256 / Pow(256, n - 2 - j) == x / Pow(256, n - 1 - j)
  {
    var p := Pow(256, n - 2 - j);
    assert Pow(256, n - 1 - j) == 256 * p;
    hide Pow;
    var q, r := x / 256 / p, x / 256 % p;
    assert x == 256 * (q * p + r) + x % 256;
    MulBack(q, 256, p);
    assert q * (256 * p) == 256 * (q * p);
    DivUnique(x, 256 * p, q, 256 * r + x % 256);
  }

  /**
    A padded message is the message, a byte 0x80, zeros, and the number of its bits in eight bytes, the highest
    first; its length is the least multiple of 64 with room for them.
   */
  lemma PaddedShape(m: seq<byte>)
    ensures var p := Padded(m);
      && |p| % 64 == 0 && |m| + 9 <= |p| < |m| + 9 + 64
      && p[..|m|] == m && p[|m|] == 0x80
      && (forall i :: |m| < i < |p| - 8 ==> p[i] == 0)
      && var length := p[|p| - 8..];
      forall j :: 0 <= j < 8 ==> length[j] == 8 * |m| % 0x1_0000_0000_0000_0000 / Pow(256, 7 - j) % 256
  {
    hide Be, Fill, Pow;
    var x := 8 * |m| % U64;
    PaddedParts(m);
    forall j: nat | j < 8 ensures Be(x, 8)[j] == x / Pow(256, 7 - j) % 256 {
      BeAt(x, 8, j);
    }
    hide Padded;
  }

  lemma PaddedParts(m: seq<byte>)
    ensures var p := Padded(m);
      && |p| % 64 == 0 && |m| + 9 <= |p| < |m| + 9 + 64 && p[|p| - 8..] == Be(8 * |m| % U64, 8)
      && p[..|m|] == m && p[|m|] == 0x80 && forall i :: |m| < i < |p| - 8 ==> p[i] == 0
  {
    hide Be, Fill, Pow;
  }

  /** The digest is the eight words after the last block, each with its highest byte first. */
  lemma DigestAt(f: Compression, m: seq<byte>, k: nat, j: nat)
    requires k < 8 && j < 4
    ensures Digest(f, m)[4 * k + j] == Fold(f, H0, Padded(m))[k] / Pow(256, 3 - j) % 256
  {
    hide Fold, Padded, Pow;
    WordBytesAt(Fold(f, H0, Padded(m)), k, j);
  }

  // ---- the stream ---------------------------------------------------------------------------------------

  /** The buffer holds the bytes after the last whole block, the state and the counter stand for the blocks before. */
  ghost predicate Absorbed(f: Compression, taken: seq<byte>, buf: seq<byte>, bitlen: nat, state: Words) {
    && |buf| < 64 && |buf| <= |taken| && (|taken| - |buf|) % 64 == 0
    && taken[|taken| - |buf|..] == buf
    && state == Fold(f, H0, taken[..|taken| - |buf|])
    && bitlen == Bits(|taken| - |buf|)
  }

  function Bits(n: nat): nat { 8 * n % U64 }

  lemma MoreBits(n: nat, m: nat)
    ensures (Bits(n) + 8 * m) % U64 == Bits(n + m)
  {
  }

  lemma AbsorbByte(f: Compression, taken: seq<byte>, buf: seq<byte>, bitlen: nat, state: Words, x: byte)
    requires Absorbed(f, taken, buf, bitlen, state) && |buf| < 63
    ensures Absorbed(f, taken + [x], buf + [x], bitlen, state)
  {
    hide Fold, Bits;
    var all, front := taken + [x], |taken| - |buf|;
    assert all[..front] == taken[..front] && all[front..] == buf + [x];
  }

  lemma AbsorbBlock(f: Compression, taken: seq<byte>, buf: seq<byte>, bitlen: nat, state: Words, x: byte)
    requires Absorbed(f, taken, buf, bitlen, state) && |buf| == 63
    ensures Absorbed(f, taken + [x], [], (bitlen + 512) % U64, f(state, buf + [x]))
  {
    hide Fold, Bits;
    var all, front := taken + [x], |taken| - |buf|;
    assert all == taken[..front] + (buf + [x]);
    assert all[..|all|] == all && all[|all|..] == [];
    FoldNext(f, H0, taken[..front], buf + [x]);
    MoreBits(front, 64);
  }

  lemma AbsorbedParts(f: Compression, taken: seq<byte>, buf: seq<byte>, bitlen: nat, state: Words)
    requires Absorbed(f, taken, buf, bitlen, state)
    ensures |buf| <= |taken| && (|taken| - |buf|) % 64 == 0 && taken == taken[..|taken| - |buf|] + buf
    ensures state == Fold(f, H0, taken[..|taken| - |buf|]) && (bitlen + |buf| * 8) % U64 == 8 * |taken| % U64
  {
    hide Fold;
    MoreBits(|taken| - |buf|, |buf|);
  }

  // ---- the code -----------------------------------------------------------------------------------------

  /** SHA256_CTX; Message() is what it has taken in since sha256_init. */
  class Context {
    const f: Compression
    const data: array<byte>
    var datalen: nat
    var bitlen: nat
    var state: Words
    ghost var taken: seq<byte>

    /** sha256_init. */
    constructor (f: Compression)
      ensures Valid() && taken == [] && this.f == f && fresh(data)
    {
      this.f := f;
      data := new byte[64](_ => 0);
      datalen, bitlen, state, taken := 0, 0, H0, [];
    }

    ghost predicate Valid()
      reads this, data
    {
      data.Length == 64 && datalen < 64 && Absorbed(f, taken, data[..datalen], bitlen, state)
    }

    /** sha256_update. */
    method Update(piece: array<byte>, len: nat)
      requires Valid() && len <= piece.Length && piece != data
      modifies this`datalen, this`bitlen, this`state, this`taken, data
      ensures Valid() && taken == old(taken) + piece[..len]
    {
      var i := 0;
      while i < len
        invariant i <= len && Valid() && taken == old(taken) + piece[..i]
      {
        Take(piece[i]);
        i := i + 1;
      }
    }

    /** The loop body. */
    method Take(x: byte)
      requires Valid()
      modifies this`datalen, this`bitlen, this`state, this`taken, data
      ensures Valid() && taken == old(taken) + [x]
    {
      hide Absorbed;
      ghost var buf := data[..datalen];
      data[datalen] := x;
      datalen := datalen + 1;
      assert data[..datalen] == buf + [x];
      if datalen == 64 {
        assert data[..] == buf + [x];
        AbsorbBlock(f, taken, buf, bitlen, state, x);
        state := f(state, data[..]);
        bitlen := (bitlen + 512) % U64;
        datalen := 0;
        assert data[..datalen] == [];
      } else {
        AbsorbByte(f, taken, buf, bitlen, state, x);
      }
      taken := taken + [x];
    }

    /** sha256_final. */
    method Final() returns (hash: array<byte>)
      requires Valid()
      modifies this`bitlen, this`state, data
      ensures fresh(hash) && hash[..] == Digest(f, taken)
    {
      hide Fold, Digest, Padded, Absorbed, Be;
      AbsorbedParts(f, taken, data[..datalen], bitlen, state);
      ghost var whole := Pad();
      bitlen := (bitlen + datalen * 8) % U64;
      StoreLength();
      FoldNext(f, H0, whole, data[..]);
      state := f(state, data[..]);
      DigestIs(f, taken);
      hash := Output();
    }

    /** The bytes after the message, up to the length field. */
    method Pad() returns (ghost whole: seq<byte>)
      requires Valid()
      modifies this`state, data
      ensures |whole| % 64 == 0 && state == Fold(f, H0, whole)
      ensures Padded(taken) == whole + (data[..56] + Be(8 * |taken| % U64, 8))
    {
      hide Fold, Padded, Be, Absorbed;
      ghost var tail := data[..datalen];
      AbsorbedParts(f, taken, tail, bitlen, state);
      whole := taken[..|taken| - datalen];
      if datalen < 56 {
        Fill80(56);
        PaddedShort(whole, tail);
      } else {
        PaddedLong(whole, tail);
        Fill80(64);
        assert data[..64] == data[..];
        FoldNext(f, H0, whole, data[..]);
        state := f(state, data[..]);
        whole := whole + data[..];
        ClearFront();
      }
    }

    /** 0x80 and zeros up to a position. */
    method Fill80(end: nat)
      requires data.Length == 64 && datalen < end <= 64
      modifies data
      ensures data[..end] == old(data[..datalen]) + [0x80] + Zeros(end - datalen - 1)
    {
      var i := datalen;
      data[i] := 0x80;
      i := i + 1;
      while i < end
        invariant datalen < i <= end && data[..i] == old(data[..datalen]) + [0x80] + Zeros(i - datalen - 1)
      {
        data[i] := 0;
        i := i + 1;
      }
    }

    /** memset of the first 56 bytes. */
    method ClearFront()
      requires data.Length == 64
      modifies data
      ensures data[..56] == Zeros(56)
    {
      var i := 0;
      while i < 56
        invariant i <= 56 && data[..i] == Zeros(i)
      {
        data[i] := 0;
        i := i + 1;
      }
    }

    method StoreLength()
      requires data.Length == 64
      modifies data
      ensures data[..] == old(data[..56]) + Be(bitlen, 8)
    {
      BeEight(bitlen);
      hide Be;
      data[56], data[57] := (bitlen / 0x100_0000_0000_0000) % 256, (bitlen / 0x1_0000_0000_0000) % 256;
      data[58], data[59] := (bitlen / 0x100_0000_0000) % 256, (bitlen / 0x1_0000_0000) % 256;
      data[60], data[61] := (bitlen / 0x100_0000) % 256, (bitlen / 0x1_0000) % 256;
      data[62], data[63] := (bitlen / 0x100) % 256, bitlen % 256;
    }

    /** The eight words, byte i of each in turn. */
    method Output() returns (hash: array<byte>)
      ensures fresh(hash) && hash[..] == WordBytes(state)
    {
      hash := new byte[32](_ => 0);
      ghost var want := WordBytes(state);
      var i := 0;
      while i < 4
        invariant i <= 4 && |want| == hash.Length
        invariant forall p :: 0 <= p < 32 && p % 4 < i ==> hash[p] == want[p]
      {
        var w := 0;
        while w < 8
          invariant w <= 8
          invariant forall p :: 0 <= p < 32 && (p % 4 < i || (p % 4 == i && p / 4 < w)) ==> hash[p] == want[p]
        {
          WordBytesAt(state, w, i);
          hash[i + 4 * w] := (state[w] / Pow(256, 3 - i)) % 256;
          w := w + 1;
        }
        i := i + 1;
      }
    }
  }

  lemma DigestIs(f: Compression, m: seq<byte>)
    ensures Digest(f, m) == WordBytes(Fold(f, H0, Padded(m)))
  {
  }

  lemma PaddedShort(whole: seq<byte>, tail: seq<byte>)
    requires |whole| % 64 == 0 && |tail| < 56
    ensures var m := whole + tail;
      Padded(m) == whole + (tail + [0x80] + Zeros(55 - |tail|) + Be(8 * |m| % U64, 8))
  {
    hide Be;
    assert (|whole| + |tail|) % 64 == |tail|;
  }

  lemma PaddedLong(whole: seq<byte>, tail: seq<byte>)
    requires |whole| % 64 == 0 && 56 <= |tail| < 64
    ensures var m := whole + tail;
      Padded(m) == whole + (tail + [0x80] + Zeros(63 - |tail|)) + (Zeros(56) + Be(8 * |m| % U64, 8))
  {
    hide Be;
    assert (|whole| + |tail|) % 64 == |tail|;
    assert Zeros(63 - |tail|) + Zeros(56) == Zeros(119 - |tail|);
  }

  lemma BeEight(x: nat)
    ensures Be(x, 8) == [(x / 0x100_0000_0000_0000) % 256, (x / 0x1_0000_0000_0000) % 256, (x / 0x100_0000_0000) % 256,
      (x / 0x1_0000_0000) % 256, (x / 0x100_0000) % 256, (x / 0x1_0000) % 256, (x / 0x100) % 256, x % 256]
  {
    var y := x / 0x1_0000_0000;
    BeSplit(x);
    BeFour(x);
    BeFour(y);
    hide Be;
    assert y / 0x100_0000 == x / 0x100_0000_0000_0000;
    assert y / 0x1_0000 == x / 0x1_0000_0000_0000;
    assert y / 0x100 == x / 0x100_0000_0000;
  }

  lemma BeFour(x: nat)
    ensures Be(x, 4) == [(x / 0x100_0000) % 256, (x / 0x1_0000) % 256, (x / 0x100) % 256, x % 256]
  {
    BeTwo(x, 4);
    BeTwo(x / 0x1_0000, 2);
    hide Be;
    assert Be(x / 0x1_0000 / 0x1_0000, 0) == [];
    assert Be(x / 0x1_0000, 2) == Last2(x / 0x1_0000);
    Quarters(x);
  }

  lemma Quarters(x: nat)
    ensures x / 0x1_0000 / 256 == x / 0x100_0000
  {
  }

  lemma BeSplit(x: nat)
    ensures Be(x, 8) == Be(x / 0x1_0000_0000, 4) + Be(x, 4)
  {
    BeTwo(x, 8);
    BeTwo(x / 0x1_0000, 6);
    BeTwo(x, 4);
    BeTwo(x / 0x1_0000, 2);
    hide Be;
    assert x / 0x1_0000 / 0x1_0000 == x / 0x1_0000_0000;
    assert Be(x / 0x1_0000, 2) == Be(x / 0x1_0000 / 0x1_0000, 0) + Last2(x / 0x1_0000);
    assert Be(x / 0x1_0000 / 0x1_0000, 0) == [];
  }

  function Last2(x: nat): (b: seq<byte>)
    ensures |b| == 2
  {
    [(x / 256) % 256, x % 256]
  }

  lemma BeTwo(x: nat, n: nat)
    requires n >= 2
    ensures Be(x, n) == Be(x / 0x1_0000, n - 2) + Last2(x)
  {
    assert Be(x, n) == Be(x / 256, n - 1) + [x % 256];
    assert Be(x / 256, n - 1) == Be(x / 256 / 256, n - 2) + [(x / 256) % 256];
  }

  lemma {:induction false} WordBytesAt(ws: seq<word>, k: nat, j: nat)
    requires k < |ws| && j < 4
    ensures WordBytes(ws)[4 * k + j] == (ws[k] / Pow(256, 3 - j)) % 256
    decreases |ws|
  {
    hide Be;
    if k < |ws| - 1 { WordBytesAt(ws[..|ws| - 1], k, j); } else { BeFour(ws[k]); SmallPow(); }
  }

  lemma SmallPow()
    ensures Pow(256, 0) == 1 && Pow(256, 1) == 256 && Pow(256, 2) == 0x1_0000 && Pow(256, 3) == 0x100_0000
  {
  }

  function Flatten(pieces: seq<seq<byte>>): seq<byte> {
    if pieces == [] then [] else Flatten(pieces[..|pieces| - 1]) + pieces[|pieces| - 1]
  }

  /** The loop of hash_file_stream: however a message is cut into pieces, the digest is that of the whole. */
  method HashStream(f: Compression, pieces: seq<seq<byte>>) returns (hash: array<byte>)
    ensures hash[..] == Digest(f, Flatten(pieces))
  {
    hide Digest;
    var ctx := new Context(f);
    var n := 0;
    while n < |pieces|
      invariant n <= |pieces| && ctx.Valid() && fresh(ctx) && fresh(ctx.data) && ctx.taken == Flatten(pieces[..n])
    {
      var buffer := new byte[|pieces[n]|](i requires 0 <= i < |pieces[n]| => pieces[n][i]);
      assert buffer[..|pieces[n]|] == pieces[n];
      ctx.Update(buffer, |pieces[n]|);
      assert pieces[..n + 1][..n] == pieces[..n];
      n := n + 1;
    }
    assert pieces[..n] == pieces;
    hash := ctx.Final();
  }
}
