/**
  Base64 and Base32 of src/b64/b64.c: the encoding of RFC 4648 sections 4 and 6 as a function, the round trip
  through both decoders, and the loops of the program.
 */
module B64 {
  import opened Common
  import opened Arith
  import opened Radix

  datatype Kind = Base64 | Base32

  function BytesPer(k: Kind): nat { if k.Base64? then 3 else 5 }
  function CharsPer(k: Kind): nat { if k.Base64? then 4 else 8 }
  function BitsPer(k: Kind): nat { if k.Base64? then 6 else 5 }
  function Size(k: Kind): nat { if k.Base64? then 64 else 32 }

  /** A whole number of blocks. */
  predicate Whole(k: Kind, t: string) { if k.Base64? then |t| % 4 == 0 else |t| % 8 == 0 }

  /** The bytes that n characters hold, padding included. */
  function Held(k: Kind, n: nat): nat { if k.Base64? then n / 4 * 3 else n / 8 * 5 }

  lemma NoBlocks(k: Kind)
    ensures Whole(k, "") && Held(k, 0) == 0
  {
  }

  lemma OneBlockLess(k: Kind, t: string)
    requires Whole(k, t) && t != []
    ensures |t| >= CharsPer(k) && Whole(k, t[CharsPer(k)..]) && Held(k, |t|) == BytesPer(k) + Held(k, |t| - CharsPer(k))
  {
  }

  /** The alphabets. */
  function Symbol(k: Kind, v: nat): (c: char)
    requires v < Size(k)
    ensures c != '=' && !Space(c)
  {
    if v < 26 then 'A' + v as char
    else if k.Base32? then '2' + (v - 26) as char
    else if v < 52 then 'a' + (v - 26) as char
    else if v < 62 then '0' + (v - 52) as char
    else if v == 62 then '+' else '/'
  }

  /** What the decoding tables hold for characters outside the alphabet. */
  const BAD: nat := 0x8080_8080

  /** The decoding tables: Base32 takes both cases. */
  function Value(k: Kind, c: char): (v: nat)
    ensures v < Size(k) || v == BAD
  {
    if 'A' <= c <= 'Z' then (c - 'A') as nat
    else if k.Base32? then
      if 'a' <= c <= 'z' then (c - 'a') as nat else if '2' <= c <= '7' then (c - '2') as nat + 26 else BAD
    else if 'a' <= c <= 'z' then (c - 'a') as nat + 26
    else if '0' <= c <= '9' then (c - '0') as nat + 52
    else if c == '+' then 62 else if c == '/' then 63 else BAD
  }

  lemma ValueOfSymbol(k: Kind, v: nat)
    requires v < Size(k)
    ensures Value(k, Symbol(k, v)) == v
  {
  }

  function CharValue(k: Kind, c: char): nat { if c == '=' then 0 else Value(k, c) }

  function Values(k: Kind, t: string): (vs: seq<nat>)
    ensures |vs| == |t|
  {
    seq(|t|, i requires 0 <= i < |t| => CharValue(k, t[i]))
  }

  predicate Space(c: char) { c == '\r' || c == '\n' || c == ' ' }

  function Strip(s: string): (t: string)
    ensures t <= s && (t == [] || !Space(t[|t| - 1]))
  {
    if s != [] && Space(s[|s| - 1]) then Strip(s[..|s| - 1]) else s
  }

  // ---- the encoding ---------------------------------------------------------------------------------

  /** The characters that n bytes of the last block fill. */
  function Used(k: Kind, n: nat): nat { (8 * n + BitsPer(k) - 1) / BitsPer(k) }

  /** The digits of a block whose missing bytes are zeros. */
  function BlockDigits(k: Kind, x: seq<byte>): (ds: seq<nat>)
    requires |x| <= BytesPer(k)
    ensures |ds| == CharsPer(k) && DigitsOf(ds, Size(k))
  {
    To(From(x + Zeros(BytesPer(k) - |x|), 256), CharsPer(k), Size(k))
  }

  function BlockChars(k: Kind, ds: seq<nat>, used: nat): (t: string)
    requires DigitsOf(ds, Size(k))
    ensures |t| == |ds|
  {
    seq(|ds|, i requires 0 <= i < |ds| => if i < used then Symbol(k, ds[i]) else '=')
  }

  function EncodeBlock(k: Kind, x: seq<byte>): (t: string)
    requires |x| <= BytesPer(k)
    ensures |t| == CharsPer(k)
  {
    BlockChars(k, BlockDigits(k, x), Used(k, |x|))
  }

  function Encode(k: Kind, x: seq<byte>): (t: string)
    ensures Whole(k, t)
    decreases |x|
  {
    hide EncodeBlock;
    if x == [] then []
    else if |x| <= BytesPer(k) then EncodeBlock(k, x)
    else EncodeBlock(k, x[..BytesPer(k)]) + Encode(k, x[BytesPer(k)..])
  }

  // ---- the decoders ------------------------------------------------------------------------------------

  function Shl32(x: nat, n: nat): nat { (x * Pow(2, n)) % U32 }

  /** The 32-bit word that four characters make, valid or not. */
  function Quad(a: nat, b: nat, c: nat, d: nat): nat { Or(Or(Or(Shl32(a, 18), Shl32(b, 12)), Shl32(c, 6)), d) }

  function BlockValue(k: Kind, t: string): nat
    requires |t| == CharsPer(k)
  {
    var v := Values(k, t);
    if k.Base64? then Quad(v[0], v[1], v[2], v[3]) else From(v, 32)
  }

  function Bytes(n: nat, len: nat): (x: seq<byte>)
    ensures |x| == len && x == To(n, len, 256)
  {
    To(n, len, 256)
  }

  lemma ThreeBytes(n: nat)
    ensures Bytes(n, 3) == [(n / 65536) % 256, (n / 256) % 256, n % 256]
  {
    assert To(n, 3, 256) == To(n / 256, 2, 256) + [n % 256];
    assert To(n / 256, 2, 256) == To(n / 256 / 256, 1, 256) + [(n / 256) % 256];
    assert To(n / 256 / 256, 1, 256) == [] + [(n / 256 / 256) % 256];
  }

  /** The bytes of all blocks, whatever the padding. */
  function Flat(k: Kind, t: string): (x: seq<byte>)
    requires Whole(k, t)
    ensures |x| == Held(k, |t|)
    decreases |t|
  {
    hide BlockValue, Whole;
    if t == [] then []
    else
      OneBlockLess(k, t);
      hide Held;
      Bytes(BlockValue(k, t[..CharsPer(k)]), BytesPer(k)) + Flat(k, t[CharsPer(k)..])
  }

  function OutLen64(t: string): (n: nat)
    requires |t| % 4 == 0
    ensures n <= |t| / 4 * 3
  {
    |t| / 4 * 3 - (if |t| > 0 && t[|t| - 1] == '=' then 1 else 0) - (if |t| > 1 && t[|t| - 2] == '=' then 1 else 0)
  }

  /** base64_decode: characters outside the alphabet are not refused. */
  function Decode64(s: string): Option<seq<byte>> {
    var t := Strip(s);
    if |t| % 4 != 0 then None else Some(Flat(Base64, t)[..OutLen64(t)])
  }

  /** Trailing '=' characters, counting no further than n. */
  function Pads(t: string, n: nat): (p: nat)
    ensures p <= n && p <= |t|
  {
    if n == 0 || t == [] || t[|t| - 1] != '=' then 0 else 1 + Pads(t[..|t| - 1], n - 1)
  }

  function Dropped32(p: nat): nat
  {
    if p == 6 then 4 else if p == 4 then 3 else if p == 3 then 2 else if p == 1 then 1 else 0
  }

  function OutLen32(t: string): (n: nat)
    requires |t| % 8 == 0
    ensures n <= |t| / 8 * 5
  {
    |t| / 8 * 5 - Dropped32(Pads(t, 6))
  }

  predicate AllValid(k: Kind, t: string) { forall i :: 0 <= i < |t| ==> CharValue(k, t[i]) < Size(k) }

  /** base32_decode. */
  function Decode32(s: string): Option<seq<byte>> {
    var t := Strip(s);
    if |t| % 8 != 0 || !AllValid(Base32, t) then None else Some(Flat(Base32, t)[..OutLen32(t)])
  }

  // ---- one block there and back ----------------------------------------------------------------------

  lemma {:induction false} PowMul(b: nat, m: nat, j: nat)
    ensures Pow(Pow(b, m), j) == Pow(b, m * j)
    decreases j
  {
    if j == 0 {
    } else {
      PowMul(b, m, j - 1);
      PowAdd(b, m, m * (j - 1));
      assert m + m * (j - 1) == m * j;
    }
  }

  lemma SmallPowers()
    ensures Pow(2, 5) == 32 && Pow(2, 6) == 64 && Pow(2, 8) == 256
  {
    assert Pow(2, 3) == 8;
    assert Pow(2, 5) == 4 * Pow(2, 3);
    assert Pow(2, 8) == 8 * Pow(2, 5);
  }

  /** m followed by e zero bits has zero digits as far as they reach. */
  lemma ZeroDigit(m: nat, e: nat, bits: nat, c: nat, j: nat)
    requires j < c && bits > 0 && bits * j + bits <= e
    ensures To(m * Pow(2, e), c, Pow(2, bits))[c - 1 - j] == 0
  {
    var size, low := Pow(2, bits), e - bits * j - bits;
    PowMul(2, bits, j);
    PowAdd(2, low, bits);
    PowAdd(2, low + bits, bits * j);
    var h := m * Pow(2, low) * size;
    assert m * Pow(2, e) == h * Pow(size, j) by {
      assert Pow(2, e) == Pow(2, low) * size * Pow(size, j);
      MulAssoc(m, Pow(2, low), size, Pow(size, j));
    }
    DivUnique(m * Pow(2, e), Pow(size, j), h, 0);
    MultipleMod(m * Pow(2, low), size);
    DigitAt(m * Pow(2, e), c, j, size);
  }

  lemma MulAssoc(a: nat, b: nat, c: nat, d: nat)
    ensures a * (b * c * d) == a * b * c * d
  {
  }

  /** The characters replaced by padding stood for zeros. */
  lemma PaddedDigits(k: Kind, x: seq<byte>, i: nat)
    requires |x| <= BytesPer(k) && Used(k, |x|) <= i < CharsPer(k)
    ensures BlockDigits(k, x)[i] == 0
  {
    hide From, To, Pow;
    var z := BytesPer(k) - |x|;
    SmallPowers();
    TrailingZeros(x, z, 256);
    assert x + Zeros(z) == x + seq(z, _ => 0);
    PowMul(2, 8, z);
    var j := CharsPer(k) - 1 - i;
    ZeroDigit(From(x, 256), 8 * z, BitsPer(k), CharsPer(k), j);
  }

  lemma ValuesBack(k: Kind, x: seq<byte>)
    requires |x| <= BytesPer(k)
    ensures Values(k, EncodeBlock(k, x)) == BlockDigits(k, x)
  {
    var t, ds := EncodeBlock(k, x), BlockDigits(k, x);
    forall i | 0 <= i < |t| ensures CharValue(k, t[i]) == ds[i] {
      if i < Used(k, |x|) { ValueOfSymbol(k, ds[i]); } else { PaddedDigits(k, x, i); }
    }
  }

  lemma QuadIsFrom(a: nat, b: nat, c: nat, d: nat)
    requires a < 64 && b < 64 && c < 64 && d < 64
    ensures Quad(a, b, c, d) == From([a, b, c, d], 64)
  {
    QuadPowers();
    ShiftIs(a, 18, 262144); ShiftIs(b, 12, 4096); ShiftIs(c, 6, 64);
    hide Pow, Or, From, Shl32;
    OrIs(a, 18, 262144, 4096 * b);
    OrIs(64 * a + b, 12, 4096, 64 * c);
    OrIs(4096 * a + 64 * b + c, 6, 64, d);
    FourDigits(a, b, c, d);
  }

  lemma QuadPowers()
    ensures Pow(2, 6) == 64 && Pow(2, 12) == 4096 && Pow(2, 18) == 262144
  {
    SmallPowers();
    PowAdd(2, 6, 6);
    PowAdd(2, 12, 6);
  }

  lemma ShiftIs(x: nat, n: nat, p: nat)
    requires p == Pow(2, n) && x < 64 && p <= 262144
    ensures Shl32(x, n) == p * x
  {
    MulLe(p, 262144, x);
  }

  lemma OrIs(x: nat, n: nat, p: nat, y: nat)
    requires p == Pow(2, n) && y < p
    ensures Or(p * x, y) == p * x + y
  {
    OrShifted(x, n, y);
  }

  lemma FourDigits(a: nat, b: nat, c: nat, d: nat)
    ensures From([a, b, c, d], 64) == 262144 * a + 4096 * b + 64 * c + d
  {
    assert [] + [a] == [a];
    FromSnoc([], a, 64); FromSnoc([a], b, 64); FromSnoc([a, b], c, 64); FromSnoc([a, b, c], d, 64);
    assert [a] + [b] == [a, b] && [a, b] + [c] == [a, b, c] && [a, b, c] + [d] == [a, b, c, d];
  }

  lemma BlockBack(k: Kind, x: seq<byte>)
    requires |x| <= BytesPer(k)
    ensures Bytes(BlockValue(k, EncodeBlock(k, x)), BytesPer(k)) == x + Zeros(BytesPer(k) - |x|)
  {
    hide EncodeBlock, BlockValue, Pow, From, To;
    ToFrom(x + Zeros(BytesPer(k) - |x|), 256);
    ValueBack(k, x);
  }

  lemma ValueBack(k: Kind, x: seq<byte>)
    requires |x| <= BytesPer(k)
    ensures BlockValue(k, EncodeBlock(k, x)) == From(x + Zeros(BytesPer(k) - |x|), 256)
  {
    hide EncodeBlock, Values, From, To, Pow, Quad;
    var y := x + Zeros(BytesPer(k) - |x|);
    ToFrom(y, 256);
    BlockRange(k);
    FromTo(From(y, 256), CharsPer(k), Size(k));
    ValuesBack(k, x);
    FourOf(k, BlockDigits(k, x));
  }

  /** The word of four valid characters is their positional value. */
  lemma FourOf(k: Kind, ds: seq<nat>)
    requires |ds| == CharsPer(k) && DigitsOf(ds, Size(k))
    ensures k.Base64? ==> Quad(ds[0], ds[1], ds[2], ds[3]) == From(ds, 64)
  {
    hide From, Quad;
    if k.Base64? {
      QuadIsFrom(ds[0], ds[1], ds[2], ds[3]);
      assert ds == [ds[0], ds[1], ds[2], ds[3]];
    }
  }

  lemma BlockRange(k: Kind)
    ensures Pow(256, BytesPer(k)) == Pow(Size(k), CharsPer(k))
  {
    SmallPowers();
    PowMul(2, 8, BytesPer(k));
    PowMul(2, BitsPer(k), CharsPer(k));
  }

  // ---- whole messages --------------------------------------------------------------------------------

  /** The bytes of the last block, none only for the empty message. */
  function LastSize(k: Kind, x: seq<byte>): (r: nat)
    ensures r <= BytesPer(k) && r <= |x| && (x != [] ==> r > 0)
  {
    if |x| <= BytesPer(k) then |x| else LastSize(k, x[BytesPer(k)..])
  }

  lemma EncodeMore(k: Kind, x: seq<byte>)
    requires |x| > BytesPer(k)
    ensures Encode(k, x) == EncodeBlock(k, x[..BytesPer(k)]) + Encode(k, x[BytesPer(k)..])
  {
    hide EncodeBlock;
  }

  /** The zeros that fill the last block. */
  function Filler(k: Kind, x: seq<byte>): seq<byte> { Zeros(if x == [] then 0 else BytesPer(k) - LastSize(k, x)) }

  lemma FlatShort(k: Kind, x: seq<byte>)
    requires |x| <= BytesPer(k)
    ensures Flat(k, Encode(k, x)) == x + Filler(k, x)
  {
    hide EncodeBlock, Bytes, BlockValue, Whole;
    NoBlocks(k);
    if x != [] {
      BlockBack(k, x);
      FlatOne(k, EncodeBlock(k, x), []);
      assert EncodeBlock(k, x) + [] == EncodeBlock(k, x);
    }
  }

  lemma {:induction false} FlatBack(k: Kind, x: seq<byte>)
    ensures Flat(k, Encode(k, x)) == x + Filler(k, x)
    decreases |x|
  {
    hide EncodeBlock, Bytes, BlockValue, Whole, Encode, Flat;
    var m := BytesPer(k);
    if |x| <= m {
      FlatShort(k, x);
    } else {
      EncodeMore(k, x);
      FlatBack(k, x[m..]);
      assert Filler(k, x) == Filler(k, x[m..]);
      BlockBack(k, x[..m]);
      FlatOne(k, EncodeBlock(k, x[..m]), Encode(k, x[m..]));
      hide Filler;
      Glue(x, m, Filler(k, x));
    }
  }

  lemma Glue(x: seq<byte>, m: nat, z: seq<byte>)
    requires m <= |x|
    ensures (x[..m] + Zeros(0)) + (x[m..] + z) == x + z
  {
  }

  lemma FlatOne(k: Kind, b: string, rest: string)
    requires |b| == CharsPer(k) && Whole(k, rest)
    ensures Whole(k, b + rest) && Flat(k, b + rest) == Bytes(BlockValue(k, b), BytesPer(k)) + Flat(k, rest)
  {
    hide Bytes, BlockValue;
    assert (b + rest)[..CharsPer(k)] == b && (b + rest)[CharsPer(k)..] == rest;
  }

  /** The text has four or eight characters for every three or five bytes begun. */
  lemma {:induction false} EncodedLength(k: Kind, x: seq<byte>)
    ensures |Encode(k, x)| == Written(k, |x|)
    decreases |x|
  {
    hide EncodeBlock, Whole, Written;
    WrittenStep(k, |x|);
    if |x| > BytesPer(k) {
      EncodeMore(k, x);
      EncodedLength(k, x[BytesPer(k)..]);
      hide Encode;
    }
  }

  function Written(k: Kind, n: nat): nat { if k.Base64? then (n + 2) / 3 * 4 else (n + 4) / 5 * 8 }

  lemma WrittenStep(k: Kind, n: nat)
    ensures Written(k, 0) == 0 && (0 < n <= BytesPer(k) ==> Written(k, n) == CharsPer(k))
    ensures n > BytesPer(k) ==> Written(k, n) == CharsPer(k) + Written(k, n - BytesPer(k))
  {
  }

  /** The '=' characters: none, two or one (Base64), none, six, four, three or one (Base32), as RFC 4648 lists them. */
  function Padding(k: Kind, len: nat): nat {
    if k.Base64? then (if len % 3 == 1 then 2 else if len % 3 == 2 then 1 else 0)
    else if len % 5 == 1 then 6 else if len % 5 == 2 then 4 else if len % 5 == 3 then 3
    else if len % 5 == 4 then 1 else 0
  }

  /** Exactly the last p characters are padding, and the others decode. */
  predicate Padded(k: Kind, e: string, p: nat) {
    p <= |e| && forall i :: 0 <= i < |e| ==>
      (e[i] == '=' <==> i >= |e| - p) && CharValue(k, e[i]) < Size(k) && !Space(e[i])
  }

  lemma PaddedJoin(k: Kind, a: string, b: string, p: nat)
    requires Padded(k, a, 0) && Padded(k, b, p)
    ensures Padded(k, a + b, p)
  {
    hide CharValue, Space;
    forall i | 0 <= i < |a + b|
      ensures ((a + b)[i] == '=' <==> i >= |a + b| - p) && CharValue(k, (a + b)[i]) < Size(k) && !Space((a + b)[i])
    {
      if i < |a| { assert (a + b)[i] == a[i]; } else { assert (a + b)[i] == b[i - |a|]; }
    }
  }

  lemma EncodeShort(k: Kind, x: seq<byte>)
    ensures Padding(k, 0) == 0 && (x == [] ==> Encode(k, x) == [])
    ensures 0 < |x| <= BytesPer(k) ==> Encode(k, x) == EncodeBlock(k, x)
  {
    hide EncodeBlock;
  }

  lemma PaddingMore(k: Kind, n: nat)
    requires n > BytesPer(k)
    ensures Padding(k, n) == Padding(k, n - BytesPer(k)) && Padding(k, BytesPer(k)) == 0
  {
  }

  lemma {:induction false} PaddingIs(k: Kind, x: seq<byte>)
    ensures Padded(k, Encode(k, x), Padding(k, |x|))
    decreases |x|
  {
    hide EncodeBlock, Encode, Padded, Padding, CharValue, Size, Space;
    var m := BytesPer(k);
    EncodeShort(k, x);
    if x == [] {
      NoPadding(k);
    } else if |x| <= m {
      BlockPadding(k, x);
    } else {
      PaddingIs(k, x[m..]);
      PaddingMore(k, |x|);
      BlockPadding(k, x[..m]);
      EncodeMore(k, x);
      PaddedJoin(k, EncodeBlock(k, x[..m]), Encode(k, x[m..]), Padding(k, |x|));
    }
  }

  lemma NoPadding(k: Kind)
    ensures Padded(k, [], 0)
  {
  }

  lemma BlockPadding(k: Kind, x: seq<byte>)
    requires 0 < |x| <= BytesPer(k)
    ensures Padded(k, EncodeBlock(k, x), Padding(k, |x|))
  {
    assert Padding(k, |x|) == CharsPer(k) - Used(k, |x|);
    CharsPadded(k, BlockDigits(k, x), Used(k, |x|));
  }

  lemma CharsPadded(k: Kind, ds: seq<nat>, used: nat)
    requires DigitsOf(ds, Size(k)) && used <= |ds|
    ensures Padded(k, BlockChars(k, ds, used), |ds| - used)
  {
    hide Symbol, Value;
    forall i | 0 <= i < used ensures Value(k, Symbol(k, ds[i])) == ds[i] { ValueOfSymbol(k, ds[i]); }
  }

  lemma {:induction false} StripBlank(t: string, blank: string)
    requires t == [] || !Space(t[|t| - 1])
    requires forall i :: 0 <= i < |blank| ==> Space(blank[i])
    ensures Strip(t + blank) == t
    decreases |blank|
  {
    if blank == [] {
      assert t + blank == t;
    } else {
      StripBlank(t, blank[..|blank| - 1]);
      assert (t + blank)[..|t + blank| - 1] == t + blank[..|blank| - 1];
    }
  }

  lemma {:induction false} PadsIs(t: string, p: nat, n: nat)
    requires p <= |t| && p <= n && forall i :: 0 <= i < |t| ==> (t[i] == '=' <==> i >= |t| - p)
    ensures Pads(t, n) == p
    decreases n
  {
    if p == 0 {
    } else {
      PadsIs(t[..|t| - 1], p - 1, n - 1);
    }
  }

  /** decode(encode(x)) == x in Base64, whatever white space follows. */
  lemma RoundTrip64(x: seq<byte>, blank: string)
    requires forall i :: 0 <= i < |blank| ==> blank[i] == ' ' || blank[i] == '\n' || blank[i] == '\r'
    ensures Decode64(Encode(Base64, x) + blank) == Some(x)
  {
    hide Encode, Flat, Strip, CharValue, Padded, Padding, Held, OutLen64, Written;
    var e := Encode(Base64, x);
    PaddingIs(Base64, x);
    EncodedLength(Base64, x);
    OutLen64Is(e, x);
    StripBlank(e, blank);
    Lengths(Base64, x);
  }

  lemma OutLen64Is(e: string, x: seq<byte>)
    requires Padded(Base64, e, Padding(Base64, |x|)) && |e| == Written(Base64, |x|)
    ensures OutLen64(e) == |x| && (e == [] || !Space(e[|e| - 1])) && |e| % 4 == 0
  {
    Thirds(|x|);
    hide CharValue, Space, Written;
  }

  lemma Thirds(n: nat)
    ensures Written(Base64, n) % 4 == 0 && Written(Base64, n) / 4 * 3 == n + Padding(Base64, n)
    ensures Padding(Base64, n) <= 2
    ensures n > 0 ==> Written(Base64, n) >= 4
  {
  }

  /** What the blocks hold beyond the message is what the decoders drop. */
  lemma Lengths(k: Kind, x: seq<byte>)
    ensures |Flat(k, Encode(k, x))| >= |x| && Flat(k, Encode(k, x))[..|x|] == x
  {
    hide Flat, Encode;
    FlatBack(k, x);
  }

  /** And in Base32. */
  lemma RoundTrip32(x: seq<byte>, blank: string)
    requires forall i :: 0 <= i < |blank| ==> blank[i] == ' ' || blank[i] == '\n' || blank[i] == '\r'
    ensures Decode32(Encode(Base32, x) + blank) == Some(x)
  {
    hide Encode, Flat, Strip, CharValue, Padded, Padding, Held, OutLen32, AllValid, Written;
    var e := Encode(Base32, x);
    PaddingIs(Base32, x);
    EncodedLength(Base32, x);
    OutLen32Is(e, x);
    StripBlank(e, blank);
    Lengths(Base32, x);
  }

  lemma OutLen32Is(e: string, x: seq<byte>)
    requires Padded(Base32, e, Padding(Base32, |x|)) && |e| == Written(Base32, |x|)
    ensures OutLen32(e) == |x| && (e == [] || !Space(e[|e| - 1])) && AllValid(Base32, e) && |e| % 8 == 0
  {
    hide CharValue, Space, Pads;
    PadsIs(e, Padding(Base32, |x|), 6);
  }
}
