/** The loops of src/b64/b64.c, over fixed arrays and index variables, against the functions of module B64. */
module B64Code {
  import opened Common
  import opened Arith
  import opened Radix
  import opened B64

  /** The text before the padding is written: every character of the last block a symbol. */
  function Raw(k: Kind, x: seq<byte>): (t: string)
    decreases |x|
  {
    if x == [] then []
    else if |x| <= BytesPer(k) then BlockChars(k, BlockDigits(k, x), CharsPer(k))
    else BlockChars(k, BlockDigits(k, x[..BytesPer(k)]), CharsPer(k)) + Raw(k, x[BytesPer(k)..])
  }

  /** Writing '=' over the last characters of the raw text gives the encoding. */
  lemma {:induction false} RawPadded(k: Kind, x: seq<byte>)
    ensures var e, r := Encode(k, x), Raw(k, x);
      |r| == |e| && forall i :: 0 <= i < |e| ==> e[i] == if e[i] == '=' then '=' else r[i]
    decreases |x|
  {
    hide BlockDigits, Symbol;
    var m := BytesPer(k);
    if |x| > m {
      EncodeMore(k, x);
      RawPadded(k, x[m..]);
      FullBlock(k, x[..m]);
    }
  }

  lemma FullBlock(k: Kind, x: seq<byte>)
    requires |x| == BytesPer(k)
    ensures EncodeBlock(k, x) == BlockChars(k, BlockDigits(k, x), CharsPer(k))
  {
  }

  // ---- Base64 ---------------------------------------------------------------------------------------

  /** The four symbols of a 24-bit word. */
  method Put64(out: array<char>, j: nat, triple: nat)
    requires j + 4 <= out.Length
    modifies out
    ensures out[..] == old(out[..j]) + BlockChars(Base64, To(triple, 4, 64), 4) + old(out[j + 4..])
  {
    FourDigitsTo(triple);
    hide To, Symbol;
    out[j] := Symbol(Base64, (triple / 262144) % 64);
    out[j + 1] := Symbol(Base64, (triple / 4096) % 64);
    out[j + 2] := Symbol(Base64, (triple / 64) % 64);
    out[j + 3] := Symbol(Base64, triple % 64);
  }

  lemma FourDigitsTo(n: nat)
    ensures To(n, 4, 64) == [(n / 262144) % 64, (n / 4096) % 64, (n / 64) % 64, n % 64]
  {
    assert To(n, 4, 64) == To(n / 64, 3, 64) + [n % 64];
    assert To(n / 64, 3, 64) == To(n / 64 / 64, 2, 64) + [(n / 64) % 64];
    assert To(n / 64 / 64, 2, 64) == To(n / 64 / 64 / 64, 1, 64) + [(n / 64 / 64) % 64];
    assert To(n / 64 / 64 / 64, 1, 64) == [] + [(n / 64 / 64 / 64) % 64];
  }

  /** The word of three bytes. */
  function Triple(a: byte, b: byte, c: byte): nat { Or(Or(Shl32(a, 16), Shl32(b, 8)), c) }

  lemma TripleIs(a: byte, b: byte, c: byte)
    ensures Triple(a, b, c) == From([a, b, c], 256)
  {
    TriplePowers();
    ByteShift(a, 16, 65536); ByteShift(b, 8, 256);
    hide Pow, Or, From, Shl32;
    OrIs(a, 16, 65536, 256 * b);
    OrIs(256 * a + b, 8, 256, c);
    ThreeDigits(a, b, c);
  }

  lemma TriplePowers()
    ensures Pow(2, 8) == 256 && Pow(2, 16) == 65536
  {
    SmallPowers();
    PowAdd(2, 8, 8);
  }

  lemma ByteShift(x: nat, n: nat, p: nat)
    requires p == Pow(2, n) && x < 256 && p <= 65536
    ensures Shl32(x, n) == p * x
  {
    MulLe(p, 65536, x);
  }

  lemma ThreeDigits(a: nat, b: nat, c: nat)
    ensures From([a, b, c], 256) == 65536 * a + 256 * b + c
  {
    FromSnoc([], a, 256); FromSnoc([a], b, 256); FromSnoc([a, b], c, 256);
    assert [] + [a] == [a] && [a] + [b] == [a, b] && [a, b] + [c] == [a, b, c];
  }

  /** base64_encode. */
  method EncodeBase64(data: array<byte>) returns (text: string)
    ensures text == Encode(Base64, data[..])
  {
    hide Raw, Encode;
    var len := data.Length;
    var outLen := 4 * ((len + 2) / 3);
    var out := new char[outLen + 1](_ => ' ');
    EncodedLength(Base64, data[..]);
    RawPadded(Base64, data[..]);
    PaddingIs(Base64, data[..]);
    Blocks64(data, out);
    if len % 3 == 1 {
      out[outLen - 1] := '=';
      out[outLen - 2] := '=';
    } else if len % 3 == 2 {
      out[outLen - 1] := '=';
    }
    out[outLen] := '\0';
    text := out[..outLen];
    SameText(Base64, text, Raw(Base64, data[..]), data[..]);
  }

  /** Its loop. */
  method Blocks64(data: array<byte>, out: array<char>)
    requires |Raw(Base64, data[..])| <= out.Length
    modifies out
    ensures out[..|Raw(Base64, data[..])|] == Raw(Base64, data[..])
  {
    hide Raw, BlockDigits, BlockChars, Triple;
    var i, j := 0, 0;
    assert out[..0] + Raw(Base64, data[0..]) == Raw(Base64, data[..]);
    while i < data.Length
      invariant i <= data.Length && j <= out.Length
      invariant out[..j] + Raw(Base64, data[i..]) == Raw(Base64, data[..])
    {
      ghost var i0 := i;
      var a, b, c := data[i], 0, 0;
      i := i + 1;
      if i < data.Length { b := data[i]; i := i + 1; }
      if i < data.Length { c := data[i]; i := i + 1; }
      NextRaw(data[i0..], a, b, c);
      assert data[i0..][i - i0..] == data[i..];
      ghost var done := out[..j];
      Put64(out, j, Triple(a, b, c));
      assert out[..j + 4] == done + BlockChars(Base64, To(Triple(a, b, c), 4, 64), 4);
      j := j + 4;
    }
    RawNone(Base64);
    assert data[i..] == [];
  }

  lemma RawNone(k: Kind)
    ensures Raw(k, []) == []
  {
  }

  /** A raw text with its padding written is the encoding. */
  lemma SameText(k: Kind, t: string, raw: string, x: seq<byte>)
    requires raw == Raw(k, x) && |t| == |raw| && Padding(k, |x|) <= |t|
    requires forall i :: 0 <= i < |t| ==> t[i] == if i >= |t| - Padding(k, |x|) then '=' else raw[i]
    ensures t == Encode(k, x)
  {
    hide Encode, Raw, Padding, CharValue;
    RawPadded(k, x);
    PaddingIs(k, x);
  }

  /** The block at the head of the raw text, with bytes past the end taken as zero. */
  lemma NextRaw(x: seq<byte>, a: byte, b: byte, c: byte)
    requires x != [] && a == x[0] && b == (if |x| > 1 then x[1] else 0) && c == (if |x| > 2 then x[2] else 0)
    ensures Raw(Base64, x)
      == BlockChars(Base64, To(Triple(a, b, c), 4, 64), 4) + Raw(Base64, x[if |x| < 3 then |x| else 3..])
  {
    hide BlockChars, Triple, From, To;
    var m := if |x| < 3 then |x| else 3;
    TripleIs(a, b, c);
    assert x[..m] + Zeros(3 - m) == [a, b, c];
    assert BlockDigits(Base64, x[..m]) == To(Triple(a, b, c), 4, 64);
    hide BlockDigits;
    RawStep(Base64, x, m);
  }

  lemma RawStep(k: Kind, x: seq<byte>, m: nat)
    requires x != [] && m == if |x| < BytesPer(k) then |x| else BytesPer(k)
    ensures Raw(k, x) == BlockChars(k, BlockDigits(k, x[..m]), CharsPer(k)) + Raw(k, x[m..])
  {
    hide BlockChars, BlockDigits;
    if |x| <= BytesPer(k) { assert x[..m] == x && x[m..] == []; }
  }

  /** memset and the loop that fills the table of base64_decode. */
  method Table64() returns (table: array<nat>)
    ensures fresh(table) && table.Length == 256
    ensures forall c: char :: c as int < 256 ==> table[c as int] == Value(Base64, c)
  {
    table := new nat[256](_ => BAD);
    var i := 0;
    while i < 64
      invariant i <= 64
      invariant forall c: char :: c as int < 256 ==>
        table[c as int] == if Value(Base64, c) < i then Value(Base64, c) else BAD
    {
      ValueOfSymbol(Base64, i);
      table[Symbol(Base64, i) as int] := i;
      OnlySymbol(i);
      i := i + 1;
    }
  }

  lemma OnlySymbol(v: nat)
    requires v < 64
    ensures forall c: char :: Value(Base64, c) == v <==> c == Symbol(Base64, v)
  {
  }

  /** The loop over trailing white space. */
  method StripLength(data: array<char>) returns (len: nat)
    ensures len <= data.Length && data[..len] == Strip(data[..])
  {
    len := data.Length;
    assert data[..len] == data[..];
    while len > 0 && Space(data[len - 1])
      invariant len <= data.Length && Strip(data[..len]) == Strip(data[..])
    {
      assert data[..len][..len - 1] == data[..len - 1];
      len := len - 1;
    }
  }

  function CharOf(table: seq<nat>, c: char): nat
    requires |table| == 256 && c as int < 256
  {
    if c == '=' then 0 else table[c as int]
  }

  predicate Bytewise(s: string) { forall i :: 0 <= i < |s| ==> s[i] as int < 256 }

  predicate TableFor(k: Kind, table: seq<nat>) {
    |table| == 256 && forall c: char :: c as int < 256 ==> table[c as int] == Value(k, c)
  }

  /** base64_decode. */
  method DecodeBase64(data: array<char>) returns (res: Option<seq<byte>>)
    requires Bytewise(data[..])
    ensures res == Decode64(data[..])
  {
    hide Strip, Flat, Value, Space;
    var len := StripLength(data);
    if len % 4 != 0 { return None; }
    var outLen := len / 4 * 3;
    if len > 0 && data[len - 1] == '=' { outLen := outLen - 1; }
    if len > 1 && data[len - 2] == '=' { outLen := outLen - 1; }
    assert outLen == OutLen64(data[..len]);
    var out := new byte[outLen + 1](_ => 0);
    var table := Table64();
    Unblock64(data, len, table, out, outLen);
    res := Some(out[..outLen]);
  }

  /** Its loop, cutting the output off at its length. */
  method Unblock64(data: array<char>, len: nat, table: array<nat>, out: array<byte>, outLen: nat)
    requires len <= data.Length && len % 4 == 0 && Bytewise(data[..len]) && TableFor(Base64, table[..])
    requires outLen <= len / 4 * 3 && outLen < out.Length && outLen + 3 > len / 4 * 3
    modifies out
    ensures out[..outLen] == Flat(Base64, data[..len])[..outLen]
  {
    hide Unpacked, Flat, BlockValue, Bytes, TableFor, Bytewise;
    var i, j := 0, 0;
    ghost var t := data[..len];
    UnpackStart(Base64, t, outLen);
    assert outLen <= |Flat(Base64, t)|;
    hide Whole, Held;
    assert out[..j] == [];
    while i < len
      invariant i <= len && j <= outLen
      invariant Unpacked(Base64, t, outLen, i, out[..j])
    {
      UnpackStep(Base64, t, outLen, i, out[..j]);
      assert data[i..i + 4] == t[i..i + 4];
      PartBytewise(t, i, i + 4);
      var triple := ReadQuad(data, i, table);
      j := PutBytes(out, j, outLen, triple);
      i := i + 4;
    }
    UnpackEnd(Base64, t, outLen, out[..j]);
  }

  lemma PartBytewise(t: string, i: nat, j: nat)
    requires Bytewise(t) && i <= j <= |t|
    ensures Bytewise(t[i..j])
  {
  }

  /** The blocks before i are decoded into done, as far as the limit lets them. */
  ghost predicate Unpacked(k: Kind, t: string, limit: nat, i: nat, done: seq<byte>) {
    && Whole(k, t) && i <= |t| && Whole(k, t[i..])
    && |Flat(k, t[i..])| <= |Flat(k, t)|
    && var flat, p := Flat(k, t), |Flat(k, t)| - |Flat(k, t[i..])|;
      && |done| == (if p < limit then p else limit)
      && done == flat[..|done|] && flat[p..] == Flat(k, t[i..])
  }

  lemma UnpackStart(k: Kind, t: string, limit: nat)
    requires Whole(k, t)
    ensures Unpacked(k, t, limit, 0, [])
  {
    hide Flat;
    assert t[0..] == t;
  }

  lemma UnpackStep(k: Kind, t: string, limit: nat, i: nat, done: seq<byte>)
    requires Unpacked(k, t, limit, i, done) && i < |t|
    ensures i + CharsPer(k) <= |t|
    ensures var b := Bytes(BlockValue(k, t[i..i + CharsPer(k)]), BytesPer(k));
      Unpacked(k, t, limit, i + CharsPer(k), (done + b)[..if |done| + |b| < limit then |done| + |b| else limit])
  {
    hide Flat, Bytes, BlockValue, Whole, Held;
    FlatStep(k, t, i);
    var flat, p := Flat(k, t), |Flat(k, t)| - |Flat(k, t[i..])|;
    var b, rest := Bytes(BlockValue(k, t[i..i + CharsPer(k)]), BytesPer(k)), Flat(k, t[i + CharsPer(k)..]);
    Prefixes(flat, b, rest, p);
    if |done| == p { assert done + b == flat[..p + |b|]; }
  }

  lemma UnpackEnd(k: Kind, t: string, limit: nat, done: seq<byte>)
    requires Unpacked(k, t, limit, |t|, done) && limit <= |Flat(k, t)|
    ensures done == Flat(k, t)[..limit]
  {
    assert t[|t|..] == [];
  }

  lemma Prefixes(flat: seq<byte>, b: seq<byte>, rest: seq<byte>, p: nat)
    requires p <= |flat| && flat[p..] == b + rest
    ensures p + |b| <= |flat| && flat[p..p + |b|] == b && flat[p + |b|..] == rest
  {
    assert flat[p..][..|b|] == b && flat[p..][|b|..] == rest;
  }

  lemma FlatStep(k: Kind, t: string, i: nat)
    requires i < |t| && Whole(k, t[i..])
    ensures i + CharsPer(k) <= |t| && Whole(k, t[i + CharsPer(k)..])
    ensures Flat(k, t[i..]) == Bytes(BlockValue(k, t[i..i + CharsPer(k)]), BytesPer(k)) + Flat(k, t[i + CharsPer(k)..])
  {
    hide Bytes, BlockValue, Flat;
    var b, rest := t[i..i + CharsPer(k)], t[i + CharsPer(k)..];
    assert t[i..] == b + rest;
    FlatOne(k, b, rest);
  }

  /** Four characters through the table, '=' as zero. */
  method ReadQuad(data: array<char>, i: nat, table: array<nat>) returns (triple: nat)
    requires i + 4 <= data.Length && Bytewise(data[i..i + 4]) && TableFor(Base64, table[..])
    ensures triple == BlockValue(Base64, data[i..i + 4])
  {
    hide Quad, Value;
    ghost var b := data[i..i + 4];
    assert b[0] == data[i] && b[1] == data[i + 1] && b[2] == data[i + 2] && b[3] == data[i + 3];
    var v0 := CharOf(table[..], data[i]);
    var v1 := CharOf(table[..], data[i + 1]);
    var v2 := CharOf(table[..], data[i + 2]);
    var v3 := CharOf(table[..], data[i + 3]);
    triple := Quad(v0, v1, v2, v3);
  }

  /** Up to three bytes of a word, as long as there is room. */
  method PutBytes(out: array<byte>, j0: nat, limit: nat, triple: nat) returns (j: nat)
    requires j0 <= limit < out.Length
    modifies out
    ensures j == (if j0 + 3 < limit then j0 + 3 else limit) && out[..j] == (old(out[..j0]) + Bytes(triple, 3))[..j]
  {
    ThreeBytes(triple);
    hide To, Bytes;
    j := j0;
    if j < limit { out[j] := (triple / 65536) % 256; j := j + 1; }
    if j < limit { out[j] := (triple / 256) % 256; j := j + 1; }
    if j < limit { out[j] := triple % 256; j := j + 1; }
  }

  // ---- Base32 ---------------------------------------------------------------------------------------

  function Shl64(x: nat, n: nat): nat { (x * Pow(2, n)) % U64 }

  /** Shifting in one more digit is one more step of the positional value. */
  lemma ShiftIn(b: nat, n: nat, p: nat, d: nat)
    requires p == Pow(2, n) && p <= 256 && d < p && b < 0x100_0000_0000
    ensures Or(Shl64(b, n), d) == b * p + d
  {
    MulLe(p, 256, b);
    DivUnique(b * p, U64, 0, b * p);
    hide Pow, Or;
    OrShifted(b, n, d);
  }

  /** The first loop of a block: five bytes, zeros past the end. */
  method GatherBytes(data: array<byte>, i: nat, chunk: nat) returns (b: nat)
    requires i + chunk <= data.Length && chunk <= 5
    ensures b == From(data[i..i + chunk] + Zeros(5 - chunk), 256)
  {
    b := 0;
    ghost var x := data[i..i + chunk] + Zeros(5 - chunk);
    hide From;
    var k := 0;
    EmptyValue();
    assert x[..0] == [];
    while k < 5
      invariant k <= 5 && b == From(x[..k], 256)
    {
      var val := if k < chunk then data[i + k] else 0;
      assert val == x[k];
      GatherStep(x, k, 8, 256);
      b := Or(Shl64(b, 8), val);
      k := k + 1;
    }
    assert x[..5] == x;
  }

  lemma EmptyValue()
    ensures From([], 256) == 0 && From([], 32) == 0
  {
  }

  lemma GatherStep(x: seq<nat>, k: nat, n: nat, r: nat)
    requires (n == 8 && r == 256 && |x| == 5) || (n == 5 && r == 32 && |x| == 8)
    requires DigitsOf(x, r) && k < |x|
    ensures Or(Shl64(From(x[..k], r), n), x[k]) == From(x[..k + 1], r)
  {
    ToFrom(x[..k], r);
    FortyBits(k, r);
    SmallPowers();
    FromSnoc(x[..k], x[k], r);
    assert x[..k] + [x[k]] == x[..k + 1];
    hide From, To;
    ShiftIn(From(x[..k], r), n, r, x[k]);
  }

  lemma FortyBits(k: nat, r: nat)
    requires (r == 256 && k < 5) || (r == 32 && k < 8)
    ensures Pow(r, k) <= 0x100_0000_0000
  {
    assert Pow(256, 1) == 256 && Pow(256, 2) == 65536 && Pow(256, 3) == 16777216;
    assert Pow(256, 4) == 256 * Pow(256, 3);
    assert Pow(32, 1) == 32 && Pow(32, 2) == 1024 && Pow(32, 3) == 32768;
    assert Pow(32, 4) == 32 * Pow(32, 3);
    assert Pow(32, 5) == 32 * Pow(32, 4);
    assert Pow(32, 6) == 32 * Pow(32, 5);
    assert Pow(32, 7) == 32 * Pow(32, 6);
  }

  /** A base 32 digit by shifting. */
  lemma FiveBits(b: nat, k: nat)
    requires k < 8
    ensures (b / Pow(2, 5 * k)) % 32 == To(b, 8, 32)[7 - k]
  {
    SmallPowers();
    hide To, Pow;
    DigitAt(b, 8, k, 32);
    PowMul(2, 5, k);
  }

  /** The second loop: eight symbols, high bits first. */
  method SpreadChars(out: array<char>, o0: nat, b: nat)
    requires o0 + 8 <= out.Length
    modifies out
    ensures out[..] == old(out[..o0]) + BlockChars(Base32, To(b, 8, 32), 8) + old(out[o0 + 8..])
  {
    hide Symbol, To, Pow;
    var k, o := 7, o0;
    ghost var want := BlockChars(Base32, To(b, 8, 32), 8);
    while k >= 0
      invariant -1 <= k <= 7 && o == o0 + 7 - k
      invariant forall p :: o0 <= p < o ==> out[p] == want[p - o0]
      invariant forall p :: 0 <= p < o0 || o0 + 8 <= p < out.Length ==> out[p] == old(out[p])
    {
      FiveBits(b, k);
      out[o] := Symbol(Base32, (b / Pow(2, 5 * k)) % 32);
      o := o + 1;
      k := k - 1;
    }
  }

  /** The stores of the padding, by the length of the last block. */
  method PutPads(out: array<char>, o: nat, chunk: nat)
    requires 8 <= o <= out.Length && 1 <= chunk <= 5
    modifies out
    ensures forall k :: o - 8 + Used(Base32, chunk) <= k < o ==> out[k] == '='
    ensures forall k :: 0 <= k < out.Length && !(o - 8 + Used(Base32, chunk) <= k < o) ==> out[k] == old(out[k])
  {
    if chunk == 1 {
      out[o - 6], out[o - 5], out[o - 4] := '=', '=', '=';
      out[o - 3], out[o - 2], out[o - 1] := '=', '=', '=';
    } else if chunk == 2 {
      out[o - 4], out[o - 3], out[o - 2], out[o - 1] := '=', '=', '=', '=';
    } else if chunk == 3 {
      out[o - 3], out[o - 2], out[o - 1] := '=', '=', '=';
    } else if chunk == 4 {
      out[o - 1] := '=';
    }
  }

  /** The padding of the last, short block. */
  method PadBlock(out: array<char>, o: nat, chunk: nat, ghost ds: seq<nat>)
    requires 8 <= o <= out.Length && 1 <= chunk <= 5 && |ds| == 8 && DigitsOf(ds, 32)
    requires out[o - 8..o] == BlockChars(Base32, ds, 8)
    modifies out
    ensures out[..o] == old(out[..o - 8]) + BlockChars(Base32, ds, Used(Base32, chunk))
  {
    hide Symbol, BlockChars;
    ghost var was, b := out[..o - 8], out[o - 8..o];
    PutPads(out, o, chunk);
    ghost var u := Used(Base32, chunk);
    assert out[o - 8..o] == b[..u] + Equals(8 - u);
    hide Used;
    PaddedChars(out[o - 8..o], ds, u);
    assert out[..o - 8] == was;
    assert out[..o] == out[..o - 8] + out[o - 8..o];
  }

  ghost function Equals(n: nat): (s: string)
    ensures |s| == n && forall i :: 0 <= i < n ==> s[i] == '='
  {
    seq(n, _ => '=')
  }

  lemma PaddedChars(b: string, ds: seq<nat>, u: nat)
    requires |b| == |ds| == 8 && u <= 8 && DigitsOf(ds, 32)
    requires b == BlockChars(Base32, ds, 8)[..u] + Equals(8 - u)
    ensures b == BlockChars(Base32, ds, u)
  {
    hide Symbol;
  }

  /** base32_encode. */
  method EncodeBase32(data: array<byte>) returns (text: string)
    ensures text == Encode(Base32, data[..])
  {
    hide Encode, EncodeBlock, BlockChars, To, From;
    var len := data.Length;
    var outLen := (len + 4) / 5 * 8;
    var out := new char[outLen + 1](_ => ' ');
    EncodedLength(Base32, data[..]);
    var i, o := 0, 0;
    ghost var whole := Encode(Base32, data[..]);
    assert data[0..] == data[..] && out[..0] == [];
    while i < len
      invariant o <= outLen && out[..o] + Encode(Base32, data[if i < len then i else len..]) == whole
      decreases len - i
    {
      var chunk := if len - i > 5 then 5 else len - i;
      EncodeStep(data[i..], chunk);
      assert data[i..][..chunk] == data[i..i + chunk];
      assert data[i..][chunk..] == data[if i + 5 < len then i + 5 else len..];
      EncodeOne(data, i, chunk, out, o);
      o := o + 8;
      i := i + 5;
    }
    assert Encode(Base32, data[len..]) == [] by { assert data[len..] == []; EncodedLength(Base32, data[len..]); }
    out[o] := '\0';
    text := out[..o];
  }

  /** One round of its loop. */
  method EncodeOne(data: array<byte>, i: nat, chunk: nat, out: array<char>, o: nat)
    requires 1 <= chunk <= 5 && i + chunk <= data.Length && o + 8 <= out.Length
    modifies out
    ensures out[..o + 8] == old(out[..o]) + EncodeBlock(Base32, data[i..i + chunk])
  {
    hide EncodeBlock, BlockChars, To, From;
    var b := GatherBytes(data, i, chunk);
    ghost var done := out[..o];
    SpreadChars(out, o, b);
    assert out[o..o + 8] == BlockChars(Base32, To(b, 8, 32), 8);
    assert out[..o] == done;
    PadBlock(out, o + 8, chunk, To(b, 8, 32));
    BlockOf(data[i..i + chunk], b);
  }

  lemma BlockOf(x: seq<byte>, b: nat)
    requires 0 < |x| <= 5 && b == From(x + Zeros(5 - |x|), 256)
    ensures EncodeBlock(Base32, x) == BlockChars(Base32, To(b, 8, 32), Used(Base32, |x|))
  {
    hide To, From, BlockChars, Used;
  }

  lemma EncodeStep(x: seq<byte>, m: nat)
    requires x != [] && m == if |x| < 5 then |x| else 5
    ensures Encode(Base32, x) == EncodeBlock(Base32, x[..m]) + Encode(Base32, x[m..])
  {
    hide EncodeBlock;
    if |x| <= 5 { assert x[..m] == x && x[m..] == []; }
  }

  /** memset and the loop that fills the table of base32_decode: -1 marks characters outside the alphabet. */
  method Table32() returns (table: array<int>)
    ensures fresh(table) && table.Length == 256
    ensures forall c: char :: c as int < 256 ==> table[c as int] == Signed32(c, 32)
  {
    hide Value, Symbol;
    table := new int[256](_ => -1);
    var i := 0;
    while i < 32
      invariant i <= 32
      invariant forall c: char :: c as int < 256 ==> table[c as int] == Signed32(c, i)
    {
      CasesOf(i);
      table[Symbol(Base32, i) as int] := i;
      table[LowerChar(Symbol(Base32, i)) as int] := i;
      assert forall c: char :: Signed32(c, i + 1) == if Value(Base32, c) == i then i else Signed32(c, i);
      i := i + 1;
    }
  }

  predicate TableFor32(table: seq<int>) {
    |table| == 256 && forall c: char :: c as int < 256 ==> table[c as int] == Signed32(c, 32)
  }

  /** The table entry once i symbols are in. */
  function Signed32(c: char, i: nat): int { if Value(Base32, c) < i then Value(Base32, c) else -1 }

  /** tolower on ASCII. */
  lemma CasesOf(v: nat)
    requires v < 32
    ensures Symbol(Base32, v) as int < 256 && LowerChar(Symbol(Base32, v)) as int < 256
    ensures forall c: char :: Value(Base32, c) == v <==> c == Symbol(Base32, v) || c == LowerChar(Symbol(Base32, v))
  {
  }

  /** The first loop of a block: eight characters, '=' as zero, giving up at one outside the alphabet. */
  method GatherChars(data: array<char>, i: nat, table: array<int>) returns (ok: bool, b: nat)
    requires i + 8 <= data.Length && Bytewise(data[i..i + 8]) && TableFor32(table[..])
    ensures ok <==> AllValid(Base32, data[i..i + 8])
    ensures ok ==> b == From(Values(Base32, data[i..i + 8]), 32)
  {
    hide From, Value;
    b := 0;
    ghost var t := data[i..i + 8];
    ghost var vs := Values(Base32, t);
    EmptyValue();
    assert vs[..0] == [];
    var k := 0;
    while k < 8
      invariant k <= 8 && AllValid(Base32, t[..k]) && b == From(vs[..k], 32)
    {
      var c := data[i + k];
      assert c == t[k];
      var val := if c == '=' then 0 else table[c as int];
      assert c == '=' || val == Signed32(c, 32);
      if val < 0 { return false, 0; }
      assert t[..k + 1] == t[..k] + [c];
      GatherStepFor(t, k);
      b := Or(Shl64(b, 5), val);
      k := k + 1;
    }
    assert t[..8] == t && vs[..8] == vs;
    ok := true;
  }

  lemma GatherStepFor(t: string, k: nat)
    requires |t| == 8 && k < 8 && AllValid(Base32, t[..k + 1])
    ensures var vs := Values(Base32, t);
      Or(Shl64(From(vs[..k], 32), 5), vs[k]) == From(vs[..k + 1], 32)
  {
    hide From, Value;
    var vs := Values(Base32, t);
    forall i | 0 <= i <= k ensures vs[i] < 32 { assert t[..k + 1][i] == t[i]; }
    var full := vs[..k + 1] + Zeros(7 - k);
    GatherStep(full, k, 5, 32);
    assert full[..k] == vs[..k] && full[..k + 1] == vs[..k + 1];
  }

  /** The second loop: the five bytes, as long as there is room. */
  method SpreadBytes(out: array<byte>, o0: nat, limit: nat, b: nat) returns (o: nat)
    requires o0 <= limit < out.Length
    modifies out
    ensures o == (if o0 + 5 < limit then o0 + 5 else limit) && out[..o] == (old(out[..o0]) + Bytes(b, 5))[..o]
  {
    hide Bytes;
    o := o0;
    ghost var want := old(out[..o0]) + Bytes(b, 5);
    var k := 4;
    while k >= 0
      invariant -1 <= k <= 4 && o == (if o0 + 4 - k < limit then o0 + 4 - k else limit)
      invariant out[..o] == want[..o]
    {
      ByteAt(b, k);
      if o < limit {
        out[o] := (b / Pow(2, k * 8)) % 256;
        o := o + 1;
      }
      k := k - 1;
    }
  }

  lemma ByteAt(b: nat, k: nat)
    requires k < 5
    ensures Bytes(b, 5)[4 - k] == (b / Pow(2, k * 8)) % 256
  {
    DigitAt(b, 5, k, 256);
    SmallPowers();
    PowMul(2, 8, k);
  }

  /** The loop over trailing padding. */
  method CountPads(data: array<char>, len: nat) returns (p: nat)
    requires len <= data.Length
    ensures p == Pads(data[..len], 6)
  {
    p := 0;
    var k := 1;
    assert data[..len - p] == data[..len];
    while k <= 6 && len >= k
      invariant 1 <= k <= 7 && p == k - 1 && p <= len
      invariant Pads(data[..len], 6) == p + Pads(data[..len - p], 6 - p)
    {
      assert data[..len - p][..len - p - 1] == data[..len - p - 1];
      if data[len - k] == '=' { p := p + 1; } else { return; }
      k := k + 1;
    }
  }

  /** base32_decode. */
  method DecodeBase32(data: array<char>) returns (res: Option<seq<byte>>)
    requires Bytewise(data[..])
    ensures res == Decode32(data[..])
  {
    hide Strip, Flat, Value, Space, Pads;
    var len := StripLength(data);
    if len % 8 != 0 { return None; }
    var pads := CountPads(data, len);
    var outLen := len / 8 * 5;
    if pads == 6 { outLen := outLen - 4; }
    else if pads == 4 { outLen := outLen - 3; }
    else if pads == 3 { outLen := outLen - 2; }
    else if pads == 1 { outLen := outLen - 1; }
    PadsFit(data[..len]);
    assert outLen == OutLen32(data[..len]);
    var out := new byte[outLen + 1](_ => 0);
    var table := Table32();
    var ok := Unblock32(data, len, table, out, outLen);
    res := if ok then Some(out[..outLen]) else None;
  }

  lemma PadsFit(t: string)
    requires |t| % 8 == 0
    ensures |t| == 0 ==> Pads(t, 6) == 0
  {
  }

  /** Its loop. */
  method Unblock32(data: array<char>, len: nat, table: array<int>, out: array<byte>, outLen: nat) returns (ok: bool)
    requires len <= data.Length && len % 8 == 0 && Bytewise(data[..len]) && TableFor32(table[..])
    requires outLen <= len / 8 * 5 && outLen < out.Length && outLen + 5 > len / 8 * 5
    modifies out
    ensures ok <==> AllValid(Base32, data[..len])
    ensures ok ==> out[..outLen] == Flat(Base32, data[..len])[..outLen]
  {
    hide Unpacked, Flat, BlockValue, Bytes, From, Values, TableFor32, AllValid, Bytewise;
    var i: nat, o: nat := 0, 0;
    ghost var t := data[..len];
    UnpackStart(Base32, t, outLen);
    assert outLen <= |Flat(Base32, t)|;
    hide Whole, Held;
    NoneInvalid();
    assert out[..o] == [] && t[..0] == [];
    while i < len
      invariant i <= len && i % 8 == 0 && o <= outLen
      invariant AllValid(Base32, t[..i])
      invariant Unpacked(Base32, t, outLen, i, out[..o])
    {
      var valid;
      valid, o := NextBlock32(data, i, table, out, o, outLen, t);
      if !valid { return false; }
      i := i + 8;
    }
    assert t[..len] == t;
    UnpackEnd(Base32, t, outLen, out[..o]);
    ok := true;
  }

  /** One block: eight characters in, up to five bytes out. */
  method NextBlock32(data: array<char>, i: nat, table: array<int>, out: array<byte>, o0: nat, outLen: nat,
      ghost t: string)
    returns (ok: bool, o: nat)
    requires i + 8 <= |t| <= data.Length && |t| % 8 == 0 && i % 8 == 0 && t == data[..|t|] && Bytewise(t)
    requires TableFor32(table[..])
    requires o0 <= outLen < out.Length && outLen <= |Flat(Base32, t)|
    requires AllValid(Base32, t[..i]) && Unpacked(Base32, t, outLen, i, out[..o0])
    modifies out
    ensures o <= outLen
    ensures ok ==> AllValid(Base32, t[..i + 8]) && Unpacked(Base32, t, outLen, i + 8, out[..o])
    ensures !ok ==> !AllValid(Base32, t)
  {
    hide Unpacked, Flat, BlockValue, Bytes, From, Values, TableFor32, AllValid, Bytewise;
    UnpackStep(Base32, t, outLen, i, out[..o0]);
    ghost var all := data[..];
    assert data[..|t|] == all[..|t|] && data[i..i + 8] == all[i..i + 8];
    SubSlice(all, |t|, i, i + 8);
    PartBytewise(t, i, i + 8);
    var valid, b := GatherChars(data, i, table);
    if !valid { SomeInvalid(t, i); return false, o0; }
    MoreValid(t, i);
    ValueOf32(t[i..i + 8]);
    o := SpreadBytes(out, o0, outLen, b);
    ok := true;
  }

  lemma SubSlice(s: string, n: nat, i: nat, j: nat)
    requires i <= j <= n <= |s|
    ensures s[..n][i..j] == s[i..j]
  {
  }

  lemma ValueOf32(b: string)
    requires |b| == 8
    ensures BlockValue(Base32, b) == From(Values(Base32, b), 32)
  {
    hide From, Values;
  }

  lemma NoneInvalid()
    ensures AllValid(Base32, [])
  {
  }

  lemma SomeInvalid(t: string, i: nat)
    requires i + 8 <= |t| && !AllValid(Base32, t[i..i + 8])
    ensures !AllValid(Base32, t)
  {
    var j :| 0 <= j < 8 && CharValue(Base32, t[i..i + 8][j]) >= 32;
    assert t[i..i + 8][j] == t[i + j];
  }

  lemma MoreValid(t: string, i: nat)
    requires i + 8 <= |t| && AllValid(Base32, t[..i]) && AllValid(Base32, t[i..i + 8])
    ensures AllValid(Base32, t[..i + 8])
  {
    assert t[..i + 8] == t[..i] + t[i..i + 8];
  }
}
