/**
  What the decoders of src/b64/b64.c accept, and when an accepted text is right: when encoding the bytes again
  gives the text back.
 */
module B64Canon {
  import opened Common
  import opened Arith
  import opened Radix
  import opened B64

  /** A character of the alphabet, upper case in Base32. */
  predicate Letter(k: Kind, c: char) { Value(k, c) < Size(k) && Symbol(k, Value(k, c)) == c }

  /** The bytes of a last block that ends in p '='; 0 when no block does. */
  function LastBytes(k: Kind, p: nat): (n: nat)
    ensures n <= BytesPer(k) && (n > 0 ==> p < CharsPer(k) && Used(k, n) == CharsPer(k) - p)
  {
    if k.Base64? then (if p <= 2 then 3 - p else 0)
    else if p == 0 then 5 else if p == 1 then 4 else if p == 3 then 3 else if p == 4 then 2 else if p == 6 then 1 else 0
  }

  /** The value of the lowest bit that counts in the last character before p '='. */
  function FillerUnit(k: Kind, p: nat): (u: nat)
    ensures u > 0
  {
    if k.Base64? then (if p == 1 then 4 else if p == 2 then 16 else 1)
    else if p == 1 then 8 else if p == 3 then 2 else if p == 4 then 16 else if p == 6 then 4 else 1
  }

  /** Whole blocks of letters; '=' only at the end, as many as a last block can have; the filler bits before it zero. */
  predicate Canonical(k: Kind, t: string) {
    var p := Pads(t, |t|);
    && Whole(k, t)
    && (forall i :: 0 <= i < |t| - p ==> Letter(k, t[i]))
    && (t != "" ==> p < |t| && LastBytes(k, p) > 0 && Value(k, t[|t| - p - 1]) % FillerUnit(k, p) == 0)
  }

  // ---- an encoding is canonical ------------------------------------------------------------------------

  lemma ModKeeps(m: nat, u: nat, c: nat)
    requires u > 0 && c > 0
    ensures u * c > 0 && (m * u) % (u * c) == (m % c) * u && ((m % c) * u) % u == 0
  {
    var q, r := m / c, m % c;
    DivMod(m, c);
    MulAtLeast(c, u);
    NextDigit(r, 0, u, c);
    Split(q, c, r, u);
    DivUnique(m * u, u * c, q, r * u);
    DivUnique(r * u, u, r, 0);
  }

  lemma Split(q: nat, c: nat, r: nat, u: nat)
    ensures (q * c + r) * u == q * (u * c) + r * u
  {
    assert (q * c) * u == q * (u * c);
  }

  /** Filler bits and padding characters make up the missing bytes. */
  lemma FillerFacts(k: Kind, p: nat)
    requires LastBytes(k, p) > 0
    ensures FillerUnit(k, p) * Pow(Size(k), p) == Pow(256, BytesPer(k) - LastBytes(k, p))
    ensures Size(k) == FillerUnit(k, p) * (Size(k) / FillerUnit(k, p))
  {
    SmallPowers();
    UnitPower(k, p);
    hide Pow, FillerUnit, LastBytes;
    var z := BytesPer(k) - LastBytes(k, p);
    PowMul(2, BitsPer(k), p);
    PowMul(2, 8, z);
    PowAdd(2, 8 * z - BitsPer(k) * p, BitsPer(k) * p);
    UnitDivides(k, p);
  }

  lemma UnitDivides(k: Kind, p: nat)
    ensures Size(k) == FillerUnit(k, p) * (Size(k) / FillerUnit(k, p))
  {
  }

  lemma UnitPower(k: Kind, p: nat)
    requires LastBytes(k, p) > 0
    ensures var e := 8 * (BytesPer(k) - LastBytes(k, p)) - BitsPer(k) * p;
      0 <= e <= 4 && FillerUnit(k, p) == Pow(2, e)
  {
    assert Pow(2, 0) == 1 && Pow(2, 1) == 2 && Pow(2, 2) == 4 && Pow(2, 3) == 8;
    assert Pow(2, 4) == 2 * Pow(2, 3);
  }

  lemma FillerZero(k: Kind, x: seq<byte>, p: nat)
    requires 0 < |x| == LastBytes(k, p)
    ensures BlockDigits(k, x)[CharsPer(k) - 1 - p] % FillerUnit(k, p) == 0
  {
    hide From, To, Pow, BlockDigits, FillerUnit;
    var z, unit, size := BytesPer(k) - |x|, FillerUnit(k, p), Size(k);
    var m := From(x, 256);
    FillerFacts(k, p);
    DigitsShifted(k, x);
    DigitAt(m * Pow(256, z), CharsPer(k), p, size);
    hide *;
    Lowered(m, unit, Pow(size, p), Pow(256, z));
    ModKeeps(m, unit, size / unit);
  }

  lemma DigitsShifted(k: Kind, x: seq<byte>)
    requires |x| <= BytesPer(k)
    ensures BlockDigits(k, x) == To(From(x, 256) * Pow(256, BytesPer(k) - |x|), CharsPer(k), Size(k))
  {
    var z := BytesPer(k) - |x|;
    TrailingZeros(x, z, 256);
    assert x + Zeros(z) == x + seq(z, _ => 0);
    hide From, To, Pow;
  }

  lemma Lowered(m: nat, unit: nat, low: nat, all: nat)
    requires low > 0 && all == unit * low
    ensures (m * all) / low == m * unit
  {
    assert m * all == (m * unit) * low;
    DivUnique(m * all, low, m * unit, 0);
  }

  lemma BlockWhole(k: Kind, x: seq<byte>)
    requires |x| <= BytesPer(k)
    ensures Whole(k, EncodeBlock(k, x))
  {
  }

  lemma BlockCanonical(k: Kind, x: seq<byte>)
    requires 0 < |x| <= BytesPer(k)
    ensures Canonical(k, EncodeBlock(k, x))
  {
    var e, ds, u := EncodeBlock(k, x), BlockDigits(k, x), Used(k, |x|);
    var p := CharsPer(k) - u;
    assert LastBytes(k, p) == |x|;
    BlockWhole(k, x);
    hide BlockDigits, Symbol, Value, FillerUnit, Whole, LastBytes, Used, Pads, Letter;
    forall i | 0 <= i < u ensures Value(k, e[i]) == ds[i] && Letter(k, e[i]) { ValueOfSymbol(k, ds[i]); }
    PadsIs(e, p, |e|);
    FillerZero(k, x, p);
  }

  lemma PadsMeans(t: string, n: nat)
    ensures forall i :: |t| - Pads(t, n) <= i < |t| ==> t[i] == '='
  {
  }

  /** A block of letters before a canonical text. */
  lemma CanonicalJoin(k: Kind, b: string, rest: string)
    requires |b| == CharsPer(k) && rest != "" && Canonical(k, rest)
    requires forall i :: 0 <= i < |b| ==> Letter(k, b[i])
    ensures Canonical(k, b + rest)
  {
    hide Letter, FillerUnit;
    var p := Pads(rest, |rest|);
    LettersNotPads(k);
    PadsMeans(rest, |rest|);
    forall i | 0 <= i < |b + rest| ensures (b + rest)[i] == '=' <==> i >= |b + rest| - p {
      if i < |b| { assert (b + rest)[i] == b[i]; } else { assert (b + rest)[i] == rest[i - |b|]; }
    }
    PadsIs(b + rest, p, |b + rest|);
    WholeJoin(k, b, rest);
    forall i | 0 <= i < |b + rest| - p ensures Letter(k, (b + rest)[i]) {
      if i >= |b| { assert (b + rest)[i] == rest[i - |b|]; }
    }
  }

  lemma LettersNotPads(k: Kind)
    ensures !Letter(k, '=')
  {
  }

  lemma WholeJoin(k: Kind, b: string, rest: string)
    requires |b| == CharsPer(k)
    ensures Whole(k, b + rest) <==> Whole(k, rest)
  {
  }

  lemma {:induction false} EncodeCanonical(k: Kind, x: seq<byte>)
    ensures Canonical(k, Encode(k, x))
    decreases |x|
  {
    var m := BytesPer(k);
    if x == [] {
    } else if |x| <= m {
      BlockCanonical(k, x);
    } else {
      hide EncodeBlock, Canonical, Letter;
      EncodeMore(k, x);
      EncodeCanonical(k, x[m..]);
      FullLetters(k, x[..m]);
      EncodedSome(k, x[m..]);
      CanonicalJoin(k, EncodeBlock(k, x[..m]), Encode(k, x[m..]));
    }
  }

  lemma EncodedSome(k: Kind, x: seq<byte>)
    requires x != []
    ensures Encode(k, x) != ""
  {
    hide EncodeBlock;
  }

  lemma FullLetters(k: Kind, x: seq<byte>)
    requires |x| == BytesPer(k)
    ensures forall i :: 0 <= i < CharsPer(k) ==> Letter(k, EncodeBlock(k, x)[i])
  {
    var ds := BlockDigits(k, x);
    hide BlockDigits, Symbol, Value;
    forall i | 0 <= i < CharsPer(k) ensures Letter(k, EncodeBlock(k, x)[i]) { ValueOfSymbol(k, ds[i]); }
  }

  // ---- a canonical text is an encoding --------------------------------------------------------------------

  /** The number of a canonical block is a multiple of the weight of its missing bytes. */
  lemma BlockNumber(k: Kind, ds: seq<nat>, p: nat) returns (m: nat)
    requires |ds| == CharsPer(k) && DigitsOf(ds, Size(k)) && LastBytes(k, p) > 0
    requires forall i :: CharsPer(k) - p <= i < CharsPer(k) ==> ds[i] == 0
    requires ds[CharsPer(k) - p - 1] % FillerUnit(k, p) == 0
    ensures From(ds, Size(k)) == m * Pow(256, BytesPer(k) - LastBytes(k, p)) && m < Pow(256, LastBytes(k, p))
  {
    hide From, To, Pow, FillerUnit;
    var u, unit, size := CharsPer(k) - p, FillerUnit(k, p), Size(k);
    var front, d, z := ds[..u - 1], ds[u - 1], BytesPer(k) - LastBytes(k, p);
    FillerFacts(k, p);
    ValueSplit(ds, u, p, size);
    m := From(front, size) * (size / unit) + d / unit;
    DivMod(d, unit);
    Together(From(front, size), size / unit, d / unit, unit);
    Weights(m, unit, Pow(size, p), Pow(256, z));
    NumberBelow(k, ds, m, z);
  }

  lemma ValueSplit(ds: seq<nat>, u: nat, p: nat, size: nat)
    requires 0 < u && u + p == |ds| && size > 0 && forall i :: u <= i < |ds| ==> ds[i] == 0
    ensures From(ds, size) == (From(ds[..u - 1], size) * size + ds[u - 1]) * Pow(size, p)
  {
    assert ds == (ds[..u - 1] + [ds[u - 1]]) + seq(p, _ => 0);
    TrailingZeros(ds[..u - 1] + [ds[u - 1]], p, size);
    FromSnoc(ds[..u - 1], ds[u - 1], size);
    hide From, Pow;
  }

  lemma NumberBelow(k: Kind, ds: seq<nat>, m: nat, z: nat)
    requires |ds| == CharsPer(k) && DigitsOf(ds, Size(k)) && z <= BytesPer(k)
    requires From(ds, Size(k)) == m * Pow(256, z)
    ensures m < Pow(256, BytesPer(k) - z)
  {
    hide From, To, Pow;
    ToFrom(ds, Size(k));
    BlockRange(k);
    PowAdd(256, BytesPer(k) - z, z);
    if m >= Pow(256, BytesPer(k) - z) { MulLe(Pow(256, BytesPer(k) - z), m, Pow(256, z)); }
  }

  lemma Together(f: nat, c: nat, e: nat, unit: nat)
    ensures (f * c + e) * unit == f * (unit * c) + e * unit
  {
    Split(f, c, e, unit);
  }

  lemma Weights(m: nat, unit: nat, low: nat, all: nat)
    requires all == unit * low
    ensures (m * unit) * low == m * all
  {
  }

  lemma BlockPreImage(k: Kind, b: string, p: nat) returns (x: seq<byte>)
    requires |b| == CharsPer(k) && LastBytes(k, p) > 0
    requires forall i :: 0 <= i < CharsPer(k) - p ==> Letter(k, b[i])
    requires forall i :: CharsPer(k) - p <= i < CharsPer(k) ==> b[i] == '='
    requires Value(k, b[CharsPer(k) - p - 1]) % FillerUnit(k, p) == 0
    ensures |x| == LastBytes(k, p) && EncodeBlock(k, x) == b
  {
    hide From, To, Pow, FillerUnit, BlockDigits, EncodeBlock;
    var ds, n := Values(k, b), LastBytes(k, p);
    CanonicalValues(k, b, p);
    var m := BlockNumber(k, ds, p);
    x := Bytes(m, n);
    FromTo(m, n, 256);
    DigitsShifted(k, x);
    ToFrom(ds, Size(k));
    CharsBack(k, b, p, x);
  }

  /** The values of a canonical block: its letters', then zeros. */
  lemma CanonicalValues(k: Kind, b: string, p: nat)
    requires |b| == CharsPer(k) && LastBytes(k, p) > 0
    requires forall i :: 0 <= i < CharsPer(k) - p ==> Letter(k, b[i])
    requires forall i :: CharsPer(k) - p <= i < CharsPer(k) ==> b[i] == '='
    ensures DigitsOf(Values(k, b), Size(k))
    ensures forall i :: 0 <= i < CharsPer(k) - p ==> Values(k, b)[i] == Value(k, b[i])
    ensures forall i :: CharsPer(k) - p <= i < CharsPer(k) ==> Values(k, b)[i] == 0
  {
    LettersNotPads(k);
    hide Value, Symbol, LastBytes;
  }

  lemma CharsBack(k: Kind, b: string, p: nat, x: seq<byte>)
    requires |b| == CharsPer(k) && 0 < |x| == LastBytes(k, p) && BlockDigits(k, x) == Values(k, b)
    requires forall i :: 0 <= i < CharsPer(k) - p ==> Letter(k, b[i])
    requires forall i :: CharsPer(k) - p <= i < CharsPer(k) ==> b[i] == '='
    ensures EncodeBlock(k, x) == b
  {
    CanonicalValues(k, b, p);
    hide Value, Symbol, Values, BlockDigits;
  }

  lemma {:induction false} PreImage(k: Kind, t: string) returns (x: seq<byte>)
    requires Canonical(k, t)
    ensures Encode(k, x) == t
    decreases |t|
  {
    hide *;
    EmptyEncoding(k);
    if t == "" {
      x := [];
    } else {
      CanonicalParts(k, t);
      OneBlockLess(k, t);
      if |t| == CharsPer(k) {
        x := LastPreImage(k, t, Pads(t, |t|));
      } else {
        TailCanonical(k, t);
        var rest := PreImage(k, t[CharsPer(k)..]);
        x := FirstPreImage(k, t, Pads(t, |t|), rest);
      }
    }
  }

  lemma LastPreImage(k: Kind, t: string, p: nat) returns (x: seq<byte>)
    requires |t| == CharsPer(k) && LettersThenPads(k, t, p) && p < |t| && LastBytes(k, p) > 0
    requires Value(k, t[|t| - p - 1]) % FillerUnit(k, p) == 0
    ensures Encode(k, x) == t
  {
    hide Letter, FillerUnit, Value, EncodeBlock;
    x := BlockPreImage(k, t, p);
  }

  lemma FirstPreImage(k: Kind, t: string, p: nat, rest: seq<byte>) returns (x: seq<byte>)
    requires |t| - p > CharsPer(k) && LettersThenPads(k, t, p) && Encode(k, rest) == t[CharsPer(k)..]
    ensures Encode(k, x) == t
  {
    hide Letter, FillerUnit, Value, EncodeBlock, Encode, BytesPer, LastBytes;
    var c := CharsPer(k);
    EmptyEncoding(k);
    NoFiller(k, t[c - 1]);
    var first := BlockPreImage(k, t[..c], 0);
    x := first + rest;
    assert x[..BytesPer(k)] == first && x[BytesPer(k)..] == rest && t == t[..c] + t[c..];
    EncodeMore(k, x);
  }

  lemma EmptyEncoding(k: Kind)
    ensures Encode(k, []) == ""
  {
  }

  lemma NoFiller(k: Kind, c: char)
    ensures LastBytes(k, 0) == BytesPer(k) > 0 && Value(k, c) % FillerUnit(k, 0) == 0
  {
  }

  lemma TailCanonical(k: Kind, t: string)
    requires Canonical(k, t) && |t| > CharsPer(k)
    ensures Canonical(k, t[CharsPer(k)..]) && |t| - Pads(t, |t|) > CharsPer(k)
  {
    hide *;
    CanonicalParts(k, t);
    BlocksLeft(k, t);
    TailLetters(k, t, Pads(t, |t|), CharsPer(k));
    CanonicalIs(k, t[CharsPer(k)..], Pads(t, |t|));
  }

  lemma PadsBelow(k: Kind, p: nat)
    ensures LastBytes(k, p) > 0 ==> p < CharsPer(k)
  {
  }

  lemma CanonicalParts(k: Kind, t: string)
    requires Canonical(k, t) && t != ""
    ensures var p := Pads(t, |t|);
      && LettersThenPads(k, t, p) && Whole(k, t) && p < |t| && p < CharsPer(k) && LastBytes(k, p) > 0
      && Value(k, t[|t| - p - 1]) % FillerUnit(k, p) == 0
  {
    hide Letter, FillerUnit, Value, Whole, Pads, LastBytes, CharsPer;
    PadsMeans(t, |t|);
    PadsBelow(k, Pads(t, |t|));
  }

  predicate LettersThenPads(k: Kind, t: string, p: nat) {
    p <= |t| && (forall i :: 0 <= i < |t| - p ==> Letter(k, t[i])) && (forall i :: |t| - p <= i < |t| ==> t[i] == '=')
  }

  lemma TailLetters(k: Kind, t: string, p: nat, c: nat)
    requires LettersThenPads(k, t, p) && c < |t| - p
    ensures LettersThenPads(k, t[c..], p) && t[c..][|t[c..]| - p - 1] == t[|t| - p - 1]
  {
    hide Letter;
  }

  lemma CanonicalIs(k: Kind, t: string, p: nat)
    requires LettersThenPads(k, t, p) && Whole(k, t) && p < |t| && LastBytes(k, p) > 0
    requires Value(k, t[|t| - p - 1]) % FillerUnit(k, p) == 0
    ensures Canonical(k, t)
  {
    LettersNotPads(k);
    hide Letter, FillerUnit, LastBytes, Value;
    PadsIs(t, p, |t|);
  }

  lemma BlocksLeft(k: Kind, t: string)
    requires Whole(k, t) && |t| > CharsPer(k)
    ensures |t| >= 2 * CharsPer(k) && Whole(k, t[CharsPer(k)..])
  {
    OneBlockLess(k, t);
    OneBlockLess(k, t[CharsPer(k)..]);
  }

  // ---- the decoders ----------------------------------------------------------------------------------------

  /** Base64: any text whose length, white space apart, is a multiple of four is accepted. */
  lemma AcceptsIff64(s: string)
    ensures Decode64(s).Some? <==> |Strip(s)| % 4 == 0
  {
  }

  /** Base32 refuses characters outside the alphabet as well. */
  lemma AcceptsIff32(s: string)
    ensures Decode32(s).Some? <==> |Strip(s)| % 8 == 0 && AllValid(Base32, Strip(s))
  {
  }

  lemma StripTwice(s: string)
    ensures Strip(Strip(s)) == Strip(s)
  {
  }

  /** An accepted Base64 text is right if and only if it is canonical. */
  lemma RightIff64(s: string)
    ensures Decode64(s).Some? && Encode(Base64, Decode64(s).value) == Strip(s) <==> Canonical(Base64, Strip(s))
  {
    hide Canonical, Encode, Flat, Strip, Decode64;
    if Canonical(Base64, Strip(s)) {
      var x := PreImage(Base64, Strip(s));
      RoundTrip64(x, "");
      assert Encode(Base64, x) + "" == Encode(Base64, x);
      SameDecoded64(s);
    } else if Decode64(s).Some? && Encode(Base64, Decode64(s).value) == Strip(s) {
      EncodeCanonical(Base64, Decode64(s).value);
      assert false;
    }
  }

  lemma SameDecoded64(s: string)
    ensures Decode64(Strip(s)) == Decode64(s)
  {
    StripTwice(s);
  }

  /** And an accepted Base32 text. */
  lemma RightIff32(s: string)
    ensures Decode32(s).Some? && Encode(Base32, Decode32(s).value) == Strip(s) <==> Canonical(Base32, Strip(s))
  {
    hide Canonical, Encode, Flat, Strip, Decode32;
    if Canonical(Base32, Strip(s)) {
      var x := PreImage(Base32, Strip(s));
      RoundTrip32(x, "");
      assert Encode(Base32, x) + "" == Encode(Base32, x);
      SameDecoded32(s);
    } else if Decode32(s).Some? && Encode(Base32, Decode32(s).value) == Strip(s) {
      EncodeCanonical(Base32, Decode32(s).value);
      assert false;
    }
  }

  lemma SameDecoded32(s: string)
    ensures Decode32(Strip(s)) == Decode32(s)
  {
    StripTwice(s);
  }

  // ---- accepted, but not right -------------------------------------------------------------------------------

  lemma BadShifts()
    ensures Shl32(BAD, 18) == 0x0200_0000 && Shl32(BAD, 12) == 0x0808_0000 && Shl32(BAD, 6) == 0x2020_2000
  {
    QuadPowers();
  }

  /** Two 32-bit words, byte by byte. */
  lemma OrBytes(a: nat, b: nat, c: nat, d: nat, e: nat, f: nat, g: nat, h: nat)
    requires b < 256 && c < 256 && d < 256 && f < 256 && g < 256 && h < 256
    ensures Or(0x100_0000 * a + 0x1_0000 * b + 0x100 * c + d, 0x100_0000 * e + 0x1_0000 * f + 0x100 * g + h)
         == 0x100_0000 * Or(a, e) + 0x1_0000 * Or(b, f) + 0x100 * Or(c, g) + Or(d, h)
  {
    SmallPowers();
    hide Or, Pow;
    OrSplit(a, b, e, f, 8);
    OrSplit(256 * a + b, c, 256 * e + f, g, 8);
    OrSplit(256 * (256 * a + b) + c, d, 256 * (256 * e + f) + g, h, 8);
  }

  lemma SmallOrs()
    ensures Or(2, 8) == 0x0A && Or(0, 8) == 8 && Or(0, 0) == 0
    ensures Or(0x0A, 0x20) == 0x2A && Or(8, 0x20) == 0x28 && Or(0, 0x20) == 0x20
    ensures Or(0x2A, 0x80) == 0xAA && Or(0x28, 0x80) == 0xA8 && Or(0x20, 0x80) == 0xA0 && Or(0, 0x80) == 0x80
  {
    OrShifted(1, 3, 2);
    OrShifted(1, 5, 0x0A);
  }

  lemma BadQuad()
    ensures Quad(BAD, BAD, BAD, BAD) == 0xAAA8_A080
  {
    BadShifts();
    SmallOrs();
    hide Or, Shl32;
    OrBytes(2, 0, 0, 0, 8, 8, 0, 0);
    OrBytes(0x0A, 8, 0, 0, 0x20, 0x20, 0x20, 0);
    OrBytes(0x2A, 0x28, 0x20, 0, 0x80, 0x80, 0x80, 0x80);
  }

  /** Four characters outside the alphabet give three bytes. */
  lemma ForeignText()
    ensures Decode64("!!!!") == Some([0xA8, 0xA0, 0x80]) && !Canonical(Base64, "!!!!")
  {
    hide *;
    ForeignFour("!!!!");
  }

  lemma ForeignFour(t: string)
    requires |t| == 4 && forall i :: 0 <= i < 4 ==> t[i] == '!'
    ensures Decode64(t) == Some([0xA8, 0xA0, 0x80]) && !Canonical(Base64, t)
  {
    hide *;
    ForeignValue(t);
    ForeignShape(t);
    OneBlock(t);
    ThreeBytes(0xAAA8_A080);
    assert [0xA8, 0xA0, 0x80][..3] == [0xA8, 0xA0, 0x80];
  }

  lemma ForeignValue(t: string)
    requires |t| == 4 && forall i :: 0 <= i < 4 ==> t[i] == '!'
    ensures BlockValue(Base64, t) == 0xAAA8_A080
  {
    BadQuad();
    hide Quad;
  }

  lemma ForeignShape(t: string)
    requires |t| == 4 && forall i :: 0 <= i < 4 ==> t[i] == '!'
    ensures OutLen64(t) == 3 && !Space(t[3]) && !Canonical(Base64, t)
  {
    assert Pads(t, 4) == 0 && !Letter(Base64, t[0]);
  }

  /** A text of one block. */
  lemma OneBlock(t: string)
    requires |t| == 4 && !Space(t[3])
    ensures Decode64(t) == Some(Bytes(BlockValue(Base64, t), 3)[..OutLen64(t)])
  {
    hide Bytes, BlockValue, OutLen64;
    assert t[..4] == t && t[4..] == [];
    var b := Bytes(BlockValue(Base64, t), 3);
    assert Flat(Base64, t) == b + Flat(Base64, t[4..]) && b + [] == b;
  }

  /** Filler bits are not looked at: "QQ==" and "QR==" both give the byte 65. */
  lemma LooseFiller()
    ensures Decode64("QQ==") == Some([65]) && Decode64("QR==") == Some([65])
    ensures Canonical(Base64, "QQ==") && !Canonical(Base64, "QR==")
  {
    assert Value(Base64, 'Q') == 16 && Value(Base64, 'R') == 17;
    hide *;
    ByteSixtyFive("QQ==", 16);
    ByteSixtyFive("QR==", 17);
    FillerOfQ();
  }

  lemma ByteSixtyFive(t: string, v: nat)
    requires |t| == 4 && t[0] == 'Q' && Value(Base64, t[1]) == v && t[2] == '=' && t[3] == '=' && (v == 16 || v == 17)
    ensures Decode64(t) == Some([65])
  {
    QuadOfQ(t, v);
    TwoPads(t);
    hide *;
    OneBlock(t);
    FirstByte(v);
  }

  lemma TwoPads(t: string)
    requires |t| == 4 && t[2] == '=' && t[3] == '='
    ensures OutLen64(t) == 1 && !Space(t[3])
  {
  }

  lemma FirstByte(v: nat)
    requires v == 16 || v == 17
    ensures Bytes(262144 * 16 + 4096 * v, 3)[..1] == [65]
  {
    hide *;
    var n := 262144 * 16 + 4096 * v;
    ThreeBytes(n);
    assert (n / 65536) % 256 == 65;
    assert Bytes(n, 3)[0] == 65;
  }

  lemma QuadOfQ(t: string, v: nat)
    requires |t| == 4 && t[0] == 'Q' && Value(Base64, t[1]) == v < 64 && t[1] != '=' && t[2] == '=' && t[3] == '='
    ensures BlockValue(Base64, t) == 262144 * 16 + 4096 * v
  {
    QuadIsFrom(16, v, 0, 0);
    FourDigits(16, v, 0, 0);
    hide Quad, From;
  }

  lemma FillerOfQ()
    ensures Canonical(Base64, "QQ==") && !Canonical(Base64, "QR==")
  {
    var t, u := "QQ==", "QR==";
    PadsIs(t, 2, 4);
    PadsIs(u, 2, 4);
    assert Letter(Base64, t[0]) && Letter(Base64, t[1]);
    assert Value(Base64, t[1]) % 16 == 0 && Value(Base64, u[1]) % 16 == 1;
  }
}
