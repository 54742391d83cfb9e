/**
  Which character stands where in a text of src/b64/b64.c: RFC 4648 sections 4 and 6, written out with the two
  alphabets and the numbers that groups of bytes make.
 */
module B64Text {
  import opened Common
  import opened Arith
  import opened Radix
  import opened B64

  const UPPER: string := "ABCDEFGHIJKLMNOPQRSTUVWXYZ"
  const ALPHABET64: string := UPPER + "abcdefghijklmnopqrstuvwxyz" + "0123456789+/"
  const ALPHABET32: string := UPPER + "234567"

  lemma Alphabet64Is(v: nat)
    requires v < 64
    ensures |ALPHABET64| == 64 && Symbol(Base64, v) == ALPHABET64[v]
  {
  }

  lemma Alphabet32Is(v: nat)
    requires v < 32
    ensures |ALPHABET32| == 32 && Symbol(Base32, v) == ALPHABET32[v]
  {
  }

  lemma AlphabetIs(k: Kind, v: nat)
    requires v < Size(k)
    ensures |ALPHABET64| == 64 && |ALPHABET32| == 32
    ensures Symbol(k, v) == if k == Base64 then ALPHABET64[v] else ALPHABET32[v]
  {
    hide *;
    Sizes(k);
    Alphabet64Is(if k == Base64 then v else 0);
    Alphabet32Is(if k == Base64 then 0 else v);
  }

  lemma Sizes(k: Kind)
    ensures Size(k) == if k == Base64 then 64 else 32
  {
  }

  /** The decoders take exactly the characters of their alphabet for their places in it, Base32 in both cases. */
  lemma ValueIff(k: Kind, c: char, v: nat)
    requires v < Size(k)
    ensures |ALPHABET64| == 64 && |ALPHABET32| == 32
    ensures k == Base64 ==> (Value(k, c) == v <==> c == ALPHABET64[v])
    ensures k == Base32 ==>
      (Value(k, c) == v <==> c == ALPHABET32[v] || (v < 26 && c as int == ALPHABET32[v] as int + 32))
  {
    AlphabetIs(k, v);
    ValueOfSymbol(k, v);
    SymbolOfValue(k, c, v);
    hide Value;
  }

  lemma SymbolOfValue(k: Kind, c: char, v: nat)
    requires v < Size(k)
    ensures k == Base64 ==> (Value(k, c) == v <==> c == Symbol(k, v))
    ensures k == Base32 ==>
      (Value(k, c) == v <==> c == Symbol(k, v) || (v < 26 && c as int == Symbol(k, v) as int + 32))
  {
  }

  /** Byte p of a message, zero behind its end. */
  function At(x: seq<byte>, p: nat): nat { if p < |x| then x[p] else 0 }

  /** The number of group b: three bytes for Base64, five for Base32, the first one the highest. */
  function Group(k: Kind, x: seq<byte>, b: nat): nat {
    if k == Base64 then 0x1_0000 * At(x, 3 * b) + 0x100 * At(x, 3 * b + 1) + At(x, 3 * b + 2)
    else
      0x1_0000_0000 * At(x, 5 * b) + 0x100_0000 * At(x, 5 * b + 1) + 0x1_0000 * At(x, 5 * b + 2)
      + 0x100 * At(x, 5 * b + 3) + At(x, 5 * b + 4)
  }

  lemma FromThree(a: nat, b: nat, c: nat)
    ensures From([a, b, c], 256) == 0x1_0000 * a + 0x100 * b + c
  {
    FromSnoc([], a, 256);
    FromSnoc([a], b, 256);
    FromSnoc([a, b], c, 256);
    assert From([], 256) == 0;
    hide From;
    assert [] + [a] == [a] && [a] + [b] == [a, b] && [a, b] + [c] == [a, b, c];
  }

  lemma FromFive(a: nat, b: nat, c: nat, d: nat, e: nat)
    ensures From([a, b, c, d, e], 256) == 0x1_0000_0000 * a + 0x100_0000 * b + 0x1_0000 * c + 0x100 * d + e
  {
    FromThree(a, b, c);
    FromSnoc([a, b, c], d, 256);
    FromSnoc([a, b, c, d], e, 256);
    hide From;
    assert [a, b, c] + [d] == [a, b, c, d] && [a, b, c, d] + [e] == [a, b, c, d, e];
  }

  /** The number of the first block is that of its bytes. */
  lemma FirstGroup(k: Kind, x: seq<byte>)
    requires |x| <= BytesPer(k)
    ensures From(x + Zeros(BytesPer(k) - |x|), 256) == Group(k, x, 0)
  {
    hide From;
    var y := x + Zeros(BytesPer(k) - |x|);
    if k == Base64 {
      assert y == [At(x, 0), At(x, 1), At(x, 2)];
      FromThree(At(x, 0), At(x, 1), At(x, 2));
    } else {
      assert y == [At(x, 0), At(x, 1), At(x, 2), At(x, 3), At(x, 4)];
      FromFive(At(x, 0), At(x, 1), At(x, 2), At(x, 3), At(x, 4));
    }
  }

  lemma GroupFurther(k: Kind, x: seq<byte>, b: nat)
    requires |x| >= BytesPer(k)
    ensures Group(k, x, b + 1) == Group(k, x[BytesPer(k)..], b)
    ensures Group(k, x, 0) == Group(k, x[..BytesPer(k)], 0)
  {
  }

  /** What character j of a group counts. */
  function Weight(k: Kind, j: nat): (w: nat)
    ensures w > 0
  {
    if k == Base64 then if j == 0 then 0x4_0000 else if j == 1 then 0x1000 else if j == 2 then 0x40 else 1
    else if j == 0 then 0x8_0000_0000 else if j == 1 then 0x4000_0000 else if j == 2 then 0x200_0000
    else if j == 3 then 0x10_0000 else if j == 4 then 0x8000 else if j == 5 then 0x400 else if j == 6 then 0x20
    else 1
  }

  lemma Powers64()
    ensures Pow(64, 3) == 0x4_0000 && Pow(64, 2) == 0x1000 && Pow(64, 1) == 0x40 && Pow(64, 0) == 1
  {
  }

  lemma Powers32()
    ensures Pow(32, 7) == 0x8_0000_0000 && Pow(32, 6) == 0x4000_0000 && Pow(32, 5) == 0x200_0000
    ensures Pow(32, 4) == 0x10_0000 && Pow(32, 3) == 0x8000 && Pow(32, 2) == 0x400 && Pow(32, 1) == 0x20
    ensures Pow(32, 0) == 1
  {
    assert Pow(32, 2) == 0x400;
    assert Pow(32, 4) == 0x10_0000;
    assert Pow(32, 6) == 0x4000_0000;
  }

  lemma WeightIs(k: Kind, j: nat)
    requires j < CharsPer(k)
    ensures Weight(k, j) == Pow(Size(k), CharsPer(k) - 1 - j)
  {
    Powers64();
    Powers32();
    hide Pow;
  }

  /** The value of character i. */
  function Sextet(x: seq<byte>, i: nat): (v: nat)
    ensures v < 64
  {
    Group(Base64, x, i / 4) / Weight(Base64, i % 4) % 64
  }

  function Quintet(x: seq<byte>, i: nat): (v: nat)
    ensures v < 32
  {
    Group(Base32, x, i / 8) / Weight(Base32, i % 8) % 32
  }

  function Digit(k: Kind, x: seq<byte>, i: nat): nat { if k == Base64 then Sextet(x, i) else Quintet(x, i) }

  lemma FirstDigits(k: Kind, x: seq<byte>, j: nat)
    requires |x| <= BytesPer(k) && j < CharsPer(k)
    ensures BlockDigits(k, x)[j] == Digit(k, x, j)
  {
    hide *;
    Kinds(k);
    FirstGroup(k, x);
    BlockDigitsOf(k, x);
    DigitAt(Group(k, x, 0), CharsPer(k), CharsPer(k) - 1 - j, Size(k));
    WeightIs(k, j);
    DigitInFirst(k, x, j);
  }

  lemma Kinds(k: Kind)
    ensures Size(k) > 0 && CharsPer(k) > 0 && BytesPer(k) > 0
  {
  }

  lemma BlockDigitsOf(k: Kind, x: seq<byte>)
    requires |x| <= BytesPer(k)
    ensures BlockDigits(k, x) == To(From(x + Zeros(BytesPer(k) - |x|), 256), CharsPer(k), Size(k))
  {
  }

  lemma DigitInFirst(k: Kind, x: seq<byte>, j: nat)
    requires j < CharsPer(k)
    ensures Digit(k, x, j) == Group(k, x, 0) / Weight(k, j) % Size(k)
  {
    hide Group, Weight;
  }

  lemma DigitFurther(k: Kind, x: seq<byte>, i: nat)
    requires |x| >= BytesPer(k)
    ensures i < CharsPer(k) ==> Digit(k, x, i) == Digit(k, x[..BytesPer(k)], i)
    ensures i >= CharsPer(k) ==> Digit(k, x, i) == Digit(k, x[BytesPer(k)..], i - CharsPer(k))
  {
    hide Group, Weight;
    GroupFurther(k, x, if i < CharsPer(k) then 0 else i / CharsPer(k) - 1);
  }

  lemma UsedIff(k: Kind, n: nat, j: nat)
    ensures j < Used(k, n) <==> BitsPer(k) * j < 8 * n
  {
  }

  /** Character j of a block. */
  lemma BlockAt(k: Kind, x: seq<byte>, j: nat)
    requires |x| <= BytesPer(k) && j < CharsPer(k)
    ensures BlockDigits(k, x)[j] == Digit(k, x, j) < Size(k)
    ensures EncodeBlock(k, x)[j] == if BitsPer(k) * j < 8 * |x| then Symbol(k, Digit(k, x, j)) else '='
  {
    FirstDigits(k, x, j);
    UsedIff(k, |x|, j);
    hide Digit, Used, BlockDigits, Symbol, Size;
  }

  lemma DigitBelow(k: Kind, x: seq<byte>, i: nat)
    ensures Digit(k, x, i) < Size(k)
  {
    hide Sextet, Quintet;
  }

  lemma {:induction false} TextAt(k: Kind, x: seq<byte>, i: nat)
    requires i < |Encode(k, x)|
    ensures Digit(k, x, i) < Size(k)
    ensures Encode(k, x)[i] == if BitsPer(k) * i < 8 * |x| then Symbol(k, Digit(k, x, i)) else '='
    decreases |x|
  {
    hide EncodeBlock, Digit, Symbol, Size, BlockDigits;
    var m, c := BytesPer(k), CharsPer(k);
    DigitBelow(k, x, i);
    if |x| <= m {
      EncodeShort(k, x);
      BlockAt(k, x, i);
    } else {
      EncodeMore(k, x);
      hide Encode;
      DigitFurther(k, x, i);
      if i < c { BlockAt(k, x[..m], i); } else { TextAt(k, x[m..], i - c); }
    }
  }

  /**
    Character i of a Base64 text is the one of the alphabet for the six bits it stands for, and '=' behind the last
    that any bit of the message is in.
   */
  lemma Base64At(x: seq<byte>, i: nat)
    requires i < |Encode(Base64, x)|
    ensures |ALPHABET64| == 64
    ensures Encode(Base64, x)[i] == if 6 * i < 8 * |x| then ALPHABET64[Sextet(x, i)] else '='
  {
    TextAt(Base64, x, i);
    AlphabetIs(Base64, Sextet(x, i));
    hide Encode, Sextet, Symbol;
  }

  /** And of a Base32 text, the one for its five bits. */
  lemma Base32At(x: seq<byte>, i: nat)
    requires i < |Encode(Base32, x)|
    ensures |ALPHABET32| == 32
    ensures Encode(Base32, x)[i] == if 5 * i < 8 * |x| then ALPHABET32[Quintet(x, i)] else '='
  {
    TextAt(Base32, x, i);
    AlphabetIs(Base32, Quintet(x, i));
    hide Encode, Quintet, Symbol;
  }
}
