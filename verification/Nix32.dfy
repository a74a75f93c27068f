/** Nix store path arithmetic: base-32 rendering and hash folding. */
module Nix32 {
  import opened Bytes
  import opened Bits

  const ALPHABET := "0123456789abcdfghijklmnpqrsvwxyz"

  /** The number a byte string stands for, least significant byte first. */
  function Number(data: seq<Byte>): nat {
    if data == [] then 0 else data[0] as int + 0x100 * Number(data[1..])
  }

  /** The i-th base-32 digit of a number. */
  function Digit(n: nat, i: nat): (d: nat)
    ensures d < 32
    decreases i
  {
    if i == 0 then n % 32 else Digit(n / 32, i - 1)
  }

  /** The lowest `count` base-32 digits of a number, most significant first. */
  function Positional(n: nat, count: nat): (s: string)
    ensures |s| == count
    decreases count
  {
    if count == 0 then "" else Positional(n / 32, count - 1) + [ALPHABET[n % 32]]
  }

  function Length(data: seq<Byte>): nat {
    (|data| * 8 - 1) / 5 + 1
  }

  /** What `nix32` renders: the whole number, in as many digits as its bytes need. */
  function Render(data: seq<Byte>): (s: string)
    ensures 5 * (|s| - 1) < 8 * |data| <= 5 * |s|
  {
    Positional(Number(data), Length(data))
  }

  method Nix32(data: seq<Byte>) returns (s: string)
    ensures s == Render(data)
  {
    hide Shr, Shl, BitAnd, BitOr, Digit, Positional, Number;
    var length := (|data| * 8 - 1) / 5 + 1;
    s := "";
    for i := length downto 0
      invariant |s| == length - i
      invariant forall j :: 0 <= j < |s| ==> s[j] == ALPHABET[Digit(Number(data), length - 1 - j)]
    {
      var bit := i * 5;
      var byte, offset := bit / 8, bit % 8;
      var value := Shr(data[byte], offset);
      if byte + 1 < |data| {
        value := BitOr(value, Shl(data[byte + 1], 8 - offset));
      }
      WindowIsDigit(data, i);
      s := s + [ALPHABET[BitAnd(value, 0x1F)]];
    }
    forall j | 0 <= j < length ensures Render(data)[j] == s[j] {
      PositionalAt(Number(data), length, j);
    }
  }

  lemma {:induction false} PositionalAt(n: nat, count: nat, j: nat)
    requires j < count
    ensures Positional(n, count)[j] == ALPHABET[Digit(n, count - 1 - j)]
    decreases count
  {
    if j < count - 1 { PositionalAt(n / 32, count - 1, j); }
  }

  // The window of two bytes holds the digit.

  function ByteAt(data: seq<Byte>, i: nat): nat {
    if i < |data| then data[i] else 0
  }

  /** The digit the loop computes: two neighbouring bytes shifted, or-ed and masked. */
  function Window(data: seq<Byte>, i: nat): nat
    requires i * 5 / 8 < |data|
  {
    var byte, offset := i * 5 / 8, i * 5 % 8;
    var low := Shr(data[byte], offset);
    BitAnd(if byte + 1 < |data| then BitOr(low, Shl(data[byte + 1], 8 - offset)) else low, 0x1F)
  }

  /** The shift/or/mask window at index i is the i-th digit of the whole number. */
  lemma WindowIsDigit(data: seq<Byte>, i: nat)
    requires i * 5 / 8 < |data|
    ensures Window(data, i) == Digit(Number(data), i)
  {
    hide Window, Digit, Number, Shr;
    var byte, offset := i * 5 / 8, i * 5 % 8;
    var e0, e1 := ByteAt(data, byte), ByteAt(data, byte + 1);
    WindowIsSum(data, i);
    var z := TailNumber(data, byte);
    DigitIsShift(Number(data), i);
    ShrAdd(Number(data), 8 * byte, offset);
    NumberShifted(data, byte);
    ShrIsDiv(Number(data[byte..]), offset);
    WindowSum(e0, e1, z, offset);
  }

  lemma WindowIsSum(data: seq<Byte>, i: nat)
    requires i * 5 / 8 < |data|
    ensures var byte, offset := i * 5 / 8, i * 5 % 8;
      Window(data, i) == (ByteAt(data, byte) / Pow2(offset) + ByteAt(data, byte + 1) * Pow2(8 - offset)) % 32
  {
    hide Shr, Shl, BitOr, BitAnd;
    var byte, offset := i * 5 / 8, i * 5 % 8;
    var low, next := Shr(ByteAt(data, byte), offset), ByteAt(data, byte + 1);
    ShrIsDiv(ByteAt(data, byte), offset);
    ShlIsMul(next, 8 - offset);
    ShiftedByteBound(ByteAt(data, byte), offset);
    OrDisjoint(low, next, 8 - offset);
    Powers();
    AndLowMask(low + Shl(next, 8 - offset), 5);
  }

  lemma TailNumber(data: seq<Byte>, byte: nat) returns (z: nat)
    requires byte < |data|
    ensures Number(data[byte..]) == ByteAt(data, byte) + 0x100 * (ByteAt(data, byte + 1) + 0x100 * z)
  {
    var tail := data[byte..];
    z := if |tail| > 1 then Number(tail[1..][1..]) else 0;
  }

  lemma ShiftedByteBound(b: nat, offset: nat)
    requires b < 0x100 && offset < 8
    ensures b / Pow2(offset) < Pow2(8 - offset)
  {
    Powers();
  }

  lemma {:induction false} DigitIsShift(n: nat, i: nat)
    ensures Digit(n, i) == Shr(n, 5 * i) % 32
    decreases i
  {
    if i > 0 {
      DigitIsShift(n / 32, i - 1);
      ShrAdd(n, 5, 5 * (i - 1));
      ShrIsDiv(n, 5);
      Powers();
    }
  }

  lemma {:induction false} NumberShifted(data: seq<Byte>, byte: nat)
    requires byte <= |data|
    ensures Shr(Number(data), 8 * byte) == Number(data[byte..])
  {
    hide Shr, Pow2, Number;
    Powers();
    if byte == 0 {
      ShrIsDiv(Number(data), 0);
      assert data[0..] == data;
    } else {
      NumberShifted(data[1..], byte - 1);
      ShrAdd(Number(data), 8, 8 * (byte - 1));
      ShrIsDiv(Number(data), 8);
      NumberStep(data);
      assert data[1..][byte - 1..] == data[byte..];
    }
  }

  lemma NumberStep(data: seq<Byte>)
    requires data != []
    ensures Number(data) % 0x100 == data[0] && Number(data) / 0x100 == Number(data[1..])
  {
  }

  /** Bytes beyond the second never reach the five bits of the window. */
  lemma WindowSum(e0: nat, e1: nat, z: nat, offset: nat)
    requires offset < 8
    ensures (e0 + 0x100 * (e1 + 0x100 * z)) / Pow2(offset) % 32
         == (e0 / Pow2(offset) + e1 * Pow2(8 - offset)) % 32
  {
    hide Pow2;
    ShiftHigh(e0, e1 + 0x100 * z, offset);
    DropHigh(e0 / Pow2(offset), e1, z, Pow2(8 - offset));
  }

  lemma DropHigh(low: int, e1: int, z: int, q: int)
    ensures (low + (e1 + 0x100 * z) * q) % 32 == (low + e1 * q) % 32
  {
    MulAdd(e1, 0x100 * z, q);
    MulAssoc(0x100, z, q);
    DropMultiple(low + e1 * q, 8 * (z * q));
  }

  lemma MulAdd(x: int, y: int, q: int)
    ensures (x + y) * q == x * q + y * q
  {
  }

  lemma MulAssoc(x: int, y: int, q: int)
    ensures (x * y) * q == x * (y * q)
  {
  }

  lemma DropMultiple(x: int, w: int)
    ensures (x + 32 * w) % 32 == x % 32
  {
  }

  lemma PowersPair(offset: nat)
    requires offset < 8
    ensures Pow2(offset) * Pow2(8 - offset) == 0x100
  {
    Powers();
    match offset { case 0 => case 1 => case 2 => case 3 => case 4 => case 5 => case 6 => case 7 => }
  }

  lemma ShiftHighBy(e: nat, y: nat, p: nat, q: nat)
    requires p > 0 && p * q == 0x100
    ensures (e + 0x100 * y) / p == e / p + y * q
  {
    var a, r := e / p, e % p;
    assert 0x100 * y == y * q * p by {
      MulAssoc(y, q, p);
    }
    MulAdd(a, y * q, p);
    DivModUnique(e + 0x100 * y, p, a + y * q, r);
  }

  lemma ShiftHigh(e: nat, y: nat, offset: nat)
    requires offset < 8
    ensures (e + 0x100 * y) / Pow2(offset) == e / Pow2(offset) + y * Pow2(8 - offset)
  {
    var p, q := Pow2(offset), Pow2(8 - offset);
    PowersPair(offset);
    ShiftHighBy(e, y, p, q);
  }

  // Decoding.

  function CharValue(c: char): int {
    if c <= '9' then c as int - '0' as int
    else if c <= 'd' then c as int - 'a' as int + 10
    else if c <= 'n' then c as int - 'f' as int + 14
    else if c <= 's' then c as int - 'p' as int + 23
    else c as int - 'v' as int + 27
  }

  /** The number a string of digits stands for, most significant first. */
  function Value(s: string): int {
    if s == "" then 0 else 32 * Value(s[..|s| - 1]) + CharValue(s[|s| - 1])
  }

  function NumberBytes(n: int, len: nat): seq<Byte>
    decreases len
  {
    if len == 0 then [] else [n % 0x100] + NumberBytes(n / 0x100, len - 1)
  }

  /** A decoder that knows only the alphabet and how many bytes to expect. */
  function Decode(s: string, len: nat): seq<Byte> {
    NumberBytes(Value(s), len)
  }

  lemma AlphabetValue(d: nat)
    requires d < 32
    ensures CharValue(ALPHABET[d]) == d
  {
    if d < 16 {
      match d {
        case 0 => case 1 => case 2 => case 3 => case 4 => case 5 => case 6 => case 7 =>
        case 8 => case 9 => case 10 => case 11 => case 12 => case 13 => case 14 => case 15 =>
      }
    } else {
      match d {
        case 16 => case 17 => case 18 => case 19 => case 20 => case 21 => case 22 => case 23 =>
        case 24 => case 25 => case 26 => case 27 => case 28 => case 29 => case 30 => case 31 =>
      }
    }
  }

  lemma {:induction false} PositionalValue(n: nat, count: nat)
    requires Shr(n, 5 * count) == 0
    ensures Value(Positional(n, count)) == n
    decreases count
  {
    if count > 0 {
      ShrAdd(n, 5, 5 * (count - 1));
      ShrIsDiv(n, 5);
      Powers();
      PositionalValue(n / 32, count - 1);
      AlphabetValue(n % 32);
      var s := Positional(n, count);
      assert s[..count - 1] == Positional(n / 32, count - 1);
    }
  }

  lemma {:induction false} BytesOfNumber(data: seq<Byte>)
    ensures NumberBytes(Number(data), |data|) == data
  {
    hide Number;
    if data != [] {
      BytesOfNumber(data[1..]);
      NumberStep(data);
      assert data == [data[0]] + data[1..];
    }
  }

  /** Rendering loses nothing: the digits determine the bytes. */
  lemma DecodeInvertsRender(data: seq<Byte>)
    ensures Decode(Render(data), |data|) == data
  {
    var n, bits := Number(data), 8 * |data|;
    NumberShifted(data, |data|);
    ShrAdd(n, bits, 5 * Length(data) - bits);
    ShrIsDiv(0, 5 * Length(data) - bits);
    PositionalValue(n, Length(data));
    BytesOfNumber(data);
  }

  lemma RenderInjective(a: seq<Byte>, b: seq<Byte>)
    requires |a| == |b|
    ensures Render(a) == Render(b) <==> a == b
  {
    DecodeInvertsRender(a);
    DecodeInvertsRender(b);
  }

  // Folding a digest.

  function XorByte(a: Byte, b: Byte): Byte {
    XorBound(a, b, 8);
    Powers();
    BitXor(a, b)
  }

  /** The exclusive or of the digest bytes whose index is congruent to j. */
  function Folded(digest: seq<Byte>, size: nat, j: nat): Byte
    requires size > 0
  {
    if digest == [] then 0
    else
      var last := |digest| - 1;
      var before := Folded(digest[..last], size, j);
      if last % size == j then XorByte(before, digest[last]) else before
  }

  method CompressHash(digest: seq<Byte>, size: nat) returns (out: array<Byte>)
    requires size > 0 || digest == []
    ensures fresh(out) && out.Length == size
    ensures forall j :: 0 <= j < size ==> out[j] == Folded(digest, size, j)
  {
    out := new Byte[size](_ => 0);
    for i := 0 to |digest|
      invariant forall j :: 0 <= j < size ==> out[j] == Folded(digest[..i], size, j)
    {
      assert digest[..i + 1][..i] == digest[..i];
      out[i % size] := XorByte(out[i % size], digest[i]);
    }
    assert digest[..|digest|] == digest;
  }

  /** A digest no longer than the output is copied and padded with zeros. */
  lemma {:induction false} ShortDigestIsPadded(digest: seq<Byte>, size: nat, j: nat)
    requires |digest| <= size && j < size
    ensures Folded(digest, size, j) == ByteAt(digest, j)
  {
    if digest != [] {
      var last := |digest| - 1;
      ShortDigestIsPadded(digest[..last], size, j);
      DivModUnique(last, size, 0, last);
      XorZero(digest[last]);
    }
  }

  /** Each digest byte reaches exactly one output byte, and reaches it fully: replacing
      byte i xors the difference into output i % size and leaves the others alone. */
  lemma {:induction false} FoldedReplacing(digest: seq<Byte>, size: nat, i: nat, b: Byte, j: nat)
    requires size > 0 && i < |digest|
    ensures Folded(digest[i := b], size, j)
         == if j == i % size then XorByte(Folded(digest, size, j), XorByte(digest[i], b))
            else Folded(digest, size, j)
    decreases |digest|
  {
    hide BitXor;
    var last := |digest| - 1;
    var before := Folded(digest[..last], size, j);
    if i < last {
      assert digest[i := b][..last] == digest[..last][i := b];
      FoldedReplacing(digest[..last], size, i, b, j);
      var delta := XorByte(digest[i], b);
      XorAssociates(before, delta, digest[last]);
      XorCommutes(delta, digest[last]);
      XorAssociates(before, digest[last], delta);
    } else {
      assert digest[i := b][..last] == digest[..last];
      XorAssociates(digest[i], digest[i], b);
      XorSelf(digest[i]);
      XorZero(b);
      XorAssociates(before, digest[i], XorByte(digest[i], b));
    }
  }
}
