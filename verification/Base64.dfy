/** The last step of a base64 string: shrinking it to a length, or drawing one of a minimum length. */
module Base64 {

  import opened Wrappers

  type Byte = x: int | 0 <= x < 256

  /** One character of the encoding: an index into the alphabet of section 4 of RFC 4648, or the padding sign. */
  datatype Symbol = Digit(index: int) | Pad

  function Quad(a: Byte, b: Byte, c: Byte): seq<Symbol> {
    [Digit(a / 4), Digit(a % 4 * 16 + b / 16), Digit(b % 16 * 4 + c / 64), Digit(c % 64)]
  }

  /** Three bytes and four characters are one 24-bit number, read in groups of eight bits and of six. */
  lemma QuadIsNumber(a: Byte, b: Byte, c: Byte)
    ensures var q := Quad(a, b, c);
            && (forall i :: 0 <= i < 4 ==> q[i].Digit? && 0 <= q[i].index < 64)
            && q[0].index * 0x40000 + q[1].index * 0x1000 + q[2].index * 0x40 + q[3].index == a * 0x10000 + b * 0x100 + c
  {
    assert a == a / 4 * 4 + a % 4 && b == b / 16 * 16 + b % 16 && c == c / 64 * 64 + c % 64;
  }

  /** The encoding of section 4 of RFC 4648. */
  function Encode(bytes: seq<Byte>): seq<Symbol> {
    match |bytes|
    case 0 => []
    case 1 => Quad(bytes[0], 0, 0)[..2] + [Pad, Pad]
    case 2 => Quad(bytes[0], bytes[1], 0)[..3] + [Pad]
    case _ => Quad(bytes[0], bytes[1], bytes[2]) + Encode(bytes[3..])
  }

  function EncodedLength(n: nat): nat {
    4 * ((n + 2) / 3)
  }

  /** Every group of three bytes, the last one possibly short, takes four characters. */
  lemma {:induction false} EncodeLength(bytes: seq<Byte>)
    ensures |Encode(bytes)| == EncodedLength(|bytes|)
  {
    if |bytes| >= 3 {
      EncodeLength(bytes[3..]);
    }
  }

  function Value(s: Symbol): nat {
    match s
    case Digit(i) => if i < 0 then 0 else i
    case Pad => 0
  }

  /** The bytes of one group of four characters; each padding sign stands for one byte less. */
  function Triple(a: Symbol, b: Symbol, c: Symbol, d: Symbol): seq<int> {
    var bytes := [Value(a) * 4 + Value(b) / 16, Value(b) % 16 * 16 + Value(c) / 4, Value(c) % 4 * 64 + Value(d)];
    if c.Pad? then bytes[..1] else if d.Pad? then bytes[..2] else bytes
  }

  function Decode(symbols: seq<Symbol>): seq<int> {
    if |symbols| < 4 then [] else Triple(symbols[0], symbols[1], symbols[2], symbols[3]) + Decode(symbols[4..])
  }

  lemma TripleRestores(a: Byte, b: Byte, c: Byte)
    ensures var q := Quad(a, b, c); Triple(q[0], q[1], q[2], q[3]) == [a, b, c]
    ensures var q := Quad(a, b, 0); Triple(q[0], q[1], q[2], Pad) == [a, b]
    ensures var q := Quad(a, 0, 0); Triple(q[0], q[1], Pad, Pad) == [a]
  {
    assert a / 4 * 4 + a % 4 == a && (a % 4 * 16 + b / 16) / 16 == a % 4 && (a % 4 * 16 + b / 16) % 16 == b / 16;
    assert (b % 16 * 4 + c / 64) / 4 == b % 16 && (b % 16 * 4 + c / 64) % 4 == c / 64;
  }

  /** Decoding takes one group at a time. */
  lemma DecodeGroup(group: seq<Symbol>, rest: seq<Symbol>)
    requires |group| == 4
    ensures Decode(group + rest) == Triple(group[0], group[1], group[2], group[3]) + Decode(rest)
  {
    assert (group + rest)[4..] == rest;
  }

  /** Decoding restores the bytes, so no two inputs have the same encoding. */
  lemma {:induction false} DecodeRestores(bytes: seq<Byte>)
    ensures Decode(Encode(bytes)) == bytes
  {
    if |bytes| >= 3 {
      var a, b, c := bytes[0], bytes[1], bytes[2];
      DecodeRestores(bytes[3..]);
      DecodeGroup(Quad(a, b, c), Encode(bytes[3..]));
      TripleRestores(a, b, c);
      assert bytes == [a, b, c] + bytes[3..];
    } else if |bytes| == 2 {
      TripleRestores(bytes[0], bytes[1], 0);
    } else if |bytes| == 1 {
      TripleRestores(bytes[0], 0, 0);
    }
  }

  /** Conversion of a number to an integer, which drops the fraction. */
  function Truncate(x: real): int {
    if x < 0.0 then -(-x).Floor else x.Floor
  }

  /** The share of an input that a turn of the loop keeps. */
  function Share(n: nat, encoded: nat, length: int): real
    requires encoded > 0
  {
    n as real * (length as real / encoded as real * 0.99)
  }

  /** The length that a turn of the loop cuts the input to. */
  function NewLength(n: nat, encoded: nat, length: int): int
    requires encoded > 0
  {
    Truncate(Share(n, encoded, length))
  }

  /** A cut makes the input shorter, and leaves something of it whenever the length holds one group. */
  lemma CutShrinks(n: nat, length: int)
    requires n > 0 && EncodedLength(n) > length
    ensures NewLength(n, EncodedLength(n), length) < n
    ensures length <= 0 ==> NewLength(n, EncodedLength(n), length) <= 0
    ensures length >= 4 ==> NewLength(n, EncodedLength(n), length) > 0
  {
    var e := EncodedLength(n);
    if length <= 0 {
      ShareSign(n, e, length);
    } else {
      ShareBelow(n, e, length);
      if length >= 4 {
        HalfStays(n, e, length);
      }
    }
    TruncateBelow(Share(n, e, length), n);
  }

  lemma TruncateBelow(x: real, n: nat)
    requires n > 0
    ensures x < n as real ==> Truncate(x) < n
    ensures x <= 0.0 ==> Truncate(x) <= 0
    ensures x >= 1.0 ==> Truncate(x) > 0
  {
  }

  lemma ShareSign(n: nat, e: nat, length: int)
    requires e > 0 && length <= 0
    ensures Share(n, e, length) <= 0.0
  {
    QuotientBounds(length, e);
    ProductSign(n, length as real / e as real * 0.99);
  }

  lemma ShareBelow(n: nat, e: nat, length: int)
    requires n > 0 && 0 < length < e
    ensures Share(n, e, length) < n as real
  {
    QuotientBounds(length, e);
    ProductBelow(n, length as real / e as real * 0.99);
  }

  lemma QuotientBounds(length: int, e: nat)
    requires e > 0 && length < e
    ensures length as real / e as real < 1.0 && e as real * (length as real / e as real) == length as real
    ensures length > 0 ==> length as real / e as real > 0.0
    ensures length <= 0 ==> length as real / e as real <= 0.0
  {
    var q := length as real / e as real;
    assert q * e as real == length as real;
  }

  lemma ProductSign(n: nat, ratio: real)
    requires ratio <= 0.0
    ensures n as real * ratio <= 0.0
  {
  }

  lemma ProductBelow(n: nat, ratio: real)
    requires n > 0 && 0.0 < ratio < 1.0
    ensures 0.0 < n as real * ratio < n as real
  {
    assert n as real * (1.0 - ratio) > 0.0;
  }

  /** An input that does not fit in a length of at least four has at least two bytes' room in the ratio. */
  lemma HalfStays(n: nat, e: nat, length: int)
    requires 4 <= length < e == EncodedLength(n)
    ensures Share(n, e, length) >= 1.0
  {
    var q := length as real / e as real;
    QuotientBounds(length, e);
    HalfOfQuotient(n as real, e as real, q);
  }

  lemma HalfOfQuotient(n: real, e: real, q: real)
    requires n * 2.0 >= e && q > 0.0 && e * q >= 4.0
    ensures n * (q * 0.99) >= 1.0
  {
    MultiplyBoth(n * 2.0, e, q);
    Rearrange(n, q);
  }

  lemma Rearrange(n: real, q: real)
    ensures n * 2.0 * q == 2.0 * (n * q) && n * (q * 0.99) == (n * q) * 0.99
  {
  }

  lemma MultiplyBoth(a: real, b: real, q: real)
    requires a >= b && q > 0.0
    ensures a * q >= b * q
  {
    assert (a - b) * q >= 0.0;
  }

  /** Exactly: the greatest number of bytes within 99 hundredths of the share that fits. */
  lemma NewLengthIff(n: nat, encoded: nat, length: nat, k: nat)
    requires encoded > 0
    ensures NewLength(n, encoded, length) == k <==> k * (100 * encoded) <= 99 * n * length < (k + 1) * (100 * encoded)
  {
    ShareIs(n, encoded, length);
    FloorOfQuotient(Share(n, encoded, length), 99 * n * length, 100 * encoded, k);
  }

  lemma FloorOfQuotient(x: real, p: nat, q: nat, k: nat)
    requires q > 0 && x * q as real == p as real
    ensures x.Floor == k <==> k * q <= p < (k + 1) * q
  {
    NotAbove(x, p, q, k);
    NotAbove(x, p, q, k + 1);
    assert x.Floor == k <==> k as real <= x && !((k + 1) as real <= x);
  }

  lemma NotAbove(x: real, p: nat, q: nat, k: nat)
    requires q > 0 && x * q as real == p as real
    ensures k as real <= x <==> k * q <= p
  {
    var d, product := q as real, k * q;
    ProductAsReal(k, q);
    assert k as real * d == product as real;
    Scaled(x, d, k as real);
    assert k as real <= x <==> product as real <= p as real;
  }

  lemma ProductAsReal(a: int, b: int)
    ensures (a as real) * (b as real) == (a * b) as real
  {
  }

  lemma ShareIs(n: nat, encoded: nat, length: nat)
    requires encoded > 0
    ensures Share(n, encoded, length) >= 0.0
    ensures Share(n, encoded, length) * (100 * encoded) as real == (99 * n * length) as real
  {
    var q, e := length as real / encoded as real, encoded as real;
    assert q * e == length as real && q >= 0.0;
    Regroup(n as real, q, e);
    assert n as real * (length as real) == (n * length) as real;
  }

  lemma Regroup(n: real, q: real, e: real)
    requires n >= 0.0 && q >= 0.0
    ensures n * (q * 0.99) * (100.0 * e) == 99.0 * (n * (q * e))
    ensures n * (q * 0.99) >= 0.0
  {
    assert n * (q * 0.99) == (n * q) * 0.99;
    assert (n * q) * e == n * (q * e);
  }

  lemma Scaled(x: real, d: real, k: real)
    requires d > 0.0
    ensures k <= x <==> k * d <= x * d
    ensures x < k <==> x * d < k * d
  {
    assert (x - k) * d == x * d - k * d;
    if k <= x { assert (x - k) * d >= 0.0; } else { assert (k - x) * d > 0.0; }
  }

  /** The number of bytes that the loop is left with. */
  function CutDown(n: nat, length: int): (k: nat)
    ensures k <= n
    decreases n
  {
    if n == 0 || EncodedLength(n) <= length then n
    else
      CutShrinks(n, length);
      var k := NewLength(n, EncodedLength(n), length);
      if k <= 0 then 0 else CutDown(k, length)
  }

  datatype Outcome = Encoded(symbols: seq<Symbol>) | DividedByZero

  ghost predicate IsPrefixEncoding(symbols: seq<Symbol>, input: seq<Byte>) {
    exists k :: 0 <= k <= |input| && symbols == Encode(input[..k])
  }

  /**
   The shrink loop. It ends for every input and every length. With a length of at least zero the result fits,
   encodes a prefix of the input, is the whole input when that fits, and is empty exactly when the input is
   or the length does not hold one group. A negative length gives the empty string, or divides by zero when
   the input is empty.
   */
  method Shrink(input: seq<Byte>, length: int) returns (r: Outcome)
    ensures r.DividedByZero? <==> input == [] && length < 0
    ensures r.Encoded? ==> IsPrefixEncoding(r.symbols, input)
    ensures r.Encoded? && length >= 0 ==> |r.symbols| <= length
    ensures r.Encoded? ==> (r.symbols == [] <==> input == [] || length < 4)
    ensures r.Encoded? && |Encode(input)| <= length ==> r.symbols == Encode(input)
    ensures r.Encoded? ==> r.symbols == Encode(input[..CutDown(|input|, length)])
  {
    var bytes := input;
    var encoded := Encode(bytes);
    EncodeLength(bytes);
    assert input[..|input|] == input;
    while |encoded| > length
      invariant |bytes| <= |input| && bytes == input[..|bytes|]
      invariant encoded == Encode(bytes) && |encoded| == EncodedLength(|bytes|)
      invariant bytes == [] <==> input == []
      invariant bytes == input || |Encode(input)| > length
      invariant CutDown(|input|, length) == CutDown(|bytes|, length)
      decreases |bytes|
    {
      if |encoded| == 0 {
        return DividedByZero;
      }
      CutShrinks(|bytes|, length);
      var newLength := NewLength(|bytes|, |encoded|, length);
      if newLength <= 0 {
        assert Encode(input[..0]) == [];
        return Encoded([]);
      }
      bytes := bytes[..newLength];
      encoded := Encode(bytes);
      EncodeLength(bytes);
    }
    return Encoded(encoded);
  }

  function CeilQuarter(n: int): int {
    -((-n) / 4)
  }

  /** The least multiple of four that is neither negative nor below a minimum. */
  ghost predicate IsLeastMultiple(n: int, minimum: int) {
    && n % 4 == 0 && n >= 0 && n >= minimum
    && forall m :: 0 <= m < n && m >= minimum ==> m % 4 != 0
  }

  /** The number of bytes drawn for a minimum length; a negative number draws none. */
  function RawLength(minimum: int): nat {
    var raw := CeilQuarter(minimum) * 3;
    if raw < 0 then 0 else raw
  }

  lemma RawLengthIsLeast(minimum: int)
    ensures IsLeastMultiple(EncodedLength(RawLength(minimum)), minimum)
    ensures RawLength(minimum) % 3 == 0
  {
    var groups := if CeilQuarter(minimum) < 0 then 0 else CeilQuarter(minimum);
    assert RawLength(minimum) == 3 * groups;
    assert EncodedLength(3 * groups) == 4 * groups;
  }

  /** get_base64_with_min_length; `draw` supplies the random bytes. */
  method WithMinLength(minimum: int, draw: nat -> Byte) returns (symbols: seq<Symbol>)
    ensures IsLeastMultiple(|symbols|, minimum)
    ensures Pad !in symbols
    ensures var bytes := Decode(symbols);
            |bytes| == RawLength(minimum) && forall i :: 0 <= i < |bytes| ==> bytes[i] == draw(i)
  {
    var bytes := seq(RawLength(minimum), i requires i >= 0 => draw(i));
    symbols := Encode(bytes);
    EncodeLength(bytes);
    RawLengthIsLeast(minimum);
    WholeGroupsUnpadded(bytes);
    DecodeRestores(bytes);
  }

  lemma {:induction false} WholeGroupsUnpadded(bytes: seq<Byte>)
    requires |bytes| % 3 == 0
    ensures Pad !in Encode(bytes)
  {
    if bytes != [] {
      WholeGroupsUnpadded(bytes[3..]);
    }
  }

  /** The choice between the two forms: a minimum length overrides the length. */
  method Finish(input: seq<Byte>, minimum: Option<int>, length: int, draw: nat -> Byte) returns (r: Outcome)
    ensures minimum.Some? ==> r.Encoded? && IsLeastMultiple(|r.symbols|, minimum.value)
    ensures minimum.None? && r.Encoded? && length >= 0 ==> |r.symbols| <= length && IsPrefixEncoding(r.symbols, input)
    ensures minimum.None? && r.Encoded? ==> r.symbols == Encode(input[..CutDown(|input|, length)])
    ensures r.DividedByZero? <==> minimum.None? && input == [] && length < 0
  {
    if minimum.Some? {
      var symbols := WithMinLength(minimum.value, draw);
      r := Encoded(symbols);
    } else {
      r := Shrink(input, length);
    }
  }
}
