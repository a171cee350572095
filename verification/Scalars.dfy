/** The hand-written 256-bit scalar arithmetic on big-endian byte arrays.
    Every operation takes the group order as an argument; `CurveOrderIsOrder` shows that the
    constant compiled into the program is an admissible one. */
module Scalars {
  import opened ByteStrings
  import opened Arithmetic

  const CURVE_ORDER: Bytes := [
    0xff, 0xff, 0xff, 0xff, 0xff, 0xff, 0xff, 0xff, 0xff, 0xff, 0xff, 0xff, 0xff, 0xff, 0xff, 0xfe,
    0xba, 0xae, 0xdc, 0xe6, 0xaf, 0x48, 0xa0, 0x3b, 0xbf, 0xd2, 0x5e, 0x8c, 0xd0, 0x36, 0x41, 0x41]

  /** What the arithmetic needs of the order: 32 bytes, and more than half of 2^256. */
  predicate IsOrder(order: Bytes) {
    |order| == 32 && 0 < FromBE(order) && Pow256(|order|) < 2 * FromBE(order)
  }

  /** A scalar in range: a 32-byte string below the group order. */
  predicate IsScalar(order: Bytes, s: Bytes) {
    |s| == 32 == |order| && FromBE(s) < FromBE(order)
  }

  lemma CurveOrderIsOrder()
    ensures IsOrder(CURVE_ORDER) && FromBE(CURVE_ORDER) % 2 == 1
  {
    LeadingOnesDominate(CURVE_ORDER);
    LastByteParity(CURVE_ORDER);
    assert CURVE_ORDER[0] == 0xff && CURVE_ORDER[31] == 0x41;
  }

  lemma LeadingOnesDominate(s: Bytes)
    requires s != [] && s[0] == 0xff
    ensures 0 < FromBE(s) && Pow256(|s|) < 2 * FromBE(s)
  {
    FromBEHead(s);
  }

  lemma LastByteParity(s: Bytes)
    requires s != []
    ensures FromBE(s) % 2 == s[|s| - 1] % 2
  {
  }

  /** Rust's `>=` on byte arrays: lexicographic comparison. */
  predicate LexGe(a: Bytes, b: Bytes)
    requires |a| == |b|
  {
    a == [] || a[0] > b[0] || (a[0] == b[0] && LexGe(a[1..], b[1..]))
  }

  /** On equal-length arrays the lexicographic order is the numeric order. */
  lemma {:induction false} LexGeIsNumeric(a: Bytes, b: Bytes)
    requires |a| == |b|
    ensures LexGe(a, b) <==> FromBE(a) >= FromBE(b)
  {
    if a != [] {
      LexGeIsNumeric(a[1..], b[1..]);
      FromBEHead(a);
      FromBEHead(b);
      FromBEBound(a[1..]);
      FromBEBound(b[1..]);
      HeadDominates(a[0], b[0], Pow256(|a| - 1), FromBE(a[1..]), FromBE(b[1..]));
      HeadDominates(b[0], a[0], Pow256(|a| - 1), FromBE(b[1..]), FromBE(a[1..]));
    }
  }

  lemma HeadDominates(x: nat, y: nat, p: nat, u: nat, v: nat)
    requires u < p && v < p
    ensures x > y ==> x * p + u > y * p + v
  {
    if x > y {
      MulAtLeast(p, x - y);
      Distribute(p, x, y);
    }
  }

  /** One digit of a suffix: prepending a byte adds its weight. */
  lemma SuffixDigit(s: Bytes, i: nat)
    requires i < |s|
    ensures FromBE(s[i..]) == s[i] * Pow256(|s| - 1 - i) + FromBE(s[i + 1..])
  {
    FromBEHead(s[i..]);
    assert s[i..][1..] == s[i + 1..];
  }

  lemma DigitBorrow(d: int, m: int, r: int, b: int, b': int, p: nat)
    requires d == m - r - b + 256 * b'
    ensures d * p == m * p - r * p - b * p + b' * (256 * p)
  {
  }

  lemma DigitCarry(d: int, l: int, r: int, c: int, c': int, p: nat)
    requires d + 256 * c' == l + r + c
    ensures d * p + c' * (256 * p) == l * p + r * p + c * p
  {
  }

  /** A borrowing subtraction over one more digit. */
  lemma BorrowStep(left: Bytes, was: Bytes, right: Bytes, i: nat, b: nat, b': nat)
    requires |left| == |was| == |right| && i < |left|
    requires left[i] == was[i] - right[i] - b + 256 * b'
    requires FromBE(left[i + 1..]) == FromBE(was[i + 1..]) - FromBE(right[i + 1..]) + b * Pow256(|right| - 1 - i)
    ensures FromBE(left[i..]) == FromBE(was[i..]) - FromBE(right[i..]) + b' * Pow256(|right| - i)
  {
    SuffixDigit(left, i);
    SuffixDigit(was, i);
    SuffixDigit(right, i);
    DigitBorrow(left[i], was[i], right[i], b, b', Pow256(|right| - 1 - i));
  }

  /** A carrying addition over one more digit; `sum` has one leading byte more. */
  lemma CarryStep(sum: Bytes, left: Bytes, right: Bytes, i: nat, c: nat, c': nat)
    requires |sum| == |left| + 1 == |right| + 1 && i < |left|
    requires sum[i + 1] + 256 * c' == left[i] + right[i] + c
    requires FromBE(sum[i + 2..]) + c * Pow256(|right| - 1 - i) == FromBE(left[i + 1..]) + FromBE(right[i + 1..])
    ensures FromBE(sum[i + 1..]) + c' * Pow256(|right| - i) == FromBE(left[i..]) + FromBE(right[i..])
  {
    SuffixDigit(sum, i + 1);
    SuffixDigit(left, i);
    SuffixDigit(right, i);
    DigitCarry(sum[i + 1], left[i], right[i], c, c', Pow256(|right| - 1 - i));
  }

  lemma WholeSuffix(s: Bytes)
    ensures s[0..] == s && FromBE(s[|s|..]) == 0
  {
  }

  /** Subtracts in place with a borrow; wraps modulo 256^N when `left` is smaller. */
  method SubtractBe(left: array<Byte>, right: Bytes)
    requires left.Length == |right|
    modifies left
    ensures FromBE(left[..]) == FromBE(old(left[..])) - FromBE(right) +
                                (if FromBE(old(left[..])) >= FromBE(right) then 0 else Pow256(|right|))
  {
    ghost var was := left[..];
    var borrow := 0;
    var index := left.Length;
    WholeSuffix(was);
    WholeSuffix(right);
    while index > 0
      invariant 0 <= index <= left.Length
      invariant 0 <= borrow <= 1
      invariant left[..index] == was[..index]
      invariant FromBE(left[..][index..]) == FromBE(was[index..]) - FromBE(right[index..])
                + borrow * Pow256(|right| - index)
    {
      index := index - 1;
      ghost var before, oldBorrow := left[..], borrow;
      var minuend := left[index];
      var subtrahend := right[index] + borrow;
      if minuend >= subtrahend {
        left[index] := minuend - subtrahend;
        borrow := 0;
      } else {
        left[index] := minuend + 256 - subtrahend;
        borrow := 1;
      }
      assert left[..][index + 1..] == before[index + 1..];
      BorrowStep(left[..], was, right, index, oldBorrow, borrow);
    }
    WholeSuffix(left[..]);
    FromBEBound(left[..]);
    FromBEBound(was);
    FromBEBound(right);
  }

  /** The carry loop of the addition: one byte wider than its operands, so nothing is lost. */
  method AddWide(left: Bytes, right: Bytes) returns (sum: array<Byte>)
    requires |left| == |right|
    ensures fresh(sum) && sum.Length == |left| + 1
    ensures FromBE(sum[..]) == FromBE(left) + FromBE(right)
  {
    sum := new Byte[|left| + 1];
    var carry := 0;
    var index := |left|;
    WholeSuffix(left);
    WholeSuffix(right);
    WholeSuffix(sum[..]);
    while index > 0
      invariant 0 <= index <= |left|
      invariant 0 <= carry <= 1
      invariant FromBE(sum[..][index + 1..]) + carry * Pow256(|right| - index) == FromBE(left[index..])
                + FromBE(right[index..])
    {
      index := index - 1;
      ghost var before, oldCarry := sum[..], carry;
      var value := left[index] + right[index] + carry;
      sum[index + 1] := value % 256;
      carry := value / 256;
      assert sum[..][index + 2..] == before[index + 2..];
      CarryStep(sum[..], left, right, index, oldCarry, carry);
    }
    ghost var before := sum[..];
    sum[0] := carry;
    assert sum[..][1..] == before[1..];
    SuffixDigit(sum[..], 0);
    WholeSuffix(sum[..]);
  }

  /** Addition modulo the order: exact for every pair whose sum is below twice the order. */
  method ScalarAddMod(order: Bytes, left: Bytes, right: Bytes) returns (reduced: Bytes)
    requires IsOrder(order) && |left| == 32 && |right| == 32
    ensures |reduced| == 32
    ensures FromBE(left) + FromBE(right) < 2 * FromBE(order)
            ==> FromBE(reduced) == (FromBE(left) + FromBE(right)) % FromBE(order)
    ensures IsScalar(order, left) && IsScalar(order, right) ==> IsScalar(order, reduced)
  {
    var sum := AddWide(left, right);
    ghost var total := FromBE(sum[..]);
    WideValue(order);
    SubtractIfAtLeast(sum, [0] + order);
    reduced := sum[1..];
    assert reduced == sum[..][1..];
    TopByteClear(order, sum[..], total);
  }

  method SubtractIfAtLeast(sum: array<Byte>, wide: Bytes)
    requires sum.Length == |wide|
    modifies sum
    ensures FromBE(sum[..]) == (if FromBE(old(sum[..])) >= FromBE(wide) then FromBE(old(sum[..])) - FromBE(wide)
                                else FromBE(old(sum[..])))
  {
    LexGeIsNumeric(sum[..], wide);
    if LexGe(sum[..], wide) { SubtractBe(sum, wide); }
  }

  lemma WideValue(s: Bytes)
    ensures FromBE([0] + s) == FromBE(s)
  {
    FromBEHead([0] + s);
    assert ([0] + s)[1..] == s;
  }

  /** After the conditional subtraction the leading byte is zero, so dropping it loses nothing. */
  lemma TopByteClear(order: Bytes, sum: Bytes, total: nat)
    requires IsOrder(order) && |sum| == |order| + 1
    requires FromBE(sum) == (if total >= FromBE(order) then total - FromBE(order) else total)
    ensures total < 2 * FromBE(order)
            ==> FromBE(sum[1..]) == total % FromBE(order) && FromBE(sum[1..]) < FromBE(order)
  {
    FromBEHead(sum);
    FromBEBound(order);
    TopDigitClear(FromBE(sum), sum[0], Pow256(|order|), FromBE(sum[1..]), total, FromBE(order));
  }

  lemma TopDigitClear(v: nat, d: nat, p: nat, low: nat, total: nat, n: nat)
    requires 0 < n <= p && v == d * p + low
    requires v == if total >= n then total - n else total
    ensures total < 2 * n ==> low == total % n && low < n
  {
    if total < 2 * n {
      TopDigitZero(d, p, low);
      Reduced(total, n);
    }
  }

  lemma TopDigitZero(d: nat, p: nat, low: nat)
    requires d * p + low < p
    ensures d == 0
  {
    if d >= 1 { MulAtLeast(p, d); }
  }

  lemma Reduced(total: nat, n: nat)
    requires total < 2 * n
    ensures total % n == if total >= n then total - n else total
  {
    if total >= n { ModOnce(total, n); } else { ModSmall(total, n); }
  }

  /** Additive inverse modulo the order. */
  method ScalarNegateMod(order: Bytes, value: Bytes) returns (negated: Bytes)
    requires IsOrder(order) && IsScalar(order, value)
    ensures IsScalar(order, negated)
    ensures (FromBE(value) + FromBE(negated)) % FromBE(order) == 0
  {
    ZeroValue(value);
    if value == Zeros(32) {
      ModSmall(0, FromBE(order));
      return value;
    }
    var bytes := new Byte[32](i requires 0 <= i < 32 => order[i]);
    assert bytes[..] == order;
    SubtractBe(bytes, value);
    negated := bytes[..];
    ModOnce(FromBE(order), FromBE(order));
  }

  /** Only the all-zero string denotes zero. */
  lemma ZeroValue(s: Bytes)
    ensures FromBE(s) == 0 <==> s == Zeros(|s|)
  {
    FromBERoundTrip(s);
    FromBERoundTrip(Zeros(|s|));
    ZerosAreZero(|s|);
  }

  lemma {:induction false} ZerosAreZero(k: nat)
    ensures FromBE(Zeros(k)) == 0
  {
    if k > 0 {
      ZerosAreZero(k - 1);
      assert Zeros(k)[..k - 1] == Zeros(k - 1);
    }
  }

  method CopyOf(bytes: Bytes) returns (a: array<Byte>)
    ensures fresh(a) && a[..] == bytes
  {
    a := new Byte[|bytes|](i requires 0 <= i < |bytes| => bytes[i]);
  }

  /** Reduction of any 32-byte hash modulo the order takes one subtraction. */
  method ScalarBytesFromHash(order: Bytes, hash: Bytes) returns (scalar: Bytes)
    requires IsOrder(order) && |hash| == 32
    ensures IsScalar(order, scalar)
    ensures FromBE(scalar) == FromBE(hash) % FromBE(order)
  {
    FromBEBound(hash);
    LexGeIsNumeric(hash, order);
    if LexGe(hash, order) {
      var bytes := CopyOf(hash);
      SubtractBe(bytes, order);
      scalar := bytes[..];
      ModOnce(FromBE(hash), FromBE(order));
    } else {
      scalar := hash;
      ModSmall(FromBE(hash), FromBE(order));
    }
  }

  /** Bit `bit` of a byte. */
  function Bit(byte: Byte, bit: nat): (b: nat)
    ensures b <= 1
  {
    (byte / Pow2(bit)) % 2
  }

  /** Double-and-add multiplication modulo the order; refuses operands out of range. */
  method ScalarMultiplyPublic(order: Bytes, left: Bytes, right: Bytes) returns (r: Result<Bytes, ()>)
    requires IsOrder(order) && |left| == 32 && |right| == 32
    ensures r.Ok? <==> IsScalar(order, left) && IsScalar(order, right)
    ensures r.Ok? ==> IsScalar(order, r.value) && FromBE(r.value) == (FromBE(left) * FromBE(right)) % FromBE(order)
  {
    LexGeIsNumeric(left, order);
    LexGeIsNumeric(right, order);
    if LexGe(left, order) || LexGe(right, order) {
      return Err(());
    }
    var result := Zeros(32);
    ZeroValue(result);
    ModSmall(0, FromBE(order));
    for k := 0 to 32
      invariant IsScalar(order, result)
      invariant FromBE(result) == (FromBE(left[..k]) * FromBE(right)) % FromBE(order)
    {
      result := MultiplyByte(order, result, left[k], right, FromBE(left[..k]));
      assert left[..k + 1][..k] == left[..k];
    }
    assert left[..32] == left;
    return Ok(result);
  }

  /** The inner loop: eight doublings, each followed by a conditional addition. */
  method MultiplyByte(order: Bytes, start: Bytes, byte: Byte, right: Bytes, ghost high: nat) returns (result: Bytes)
    requires IsOrder(order) && IsScalar(order, start) && IsScalar(order, right)
    requires FromBE(start) == (high * FromBE(right)) % FromBE(order)
    ensures IsScalar(order, result)
    ensures FromBE(result) == ((high * 256 + byte) * FromBE(right)) % FromBE(order)
  {
    result := start;
    var bit := 8;
    ghost var y, n := FromBE(right), FromBE(order);
    ByteBits(high, byte);
    while bit > 0
      invariant 0 <= bit <= 8
      invariant IsScalar(order, result)
      invariant FromBE(result) == (Consumed(high, byte, bit) * y) % n
    {
      bit := bit - 1;
      BitStep(high, byte, bit, y, n);
      result := DoubleAndAdd(order, result, right, Bit(byte, bit) == 1);
    }
  }

  method DoubleAndAdd(order: Bytes, x: Bytes, right: Bytes, add: bool) returns (result: Bytes)
    requires IsOrder(order) && IsScalar(order, x) && IsScalar(order, right)
    ensures IsScalar(order, result)
    ensures var n, twice := FromBE(order), (FromBE(x) + FromBE(x)) % FromBE(order);
            FromBE(result) == if add then (twice + FromBE(right)) % n else twice
  {
    result := ScalarAddMod(order, x, x);
    if add { result := ScalarAddMod(order, result, right); }
  }

  /** The multiplier read so far when `bit` bits of the current byte are still to come. */
  function Consumed(high: nat, byte: Byte, bit: nat): nat
    requires bit <= 8
  {
    high * Pow2(8 - bit) + byte / Pow2(bit)
  }

  /** One doubling and conditional addition read one more bit of the multiplier. */
  lemma BitStep(high: nat, byte: Byte, bit: nat, y: nat, n: nat)
    requires bit < 8 && y < n
    ensures var r := (Consumed(high, byte, bit + 1) * y) % n;
            (Consumed(high, byte, bit) * y) % n == if Bit(byte, bit) == 1 then ((r + r) % n + y) % n else (r + r) % n
  {
    var x := Consumed(high, byte, bit + 1);
    PrefixStep(high, byte, bit);
    DoubleStep(x, y, n);
    AddStep(2 * x, y, n);
  }

  lemma ByteBits(high: nat, byte: Byte)
    ensures Consumed(high, byte, 8) == high && Consumed(high, byte, 0) == high * 256 + byte
  {
    assert Pow2(4) == 16;
  }

  lemma PrefixStep(high: nat, byte: Byte, bit: nat)
    requires bit < 8
    ensures Consumed(high, byte, bit) == 2 * Consumed(high, byte, bit + 1) + Bit(byte, bit)
  {
    DivDiv(byte, Pow2(bit));
    assert Pow2(8 - bit) == 2 * Pow2(7 - bit);
    assert high * (2 * Pow2(7 - bit)) == 2 * (high * Pow2(7 - bit));
  }

  lemma DivDiv(x: nat, p: nat)
    requires p > 0
    ensures x / p / 2 == x / (2 * p)
  {
    DivMod(x, p);
    var q := x / p;
    Distribute(p, 2 * (q / 2), q % 2);
    assert p * (2 * (q / 2)) == (2 * p) * (q / 2);
    assert q % 2 == 0 || q % 2 == 1;
    QuotientUnique(x, 2 * p, q / 2, p * (q % 2) + x % p);
  }

  lemma DoubleStep(x: nat, y: nat, n: nat)
    requires n > 0
    ensures ((x * y) % n + (x * y) % n) % n == (2 * x * y) % n
  {
    ModAdd(x * y, x * y, n);
    assert 2 * x * y == x * y + x * y;
  }

  lemma AddStep(x: nat, y: nat, n: nat)
    requires y < n
    ensures ((x * y) % n + y) % n == ((x + 1) * y) % n
  {
    ModAdd(x * y, y, n);
    assert (x + 1) * y == x * y + y;
    ModSmall(y, n);
  }
}
