/** Consensus wire primitives: little-endian integers, compact sizes, length-prefixed strings and lists.
    A decoder takes the unread bytes and returns a value with what remains unread. */
module Wire {
  import opened ByteStrings

  datatype WireError = Bounds | Encoding | Invalid | Unsupported

  type Parsed<T> = Result<(T, Bytes), WireError>

  function Take(b: Bytes, n: nat): (r: Parsed<Bytes>)
    ensures r.Ok? <==> n <= |b|
    ensures r.Ok? ==> |r.value.0| == n && b == r.value.0 + r.value.1
  {
    if |b| < n then Err(Encoding) else Ok((b[..n], b[n..]))
  }

  lemma TakeExact(s: Bytes, rest: Bytes)
    ensures Take(s + rest, |s|) == Ok((s, rest))
  {
    assert (s + rest)[..|s|] == s && (s + rest)[|s|..] == rest;
  }

  function ReadLE(b: Bytes, n: nat): Parsed<nat> {
    var (s, rest) :- Take(b, n);
    Ok((FromLE(s), rest))
  }

  lemma ReadLEExact(n: nat, v: nat, rest: Bytes)
    requires v < Pow256(n)
    ensures ReadLE(LE(n, v) + rest, n) == Ok((v, rest))
  {
    TakeExact(LE(n, v), rest);
    LERoundTrip(n, v);
  }

  lemma ReadLEWritten(n: nat, b: Bytes)
    requires ReadLE(b, n).Ok?
    ensures var (v, rest) := ReadLE(b, n).value; v < Pow256(n) && b == LE(n, v) + rest
  {
    var s := Take(b, n).value.0;
    FromLERoundTrip(s);
    FromLEBound(s);
  }

  // ----- compact sizes -----

  function CompactSize(v: U64): (s: Bytes)
    ensures 1 <= |s| <= 9 && (v == 0 <==> s[0] == 0)
  {
    if v < 0xfd then [v]
    else if v <= 0xffff then [0xfd] + LE(2, v)
    else if v <= 0xffff_ffff then [0xfe] + LE(4, v)
    else [0xff] + LE(8, v)
  }

  /** Width of the number after a marker byte. */
  function Width(marker: Byte): nat {
    if marker < 0xfd then 0 else if marker == 0xfd then 2 else if marker == 0xfe then 4 else 8
  }

  /** Smallest value a marker may announce. */
  function Least(marker: Byte): nat {
    if marker < 0xfd then 0 else if marker == 0xfd then 0xfd else if marker == 0xfe then 0x1_0000 else 0x1_0000_0000
  }

  /** Reads a compact size, refusing a non-minimal form and a value above `maximum`. */
  function ReadCompactSize(b: Bytes, maximum: nat): Parsed<nat> {
    if b == [] then Err(Encoding)
    else
      var marker := b[0];
      var (value, rest) :- if marker < 0xfd then Ok((marker, b[1..])) else ReadLE(b[1..], Width(marker));
      if value < Least(marker) then Err(Encoding)
      else if value > maximum then Err(Bounds)
      else Ok((value, rest))
  }

  lemma WidthBounds(marker: Byte)
    requires marker >= 0xfd
    ensures Pow256(Width(marker))
            == (if marker == 0xfd then 0x1_0000 else if marker == 0xfe then 0x1_0000_0000 else 0x1_0000_0000_0000_0000)
  {
    Pow256Values();
  }

  lemma CompactSizeExact(v: U64, maximum: nat, rest: Bytes)
    requires v <= maximum
    ensures ReadCompactSize(CompactSize(v) + rest, maximum) == Ok((v, rest))
  {
    if v < 0xfd {
      assert (CompactSize(v) + rest)[1..] == rest;
    } else {
      Pow256Values();
      WideSizeExact(if v <= 0xffff then 0xfd else if v <= 0xffff_ffff then 0xfe else 0xff, v, maximum, rest);
    }
  }

  lemma WideSizeExact(marker: Byte, v: U64, maximum: nat, rest: Bytes)
    requires marker >= 0xfd && Least(marker) <= v < Pow256(Width(marker)) && v <= maximum
    ensures ReadCompactSize([marker] + LE(Width(marker), v) + rest, maximum) == Ok((v, rest))
  {
    var b := [marker] + LE(Width(marker), v) + rest;
    assert b[0] == marker && b[1..] == LE(Width(marker), v) + rest;
    ReadLEExact(Width(marker), v, rest);
  }

  lemma CompactSizeWritten(b: Bytes, maximum: nat)
    requires ReadCompactSize(b, maximum).Ok?
    ensures var (v, rest) := ReadCompactSize(b, maximum).value;
            v <= maximum && v < 0x1_0000_0000_0000_0000 && b == CompactSize(v) + rest
  {
    var (v, rest) := ReadCompactSize(b, maximum).value;
    assert b == [b[0]] + b[1..];
    if b[0] >= 0xfd {
      WidthBounds(b[0]);
      ReadLEWritten(Width(b[0]), b[1..]);
    }
  }

  // ----- length-prefixed strings -----

  function VarBytes(s: Bytes): Bytes
    requires |s| < 0x1_0000_0000_0000_0000
  {
    CompactSize(|s|) + s
  }

  function ReadVarBytes(b: Bytes, maximum: nat): Parsed<Bytes> {
    var (length, rest) :- ReadCompactSize(b, maximum);
    Take(rest, length)
  }

  lemma VarBytesExact(s: Bytes, maximum: nat, rest: Bytes)
    requires |s| <= maximum < 0x1_0000_0000_0000_0000
    ensures ReadVarBytes(VarBytes(s) + rest, maximum) == Ok((s, rest))
  {
    assert VarBytes(s) + rest == CompactSize(|s|) + (s + rest);
    CompactSizeExact(|s|, maximum, s + rest);
    TakeExact(s, rest);
  }

  lemma VarBytesWritten(b: Bytes, maximum: nat)
    requires ReadVarBytes(b, maximum).Ok?
    ensures var (s, rest) := ReadVarBytes(b, maximum).value;
            |s| <= maximum && |s| < 0x1_0000_0000_0000_0000 && b == VarBytes(s) + rest
  {
    CompactSizeWritten(b, maximum);
    var (length, rest) := ReadCompactSize(b, maximum).value;
    var (s, tail) := Take(rest, length).value;
    assert VarBytes(s) + tail == CompactSize(length) + rest;
  }

  // ----- lists -----

  function ReadMany<T>(read: Bytes -> Parsed<T>, n: nat, b: Bytes): Parsed<seq<T>> {
    if n == 0 then Ok(([], b))
    else
      var (xs, rest) :- ReadMany(read, n - 1, b);
      var (x, tail) :- read(rest);
      Ok((xs + [x], tail))
  }

  function WriteMany<T>(write: T -> Bytes, xs: seq<T>): Bytes {
    if xs == [] then [] else WriteMany(write, xs[..|xs| - 1]) + write(xs[|xs| - 1])
  }

  /** Reading undoes writing, for every value in `ok` and whatever follows. */
  ghost predicate Reads<T(!new)>(read: Bytes -> Parsed<T>, write: T -> Bytes, ok: T -> bool) {
    forall x: T, rest: Bytes :: ok(x) ==> read(write(x) + rest) == Ok((x, rest))
  }

  /** Writing undoes reading: whatever is accepted is the encoding of its value, followed by the rest. */
  ghost predicate Writes<T(!new)>(read: Bytes -> Parsed<T>, write: T -> Bytes, ok: T -> bool) {
    forall b: Bytes :: read(b).Ok? ==> ok(read(b).value.0) && b == write(read(b).value.0) + read(b).value.1
  }

  lemma {:induction false} ManyExact<T(!new)>(read: Bytes -> Parsed<T>, write: T -> Bytes, ok: T -> bool, xs: seq<T>,
                                              rest: Bytes)
    requires Reads(read, write, ok) && forall x :: x in xs ==> ok(x)
    ensures ReadMany(read, |xs|, WriteMany(write, xs) + rest) == Ok((xs, rest))
  {
    if xs == [] {
      assert [] + rest == rest;
    } else {
      var front, last := xs[..|xs| - 1], xs[|xs| - 1];
      ManyExact(read, write, ok, front, write(last) + rest);
      assert WriteMany(write, xs) + rest == WriteMany(write, front) + (write(last) + rest);
      assert front + [last] == xs;
    }
  }

  lemma {:induction false} ManyWritten<T(!new)>(read: Bytes -> Parsed<T>, write: T -> Bytes, ok: T -> bool, n: nat,
                                                b: Bytes)
    requires Writes(read, write, ok) && ReadMany(read, n, b).Ok?
    ensures var (xs, rest) := ReadMany(read, n, b).value;
            |xs| == n && (forall x :: x in xs ==> ok(x)) && b == WriteMany(write, xs) + rest
  {
    if n == 0 {
      assert [] + b == b;
    } else {
      ManyWritten(read, write, ok, n - 1, b);
      var (xs, rest) := ReadMany(read, n - 1, b).value;
      var (x, tail) := read(rest).value;
      assert (xs + [x])[..n - 1] == xs;
      assert WriteMany(write, xs) + (write(x) + tail) == WriteMany(write, xs + [x]) + tail;
    }
  }

  // ----- counted lists -----

  function WriteCounted<T>(write: T -> Bytes, xs: seq<T>): Bytes {
    (if |xs| < 0x1_0000_0000_0000_0000 then CompactSize(|xs|) else []) + WriteMany(write, xs)
  }

  function ReadCounted<T>(read: Bytes -> Parsed<T>, maximum: nat, b: Bytes): Parsed<seq<T>> {
    var (count, rest) :- ReadCompactSize(b, maximum);
    ReadMany(read, count, rest)
  }

  lemma CountedExact<T(!new)>(read: Bytes -> Parsed<T>, write: T -> Bytes, ok: T -> bool, maximum: nat, xs: seq<T>,
                              rest: Bytes)
    requires Reads(read, write, ok) && |xs| <= maximum < 0x1_0000_0000_0000_0000 && forall x :: x in xs ==> ok(x)
    ensures ReadCounted(read, maximum, WriteCounted(write, xs) + rest) == Ok((xs, rest))
  {
    var items := WriteMany(write, xs);
    assert WriteCounted(write, xs) + rest == CompactSize(|xs|) + (items + rest);
    CompactSizeExact(|xs|, maximum, items + rest);
    ManyExact(read, write, ok, xs, rest);
  }

  lemma CountedWritten<T(!new)>(read: Bytes -> Parsed<T>, write: T -> Bytes, ok: T -> bool, maximum: nat, b: Bytes)
    requires Writes(read, write, ok) && ReadCounted(read, maximum, b).Ok?
    ensures var (xs, rest) := ReadCounted(read, maximum, b).value;
            |xs| <= maximum && (forall x :: x in xs ==> ok(x)) && b == WriteCounted(write, xs) + rest
  {
    CompactSizeWritten(b, maximum);
    var (count, b1) := ReadCompactSize(b, maximum).value;
    ManyWritten(read, write, ok, count, b1);
    var (xs, rest) := ReadMany(read, count, b1).value;
    assert CompactSize(count) + (WriteMany(write, xs) + rest) == WriteCounted(write, xs) + rest;
  }

  /** Two lists with the same encoding are equal: lists of self-delimiting items decode uniquely, even
      without a count, as long as no item is empty. */
  lemma {:induction false} ManyInjective<T(!new)>(read: Bytes -> Parsed<T>, write: T -> Bytes, ok: T -> bool,
                                                  xs: seq<T>, ys: seq<T>)
    requires Reads(read, write, ok) && (forall x :: x in xs ==> ok(x)) && (forall y :: y in ys ==> ok(y))
    requires forall x :: ok(x) ==> write(x) != []
    requires WriteMany(write, xs) == WriteMany(write, ys)
    ensures xs == ys
  {
    var a, b := WriteMany(write, xs), WriteMany(write, ys);
    assert a + [] == a && b + [] == b;
    ManyExact(read, write, ok, xs, []);
    ManyExact(read, write, ok, ys, []);
    if |xs| < |ys| {
      ManyAtEnd(read, write, ok, ys, |xs|);
    } else if |ys| < |xs| {
      ManyAtEnd(read, write, ok, xs, |ys|);
    }
  }

  /** A proper prefix of a list leaves something unread. */
  lemma {:induction false} ManyAtEnd<T(!new)>(read: Bytes -> Parsed<T>, write: T -> Bytes, ok: T -> bool, xs: seq<T>,
                                              k: nat)
    requires Reads(read, write, ok) && (forall x :: x in xs ==> ok(x)) && (forall x :: ok(x) ==> write(x) != []) &&
             k < |xs|
    ensures ReadMany(read, k, WriteMany(write, xs) + []).Ok? &&
            ReadMany(read, k, WriteMany(write, xs) + []).value.1 != []
  {
    var rest := WriteSuffix(write, xs, k);
    ManyExact(read, write, ok, xs[..k], rest);
    assert WriteMany(write, xs) + [] == WriteMany(write, xs[..k]) + rest;
    assert xs[k] in xs;
    assert rest != [];
  }

  /** What follows the first `k` items. */
  lemma {:induction false} WriteSuffix<T(!new)>(write: T -> Bytes, xs: seq<T>, k: nat) returns (rest: Bytes)
    requires k < |xs|
    ensures WriteMany(write, xs) == WriteMany(write, xs[..k]) + rest && |rest| >= |write(xs[k])|
  {
    if k == |xs| - 1 {
      rest := write(xs[k]);
    } else {
      var front := xs[..|xs| - 1];
      var shorter := WriteSuffix(write, front, k);
      assert front[..k] == xs[..k];
      rest := shorter + write(xs[|xs| - 1]);
    }
  }
}
