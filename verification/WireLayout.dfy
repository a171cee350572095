/** The wire format byte by byte: what each byte of an encoded number, string or list is, independently of the
    functions that write and read it. */
module WireLayout {
  import opened ByteStrings
  import opened Wire

  // ----- little-endian numbers -----

  ghost function At(b: Bytes, k: nat): nat
    requires k < |b|
  {
    b[k]
  }

  ghost predicate IsShort(b: Bytes, v: nat) { |b| == 2 && v == At(b, 0) + 0x100 * At(b, 1) }

  ghost predicate IsWord(b: Bytes, v: nat) {
    |b| == 4 && v == At(b, 0) + 0x100 * At(b, 1) + 0x1_0000 * At(b, 2) + 0x100_0000 * At(b, 3)
  }

  ghost predicate IsLong(b: Bytes, v: nat) {
    && |b| == 8
    && v == At(b, 0) + 0x100 * At(b, 1) + 0x1_0000 * At(b, 2) + 0x100_0000 * At(b, 3) + 0x1_0000_0000 * At(b, 4)
            + 0x100_0000_0000 * At(b, 5) + 0x1_0000_0000_0000 * At(b, 6) + 0x100_0000_0000_0000 * At(b, 7)
  }

  lemma TwoBytes(b: Bytes)
    requires |b| == 2
    ensures FromLE(b) == At(b, 0) + 0x100 * At(b, 1)
  {
    assert FromLE(b[1..]) == b[1] by { assert b[1..][1..] == []; }
  }

  lemma FourBytes(b: Bytes)
    requires |b| == 4
    ensures FromLE(b) == At(b, 0) + 0x100 * At(b, 1) + 0x1_0000 * At(b, 2) + 0x100_0000 * At(b, 3)
  {
    TwoBytes(b[2..]);
    assert b[1..][1..] == b[2..];
    assert FromLE(b[1..]) == At(b, 1) + 256 * FromLE(b[2..]);
  }

  lemma EightBytes(b: Bytes)
    requires |b| == 8
    ensures FromLE(b) == At(b, 0) + 0x100 * At(b, 1) + 0x1_0000 * At(b, 2) + 0x100_0000 * At(b, 3)
            + 0x1_0000_0000 * FromLE(b[4..])
    ensures IsLong(b, FromLE(b))
  {
    FourBytes(b[4..]);
    assert b[1..][1..] == b[2..] && b[2..][1..] == b[3..] && b[3..][1..] == b[4..];
    assert FromLE(b[3..]) == At(b, 3) + 256 * FromLE(b[4..]);
    assert FromLE(b[2..]) == At(b, 2) + 256 * FromLE(b[3..]);
    assert FromLE(b[1..]) == At(b, 1) + 256 * FromLE(b[2..]);
  }

  lemma IsLEIff(k: nat, b: Bytes, v: nat)
    requires |b| == k
    ensures FromLE(b) == v <==> v < Pow256(k) && b == LE(k, v)
  {
    FromLERoundTrip(b);
    FromLEBound(b);
    if v < Pow256(k) { LERoundTrip(k, v); }
  }

  lemma ShortIff(b: Bytes, v: nat)
    ensures IsShort(b, v) <==> v <= 0xffff && b == LE(2, v)
  {
    Pow256Values();
    if |b| == 2 {
      TwoBytes(b);
      IsLEIff(2, b, v);
    }
  }

  lemma WordIff(b: Bytes, v: nat)
    ensures IsWord(b, v) <==> v <= 0xffff_ffff && b == LE(4, v)
  {
    Pow256Values();
    if |b| == 4 {
      FourBytes(b);
      IsLEIff(4, b, v);
    }
  }

  lemma LongIff(b: Bytes, v: nat)
    ensures IsLong(b, v) <==> v <= 0xffff_ffff_ffff_ffff && b == LE(8, v)
  {
    Pow256Values();
    if |b| == 8 {
      EightBytes(b);
      IsLEIff(8, b, v);
    }
  }

  // ----- compact sizes and strings -----

  /** The minimal compact size: one byte below 253, otherwise a marker and two, four or eight bytes. */
  ghost predicate IsSize(b: Bytes, v: nat) {
    || (|b| == 1 && v <= 252 && b[0] == v)
    || (|b| == 3 && 253 <= v && b[0] == 253 && IsShort(b[1..], v))
    || (|b| == 5 && 0x1_0000 <= v && b[0] == 254 && IsWord(b[1..], v))
    || (|b| == 9 && 0x1_0000_0000 <= v && b[0] == 255 && IsLong(b[1..], v))
  }

  lemma SizeIff(b: Bytes, v: nat)
    requires v < 0x1_0000_0000_0000_0000
    ensures IsSize(b, v) <==> b == CompactSize(v)
  {
    if b != [] {
      ShortIff(b[1..], v);
      WordIff(b[1..], v);
      LongIff(b[1..], v);
      assert b == [b[0]] + b[1..];
    }
    MarkedSize(v);
  }

  lemma MarkedSize(v: nat)
    requires v < 0x1_0000_0000_0000_0000
    ensures IsSize(CompactSize(v), v)
  {
    var b := CompactSize(v);
    if v > 252 {
      ShortIff(b[1..], v);
      WordIff(b[1..], v);
      LongIff(b[1..], v);
      if v <= 0xffff { assert b[1..] == LE(2, v); }
      else if v <= 0xffff_ffff { assert b[1..] == LE(4, v); }
      else { assert b[1..] == LE(8, v); }
    }
  }

  /** A length-prefixed string: the size of its contents, then the contents. */
  ghost predicate IsString(b: Bytes, s: Bytes) {
    |s| <= |b| && IsSize(b[..|b| - |s|], |s|) && b[|b| - |s|..] == s
  }

  lemma StringIff(b: Bytes, s: Bytes)
    requires |s| < 0x1_0000_0000_0000_0000
    ensures IsString(b, s) <==> b == VarBytes(s)
  {
    if |s| <= |b| {
      var k := |b| - |s|;
      SizeIff(b[..k], |s|);
      assert b == b[..k] + b[k..];
    }
    var size := CompactSize(|s|);
    assert (size + s)[..|size|] == size && (size + s)[|size|..] == s;
  }

  // ----- lists -----

  /** The parts one after another. */
  ghost function Joined(parts: seq<Bytes>): Bytes {
    if parts == [] then [] else Joined(parts[..|parts| - 1]) + parts[|parts| - 1]
  }

  /** One part for each item, in order. */
  ghost predicate AreParts<T(!new)>(parts: seq<Bytes>, xs: seq<T>, format: (Bytes, T) -> bool) {
    |parts| == |xs| && forall k :: 0 <= k < |xs| ==> format(parts[k], xs[k])
  }

  ghost predicate IsMany<T(!new)>(b: Bytes, xs: seq<T>, format: (Bytes, T) -> bool) {
    exists parts :: AreParts(parts, xs, format) && b == Joined(parts)
  }

  /** The format of an item is what its writer writes, for every item in `ok`. */
  ghost predicate Formats<T(!new)>(write: T -> Bytes, format: (Bytes, T) -> bool, ok: T -> bool) {
    forall b: Bytes, x: T :: ok(x) ==> (format(b, x) <==> b == write(x))
  }

  lemma {:induction false} PartsJoin<T(!new)>(write: T -> Bytes, format: (Bytes, T) -> bool, ok: T -> bool,
                                              parts: seq<Bytes>, xs: seq<T>)
    requires Formats(write, format, ok) && AreParts(parts, xs, format) && forall x :: x in xs ==> ok(x)
    ensures Joined(parts) == WriteMany(write, xs)
  {
    if xs != [] {
      var n := |xs| - 1;
      assert format(parts[n], xs[n]) && ok(xs[n]);
      assert AreParts(parts[..n], xs[..n], format);
      PartsJoin(write, format, ok, parts[..n], xs[..n]);
    }
  }

  lemma ManyIff<T(!new)>(write: T -> Bytes, format: (Bytes, T) -> bool, ok: T -> bool, b: Bytes, xs: seq<T>)
    requires Formats(write, format, ok) && forall x :: x in xs ==> ok(x)
    ensures IsMany(b, xs, format) <==> b == WriteMany(write, xs)
  {
    var parts := seq(|xs|, k requires 0 <= k < |xs| => write(xs[k]));
    assert AreParts(parts, xs, format);
    PartsJoin(write, format, ok, parts, xs);
    if p :| AreParts(p, xs, format) && b == Joined(p) { PartsJoin(write, format, ok, p, xs); }
  }

  /** A counted list: the number of items, then the items. */
  ghost predicate IsCounted<T(!new)>(b: Bytes, xs: seq<T>, format: (Bytes, T) -> bool) {
    exists k :: 0 <= k <= |b| && IsSize(b[..k], |xs|) && IsMany(b[k..], xs, format)
  }

  lemma CountedIff<T(!new)>(write: T -> Bytes, format: (Bytes, T) -> bool, ok: T -> bool, b: Bytes, xs: seq<T>)
    requires Formats(write, format, ok) && |xs| < 0x1_0000_0000_0000_0000 && forall x :: x in xs ==> ok(x)
    ensures IsCounted(b, xs, format) <==> b == WriteCounted(write, xs)
  {
    var size, items := CompactSize(|xs|), WriteMany(write, xs);
    if k :| 0 <= k <= |b| && IsSize(b[..k], |xs|) && IsMany(b[k..], xs, format) {
      SizeIff(b[..k], |xs|);
      ManyIff(write, format, ok, b[k..], xs);
      assert b == b[..k] + b[k..];
    }
    if b == size + items {
      var k := |size|;
      assert b[..k] == size && b[k..] == items;
      SizeIff(b[..k], |xs|);
      ManyIff(write, format, ok, b[k..], xs);
    }
  }

  // ----- records -----

  /** A format for one field. */
  type Field = Bytes -> bool

  /** One field after another, each in its format. */
  ghost predicate IsRecord(b: Bytes, fields: seq<Field>) {
    exists parts :: FieldsHold(parts, fields) && b == Joined(parts)
  }

  ghost predicate FieldsHold(parts: seq<Bytes>, fields: seq<Field>) {
    |parts| == |fields| && forall k :: 0 <= k < |fields| ==> fields[k](parts[k])
  }

  /** Exactly one string has the format. */
  ghost predicate Describes(field: Field, w: Bytes) { forall x :: field(x) <==> x == w }

  lemma RecordIff(b: Bytes, fields: seq<Field>, ws: seq<Bytes>)
    requires |fields| == |ws| && forall k :: 0 <= k < |ws| ==> Describes(fields[k], ws[k])
    ensures IsRecord(b, fields) <==> b == Joined(ws)
  {
    assert FieldsHold(ws, fields);
    if parts :| FieldsHold(parts, fields) && b == Joined(parts) { assert parts == ws; }
  }

  lemma JoinedTwo(a: Bytes, b: Bytes)
    ensures Joined([a, b]) == a + b
  {
    assert [a, b][..1] == [a] && [a][..0] == [];
    assert Joined([a]) == a;
  }

  lemma JoinedMore(ws: seq<Bytes>, w: Bytes)
    ensures Joined(ws + [w]) == Joined(ws) + w
  {
    assert (ws + [w])[..|ws|] == ws;
  }

  lemma JoinedFour(a: Bytes, b: Bytes, c: Bytes, d: Bytes)
    ensures Joined([a, b, c]) == a + b + c && Joined([a, b, c, d]) == a + b + c + d
  {
    JoinedTwo(a, b);
    JoinedMore([a, b], c);
    JoinedMore([a, b, c], d);
    assert [a, b] + [c] == [a, b, c] && [a, b, c] + [d] == [a, b, c, d];
  }

  lemma JoinedFive(a: Bytes, b: Bytes, c: Bytes, d: Bytes, e: Bytes)
    ensures Joined([a, b, c, d, e]) == a + b + c + d + e
  {
    JoinedFour(a, b, c, d);
    JoinedMore([a, b, c, d], e);
    assert [a, b, c, d] + [e] == [a, b, c, d, e];
  }

  // Fields that occur in many records.

  ghost function Word(v: nat): Field { x => IsWord(x, v) }

  ghost function Text(s: Bytes): Field { x => IsString(x, s) }

  ghost function Raw(s: Bytes): Field { x => x == s }

  lemma WordField(v: U32)
    ensures Describes(Word(v), LE(4, v))
  {
    forall x ensures IsWord(x, v) <==> x == LE(4, v) { WordIff(x, v); }
  }

  lemma TextField(s: Bytes)
    requires |s| < 0x1_0000_0000_0000_0000
    ensures Describes(Text(s), VarBytes(s))
  {
    forall x ensures IsString(x, s) <==> x == VarBytes(s) { StringIff(x, s); }
  }

  lemma RawField(s: Bytes)
    ensures Describes(Raw(s), s)
  {
  }
}
