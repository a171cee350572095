/** NIP-44 padding: the length classes, and padding and unpadding as exact inverses. */
module Nip44Padding {
  import opened Arithmetic
  import opened ByteStrings

  const MAX_PLAINTEXT := 262144
  const EXTENDED := 65536

  datatype Error = OutOfBounds | Truncated | NotCanonical | WrongLength | NotZeroFilled

  predicate InBounds(n: nat) { 0 < n <= MAX_PLAINTEXT }

  // ----- length classes -----

  ghost predicate IsPower(p: nat) {
    if p == 0 then false else p == 1 || (p % 2 == 0 && IsPower(p / 2))
  }

  /** The least power of two from `p` on that is at least `n`. */
  function PowerFrom(p: nat, n: nat): nat
    requires p > 0
    decreases n - p
  {
    if p >= n then p else PowerFrom(2 * p, n)
  }

  function NextPower(n: nat): nat { PowerFrom(1, n) }

  lemma {:induction false} PowerFromIsLeast(p: nat, n: nat)
    requires IsPower(p)
    ensures IsPower(PowerFrom(p, n)) && PowerFrom(p, n) >= n && PowerFrom(p, n) >= p
    ensures p < n ==> PowerFrom(p, n) < 2 * n && PowerFrom(p, n) % 2 == 0
    decreases n - p
  {
    if p < n {
      assert 2 * p % 2 == 0 && 2 * p / 2 == p;
      PowerFromIsLeast(2 * p, n);
    }
  }

  /** Powers of two are spaced by doubling. */
  lemma {:induction false} PowersApart(p: nat, q: nat)
    requires IsPower(p) && IsPower(q) && p < q
    ensures 2 * p <= q
  {
    if p > 1 { PowersApart(p / 2, q / 2); }
  }

  /** Any power of two at least as large as `m` and less than twice it is its next power. */
  lemma NextPowerIs(m: nat, q: nat)
    requires IsPower(q) && m <= q < 2 * m && m > 1
    ensures NextPower(m) == q
  {
    PowerFromIsLeast(1, m);
    var p := NextPower(m);
    if p < q { PowersApart(p, q); }
    if q < p { PowersApart(q, p); }
  }

  function Chunk(power: nat): nat { if power <= 256 then 32 else power / 8 }

  function PaddedLength(n: nat): nat
    requires InBounds(n)
  {
    if n <= 32 then 32
    else
      var chunk := Chunk(NextPower(n));
      assert chunk > 0;
      chunk * ((n - 1) / chunk + 1)
  }

  /** `chunk` rounds `n` up. */
  lemma RoundUp(n: nat, chunk: nat)
    requires n > 0 && chunk > 0
    ensures n <= chunk * ((n - 1) / chunk + 1) < n + chunk
  {
    DivMod(n - 1, chunk);
    Distribute(chunk, (n - 1) / chunk, 1);
  }

  lemma {:induction false} Eighths(p: nat)
    requires IsPower(p) && p >= 64
    ensures Chunk(p) > 0 && exists k: nat :: p == Chunk(p) * k
  {
    if p <= 256 {
      assert p == 64 || p == 128 || p == 256 by { SmallPower(p); }
      assert p == Chunk(p) * (p / 32);
    } else {
      assert IsPower(p / 2) && IsPower(p / 2 / 2) && IsPower(p / 2 / 2 / 2);
      assert p == Chunk(p) * 8;
    }
  }

  lemma SmallPower(p: nat)
    requires IsPower(p) && 64 <= p <= 256
    ensures p == 64 || p == 128 || p == 256
  {
    PowersAre();
    if p < 128 && p != 64 { PowersApart(64, p); }
    if 128 < p < 256 { PowersApart(128, p); }
  }

  lemma PowersAre()
    ensures IsPower(64) && IsPower(128) && IsPower(256) && IsPower(262144)
  {
  }

  lemma NextPowerRange(n: nat)
    requires 32 < n <= MAX_PLAINTEXT
    ensures var p := NextPower(n); IsPower(p) && n <= p < 2 * n && 64 <= p <= MAX_PLAINTEXT
  {
    PowerFromIsLeast(1, n);
    PowersAre();
    var p := NextPower(n);
    if p < 64 { PowersApart(p, 64); }
    if p > MAX_PLAINTEXT { PowersApart(MAX_PLAINTEXT, p); }
  }

  lemma RoundUpWithin(n: nat, chunk: nat, k: nat)
    requires n > 0 && chunk > 0 && n <= chunk * k
    ensures chunk * ((n - 1) / chunk + 1) <= chunk * k
  {
    var q := (n - 1) / chunk;
    DivMod(n - 1, chunk);
    if q + 1 > k {
      Distribute(chunk, q, k);
      if q > k { MulAtLeast(chunk, q - k); }
    } else if q + 1 < k {
      Distribute(chunk, k, q + 1);
      MulAtLeast(chunk, k - (q + 1));
    }
  }

  /** The padded length lies between the length and its next power of two. */
  lemma PaddedWithin(n: nat)
    requires 32 < n <= MAX_PLAINTEXT
    ensures n <= PaddedLength(n) <= NextPower(n)
  {
    NextPowerRange(n);
    var p := NextPower(n);
    Eighths(p);
    var k: nat :| p == Chunk(p) * k;
    RoundUp(n, Chunk(p));
    RoundUpWithin(n, Chunk(p), k);
  }

  /** Padding never shortens and stays in bounds. */
  lemma PaddedBounds(n: nat)
    requires InBounds(n)
    ensures n <= PaddedLength(n) && 32 <= PaddedLength(n) && InBounds(PaddedLength(n))
  {
    if n > 32 {
      PaddedWithin(n);
      NextPowerRange(n);
    }
  }

  /** A longer plaintext is never padded to fewer bytes. */
  lemma PaddedMonotone(a: nat, b: nat)
    requires InBounds(a) && InBounds(b) && a <= b
    ensures PaddedLength(a) <= PaddedLength(b)
  {
    PaddedBounds(b);
    if a > 32 {
      NextPowerRange(a);
      NextPowerRange(b);
      PaddedWithin(a);
      var p, q := NextPower(a), NextPower(b);
      if p == q {
        SameChunk(a, b, Chunk(p));
      } else {
        if q < p { PowersApart(q, p); }
        PowersApart(p, q);
      }
    }
  }

  lemma SameChunk(a: nat, b: nat, chunk: nat)
    requires 0 < a <= b && chunk > 0
    ensures chunk * ((a - 1) / chunk + 1) <= chunk * ((b - 1) / chunk + 1)
  {
    RoundUp(b, chunk);
    RoundUpWithin(a, chunk, (b - 1) / chunk + 1);
  }

  /** A padded length is its own padded length. */
  lemma PaddedIdempotent(n: nat)
    requires InBounds(n)
    ensures InBounds(PaddedLength(n)) && PaddedLength(PaddedLength(n)) == PaddedLength(n)
  {
    PaddedBounds(n);
    if n > 32 {
      NextPowerRange(n);
      PaddedWithin(n);
      var m, p := PaddedLength(n), NextPower(n);
      NextPowerIs(m, p);
      var chunk := Chunk(p);
      var k := (n - 1) / chunk + 1;
      RoundUp(m, chunk);
      RoundUpWithin(m, chunk, k);
    }
  }

  // ----- padding -----

  /** Two length bytes, or a zero pair and four from 65536 bytes on. */
  function Prefix(n: nat): (s: Bytes)
    ensures |s| == PrefixLength(n)
  {
    if n >= EXTENDED then [0, 0] + BE(4, n) else BE(2, n)
  }

  function PrefixLength(n: nat): nat { if n >= EXTENDED then 6 else 2 }

  function Pad(p: Bytes): Result<Bytes, Error> {
    if !InBounds(|p|) then Err(OutOfBounds)
    else
      PaddedBounds(|p|);
      Ok(Prefix(|p|) + p + Zeros(PaddedLength(|p|) - |p|))
  }

  /** The length a padded buffer announces, and the size of its prefix. */
  function ReadLength(b: Bytes): (r: Result<(nat, nat), Error>)
    ensures r.Ok? ==> r.value.1 <= |b|
  {
    if |b| < 2 then Err(Truncated)
    else if FromBE(b[..2]) != 0 then Ok((FromBE(b[..2]), 2))
    else if |b| < 6 then Err(Truncated)
    else if FromBE(b[2..6]) < EXTENDED then Err(NotCanonical)
    else Ok((FromBE(b[2..6]), 6))
  }

  function Unpad(b: Bytes): Result<Bytes, Error> {
    var (n, k) :- ReadLength(b);
    if !InBounds(n) then Err(OutOfBounds)
    else if |b| != k + PaddedLength(n) || k + n > |b| then Err(WrongLength)
    else if exists i :: k + n <= i < |b| && b[i] != 0 then Err(NotZeroFilled)
    else Ok(b[k..k + n])
  }

  lemma ShortZero(b: Bytes)
    requires |b| == 2
    ensures FromBE(b) == 0 <==> b == [0, 0]
  {
    assert b[..1][..0] == [] && b[..1] == [b[0]];
    assert FromBE(b[..1]) == b[0];
    assert FromBE(b) == FromBE(b[..1]) * 256 + b[1];
  }

  /** The announced length of a padded buffer is the length it was padded from. */
  lemma PrefixRead(n: nat, rest: Bytes)
    requires InBounds(n)
    ensures ReadLength(Prefix(n) + rest) == Ok((n, PrefixLength(n)))
  {
    var b := Prefix(n) + rest;
    Pow256Values();
    if n >= EXTENDED {
      assert b[..2] == [0, 0] && b[2..6] == BE(4, n);
      ShortZero([0, 0]);
      BERoundTrip(4, n);
    } else {
      assert b[..2] == BE(2, n);
      BERoundTrip(2, n);
    }
  }

  lemma PrefixWritten(b: Bytes)
    requires ReadLength(b).Ok?
    ensures var (n, k) := ReadLength(b).value; k == PrefixLength(n) && b[..k] == Prefix(n)
  {
    Pow256Values();
    FromBEBound(b[..2]);
    FromBERoundTrip(b[..2]);
    if FromBE(b[..2]) == 0 {
      ShortZero(b[..2]);
      FromBERoundTrip(b[2..6]);
      assert b[..6] == b[..2] + b[2..6];
    }
  }

  /** Unpadding returns the plaintext. */
  lemma PadThenUnpad(p: Bytes)
    requires InBounds(|p|)
    ensures Unpad(Pad(p).value) == Ok(p)
  {
    var k, z := PrefixLength(|p|), Zeros(PaddedLength(|p|) - |p|);
    var b := Pad(p).value;
    PaddedBounds(|p|);
    assert b == Prefix(|p|) + (p + z);
    PrefixRead(|p|, p + z);
    assert b[k..k + |p|] == p;
    forall i | k + |p| <= i < |b| ensures b[i] == 0 { assert b[i] == z[i - k - |p|]; }
  }

  /** Whatever unpads is the padding of its plaintext. */
  lemma UnpadThenPad(b: Bytes)
    requires Unpad(b).Ok?
    ensures Pad(Unpad(b).value) == Ok(b)
  {
    var (n, k) := ReadLength(b).value;
    PrefixWritten(b);
    PaddedBounds(n);
    assert b[k + n..] == Zeros(PaddedLength(n) - n);
    assert b == b[..k] + b[k..k + n] + b[k + n..];
  }

  /** The buffer is allocated zero-filled, then the prefix and the plaintext are copied over it. */
  method FillBuffer(p: Bytes) returns (buffer: array<Byte>)
    requires InBounds(|p|)
    ensures fresh(buffer) && Ok(buffer[..]) == Pad(p)
  {
    PaddedBounds(|p|);
    var prefix := Prefix(|p|);
    buffer := new Byte[|prefix| + PaddedLength(|p|)](_ => 0);
    forall i | 0 <= i < |prefix| { buffer[i] := prefix[i]; }
    forall i | 0 <= i < |p| { buffer[|prefix| + i] := p[i]; }
    assert buffer[..] == prefix + p + Zeros(PaddedLength(|p|) - |p|);
  }
}
