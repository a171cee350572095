/** NIP-44 version 2 payloads byte by byte: length classes, padding, key stream, frame and text. */
module Nip44Layout {
  import opened Arithmetic
  import opened ByteStrings
  import opened Base64Layout
  import opened Nip44Padding
  import opened Nip44
  import Base64

  // ----- exclusive or -----

  ghost function BitAt(v: nat, k: nat): nat { if k == 0 then v % 2 else BitAt(v / 2, k - 1) }

  /** Every bit of the exclusive or is set exactly when one of the two bits is. */
  lemma {:induction false} XorBits(a: nat, b: nat, k: nat)
    ensures BitAt(BitXor(a, b), k) == 1 <==> BitAt(a, k) != BitAt(b, k)
    decreases k
  {
    BitXorStep(a, b);
    if k > 0 { XorBits(a / 2, b / 2, k - 1); }
  }

  // ----- padding -----

  /** Up to 32 bytes pad to 32; beyond, to a multiple of 32 or of an eighth of the next power of two. */
  ghost predicate IsPaddedLength(n: nat, length: nat) {
    if n <= 32 then length == 32 else exists q :: IsRounded(n, length, q)
  }

  ghost predicate IsRounded(n: nat, length: nat, q: nat) {
    && IsPower(q) && n <= q < 2 * n
    && var chunk := if q <= 256 then 32 else q / 8; length % chunk == 0 && n <= length < n + chunk
  }

  lemma MultipleUnique(chunk: nat, n: nat, a: nat, b: nat)
    requires chunk > 0 && a % chunk == 0 && b % chunk == 0 && n <= a < n + chunk && n <= b < n + chunk
    ensures a == b
  {
    DivMod(a, chunk);
    DivMod(b, chunk);
    var x, y := a / chunk, b / chunk;
    if x < y {
      Distribute(chunk, y, x);
      MulAtLeast(chunk, y - x);
    } else if y < x {
      Distribute(chunk, x, y);
      MulAtLeast(chunk, x - y);
    }
  }

  lemma PaddedLengthIff(n: nat, length: nat)
    requires InBounds(n)
    ensures IsPaddedLength(n, length) <==> length == PaddedLength(n)
  {
    if n > 32 {
      NextPowerRange(n);
      var chunk := Chunk(NextPower(n));
      RoundUp(n, chunk);
      Multiple(chunk, (n - 1) / chunk + 1);
      assert IsRounded(n, PaddedLength(n), NextPower(n));
      if q :| IsRounded(n, length, q) {
        NextPowerIs(n, q);
        MultipleUnique(chunk, n, length, PaddedLength(n));
      }
    }
  }

  lemma Multiple(chunk: nat, k: nat)
    requires chunk > 0
    ensures chunk * k % chunk == 0
  {
    QuotientUnique(chunk * k, chunk, k, 0);
  }

  ghost function At(b: Bytes, i: nat): nat
    requires i < |b|
  {
    b[i]
  }

  /** The length in two bytes, or two zero bytes and four, most significant first. */
  ghost predicate IsLength(b: Bytes, n: nat) {
    if n < 65_536 then |b| == 2 && n == 256 * At(b, 0) + At(b, 1)
    else
      && |b| == 6 && b[0] == 0 && b[1] == 0
      && n == 0x100_0000 * At(b, 2) + 0x1_0000 * At(b, 3) + 0x100 * At(b, 4) + At(b, 5)
  }

  /** The length, the text and zeros up to the padded length. */
  ghost predicate IsPadded(b: Bytes, p: Bytes) {
    var k := if |p| < 65_536 then 2 else 6;
    && k + |p| <= |b| && IsLength(b[..k], |p|) && b[k..k + |p|] == p && IsPaddedLength(|p|, |b| - k)
    && forall i :: k + |p| <= i < |b| ==> b[i] == 0
  }

  lemma BigEndianTwo(b: Bytes)
    requires |b| == 2
    ensures FromBE(b) == 256 * At(b, 0) + At(b, 1)
  {
    assert b[..1][..0] == [] && b[..1][0] == b[0];
    assert FromBE(b[..1]) == b[0];
  }

  lemma BigEndianFour(b: Bytes)
    requires |b| == 4
    ensures FromBE(b) == 0x100_0000 * At(b, 0) + 0x1_0000 * At(b, 1) + 0x100 * At(b, 2) + At(b, 3)
  {
    BigEndianTwo(b[..2]);
    assert b[..3][..2] == b[..2];
    assert FromBE(b[..3]) == FromBE(b[..2]) * 256 + b[2];
  }

  lemma LengthIff(b: Bytes, n: nat)
    requires InBounds(n)
    ensures IsLength(b, n) <==> b == Prefix(n)
  {
    Pow256Values();
    if n < 65_536 {
      NumberIff(2, b, n);
      if |b| == 2 { BigEndianTwo(b); }
    } else if |b| == 6 {
      NumberIff(4, b[2..], n);
      BigEndianFour(b[2..]);
      assert b == b[..2] + b[2..] && b[..2] == [b[0], b[1]];
    }
  }

  lemma NumberIff(k: nat, b: Bytes, n: nat)
    requires n < Pow256(k)
    ensures b == BE(k, n) <==> |b| == k && FromBE(b) == n
  {
    BERoundTrip(k, n);
    FromBERoundTrip(b);
  }

  lemma PaddedIff(b: Bytes, p: Bytes)
    requires InBounds(|p|)
    ensures IsPadded(b, p) <==> Pad(p) == Ok(b)
  {
    var k := PrefixLength(|p|);
    PaddedBounds(|p|);
    var padded := Prefix(|p|) + p + Zeros(PaddedLength(|p|) - |p|);
    assert padded[..k] == Prefix(|p|) && padded[k..k + |p|] == p;
    LengthIff(Prefix(|p|), |p|);
    if k + |p| <= |b| {
      LengthIff(b[..k], |p|);
      PaddedLengthIff(|p|, |b| - k);
      if IsPadded(b, p) { FilledOut(b, k, p); }
    }
  }

  lemma FilledOut(b: Bytes, k: nat, p: Bytes)
    requires k + |p| <= |b| && b[k..k + |p|] == p && forall i :: k + |p| <= i < |b| ==> b[i] == 0
    ensures b == b[..k] + p + Zeros(|b| - k - |p|)
  {
    var tail := b[k + |p|..];
    assert tail == Zeros(|b| - k - |p|);
    assert b == b[..k] + b[k..k + |p|] + tail;
  }

  // ----- frames -----

  /** Version, nonce, every padded byte under its key stream byte, and the code over nonce and ciphertext. */
  ghost predicate IsFrame(env: Env, f: Bytes, key: Bytes, nonce: Bytes, padded: Bytes)
    requires env.Valid()
  {
    var keys, n := env.keys(key, nonce), |padded|;
    && |f| == 65 + n && f[0] == 2 && f[1..33] == nonce
    && (forall i :: 0 <= i < n ==> f[33 + i] == ByteXor(padded[i], StreamByte(env, keys, i)))
    && f[33 + n..] == env.mac(keys[44..76], f[1..33 + n])
  }

  /** Byte `i % 64` of the cipher block `i / 64`, under the first 32 and the next 12 bytes of the message keys. */
  ghost function StreamByte(env: Env, keys: Bytes, i: nat): Byte
    requires env.Valid() && |keys| == 76
  {
    env.block(keys[..32], keys[32..44], i / 64 % 0x1_0000_0000)[i % 64]
  }

  lemma CipherBytes(env: Env, keys: Bytes, data: Bytes)
    requires env.Valid() && |keys| == 76
    ensures |Cipher(env, keys, data)| == |data|
    ensures forall i :: 0 <= i < |data| ==> Cipher(env, keys, data)[i] == ByteXor(data[i], StreamByte(env, keys, i))
  {
    forall i | 0 <= i < |data| ensures Mask(Blocks(env, keys), i) == StreamByte(env, keys, i) {
      assert Blocks(env, keys)(i / 64 % 0x1_0000_0000) == env.block(keys[..32], keys[32..44], i / 64 % 0x1_0000_0000);
    }
  }

  lemma FrameIff(env: Env, f: Bytes, key: Bytes, nonce: Bytes, padded: Bytes)
    requires env.Valid() && |nonce| == 32
    ensures var keys := env.keys(key, nonce);
            IsFrame(env, f, key, nonce, padded) <==> f == Frame(env, keys, nonce, Cipher(env, keys, padded))
  {
    var keys, n := env.keys(key, nonce), |padded|;
    var c := Cipher(env, keys, padded);
    CipherBytes(env, keys, padded);
    FrameParts(env, keys, nonce, c);
    assert keys[44..76] == keys[44..];
    if |f| == 65 + n && f[1..33] == nonce {
      assert f[1..33 + n] == f[1..33] + f[33..33 + n];
      assert f == [f[0]] + f[1..33] + f[33..33 + n] + f[33 + n..];
      if IsFrame(env, f, key, nonce, padded) { assert f[33..33 + n] == c; }
      if f[33..33 + n] == c {
        forall i | 0 <= i < n ensures f[33 + i] == c[i] { assert f[33 + i] == f[33..33 + n][i]; }
      }
    }
  }

  // ----- payloads -----

  /** The base64 text of the frame of the padded text. */
  ghost predicate IsPayloadOf(env: Env, t: Bytes, key: Bytes, nonce: Bytes, p: Bytes, padded: Bytes, f: Bytes)
    requires env.Valid()
  {
    IsPadded(padded, p) && IsFrame(env, f, key, nonce, padded) && IsBase64(t, f)
  }

  ghost predicate IsPayload(env: Env, t: Bytes, key: Bytes, nonce: Bytes, p: Bytes)
    requires env.Valid()
  {
    exists padded, f :: IsPayloadOf(env, t, key, nonce, p, padded, f)
  }

  /** Encryption accepts exactly texts of 1 to 262144 bytes and produces exactly their payload. */
  lemma EncryptIff(env: Env, p: Bytes, key: Bytes, nonce: Bytes, t: Bytes)
    requires env.Valid() && |nonce| == 32
    ensures Encrypt(env, p, key, nonce) == Ok(t) <==> 0 < |p| <= 262_144 && IsPayload(env, t, key, nonce, p)
  {
    if InBounds(|p|) {
      var padded, keys := Pad(p).value, env.keys(key, nonce);
      var f := Frame(env, keys, nonce, Cipher(env, keys, padded));
      PaddedIff(padded, p);
      FrameIff(env, f, key, nonce, padded);
      Base64Iff(Base64.Encode(f), f);
      assert IsPayloadOf(env, Base64.Encode(f), key, nonce, p, padded, f);
      if d, g :| IsPayloadOf(env, t, key, nonce, p, d, g) {
        PaddedIff(d, p);
        FrameIff(env, g, key, nonce, d);
        Base64Iff(t, g);
      }
    }
  }

  /** Decryption accepts exactly the payloads of valid text, under whichever nonce they carry. */
  lemma DecryptIff(env: Env, t: Bytes, key: Bytes, p: Bytes)
    requires env.Valid()
    ensures Decrypt(env, t, key) == Ok(p) <==>
            && 0 < |p| <= 262_144 && env.utf8(p)
            && exists nonce :: |nonce| == 32 && IsPayload(env, t, key, nonce, p)
  {
    if Decrypt(env, t, key) == Ok(p) {
      DecryptThenEncrypt(env, t, key);
      var nonce := Base64.Decode(t).value[1..33];
      EncryptIff(env, p, key, nonce, t);
    }
    if 0 < |p| <= 262_144 && env.utf8(p) {
      if nonce :| |nonce| == 32 && IsPayload(env, t, key, nonce, p) {
        EncryptIff(env, p, key, nonce, t);
        EncryptThenDecrypt(env, p, key, nonce);
      }
    }
  }
}
