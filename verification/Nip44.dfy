/** NIP-44 version 2 payloads: what decrypts is exactly what encrypts. */
module Nip44 {
  import opened Arithmetic
  import opened ByteStrings
  import Base64
  import Padding = Nip44Padding

  const VERSION: Byte := 2
  const MIN_PAYLOAD_CHARS := 132
  const MAX_PAYLOAD_CHARS := 349620
  const HASH_SIGN: Byte := 35

  /** Message keys, MAC, cipher block and the UTF-8 test are parameters. */
  datatype Env = Env(
    keys: (Bytes, Bytes) -> Bytes, mac: (Bytes, Bytes) -> Bytes,
    block: (Bytes, Bytes, U32) -> Bytes, utf8: Bytes -> bool)
  {
    ghost predicate Valid() {
      && (forall k, n :: |keys(k, n)| == 76) && (forall k, m :: |mac(k, m)| == 32)
      && (forall k, n, c :: |block(k, n, c)| == 64)
    }
  }

  datatype Error =
    | PlaintextSize | Unsupported | PayloadSize | BadBase64(error: Base64.Error) | TooShort | BadVersion | BadMac
    | BadPadding(reason: Padding.Error) | NotText

  // ----- the key stream -----

  /** Exclusive or, bit by bit. */
  function BitXor(a: nat, b: nat): nat
    decreases a + b
  {
    if a == 0 && b == 0 then 0 else 2 * BitXor(a / 2, b / 2) + (a % 2 + b % 2) % 2
  }

  lemma {:induction false} BitXorBound(a: nat, b: nat, k: nat)
    requires a < Pow2(k) && b < Pow2(k)
    ensures BitXor(a, b) < Pow2(k)
  {
    if k > 0 { BitXorBound(a / 2, b / 2, k - 1); }
  }

  lemma {:induction false} BitXorTwice(a: nat, b: nat)
    ensures BitXor(BitXor(a, b), b) == a
    decreases a + b
  {
    if a != 0 || b != 0 {
      BitXorTwice(a / 2, b / 2);
      BitXorStep(a, b);
      BitXorStep(BitXor(a, b), b);
      Parities(a % 2, b % 2);
    }
  }

  lemma BitXorStep(a: nat, b: nat)
    ensures BitXor(a, b) / 2 == BitXor(a / 2, b / 2) && BitXor(a, b) % 2 == (a % 2 + b % 2) % 2
  {
  }

  lemma Parities(x: nat, y: nat)
    requires x < 2 && y < 2
    ensures ((x + y) % 2 + y) % 2 == x
  {
  }

  function ByteXor(a: Byte, b: Byte): Byte {
    assert Pow2(8) == 256;
    BitXorBound(a, b, 8);
    BitXor(a, b)
  }

  /** The key stream byte at a position: blocks of 64 under a 32-bit counter. */
  function Mask(block: U32 -> Bytes, i: nat): Byte
    requires forall c :: |block(c)| == 64
  {
    block(i / 64 % 0x1_0000_0000)[i % 64]
  }

  function Stream(block: U32 -> Bytes, data: Bytes): (r: Bytes)
    requires forall c :: |block(c)| == 64
    ensures |r| == |data| && forall i :: 0 <= i < |data| ==> r[i] == ByteXor(data[i], Mask(block, i))
  {
    seq(|data|, i requires 0 <= i < |data| => ByteXor(data[i], Mask(block, i)))
  }

  /** The stream is its own inverse. */
  lemma StreamTwice(block: U32 -> Bytes, data: Bytes)
    requires forall c :: |block(c)| == 64
    ensures Stream(block, Stream(block, data)) == data
  {
    forall i | 0 <= i < |data| ensures Stream(block, Stream(block, data))[i] == data[i] {
      BitXorTwice(data[i], Mask(block, i));
    }
  }

  /** The first `n` bytes have been through the stream, the rest not yet. */
  ghost predicate Streamed(block: U32 -> Bytes, was: Bytes, now: Bytes, n: nat)
    requires forall c :: |block(c)| == 64
  {
    && |was| == |now| && n <= |now|
    && (forall i :: 0 <= i < n ==> now[i] == ByteXor(was[i], Mask(block, i)))
    && (forall i :: n <= i < |now| ==> now[i] == was[i])
  }

  lemma NextCounter(k: nat)
    ensures (k % 0x1_0000_0000 + 1) % 0x1_0000_0000 == (k + 1) % 0x1_0000_0000
  {
  }

  /** The cipher works in place, chunk by chunk, under a wrapping counter. */
  method XorInPlace(block: U32 -> Bytes, data: array<Byte>)
    requires forall c :: |block(c)| == 64
    modifies data
    ensures data[..] == Stream(block, old(data[..]))
  {
    var counter: U32 := 0;
    var start, end := 0, 0;
    ghost var k := 0;
    while end < data.Length
      invariant counter == k % 0x1_0000_0000 && start == 64 * k && end <= data.Length &&
                (end == start || end == data.Length)
      invariant Streamed(block, old(data[..]), data[..], end)
    {
      end := if start + 64 <= data.Length then start + 64 else data.Length;
      assert start / 64 == k;
      XorChunk(block, old(data[..]), block(counter), data, start, end);
      NextCounter(k);
      counter := (counter + 1) % 0x1_0000_0000;
      start, k := start + 64, k + 1;
    }
  }

  method XorChunk(ghost block: U32 -> Bytes, ghost was: Bytes, mask: Bytes, data: array<Byte>, start: nat, end: nat)
    requires forall c :: |block(c)| == 64
    requires start % 64 == 0 && start <= end <= data.Length && end <= start + 64
    requires mask == block(start / 64 % 0x1_0000_0000) && Streamed(block, was, data[..], start)
    modifies data
    ensures Streamed(block, was, data[..], end)
  {
    for i := start to end
      invariant Streamed(block, was, data[..], i)
    {
      assert i / 64 == start / 64 && i % 64 == i - start;
      data[i] := ByteXor(data[i], mask[i - start]);
    }
  }

  // ----- payloads -----

  function Cipher(env: Env, keys: Bytes, data: Bytes): Bytes
    requires env.Valid() && |keys| == 76
  {
    Stream(Blocks(env, keys), data)
  }

  function Blocks(env: Env, keys: Bytes): (f: U32 -> Bytes)
    requires env.Valid() && |keys| == 76
    ensures forall c :: |f(c)| == 64
  {
    c => env.block(keys[..32], keys[32..44], c)
  }

  lemma CipherTwice(env: Env, keys: Bytes, data: Bytes)
    requires env.Valid() && |keys| == 76
    ensures Cipher(env, keys, Cipher(env, keys, data)) == data
  {
    StreamTwice(Blocks(env, keys), data);
  }

  /** Version, nonce, ciphertext and the MAC over nonce and ciphertext. */
  function Frame(env: Env, keys: Bytes, nonce: Bytes, ciphertext: Bytes): Bytes
    requires |keys| == 76
  {
    [VERSION] + nonce + ciphertext + env.mac(keys[44..], nonce + ciphertext)
  }

  function Encrypt(env: Env, plaintext: Bytes, key: Bytes, nonce: Bytes): Result<Bytes, Error>
    requires env.Valid() && |nonce| == 32
  {
    match Padding.Pad(plaintext)
    case Err(_) => Err(PlaintextSize)
    case Ok(padded) =>
      var keys := env.keys(key, nonce);
      Ok(Base64.Encode(Frame(env, keys, nonce, Cipher(env, keys, padded))))
  }

  /** The plaintext of a decoded frame. */
  function OpenFrame(env: Env, frame: Bytes, key: Bytes): Result<Bytes, Error>
    requires env.Valid()
  {
    if |frame| < 99 then Err(TooShort)
    else if frame[0] != VERSION then Err(BadVersion)
    else
      var end := |frame| - 32;
      var keys := env.keys(key, frame[1..33]);
      if frame[end..] != env.mac(keys[44..], frame[1..end]) then Err(BadMac)
      else
        match Padding.Unpad(Cipher(env, keys, frame[33..end]))
        case Err(e) => Err(BadPadding(e))
        case Ok(plaintext) => if env.utf8(plaintext) then Ok(plaintext) else Err(NotText)
  }

  function Decrypt(env: Env, payload: Bytes, key: Bytes): Result<Bytes, Error>
    requires env.Valid()
  {
    if payload != [] && payload[0] == HASH_SIGN then Err(Unsupported)
    else if |payload| < MIN_PAYLOAD_CHARS || |payload| > MAX_PAYLOAD_CHARS then Err(PayloadSize)
    else
      match Base64.Decode(payload)
      case Err(e) => Err(BadBase64(e))
      case Ok(frame) => OpenFrame(env, frame, key)
  }

  lemma FrameParts(env: Env, keys: Bytes, nonce: Bytes, c: Bytes)
    requires env.Valid() && |keys| == 76 && |nonce| == 32
    ensures var f := Frame(env, keys, nonce, c); var end := |f| - 32;
            && end == 33 + |c| && f[0] == VERSION && f[1..33] == nonce && f[33..end] == c && f[1..end] == nonce + c
            && f[end..] == env.mac(keys[44..], nonce + c)
  {
  }

  /** A frame opens to the plaintext it was made from. */
  lemma OpensFrame(env: Env, key: Bytes, nonce: Bytes, p: Bytes)
    requires env.Valid() && |nonce| == 32 && Padding.InBounds(|p|) && env.utf8(p)
    ensures var keys := env.keys(key, nonce);
            OpenFrame(env, Frame(env, keys, nonce, Cipher(env, keys, Padding.Pad(p).value)), key) == Ok(p)
  {
    var keys, padded := env.keys(key, nonce), Padding.Pad(p).value;
    Padding.PaddedBounds(|p|);
    FrameParts(env, keys, nonce, Cipher(env, keys, padded));
    CipherTwice(env, keys, padded);
    Padding.PadThenUnpad(p);
  }

  /** The size bounds admit every payload that encryption produces. */
  lemma PayloadFits(env: Env, plaintext: Bytes, key: Bytes, nonce: Bytes)
    requires env.Valid() && |nonce| == 32 && Padding.InBounds(|plaintext|)
    ensures MIN_PAYLOAD_CHARS <= |Encrypt(env, plaintext, key, nonce).value| <= MAX_PAYLOAD_CHARS
    ensures Encrypt(env, plaintext, key, nonce).value[0] != HASH_SIGN
  {
    Padding.PaddedBounds(|plaintext|);
    var keys := env.keys(key, nonce);
    Base64.EncodeLength(Frame(env, keys, nonce, Cipher(env, keys, Padding.Pad(plaintext).value)));
  }

  /** Every text of 1 to 262144 bytes survives encryption and decryption. */
  lemma EncryptThenDecrypt(env: Env, plaintext: Bytes, key: Bytes, nonce: Bytes)
    requires env.Valid() && |nonce| == 32 && Padding.InBounds(|plaintext|) && env.utf8(plaintext)
    ensures Encrypt(env, plaintext, key, nonce).Ok?
    ensures Decrypt(env, Encrypt(env, plaintext, key, nonce).value, key) == Ok(plaintext)
  {
    var keys := env.keys(key, nonce);
    PayloadFits(env, plaintext, key, nonce);
    var frame := Frame(env, keys, nonce, Cipher(env, keys, Padding.Pad(plaintext).value));
    Base64.Inverse(frame, Base64.Encode(frame));
    OpensFrame(env, key, nonce, plaintext);
  }

  /** Whatever decrypts is the encryption of its plaintext under the nonce it carries. */
  lemma DecryptThenEncrypt(env: Env, payload: Bytes, key: Bytes)
    requires env.Valid() && Decrypt(env, payload, key).Ok?
    ensures var nonce := Base64.Decode(payload).value[1..33];
            Encrypt(env, Decrypt(env, payload, key).value, key, nonce) == Ok(payload)
  {
    var frame := Base64.Decode(payload).value;
    var end := |frame| - 32;
    var keys := env.keys(key, frame[1..33]);
    Base64.Inverse(frame, payload);
    Padding.UnpadThenPad(Cipher(env, keys, frame[33..end]));
    CipherTwice(env, keys, frame[33..end]);
    FrameRejoined(env, frame, keys);
  }

  lemma FrameRejoined(env: Env, frame: Bytes, keys: Bytes)
    requires env.Valid() && |keys| == 76 && |frame| >= 99 && frame[0] == VERSION
    requires frame[|frame| - 32..] == env.mac(keys[44..], frame[1..|frame| - 32])
    ensures Frame(env, keys, frame[1..33], frame[33..|frame| - 32]) == frame
  {
    var end := |frame| - 32;
    assert frame[1..33] + frame[33..end] == frame[1..end];
  }

  // ----- the code's steps -----

  function BitOr(a: nat, b: nat): nat
    decreases a + b
  {
    if a == 0 && b == 0 then 0 else 2 * BitOr(a / 2, b / 2) + (if a % 2 + b % 2 > 0 then 1 else 0)
  }

  lemma {:induction false} OrZero(a: nat, b: nat)
    ensures BitOr(a, b) == 0 <==> a == 0 && b == 0
    decreases a + b
  {
    if a != 0 || b != 0 { OrZero(a / 2, b / 2); }
  }

  lemma {:induction false} XorZero(a: nat, b: nat)
    ensures BitXor(a, b) == 0 <==> a == b
    decreases a + b
  {
    if a != 0 || b != 0 { XorZero(a / 2, b / 2); }
  }

  /** Comparing without an early exit is comparing. */
  method ConstantTimeEqual(left: Bytes, right: Bytes) returns (equal: bool)
    ensures equal <==> left == right
  {
    if |left| != |right| { return false; }
    var difference := 0;
    for i := 0 to |left|
      invariant difference == 0 <==> left[..i] == right[..i]
    {
      XorZero(left[i], right[i]);
      OrZero(difference, BitXor(left[i], right[i]));
      assert left[..i + 1] == left[..i] + [left[i]] && right[..i + 1] == right[..i] + [right[i]];
      difference := BitOr(difference, BitXor(left[i], right[i]));
    }
    assert left[..|left|] == left && right[..|right|] == right;
    return difference == 0;
  }

  method EncryptText(env: Env, plaintext: Bytes, key: Bytes, nonce: Bytes) returns (r: Result<Bytes, Error>)
    requires env.Valid() && |nonce| == 32
    ensures r == Encrypt(env, plaintext, key, nonce)
  {
    if !Padding.InBounds(|plaintext|) { return Err(PlaintextSize); }
    var keys := env.keys(key, nonce);
    var padded := Padding.FillBuffer(plaintext);
    XorInPlace(Blocks(env, keys), padded);
    var text := Base64.PushGroups(Frame(env, keys, nonce, padded[..]));
    return Ok(text);
  }

  method OpenBytes(env: Env, frame: Bytes, key: Bytes) returns (r: Result<Bytes, Error>)
    requires env.Valid()
    ensures r == OpenFrame(env, frame, key)
  {
    if |frame| < 99 { return Err(TooShort); }
    if frame[0] != VERSION { return Err(BadVersion); }
    var end := |frame| - 32;
    var ciphertext := new Byte[end - 33](i requires 0 <= i < end - 33 => frame[33 + i]);
    assert ciphertext[..] == frame[33..end];
    var keys := env.keys(key, frame[1..33]);
    var authentic := ConstantTimeEqual(frame[end..], env.mac(keys[44..], frame[1..end]));
    if !authentic { return Err(BadMac); }
    XorInPlace(Blocks(env, keys), ciphertext);
    match Padding.Unpad(ciphertext[..])
    case Err(e) => return Err(BadPadding(e));
    case Ok(plaintext) => return if env.utf8(plaintext) then Ok(plaintext) else Err(NotText);
  }

  method DecryptText(env: Env, payload: Bytes, key: Bytes) returns (r: Result<Bytes, Error>)
    requires env.Valid()
    ensures r == Decrypt(env, payload, key)
  {
    if payload != [] && payload[0] == HASH_SIGN { return Err(Unsupported); }
    if |payload| < MIN_PAYLOAD_CHARS || |payload| > MAX_PAYLOAD_CHARS { return Err(PayloadSize); }
    var decoded := Base64.PullGroups(payload);
    if decoded.Err? { return Err(BadBase64(decoded.error)); }
    r := OpenBytes(env, decoded.value, key);
  }
}
