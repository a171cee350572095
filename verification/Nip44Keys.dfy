/** NIP-44 conversation keys: both ends of a conversation derive the same key. */
module Nip44Keys {
  import opened Arithmetic
  import opened ByteStrings
  import opened Musig2

  /** "nip44-v2" */
  function Salt(): Bytes { [110, 105, 112, 52, 52, 45, 118, 50] }

  /** The x coordinate of the secret times the even point of the peer's x-only key. */
  function ConversationKey(c: Curve, mac: (Bytes, Bytes) -> Bytes, secret: nat, peer: Bytes): Option<Bytes>
    requires c.n > 1
  {
    match c.lift(peer)
    case None => None
    case Some(p) => Some(mac(Salt(), c.xonly(c.Mul(p, secret))))
  }

  lemma NegatedProduct(n: nat, a: nat, b: nat)
    requires n > 0 && a <= n
    ensures (n - a) * b % n == if a * b % n == 0 then 0 else n - a * b % n
  {
    var q, r := a * b / n, a * b % n;
    DivMod(a * b, n);
    Distribute(b, n, a);
    assert (n - a) * b == n * b - n * q - r;
    Distribute(n, b, q);
    if r == 0 {
      QuotientUnique((n - a) * b, n, b - q, 0);
    } else {
      Distribute(n, b - q, 1);
      QuotientUnique((n - a) * b, n, b - q - 1, n - r);
    }
  }

  /** Multiplying the even point of `a` by `b` has the x coordinate of `a` times `b`. */
  lemma SharedX(c: Curve, a: nat, b: nat)
    requires c.Valid() && c.IsPoint(a)
    ensures c.xonly(c.Mul(c.Even(a), b)) == c.xonly(a * b % c.n)
  {
    NegatedProduct(c.n, a, b);
    var q := a * b % c.n;
    if c.odd(a) && q != 0 { assert c.IsPoint(q); }
  }

  /** Each side's secret with the other side's public key gives one key. */
  lemma KeysAgree(c: Curve, mac: (Bytes, Bytes) -> Bytes, a: nat, b: nat)
    requires c.Valid() && c.IsPoint(a) && c.IsPoint(b)
    ensures ConversationKey(c, mac, a, c.xonly(b)).Some?
    ensures ConversationKey(c, mac, a, c.xonly(b)) == ConversationKey(c, mac, b, c.xonly(a))
  {
    SharedX(c, a, b);
    SharedX(c, b, a);
  }

  /** The key is the code of the x coordinate of the shared point under the salt "nip44-v2". */
  lemma ConversationKeyIs(c: Curve, mac: (Bytes, Bytes) -> Bytes, a: nat, b: nat, salt: Bytes)
    requires c.Valid() && c.IsPoint(b) && |salt| == 8 && forall k :: 0 <= k < 8 ==> salt[k] == "nip44-v2"[k] as nat
    ensures ConversationKey(c, mac, a, c.xonly(b)) == Some(mac(salt, c.xonly(b * a % c.n)))
  {
    SharedX(c, b, a);
    assert salt == Salt();
  }
}
