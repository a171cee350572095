/** Byte strings, fixed-width integers and the result type shared by every component. */
module ByteStrings {

  type Byte = b: nat | b < 256
  type Bytes = seq<Byte>
  type U32 = x: nat | x < 0x1_0000_0000
  type U64 = x: nat | x < 0x1_0000_0000_0000_0000

  datatype Option<+T> = None | Some(value: T)

  datatype Result<+T, +E> = Ok(value: T) | Err(error: E) {
    predicate IsFailure() { Err? }

    function PropagateFailure<U>(): (r: Result<U, E>)
      requires Err?
    {
      Err(error)
    }

    function Extract(): T
      requires Ok?
    {
      value
    }
  }

  function Zeros(k: nat): (s: Bytes)
    ensures |s| == k && forall i :: 0 <= i < k ==> s[i] == 0
  {
    seq(k, _ => 0)
  }

  /** 256 to the power `k`. */
  function Pow256(k: nat): (p: nat)
    ensures p > 0
  {
    if k == 0 then 1 else 256 * Pow256(k - 1)
  }

  /** Base-256 digit `i` of `v`, least significant first. */
  function Digit(v: nat, i: nat): Byte {
    if i == 0 then v % 256 else Digit(v / 256, i - 1)
  }

  /** `k` little-endian bytes of `v`. */
  function LE(k: nat, v: nat): (s: Bytes)
    ensures |s| == k
  {
    seq(k, i requires 0 <= i < k => Digit(v, i))
  }

  function FromLE(s: Bytes): nat {
    if s == [] then 0 else s[0] + 256 * FromLE(s[1..])
  }

  /** `k` big-endian bytes of `v`. */
  function BE(k: nat, v: nat): (s: Bytes)
    ensures |s| == k
  {
    seq(k, i requires 0 <= i < k => Digit(v, k - 1 - i))
  }

  function FromBE(s: Bytes): nat {
    if s == [] then 0 else FromBE(s[..|s| - 1]) * 256 + s[|s| - 1]
  }

  lemma LEStep(k: nat, v: nat)
    requires k > 0
    ensures LE(k, v) == [v % 256] + LE(k - 1, v / 256)
  {
  }

  lemma BEStep(k: nat, v: nat)
    requires k > 0
    ensures BE(k, v) == BE(k - 1, v / 256) + [v % 256]
  {
    var s := BE(k - 1, v / 256) + [v % 256];
    forall i | 0 <= i < k ensures BE(k, v)[i] == s[i] {
      assert BE(k, v)[i] == Digit(v, k - 1 - i);
      if i < k - 1 { assert s[i] == BE(k - 1, v / 256)[i] == Digit(v / 256, k - 1 - i - 1); }
    }
  }

  lemma {:induction false} FromLEBound(s: Bytes)
    ensures FromLE(s) < Pow256(|s|)
  {
    if s != [] { FromLEBound(s[1..]); }
  }

  lemma {:induction false} LERoundTrip(k: nat, v: nat)
    requires v < Pow256(k)
    ensures FromLE(LE(k, v)) == v
  {
    if k > 0 {
      LERoundTrip(k - 1, v / 256);
      LEStep(k, v);
    }
  }

  lemma {:induction false} FromLERoundTrip(s: Bytes)
    ensures LE(|s|, FromLE(s)) == s
  {
    if s != [] {
      FromLERoundTrip(s[1..]);
      LEStep(|s|, FromLE(s));
      assert FromLE(s) % 256 == s[0] && FromLE(s) / 256 == FromLE(s[1..]);
    }
  }

  lemma {:induction false} FromBEBound(s: Bytes)
    ensures FromBE(s) < Pow256(|s|)
  {
    if s != [] { FromBEBound(s[..|s| - 1]); }
  }

  lemma {:induction false} BERoundTrip(k: nat, v: nat)
    requires v < Pow256(k)
    ensures FromBE(BE(k, v)) == v
  {
    if k > 0 {
      BERoundTrip(k - 1, v / 256);
      BEStep(k, v);
    }
  }

  lemma {:induction false} FromBERoundTrip(s: Bytes)
    ensures BE(|s|, FromBE(s)) == s
  {
    if s != [] {
      FromBERoundTrip(s[..|s| - 1]);
      BEStep(|s|, FromBE(s));
      assert FromBE(s) % 256 == s[|s| - 1] && FromBE(s) / 256 == FromBE(s[..|s| - 1]);
    }
  }

  /** The most significant byte contributes its value times a power of 256. */
  lemma {:induction false} FromBEHead(s: Bytes)
    requires s != []
    ensures FromBE(s) == s[0] * Pow256(|s| - 1) + FromBE(s[1..])
  {
    if |s| > 1 {
      var t := s[..|s| - 1];
      FromBEHead(t);
      assert s[1..][..|s| - 2] == t[1..];
      assert FromBE(s[1..]) == FromBE(t[1..]) * 256 + s[|s| - 1];
      ShiftHead(s[0], Pow256(|s| - 2));
    }
  }

  lemma ShiftHead(x: nat, p: nat)
    ensures (x * p) * 256 == x * (256 * p)
  {
  }

  lemma Pow256Values()
    ensures Pow256(1) == 256 && Pow256(2) == 0x1_0000
    ensures Pow256(4) == 0x1_0000_0000 && Pow256(8) == 0x1_0000_0000_0000_0000
  {
    assert Pow256(3) == 0x100_0000;
    assert Pow256(5) == 0x100_0000_0000;
    assert Pow256(6) == 0x1_0000_0000_0000;
    assert Pow256(7) == 0x100_0000_0000_0000;
  }
}
