/** The textual forms the recovery state is made of: hexadecimal, decimal and outpoint references. */
module ArkText {
  import opened ByteStrings
  import opened ArkVerify

  function HexDigit(n: nat): (c: char)
    requires n < 16
    ensures IsHexChar(c) && HexValue(c) == n && c != ':'
  {
    if n < 10 then '0' + n as char else 'a' + (n - 10) as char
  }

  predicate IsHexChar(c: char) { '0' <= c <= '9' || 'a' <= c <= 'f' }

  function HexValue(c: char): (n: nat)
    requires IsHexChar(c)
    ensures n < 16
  {
    if c <= '9' then (c - '0') as nat else (c - 'a') as nat + 10
  }

  predicate IsLowerHex(s: string, length: nat) {
    |s| == length && forall i :: 0 <= i < |s| ==> IsHexChar(s[i])
  }

  function EncodeHex(b: Bytes): string {
    if b == [] then "" else [HexDigit(b[0] / 16), HexDigit(b[0] % 16)] + EncodeHex(b[1..])
  }

  function DecodeHex(s: string): (r: Option<Bytes>) {
    if s == "" then Some([])
    else if |s| < 2 || !IsHexChar(s[0]) || !IsHexChar(s[1]) then None
    else match DecodeHex(s[2..])
         case None => None
         case Some(rest) => Some([HexValue(s[0]) * 16 + HexValue(s[1])] + rest)
  }

  lemma {:induction false} HexRoundTrip(b: Bytes)
    ensures IsLowerHex(EncodeHex(b), 2 * |b|) && DecodeHex(EncodeHex(b)) == Some(b)
  {
    if b != [] {
      HexRoundTrip(b[1..]);
      var s := EncodeHex(b);
      assert s[2..] == EncodeHex(b[1..]);
      assert forall i :: 2 <= i < |s| ==> s[i] == EncodeHex(b[1..])[i - 2];
      assert [HexValue(s[0]) * 16 + HexValue(s[1])] + b[1..] == b;
    }
  }

  // ----- canonical decimals -----

  function Decimal(n: nat): (s: string)
    ensures |s| > 0
  {
    if n < 10 then [DigitChar(n)] else Decimal(n / 10) + [DigitChar(n % 10)]
  }

  function DigitChar(n: nat): (c: char)
    requires n < 10
    ensures '0' <= c <= '9' && (c - '0') as nat == n && (c == '0' <==> n == 0)
  {
    '0' + n as char
  }

  function DecimalValue(s: string): nat
    requires AllDigits(s)
  {
    if s == "" then 0 else DecimalValue(s[..|s| - 1]) * 10 + (s[|s| - 1] - '0') as nat
  }

  predicate AllDigits(s: string) { forall i :: 0 <= i < |s| ==> '0' <= s[i] <= '9' }

  /** A decimal without superfluous leading zeros that fits `limit`. */
  function ParseDecimal(s: string, limit: nat): Option<nat> {
    if s == "" || (|s| > 1 && s[0] == '0') || !AllDigits(s) then None
    else if DecimalValue(s) < limit then Some(DecimalValue(s)) else None
  }

  lemma {:induction false} DecimalRoundTrip(n: nat)
    ensures AllDigits(Decimal(n)) && DecimalValue(Decimal(n)) == n
    ensures |Decimal(n)| > 1 ==> Decimal(n)[0] != '0'
    ensures n > 0 ==> Decimal(n)[0] != '0'
  {
    if n >= 10 {
      DecimalRoundTrip(n / 10);
      var s := Decimal(n);
      assert s[..|s| - 1] == Decimal(n / 10);
    }
  }

  // ----- outpoints -----

  /** `txid:index`, the transaction identifier in hexadecimal. */
  function Canonical(o: Outpoint): string { EncodeHex(o.txid) + ":" + Decimal(o.index) }

  /** The position of the first ':' at or after `i`. */
  function FindColon(s: string, i: nat): (r: Option<nat>)
    requires i <= |s|
    ensures r.Some? ==> i <= r.value < |s|
    decreases |s| - i
  {
    if i == |s| then None else if s[i] == ':' then Some(i) else FindColon(s, i + 1)
  }

  function ParseOutpoint(s: string): Option<Outpoint> {
    match FindColon(s, 0)
    case None => None
    case Some(k) =>
      if !IsLowerHex(s[..k], 64) then None
      else match (ParseDecimal(s[k + 1..], 0x1_0000_0000), DecodeHex(s[..k]))
           case (Some(index), Some(txid)) => Some(Outpoint(txid, index))
           case _ => None
  }

  lemma {:induction false} FirstColon(s: string, i: nat, k: nat)
    requires i <= k < |s| && s[k] == ':' && forall j :: i <= j < k ==> s[j] != ':'
    ensures FindColon(s, i) == Some(k)
    decreases k - i
  {
    if i < k { FirstColon(s, i + 1, k); }
  }

  /** Every outpoint parses back from its canonical form. */
  lemma OutpointRoundTrip(o: Outpoint)
    requires |o.txid| == 32 && o.index < 0x1_0000_0000
    ensures ParseOutpoint(Canonical(o)) == Some(o)
  {
    var s, k := Canonical(o), |EncodeHex(o.txid)|;
    HexRoundTrip(o.txid);
    DecimalRoundTrip(o.index);
    assert s[..k] == EncodeHex(o.txid) && s[k + 1..] == Decimal(o.index);
    assert forall j :: 0 <= j < k ==> s[j] == EncodeHex(o.txid)[j];
    FirstColon(s, 0, k);
  }

  // ----- the texts character by character, and back -----

  const HEX := "0123456789abcdef"

  lemma HexDigitIs(n: nat)
    requires n < 16
    ensures HexDigit(n) == HEX[n]
  {
  }

  /** Byte `i` is written as its high and its low digit, at `2 * i`. */
  lemma {:induction false} HexAt(b: Bytes, i: nat)
    requires i < |b|
    ensures |EncodeHex(b)| == 2 * |b|
    ensures EncodeHex(b)[2 * i] == HEX[b[i] / 16] && EncodeHex(b)[2 * i + 1] == HEX[b[i] % 16]
  {
    HexRoundTrip(b);
    HexDigitIs(b[0] / 16);
    HexDigitIs(b[0] % 16);
    if i > 0 {
      HexAt(b[1..], i - 1);
      assert EncodeHex(b)[2..] == EncodeHex(b[1..]);
      assert EncodeHex(b)[2 * i] == EncodeHex(b)[2..][2 * (i - 1)];
      assert EncodeHex(b)[2 * i + 1] == EncodeHex(b)[2..][2 * (i - 1) + 1];
    }
  }

  lemma DigitBack(c: char)
    requires IsHexChar(c)
    ensures HexDigit(HexValue(c)) == c
  {
  }

  /** Lower-case hexadecimal of even length is the text of the bytes it decodes to. */
  lemma {:induction false} HexBack(s: string, k: nat)
    requires IsLowerHex(s, 2 * k)
    ensures DecodeHex(s).Some? && |DecodeHex(s).value| == k && EncodeHex(DecodeHex(s).value) == s
  {
    if s != "" {
      HexBack(s[2..], k - 1);
      DigitBack(s[0]);
      DigitBack(s[1]);
      var rest := DecodeHex(s[2..]).value;
      var b := DecodeHex(s).value;
      assert b[1..] == rest && b[0] / 16 == HexValue(s[0]) && b[0] % 16 == HexValue(s[1]);
      assert s == [s[0], s[1]] + s[2..];
    }
  }

  /** Exactly the texts of 32-byte strings. */
  lemma HashTextIff(s: string)
    ensures IsLowerHex(s, 64) <==> exists h :: |h| == 32 && s == EncodeHex(h)
  {
    if IsLowerHex(s, 64) { HexBack(s, 32); }
    if h :| |h| == 32 && s == EncodeHex(h) { HexRoundTrip(h); }
  }

  lemma {:induction false} DecimalBack(s: string)
    requires s != "" && AllDigits(s) && (|s| > 1 ==> s[0] != '0')
    ensures Decimal(DecimalValue(s)) == s
    ensures s[0] != '0' ==> DecimalValue(s) > 0
  {
    var n := |s| - 1;
    var front, last := s[..n], s[n];
    assert s == front + [last];
    if n > 0 {
      assert front[0] == s[0];
      DecimalBack(front);
      assert DecimalValue(s) / 10 == DecimalValue(front) && DecimalValue(s) % 10 == (last - '0') as nat;
    } else {
      assert DecimalValue(front) == 0;
    }
  }

  /** Exactly the canonical texts parse. */
  lemma OutpointIff(s: string, o: Outpoint)
    ensures ParseOutpoint(s) == Some(o) <==> |o.txid| == 32 && o.index < 0x1_0000_0000 && s == Canonical(o)
  {
    if ParseOutpoint(s) == Some(o) {
      var k := FindColon(s, 0).value;
      ColonThere(s, 0);
      HexBack(s[..k], 32);
      DecimalBack(s[k + 1..]);
      assert s == s[..k] + [':'] + s[k + 1..];
    }
    if |o.txid| == 32 && o.index < 0x1_0000_0000 { OutpointRoundTrip(o); }
  }

  lemma {:induction false} ColonThere(s: string, i: nat)
    requires i <= |s| && FindColon(s, i).Some?
    ensures s[FindColon(s, i).value] == ':'
    decreases |s| - i
  {
    if s[i] != ':' { ColonThere(s, i + 1); }
  }
}
