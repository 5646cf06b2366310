/** Signing and comparing link signatures (`sign`, `secureEqual`).

    A signature is the HMAC-SHA256 of `target ‖ '\n' ‖ exp` under the
    signing secret, spelled in unpadded URL-safe base64. The MAC is a
    collaborator passed in as a parameter: the model only knows that it is a
    deterministic function of key and message with a 32-byte result. */
module Token {
  import opened Basics
  import opened Base64Url

  /** A SHA-256 sized digest. */
  type Digest = d: Bytes | |d| == 32 witness seq(32, _ => 0)

  /** HMAC-SHA256 as a function of the key and the whole message. */
  type Mac = (Bytes, Bytes) -> Digest

  /** The state of a streaming MAC (`hmac.New`): its key and every byte written so far. */
  datatype Hasher = Hasher(key: Bytes, written: Bytes)

  function NewHasher(key: Bytes): (h: Hasher)
    ensures h.key == key && h.written == []
  {
    Hasher(key, [])
  }

  /** `mac.Write(p)`: the bytes are appended to the message. */
  function Write(h: Hasher, p: Bytes): (h': Hasher)
    ensures h'.key == h.key && |h'.written| == |h.written| + |p|
    ensures h'.written[..|h.written|] == h.written && h'.written[|h.written|..] == p
  {
    Hasher(h.key, h.written + p)
  }

  /** `mac.Sum(nil)`: the MAC of everything written. */
  function Sum(mac: Mac, h: Hasher): (r: Digest)
    ensures r == mac(h.key, h.written)
  {
    mac(h.key, h.written)
  }

  /** The message a signature covers: the target, one line feed, the expiry text. */
  function MacInput(target: Bytes, exp: Bytes): (m: Bytes)
    ensures |m| == |target| + 1 + |exp|
    ensures m[..|target|] == target && m[|target|] == NewLine && m[|target| + 1..] == exp
  {
    target + [NewLine] + exp
  }

  /** `sign(secret, target, exp)`: three writes into a fresh MAC, then the
      unpadded URL-safe base64 of the 32-byte sum. */
  function Sign(mac: Mac, secret: Bytes, target: Bytes, exp: Bytes): (sig: Bytes)
    ensures |sig| == 43
    ensures forall i :: 0 <= i < |sig| ==> InAlphabet(sig[i])
    ensures DecodeString(sig) == Some(mac(secret, MacInput(target, exp)))
    ensures sig == Encode(mac(secret, MacInput(target, exp)))
  {
    var h := Write(Write(Write(NewHasher(secret), target), [NewLine]), exp);
    WritesConcatenate(mac, secret, target, [NewLine], exp);
    var digest := Sum(mac, h);
    DecodeEncode(digest);
    Encode(digest)
  }

  /** `secureEqual(a, b)`: both strings must decode, and then their bytes
      must be equal (`hmac.Equal`, here plain equality; its constant timing
      is not modelled). */
  function SecureEqual(a: Bytes, b: Bytes): (r: bool)
    ensures r ==> DecodeString(a).Some? && DecodeString(b).Some?
    ensures DecodeString(a).None? || DecodeString(b).None? ==> !r
    ensures DecodeString(a).Some? && DecodeString(b).Some? ==>
      (r <==> DecodeString(a).value == DecodeString(b).value)
  {
    match (DecodeString(a), DecodeString(b))
    case (Some(x), Some(y)) => x == y
    case _ => false
  }

  /** The three writes of `sign` amount to one write of the whole message. */
  lemma WritesConcatenate(mac: Mac, key: Bytes, a: Bytes, b: Bytes, c: Bytes)
    ensures Sum(mac, Write(Write(Write(NewHasher(key), a), b), c)) == mac(key, a + b + c)
  {
    assert [] + a + b + c == a + b + c;
  }

  /** Decoded strings of different lengths never compare equal. */
  lemma LengthMismatchUnequal(a: Bytes, b: Bytes)
    requires DecodeString(a).Some? && DecodeString(b).Some?
    requires |DecodeString(a).value| != |DecodeString(b).value|
    ensures !SecureEqual(a, b)
  {
  }

  /** A presented signature matches the expected one exactly when it decodes
      to the MAC of the target, a line feed and the expiry text. */
  lemma MatchesSignIff(mac: Mac, secret: Bytes, target: Bytes, exp: Bytes, sig: Bytes)
    ensures SecureEqual(sig, Sign(mac, secret, target, exp)) <==>
      DecodeString(sig) == Some(mac(secret, MacInput(target, exp)))
  {
  }

  /** Comparing two encodings compares the bytes they encode. */
  lemma SecureEqualEncodings(x: Bytes, y: Bytes)
    ensures SecureEqual(Encode(x), Encode(y)) <==> x == y
  {
    DecodeEncode(x);
    DecodeEncode(y);
  }

  /** When the expiry text has no line feed, the signed message determines
      the target and the expiry: the split is at the last line feed. */
  lemma MacInputInjective(t1: Bytes, e1: Bytes, t2: Bytes, e2: Bytes)
    requires forall i :: 0 <= i < |e1| ==> e1[i] != NewLine
    requires forall i :: 0 <= i < |e2| ==> e2[i] != NewLine
    ensures MacInput(t1, e1) == MacInput(t2, e2) <==> t1 == t2 && e1 == e2
  {
    var m1, m2 := MacInput(t1, e1), MacInput(t2, e2);
    if m1 == m2 {
      assert |t1| == |t2|;
      assert t1 == m1[..|t1|] && t2 == m2[..|t2|];
      assert e1 == m1[|t1| + 1..] && e2 == m2[|t2| + 1..];
    }
  }

  /** Each 43-character signature has three other spellings that decode to
      the same digest, since the last symbol carries two spare bits. */
  lemma SignatureSpellings(mac: Mac, secret: Bytes, target: Bytes, exp: Bytes, k: int)
    requires 0 < k < 4
    ensures var d := mac(secret, MacInput(target, exp));
      Respelled(d, k) != Sign(mac, secret, target, exp) &&
      SecureEqual(Respelled(d, k), Sign(mac, secret, target, exp))
    ensures var d := mac(secret, MacInput(target, exp));
      forall j :: 0 < j < 4 && j != k ==> Respelled(d, j) != Respelled(d, k)
  {
    var d := mac(secret, MacInput(target, exp));
    SpareBitsIgnored(d, k);
  }
}
