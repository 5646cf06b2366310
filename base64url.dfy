/** Unpadded URL-safe base64: the alphabet of section 5 of RFC 4648 with the
    padding of section 3.2 omitted, as Go's `base64.RawURLEncoding` encodes
    and decodes it.

    Encoding is split in two steps: `Pack` cuts the bytes into 6-bit values
    (sextets) and `Encode` spells each sextet with one symbol. Decoding runs
    the other way: `DecodeString` drops carriage returns and line feeds,
    `Values` turns symbols back into sextets and `Unpack` reassembles bytes.
    The decoder is the lenient one: the spare low bits of a final partial
    group are ignored rather than required to be zero. */
module Base64Url {
  import opened Basics

  type Sextet = v: int | 0 <= v < 64

  /** The 64 symbols of the URL-safe alphabet: `A-Z a-z 0-9 - _`. */
  predicate InAlphabet(c: Byte) {
    (65 <= c <= 90) || (97 <= c <= 122) || (48 <= c <= 57) || c == 45 || c == 95
  }

  /** The value of one symbol, or None when the byte is not in the alphabet. */
  function SymbolValue(c: Byte): (r: Option<Sextet>)
    ensures r.Some? <==> InAlphabet(c)
  {
    if 65 <= c <= 90 then Some(c - 65)
    else if 97 <= c <= 122 then Some(c - 71)
    else if 48 <= c <= 57 then Some(c + 4)
    else if c == 45 then Some(62)
    else if c == 95 then Some(63)
    else None
  }

  /** The symbol that spells a sextet. */
  function Symbol(v: Sextet): (c: Byte)
    ensures InAlphabet(c) && SymbolValue(c) == Some(v)
  {
    if v < 26 then 65 + v
    else if v < 52 then 97 + (v - 26)
    else if v < 62 then 48 + (v - 52)
    else if v == 62 then 45
    else 95
  }

  /** The bytes as sextets: four per full group of three bytes, then two
      sextets for one trailing byte or three for two, with the spare low
      bits of the last sextet zero. */
  function Pack(d: Bytes): (v: seq<Sextet>)
    ensures 4 * |d| <= 3 * |v| < 4 * |d| + 3
    decreases |d|
  {
    if |d| == 0 then []
    else if |d| == 1 then [d[0] / 4, (d[0] % 4) * 16]
    else if |d| == 2 then [d[0] / 4, (d[0] % 4) * 16 + d[1] / 16, (d[1] % 16) * 4]
    else [d[0] / 4, (d[0] % 4) * 16 + d[1] / 16, (d[1] % 16) * 4 + d[2] / 64, d[2] % 64] + Pack(d[3..])
  }

  /** `EncodeToString`: the symbols of the packed sextets, no padding. */
  function Encode(d: Bytes): (r: Bytes)
    ensures |r| == (4 * |d| + 2) / 3
    ensures forall i :: 0 <= i < |r| ==> InAlphabet(r[i])
  {
    var v := Pack(d);
    PackLength(d);
    seq(|v|, i requires 0 <= i < |v| => Symbol(v[i]))
  }

  /** Four sextets for every three bytes, rounded up. */
  lemma {:induction false} PackLength(d: Bytes)
    ensures |Pack(d)| == (4 * |d| + 2) / 3
    decreases |d|
  {
    if |d| >= 3 {
      PackLength(d[3..]);
    }
  }

  /** The sextets a string of symbols spells, or None if any byte is outside the alphabet. */
  function Values(s: Bytes): (r: Option<seq<Sextet>>)
    ensures r.Some? <==> forall i :: 0 <= i < |s| ==> InAlphabet(s[i])
    ensures r.Some? ==> |r.value| == |s| && forall i :: 0 <= i < |s| ==> SymbolValue(s[i]) == Some(r.value[i])
    decreases |s|
  {
    if s == [] then Some([])
    else
      match (SymbolValue(s[0]), Values(s[1..]))
      case (Some(x), Some(xs)) => Some([x] + xs)
      case _ => None
  }

  /** Bytes from sextets: three per full group of four, one from a final pair,
      two from a final triple; a single left-over sextet is an error. The
      spare low bits of a final pair or triple are dropped unchecked. */
  function Unpack(v: seq<Sextet>): (r: Option<Bytes>)
    ensures r.Some? <==> |v| % 4 != 1
    decreases |v|
  {
    if |v| == 0 then Some([])
    else if |v| == 1 then None
    else
      var b0: Byte := (v[0] as int) * 4 + v[1] / 16;
      if |v| == 2 then Some([b0])
      else
        var b1: Byte := (v[1] as int % 16) * 16 + v[2] / 4;
        if |v| == 3 then Some([b0, b1])
        else
          var b2: Byte := (v[2] as int % 4) * 64 + v[3];
          match Unpack(v[4..])
          case None => None
          case Some(rest) => Some([b0, b1, b2] + rest)
  }

  predicate IsLineBreak(c: Byte) {
    c == NewLine || c == CarriageReturn
  }

  /** The string with every carriage return and line feed removed. */
  function StripLineBreaks(s: Bytes): (r: Bytes)
    ensures forall i :: 0 <= i < |r| ==> !IsLineBreak(r[i])
    ensures (forall i :: 0 <= i < |s| ==> !IsLineBreak(s[i])) ==> r == s
    decreases |s|
  {
    if s == [] then []
    else if IsLineBreak(s[0]) then StripLineBreaks(s[1..])
    else [s[0]] + StripLineBreaks(s[1..])
  }

  /** `DecodeString`: line breaks are skipped, then every remaining byte must
      be a symbol and their number must not leave a remainder of 1 modulo 4. */
  function DecodeString(s: Bytes): (r: Option<Bytes>)
    ensures var t := StripLineBreaks(s);
      r.Some? <==> (|t| % 4 != 1 && forall i :: 0 <= i < |t| ==> InAlphabet(t[i]))
  {
    match Values(StripLineBreaks(s))
    case None => None
    case Some(v) => Unpack(v)
  }

  /** Unpacking yields three bytes for every four sextets, rounded down. */
  lemma {:induction false} UnpackLength(v: seq<Sextet>)
    requires |v| % 4 != 1
    ensures |Unpack(v).value| == |v| * 3 / 4
    decreases |v|
  {
    if |v| >= 4 {
      UnpackLength(v[4..]);
    }
  }

  /** A decoded string has three bytes for every four symbols left after
      removing line breaks, rounded down. */
  lemma DecodedLength(s: Bytes)
    requires DecodeString(s).Some?
    ensures |DecodeString(s).value| == |StripLineBreaks(s)| * 3 / 4
  {
    UnpackLength(Values(StripLineBreaks(s)).value);
  }

  /** Reading back the symbols of an encoding gives the packed sextets. */
  lemma {:induction false} ValuesOfSymbols(v: seq<Sextet>, s: Bytes)
    requires |s| == |v| && forall i :: 0 <= i < |v| ==> s[i] == Symbol(v[i])
    ensures Values(s) == Some(v)
    decreases |v|
  {
    if v != [] {
      ValuesOfSymbols(v[1..], s[1..]);
      assert [v[0]] + v[1..] == v;
    }
  }

  /** Unpacking undoes packing, for every byte string. */
  lemma {:induction false} UnpackPack(d: Bytes)
    ensures Unpack(Pack(d)) == Some(d)
    decreases |d|
  {
    if |d| >= 3 {
      var v := Pack(d);
      assert v[4..] == Pack(d[3..]);
      UnpackPack(d[3..]);
      GroupRoundTrip(d[0], d[1], d[2]);
      assert [d[0], d[1], d[2]] + d[3..] == d;
    } else if |d| == 2 {
      assert [d[0], d[1]] == d;
    } else if |d| == 1 {
      assert [d[0]] == d;
    }
  }

  /** The arithmetic of one full group: its four sextets give back its three bytes. */
  lemma GroupRoundTrip(b0: Byte, b1: Byte, b2: Byte)
    ensures (b0 / 4) * 4 + ((b0 % 4) * 16 + b1 / 16) / 16 == b0
    ensures (((b0 % 4) * 16 + b1 / 16) % 16) * 16 + ((b1 % 16) * 4 + b2 / 64) / 4 == b1
    ensures (((b1 % 16) * 4 + b2 / 64) % 4) * 64 + b2 % 64 == b2
  {
  }

  /** Decoding an encoding gives back the bytes: `Encode` is injective and
      `DecodeString` is its left inverse. */
  lemma DecodeEncode(d: Bytes)
    ensures DecodeString(Encode(d)) == Some(d)
  {
    var s := Encode(d);
    assert forall i :: 0 <= i < |s| ==> !IsLineBreak(s[i]) by {
      forall i | 0 <= i < |s| ensures !IsLineBreak(s[i]) { assert InAlphabet(s[i]); }
    }
    assert StripLineBreaks(s) == s;
    ValuesOfSymbols(Pack(d), s);
    UnpackPack(d);
  }

  /** A packing of 3m + 2 bytes has 4m + 3 sextets, the last with its two
      spare low bits zero. */
  lemma {:induction false} PackTwoTrailing(d: Bytes)
    requires |d| % 3 == 2
    ensures |Pack(d)| % 4 == 3 && Pack(d)[|Pack(d)| - 1] % 4 == 0
    decreases |d|
  {
    if |d| >= 3 {
      PackTwoTrailing(d[3..]);
      PackStep(d);
      var n := |Pack(d[3..])|;
      assert (n + 4) % 4 == n % 4;
    } else {
      assert Pack(d)[2] == (d[1] % 16) * 4;
    }
  }

  /** A packing of three or more bytes is four sextets longer than that of
      the bytes after the first group, and ends the same way. */
  lemma PackStep(d: Bytes)
    requires |d| > 3
    ensures |Pack(d)| == 4 + |Pack(d[3..])| && |Pack(d[3..])| > 0
    ensures Pack(d)[|Pack(d)| - 1] == Pack(d[3..])[|Pack(d[3..])| - 1]
  {
  }

  /** Two sextet strings ending in a partial group, equal except in the spare
      low bits of their last sextet, decode to the same bytes. */
  lemma {:induction false} UnpackIgnoresSpareBits(v: seq<Sextet>, w: seq<Sextet>)
    requires |v| == |w| && (|v| % 4 == 2 || |v| % 4 == 3)
    requires v[..|v| - 1] == w[..|w| - 1]
    requires if |v| % 4 == 2 then v[|v| - 1] / 16 == w[|w| - 1] / 16 else v[|v| - 1] / 4 == w[|w| - 1] / 4
    ensures Unpack(v) == Unpack(w)
    decreases |v|
  {
    var n := |v| - 1;
    assert v[0] == v[..n][0] && w[0] == w[..n][0];
    if |v| > 4 {
      assert v[..4] == v[..n][..4] && w[..4] == w[..n][..4];
      assert v[4..][..n - 4] == v[..n][4..] && w[4..][..n - 4] == w[..n][4..];
      UnpackIgnoresSpareBits(v[4..], w[4..]);
      UnpackSameGroup(v, w);
    } else if |v| == 3 {
      assert v[1] == v[..n][1] && w[1] == w[..n][1];
    }
  }

  /** Two sextet strings with the same first group and equal unpacked rests unpack alike. */
  lemma UnpackSameGroup(v: seq<Sextet>, w: seq<Sextet>)
    requires |v| > 4 && |w| > 4 && v[..4] == w[..4] && Unpack(v[4..]) == Unpack(w[4..])
    ensures Unpack(v) == Unpack(w)
  {
    assert v[0] == v[..4][0] && v[1] == v[..4][1] && v[2] == v[..4][2] && v[3] == v[..4][3];
  }

  /** A string spelled symbol by symbol from sextets decodes as those sextets unpack. */
  lemma DecodeSpelled(w: seq<Sextet>, t: Bytes)
    requires |t| == |w| && forall i :: 0 <= i < |w| ==> t[i] == Symbol(w[i])
    ensures DecodeString(t) == Unpack(w)
  {
    assert forall i :: 0 <= i < |t| ==> InAlphabet(t[i]);
    assert StripLineBreaks(t) == t;
    ValuesOfSymbols(w, t);
  }

  /** The encoding of `d` with 1, 2 or 3 added to the value of its last symbol. */
  function Respelled(d: Bytes, k: int): (t: Bytes)
    requires |d| % 3 == 2 && 0 < k < 4
    ensures |t| == |Encode(d)|
  {
    var s := Encode(d);
    s[..|s| - 1] + [Symbol((Pack(d)[|s| - 1] / 4) * 4 + k)]
  }

  /** Every string of a length that ends in a partial group of two bytes has
      other spellings: adding 1, 2 or 3 to the last sextet gives a different
      string that decodes to the same bytes. */
  lemma SpareBitsIgnored(d: Bytes, k: int)
    requires |d| % 3 == 2 && 0 < k < 4
    ensures Respelled(d, k) != Encode(d)
    ensures DecodeString(Respelled(d, k)) == Some(d)
    ensures forall j :: 0 < j < 4 && j != k ==> Respelled(d, j) != Respelled(d, k)
  {
    forall j | 0 < j < 4 && j != k ensures Respelled(d, j) != Respelled(d, k) {
      RespellingsDistinct(d, j, k);
    }
    var w := SextetsRespelled(d, k);
    SpellingDiffers(Encode(d), Pack(d), Respelled(d, k), w);
    DecodeSpelled(w, Respelled(d, k));
  }

  /** Different amounts added to the last symbol give different strings. */
  lemma RespellingsDistinct(d: Bytes, k1: int, k2: int)
    requires |d| % 3 == 2 && 0 < k1 < 4 && 0 < k2 < 4 && k1 != k2
    ensures Respelled(d, k1) != Respelled(d, k2)
  {
    var n := |Encode(d)| - 1;
    var b := Pack(d)[n] / 4;
    assert Respelled(d, k1)[n] == Symbol(b * 4 + k1);
    assert Respelled(d, k2)[n] == Symbol(b * 4 + k2);
    assert SymbolValue(Respelled(d, k1)[n]) != SymbolValue(Respelled(d, k2)[n]);
  }

  /** The sextets of `d` with 1, 2 or 3 added to the last one still unpack to `d`. */
  lemma SextetsRespelled(d: Bytes, k: int) returns (w: seq<Sextet>)
    requires |d| % 3 == 2 && 0 < k < 4
    ensures var v := Pack(d);
      |w| == |v| && w[..|w| - 1] == v[..|v| - 1] && w[|w| - 1] == (v[|v| - 1] / 4) * 4 + k != v[|v| - 1]
    ensures Unpack(w) == Some(d)
  {
    var v := Pack(d);
    var n := |v| - 1;
    PackTwoTrailing(d);
    SpareRoom(v[n], k);
    var x: Sextet := (v[n] / 4) * 4 + k;
    w := v[..n] + [x];
    assert w[..n] == v[..n];
    UnpackIgnoresSpareBits(v, w);
    UnpackPack(d);
  }

  /** Adding less than 4 to a multiple of 4 keeps its quotient by 4. */
  lemma SpareRoom(y: Sextet, k: int)
    requires y % 4 == 0 && 0 < k < 4
    ensures (y / 4) * 4 + k == y + k < 64 && (y + k) / 4 == y / 4
  {
  }

  /** A string respelled in its last symbol from a different last sextet differs from the original. */
  lemma SpellingDiffers(s: Bytes, v: seq<Sextet>, t: Bytes, w: seq<Sextet>)
    requires |s| == |v| == |t| == |w| > 0
    requires forall i :: 0 <= i < |v| ==> s[i] == Symbol(v[i])
    requires t == s[..|s| - 1] + [Symbol(w[|w| - 1])]
    requires w[..|w| - 1] == v[..|v| - 1] && w[|w| - 1] != v[|v| - 1]
    ensures t != s
    ensures forall i :: 0 <= i < |w| ==> t[i] == Symbol(w[i])
  {
    var n := |s| - 1;
    assert SymbolValue(t[n]) == Some(w[n]);
    assert SymbolValue(s[n]) == Some(v[n]);
    forall i | 0 <= i < n ensures t[i] == Symbol(w[i]) {
      assert w[i] == w[..n][i] == v[..n][i] == v[i];
    }
  }

  /** Removing line breaks distributes over concatenation. */
  lemma {:induction false} StripLineBreaksAppend(a: Bytes, b: Bytes)
    ensures StripLineBreaks(a + b) == StripLineBreaks(a) + StripLineBreaks(b)
    decreases |a|
  {
    if a != [] {
      assert (a + b)[1..] == a[1..] + b;
      StripLineBreaksAppend(a[1..], b);
    } else {
      assert a + b == b;
    }
  }

  /** A line break inserted anywhere is skipped by the decoder. */
  lemma LineBreakIgnored(s: Bytes, k: nat, c: Byte)
    requires k <= |s| && IsLineBreak(c)
    ensures DecodeString(s[..k] + [c] + s[k..]) == DecodeString(s)
  {
    var pre, post := s[..k], s[k..];
    assert StripLineBreaks([c]) == [] by {
      assert [c][1..] == [];
    }
    calc {
      StripLineBreaks(pre + [c] + post);
      { StripLineBreaksAppend(pre + [c], post); }
      StripLineBreaks(pre + [c]) + StripLineBreaks(post);
      { StripLineBreaksAppend(pre, [c]); }
      StripLineBreaks(pre) + StripLineBreaks(post);
      { StripLineBreaksAppend(pre, post); }
      StripLineBreaks(pre + post);
      { assert pre + post == s; }
      StripLineBreaks(s);
    }
  }

}
