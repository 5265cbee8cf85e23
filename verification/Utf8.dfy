/** Texts as bytes: UTF-8 (section 3 of RFC 3629). */
module Utf8 {
  import opened Bytes
  import opened Wrappers

  // ---- Encoding ----

  /** How many bytes a codepoint takes, by its first; 0 for a byte no codepoint starts with. */
  function LeadLength(b: byte): nat {
    if b < 0x80 then 1
    else if b < 0xC0 then 0
    else if b < 0xE0 then 2
    else if b < 0xF0 then 3
    else if b < 0xF8 then 4
    else 0
  }

  predicate IsContinuation(b: byte) {
    0x80 <= b < 0xC0
  }

  function Tail(v: nat): (b: byte)
    ensures IsContinuation(b)
  {
    (0x80 + v % 64) as byte
  }

  /** One codepoint: a leading byte and up to three continuation bytes. */
  function EncodeChar(c: char): (s: seq<byte>)
    ensures 1 <= |s| == LeadLength(s[0]) && !IsContinuation(s[0])
    ensures forall i | 0 < i < |s| :: IsContinuation(s[i])
  {
    var v := c as int;
    if v < 0x80 then [v as byte]
    else if v < 0x800 then [(0xC0 + v / 64) as byte, Tail(v)]
    else if v < 0x1_0000 then [(0xE0 + v / 4096) as byte, Tail(v / 64), Tail(v)]
    else [(0xF0 + v / 262144) as byte, Tail(v / 4096), Tail(v / 64), Tail(v)]
  }

  /** One codepoint of each length. */
  lemma EncodedByExample()
    ensures EncodeChar('A') == [0x41] && EncodeChar('\U{E9}') == [0xC3, 0xA9]
    ensures EncodeChar('\U{20AC}') == [0xE2, 0x82, 0xAC] && EncodeChar('\U{1F600}') == [0xF0, 0x9F, 0x98, 0x80]
  {
    assert '\U{1F600}' as int == 0x1F600;
  }

  function Encode(s: string): seq<byte> {
    if s == "" then [] else EncodeChar(s[0]) + Encode(s[1..])
  }

  /** A position that does not fall inside a codepoint. */
  predicate IsCharBoundary(b: seq<byte>, i: nat) {
    i == 0 || i == |b| || (i < |b| && !IsContinuation(b[i]))
  }

  lemma {:induction false} EncodeConcat(a: string, b: string)
    ensures Encode(a + b) == Encode(a) + Encode(b)
  {
    if a == "" {
      assert a + b == b;
    } else {
      var first, rest := EncodeChar(a[0]), a[1..];
      calc {
        Encode(a + b);
        { assert (a + b)[1..] == rest + b; }
        first + Encode(rest + b);
        { EncodeConcat(rest, b); }
        first + (Encode(rest) + Encode(b));
        Encode(a) + Encode(b);
      }
    }
  }

  lemma EncodePrefix(s: string, k: nat)
    requires k <= |s|
    ensures |Encode(s[..k])| <= |Encode(s)|
    ensures Encode(s)[..|Encode(s[..k])|] == Encode(s[..k])
  {
    assert s == s[..k] + s[k..];
    EncodeConcat(s[..k], s[k..]);
  }

  lemma LongerPrefixIsLonger(s: string, j: nat, k: nat)
    requires j < k <= |s|
    ensures |Encode(s[..j])| < |Encode(s[..k])|
  {
    assert s[..k] == s[..j] + s[j..k];
    EncodeConcat(s[..j], s[j..k]);
  }

  lemma EncodeFirst(s: string, k: nat)
    requires 0 < k <= |s|
    ensures |Encode(s[..k])| == |EncodeChar(s[0])| + |Encode(s[1..][..k - 1])|
  {
    assert s[..k][1..] == s[1..][..k - 1];
  }

  /** The boundaries of an encoded text are exactly the ends of its whole-codepoint prefixes. */
  lemma {:induction false} BoundariesAreWhole(s: string, end: nat)
    requires end <= |Encode(s)|
    ensures IsCharBoundary(Encode(s), end) <==> exists k :: 0 <= k <= |s| && end == |Encode(s[..k])|
  {
    if end == 0 {
      assert |Encode(s[..0])| == 0;
    } else {
      var first := |EncodeChar(s[0])|;
      if end < first {
        forall k | 0 <= k <= |s| ensures end != |Encode(s[..k])| {
          if k > 0 { EncodeFirst(s, k); }
        }
      } else {
        BoundariesAreWhole(s[1..], end - first);
        assert end < |Encode(s)| ==> Encode(s)[end] == Encode(s[1..])[end - first];
        assert end == first ==> IsCharBoundary(Encode(s), end) by {
          assert s[1..] != "" ==> Encode(s[1..])[0] == EncodeChar(s[1])[0];
        }
        if k :| 0 <= k <= |s[1..]| && end - first == |Encode(s[1..][..k])| {
          EncodeFirst(s, k + 1);
        }
        if k :| 0 <= k <= |s| && end == |Encode(s[..k])| {
          EncodeFirst(s, k);
        }
      }
    }
  }

  lemma LongerOrEqual(s: string, j: nat, k: nat)
    requires j <= k <= |s|
    ensures |Encode(s[..j])| <= |Encode(s[..k])|
  {
    if j < k { LongerPrefixIsLonger(s, j, k); }
  }

  // ---- Decoding ----

  /** The number its bytes spell. */
  function CodePoint(b: seq<byte>): int
    requires 1 <= |b| <= 4
  {
    if |b| == 1 then b[0] as int
    else if |b| == 2 then (b[0] as int - 0xC0) * 64 + (b[1] as int - 0x80)
    else if |b| == 3 then (b[0] as int - 0xE0) * 4096 + (b[1] as int - 0x80) * 64 + (b[2] as int - 0x80)
    else (b[0] as int - 0xF0) * 262144 + (b[1] as int - 0x80) * 4096 + (b[2] as int - 0x80) * 64 + (b[3] as int - 0x80)
  }

  /** The first codepoint, if it is well formed: neither cut off, nor a surrogate, nor too large,
      nor spelled longer than need be. */
  function DecodeChar(b: seq<byte>): (r: Option<char>)
    requires b != []
    ensures r.Some? ==> EncodeChar(r.value) <= b
  {
    var n := LeadLength(b[0]);
    if n == 0 || n > |b| then None
    else
      var v := CodePoint(b[..n]);
      if (0 <= v < 0xD800 || 0xE000 <= v < 0x11_0000) && EncodeChar(v as char) == b[..n] then Some(v as char) else None
  }

  function Decode(b: seq<byte>): Option<string>
    decreases |b|
  {
    if b == [] then Some("")
    else
      match DecodeChar(b)
      case None => None
      case Some(c) =>
        match Decode(b[|EncodeChar(c)|..])
        case None => None
        case Some(t) => Some([c] + t)
  }

  lemma SixBitGroups(v: nat)
    ensures v == 64 * (v / 64) + v % 64
    ensures v / 4096 == v / 64 / 64 && v / 262144 == v / 64 / 64 / 64
  {
  }

  lemma CodePointBack(c: char)
    ensures CodePoint(EncodeChar(c)) == c as int
  {
    var v := c as int;
    var a, b := v / 64, v / 64 / 64;
    SixBitGroups(v);
    SixBitGroups(a);
    SixBitGroups(b);
    var e := EncodeChar(c);
    if v < 0x80 {
    } else if v < 0x800 {
      assert e == [(0xC0 + a) as byte, Tail(v)];
    } else if v < 0x1_0000 {
      assert e == [(0xE0 + b) as byte, Tail(a), Tail(v)];
    } else {
      assert e == [(0xF0 + b / 64) as byte, Tail(b), Tail(a), Tail(v)];
    }
  }

  lemma DecodeCharBack(c: char, rest: seq<byte>)
    ensures DecodeChar(EncodeChar(c) + rest) == Some(c)
  {
    CodePointBack(c);
    var b := EncodeChar(c) + rest;
    assert b[..LeadLength(b[0])] == EncodeChar(c);
  }

  lemma DecodeCons(c: char, rest: seq<byte>, t: string)
    requires Decode(rest) == Some(t)
    ensures Decode(EncodeChar(c) + rest) == Some([c] + t)
  {
    DecodeCharBack(c, rest);
    assert (EncodeChar(c) + rest)[|EncodeChar(c)|..] == rest;
  }

  lemma {:induction false} DecodeInverts(t: string)
    ensures Decode(Encode(t)) == Some(t)
  {
    if t != "" {
      DecodeInverts(t[1..]);
      DecodeCons(t[0], Encode(t[1..]), t[1..]);
      assert t == [t[0]] + t[1..];
    }
  }

  lemma {:induction false} DecodedEncodes(b: seq<byte>)
    ensures Decode(b).Some? ==> Encode(Decode(b).value) == b
    decreases |b|
  {
    if b != [] && DecodeChar(b).Some? {
      var c := DecodeChar(b).value;
      var rest := b[|EncodeChar(c)|..];
      DecodedEncodes(rest);
      assert b == EncodeChar(c) + rest;
      if Decode(rest).Some? { assert ([c] + Decode(rest).value)[1..] == Decode(rest).value; }
    }
  }

  /** Exactly the encodings of texts decode, each to its text. */
  lemma DecodesExactly(b: seq<byte>, t: string)
    ensures Decode(b) == Some(t) <==> Encode(t) == b
  {
    DecodeInverts(t);
    DecodedEncodes(b);
  }

  lemma {:induction false} PrefixTexts(s: string, t: string)
    requires Encode(t) <= Encode(s)
    ensures t <= s
  {
    if t != "" {
      var a, b := Encode(s), Encode(t);
      assert b[0] == EncodeChar(t[0])[0] == a[0] == EncodeChar(s[0])[0];
      assert b[..LeadLength(b[0])] == EncodeChar(t[0]) && a[..LeadLength(b[0])] == EncodeChar(s[0]);
      assert a[..LeadLength(b[0])] == b[..LeadLength(b[0])];
      CodePointBack(s[0]);
      CodePointBack(t[0]);
      var n := |EncodeChar(t[0])|;
      assert b[n..] == Encode(t[1..]) && a[n..] == Encode(s[1..]);
      PrefixTexts(s[1..], t[1..]);
    }
  }

  /** The start of an encoded text is a text exactly when it is cut between codepoints, and then
      it is the start of that text. */
  lemma CutIsText(s: string, n: nat)
    requires n <= |Encode(s)|
    ensures Decode(Encode(s)[..n]).Some? <==> IsCharBoundary(Encode(s), n)
    ensures Decode(Encode(s)[..n]).Some? ==> Decode(Encode(s)[..n]).value <= s
  {
    var cut := Encode(s)[..n];
    BoundariesAreWhole(s, n);
    if Decode(cut).Some? {
      var t := Decode(cut).value;
      DecodedEncodes(cut);
      PrefixTexts(s, t);
      assert s[..|t|] == t;
    }
    if k :| 0 <= k <= |s| && n == |Encode(s[..k])| {
      EncodePrefix(s, k);
      DecodeInverts(s[..k]);
    }
  }
}
