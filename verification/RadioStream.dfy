/** Framing on the Meshtastic byte stream: two start bytes, a big-endian length, the payload.

  Payloads are bytes; what protobuf makes of them is not part of this model.
*/
module RadioStream {
  import opened Bytes
  import opened Wrappers

  const START1: byte := 0x94
  const START2: byte := 0xc3
  const MAX_PROTO_LEN := 512
  const MAX_U16 := 65535

  // ---- Writing ----

  function WrapToRadio(payload: seq<byte>): (wire: seq<byte>)
    ensures |wire| == 4 + |payload| && wire[4..] == payload
    ensures wire[0] == 0x94 && wire[1] == 0xc3
    ensures |payload| <= 0xFFFF ==> 256 * wire[2] as int + wire[3] as int == |payload|
  {
    var len := if |payload| < MAX_U16 then |payload| else MAX_U16;
    [START1, START2, (len / 256) as byte, (len % 256) as byte] + payload
  }

  class Writer {
    var sent: seq<byte>

    constructor()
      ensures sent == []
    {
      sent := [];
    }

    /** Nothing goes out unless the whole frame may. */
    method WriteToRadio(payload: seq<byte>) returns (ok: bool)
      modifies this
      ensures ok <==> |payload| <= 512
      ensures sent == old(sent) + if ok then WrapToRadio(payload) else []
    {
      var wire := WrapToRadio(payload);
      if |wire| - 4 > MAX_PROTO_LEN { return false; }
      sent := sent + wire;
      return true;
    }
  }

  // ---- Reading ----

  /** What follows the first header the scan finds. A start byte commits the scan to the next
      byte, whatever it is. */
  function Scan(s: seq<byte>): Option<seq<byte>> {
    if s == [] then None
    else if s[0] != START1 then Scan(s[1..])
    else if |s| == 1 then None
    else if s[1] == START2 then Some(s[2..])
    else Scan(s[2..])
  }

  datatype Received = Frame(payload: seq<byte>, rest: seq<byte>) | TooLong(len: nat, rest: seq<byte>) | Eof

  function Parse(s: seq<byte>): Received {
    match Scan(s)
    case None => Eof
    case Some(t) =>
      if |t| < 2 then Eof
      else
        var len := 256 * t[0] as int + t[1] as int;
        if len > MAX_PROTO_LEN then TooLong(len, t[2..])
        else if |t| - 2 < len then Eof
        else Frame(t[2..2 + len], t[2 + len..])
  }

  /** The device end: what has not been read yet. At the end of input a read takes what is left. */
  class Reader {
    var rest: seq<byte>

    constructor(bytes: seq<byte>)
      ensures rest == bytes
    {
      rest := bytes;
    }

    method ReadExact(n: nat) returns (r: Option<seq<byte>>)
      modifies this
      ensures r == if n <= |old(rest)| then Some(old(rest)[..n]) else None
      ensures rest == if n <= |old(rest)| then old(rest)[n..] else []
    {
      if n > |rest| {
        rest := [];
        return None;
      }
      r := Some(rest[..n]);
      rest := rest[n..];
    }

    method ReadFromRadio() returns (r: Received)
      modifies this
      ensures r == Parse(old(rest))
      ensures rest == if r.Eof? then [] else r.rest
    {
      while true
        invariant Scan(rest) == Scan(old(rest))
        decreases |rest|
      {
        var b := ReadExact(1);
        if b.None? { return Eof; }
        if b.value[0] != START1 { continue; }
        b := ReadExact(1);
        if b.None? { return Eof; }
        if b.value[0] == START2 { break; }
      }
      var header := ReadExact(2);
      if header.None? { return Eof; }
      var len := 256 * header.value[0] as int + header.value[1] as int;
      if len > MAX_PROTO_LEN { return TooLong(len, rest); }
      var payload := ReadExact(len);
      if payload.None? { return Eof; }
      return Frame(payload.value, rest);
    }
  }

  // ---- Round trips ----

  /** A written frame is read back, and nothing after it is touched. */
  lemma FrameRoundTrip(payload: seq<byte>, rest: seq<byte>)
    requires |payload| <= MAX_PROTO_LEN
    ensures Parse(WrapToRadio(payload) + rest) == Frame(payload, rest)
  {
    var s := WrapToRadio(payload) + rest;
    assert Scan(s) == Some(s[2..]);
    assert s[4..] == payload + rest;
    assert s[2..][2..2 + |payload|] == payload;
    assert s[2..][2 + |payload|..] == rest;
  }

  function Stream(payloads: seq<seq<byte>>): seq<byte> {
    if payloads == [] then [] else WrapToRadio(payloads[0]) + Stream(payloads[1..])
  }

  lemma ParseConsumes(s: seq<byte>)
    ensures Parse(s).Frame? ==> |Parse(s).rest| + 4 + |Parse(s).payload| <= |s|
  {
    ScanConsumes(s);
  }

  lemma {:induction false} ScanConsumes(s: seq<byte>)
    ensures Scan(s).Some? ==> |Scan(s).value| + 2 <= |s|
  {
    if s == [] {
    } else if s[0] != START1 {
      ScanConsumes(s[1..]);
    } else if |s| > 1 && s[1] != START2 {
      ScanConsumes(s[2..]);
    }
  }

  /** All that reading again and again returns, up to the first read that is no frame. */
  function Payloads(s: seq<byte>): seq<seq<byte>>
    decreases |s|
  {
    ParseConsumes(s);
    match Parse(s)
    case Frame(payload, rest) => [payload] + Payloads(rest)
    case _ => []
  }

  /** What is left when a read returns no frame. */
  function Unread(s: seq<byte>): seq<byte>
    decreases |s|
  {
    ParseConsumes(s);
    if Parse(s).Frame? then Unread(Parse(s).rest) else s
  }

  /** Reading what was written returns exactly the payloads, in order, and takes every byte. */
  lemma {:induction false} StreamRoundTrip(payloads: seq<seq<byte>>)
    requires forall p | p in payloads :: |p| <= MAX_PROTO_LEN
    ensures Payloads(Stream(payloads)) == payloads && Unread(Stream(payloads)) == []
  {
    if payloads != [] {
      FrameRoundTrip(payloads[0], Stream(payloads[1..]));
      StreamRoundTrip(payloads[1..]);
    }
  }

  // ---- Noise ----

  /** The scan takes all of the noise, finds no header in it and is back where it started. */
  predicate EndsIdle(noise: seq<byte>) {
    noise == []
    || (if noise[0] != START1 then EndsIdle(noise[1..])
        else |noise| > 1 && noise[1] != START2 && EndsIdle(noise[2..]))
  }

  lemma {:induction false} IdleNoiseIsSkipped(noise: seq<byte>, s: seq<byte>)
    requires EndsIdle(noise)
    ensures Scan(noise + s) == Scan(s)
  {
    if noise == [] {
      assert noise + s == s;
    } else if noise[0] != START1 {
      IdleNoiseIsSkipped(noise[1..], s);
      assert (noise + s)[1..] == noise[1..] + s;
    } else {
      IdleNoiseIsSkipped(noise[2..], s);
      assert (noise + s)[2..] == noise[2..] + s;
    }
  }

  /** The scan skips noise that ends idle up to a header. */
  lemma {:induction false} ScanFinds(s: seq<byte>) returns (noise: seq<byte>)
    requires Scan(s).Some?
    ensures EndsIdle(noise) && s == noise + ([START1, START2] + Scan(s).value)
  {
    if s[0] != START1 {
      var rest := ScanFinds(s[1..]);
      noise := [s[0]] + rest;
      assert noise[1..] == rest;
    } else if s[1] == START2 {
      noise := [];
      assert s == [START1, START2] + s[2..];
    } else {
      var rest := ScanFinds(s[2..]);
      noise := s[..2] + rest;
      assert noise[2..] == rest;
    }
  }

  lemma HeaderSpells(high: byte, low: byte, payload: seq<byte>)
    requires |payload| == 256 * high as int + low as int <= 512
    ensures WrapToRadio(payload) == [START1, START2, high, low] + payload
  {
  }

  lemma FrameWasWrapped(t: seq<byte>, payload: seq<byte>, rest: seq<byte>)
    requires |t| >= 2 && |payload| == 256 * t[0] as int + t[1] as int <= 512 && t[2..] == payload + rest
    ensures [START1, START2] + t == WrapToRadio(payload) + rest
  {
    HeaderSpells(t[0], t[1], payload);
    assert t == [t[0], t[1]] + t[2..];
  }

  /** What is read was written: a frame is returned exactly if the stream is idle noise, that
      very frame and the rest, with a payload that may be sent. */
  lemma ReadIsWritten(s: seq<byte>, payload: seq<byte>, rest: seq<byte>)
    ensures Parse(s) == Frame(payload, rest) <==>
            |payload| <= 512 && exists noise :: IsFrameAfter(noise, s, payload, rest)
  {
    if Parse(s) == Frame(payload, rest) {
      var noise := ScanFinds(s);
      var t := Scan(s).value;
      assert t[2..] == payload + rest;
      FrameWasWrapped(t, payload, rest);
      assert IsFrameAfter(noise, s, payload, rest);
    }
    if |payload| <= 512 {
      if noise :| IsFrameAfter(noise, s, payload, rest) {
        IdleNoiseIsSkipped(noise, WrapToRadio(payload) + rest);
        FrameRoundTrip(payload, rest);
      }
    }
  }

  predicate IsFrameAfter(noise: seq<byte>, s: seq<byte>, payload: seq<byte>, rest: seq<byte>) {
    EndsIdle(noise) && s == noise + (WrapToRadio(payload) + rest)
  }

  /** A frame that is cut off is never returned, however much of it has come. */
  lemma CutFrameIsEof(noise: seq<byte>, payload: seq<byte>, n: nat)
    requires EndsIdle(noise) && |payload| <= 512 && n < |WrapToRadio(payload)|
    ensures Parse(noise + WrapToRadio(payload)[..n]) == Eof
  {
    var cut := WrapToRadio(payload)[..n];
    IdleNoiseIsSkipped(noise, cut);
    if n >= 2 {
      assert Scan(cut) == Some(cut[2..]);
    }
  }

  /** Noise without a header that does not end idle ends on a start byte, which swallows the
      byte that follows. */
  lemma {:induction false} DanglingStartSwallows(noise: seq<byte>, s: seq<byte>)
    requires Scan(noise) == None && !EndsIdle(noise)
    requires s != [] && s[0] != START2
    ensures Scan(noise + s) == Scan(s[1..])
  {
    if noise[0] != START1 {
      DanglingStartSwallows(noise[1..], s);
      assert (noise + s)[1..] == noise[1..] + s;
    } else if |noise| == 1 {
      assert (noise + s)[2..] == s[1..];
    } else {
      DanglingStartSwallows(noise[2..], s);
      assert (noise + s)[2..] == noise[2..] + s;
    }
  }

  /** How many start bytes the noise ends in. */
  function TrailingStarts(noise: seq<byte>): nat {
    if noise != [] && noise[|noise| - 1] == START1 then 1 + TrailingStarts(noise[..|noise| - 1]) else 0
  }

  lemma {:induction false} TrailingAfter(b: byte, rest: seq<byte>)
    ensures TrailingStarts(rest) <= |rest|
    ensures TrailingStarts([b] + rest)
         == if TrailingStarts(rest) < |rest| || b != START1 then TrailingStarts(rest) else |rest| + 1
  {
    var s := [b] + rest;
    if rest == [] {
      assert s[..0] == [];
    } else {
      var front := rest[..|rest| - 1];
      assert s[..|s| - 1] == [b] + front;
      TrailingAfter(b, front);
    }
  }

  /** A start byte and the byte after it add two to the run or nothing. */
  lemma StartAndNext(b: byte, rest: seq<byte>)
    ensures TrailingStarts([START1] + ([b] + rest)) == TrailingStarts(rest)
         || TrailingStarts([START1] + ([b] + rest)) == TrailingStarts(rest) + 2
  {
    TrailingAfter(b, rest);
    TrailingAfter(START1, [b] + rest);
  }

  /** Noise without a header is taken back to the start exactly if it ends in an even number of
      start bytes: each commits the scan to the next. */
  lemma {:induction false} IdleExactlyWhenEven(noise: seq<byte>)
    requires Scan(noise) == None
    ensures EndsIdle(noise) <==> TrailingStarts(noise) % 2 == 0
  {
    if noise == [] {
    } else if noise[0] != START1 {
      IdleExactlyWhenEven(noise[1..]);
      TrailingAfter(noise[0], noise[1..]);
      assert noise == [noise[0]] + noise[1..];
    } else if |noise| == 1 {
      assert noise[..0] == [];
    } else {
      IdleExactlyWhenEven(noise[2..]);
      StartAndNext(noise[1], noise[2..]);
      assert noise == [START1] + ([noise[1]] + noise[2..]);
    }
  }

  /** A frame behind headerless noise is read intact exactly when the noise ends in an even number
      of start bytes. */
  lemma FrameAfterNoise(noise: seq<byte>, payload: seq<byte>, rest: seq<byte>)
    requires |payload| <= MAX_PROTO_LEN && Scan(noise) == None
    ensures Parse(noise + (WrapToRadio(payload) + rest)) == Frame(payload, rest) <==> TrailingStarts(noise) % 2 == 0
  {
    var s := WrapToRadio(payload) + rest;
    IdleExactlyWhenEven(noise);
    if EndsIdle(noise) {
      IdleNoiseIsSkipped(noise, s);
      FrameRoundTrip(payload, rest);
    } else {
      DanglingStartSwallows(noise, s);
      ParseConsumes(s[1..]);
      assert Parse(noise + s) == Parse(s[1..]);
    }
  }

  /** One start byte of noise is enough: the frame behind it is lost. */
  lemma StrayStartByteLosesTheFrame()
    ensures Parse([START1] + WrapToRadio([])) == Eof
  {
    var s := [START1] + WrapToRadio([]);
    assert s[2..] == [START2, 0, 0];
    assert Scan(s) == Scan(s[2..]);
    assert s[2..][1..] == [0, 0] && [0, 0][1..] == [0];
  }

  /** A length above the limit is always refused, whatever follows it. */
  lemma OverlongIsRefused(noise: seq<byte>, high: byte, low: byte, rest: seq<byte>)
    requires EndsIdle(noise) && 256 * high as int + low as int > 512
    ensures Parse(noise + ([START1, START2, high, low] + rest)) == TooLong(256 * high as int + low as int, rest)
  {
    var s := [START1, START2, high, low] + rest;
    IdleNoiseIsSkipped(noise, s);
    assert Scan(s) == Some(s[2..]);
    assert s[2..][2..] == rest;
  }

  /** Nothing else is refused. */
  lemma RefusedIsOverlong(s: seq<byte>) returns (noise: seq<byte>, high: byte, low: byte)
    requires Parse(s).TooLong?
    ensures EndsIdle(noise) && Parse(s).len == 256 * high as int + low as int > 512
    ensures s == noise + ([START1, START2, high, low] + Parse(s).rest)
  {
    noise := ScanFinds(s);
    var t := Scan(s).value;
    high, low := t[0], t[1];
    assert [START1, START2] + t == [START1, START2, high, low] + t[2..];
  }
}
