/** The MQTT 3.1.1 packet codec of treeminer/server/broker.py and of its peer, the client in
    treeminer/server/simulator.py.  A topic is its UTF-8 bytes. */
module MqttCodec {

  type Byte = x: int | 0 <= x < 256
  type Bytes = seq<Byte>

  const PUBLISH := 3
  const SUBSCRIBE := 8
  const UNSUBSCRIBE := 10
  const DISCONNECT := 14

  datatype Result<+T> = Ok(value: T) | Err(error: Error)
  datatype Error =
    TopicTooLong | IncompleteLength | IncompleteString | NotUtf8 | NoPacketId | NoQos | TooManyFilters | BadPayload

  datatype Message = Message(topic: Bytes, qos: nat, packetId: nat, payload: Bytes)

  // ----- Remaining Length (section 2.2.3 of MQTT 3.1.1)

  /** Base-128 digits, least significant first, all but the last with the continuation bit. */
  function RemainingLength(n: nat): (b: Bytes)
    ensures |b| >= 1
  {
    if n < 128 then [n] else [n % 128 + 128] + RemainingLength(n / 128)
  }

  method EncodeRemainingLength(length: nat) returns (out: Bytes)
    ensures out == RemainingLength(length)
  {
    out := [];
    var rest := length;
    while true
      invariant out + RemainingLength(rest) == RemainingLength(length)
      decreases rest
    {
      var digit := rest % 128;
      ghost var before := rest;
      rest := rest / 128;
      if rest > 0 {
        digit := digit + 128;
      }
      assert rest > 0 ==> RemainingLength(before) == [digit] + RemainingLength(rest);
      out := out + [digit];
      if rest == 0 {
        break;
      }
    }
  }

  /** The length at the front of `data` and how many bytes it takes, if it is complete. */
  function DecodeLength(data: Bytes): (r: Result<(nat, nat)>)
    ensures r.Ok? ==> 1 <= r.value.1 <= |data|
  {
    if data == [] then Err(IncompleteLength)
    else if data[0] < 128 then Ok((data[0], 1))
    else
      match DecodeLength(data[1..])
      case Err(e) => Err(e)
      case Ok((value, used)) => Ok((data[0] % 128 + 128 * value, used + 1))
  }

  /** The answer for a whole length field when `value` and `multiplier` account for `used` of its bytes. */
  function Continue(value: nat, multiplier: nat, used: nat, r: Result<(nat, nat)>): Result<(nat, nat)> {
    match r
    case Err(e) => Err(e)
    case Ok((v, n)) => Ok((value + multiplier * v, used + n))
  }

  lemma {:induction false} ContinueStart(data: Bytes)
    ensures Continue(0, 1, 0, DecodeLength(data)) == DecodeLength(data)
  {
  }

  lemma {:induction false} ContinueEnd(value: nat, multiplier: nat, used: nat, data: Bytes)
    requires data == [] || data[0] < 128
    ensures Continue(value, multiplier, used, DecodeLength(data)) ==
            if data == [] then Err(IncompleteLength) else Ok((value + data[0] % 128 * multiplier, used + 1))
  {
    assert data != [] ==> multiplier * data[0] == data[0] * multiplier;
  }

  lemma {:induction false} ContinueStep(value: nat, multiplier: nat, used: nat, data: Bytes)
    requires data != [] && data[0] >= 128
    ensures Continue(value, multiplier, used, DecodeLength(data))
         == Continue(value + data[0] % 128 * multiplier, multiplier * 128, used + 1, DecodeLength(data[1..]))
  {
    match DecodeLength(data[1..])
    case Err(_) =>
    case Ok((v, n)) =>
      assert multiplier * (data[0] % 128 + 128 * v) == data[0] % 128 * multiplier + multiplier * 128 * v;
  }

  method DecodeRemainingLength(data: Bytes, offset: nat) returns (r: Result<(nat, nat)>)
    requires offset <= |data|
    ensures r == DecodeLength(data[offset..])
  {
    hide Continue; hide DecodeLength;
    var multiplier: nat, value: nat, idx := 1, 0, offset;
    ContinueStart(data[offset..]);
    while true
      invariant offset <= idx <= |data|
      invariant DecodeLength(data[offset..]) == Continue(value, multiplier, idx - offset, DecodeLength(data[idx..]))
      decreases |data| - idx
    {
      if idx >= |data| {
        ContinueEnd(value, multiplier, idx - offset, data[idx..]);
        return Err(IncompleteLength);
      }
      var encoded := data[idx];
      assert data[idx..][1..] == data[idx + 1..];
      if encoded >= 128 {
        ContinueStep(value, multiplier, idx - offset, data[idx..]);
      } else {
        ContinueEnd(value, multiplier, idx - offset, data[idx..]);
      }
      value := value + encoded % 128 * multiplier;
      idx := idx + 1;
      if encoded < 128 {
        break;
      }
      multiplier := multiplier * 128;
    }
    r := Ok((value, idx - offset));
  }

  /** Decoding undoes encoding, whatever follows. */
  lemma {:induction false} LengthRoundTrip(n: nat, rest: Bytes)
    ensures DecodeLength(RemainingLength(n) + rest) == Ok((n, |RemainingLength(n)|))
  {
    var s := RemainingLength(n) + rest;
    if n >= 128 {
      LengthRoundTrip(n / 128, rest);
      assert s[1..] == RemainingLength(n / 128) + rest;
    }
  }

  function Power128(k: nat): (p: nat)
    ensures p >= 1
  {
    if k == 0 then 1 else 128 * Power128(k - 1)
  }

  /** The number of length bytes is the number of base-128 digits. */
  lemma {:induction false} LengthBytes(n: nat, k: nat)
    requires k >= 1
    ensures |RemainingLength(n)| <= k <==> n < Power128(k)
  {
    if n >= 128 && k > 1 {
      LengthBytes(n / 128, k - 1);
    }
  }

  /** The sum of the bytes of a length field, each without its top bit and with its weight. */
  function Weighed(s: Bytes): nat {
    if s == [] then 0 else Weighed(s[..|s| - 1]) + s[|s| - 1] % 128 * Power128(|s| - 1)
  }

  lemma {:induction false} WeighedHead(s: Bytes)
    requires s != []
    ensures Weighed(s) == s[0] % 128 + 128 * Weighed(s[1..])
  {
    if |s| == 1 {
      assert s[..0] == [] && s[1..] == [];
      assert Power128(0) == 1;
    } else {
      var init := s[..|s| - 1];
      WeighedHead(init);
      assert s[1..][..|s| - 2] == init[1..];
      var d := s[|s| - 1] % 128;
      var w := Power128(|s| - 2);
      assert Power128(|s| - 1) == 128 * w;
      assert d * (128 * w) == 128 * (d * w);
    }
  }

  /** What a length field means, whoever wrote it: it ends at the first byte without the top bit, and its
      value is that sum. */
  lemma {:induction false} LengthMeans(data: Bytes)
    ensures var r := DecodeLength(data);
            && (r.Ok? <==> exists i :: 0 <= i < |data| && data[i] < 128)
            && (r.Ok? ==> var k := r.value.1;
                  && data[k - 1] < 128 && (forall i :: 0 <= i < k - 1 ==> data[i] >= 128)
                  && r.value.0 == Weighed(data[..k]))
  {
    if data != [] {
      if data[0] >= 128 {
        LengthMeans(data[1..]);
        assert forall i :: 1 <= i < |data| ==> data[i] == data[1..][i - 1];
        var r := DecodeLength(data[1..]);
        if r.Ok? {
          var k := r.value.1;
          assert data[1..][k - 1] < 128;
          WeighedHead(data[..k + 1]);
          assert data[..k + 1][1..] == data[1..][..k];
        }
      } else {
        WeighedHead(data[..1]);
        assert data[..1][1..] == [];
      }
    }
  }

  /** An encoded length weighs what it should, has the top bit set on all bytes but the last, and does not
      end in a needless zero. */
  lemma {:induction false} LengthShape(n: nat)
    ensures var b := RemainingLength(n);
            && Weighed(b) == n && b[|b| - 1] < 128 && (forall i :: 0 <= i < |b| - 1 ==> b[i] >= 128)
            && (|b| > 1 ==> b[|b| - 1] > 0)
  {
    hide Weighed; hide DecodeLength;
    var b := RemainingLength(n);
    LengthRoundTrip(n, []);
    LengthMeans(b);
    assert b + [] == b && b[..|b|] == b;
    LastDigit(n);
  }

  lemma {:induction false} LastDigit(n: nat)
    ensures var b := RemainingLength(n); |b| > 1 ==> b[|b| - 1] > 0
  {
    if n >= 128 {
      LastDigit(n / 128);
    }
  }

  /** The examples of section 2.2.3. */
  lemma {:induction false} LengthExamples()
    ensures RemainingLength(0) == [0x00] && RemainingLength(64) == [0x40] && RemainingLength(127) == [0x7F]
    ensures RemainingLength(128) == [0x80, 0x01] && RemainingLength(321) == [0xC1, 0x02]
    ensures RemainingLength(16383) == [0xFF, 0x7F] && RemainingLength(16384) == [0x80, 0x80, 0x01]
  {
    assert RemainingLength(1) == [1] && RemainingLength(2) == [2];
    assert RemainingLength(128 / 128) == [1] && RemainingLength(321 / 128) == [2];
    assert RemainingLength(16383 / 128) == [0x7F];
    assert RemainingLength(16384 / 128) == [0x80, 0x01];
  }

  /** Section 2.2.3 allows four bytes, which is exactly up to 268 435 455. */
  lemma {:induction false} FourLengthBytes(n: nat)
    ensures |RemainingLength(n)| <= 4 <==> n <= 268_435_455
  {
    LengthBytes(n, 4);
    assert Power128(4) == 128 * (128 * (128 * (128 * Power128(0))));
  }

  // ----- Strings (section 1.5.3)

  /** Most significant byte first (section 1.5.2). */
  function U16(n: nat): (b: Bytes)
    requires n < 65536
    ensures |b| == 2 && 256 * (b[0] as int) + b[1] == n
  {
    [n / 256, n % 256]
  }

  function FromU16(hi: Byte, lo: Byte): nat {
    256 * (hi as int) + lo
  }

  predicate Continuation(b: Byte) { 0x80 <= b <= 0xBF }

  /** Well-formed UTF-8 as in section 4 of RFC 3629. */
  predicate ValidUtf8(s: Bytes) {
    if s == [] then true
    else if s[0] < 0x80 then ValidUtf8(s[1..])
    else if 0xC2 <= s[0] <= 0xDF then |s| >= 2 && Continuation(s[1]) && ValidUtf8(s[2..])
    else if 0xE0 <= s[0] <= 0xEF then
      && |s| >= 3 && Continuation(s[1]) && Continuation(s[2])
      && (s[0] == 0xE0 ==> s[1] >= 0xA0) && (s[0] == 0xED ==> s[1] <= 0x9F)
      && ValidUtf8(s[3..])
    else if 0xF0 <= s[0] <= 0xF4 then
      && |s| >= 4 && Continuation(s[1]) && Continuation(s[2]) && Continuation(s[3])
      && (s[0] == 0xF0 ==> s[1] >= 0x90) && (s[0] == 0xF4 ==> s[1] <= 0x8F)
      && ValidUtf8(s[4..])
    else false
  }

  /** A code point that UTF-8 can encode: no surrogate, at most 0x10FFFF. */
  predicate Scalar(c: nat) {
    c < 0xD800 || 0xE000 <= c < 0x11_0000
  }

  /** The encoding table of section 3 of RFC 3629. */
  function Encoded(c: nat): (b: Bytes)
    requires Scalar(c)
    ensures 1 <= |b| <= 4
  {
    if c < 0x80 then [c]
    else if c < 0x800 then [0xC0 + c / 64, 0x80 + c % 64]
    else if c < 0x1_0000 then [0xE0 + c / 4096, 0x80 + c / 64 % 64, 0x80 + c % 64]
    else [0xF0 + c / 0x4_0000, 0x80 + c / 4096 % 64, 0x80 + c / 64 % 64, 0x80 + c % 64]
  }

  ghost predicate AllScalar(text: seq<nat>) {
    forall i :: 0 <= i < |text| ==> Scalar(text[i])
  }

  function EncodedText(text: seq<nat>): Bytes
    requires AllScalar(text)
  {
    if text == [] then [] else Encoded(text[0]) + EncodedText(text[1..])
  }

  /** Every encoded text is well-formed. */
  lemma {:induction false} EncodedValid(text: seq<nat>)
    requires AllScalar(text)
    ensures ValidUtf8(EncodedText(text))
  {
    if text != [] {
      EncodedValid(text[1..]);
      EncodedFirst(text[0], EncodedText(text[1..]));
    } else {
      assert EncodedText(text) == [];
    }
  }

  lemma {:induction false} EncodedFirst(c: nat, rest: Bytes)
    requires Scalar(c)
    ensures ValidUtf8(Encoded(c) + rest) <==> ValidUtf8(rest)
  {
    var e := Encoded(c);
    var s := e + rest;
    assert s[|e|..] == rest;
    assert forall i :: 0 <= i < |e| ==> s[i] == e[i];
    LeadBytes(c);
    hide Encoded;
  }

  /** Which bytes an encoding consists of. */
  lemma {:induction false} LeadBytes(c: nat)
    requires Scalar(c)
    ensures var e := Encoded(c);
            && (|e| == 1 ==> e[0] < 0x80)
            && (|e| == 2 ==> 0xC2 <= e[0] <= 0xDF && Continuation(e[1]))
            && (|e| == 3 ==> 0xE0 <= e[0] <= 0xEF && Continuation(e[1]) && Continuation(e[2])
                             && (e[0] == 0xE0 ==> e[1] >= 0xA0) && (e[0] == 0xED ==> e[1] <= 0x9F))
            && (|e| == 4 ==> 0xF0 <= e[0] <= 0xF4 && Continuation(e[1]) && Continuation(e[2]) && Continuation(e[3])
                             && (e[0] == 0xF0 ==> e[1] >= 0x90) && (e[0] == 0xF4 ==> e[1] <= 0x8F))
  {
    if 0x800 <= c < 0x1_0000 {
      ThreeParts(c / 4096, c / 64 % 64, c % 64);
      assert c == 4096 * (c / 4096) + 64 * (c / 64 % 64) + c % 64 by { Digits64(c); }
    } else if c >= 0x1_0000 {
      assert c == 0x4_0000 * (c / 0x4_0000) + 4096 * (c / 4096 % 64) + 64 * (c / 64 % 64) + c % 64 by { Digits64(c); }
    }
  }

  lemma {:induction false} Digits64(c: nat)
    ensures c == 4096 * (c / 4096) + 64 * (c / 64 % 64) + c % 64
    ensures c / 4096 == 64 * (c / 0x4_0000) + c / 4096 % 64
  {
    assert c / 64 / 64 == c / 4096 && c / 4096 / 64 == c / 0x4_0000;
  }

  /** And everything well-formed is an encoded text. */
  lemma {:induction false} ValidEncoded(s: Bytes) returns (text: seq<nat>)
    requires ValidUtf8(s)
    ensures AllScalar(text) && EncodedText(text) == s
    decreases |s|
  {
    if s == [] {
      text := [];
    } else {
      var c, k := FirstScalar(s);
      var rest := ValidEncoded(s[k..]);
      text := [c] + rest;
      assert text[1..] == rest;
      assert s == s[..k] + s[k..];
    }
  }

  lemma {:induction false} FirstScalar(s: Bytes) returns (c: nat, k: nat)
    requires s != [] && ValidUtf8(s)
    ensures Scalar(c) && 1 <= k <= |s| && Encoded(c) == s[..k] && ValidUtf8(s[k..])
  {
    var x: nat := s[0];
    if x < 0x80 {
      c, k := x, 1;
    } else if x <= 0xDF {
      var y: nat := s[1] - 0x80;
      c, k := (x - 0xC0) * 64 + y, 2;
    } else if x <= 0xEF {
      var y: nat, z: nat := s[1] - 0x80, s[2] - 0x80;
      c, k := (x - 0xE0) * 4096 + y * 64 + z, 3;
      ThreeParts(x - 0xE0, y, z);
    } else {
      c := FirstOfFour(s);
      k := 4;
    }
  }

  lemma {:induction false} FirstOfFour(s: Bytes) returns (c: nat)
    requires s != [] && ValidUtf8(s) && s[0] > 0xEF
    ensures Scalar(c) && |s| >= 4 && Encoded(c) == s[..4] && ValidUtf8(s[4..])
  {
    var x: nat, y: nat, z: nat, w: nat := s[0] - 0xF0, s[1] - 0x80, s[2] - 0x80, s[3] - 0x80;
    c := x * 0x4_0000 + y * 4096 + z * 64 + w;
    FourParts(x, y, z, w);
  }

  lemma {:induction false} ThreeParts(a: nat, b: nat, c: nat)
    requires b < 64 && c < 64
    ensures var n := a * 4096 + b * 64 + c; n / 4096 == a && n / 64 % 64 == b && n % 64 == c
  {
    var n := a * 4096 + b * 64 + c;
    assert n / 64 == a * 64 + b;
  }

  lemma {:induction false} FourParts(a: nat, b: nat, c: nat, d: nat)
    requires b < 64 && c < 64 && d < 64
    ensures var n := a * 0x4_0000 + b * 4096 + c * 64 + d;
            n / 0x4_0000 == a && n / 4096 % 64 == b && n / 64 % 64 == c && n % 64 == d
  {
    var n := a * 0x4_0000 + b * 4096 + c * 64 + d;
    assert n / 64 == a * 4096 + b * 64 + c;
    assert n / 4096 == a * 64 + b;
  }

  /** The broker's `_decode_utf8_string` at the start of `data`: the string and where it ends. */
  function DecodeString(data: Bytes): (r: Result<(Bytes, nat)>)
    ensures r.Ok? ==> 2 <= r.value.1 <= |data|
  {
    if |data| < 2 then Err(IncompleteLength)
    else
      var n := FromU16(data[0], data[1]);
      if 2 + n > |data| then Err(IncompleteString)
      else if !ValidUtf8(data[2..2 + n]) then Err(NotUtf8)
      else Ok((data[2..2 + n], 2 + n))
  }

  function Min(a: nat, b: nat): nat { if a < b then a else b }

  /** The client's `_decode_utf8`, whose slices are clipped to the data instead of checked. */
  function ClientDecodeString(data: Bytes): (r: Result<(Bytes, nat)>) {
    if |data| < 2 then Err(IncompleteLength)
    else
      var n := FromU16(data[0], data[1]);
      var s := data[2..Min(2 + n, |data|)];
      if ValidUtf8(s) then Ok((s, 2 + n)) else Err(NotUtf8)
  }

  // ----- PUBLISH (section 3.3)

  /** Variable header and payload: topic, identifier when qos > 0, payload. */
  function Body(m: Message): (b: Bytes)
    requires |m.topic| < 65536 && m.packetId < 65536
  {
    U16(|m.topic|) + m.topic + (if m.qos > 0 then U16(m.packetId) else []) + m.payload
  }

  /** `_build_publish_packet`, which refuses a topic whose length does not fit 16 bits.  The broker
      always sends identifier 0, the client its own counter. */
  function BuildPublish(m: Message): (r: Result<Bytes>)
    requires m.qos < 4 && m.packetId < 65536
  {
    if |m.topic| >= 65536 then Err(TopicTooLong)
    else Ok([16 * PUBLISH + 2 * m.qos] + RemainingLength(|Body(m)|) + Body(m))
  }

  /** The broker's reading of a PUBLISH body. */
  function DecodePublish(flags: nat, body: Bytes): (r: Result<Message>) {
    match DecodeString(body)
    case Err(e) => Err(e)
    case Ok((topic, offset)) =>
      var qos := flags / 2 % 4;
      if qos == 0 then Ok(Message(topic, 0, 0, body[offset..]))
      else if offset + 2 > |body| then Err(NoPacketId)
      else Ok(Message(topic, qos, FromU16(body[offset], body[offset + 1]), body[offset + 2..]))
  }

  /** The client's reading of a PUBLISH body: topic and payload; the identifier is skipped unread. */
  function ClientDecodePublish(flags: nat, body: Bytes): (r: Result<(Bytes, Bytes)>) {
    match ClientDecodeString(body)
    case Err(e) => Err(e)
    case Ok((topic, offset)) =>
      var at := if flags / 2 % 4 > 0 then offset + 2 else offset;
      Ok((topic, body[Min(at, |body|)..]))
  }

  /** Whatever the broker accepts, from anyone, the client reads the same way. */
  lemma {:induction false} PeersAgree(flags: nat, body: Bytes)
    ensures DecodePublish(flags, body).Ok? ==>
              ClientDecodePublish(flags, body) ==
              Ok((DecodePublish(flags, body).value.topic, DecodePublish(flags, body).value.payload))
  {
    if DecodeString(body).Ok? {
      assert ClientDecodeString(body) == DecodeString(body);
    }
  }

  // ----- SUBSCRIBE and UNSUBSCRIBE (sections 3.8 and 3.10)

  /** The topic filters in a body behind its packet identifier, each with a quality of service behind it
      or not. */
  function Filters(body: Bytes, withQos: bool): (r: Result<seq<Bytes>>)
    decreases |body|
  {
    if body == [] then Ok([])
    else
      match DecodeString(body)
      case Err(e) => Err(e)
      case Ok((filter, at)) =>
        var next := if withQos then at + 1 else at;
        if next > |body| then Err(NoQos) else Prepend([filter], Filters(body[next..], withQos))
  }

  function Prepend(fs: seq<Bytes>, r: Result<seq<Bytes>>): Result<seq<Bytes>> {
    match r
    case Err(e) => Err(e)
    case Ok(gs) => Ok(fs + gs)
  }

  /** The acknowledgement has one length byte, so that more than 253 filters cannot be answered. */
  const MAX_FILTERS: nat := 253

  function DecodeSubscribe(body: Bytes): (r: Result<seq<Bytes>>) {
    if |body| < 2 then Err(NoPacketId)
    else
      var r := Filters(body[2..], true);
      if r.Ok? && |r.value| > MAX_FILTERS then Err(TooManyFilters) else r
  }

  function DecodeUnsubscribe(body: Bytes): (r: Result<seq<Bytes>>) {
    if |body| < 2 then Err(NoPacketId) else Filters(body[2..], false)
  }

  // ----- Frames

  datatype Frame = Frame(kind: nat, flags: nat, body: Bytes)

  /** What reading one packet off a stream gives: a clean end, an end inside a packet, or a packet. */
  datatype Read = Eof | Closed | Got(frame: Frame, rest: Bytes)

  function ReadFrame(s: Bytes): (r: Read)
    ensures r.Got? ==> |r.rest| < |s|
  {
    if s == [] then Eof
    else
      match DecodeLength(s[1..])
      case Err(_) => Closed
      case Ok((n, used)) =>
        if 1 + used + n > |s| then Closed
        else Got(Frame(s[0] / 16, s[0] % 16, s[1 + used..1 + used + n]), s[1 + used + n..])
  }

  datatype Ending = CleanEnd | ConnectionLost | Failed(error: Error) | Disconnected

  /** What `json.loads` does with a payload: true when it returns, or raises one of the two exceptions
      that the code catches; false when it raises another, as it does for very deep nesting or for very
      long integers. */
  type Loads = Bytes -> bool

  /** What a packet makes the broker do. */
  datatype Action =
    | Published(message: Message)
    | Subscribed(filters: seq<Bytes>)
    | Unsubscribed(filters: seq<Bytes>)

  function SubscribeAction(r: Result<seq<Bytes>>): Result<seq<Action>> {
    match r
    case Err(e) => Err(e)
    case Ok(filters) => Ok([Subscribed(filters)])
  }

  function UnsubscribeAction(r: Result<seq<Bytes>>): Result<seq<Action>> {
    match r
    case Err(e) => Err(e)
    case Ok(filters) => Ok([Unsubscribed(filters)])
  }

  function PublishAction(loads: Loads, r: Result<Message>): Result<seq<Action>> {
    match r
    case Err(e) => Err(e)
    case Ok(m) => if loads(m.payload) then Ok([Published(m)]) else Err(BadPayload)
  }

  /** What one frame makes the broker do, or the exception it raises.  Pings and packets that the broker
      does not know have no effect here. */
  function Handle(loads: Loads, f: Frame): (r: Result<seq<Action>>) {
    if f.kind == PUBLISH then PublishAction(loads, DecodePublish(f.flags, f.body))
    else if f.kind == SUBSCRIBE then SubscribeAction(DecodeSubscribe(f.body))
    else if f.kind == UNSUBSCRIBE then UnsubscribeAction(DecodeUnsubscribe(f.body))
    else Ok([])
  }

  /** What a connection makes the broker do, and how it ends.  An exception ends it before the packet has
      any effect that lasts. */
  function Session(loads: Loads, s: Bytes): (r: (seq<Action>, Ending))
    decreases |s|
  {
    match ReadFrame(s)
    case Eof => ([], CleanEnd)
    case Closed => ([], ConnectionLost)
    case Got(f, rest) =>
      if f.kind == DISCONNECT then ([], Disconnected)
      else
        match Handle(loads, f)
        case Err(e) => ([], Failed(e))
        case Ok(acts) => var (more, end) := Session(loads, rest); (acts + more, end)
  }

  /** The (topic, payload) pairs a client connection delivers and how it ends. */
  function ClientSession(loads: Loads, s: Bytes): (r: (seq<(Bytes, Bytes)>, Ending))
    decreases |s|
  {
    match ReadFrame(s)
    case Eof => ([], CleanEnd)
    case Closed => ([], ConnectionLost)
    case Got(f, rest) =>
      if f.kind == PUBLISH then
        match ClientDecodePublish(f.flags, f.body)
        case Err(e) => ([], Failed(e))
        case Ok(m) =>
          if !loads(m.1) then ([], Failed(BadPayload))
          else var (ms, end) := ClientSession(loads, rest); ([m] + ms, end)
      else ClientSession(loads, rest)
  }

  // ----- Round trips

  predicate Sendable(m: Message) {
    && ValidUtf8(m.topic) && |m.topic| < 65536
    && m.qos < 4 && m.packetId < 65536 && (m.qos == 0 ==> m.packetId == 0)
  }

  function Wire(m: Message): (b: Bytes)
    requires Sendable(m)
  {
    BuildPublish(m).value
  }

  function WireAll(ms: seq<Message>): (b: Bytes)
    requires AllSendable(ms)
  {
    if ms == [] then [] else Wire(ms[0]) + WireAll(ms[1..])
  }

  lemma {:induction false} StringRoundTrip(t: Bytes, rest: Bytes)
    requires |t| < 65536 && ValidUtf8(t)
    ensures DecodeString(U16(|t|) + t + rest) == Ok((t, 2 + |t|))
    ensures ClientDecodeString(U16(|t|) + t + rest) == Ok((t, 2 + |t|))
  {
    hide ValidUtf8;
    var s := U16(|t|) + t + rest;
    assert s[2..2 + |t|] == t;
  }

  lemma {:induction false} BodyRoundTrip(m: Message)
    requires Sendable(m)
    ensures DecodePublish(2 * m.qos, Body(m)) == Ok(m)
  {
    hide ValidUtf8; hide DecodeString; hide U16;
    var id := if m.qos > 0 then U16(m.packetId) else [];
    BodyParts(U16(|m.topic|), m.topic, id, m.payload);
    assert |U16(|m.topic|)| == 2 by { U16Parts(|m.topic|); }
    StringRoundTrip(m.topic, id + m.payload);
    U16Parts(m.packetId);
  }

  lemma {:induction false} U16Parts(n: nat)
    requires n < 65536
    ensures |U16(n)| == 2 && FromU16(U16(n)[0], U16(n)[1]) == n
  {
  }

  /** Cutting a body behind its first two parts. */
  lemma {:induction false} BodyParts(len: Bytes, topic: Bytes, id: Bytes, payload: Bytes)
    ensures var b, at := len + topic + id + payload, |len| + |topic|;
            && b == len + topic + (id + payload) && b[at..] == id + payload
            && (forall i :: 0 <= i < |id| ==> b[at + i] == id[i]) && b[at + |id|..] == payload
  {
  }

  /** The first packet of a stream is read back whole, and the rest is left untouched. */
  lemma {:induction false} FrameRoundTrip(m: Message, rest: Bytes)
    requires Sendable(m)
    ensures ReadFrame(Wire(m) + rest) == Got(Frame(PUBLISH, 2 * m.qos, Body(m)), rest)
  {
    ReadFrameParts(16 * PUBLISH + 2 * m.qos, Body(m), rest);
  }

  lemma {:induction false} ReadFrameParts(head: Byte, body: Bytes, rest: Bytes)
    ensures ReadFrame([head] + RemainingLength(|body|) + body + rest) == Got(Frame(head / 16, head % 16, body), rest)
  {
    hide RemainingLength; hide DecodeLength;
    var len := RemainingLength(|body|);
    var s := [head] + len + body + rest;
    LengthRoundTrip(|body|, body + rest);
    assert s[1..] == len + (body + rest);
    assert s[1 + |len|..1 + |len| + |body|] == body;
    assert s[1 + |len| + |body|..] == rest;
  }

  /** The bytes of a PUBLISH packet: the type and the quality of service, the length of all that follows,
      and the body. */
  lemma {:induction false} WireBytes(m: Message)
    requires Sendable(m)
    ensures var b, k := Wire(m), |RemainingLength(|Body(m)|)|;
            && |b| == 1 + k + |Body(m)| && b[0] == 0x30 + 2 * m.qos
            && DecodeLength(b[1..]) == Ok((|b| - 1 - k, k)) && b[1 + k..] == Body(m)
  {
    hide RemainingLength; hide DecodeLength; hide ValidUtf8; hide Body;
    LengthRoundTrip(|Body(m)|, Body(m));
    PacketParts(16 * PUBLISH + 2 * m.qos, RemainingLength(|Body(m)|), Body(m));
  }

  /** The bytes of its body: the length of the topic and the topic, the identifier if there is one, and the
      payload. */
  lemma {:induction false} BodyBytes(m: Message)
    requires Sendable(m)
    ensures var b, t := Body(m), 2 + |m.topic|;
            && t <= |b| && 256 * (b[0] as int) + b[1] == |m.topic| && b[2..t] == m.topic
            && (m.qos == 0 ==> b[t..] == m.payload)
            && (m.qos > 0 ==>
                  t + 2 <= |b| && 256 * (b[t] as int) + b[t + 1] == m.packetId && b[t + 2..] == m.payload)
  {
    hide ValidUtf8; hide U16;
    var len, id := U16(|m.topic|), if m.qos > 0 then U16(m.packetId) else [];
    BodyFront(len, m.topic, id + m.payload);
    BodyParts(len, m.topic, id, m.payload);
    hide Body;
  }

  lemma {:induction false} BodyFront(len: Bytes, topic: Bytes, rest: Bytes)
    requires |len| == 2
    ensures var b := len + topic + rest; b[0] == len[0] && b[1] == len[1] && b[2..2 + |topic|] == topic
  {
  }

  lemma {:induction false} PacketParts(head: Byte, len: Bytes, body: Bytes)
    ensures var b := [head] + len + body; b[0] == head && b[1..] == len + body && b[1 + |len|..] == body
  {
  }

  /** A packet of fewer than 128 bytes behind its length, alone on a connection. */
  lemma {:induction false} OnePacket(loads: Loads, head: Byte, body: Bytes)
    requires |body| < 128 && head / 16 != DISCONNECT
    ensures var r := Handle(loads, Frame(head / 16, head % 16, body));
            Session(loads, [head, |body|] + body) == if r.Ok? then (r.value, CleanEnd) else ([], Failed(r.error))
  {
    hide ReadFrame; hide Handle;
    var s := [head, |body|] + body;
    ReadFrameParts(head, body, []);
    assert RemainingLength(|body|) == [|body|];
    assert [head] + [|body|] + body + [] == s;
    NoPackets(loads);
    var r := Handle(loads, Frame(head / 16, head % 16, body));
    if r.Ok? {
      assert r.value + [] == r.value;
    }
  }

  /** Bytes as any client sends them: topic "a" without and with an identifier, a subscription and its
      withdrawal, and a disconnect. */
  lemma {:induction false} PacketExamples(loads: Loads)
    requires loads([]) && loads([0x78])
    ensures Session(loads, [0x30, 3, 0, 1, 0x61]) == ([Published(Message([0x61], 0, 0, []))], CleanEnd)
    ensures Session(loads, [0x32, 6, 0, 1, 0x61, 1, 2, 0x78])
         == ([Published(Message([0x61], 1, 258, [0x78]))], CleanEnd)
    ensures Session(loads, [0x82, 6, 0, 10, 0, 1, 0x61, 1]) == ([Subscribed([[0x61]])], CleanEnd)
    ensures Session(loads, [0xA2, 5, 0, 10, 0, 1, 0x61]) == ([Unsubscribed([[0x61]])], CleanEnd)
    ensures Session(loads, [0xE0, 0]) == ([], Disconnected)
  {
    hide Session;
    PublishExample(loads);
    NumberedExample(loads);
    SubscribeExample(loads);
    ReadFrameParts(0xE0, [], []);
    assert RemainingLength(0) == [0];
    assert [0xE0] + [0] + [] + [] == [0xE0, 0];
    AtDisconnect(loads, [0xE0, 0]);
  }

  lemma {:induction false} AtDisconnect(loads: Loads, s: Bytes)
    requires ReadFrame(s).Got? && ReadFrame(s).frame.kind == DISCONNECT
    ensures Session(loads, s) == ([], Disconnected)
  {
    hide ReadFrame;
  }

  lemma {:induction false} LetterA(rest: Bytes)
    ensures DecodeString([0, 1, 0x61] + rest) == Ok(([0x61], 3))
  {
    var s := [0, 1, 0x61] + rest;
    assert s[2..3] == [0x61];
    assert ValidUtf8([0x61]) by { assert [0x61][1..] == []; }
  }

  lemma {:induction false} PublishExample(loads: Loads)
    requires loads([])
    ensures Session(loads, [0x30, 3, 0, 1, 0x61]) == ([Published(Message([0x61], 0, 0, []))], CleanEnd)
  {
    hide Session; hide DecodeString;
    var a := [0, 1, 0x61];
    OnePacket(loads, 0x30, a);
    assert [0x30, 3] + a == [0x30, 3, 0, 1, 0x61];
    LetterA([]);
    assert [0, 1, 0x61] + [] == a && a[3..] == [];
  }

  lemma {:induction false} NumberedExample(loads: Loads)
    requires loads([0x78])
    ensures Session(loads, [0x32, 6, 0, 1, 0x61, 1, 2, 0x78])
         == ([Published(Message([0x61], 1, 258, [0x78]))], CleanEnd)
  {
    hide Session; hide DecodeString;
    var b := [0, 1, 0x61, 1, 2, 0x78];
    OnePacket(loads, 0x32, b);
    assert [0x32, 6] + b == [0x32, 6, 0, 1, 0x61, 1, 2, 0x78];
    LetterA([1, 2, 0x78]);
    assert [0, 1, 0x61] + [1, 2, 0x78] == b && b[5..] == [0x78];
  }

  lemma {:induction false} SubscribeExample(loads: Loads)
    ensures Session(loads, [0x82, 6, 0, 10, 0, 1, 0x61, 1]) == ([Subscribed([[0x61]])], CleanEnd)
    ensures Session(loads, [0xA2, 5, 0, 10, 0, 1, 0x61]) == ([Unsubscribed([[0x61]])], CleanEnd)
  {
    hide Session; hide DecodeString;
    var a, b := [0, 10, 0, 1, 0x61, 1], [0, 10, 0, 1, 0x61];
    OnePacket(loads, 0x82, a);
    OnePacket(loads, 0xA2, b);
    assert [0x82, 6] + a == [0x82, 6, 0, 10, 0, 1, 0x61, 1];
    assert [0xA2, 5] + b == [0xA2, 5, 0, 10, 0, 1, 0x61];
    LetterA([1]);
    LetterA([]);
    assert a[2..] == [0, 1, 0x61] + [1] && a[2..][4..] == [];
    assert b[2..] == [0, 1, 0x61] + [] && b[2..][3..] == [];
    assert Filters([], true) == Ok([]) && Filters([], false) == Ok([]);
    assert [[0x61]] + [] == [[0x61]];
  }

  /** How many messages come before the first one whose payload ends the connection. */
  function Loadable(loads: Loads, ms: seq<Message>): (k: nat)
    ensures k <= |ms| && (forall i :: 0 <= i < k ==> loads(ms[i].payload))
    ensures k < |ms| ==> !loads(ms[k].payload)
  {
    if ms == [] || !loads(ms[0].payload) then 0 else 1 + Loadable(loads, ms[1..])
  }

  function EndAfter(complete: bool): Ending {
    if complete then CleanEnd else Failed(BadPayload)
  }

  /** What one packet at the front of a stream adds, on either side. */
  lemma {:induction false} FirstPacket(loads: Loads, m: Message, rest: Bytes)
    requires Sendable(m)
    ensures Session(loads, Wire(m) + rest) ==
              if loads(m.payload) then ([Published(m)] + Session(loads, rest).0, Session(loads, rest).1)
              else ([], Failed(BadPayload))
    ensures ClientSession(loads, Wire(m) + rest) ==
              if loads(m.payload)
              then ([(m.topic, m.payload)] + ClientSession(loads, rest).0, ClientSession(loads, rest).1)
              else ([], Failed(BadPayload))
  {
    hide ReadFrame; hide DecodePublish; hide ClientDecodePublish; hide Wire; hide Body;
    FrameRoundTrip(m, rest);
    BodyRoundTrip(m);
    PeersAgree(2 * m.qos, Body(m));
  }

  /** The client's `subscribe`. */
  function SubscribeWire(id: nat, filter: Bytes, qos: Byte): Bytes
    requires id < 65536 && |filter| < 65536
  {
    var body := U16(id) + U16(|filter|) + filter + [qos];
    [16 * SUBSCRIBE + 2] + RemainingLength(|body|) + body
  }

  /** A client's subscription at the front of a stream reaches the broker as just that. */
  lemma {:induction false} SubscribeRoundTrip(loads: Loads, id: nat, filter: Bytes, qos: Byte, rest: Bytes)
    requires id < 65536 && |filter| < 65536 && ValidUtf8(filter)
    ensures Session(loads, SubscribeWire(id, filter, qos) + rest)
         == ([Subscribed([filter])] + Session(loads, rest).0, Session(loads, rest).1)
  {
    var body := U16(id) + U16(|filter|) + filter + [qos];
    OneFilter(id, filter, qos);
    hide ReadFrame; hide RemainingLength; hide DecodeSubscribe; hide U16; hide ValidUtf8;
    ReadFrameParts(16 * SUBSCRIBE + 2, body, rest);
  }

  lemma {:induction false} OneFilter(id: nat, filter: Bytes, qos: Byte)
    requires id < 65536 && |filter| < 65536 && ValidUtf8(filter)
    ensures DecodeSubscribe(U16(id) + U16(|filter|) + filter + [qos]) == Ok([filter])
  {
    hide ValidUtf8; hide DecodeString;
    var body := U16(id) + U16(|filter|) + filter + [qos];
    var tail := U16(|filter|) + filter + [qos];
    assert body[2..] == tail;
    StringRoundTrip(filter, [qos]);
    assert tail[2 + |filter| + 1..] == [];
    assert Filters([], true) == Ok([]);
    assert [filter] + [] == [filter];
  }

  /** A malformed SUBSCRIBE or UNSUBSCRIBE body, such as an empty one, ends the connection: nothing behind
      it has any effect. */
  lemma {:induction false} MalformedEnds(loads: Loads, head: Byte, body: Bytes, rest: Bytes)
    requires head / 16 == SUBSCRIBE || head / 16 == UNSUBSCRIBE
    ensures var r := if head / 16 == SUBSCRIBE then DecodeSubscribe(body) else DecodeUnsubscribe(body);
            var got := Session(loads, [head] + RemainingLength(|body|) + body + rest);
            && (r.Err? ==> got == ([], Failed(r.error)))
            && (r.Ok? ==> got.1 == Session(loads, rest).1 && |got.0| == 1 + |Session(loads, rest).0|)
            && (body == [] ==> r == Err(NoPacketId))
  {
    hide ReadFrame; hide RemainingLength;
    ReadFrameParts(head, body, rest);
  }

  lemma {:induction false} NoPackets(loads: Loads)
    ensures Session(loads, []) == ([], CleanEnd) && ClientSession(loads, []) == ([], CleanEnd)
  {
  }

  ghost predicate AllSendable(ms: seq<Message>) {
    forall m :: m in ms ==> Sendable(m)
  }

  function Contents(ms: seq<Message>): seq<(Bytes, Bytes)> {
    seq(|ms|, i requires 0 <= i < |ms| => (ms[i].topic, ms[i].payload))
  }

  function Publishes(ms: seq<Message>): seq<Action> {
    seq(|ms|, i requires 0 <= i < |ms| => Published(ms[i]))
  }

  lemma {:induction false} PublishesHead(m: Message, ms: seq<Message>)
    ensures Publishes([m] + ms) == [Published(m)] + Publishes(ms)
    ensures Publishes([]) == []
  {
  }

  lemma {:induction false} PublishesOfPrefix(ms: seq<Message>, k: nat)
    requires k <= |ms|
    ensures Publishes(ms[..k]) == Publishes(ms) <==> k == |ms|
  {
    assert ms[..|ms|] == ms;
    assert |Publishes(ms[..k])| == k && |Publishes(ms)| == |ms|;
  }

  lemma {:induction false} LoadableAll(loads: Loads, ms: seq<Message>)
    ensures Loadable(loads, ms) == |ms| <==> forall m :: m in ms ==> loads(m.payload)
  {
  }

  /** The messages before the first bad payload, one by one. */
  lemma {:induction false} LoadableHead(loads: Loads, ms: seq<Message>)
    requires ms != []
    ensures var k, k' := Loadable(loads, ms), Loadable(loads, ms[1..]);
            if loads(ms[0].payload) then k == k' + 1 && ms[..k] == [ms[0]] + ms[1..][..k'] else k == 0 && ms[..k] == []
  {
  }

  lemma {:induction false} ContentsHead(m: Message, ms: seq<Message>)
    ensures Contents([m] + ms) == [(m.topic, m.payload)] + Contents(ms)
    ensures Contents([]) == []
  {
  }

  lemma {:induction false} ContentsOfPrefix(ms: seq<Message>, k: nat)
    requires k <= |ms|
    ensures Contents(ms[..k]) == Contents(ms) <==> k == |ms|
  {
    assert ms[..|ms|] == ms;
    assert |Contents(ms[..k])| == k && |Contents(ms)| == |ms|;
  }

  lemma {:induction false} BrokerPrefix(loads: Loads, ms: seq<Message>)
    requires AllSendable(ms)
    ensures var k := Loadable(loads, ms);
            Session(loads, WireAll(ms)) == (Publishes(ms[..k]), EndAfter(k == |ms|))
  {
    hide Session; hide Wire; hide Sendable; hide Loadable; hide Publishes;
    if ms == [] {
      NoPackets(loads);
      assert ms[..Loadable(loads, ms)] == [];
      PublishesHead(Message([], 0, 0, []), []);
    } else {
      var rest := ms[1..];
      FirstPacket(loads, ms[0], WireAll(rest));
      BrokerPrefix(loads, rest);
      LoadableHead(loads, ms);
      PublishesHead(ms[0], rest[..Loadable(loads, rest)]);
    }
  }

  /** Of any sequence of PUBLISH packets, sent back to back, the broker delivers exactly the messages
      before the first payload that ends the connection: all of them, with nothing left over, exactly
      when there is none. */
  lemma {:induction false} StreamRoundTrip(loads: Loads, ms: seq<Message>)
    requires AllSendable(ms)
    ensures var k := Loadable(loads, ms);
            Session(loads, WireAll(ms)) == (Publishes(ms[..k]), EndAfter(k == |ms|))
    ensures Session(loads, WireAll(ms)) == (Publishes(ms), CleanEnd) <==> forall m :: m in ms ==> loads(m.payload)
  {
    hide Session; hide WireAll; hide Sendable; hide Loadable; hide Publishes;
    BrokerPrefix(loads, ms);
    LoadableAll(loads, ms);
    PublishesOfPrefix(ms, Loadable(loads, ms));
  }

  lemma {:induction false} ClientPrefix(loads: Loads, ms: seq<Message>)
    requires AllSendable(ms)
    ensures var k := Loadable(loads, ms);
            ClientSession(loads, WireAll(ms)) == (Contents(ms[..k]), EndAfter(k == |ms|))
  {
    hide ClientSession; hide Wire; hide Sendable; hide Loadable; hide Contents;
    if ms == [] {
      NoPackets(loads);
      assert ms[..Loadable(loads, ms)] == [];
      ContentsHead(Message([], 0, 0, []), []);
    } else {
      var rest := ms[1..];
      FirstPacket(loads, ms[0], WireAll(rest));
      ClientPrefix(loads, rest);
      LoadableHead(loads, ms);
      ContentsHead(ms[0], rest[..Loadable(loads, rest)]);
    }
  }

  /** The peer reads the same topics and payloads off the same stream, as far as it can load them. */
  lemma {:induction false} ClientStreamRoundTrip(loads: Loads, ms: seq<Message>)
    requires AllSendable(ms)
    ensures var k := Loadable(loads, ms);
            ClientSession(loads, WireAll(ms)) == (Contents(ms[..k]), EndAfter(k == |ms|))
    ensures ClientSession(loads, WireAll(ms)) == (Contents(ms), CleanEnd)
            <==> forall m :: m in ms ==> loads(m.payload)
  {
    hide ClientSession; hide WireAll; hide Sendable; hide Loadable; hide Contents;
    ClientPrefix(loads, ms);
    LoadableAll(loads, ms);
    ContentsOfPrefix(ms, Loadable(loads, ms));
  }

  /** What the broker forwards for a received message: quality of service at most 1, identifier 0. */
  function Forwarded(m: Message): (f: Message)
    ensures f.topic == m.topic && f.payload == m.payload && f.packetId == 0
    ensures f.qos <= 1 && (f.qos == 0 <==> m.qos == 0)
  {
    m.(qos := Min(m.qos, 1), packetId := 0)
  }

  function ForwardedAll(ms: seq<Message>): (r: seq<Message>) {
    seq(|ms|, i requires 0 <= i < |ms| => Forwarded(ms[i]))
  }

  lemma {:induction false} ForwardedSendable(ms: seq<Message>)
    requires AllSendable(ms)
    ensures AllSendable(ForwardedAll(ms)) && Contents(ForwardedAll(ms)) == Contents(ms)
  {
    forall m | m in ForwardedAll(ms) ensures Sendable(m) {
      var i :| 0 <= i < |ms| && ForwardedAll(ms)[i] == m;
      assert Sendable(ms[i]);
    }
  }

  lemma {:induction false} ForwardedLoadable(loads: Loads, ms: seq<Message>)
    ensures Loadable(loads, ForwardedAll(ms)) == Loadable(loads, ms)
    ensures Contents(ForwardedAll(ms)[..Loadable(loads, ms)]) == Contents(ms[..Loadable(loads, ms)])
  {
    hide Forwarded;
    var j, k := Loadable(loads, ForwardedAll(ms)), Loadable(loads, ms);
    assert forall i :: 0 <= i < |ms| ==> ForwardedAll(ms)[i].payload == ms[i].payload by { SamePayloads(ms); }
    assert forall i :: 0 <= i < |ms| ==> ForwardedAll(ms)[i].topic == ms[i].topic by { SamePayloads(ms); }
  }

  lemma {:induction false} SamePayloads(ms: seq<Message>)
    ensures forall i :: 0 <= i < |ms| ==> ForwardedAll(ms)[i].payload == ms[i].payload
    ensures forall i :: 0 <= i < |ms| ==> ForwardedAll(ms)[i].topic == ms[i].topic
  {
  }

  /** The peer reads forwarded messages as the messages they were. */
  lemma {:induction false} ForwardedRead(peer: Loads, ms: seq<Message>)
    requires AllSendable(ms)
    ensures AllSendable(ForwardedAll(ms))
    ensures var j := Loadable(peer, ms);
            ClientSession(peer, WireAll(ForwardedAll(ms))) == (Contents(ms[..j]), EndAfter(j == |ms|))
    ensures ClientSession(peer, WireAll(ForwardedAll(ms))) == (Contents(ms), CleanEnd)
            <==> forall m :: m in ms ==> peer(m.payload)
  {
    hide ClientSession; hide WireAll; hide Sendable; hide Forwarded; hide ForwardedAll; hide Contents; hide Loadable;
    ForwardedSendable(ms);
    ClientStreamRoundTrip(peer, ForwardedAll(ms));
    ForwardedLoadable(peer, ms);
    ForwardedLength(ms);
    ContentsOfPrefix(ms, Loadable(peer, ms));
    LoadableAll(peer, ms);
  }

  lemma {:induction false} ForwardedLength(ms: seq<Message>)
    ensures |ForwardedAll(ms)| == |ms|
  {
  }

  // ----- What a connection publishes

  function MessagesOf(a: Action): seq<Message> {
    if a.Published? then [a.message] else []
  }

  /** The messages among the actions, in order. */
  function Messages(acts: seq<Action>): seq<Message> {
    if acts == [] then [] else Messages(acts[..|acts| - 1]) + MessagesOf(acts[|acts| - 1])
  }

  lemma {:induction false} MessagesAppend(acts: seq<Action>, a: Action)
    ensures Messages(acts + [a]) == Messages(acts) + MessagesOf(a)
  {
    assert (acts + [a])[..|acts|] == acts;
  }

  lemma {:induction false} MessagesOfPublishes(ms: seq<Message>)
    ensures Messages(Publishes(ms)) == ms
  {
    if ms != [] {
      var init := ms[..|ms| - 1];
      MessagesOfPublishes(init);
      assert Publishes(ms)[..|ms| - 1] == Publishes(init);
      assert ms == init + [ms[|ms| - 1]];
    }
  }

  ghost predicate Relayable(acts: seq<Action>) {
    forall a :: a in acts && a.Published? ==> Sendable(a.message)
  }

  /** Whoever wrote the stream, what the broker accepts it can send on. */
  lemma {:induction false} HandledRelayable(loads: Loads, f: Frame)
    ensures Handle(loads, f).Ok? ==> |Handle(loads, f).value| <= 1 && Relayable(Handle(loads, f).value)
  {
    hide ValidUtf8; hide Filters;
  }

  lemma {:induction false} RelayableMessages(acts: seq<Action>)
    requires Relayable(acts)
    ensures AllSendable(Messages(acts))
  {
    hide Sendable;
    if acts != [] {
      RelayableMessages(acts[..|acts| - 1]);
    }
  }
}
