/** The connection loops of the broker and of its client, over a byte stream that arrives in pieces. */
module MqttConnection {
  import opened MqttCodec

  /** A stream reader: `Read` gives between one and n of the bytes to come, as the network likes,
      and nothing only at the end of the stream. */
  class Reader {
    var data: Bytes   // the bytes still to come

    constructor (bytes: Bytes)
      ensures data == bytes
    {
      data := bytes;
    }

    method Read(n: nat) returns (chunk: Bytes)
      requires n >= 1
      modifies this
      ensures |chunk| <= n && old(data) == chunk + data
      ensures chunk == [] <==> old(data) == []
    {
      var most := Min(n, |data|);
      var k: nat;
      if most == 0 {
        k := 0;
      } else {
        k :| 1 <= k <= most;
      }
      chunk := data[..k];
      data := data[k..];
    }
  }

  /** `_read_exact`: the next n bytes however they are cut up, or failure when the stream ends first. */
  method ReadExact(r: Reader, n: nat) returns (bytes: Bytes, ok: bool)
    modifies r
    ensures ok <==> n <= |old(r.data)|
    ensures ok ==> bytes == old(r.data[..n]) && r.data == old(r.data[n..])
  {
    bytes, ok := [], true;
    while |bytes| < n
      invariant |bytes| <= n && old(r.data) == bytes + r.data
      decreases n - |bytes|
    {
      var chunk := r.Read(n - |bytes|);
      if chunk == [] {
        return bytes, false;
      }
      ghost var before := r.data;
      assert old(r.data) == bytes + (chunk + r.data) == bytes + chunk + r.data;
      bytes := bytes + chunk;
    }
  }

  /** Decoding looks at the length field only. */
  lemma {:induction false} LengthFieldOnly(s: Bytes, rest: Bytes)
    requires DecodeLength(s).Ok?
    ensures DecodeLength(s + rest) == DecodeLength(s)
  {
    if s[0] >= 128 {
      LengthFieldOnly(s[1..], rest);
      assert (s + rest)[1..] == s[1..] + rest;
    }
  }

  /** A run of continuation bytes is never a whole length field. */
  lemma {:induction false} ContinuationOnly(s: Bytes)
    requires forall i :: 0 <= i < |s| ==> s[i] >= 128
    ensures DecodeLength(s).Err?
  {
    if s != [] {
      ContinuationOnly(s[1..]);
    }
  }

  lemma {:induction false} EndOfField(s: Bytes, last: Byte)
    requires last < 128 && forall i :: 0 <= i < |s| ==> s[i] >= 128
    ensures DecodeLength(s + [last]).Ok? && DecodeLength(s + [last]).value.1 == |s| + 1
  {
    if s != [] {
      EndOfField(s[1..], last);
      assert (s + [last])[1..] == s[1..] + [last];
    }
  }

  /** The inner loop that collects length bytes one at a time up to one without continuation bit. */
  method ReadLengthField(r: Reader) returns (field: Bytes, ok: bool)
    modifies r
    ensures ok <==> DecodeLength(old(r.data)).Ok?
    ensures ok ==> |field| <= |old(r.data)| && DecodeLength(field) == DecodeLength(old(r.data))
    ensures ok ==> field == old(r.data)[..DecodeLength(old(r.data)).value.1] && r.data == old(r.data)[|field|..]
  {
    field := [];
    while true
      invariant old(r.data) == field + r.data
      invariant forall i :: 0 <= i < |field| ==> field[i] >= 128
      decreases |r.data|
    {
      var b := r.Read(1);
      if b == [] {
        ContinuationOnly(field);
        assert field + [] == field;
        return field, false;
      }
      ghost var seen := field;
      field := field + [b[0]];
      assert old(r.data) == field + r.data by {
        assert b == [b[0]];
        assert seen + (b + r.data) == seen + b + r.data;
      }
      if b[0] < 128 {
        EndOfField(seen, b[0]);
        LengthFieldOnly(field, r.data);
        return field, true;
      }
    }
  }

  /** One round of the broker's loop up to the point where a packet is dispatched. */
  method NextFrame(r: Reader) returns (got: Read)
    modifies r
    ensures got == ReadFrame(old(r.data))
    ensures got.Got? ==> r.data == got.rest
  {
    hide DecodeLength;
    ghost var s := r.data;
    var header := r.Read(1);
    if header == [] {
      return Eof;
    }
    assert s[1..] == r.data;
    var field, ok := ReadLengthField(r);
    if !ok {
      return Closed;
    }
    var length := DecodeRemainingLength(field, 0);
    assert field[0..] == field;
    var n := length.value.0;
    var body: Bytes := [];
    if n > 0 {
      body, ok := ReadExact(r, n);
      if !ok {
        return Closed;
      }
    }
    got := Got(Frame(header[0] / 16, header[0] % 16, body), r.data);
  }

  /** The client's own reading of the length bytes it has collected. */
  method SumLength(field: Bytes) returns (value: nat)
    requires DecodeLength(field).Ok? && DecodeLength(field).value.1 == |field|
    ensures value == DecodeLength(field).value.0
  {
    hide DecodeLength;
    var mult: nat := 1;
    value := 0;
    ContinueStart(field);
    assert field[0..] == field;
    for i := 0 to |field|
      invariant i < |field| ==> Continue(value, mult, i, DecodeLength(field[i..])) == DecodeLength(field)
      invariant i == |field| ==> value == DecodeLength(field).value.0
    {
      assert field[i..][0] == field[i] && field[i..][1..] == field[i + 1..];
      if field[i] >= 128 {
        ContinueStep(value, mult, i, field[i..]);
        if i + 1 == |field| {
          NoMoreBytes(field[i + 1..]);
        }
      } else {
        ContinueEnd(value, mult, i, field[i..]);
      }
      value := value + field[i] % 128 * mult;
      mult := mult * 128;
    }
  }

  lemma {:induction false} NoMoreBytes(s: Bytes)
    requires s == []
    ensures DecodeLength(s).Err?
  {
  }

  /** One round of the client's loop up to the point where a packet is dispatched. */
  method ClientNextFrame(r: Reader) returns (got: Read)
    modifies r
    ensures got == ReadFrame(old(r.data))
    ensures got.Got? ==> r.data == got.rest
  {
    hide DecodeLength;
    ghost var s := r.data;
    var header := r.Read(1);
    if header == [] {
      return Eof;
    }
    assert s[1..] == r.data;
    var field, ok := ReadLengthField(r);
    if !ok {
      return Closed;
    }
    var n := SumLength(field);
    var body: Bytes := [];
    if n > 0 {
      body, ok := ReadExact(r, n);
      if !ok {
        return Closed;
      }
    }
    got := Got(Frame(header[0] / 16, header[0] % 16, body), r.data);
  }

  /** The loop over the filters of a SUBSCRIBE or UNSUBSCRIBE body. */
  method ParseFilters(body: Bytes, start: nat, withQos: bool) returns (r: Result<seq<Bytes>>)
    requires start <= |body|
    ensures r == Filters(body[start..], withQos)
  {
    hide DecodeString;
    var offset, found := start, [];
    assert Prepend([], Filters(body[start..], withQos)) == Filters(body[start..], withQos) by {
      PrependNothing(Filters(body[start..], withQos));
    }
    while offset < |body|
      invariant start <= offset <= |body|
      invariant Filters(body[start..], withQos) == Prepend(found, Filters(body[offset..], withQos))
      decreases |body| - offset
    {
      var next := DecodeString(body[offset..]);
      if next.Err? {
        return Err(next.error);
      }
      var end := offset + next.value.1;
      if withQos {
        if end >= |body| {
          return Err(NoQos);
        }
        end := end + 1;
      }
      assert body[offset..][end - offset..] == body[end..];
      PrependTwice(found, [next.value.0], Filters(body[end..], withQos));
      found := found + [next.value.0];
      offset := end;
    }
    assert found + [] == found;
    r := Ok(found);
  }

  lemma {:induction false} PrependNothing(r: Result<seq<Bytes>>)
    ensures Prepend([], r) == r
  {
    if r.Ok? {
      assert [] + r.value == r.value;
    }
  }

  lemma {:induction false} PrependTwice(a: seq<Bytes>, b: seq<Bytes>, r: Result<seq<Bytes>>)
    ensures Prepend(a, Prepend(b, r)) == Prepend(a + b, r)
  {
    if r.Ok? {
      assert a + (b + r.value) == a + b + r.value;
    }
  }

  /** What the broker does with one packet: `_handle_publish` up to the point where it passes the message
      on, `_handle_subscribe` and `_handle_unsubscribe`. */
  method HandlePacket(loads: Loads, f: Frame) returns (r: Result<seq<Action>>)
    ensures r == Handle(loads, f)
  {
    hide Filters; hide DecodePublish;
    if f.kind == PUBLISH {
      var m := DecodePublish(f.flags, f.body);
      if m.Err? {
        return Err(m.error);
      }
      if !loads(m.value.payload) {
        return Err(BadPayload);
      }
      return Ok([Published(m.value)]);
    } else if f.kind == SUBSCRIBE || f.kind == UNSUBSCRIBE {
      if |f.body| < 2 {
        return Err(NoPacketId);
      }
      var filters := ParseFilters(f.body, 2, f.kind == SUBSCRIBE);
      if filters.Err? {
        return Err(filters.error);
      }
      if f.kind == UNSUBSCRIBE {
        return Ok([Unsubscribed(filters.value)]);
      }
      if |filters.value| > MAX_FILTERS {
        return Err(TooManyFilters);
      }
      return Ok([Subscribed(filters.value)]);
    }
    r := Ok([]);
  }

  /** The session of `s`, with what was done before. */
  function Continued(loads: Loads, acts: seq<Action>, s: Bytes): (seq<Action>, Ending) {
    (acts + Session(loads, s).0, Session(loads, s).1)
  }

  /** How a session ends at its next frame. */
  lemma {:induction false} SessionEnds(loads: Loads, acts: seq<Action>, s: Bytes)
    ensures var got := ReadFrame(s);
            && (got.Eof? ==> Continued(loads, acts, s) == (acts, CleanEnd))
            && (got.Closed? ==> Continued(loads, acts, s) == (acts, ConnectionLost))
            && (got.Got? && got.frame.kind == DISCONNECT ==> Continued(loads, acts, s) == (acts, Disconnected))
            && (got.Got? && got.frame.kind != DISCONNECT && Handle(loads, got.frame).Err? ==>
                  Continued(loads, acts, s) == (acts, Failed(Handle(loads, got.frame).error)))
  {
    hide ReadFrame; hide Handle;
    assert acts + [] == acts;
  }

  /** How it goes on. */
  lemma {:induction false} SessionGoesOn(loads: Loads, acts: seq<Action>, s: Bytes)
    requires ReadFrame(s).Got? && ReadFrame(s).frame.kind != DISCONNECT && Handle(loads, ReadFrame(s).frame).Ok?
    ensures var more := Handle(loads, ReadFrame(s).frame).value;
            Continued(loads, acts, s) == Continued(loads, acts + more, ReadFrame(s).rest)
  {
    hide ReadFrame; hide Handle;
    var more, rest := Handle(loads, ReadFrame(s).frame).value, Session(loads, ReadFrame(s).rest).0;
    assert acts + (more + rest) == acts + more + rest;
  }

  lemma {:induction false} SessionStarts(loads: Loads, s: Bytes)
    ensures Continued(loads, [], s) == Session(loads, s)
  {
    hide Session;
    assert [] + Session(loads, s).0 == Session(loads, s).0;
  }

  /** The broker's connection loop: what it is made to do, and how it ends. */
  method Serve(loads: Loads, r: Reader) returns (acts: seq<Action>, end: Ending)
    modifies r
    ensures (acts, end) == Session(loads, old(r.data))
  {
    hide ReadFrame; hide Handle; hide Session; hide Continued;
    acts := [];
    SessionStarts(loads, r.data);
    while true
      invariant Session(loads, old(r.data)) == Continued(loads, acts, r.data)
      decreases |r.data|
    {
      SessionEnds(loads, acts, r.data);
      ghost var s := r.data;
      var got := NextFrame(r);
      if got.Eof? {
        return acts, CleanEnd;
      }
      if got.Closed? {
        return acts, ConnectionLost;
      }
      if got.frame.kind == DISCONNECT {
        return acts, Disconnected;
      }
      var more := HandlePacket(loads, got.frame);
      if more.Err? {
        return acts, Failed(more.error);
      }
      SessionGoesOn(loads, acts, s);
      acts := acts + more.value;
    }
  }

  /** The client's `_read_loop`. */
  method ClientServe(loads: Loads, r: Reader) returns (delivered: seq<(Bytes, Bytes)>, end: Ending)
    modifies r
    ensures (delivered, end) == ClientSession(loads, old(r.data))
  {
    hide ReadFrame; hide DecodePublish; hide ClientDecodePublish;
    delivered := [];
    assert [] + ClientSession(loads, r.data).0 == ClientSession(loads, r.data).0;
    while true
      invariant ClientSession(loads, old(r.data))
             == (delivered + ClientSession(loads, r.data).0, ClientSession(loads, r.data).1)
      decreases |r.data|
    {
      ghost var s := r.data;
      assert delivered + [] == delivered;
      var got := ClientNextFrame(r);
      if got.Eof? {
        return delivered, CleanEnd;
      }
      if got.Closed? {
        return delivered, ConnectionLost;
      }
      if got.frame.kind == PUBLISH {
        var m := ClientDecodePublish(got.frame.flags, got.frame.body);
        if m.Err? {
          return delivered, Failed(m.error);
        }
        if !loads(m.value.1) {
          return delivered, Failed(BadPayload);
        }
        assert delivered + ClientSession(loads, s).0 == delivered + [m.value] + ClientSession(loads, r.data).0;
        delivered := delivered + [m.value];
      }
    }
  }
}

/** Topic filters (section 4.7 of MQTT 3.1.1) and delivery to subscribers. */
module MqttRouting {
  import opened MqttCodec
  import opened MqttConnection

  const SLASH: Byte := 47
  const PLUS: Bytes := [43]
  const HASH: Bytes := [35]

  /** The levels of a topic or filter: what lies between its slashes. */
  function Split(s: Bytes): (levels: seq<Bytes>)
    ensures |levels| >= 1
  {
    if s == [] then [[]]
    else
      var rest := Split(s[1..]);
      if s[0] == SLASH then [[]] + rest else [[s[0]] + rest[0]] + rest[1..]
  }

  function Join(levels: seq<Bytes>): Bytes
    requires |levels| >= 1
  {
    if |levels| == 1 then levels[0] else levels[0] + [SLASH] + Join(levels[1..])
  }

  /** Splitting loses nothing and leaves no slash inside a level. */
  lemma {:induction false} SplitJoin(s: Bytes)
    ensures Join(Split(s)) == s
    ensures forall i :: 0 <= i < |Split(s)| ==> SLASH !in Split(s)[i]
  {
    if s != [] {
      var rest := Split(s[1..]);
      SplitJoin(s[1..]);
      if s[0] == SLASH {
        assert Split(s)[1..] == rest;
        assert s == [] + [SLASH] + s[1..];
      } else {
        assert Split(s)[1..] == rest[1..];
        assert s == [s[0]] + s[1..];
        if |rest| == 1 {
        } else {
          assert [s[0]] + (rest[0] + [SLASH] + Join(rest[1..])) == [s[0]] + rest[0] + [SLASH] + Join(rest[1..]);
        }
      }
    }
  }

  /** Matching level by level. */
  predicate MatchLevels(filter: seq<Bytes>, topic: seq<Bytes>) {
    if filter == [] then topic == []
    else if filter[0] == HASH then true
    else topic != [] && (filter[0] == PLUS || filter[0] == topic[0]) && MatchLevels(filter[1..], topic[1..])
  }

  predicate Matches(filter: Bytes, topic: Bytes) {
    MatchLevels(Split(filter), Split(topic))
  }

  /** The levels before the first multi-level wildcard. */
  function BeforeHash(filter: seq<Bytes>): (n: nat)
    ensures n <= |filter|
    ensures n < |filter| ==> filter[n] == HASH
    ensures forall i :: 0 <= i < n ==> filter[i] != HASH
  {
    if filter == [] || filter[0] == HASH then 0 else 1 + BeforeHash(filter[1..])
  }

  /** What a match means: the levels up to the first "#" agree one by one, where "+" agrees with any
      level, and either a "#" takes the rest, which may be nothing, or there is no rest. */
  lemma {:induction false} MatchMeaning(filter: seq<Bytes>, topic: seq<Bytes>)
    ensures MatchLevels(filter, topic) <==>
            var n := BeforeHash(filter);
            && (if n < |filter| then n <= |topic| else |topic| == n)
            && forall i :: 0 <= i < n ==> filter[i] == PLUS || filter[i] == topic[i]
  {
    if filter != [] && filter[0] != HASH && topic != [] {
      MatchMeaning(filter[1..], topic[1..]);
      var n := BeforeHash(filter);
      assert n == 1 + BeforeHash(filter[1..]);
      assert n <= |topic| ==>
        forall i :: 1 <= i < n ==> filter[i] == filter[1..][i - 1] && topic[i] == topic[1..][i - 1];
    }
  }

  /** Section 4.7.1.2: "a/#" also matches its parent level "a". */
  lemma {:induction false} HashMatchesParent(parent: seq<Bytes>)
    requires forall i :: 0 <= i < |parent| ==> parent[i] != HASH
    ensures MatchLevels(parent + [HASH], parent)
  {
    var filter := parent + [HASH];
    MatchMeaning(filter, parent);
    assert filter[|parent|] == HASH;
    assert forall i :: 0 <= i < |parent| ==> filter[i] == parent[i];
  }

  /** In bytes: "a/+" matches "a/b" and not "a", and "a/#" matches "a". */
  lemma {:induction false} FilterExamples()
    ensures Matches([0x61, 0x2F, 0x2B], [0x61, 0x2F, 0x62]) && !Matches([0x61, 0x2F, 0x2B], [0x61])
    ensures Matches([0x61, 0x2F, 0x23], [0x61]) && Matches([0x61, 0x2F, 0x23], [0x61, 0x2F, 0x62])
  {
    SplitOne(0x61);
    SplitTwo(0x61, 0x2B);
    SplitTwo(0x61, 0x62);
    SplitTwo(0x61, 0x23);
    assert MatchLevels([], []) && !MatchLevels([[0x2B]], []);
    assert [[0x61], [0x2B]][1..] == [[0x2B]] && [[0x61], [0x62]][1..] == [[0x62]] && [[0x61], [0x23]][1..] == [[0x23]];
    assert [[0x2B]][1..] == [] && [[0x62]][1..] == [] && [[0x61]][1..] == [];
    assert MatchLevels([[0x2B]], [[0x62]]) && MatchLevels([[0x23]], []) && MatchLevels([[0x23]], [[0x62]]);
  }

  lemma {:induction false} SplitOne(a: Byte)
    requires a != 0x2F
    ensures Split([a]) == [[a]]
  {
    var rest := Split([a][1..]);
    assert [a][1..] == [];
    assert rest == [[]] && rest[1..] == [];
    assert [a] + rest[0] == [a];
  }

  lemma {:induction false} SplitTwo(a: Byte, b: Byte)
    requires a != 0x2F && b != 0x2F
    ensures Split([a, 0x2F, b]) == [[a], [b]]
  {
    SplitOne(b);
    var s, t := [a, 0x2F, b], [0x2F, b];
    assert s[1..] == t && t[1..] == [b];
    assert Split(t) == [[]] + [[b]];
    assert Split(t)[0] == [] && Split(t)[1..] == [[b]];
    assert [a] + Split(t)[0] == [a];
  }

  /** `mqtt_topic_matches`, with its two cursors. */
  method TopicMatches(pattern: Bytes, topic: Bytes) returns (b: bool)
    ensures b <==> Matches(pattern, topic)
  {
    var p, t := Split(pattern), Split(topic);
    var pi, ti := 0, 0;
    while pi < |p| && ti < |t|
      invariant pi <= |p| && ti <= |t|
      invariant Matches(pattern, topic) <==> MatchLevels(p[pi..], t[ti..])
    {
      if p[pi] == HASH {
        return true;
      }
      if p[pi] == PLUS {
        pi, ti := pi + 1, ti + 1;
        continue;
      }
      if p[pi] != t[ti] {
        return false;
      }
      pi, ti := pi + 1, ti + 1;
    }
    if pi < |p| && p[pi] == HASH {
      return true;
    }
    return pi == |p| && ti == |t|;
  }

  // ----- What a subscriber gets

  /** Some filter of a client matches the topic. */
  ghost predicate Accepts(filters: set<Bytes>, topic: Bytes) {
    exists f :: f in filters && Matches(f, topic)
  }

  /** The messages whose topic a client has subscribed to, in order. */
  ghost function Wanted(filters: set<Bytes>, ms: seq<Message>): seq<Message> {
    if ms == [] then []
    else
      var m := ms[|ms| - 1];
      Wanted(filters, ms[..|ms| - 1]) + if Accepts(filters, m.topic) then [m] else []
  }

  lemma {:induction false} WantedSendable(filters: set<Bytes>, ms: seq<Message>)
    requires AllSendable(ms)
    ensures AllSendable(Wanted(filters, ms))
  {
    hide Sendable; hide Accepts;
    if ms != [] {
      WantedSendable(filters, ms[..|ms| - 1]);
    }
  }

  function Packets(ms: seq<Message>): seq<Bytes>
    requires AllSendable(ms)
  {
    seq(|ms|, i requires 0 <= i < |ms| => Wire(ms[i]))
  }

  /** The packets that a client with these filters is sent for the actions of another connection. */
  ghost function Relayed(filters: set<Bytes>, acts: seq<Action>): seq<Bytes>
    requires Relayable(acts)
  {
    RelayableMessages(acts);
    WantedSendable(filters, Messages(acts));
    ForwardedSendable(Wanted(filters, Messages(acts)));
    Packets(ForwardedAll(Wanted(filters, Messages(acts))))
  }

  /** The packets for one action. */
  ghost function Copies(filters: set<Bytes>, a: Action): seq<Bytes>
    requires a.Published? ==> Sendable(a.message)
  {
    if a.Published? && Accepts(filters, a.message.topic) then
      ForwardedOne(a.message);
      [Wire(Forwarded(a.message))]
    else []
  }

  lemma {:induction false} ForwardedOne(m: Message)
    requires Sendable(m)
    ensures Sendable(Forwarded(m))
  {
    hide ValidUtf8;
  }

  lemma {:induction false} RelayedAppend(filters: set<Bytes>, acts: seq<Action>, a: Action)
    requires Relayable(acts + [a])
    ensures Relayable(acts) && (a.Published? ==> Sendable(a.message))
    ensures Relayed(filters, acts + [a]) == Relayed(filters, acts) + Copies(filters, a)
  {
    hide Sendable; hide Wire; hide Messages; hide Accepts;
    assert a in acts + [a];
    assert forall x :: x in acts ==> x in acts + [a];
    MessagesAppend(acts, a);
    var ms := Messages(acts);
    if a.Published? {
      assert (ms + [a.message])[..|ms|] == ms;
    } else {
      assert ms + [] == ms;
    }
  }

  lemma {:induction false} OneAction(loads: Loads, f: Frame)
    ensures var r := Handle(loads, f);
            r.Ok? && r.value != [] ==>
              r.value == [r.value[0]] && (r.value[0].Published? ==> Sendable(r.value[0].message))
  {
    hide Handle; hide Sendable;
    HandledRelayable(loads, f);
  }

  lemma {:induction false} NothingRelayed(filters: set<Bytes>)
    ensures Relayable([]) && Relayed(filters, []) == []
  {
  }

  /** The bytes on the wire to a client. */
  function Stream(packets: seq<Bytes>): Bytes {
    if packets == [] then [] else packets[0] + Stream(packets[1..])
  }

  lemma {:induction false} StreamOfPackets(ms: seq<Message>)
    requires AllSendable(ms)
    ensures Stream(Packets(ms)) == WireAll(ms)
  {
    hide Wire; hide Sendable;
    if ms != [] {
      StreamOfPackets(ms[1..]);
      assert Packets(ms)[1..] == Packets(ms[1..]);
    }
  }

  /** From any connection through the broker to a subscriber: whatever bytes arrive on the connection, the
      subscriber reads, as far as it can load them, exactly the topics and payloads of the messages
      published there that one of its filters matches, in order; all of them exactly when it can load
      every one. */
  lemma {:induction false} RelayPreservesContents(peer: Loads, filters: set<Bytes>, acts: seq<Action>)
    requires Relayable(acts)
    ensures var wanted := Wanted(filters, Messages(acts));
            var read := ClientSession(peer, Stream(Relayed(filters, acts)));
            && var j := Loadable(peer, wanted);
            && read == (Contents(wanted[..j]), EndAfter(j == |wanted|))
            && (read == (Contents(wanted), CleanEnd) <==> forall m :: m in wanted ==> peer(m.payload))
  {
    hide ClientSession; hide WireAll; hide Sendable; hide Loadable; hide Contents; hide Wanted; hide Messages;
    hide ForwardedAll; hide Stream; hide Packets;
    RelayableMessages(acts);
    WantedSendable(filters, Messages(acts));
    var wanted := Wanted(filters, Messages(acts));
    ForwardedSendable(wanted);
    StreamOfPackets(ForwardedAll(wanted));
    ForwardedRead(peer, wanted);
  }

  /** In particular for a connection that sends PUBLISH packets back to back. */
  lemma {:induction false} RelayOfPublishes(broker: Loads, peer: Loads, filters: set<Bytes>, ms: seq<Message>)
    requires AllSendable(ms)
    ensures var acts := Session(broker, WireAll(ms)).0;
            && Relayable(acts)
            && var sent := Wanted(filters, ms[..Loadable(broker, ms)]);
            && var j := Loadable(peer, sent);
            && ClientSession(peer, Stream(Relayed(filters, acts))) == (Contents(sent[..j]), EndAfter(j == |sent|))
  {
    hide Session; hide ClientSession; hide WireAll; hide Sendable; hide Loadable; hide Contents; hide Wanted;
    hide Relayed; hide Stream; hide Messages;
    var got := ms[..Loadable(broker, ms)];
    StreamRoundTrip(broker, ms);
    MessagesOfPublishes(got);
    assert Relayable(Publishes(got)) by { PublishesRelayable(got); }
    RelayPreservesContents(peer, filters, Publishes(got));
  }

  lemma {:induction false} PublishesRelayable(ms: seq<Message>)
    requires AllSendable(ms)
    ensures Relayable(Publishes(ms))
  {
    hide Sendable;
  }

  type ClientId = Bytes

  function Remove(q: seq<ClientId>, c: ClientId): (r: seq<ClientId>) {
    if q == [] then []
    else Remove(q[..|q| - 1], c) + if q[|q| - 1] == c then [] else [q[|q| - 1]]
  }

  lemma {:induction false} RemoveKeeps(q: seq<ClientId>, c: ClientId)
    ensures forall x :: x in Remove(q, c) <==> x in q && x != c
    ensures Unrepeated(q) ==> Unrepeated(Remove(q, c))
  {
    if q != [] {
      var init, last := q[..|q| - 1], q[|q| - 1];
      RemoveKeeps(init, c);
      assert q == init + [last];
      assert Unrepeated(q) ==> last !in init;
    }
  }

  ghost predicate Unrepeated(q: seq<ClientId>) {
    forall i, j :: 0 <= i < j < |q| ==> q[i] != q[j]
  }

  lemma {:induction false} NotYet(q: seq<ClientId>, i: nat)
    requires Unrepeated(q) && i < |q|
    ensures q[i] !in q[..i]
  {
  }

  type Subscriptions = map<ClientId, set<Bytes>>
  type Outboxes = map<ClientId, seq<Bytes>>

  /** From the first tables to the second, while client `me` was served: everybody else has the same
      filters, and has been sent what `acts` relay unless its writes fail. */
  ghost predicate Served(subs0: Subscriptions, out0: Outboxes, subs: Subscriptions, out: Outboxes,
                         me: ClientId, broken: set<ClientId>, acts: seq<Action>)
    requires Relayable(acts)
  {
    && subs0.Keys == out0.Keys == subs.Keys == out.Keys
    && forall c :: c in subs && c != me ==>
         subs[c] == subs0[c] && out[c] == out0[c] + if c in broken then [] else Relayed(subs0[c], acts)
  }

  /** The same for one action. */
  ghost predicate ServedOne(subs: Subscriptions, out: Outboxes, subs': Subscriptions, out': Outboxes,
                            me: ClientId, broken: set<ClientId>, a: Action)
    requires a.Published? ==> Sendable(a.message)
  {
    && subs.Keys == out.Keys == subs'.Keys == out'.Keys
    && forall c :: c in subs && c != me ==>
         subs'[c] == subs[c] && out'[c] == out[c] + if c in broken then [] else Copies(subs[c], a)
  }

  lemma {:induction false} ServedNothing(subs: Subscriptions, out: Outboxes, me: ClientId, broken: set<ClientId>)
    requires subs.Keys == out.Keys
    ensures Relayable([]) && Served(subs, out, subs, out, me, broken, [])
  {
    hide Relayed;
    assert Relayable([]);
    forall c | c in subs && c != me ensures out[c] == out[c] + if c in broken then [] else Relayed(subs[c], []) {
      NothingRelayed(subs[c]);
    }
  }

  lemma {:induction false} ServedMore(subs0: Subscriptions, out0: Outboxes, subs: Subscriptions, out: Outboxes,
                                      subs': Subscriptions, out': Outboxes,
                                      me: ClientId, broken: set<ClientId>, acts: seq<Action>, a: Action)
    requires Relayable(acts) && Served(subs0, out0, subs, out, me, broken, acts)
    requires a.Published? ==> Sendable(a.message)
    requires ServedOne(subs, out, subs', out', me, broken, a)
    ensures Relayable(acts + [a]) && Served(subs0, out0, subs', out', me, broken, acts + [a])
  {
    hide Relayed; hide Copies; hide Sendable;
    assert Relayable(acts + [a]);
    forall c | c in subs && c != me
      ensures out'[c] == out0[c] + if c in broken then [] else Relayed(subs0[c], acts + [a])
    {
      RelayedAppend(subs0[c], acts, a);
    }
  }

  class Broker {
    var order: seq<ClientId>                        // connected clients, oldest first
    var subscriptions: Subscriptions
    var outbox: Outboxes                            // packets written to each client

    ghost predicate Valid() reads this {
      && subscriptions.Keys == outbox.Keys
      && (forall i :: 0 <= i < |order| ==> order[i] in subscriptions)
      && (forall c :: c in subscriptions ==> c in order)
      && Unrepeated(order)
    }

    ghost predicate Wants(c: ClientId, topic: Bytes) reads this`subscriptions
      requires c in subscriptions
    {
      Accepts(subscriptions[c], topic)
    }

    /** The loop over one client's filters, in any order, that stops at the first match. */
    method AnyMatch(c: ClientId, topic: Bytes) returns (b: bool)
      requires c in subscriptions
      ensures b <==> Wants(c, topic)
    {
      var rest := subscriptions[c];
      while rest != {}
        invariant rest <= subscriptions[c]
        invariant forall f :: f in subscriptions[c] - rest ==> !Matches(f, topic)
      {
        var f :| f in rest;
        var m := TopicMatches(f, topic);
        if m {
          return true;
        }
        rest := rest - {f};
      }
      return false;
    }

    /** What one fan-out owes to client `c`. */
    ghost function Owed(c: ClientId, topic: Bytes, packet: Bytes, skip: set<ClientId>): seq<Bytes>
      reads this`subscriptions
      requires c in subscriptions
    {
      if c !in skip && Wants(c, topic) then [packet] else []
    }

    /** A whole connection of client `me`: each packet is acted on as it arrives.  Every other client whose
        connection takes the writes is sent exactly what the connection publishes and it wants, and keeps
        its filters; in the end `me` is gone. */
    method ServeClient(loads: Loads, r: Reader, me: ClientId, broken: set<ClientId>)
      returns (ghost acts: seq<Action>, end: Ending)
      requires Valid() && me in subscriptions
      modifies this, r
      ensures Valid() && subscriptions.Keys == old(subscriptions.Keys) - {me}
      ensures (acts, end) == Session(loads, old(r.data)) && Relayable(acts)
      ensures forall c :: c in subscriptions ==>
                && subscriptions[c] == old(subscriptions)[c]
                && outbox[c] == old(outbox)[c] + if c in broken then [] else Relayed(old(subscriptions)[c], acts)
    {
      hide Session; hide Relayed; hide Relayable; hide Unrepeated; hide Remove;
      acts, end := ActOnPackets(loads, r, me, broken);
      RemoveKeeps(order, me);
      ghost var before := order;
      order := Remove(order, me);
      subscriptions := subscriptions - {me};
      outbox := outbox - {me};
      forall i | 0 <= i < |order| ensures order[i] in subscriptions {
        assert order[i] in order;
        assert order[i] in before && order[i] != me;
      }
    }

    method ActOnPackets(loads: Loads, r: Reader, me: ClientId, broken: set<ClientId>)
      returns (ghost acts: seq<Action>, end: Ending)
      requires Valid() && me in subscriptions
      modifies this`subscriptions, this`outbox, r
      ensures Valid() && order == old(order) && (acts, end) == Session(loads, old(r.data)) && Relayable(acts)
      ensures Served(old(subscriptions), old(outbox), subscriptions, outbox, me, broken, acts)
    {
      hide ReadFrame; hide Handle; hide Session; hide Continued;
      hide Relayed; hide Relayable; hide Served; hide ServedOne; hide Sendable; hide Unrepeated;
      ghost var subs0, out0 := subscriptions, outbox;
      acts := [];
      ServedNothing(subs0, out0, me, broken);
      SessionStarts(loads, r.data);
      while true
        invariant Valid() && me in subscriptions && order == old(order) && Relayable(acts)
        invariant Served(subs0, out0, subscriptions, outbox, me, broken, acts)
        invariant Session(loads, old(r.data)) == Continued(loads, acts, r.data)
        decreases |r.data|
      {
        SessionEnds(loads, acts, r.data);
        ghost var s := r.data;
        var got := NextFrame(r);
        if got.Eof? {
          return acts, CleanEnd;
        }
        if got.Closed? {
          return acts, ConnectionLost;
        }
        if got.frame.kind == DISCONNECT {
          return acts, Disconnected;
        }
        var more := HandlePacket(loads, got.frame);
        if more.Err? {
          return acts, Failed(more.error);
        }
        OneAction(loads, got.frame);
        SessionGoesOn(loads, acts, s);
        if more.value != [] {
          ghost var subs, out := subscriptions, outbox;
          Act(more.value[0], me, broken);
          ServedMore(subs0, out0, subs, out, subscriptions, outbox, me, broken, acts, more.value[0]);
        } else {
          assert acts + more.value == acts;
        }
        acts := acts + more.value;
      }
    }

    /** One action of client `me`. */
    method Act(a: Action, me: ClientId, broken: set<ClientId>)
      requires Valid() && me in subscriptions && (a.Published? ==> Sendable(a.message))
      modifies this`subscriptions, this`outbox
      ensures Valid() && me in subscriptions && outbox[me] == old(outbox)[me]
      ensures ServedOne(old(subscriptions), old(outbox), subscriptions, outbox, me, broken, a)
      ensures subscriptions[me] == match a
                                   case Published(_) => old(subscriptions)[me]
                                   case Subscribed(filters) => old(subscriptions)[me] + set f | f in filters
                                   case Unsubscribed(filters) => old(subscriptions)[me] - set f | f in filters
    {
      hide Accepts; hide Sendable; hide Wire; hide Unrepeated;
      match a {
        case Published(m) =>
          ForwardedOne(m);
          FanOut(m.topic, Wire(Forwarded(m)), {me}, broken);
        case Subscribed(filters) => Subscribe(me, filters);
        case Unsubscribed(filters) => Unsubscribe(me, filters);
      }
    }

    method Subscribe(me: ClientId, filters: seq<Bytes>)
      requires me in subscriptions
      modifies this`subscriptions
      ensures subscriptions == old(subscriptions)[me := old(subscriptions)[me] + set f | f in filters]
    {
      for i := 0 to |filters|
        invariant me in subscriptions && subscriptions == old(subscriptions)[me := subscriptions[me]]
        invariant subscriptions[me] == old(subscriptions)[me] + set f | f in filters[..i]
      {
        assert filters[..i + 1] == filters[..i] + [filters[i]];
        subscriptions := subscriptions[me := subscriptions[me] + {filters[i]}];
      }
      assert filters[..|filters|] == filters;
    }

    method Unsubscribe(me: ClientId, filters: seq<Bytes>)
      requires me in subscriptions
      modifies this`subscriptions
      ensures subscriptions == old(subscriptions)[me := old(subscriptions)[me] - set f | f in filters]
    {
      for i := 0 to |filters|
        invariant me in subscriptions && subscriptions == old(subscriptions)[me := subscriptions[me]]
        invariant subscriptions[me] == old(subscriptions)[me] - set f | f in filters[..i]
      {
        assert filters[..i + 1] == filters[..i] + [filters[i]];
        subscriptions := subscriptions[me := subscriptions[me] - {filters[i]}];
      }
      assert filters[..|filters|] == filters;
    }

    /** Fan-out, as `_publish_raw` does with no sender and `_handle_publish` with the sending client
        left out: one copy to each other client with a matching filter, as long as its connection
        takes the write, and nothing to anybody else. */
    method FanOut(topic: Bytes, packet: Bytes, sender: set<ClientId>, broken: set<ClientId>)
      requires Valid()
      modifies this`outbox
      ensures Valid() && outbox.Keys == old(outbox.Keys)
      ensures forall c :: c in outbox ==> outbox[c] == old(outbox[c]) + Owed(c, topic, packet, sender + broken)
    {
      hide Wants; hide Owed; hide Unrepeated;
      ghost var skip, out0 := sender + broken, outbox;
      for i := 0 to |order|
        invariant outbox.Keys == out0.Keys
        invariant forall c :: c in outbox ==>
                    outbox[c] == out0[c] + if c in order[..i] then Owed(c, topic, packet, skip) else []
      {
        NotYet(order, i);
        ghost var before := outbox;
        Deliver(order[i], topic, packet, sender, broken);
        assert order[..i + 1] == order[..i] + [order[i]];
        forall c | c in outbox
          ensures outbox[c] == out0[c] + if c in order[..i + 1] then Owed(c, topic, packet, skip) else []
        {
          assert c != order[i] ==> outbox[c] == before[c];
        }
      }
      assert order[..|order|] == order;
    }

    /** One client's turn in the fan-out. */
    method Deliver(c: ClientId, topic: Bytes, packet: Bytes, sender: set<ClientId>, broken: set<ClientId>)
      requires c in subscriptions && c in outbox
      modifies this`outbox
      ensures outbox == old(outbox)[c := old(outbox)[c] + Owed(c, topic, packet, sender + broken)]
    {
      hide Wants; hide Owed;
      OwedCopies(c, topic, packet, sender, broken);
      assert outbox[c] + [] == outbox[c];
      if c !in sender {
        var wanted := AnyMatch(c, topic);
        if wanted && c !in broken {
          outbox := outbox[c := outbox[c] + [packet]];
        }
      }
    }

    lemma OwedCopies(c: ClientId, topic: Bytes, packet: Bytes, sender: set<ClientId>, broken: set<ClientId>)
      requires c in subscriptions
      ensures Owed(c, topic, packet, sender + broken)
           == if c !in sender && Wants(c, topic) && c !in broken then [packet] else []
    {
    }
  }
}
