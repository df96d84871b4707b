/** libmqtt/MQTTSerializePublish.c and MQTTDeserializePublish.c: PUBLISH there and back. */
module MqttPublish {
  import opened Buffers
  import opened MqttPacket
  import opened MqttStrings
  import opened Options

  /** The arguments of MQTTSerialize_publish besides the buffer. */
  datatype Publish = Publish(dup: octet, qos: int, retained: octet, packetId: nat, topic: MqttString,
                             payload: seq<octet>)

  function PublishLength(qos: int, topic: MqttString, payloadLen: nat): nat {
    2 + StringLength(topic) + payloadLen + (if qos > 0 then 2 else 0)
  }

  /** The remaining length that is predicted and announced. */
  function Predicted(p: Publish): nat {
    PublishLength(p.qos, p.topic, |p.payload|)
  }

  /** Section 3.3 of MQTT 3.1.1: topic name, packet identifier above QoS 0, payload. */
  function Body(p: Publish): seq<octet> {
    StringField(Written(p.topic)) + Identifier(p) + p.payload
  }

  function Identifier(p: Publish): seq<octet> {
    if p.qos > 0 then TwoBytes(p.packetId) else []
  }

  function Packet(p: Publish): seq<octet> {
    Start(HeaderByte(PUBLISH, p.dup, p.qos, p.retained), Predicted(p)) + Body(p)
  }

  /** The string length that counts is the one that is written, and the length field can carry the packet. */
  predicate Sendable(p: Publish) {
    Excess(p.topic) == 0 && Predicted(p) <= MAX_REMAINING
  }

  /** The prediction is wrong by as much as the two string lengths differ. */
  lemma PredictedLength(p: Publish)
    ensures |Body(p)| - Predicted(p) == Excess(p.topic)
  {
  }

  /**
   The check against `buflen` keeps the whole packet inside the buffer, whatever its size, exactly if the topic is
   written at most as long as it is counted, with one byte to spare at four lengths; beyond the lengths that the
   standard allows it does so only if the topic is counted too long.
   */
  lemma StaysInsideIff(p: Publish)
    ensures var (n, excess) := (Predicted(p), Excess(p.topic));
            (forall buflen: nat :: Contained(n, |Body(p)|, buflen)) <==>
              if n in {127, 16383, 2097150, 2097151} then excess <= 1
              else if n <= MAX_REMAINING then excess <= 0
              else excess + |LengthField(n)| <= 4
  {
    PredictedLength(p);
    ContainedIff(Predicted(p), |Body(p)|);
  }

  /** With a topic whose two forms differ, a packet that passes the check ends one byte after the buffer. */
  lemma TwoFormsOverflow()
    ensures var p := Publish(0, 0, 0, 0, TWO_FORMS, []);
            PacketLength(Predicted(p)) == 4 && |Packet(p)| == 5 && !Contained(Predicted(p), |Body(p)|, 4)
  {
  }

  /**
   Nothing at all is written if the packet might not fit. What is written lies in the memory behind `buf`, and
   inside `buflen` under the condition of StaysInsideIff.
   */
  method SerializePublish(buf: array<octet>, buflen: nat, p: Publish) returns (rc: int)
    requires buflen <= buf.Length && (PacketLength(Predicted(p)) <= buflen ==> |Packet(p)| <= buf.Length)
    modifies buf
    ensures PacketLength(Predicted(p)) > buflen ==> rc == MQTTPACKET_BUFFER_TOO_SHORT && buf[..] == old(buf[..])
    ensures PacketLength(Predicted(p)) <= buflen ==>
              && rc == |Packet(p)| && buf[..] == Splice(old(buf[..]), 0, Packet(p))
              && (Contained(Predicted(p), |Body(p)|, buflen) ==> rc <= buflen)
  {
    var remaining := PublishLength(p.qos, p.topic, |p.payload|);
    if PacketLength(remaining) > buflen {
      return MQTTPACKET_BUFFER_TOO_SHORT;
    }
    var header := HeaderByte(PUBLISH, p.dup, p.qos, p.retained);
    hide Body;
    SpliceTwice(buf[..], 0, Start(header, remaining), Body(p));
    var ptr := WriteStart(buf, header, remaining);
    ptr := WriteBody(buf, ptr, p);
    rc := ptr;
  }

  method WriteBody(buf: array<octet>, ptr: nat, p: Publish) returns (next: nat)
    requires ptr + |Body(p)| <= buf.Length
    modifies buf
    ensures next == ptr + |Body(p)| && buf[..] == Splice(old(buf[..]), ptr, Body(p))
  {
    hide Splice, StringField, Identifier, Written;
    FieldLength(Written(p.topic));
    SpliceTwice(buf[..], ptr, StringField(Written(p.topic)), Identifier(p));
    SpliceTwice(buf[..], ptr, StringField(Written(p.topic)) + Identifier(p), p.payload);
    next := WriteMqttString(buf, ptr, p.topic);
    next := WriteIdentifier(buf, next, p);
    next := Copy(buf, next, p.payload);
  }

  method WriteIdentifier(buf: array<octet>, ptr: nat, p: Publish) returns (next: nat)
    requires ptr + |Identifier(p)| <= buf.Length
    modifies buf
    ensures next == ptr + |Identifier(p)| && buf[..] == Splice(old(buf[..]), ptr, Identifier(p))
  {
    next := ptr;
    if p.qos > 0 {
      next := WriteInt(buf, ptr, p.packetId);
    } else {
      SpliceNothing(buf[..], ptr);
    }
  }

  /** The out-parameters of MQTTDeserialize_publish; None where nothing was stored. */
  datatype Parsed = Parsed(rc: nat, flags: Option<Flags>, topic: Option<Field>, packetId: Option<nat>,
                           payload: Option<Span>)

  datatype Flags = Flags(dup: nat, qos: nat, retained: nat)

  /** A pointer into the buffer and a length, which may be negative. */
  datatype Span = Span(start: nat, len: int)

  /** The topic name field of a PUBLISH packet. Its characters are not read. */
  function TopicAt(s: seq<octet>): Field
    requires HasTopicLength(s)
  {
    StringAt(s, 1 + LengthAt(s).len, EndAt(s))
  }

  /** The length field can be read, and so can the two bytes of the topic's length if the packet announces them. */
  predicate HasTopicLength(s: seq<octet>) {
    HasLength(s) && (LengthAt(s).value >= 2 ==> 3 + LengthAt(s).len <= |s|)
  }

  /**
   What is read of the data: in a PUBLISH packet the length field, the two bytes of the topic's length, and the packet
   identifier after the topic. Neither the topic nor the payload need be there, and `buflen` is not looked at.
   */
  predicate Readable(s: seq<octet>) {
    && s != []
    && (HeaderType(s[0]) == PUBLISH ==>
          && HasTopicLength(s)
          && (HeaderQos(s[0]) > 0 && TopicAt(s).Field? ==> TopicAt(s).next + 2 <= |s|))
  }

  function PublishAt(s: seq<octet>): Parsed
    requires Readable(s)
  {
    if HeaderType(s[0]) != PUBLISH then Parsed(0, None, None, None, None)
    else
      var flags := Some(Flags(HeaderDup(s[0]), HeaderQos(s[0]), HeaderRetain(s[0])));
      var topic := TopicAt(s);
      if topic.Missing? then Parsed(LengthAt(s).len, flags, Some(topic), None, None)
      else
        var payload := topic.next + (if HeaderQos(s[0]) > 0 then 2 else 0);
        Parsed(1, flags, Some(topic), if HeaderQos(s[0]) > 0 then Some(IntAt(s, topic.next)) else None,
               Some(Span(payload, EndAt(s) - payload)))
  }

  /** `buf` is the memory; `buflen` is a parameter of the code that it never reads. */
  method DeserializePublish(buf: array<octet>, buflen: nat) returns (p: Parsed)
    requires Readable(buf[..])
    ensures p == PublishAt(buf[..])
  {
    p := Parsed(0, None, None, None, None);
    var header := buf[0];
    if HeaderType(header) != PUBLISH {
      return;
    }
    p := ReadAfterHeader(buf, Flags(HeaderDup(header), HeaderQos(header), HeaderRetain(header)));
  }

  /** What is read after the header byte of a PUBLISH packet. */
  method ReadAfterHeader(buf: array<octet>, flags: Flags) returns (p: Parsed)
    requires Readable(buf[..]) && HeaderType(buf[0]) == PUBLISH
    requires flags == Flags(HeaderDup(buf[0]), HeaderQos(buf[0]), HeaderRetain(buf[0]))
    ensures p == PublishAt(buf[..])
  {
    hide HasField, DecodedFrom, HeaderDup, HeaderQos, HeaderRetain, HeaderType, StringAt, IntAt;
    assert buf[1..] == buf[..][1..];
    var remaining, size := DecodeBuf(buf, 1);
    var end := 1 + size + remaining;
    var topic := ReadMqttLenString(buf, 1 + size, end);
    p := Parsed(size, Some(flags), Some(topic), None, None);
    if topic.Field? {
      var packetId, payload := ReadRest(buf, flags.qos, topic.next, end);
      p := p.(packetId := packetId, payload := Some(payload), rc := 1);
    }
  }

  /** The packet identifier, if there is one, and what is left. */
  method ReadRest(buf: array<octet>, qos: nat, start: nat, end: nat) returns (packetId: Option<nat>, payload: Span)
    requires qos > 0 ==> start + 2 <= buf.Length
    ensures packetId == if qos > 0 then Some(IntAt(buf[..], start)) else None
    ensures var first := start + (if qos > 0 then 2 else 0); payload == Span(first, end - first)
  {
    var cur := start;
    packetId := None;
    if qos > 0 {
      packetId := Some(0x100 * (buf[cur] as int) + buf[cur + 1]);
      cur := cur + 2;
    }
    payload := Span(cur, end - cur);
  }

  /** The parts of a body, read back. */
  lemma BodyRoundTrip(s: seq<octet>, cur: nat, end: nat, p: Publish)
    requires |Written(p.topic)| < 0x10000 && (p.qos > 0 ==> p.packetId < 0x10000)
    requires At(s, cur, Body(p)) && end == cur + |Body(p)|
    ensures var next := cur + 2 + |Written(p.topic)|;
            && next <= |s|
            && StringAt(s, cur, end) == Field(cur + 2, next) && Text(s, StringAt(s, cur, end)) == Written(p.topic)
            && (p.qos > 0 ==> next + 2 <= |s| && IntAt(s, next) == p.packetId)
            && next + (if p.qos > 0 then 2 else 0) + |p.payload| == end
            && At(s, end - |p.payload|, p.payload)
  {
    hide At, StringAt, Text, StringField, Written;
    var name := StringField(Written(p.topic));
    FieldLength(Written(p.topic));
    AtParts(s, cur, name + Identifier(p), p.payload);
    AtParts(s, cur, name, Identifier(p));
    StringRoundTrip(s, cur, end, Written(p.topic));
    if p.qos > 0 {
      IntRoundTrip(s, cur + |name|, p.packetId);
    }
  }

  /** The result holds the packet: the topic and the payload lie in the data, and the payload runs to its end. */
  ghost predicate Holds(s: seq<octet>, r: Parsed, p: Publish) {
    && r.rc == 1 && r.flags.Some?
    && r.flags.value.dup == p.dup && r.flags.value.qos == p.qos && r.flags.value.retained == p.retained
    && r.packetId == (if p.qos > 0 then Some(p.packetId) else None)
    && r.topic.Some? && r.topic.value.Field? && r.topic.value.start <= r.topic.value.next <= |s|
    && Text(s, r.topic.value) == Written(p.topic)
    && r.payload == Some(Span(|Packet(p)| - |p.payload|, |p.payload|))
    && At(s, |Packet(p)| - |p.payload|, p.payload)
  }

  /** Every field fits the bits or bytes that carry it. */
  predicate Carried(p: Publish) {
    && p.dup < 2 && p.retained < 2 && 0 <= p.qos < 4
    && |Written(p.topic)| < 0x10000 && (p.qos > 0 ==> p.packetId < 0x10000)
  }

  /** Deserializing a serialized packet gives back every field. */
  lemma PublishRoundTrip(s: seq<octet>, p: Publish)
    requires Sendable(p) && Carried(p) && At(s, 0, Packet(p))
    ensures Readable(s) && HeaderType(s[0]) == PUBLISH && Holds(s, PublishAt(s), p)
  {
    hide At, StringAt, StringField, Written, Start, Body, IntAt, HasField, DecodedFrom, HeaderByte, HeaderType,
         HeaderDup, HeaderQos, HeaderRetain;
    var header := HeaderByte(PUBLISH, p.dup, p.qos, p.retained);
    HeaderRoundTrip(PUBLISH, p.dup, p.qos, p.retained);
    PredictedLength(p);
    StartRoundTrip(s, header, |Body(p)|, Body(p));
    StartLength(header, |Body(p)|);
    BodyRoundTrip(s, |Start(header, |Body(p)|)|, EndAt(s), p);
  }

  lemma HeldIsCarried(s: seq<octet>, p: Publish)
    requires Readable(s) && HeaderType(s[0]) == PUBLISH && Holds(s, PublishAt(s), p)
    ensures Carried(p)
  {
    StringStands(s, 1 + LengthAt(s).len, EndAt(s));
    HeaderBits(s[0]);
    hide HeaderDup, HeaderQos, HeaderRetain, HeaderType, HasField, DecodedFrom, Written, StringField;
  }

  lemma HeaderBits(b: octet)
    ensures HeaderDup(b) < 2 && HeaderQos(b) < 4 && HeaderRetain(b) < 2
  {
  }

  /** It does so exactly if every field can be carried. */
  lemma PublishRoundTripIff(s: seq<octet>, p: Publish)
    requires Sendable(p) && At(s, 0, Packet(p))
    ensures s != [] && (Readable(s) && HeaderType(s[0]) == PUBLISH && Holds(s, PublishAt(s), p) <==> Carried(p))
  {
    AtParts(s, 0, Start(HeaderByte(PUBLISH, p.dup, p.qos, p.retained), Predicted(p)), Body(p));
    if Carried(p) {
      PublishRoundTrip(s, p);
    }
    if Readable(s) && HeaderType(s[0]) == PUBLISH && Holds(s, PublishAt(s), p) {
      HeldIsCarried(s, p);
    }
    hide At, Packet, Body, Carried, Readable, Holds, HeaderType;
  }

  /** A topic of 65536 bytes can be sent and does not come back. */
  lemma LongTopicIsCut(s: seq<octet>, topic: seq<octet>)
    requires |topic| == 0x10000 && At(s, 0, Packet(Publish(0, 0, 0, 0, MqttString(None, Some(topic)), [])))
    ensures var p := Publish(0, 0, 0, 0, MqttString(None, Some(topic)), []);
            Sendable(p) && !(Readable(s) && HeaderType(s[0]) == PUBLISH && Holds(s, PublishAt(s), p))
  {
    var p := Publish(0, 0, 0, 0, MqttString(None, Some(topic)), []);
    assert Sendable(p) && !Carried(p);
    hide *;
    PublishRoundTripIff(s, p);
  }

  // ---------- packets that are not all there ----------

  /** The announced length leaves room for the topic whose length is given. */
  predicate TopicFits(s: seq<octet>)
    requires HasTopicLength(s)
  {
    var cur := 1 + LengthAt(s).len;
    cur + 2 <= EndAt(s) && cur + 2 + IntAt(s, cur) <= EndAt(s)
  }

  /** Some topic with its length stands at the start of the body and ends inside the packet. */
  ghost predicate HasTopic(s: seq<octet>)
    requires HasLength(s)
  {
    exists t: seq<octet> ::
      |t| < 0x10000 && 1 + LengthAt(s).len + |StringField(t)| <= EndAt(s) && At(s, 1 + LengthAt(s).len, StringField(t))
  }

  /** The payload that is handed over is a part of the first `buflen` bytes. */
  predicate Inside(payload: Span, buflen: nat) {
    0 <= payload.len && payload.start + payload.len <= buflen
  }

  /** An identifier is expected where less than two bytes of the packet are left. */
  predicate IdentifierCut(s: seq<octet>)
    requires Readable(s) && HeaderType(s[0]) == PUBLISH
  {
    HeaderQos(s[0]) > 0 && TopicAt(s).Field? && EndAt(s) - TopicAt(s).next < 2
  }

  lemma TopicInLonger(s: seq<octet>, t: seq<octet>)
    requires HasTopicLength(s) && s <= t
    ensures HasTopicLength(t) && LengthAt(t) == LengthAt(s) && EndAt(t) == EndAt(s)
    ensures TopicAt(t) == TopicAt(s) && (TopicFits(s) <==> TopicFits(t))
  {
    assert s[1..] <= t[1..];
    FieldInLonger(s[1..], t[1..], 0);
    hide HasField, DecodedFrom;
  }

  /**
   What a return value of 1 means for any data, complete or not: a topic stands in the announced packet, or the length
   field has one byte, whose count is what the failing exit returns. The topic is the one in the memory `t` that goes on
   behind the data `s`. The payload that is handed over lies inside the data exactly if the announced packet does and
   the identifier is not cut.
   */
  lemma PublishAcceptedIff(s: seq<octet>, t: seq<octet>, buflen: nat)
    requires Readable(s) && HeaderType(s[0]) == PUBLISH && s <= t && EndAt(s) <= |t|
    ensures HasLength(t) && EndAt(t) == EndAt(s) && (PublishAt(s).rc == 1 <==> HasTopic(t) || s[1] < 128)
    ensures var payload := PublishAt(s).payload;
            && (payload.Some? <==> HasTopic(t)) && (HasTopic(t) <==> TopicFits(s))
            && (payload.Some? ==> (Inside(payload.value, buflen) <==> EndAt(s) <= buflen && !IdentifierCut(s)))
  {
    assert s[1..][0] == s[1];
    TopicInLonger(s, t);
    StringFoundIff(t, 1 + LengthAt(t).len, EndAt(t));
    hide StringField, HasField, DecodedFrom, At;
  }

  /** The bytes that are read after the length field end here: with the identifier, or with the topic's length. */
  function ReadEnd(s: seq<octet>): nat
    requires Readable(s) && HeaderType(s[0]) == PUBLISH
  {
    if HeaderQos(s[0]) > 0 && TopicAt(s).Field? then TopicAt(s).next + 2
    else if LengthAt(s).value >= 2 then 3 + LengthAt(s).len
    else 0
  }

  /**
   After the length field, reading stays inside the first `buflen` bytes, which the code does not check, exactly if they
   reach to ReadEnd, as they do if the announced packet lies inside them and the identifier is not cut. What is behind
   them has then no influence.
   */
  lemma ReadsInsideIff(s: seq<octet>, buflen: nat)
    requires Readable(s) && HeaderType(s[0]) == PUBLISH && buflen <= |s| && HasLength(s[..buflen])
    ensures Readable(s[..buflen]) <==> ReadEnd(s) <= buflen
    ensures Readable(s[..buflen]) ==> PublishAt(s[..buflen]) == PublishAt(s)
    ensures EndAt(s) <= buflen && !IdentifierCut(s) ==> ReadEnd(s) <= buflen
  {
    hide HasField, DecodedFrom, HeaderType, HeaderQos, HeaderDup, HeaderRetain;
    var t := s[..buflen];
    assert t[1..] <= s[1..];
    FieldInLonger(t[1..], s[1..], 0);
    if LengthAt(s).value >= 2 ==> 3 + LengthAt(s).len <= buflen {
      TopicInLonger(t, s);
    }
  }

  /** A PUBLISH that announces no body is reported as read. */
  lemma TruncatedIsAccepted()
    ensures var s := [0x30, 0]; Readable(s) && !HasTopic(s) && PublishAt(s).rc == 1 && PublishAt(s).payload == None
  {
    var s := [0x30, 0];
    assert s[1..] == [0];
    PublishAcceptedIff(s, s, 2);
  }

  /** A PUBLISH that announces 100 bytes is reported as read from five, with a payload of 97 bytes behind them. */
  lemma CutPayloadIsAccepted()
    ensures var s := [0x30, 100, 0, 1, 0x61];
            && Readable(s) && PublishAt(s).rc == 1 && PublishAt(s).payload == Some(Span(5, 97))
            && !Inside(PublishAt(s).payload.value, |s|)
  {
    var s := [0x30, 100, 0, 1, 0x61];
    assert s[1..][0] == 100;
  }
  /**
   A PUBLISH of QoS 1 that ends with its topic is reported as read, with whatever bytes lie behind it as packet
   identifier and a payload of -2 bytes.
   */
  lemma CutIdentifierIsAccepted(a: octet, b: octet)
    ensures var s := [0x32, 3, 0, 1, 0x61, a, b];
            && Readable(s) && IdentifierCut(s) && PublishAt(s).rc == 1
            && PublishAt(s).packetId == Some(0x100 * a + b) && PublishAt(s).payload == Some(Span(7, -2))
            && EndAt(s) == 5 && !Readable(s[..5])
  {
    var s := [0x32, 3, 0, 1, 0x61, a, b];
    assert s[1..][0] == 3 && s[..5][1..][0] == 3;
    assert HasLength(s[..5]);
    ReadsInsideIff(s, 5);
  }

  // ---------- a packet, byte by byte ----------

  /** "hi" published on "a/b". */
  function Hello(dup: octet, qos: int, retained: octet): Publish {
    Publish(dup, qos, retained, 10, MqttString(None, Some([0x61, 0x2f, 0x62])), [0x68, 0x69])
  }

  lemma BodyBytes()
    ensures Body(Hello(1, 2, 0)) == [0, 3, 0x61, 0x2f, 0x62, 0, 10, 0x68, 0x69]
    ensures Body(Hello(0, 0, 1)) == [0, 3, 0x61, 0x2f, 0x62, 0x68, 0x69]
  {
    TopicBytes();
    hide StringField, Written;
  }

  lemma TopicBytes()
    ensures StringField(Written(MqttString(None, Some([0x61, 0x2f, 0x62])))) == [0, 3, 0x61, 0x2f, 0x62]
    ensures TwoBytes(10) == [0, 10]
  {
  }

  lemma StartBytes()
    ensures Start(HeaderByte(PUBLISH, 1, 2, 0), Predicted(Hello(1, 2, 0))) == [0x3c, 9]
    ensures Start(HeaderByte(PUBLISH, 0, 0, 1), Predicted(Hello(0, 0, 1))) == [0x31, 7]
  {
    hide HeaderByte, Predicted;
    HeaderBytes();
    PredictedNumbers();
  }

  lemma HeaderBytes()
    ensures HeaderByte(PUBLISH, 1, 2, 0) == 0x3c && HeaderByte(PUBLISH, 0, 0, 1) == 0x31
  {
  }

  lemma PredictedNumbers()
    ensures Predicted(Hello(1, 2, 0)) == 9 && Predicted(Hello(0, 0, 1)) == 7
  {
  }

  /** A duplicate at QoS 2 with packet identifier 10, and a retained message at QoS 0. */
  lemma PacketBytes()
    ensures Packet(Hello(1, 2, 0)) == [0x3c, 9, 0, 3, 0x61, 0x2f, 0x62, 0, 10, 0x68, 0x69]
    ensures Packet(Hello(0, 0, 1)) == [0x31, 7, 0, 3, 0x61, 0x2f, 0x62, 0x68, 0x69]
  {
    hide Start, HeaderByte, Body, Predicted;
    StartBytes();
    BodyBytes();
  }
}
