/**
 libmqtt/MQTTSerializePublish.c, MQTTPacket.c and MQTTDeserializePublish.c together: a stream of serialized PUBLISH
 packets through the resumable reader and the deserializer.
 */
module MqttEndToEnd {
  import opened MqttPacket
  import opened MqttReader
  import opened MqttStream
  import opened MqttStrings
  import opened Options
  import Pub = MqttPublish

  /** The packet can be sent with all its fields. */
  predicate Carried(p: Pub.Publish) {
    Pub.Sendable(p) && Pub.Carried(p)
  }

  predicate AllCarried(ps: seq<Pub.Publish>) {
    forall i :: 0 <= i < |ps| ==> Carried(ps[i])
  }

  /** The packet as the reader reports it. */
  function Wire(p: Pub.Publish): (wire: Result)
    ensures wire.Received?
  {
    Received(HeaderByte(PUBLISH, p.dup, p.qos, p.retained), LengthField(Pub.Predicted(p)), Pub.Body(p))
  }

  function Wires(ps: seq<Pub.Publish>): (wires: seq<Result>)
    ensures |wires| == |ps| && forall i :: 0 <= i < |ps| ==> wires[i] == Wire(ps[i])
  {
    if ps == [] then [] else Wires(ps[..|ps| - 1]) + [Wire(ps[|ps| - 1])]
  }

  /** What the serializer wrote, packet after packet. */
  function Serialized(ps: seq<Pub.Publish>): seq<octet> {
    if ps == [] then [] else Serialized(ps[..|ps| - 1]) + Pub.Packet(ps[|ps| - 1])
  }

  lemma WireIsSent(p: Pub.Publish)
    requires Carried(p)
    ensures Sent(Wire(p)) && Wire(p).body != [] && Raw(Wire(p)) == Pub.Packet(p)
    ensures TrueLength(|Wire(p).body|) == |Pub.Packet(p)|
  {
    Pub.PredictedLength(p);
    SentField(Pub.Predicted(p));
    StartLength(HeaderByte(PUBLISH, p.dup, p.qos, p.retained), Pub.Predicted(p));
    BodyNotEmpty(p);
    hide HeaderByte, LengthField, FieldOfDigits, Value, Pub.Body, Pub.Predicted;
  }

  lemma WireTakes(p: Pub.Publish, buflen: nat)
    requires Carried(p)
    ensures Takes(Wire(p), buflen) <==> |Pub.Packet(p)| <= buflen
  {
    hide Carried, Wire, Pub.Packet, Sent, TrueLength;
    WireIsSent(p);
  }

  lemma BodyNotEmpty(p: Pub.Publish)
    ensures |Pub.Body(p)| >= 2
  {
    FieldLength(Written(p.topic));
  }

  lemma {:induction false} SerializedIsRaw(ps: seq<Pub.Publish>)
    requires AllCarried(ps)
    ensures AllRaw(Wires(ps)) == Serialized(ps) && AllSent(Wires(ps))
  {
    hide Carried, Sent, Raw, Wire, Pub.Packet;
    if ps != [] {
      SerializedIsRaw(ps[..|ps| - 1]);
      WireIsSent(ps[|ps| - 1]);
    }
  }

  /**
   Every serialized PUBLISH comes out of the resumable reader, in order and nothing else, exactly if each fits the
   buffer and has at most four stalls in its length field and bytes of that field.
   */
  lemma PublishesArriveIff(events: seq<Event>, ps: seq<Pub.Publish>, buflen: nat)
    requires AllCarried(ps) && Run(events, buflen).Some? && NoErrors(events) && Brought(events) == Serialized(ps)
    ensures Run(events, buflen).value == Reading(AwaitHeader, Wires(ps)) <==>
              forall i :: 0 <= i < |ps| ==> |Pub.Packet(ps[i])| <= buflen && InBudget(events, Wires(ps), i)
  {
    SerializedIsRaw(ps);
    DeliveredIff(events, Wires(ps), buflen);
    hide Run, Brought, NoErrors, InBudget, Serialized, Pub.Packet, AllSent, Carried, Takes, Wire, Wires, AllRaw;
    forall i | 0 <= i < |ps| {
      WireTakes(ps[i], buflen);
    }
  }

  /**
   After the call that reports a PUBLISH, the buffer is deserialized to the packet that was serialized: flags, packet
   identifier, topic and payload.
   */
  lemma ReportedIsDeserialized(before: Reading, after: Reading, rc: int, buf: seq<octet>, p: Pub.Publish)
    requires Carried(p) && Returns(before, after, rc, buf) && after.results == before.results + [Wire(p)]
    ensures rc == PUBLISH && Pub.Readable(buf) && Pub.Holds(buf, Pub.PublishAt(buf), p)
  {
    HeaderRoundTrip(PUBLISH, p.dup, p.qos, p.retained);
    Pub.PredictedLength(p);
    assert after.results[|before.results|] == Wire(p);
    assert Start(HeaderByte(PUBLISH, p.dup, p.qos, p.retained), Pub.Predicted(p)) + Pub.Body(p) == Pub.Packet(p);
    hide HeaderByte, HeaderType, LengthField, At, Pub.Body, Pub.Predicted, Pub.Holds, Pub.Readable, Pub.PublishAt;
    Pub.PublishRoundTrip(buf, p);
  }
}
