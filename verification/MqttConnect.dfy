/** libmqtt/MQTTConnectClient.c and MQTTConnectServer.c: CONNECT there and back. */
module MqttConnect {
  import opened Buffers
  import opened MqttPacket
  import opened MqttStrings
  import opened Options

  datatype Will = Will(topic: MqttString, message: MqttString, retained: octet, qos: int)

  /** MQTTPacket_connectData. */
  datatype ConnectData = ConnectData(
    version: octet, clientId: MqttString, keepAlive: nat, cleanSession: octet, willFlag: octet, will: Will,
    username: MqttString, password: MqttString)

  // ---------- the packet ----------

  /** "MQTT". */
  const MQTT: seq<octet> := [0x4d, 0x51, 0x54, 0x54]
  /** "MQIsdp". */
  const MQISDP: seq<octet> := [0x4d, 0x51, 0x49, 0x73, 0x64, 0x70]

  function ConnectLength(d: ConnectData): nat {
    (if d.version == 3 then 12 else if d.version == 4 then 10 else 0)
    + StringLength(d.clientId) + 2
    + (if d.willFlag != 0 then StringLength(d.will.topic) + 2 + StringLength(d.will.message) + 2 else 0)
    + (if d.username.Present() then StringLength(d.username) + 2 else 0)
    + (if d.password.Present() then StringLength(d.password) + 2 else 0)
  }

  function Bit(b: bool): nat {
    if b then 1 else 0
  }

  /** The bit-fields of MQTTConnectFlags. */
  function FlagsByte(username: bool, password: bool, willRetain: nat, willQos: int, will: bool, clean: nat): octet {
    Bit(username) * 128 + Bit(password) * 64 + willRetain % 2 * 32 + willQos % 4 * 8 + Bit(will) * 4 + clean % 2 * 2
  }

  function Flags(d: ConnectData): octet {
    var will := d.willFlag != 0;
    FlagsByte(d.username.Present(), d.password.Present(), if will then d.will.retained else 0,
              if will then d.will.qos else 0, will, d.cleanSession)
  }

  /** Sections 3.1.2.1 to 3.1.2.10 of MQTT 3.1.1: protocol name and level, connect flags, keep alive. */
  function VariableHeader(d: ConnectData): seq<octet> {
    StringField(if d.version == 4 then MQTT else MQISDP)
      + ([if d.version == 4 then 4 else 3, Flags(d)] + TwoBytes(d.keepAlive))
  }

  function Optional(there: bool, s: MqttString): seq<octet> {
    if there then StringField(Written(s)) else []
  }

  function WillFields(d: ConnectData): seq<octet> {
    Optional(d.willFlag != 0, d.will.topic) + Optional(d.willFlag != 0, d.will.message)
  }

  function LoginFields(d: ConnectData): seq<octet> {
    Optional(d.username.Present(), d.username) + Optional(d.password.Present(), d.password)
  }

  /** Section 3.1.3 of MQTT 3.1.1: the strings, in their fixed order. */
  function Payload(d: ConnectData): seq<octet> {
    StringField(Written(d.clientId)) + (WillFields(d) + LoginFields(d))
  }

  function Body(d: ConnectData): seq<octet> {
    VariableHeader(d) + Payload(d)
  }

  /** The remaining length that is predicted is the one that is announced. */
  function Packet(d: ConnectData): seq<octet> {
    Start(HeaderByte(CONNECT, 0, 0, 0), ConnectLength(d)) + Body(d)
  }

  /** How much longer the strings that are sent are written than they are counted. */
  function SentExcess(d: ConnectData): int {
    Excess(d.clientId)
    + (if d.willFlag != 0 then Excess(d.will.topic) + Excess(d.will.message) else 0)
    + (if d.username.Present() then Excess(d.username) else 0)
    + (if d.password.Present() then Excess(d.password) else 0)
  }

  predicate KnownVersion(d: ConnectData) {
    d.version == 3 || d.version == 4
  }

  lemma OptionalLength(there: bool, s: MqttString)
    ensures |Optional(there, s)| == if there then 2 + |Written(s)| else 0
  {
    FieldLength(Written(s));
  }

  /** The prediction is wrong by twelve bytes for an unknown version, and by what the strings are wrong. */
  lemma PredictedLength(d: ConnectData)
    ensures |Body(d)| - ConnectLength(d) == (if KnownVersion(d) then 0 else 12) + SentExcess(d)
  {
    FieldLength(if d.version == 4 then MQTT else MQISDP);
    FieldLength(Written(d.clientId));
    OptionalLength(d.willFlag != 0, d.will.topic);
    OptionalLength(d.willFlag != 0, d.will.message);
    OptionalLength(d.username.Present(), d.username);
    OptionalLength(d.password.Present(), d.password);
    TwoBytesLength(d.keepAlive);
    hide Optional, StringField, Written, StringLength, TwoBytes, Flags;
  }

  lemma TwoBytesLength(n: nat)
    ensures |TwoBytes(n)| == 2
  {
  }

  /**
   The check against `buflen` keeps the whole packet inside the buffer, whatever its size, exactly if what is
   written is at most as long as predicted, with one byte to spare at four lengths; beyond the lengths that the
   standard allows it must even be shorter.
   */
  lemma StaysInsideIff(d: ConnectData)
    ensures var (n, excess) := (ConnectLength(d), (if KnownVersion(d) then 0 else 12) + SentExcess(d));
            (forall buflen: nat :: Contained(n, |Body(d)|, buflen)) <==>
              if n in {127, 16383, 2097150, 2097151} then excess <= 1
              else if n <= MAX_REMAINING then excess <= 0
              else excess + |LengthField(n)| <= 4
  {
    PredictedLength(d);
    ContainedIff(ConnectLength(d), |Body(d)|);
    hide Body, ConnectLength, SentExcess;
  }

  const ABSENT := MqttString(None, None)

  /** An anonymous client with an empty identifier. */
  function Anonymous(version: octet): ConnectData {
    ConnectData(version, ABSENT, 0, 0, 0, Will(ABSENT, ABSENT, 0, 0), ABSENT, ABSENT)
  }

  /** A CONNECT of version 5 passes the check for a buffer of four bytes and has sixteen. */
  lemma VersionFiveOverflows()
    ensures var d := Anonymous(5);
            PacketLength(ConnectLength(d)) == 4 && |Packet(d)| == 16 && !Contained(ConnectLength(d), |Body(d)|, 4)
  {
    var d := Anonymous(5);
    PredictedLength(d);
    assert LengthField(2) == [2];
    hide Body;
  }

  // ---------- MQTTSerialize_connect ----------

  /**
   Nothing at all is written if the packet might not fit. What is written lies in the memory behind `buf`, and
   inside `buflen` under the condition of StaysInsideIff.
   */
  method SerializeConnect(buf: array<octet>, buflen: nat, d: ConnectData) returns (rc: int)
    requires buflen <= buf.Length && (PacketLength(ConnectLength(d)) <= buflen ==> |Packet(d)| <= buf.Length)
    modifies buf
    ensures PacketLength(ConnectLength(d)) > buflen ==> rc == MQTTPACKET_BUFFER_TOO_SHORT && buf[..] == old(buf[..])
    ensures PacketLength(ConnectLength(d)) <= buflen ==>
              && rc == |Packet(d)| && buf[..] == Splice(old(buf[..]), 0, Packet(d))
              && (Contained(ConnectLength(d), |Body(d)|, buflen) ==> rc <= buflen)
  {
    var len := ConnectLength(d);
    if PacketLength(len) > buflen {
      return MQTTPACKET_BUFFER_TOO_SHORT;
    }
    hide Body, ConnectLength, Splice;
    var header := HeaderByte(CONNECT, 0, 0, 0);
    SpliceTwice(buf[..], 0, Start(header, len), Body(d));
    var ptr := WriteStart(buf, header, len);
    ptr := WriteBody(buf, ptr, d);
    rc := ptr;
  }

  method WriteBody(buf: array<octet>, ptr: nat, d: ConnectData) returns (next: nat)
    requires ptr + |Body(d)| <= buf.Length
    modifies buf
    ensures next == ptr + |Body(d)| && buf[..] == Splice(old(buf[..]), ptr, Body(d))
  {
    hide VariableHeader, Payload, Splice;
    SpliceTwice(buf[..], ptr, VariableHeader(d), Payload(d));
    next := WriteVariableHeader(buf, ptr, d);
    next := WritePayload(buf, next, d);
  }

  method WriteVariableHeader(buf: array<octet>, ptr: nat, d: ConnectData) returns (next: nat)
    requires ptr + |VariableHeader(d)| <= buf.Length
    modifies buf
    ensures next == ptr + |VariableHeader(d)| && buf[..] == Splice(old(buf[..]), ptr, VariableHeader(d))
  {
    ghost var name := StringField(if d.version == 4 then MQTT else MQISDP);
    SpliceTwice(buf[..], ptr, name, [if d.version == 4 then 4 else 3, Flags(d)] + TwoBytes(d.keepAlive));
    if d.version == 4 {
      next := WriteCString(buf, ptr, MQTT);
    } else {
      next := WriteCString(buf, ptr, MQISDP);
    }
    next := WriteLevel(buf, next, d);
  }

  method WriteCString(buf: array<octet>, ptr: nat, text: seq<octet>) returns (next: nat)
    requires ptr + |StringField(text)| <= buf.Length
    modifies buf
    ensures next == ptr + |StringField(text)| && buf[..] == Splice(old(buf[..]), ptr, StringField(text))
  {
    SpliceTwice(buf[..], ptr, TwoBytes(|text|), text);
    next := WriteInt(buf, ptr, |text|);
    next := Copy(buf, next, text);
  }

  method WriteLevel(buf: array<octet>, ptr: nat, d: ConnectData) returns (next: nat)
    requires ptr + 4 <= buf.Length
    modifies buf
    ensures next == ptr + 4
    ensures buf[..] == Splice(old(buf[..]), ptr, [if d.version == 4 then 4 else 3, Flags(d)] + TwoBytes(d.keepAlive))
  {
    var level: octet := if d.version == 4 then 4 else 3;
    SpliceTwice(buf[..], ptr, [level], [Flags(d)]);
    SpliceTwice(buf[..], ptr, [level] + [Flags(d)], TwoBytes(d.keepAlive));
    assert [level] + [Flags(d)] == [level, Flags(d)];
    next := WriteChar(buf, ptr, level);
    next := WriteChar(buf, next, Flags(d));
    next := WriteInt(buf, next, d.keepAlive);
  }

  method WriteOptional(buf: array<octet>, ptr: nat, there: bool, s: MqttString) returns (next: nat)
    requires ptr + |Optional(there, s)| <= buf.Length
    modifies buf
    ensures next == ptr + |Optional(there, s)| && buf[..] == Splice(old(buf[..]), ptr, Optional(there, s))
  {
    next := ptr;
    if there {
      next := WriteMqttString(buf, ptr, s);
    } else {
      SpliceNothing(buf[..], ptr);
    }
  }

  method WritePair(buf: array<octet>, ptr: nat, a: bool, s: MqttString, b: bool, t: MqttString) returns (next: nat)
    requires ptr + |Optional(a, s)| + |Optional(b, t)| <= buf.Length
    modifies buf
    ensures next == ptr + |Optional(a, s) + Optional(b, t)|
    ensures buf[..] == Splice(old(buf[..]), ptr, Optional(a, s) + Optional(b, t))
  {
    hide Optional, Splice;
    SpliceTwice(buf[..], ptr, Optional(a, s), Optional(b, t));
    next := WriteOptional(buf, ptr, a, s);
    next := WriteOptional(buf, next, b, t);
  }

  method WritePayload(buf: array<octet>, ptr: nat, d: ConnectData) returns (next: nat)
    requires ptr + |Payload(d)| <= buf.Length
    modifies buf
    ensures next == ptr + |Payload(d)| && buf[..] == Splice(old(buf[..]), ptr, Payload(d))
  {
    hide Optional, Splice, StringField, Written;
    FieldLength(Written(d.clientId));
    SpliceTwice(buf[..], ptr, StringField(Written(d.clientId)), WillFields(d) + LoginFields(d));
    next := WriteMqttString(buf, ptr, d.clientId);
    SpliceTwice(buf[..], next, WillFields(d), LoginFields(d));
    next := WritePair(buf, next, d.willFlag != 0, d.will.topic, d.willFlag != 0, d.will.message);
    next := WritePair(buf, next, d.username.Present(), d.username, d.password.Present(), d.password);
  }

  // ---------- MQTTDeserialize_connect ----------

  /** What a call stores in MQTTPacket_connectData, successful or not; None where nothing is stored. */
  datatype Stored = Stored(
    cleanSession: Option<nat>, keepAlive: Option<nat>, clientId: Option<Field>, willFlag: Option<nat>, will: StoredWill,
    login: StoredLogin)

  datatype StoredWill = StoredWill(qos: Option<nat>, retained: Option<nat>, topic: Option<Field>,
                                   message: Option<Field>)

  datatype StoredLogin = StoredLogin(username: Option<Field>, password: Option<Field>)

  const NO_WILL := StoredWill(None, None, None, None)
  const NO_LOGIN := StoredLogin(None, None)
  const NOTHING := Stored(None, None, None, None, NO_WILL, NO_LOGIN)

  /** memcmp over the shorter of the two lengths. */
  predicate SamePrefix(a: seq<octet>, b: seq<octet>) {
    var n := if |a| < |b| then |a| else |b|;
    a[..n] == b[..n]
  }

  /** MQTTPacket_checkVersion. */
  predicate CheckVersion(protocol: seq<octet>, version: octet) {
    || (version == 3 && SamePrefix(protocol, MQISDP))
    || (version == 4 && SamePrefix(protocol, MQTT))
  }

  /** The accepted names are the right one, everything that begins with it, and everything it begins with. */
  lemma VersionAcceptedIff(protocol: seq<octet>, version: octet)
    ensures CheckVersion(protocol, version) <==>
              || (version == 3 && (protocol <= MQISDP || MQISDP <= protocol))
              || (version == 4 && (protocol <= MQTT || MQTT <= protocol))
  {
    PrefixIff(protocol, MQISDP);
    PrefixIff(protocol, MQTT);
    hide SamePrefix;
  }

  lemma PrefixIff(a: seq<octet>, b: seq<octet>)
    ensures SamePrefix(a, b) <==> a <= b || b <= a
  {
    assert |a| <= |b| ==> a[..|a|] == a;
    assert |b| <= |a| ==> b[..|b|] == b;
  }

  predicate HasUsername(flags: octet) {
    flags / 128 == 1
  }

  predicate HasPassword(flags: octet) {
    flags / 64 % 2 == 1
  }

  predicate HasWill(flags: octet) {
    flags / 4 % 2 == 1
  }

  /** The two strings of the will, where the reading goes on, and whether it does. */
  function WillAt(s: seq<octet>, cur: nat, end: nat, flags: octet): (bool, nat, StoredWill)
    requires end <= |s|
  {
    if !HasWill(flags) then (true, cur, NO_WILL)
    else
      var will := StoredWill(Some(flags / 8 % 4), Some(flags / 32 % 2), Some(StringAt(s, cur, end)), None);
      match StringAt(s, cur, end)
      case Missing(_) => (false, cur, will)
      case Field(_, next) =>
        match StringAt(s, next, end)
        case Missing(length) => (false, next, will.(message := Some(Missing(length))))
        case Field(start, last) => (true, last, will.(message := Some(Field(start, last))))
  }

  /** Fewer than three bytes are not read as a string at all. */
  function LoginStringAt(s: seq<octet>, cur: nat, end: nat): Option<Field>
    requires end <= |s|
  {
    if end - cur < 3 then None else Some(StringAt(s, cur, end))
  }

  function LoginAt(s: seq<octet>, cur: nat, end: nat, flags: octet): (bool, StoredLogin)
    requires end <= |s|
  {
    if !HasUsername(flags) then (!HasPassword(flags), NO_LOGIN)
    else
      match LoginStringAt(s, cur, end)
      case None => (false, NO_LOGIN)
      case Some(Missing(length)) => (false, StoredLogin(Some(Missing(length)), None))
      case Some(Field(start, next)) =>
        if !HasPassword(flags) then (true, StoredLogin(Some(Field(start, next)), None))
        else
          var password := LoginStringAt(s, next, end);
          (password.Some? && password.value.Field?, StoredLogin(Some(Field(start, next)), password))
  }

  function PayloadAt(s: seq<octet>, cur: nat, end: nat, flags: octet, keepAlive: nat): (nat, Stored)
    requires end <= |s|
  {
    var clientId := StringAt(s, cur, end);
    var first :=
      NOTHING.(cleanSession := Some(flags / 2 % 2), keepAlive := Some(keepAlive), clientId := Some(clientId));
    if clientId.Missing? then (0, first)
    else
      var (goesOn, next, will) := WillAt(s, clientId.next, end, flags);
      var second := first.(willFlag := Some(flags / 4 % 2), will := will);
      if !goesOn then (0, second)
      else
        var (complete, login) := LoginAt(s, next, end, flags);
        (if complete then 1 else 0, second.(login := login))
  }

  function ProtocolAt(s: seq<octet>, len: nat): Field
    requires HasLength(s) && len <= |s|
  {
    StringAt(s, 1 + LengthAt(s).len, len)
  }

  /** Level, flags and keep alive are read after the protocol name without looking at the end of the data. */
  predicate Readable(s: seq<octet>, len: nat) {
    && s != [] && len <= |s|
    && (HeaderType(s[0]) == CONNECT ==>
          && HasLength(s)
          && (ProtocolAt(s, len).Field? ==> ProtocolAt(s, len).next + 4 <= |s|))
  }

  function ConnectAt(s: seq<octet>, len: nat): (nat, Stored)
    requires Readable(s, len)
  {
    if HeaderType(s[0]) != CONNECT then (0, NOTHING)
    else
      match ProtocolAt(s, len)
      case Missing(_) => (0, NOTHING)
      case Field(_, next) =>
        if !CheckVersion(Text(s, ProtocolAt(s, len)), s[next]) then (0, NOTHING)
        else PayloadAt(s, next + 4, len, s[next + 1], IntAt(s, next + 2))
  }

  method ReadWill(buf: array<octet>, cur: nat, end: nat, flags: octet)
    returns (goesOn: bool, next: nat, will: StoredWill)
    requires end <= buf.Length
    ensures (goesOn, next, will) == WillAt(buf[..], cur, end, flags)
  {
    goesOn, next, will := true, cur, NO_WILL;
    if HasWill(flags) {
      goesOn := false;
      will := will.(qos := Some(flags / 8 % 4), retained := Some(flags / 32 % 2));
      var topic := ReadMqttLenString(buf, cur, end);
      will := will.(topic := Some(topic));
      if topic.Missing? { return; }
      next := topic.next;
      var message := ReadMqttLenString(buf, next, end);
      will := will.(message := Some(message));
      if message.Missing? { return; }
      next := message.next;
      goesOn := true;
    }
  }

  method ReadLogin(buf: array<octet>, start: nat, end: nat, flags: octet) returns (complete: bool, login: StoredLogin)
    requires end <= buf.Length
    ensures (complete, login) == LoginAt(buf[..], start, end, flags)
  {
    complete := false;
    login := NO_LOGIN;
    if HasUsername(flags) {
      if end - start < 3 { return; }
      var f := ReadMqttLenString(buf, start, end);
      login := login.(username := Some(f));
      if f.Missing? { return; }
      if HasPassword(flags) {
        if end - f.next < 3 { return; }
        f := ReadMqttLenString(buf, f.next, end);
        login := login.(password := Some(f));
        if f.Missing? { return; }
      }
    } else if HasPassword(flags) {
      return;
    }
    complete := true;
  }

  method DeserializeConnect(buf: array<octet>, len: nat) returns (rc: nat, data: Stored)
    requires Readable(buf[..], len)
    ensures (rc, data) == ConnectAt(buf[..], len)
  {
    hide CheckVersion, HeaderType, WillAt, LoginAt, HasField, DecodedFrom;
    rc := 0;
    data := NOTHING;
    if HeaderType(buf[0]) != CONNECT { return; }
    assert buf[1..] == buf[..][1..];
    var _, size := DecodeBuf(buf, 1);
    var protocol := ReadMqttLenString(buf, 1 + size, len);
    if protocol.Missing? { return; }
    var cur := protocol.next;
    var version := buf[cur];
    if CheckVersion(buf[protocol.start..protocol.next], version) {
      var flags := buf[cur + 1];
      var keepAlive := 0x100 * (buf[cur + 2] as int) + buf[cur + 3];
      rc, data := ReadPayload(buf, cur + 4, len, flags, keepAlive);
    }
  }

  method ReadPayload(buf: array<octet>, cur: nat, end: nat, flags: octet, keepAlive: nat)
    returns (rc: nat, data: Stored)
    requires end <= buf.Length
    ensures (rc, data) == PayloadAt(buf[..], cur, end, flags, keepAlive)
  {
    hide WillAt, LoginAt, StringAt;
    rc := 0;
    data := NOTHING.(cleanSession := Some(flags / 2 % 2), keepAlive := Some(keepAlive));
    var clientId := ReadMqttLenString(buf, cur, end);
    data := data.(clientId := Some(clientId));
    if clientId.Missing? { return; }
    data := data.(willFlag := Some(flags / 4 % 2));
    var goesOn, next, will := ReadWill(buf, clientId.next, end, flags);
    data := data.(will := will);
    if !goesOn { return; }
    var complete, login := ReadLogin(buf, next, end, flags);
    data := data.(login := login);
    if complete {
      rc := 1;
    }
  }

  // ---------- there and back ----------

  predicate Short(s: MqttString) {
    |Written(s)| < 0x10000
  }

  /** Every string that is sent fits its length bytes. */
  predicate SentShort(d: ConnectData) {
    && Short(d.clientId)
    && (d.willFlag != 0 ==> Short(d.will.topic) && Short(d.will.message))
    && (d.username.Present() ==> Short(d.username))
    && (d.password.Present() ==> Short(d.password))
  }

  /** A stored string points to this text. */
  predicate Holds(s: seq<octet>, f: Option<Field>, text: seq<octet>) {
    f.Some? && f.value.Field? && f.value.start <= f.value.next <= |s| && Text(s, f.value) == text
  }

  predicate HoldsWill(s: seq<octet>, w: StoredWill, d: ConnectData) {
    if d.willFlag == 0 then w == NO_WILL
    else
      && w.qos == Some(d.will.qos % 4) && w.retained == Some(d.will.retained % 2)
      && Holds(s, w.topic, Written(d.will.topic)) && Holds(s, w.message, Written(d.will.message))
  }

  predicate HoldsLogin(s: seq<octet>, l: StoredLogin, d: ConnectData) {
    && (if d.username.Present() then Holds(s, l.username, Written(d.username)) else l.username == None)
    && (if d.password.Present() then Holds(s, l.password, Written(d.password)) else l.password == None)
  }

  /** Every field that was sent has been stored, and no other. */
  predicate HoldsAll(s: seq<octet>, c: Stored, d: ConnectData) {
    && c.cleanSession == Some(d.cleanSession % 2) && c.keepAlive == Some(d.keepAlive)
    && Holds(s, c.clientId, Written(d.clientId))
    && c.willFlag == Some(Bit(d.willFlag != 0)) && HoldsWill(s, c.will, d) && HoldsLogin(s, c.login, d)
  }

  /** A password comes with a username and is not empty; a username without a password is not empty either. */
  predicate LoginAccepted(d: ConnectData) {
    if d.password.Present() then d.username.Present() && Written(d.password) != []
    else d.username.Present() ==> Written(d.username) != []
  }

  lemma FlagsRoundTrip(u: bool, p: bool, r: nat, q: int, w: bool, c: nat)
    ensures var f := FlagsByte(u, p, r, q, w, c);
            && HasUsername(f) == u && HasPassword(f) == p && HasWill(f) == w
            && f / 32 % 2 == r % 2 && f / 8 % 4 == q % 4 && f / 4 % 2 == Bit(w) && f / 2 % 2 == c % 2
  {
    FlagBits(Bit(u), Bit(p), r % 2, q % 4, Bit(w), c % 2);
  }

  lemma FlagBits(u: nat, p: nat, r: nat, q: nat, w: nat, c: nat)
    requires u < 2 && p < 2 && r < 2 && q < 4 && w < 2 && c < 2
    ensures var f := u * 128 + p * 64 + r * 32 + q * 8 + w * 4 + c * 2;
            f / 128 == u && f / 64 % 2 == p && f / 32 % 2 == r && f / 8 % 4 == q && f / 4 % 2 == w && f / 2 % 2 == c
  {
    var f := u * 128 + p * 64 + r * 32 + q * 8 + w * 4 + c * 2;
    assert f / 64 == 2 * u + p;
    assert f / 32 == 2 * (2 * u + p) + r;
    assert f / 8 == 4 * (2 * (2 * u + p) + r) + q;
    assert f / 4 == 2 * (4 * (2 * (2 * u + p) + r) + q) + w;
    assert f / 2 == 2 * (2 * (4 * (2 * (2 * u + p) + r) + q) + w) + c;
  }

  lemma WillRoundTrip(s: seq<octet>, cur: nat, end: nat, d: ConnectData, flags: octet)
    requires d.willFlag != 0 ==> Short(d.will.topic) && Short(d.will.message)
    requires At(s, cur, WillFields(d)) && cur + |WillFields(d)| <= end <= |s|
    requires HasWill(flags) == (d.willFlag != 0)
    requires d.willFlag != 0 ==> flags / 8 % 4 == d.will.qos % 4 && flags / 32 % 2 == d.will.retained % 2
    ensures var (goesOn, next, will) := WillAt(s, cur, end, flags);
            goesOn && next == cur + |WillFields(d)| && HoldsWill(s, will, d)
  {
    hide At, StringAt, StringField, Written, HasWill;
    if d.willFlag != 0 {
      var (topic, message) := (Written(d.will.topic), Written(d.will.message));
      FieldLength(topic);
      FieldLength(message);
      AtParts(s, cur, StringField(topic), StringField(message));
      StringRoundTrip(s, cur, end, topic);
      StringRoundTrip(s, cur + 2 + |topic|, end, message);
    }
  }

  lemma LoginRoundTrip(s: seq<octet>, cur: nat, end: nat, d: ConnectData, flags: octet)
    requires (d.username.Present() ==> Short(d.username)) && (d.password.Present() ==> Short(d.password))
    requires At(s, cur, LoginFields(d)) && cur + |LoginFields(d)| == end <= |s|
    requires HasUsername(flags) == d.username.Present() && HasPassword(flags) == d.password.Present()
    ensures var (complete, login) := LoginAt(s, cur, end, flags);
            complete == LoginAccepted(d) && (complete ==> HoldsLogin(s, login, d))
  {
    hide At, StringAt, StringField, Written, HasUsername, HasPassword;
    var (name, password) := (Written(d.username), Written(d.password));
    FieldLength(name);
    FieldLength(password);
    if d.username.Present() {
      AtParts(s, cur, StringField(name), Optional(d.password.Present(), d.password));
      StringRoundTrip(s, cur, end, name);
      if d.password.Present() {
        StringRoundTrip(s, cur + 2 + |name|, end, password);
      }
    }
  }

  lemma PayloadRoundTrip(s: seq<octet>, cur: nat, end: nat, d: ConnectData)
    requires SentShort(d) && At(s, cur, Payload(d)) && cur + |Payload(d)| == end <= |s|
    ensures var (rc, stored) := PayloadAt(s, cur, end, Flags(d), d.keepAlive);
            if LoginAccepted(d) then rc == 1 && HoldsAll(s, stored, d) else rc == 0
  {
    hide At, StringAt, StringField, Written, HasUsername, HasPassword, HasWill, WillAt, LoginAt, WillFields,
         LoginFields, LoginAccepted, HoldsWill, HoldsLogin, FlagsByte;
    var will := d.willFlag != 0;
    FlagsRoundTrip(d.username.Present(), d.password.Present(), if will then d.will.retained else 0,
                   if will then d.will.qos else 0, will, d.cleanSession);
    var id := Written(d.clientId);
    FieldLength(id);
    AtParts(s, cur, StringField(id), WillFields(d) + LoginFields(d));
    AtParts(s, cur + 2 + |id|, WillFields(d), LoginFields(d));
    StringRoundTrip(s, cur, end, id);
    WillRoundTrip(s, cur + 2 + |id|, end, d, Flags(d));
    LoginRoundTrip(s, cur + 2 + |id| + |WillFields(d)|, end, d, Flags(d));
  }

  lemma HeaderAt(s: seq<octet>, cur: nat, end: nat, d: ConnectData)
    requires At(s, cur, VariableHeader(d)) && cur + |VariableHeader(d)| <= end <= |s|
    ensures var f := StringAt(s, cur, end);
            && f.Field? && f.next + 4 == cur + |VariableHeader(d)|
            && CheckVersion(Text(s, f), s[f.next]) && s[f.next + 1] == Flags(d)
            && (d.keepAlive < 0x10000 ==> IntAt(s, f.next + 2) == d.keepAlive)
  {
    hide Flags;
    var name := if d.version == 4 then MQTT else MQISDP;
    var rest := [if d.version == 4 then 4 else 3, Flags(d)] + TwoBytes(d.keepAlive);
    AtParts(s, cur, StringField(name), rest);
    StringRoundTrip(s, cur, end, name);
    LevelAt(s, cur + |StringField(name)|, if d.version == 4 then 4 else 3, Flags(d), d.keepAlive);
  }

  lemma LevelAt(s: seq<octet>, cur: nat, level: octet, flags: octet, keepAlive: nat)
    requires At(s, cur, [level, flags] + TwoBytes(keepAlive))
    ensures cur + 4 <= |s| && s[cur] == level && s[cur + 1] == flags
    ensures keepAlive < 0x10000 ==> IntAt(s, cur + 2) == keepAlive
  {
    AtParts(s, cur, [level, flags], TwoBytes(keepAlive));
    assert s[cur] == s[cur..cur + 2][0] && s[cur + 1] == s[cur..cur + 2][1];
    if keepAlive < 0x10000 {
      IntRoundTrip(s, cur + 2, keepAlive);
    }
  }

  /** The start of a serialized packet, up to the keep-alive time. */
  lemma StartOfConnect(s: seq<octet>, d: ConnectData)
    requires ConnectLength(d) <= MAX_REMAINING && At(s, 0, Packet(d))
    ensures Readable(s, |Packet(d)|) && HeaderType(s[0]) == CONNECT
    ensures var (f, end) := (ProtocolAt(s, |Packet(d)|), |Packet(d)|);
            && f.Field? && CheckVersion(Text(s, f), s[f.next]) && s[f.next + 1] == Flags(d)
            && (d.keepAlive < 0x10000 ==> IntAt(s, f.next + 2) == d.keepAlive)
            && f.next + 4 + |Payload(d)| == end && At(s, f.next + 4, Payload(d))
  {
    hide At, StringAt, VariableHeader, Payload, CheckVersion, Flags, HeaderByte, HeaderType, Start, IntAt,
         ConnectLength;
    var (header, n) := (HeaderByte(CONNECT, 0, 0, 0), ConnectLength(d));
    HeaderRoundTrip(CONNECT, 0, 0, 0);
    StartRoundTrip(s, header, n, Body(d));
    StartLength(header, n);
    AtParts(s, |Start(header, n)|, VariableHeader(d), Payload(d));
    HeaderAt(s, |Start(header, n)|, |Packet(d)|, d);
  }

  lemma IntBound(s: seq<octet>, cur: nat)
    requires cur + 2 <= |s|
    ensures IntAt(s, cur) < 0x10000
  {
  }

  /** The reader comes to the payload, with the flags and the keep-alive time. */
  lemma ReadOnward(s: seq<octet>, d: ConnectData) returns (cur: nat, keepAlive: nat)
    requires ConnectLength(d) <= MAX_REMAINING && At(s, 0, Packet(d))
    ensures Readable(s, |Packet(d)|) && |Packet(d)| <= |s|
    ensures ConnectAt(s, |Packet(d)|) == PayloadAt(s, cur, |Packet(d)|, Flags(d), keepAlive)
    ensures keepAlive < 0x10000 && (d.keepAlive < 0x10000 ==> keepAlive == d.keepAlive)
    ensures cur + |Payload(d)| == |Packet(d)| && At(s, cur, Payload(d))
  {
    hide At, StringAt, Packet, Payload, CheckVersion, PayloadAt, Flags, HeaderType, IntAt, ConnectLength, HasField,
         DecodedFrom;
    StartOfConnect(s, d);
    var next := ProtocolAt(s, |Packet(d)|).next;
    cur, keepAlive := next + 4, IntAt(s, next + 2);
    IntBound(s, next + 2);
  }

  /**
   Deserializing a serialized CONNECT of any version succeeds exactly if the login is one the reader accepts, and then
   every field that was sent has been stored.
   */
  lemma ConnectRoundTrip(s: seq<octet>, d: ConnectData)
    requires ConnectLength(d) <= MAX_REMAINING && SentShort(d) && d.keepAlive < 0x10000 && At(s, 0, Packet(d))
    ensures Readable(s, |Packet(d)|)
    ensures var (rc, stored) := ConnectAt(s, |Packet(d)|);
            if LoginAccepted(d) then rc == 1 && HoldsAll(s, stored, d) else rc == 0
  {
    hide *;
    var cur, _ := ReadOnward(s, d);
    PayloadRoundTrip(s, cur, |Packet(d)|, d);
  }

  lemma StringReadIsShort(s: seq<octet>, cur: nat, end: nat, text: seq<octet>)
    requires end <= |s| && Holds(s, Some(StringAt(s, cur, end)), text)
    ensures |text| < 0x10000
  {
    StringStands(s, cur, end);
  }

  lemma WillReadIsShort(s: seq<octet>, cur: nat, end: nat, flags: octet, d: ConnectData)
    requires end <= |s| && WillAt(s, cur, end, flags).0 && HoldsWill(s, WillAt(s, cur, end, flags).2, d)
    ensures d.willFlag != 0 ==> Short(d.will.topic) && Short(d.will.message)
  {
    hide StringAt, Holds, Written;
    if d.willFlag != 0 {
      StringReadIsShort(s, cur, end, Written(d.will.topic));
      StringReadIsShort(s, StringAt(s, cur, end).next, end, Written(d.will.message));
    }
  }

  lemma LoginReadIsShort(s: seq<octet>, cur: nat, end: nat, flags: octet, d: ConnectData)
    requires end <= |s| && LoginAt(s, cur, end, flags).0 && HoldsLogin(s, LoginAt(s, cur, end, flags).1, d)
    ensures (d.username.Present() ==> Short(d.username)) && (d.password.Present() ==> Short(d.password))
  {
    hide StringAt, Text, Written;
    if d.username.Present() {
      StringReadIsShort(s, cur, end, Written(d.username));
    }
    if d.password.Present() {
      StringReadIsShort(s, StringAt(s, cur, end).next, end, Written(d.password));
    }
  }

  /** A string of more bytes than the length can say, or a number of more than two bytes, is never what is read. */
  lemma PayloadReadIsShort(s: seq<octet>, cur: nat, end: nat, flags: octet, keepAlive: nat, d: ConnectData)
    requires end <= |s| && keepAlive < 0x10000
    requires var (rc, stored) := PayloadAt(s, cur, end, flags, keepAlive); rc == 1 && HoldsAll(s, stored, d)
    ensures SentShort(d) && d.keepAlive < 0x10000
  {
    hide StringAt, WillAt, LoginAt, Holds, HoldsWill, HoldsLogin, Written;
    var id := StringAt(s, cur, end);
    var (_, next, _) := WillAt(s, id.next, end, flags);
    StringReadIsShort(s, cur, end, Written(d.clientId));
    WillReadIsShort(s, id.next, end, flags, d);
    LoginReadIsShort(s, next, end, flags, d);
  }

  /**
   So a CONNECT that was serialized is read back with all its fields if and only if the reader accepts the login and
   every string, and the keep-alive time, fits its two bytes.
   */
  lemma ConnectRoundTripIff(s: seq<octet>, d: ConnectData)
    requires ConnectLength(d) <= MAX_REMAINING && At(s, 0, Packet(d))
    ensures Readable(s, |Packet(d)|)
    ensures var (rc, stored) := ConnectAt(s, |Packet(d)|);
            rc == 1 && HoldsAll(s, stored, d) <==> LoginAccepted(d) && SentShort(d) && d.keepAlive < 0x10000
  {
    hide *;
    var cur, keepAlive := ReadOnward(s, d);
    var (rc, stored) := ConnectAt(s, |Packet(d)|);
    if SentShort(d) && d.keepAlive < 0x10000 {
      ConnectRoundTrip(s, d);
    }
    if rc == 1 && HoldsAll(s, stored, d) {
      PayloadReadIsShort(s, cur, |Packet(d)|, Flags(d), keepAlive, d);
    }
  }

  /** A CONNECT with an empty username and no password can be sent and is refused. */
  lemma EmptyUsernameRefused()
    ensures var d := Anonymous(4).(username := MqttString(Some(EMPTY), None));
            var s := Packet(d);
            ConnectLength(d) <= MAX_REMAINING && SentShort(d) && Readable(s, |s|) && ConnectAt(s, |s|).0 == 0
  {
    var d := Anonymous(4).(username := MqttString(Some(EMPTY), None));
    assert ConnectLength(d) <= MAX_REMAINING && SentShort(d) && !LoginAccepted(d);
    hide Packet, ConnectLength, ConnectAt, Readable, SentShort, LoginAccepted;
    ConnectRoundTrip(Packet(d), d);
  }

  /** A client identifier of 65536 bytes can be sent and does not come back. */
  lemma LongIdentifierIsCut(s: seq<octet>, id: seq<octet>)
    requires |id| == 0x10000 && At(s, 0, Packet(Anonymous(4).(clientId := MqttString(None, Some(id)))))
    ensures var d := Anonymous(4).(clientId := MqttString(None, Some(id)));
            var end := |Packet(d)|;
            && ConnectLength(d) <= MAX_REMAINING && Readable(s, end)
            && !(ConnectAt(s, end).0 == 1 && HoldsAll(s, ConnectAt(s, end).1, d))
  {
    var d := Anonymous(4).(clientId := MqttString(None, Some(id)));
    assert ConnectLength(d) <= MAX_REMAINING && !SentShort(d);
    hide Packet, ConnectLength, ConnectAt, Readable, SentShort, LoginAccepted, HoldsAll;
    ConnectRoundTripIff(s, d);
  }

  /** A packet with an empty protocol name, level 4 and an empty client identifier is accepted. */
  lemma EmptyProtocolAccepted()
    ensures var s := [0x10, 8, 0, 0, 4, 0, 0, 0, 0, 0];
            Readable(s, 10) && ProtocolAt(s, 10) == Field(4, 4) && ConnectAt(s, 10).0 == 1
  {
    var s := [0x10, 8, 0, 0, 4, 0, 0, 0, 0, 0];
    EmptyProtocolRead(s);
    NothingWanted(s);
    assert HeaderType(s[0]) == CONNECT;
    hide StringAt, PayloadAt, HasField, DecodedFrom, HeaderType, IntAt, CheckVersion;
  }

  lemma EmptyProtocolRead(s: seq<octet>)
    requires s == [0x10, 8, 0, 0, 4, 0, 0, 0, 0, 0]
    ensures HasLength(s) && LengthAt(s).len == 1 && StringAt(s, 2, 10) == Field(4, 4) && CheckVersion([], 4)
    ensures IntAt(s, 6) == 0
  {
    assert s[1..][0] == 8;
  }

  lemma NothingWanted(s: seq<octet>)
    requires s == [0x10, 8, 0, 0, 4, 0, 0, 0, 0, 0]
    ensures PayloadAt(s, 8, 10, 0, 0).0 == 1
  {
    assert StringAt(s, 8, 10) == Field(10, 10);
    hide StringAt;
  }

  // ---------- packets, byte by byte ----------

  /** A string that is given by one character. */
  function Letter(c: octet): MqttString {
    MqttString(None, Some([c]))
  }

  /** Table 3.4 of MQTT 3.1.1: where each flag stands. */
  lemma FlagBytes()
    ensures var d := Anonymous(4);
            && Flags(d.(cleanSession := 1)) == 0x02 && Flags(d.(willFlag := 1)) == 0x04
            && Flags(d.(willFlag := 1, will := d.will.(qos := 1))) == 0x0c
            && Flags(d.(willFlag := 1, will := d.will.(qos := 2))) == 0x14
            && Flags(d.(willFlag := 1, will := d.will.(retained := 1))) == 0x24
            && Flags(d.(password := Letter(0x70))) == 0x40 && Flags(d.(username := Letter(0x75))) == 0x80
  {
  }

  /** Client "c" with the will "m" on "w" at QoS 1, the user "u" and the password "p". */
  function Full(version: octet): ConnectData {
    ConnectData(version, Letter(0x63), 10, 1, 1, Will(Letter(0x77), Letter(0x6d), 0, 1), Letter(0x75), Letter(0x70))
  }

  lemma FullFlags(version: octet)
    ensures Flags(Full(version)) == 0xce
  {
  }

  lemma HeaderBytes()
    ensures VariableHeader(Full(4)) == [0, 4, 0x4d, 0x51, 0x54, 0x54, 4, 0xce, 0, 10]
    ensures VariableHeader(Full(3)) == [0, 6, 0x4d, 0x51, 0x49, 0x73, 0x64, 0x70, 3, 0xce, 0, 10]
  {
    hide Flags, StringField, TwoBytes;
    FullFlags(4);
    FullFlags(3);
    NameBytes();
    TenBytes();
  }

  lemma TenBytes()
    ensures TwoBytes(10) == [0, 10]
  {
  }

  lemma NameBytes()
    ensures StringField(MQTT) == [0, 4, 0x4d, 0x51, 0x54, 0x54]
    ensures StringField(MQISDP) == [0, 6, 0x4d, 0x51, 0x49, 0x73, 0x64, 0x70]
  {
  }

  lemma LetterBytes(c: octet)
    ensures StringField(Written(Letter(c))) == [0, 1, c]
  {
  }

  lemma PayloadBytes(version: octet)
    ensures Payload(Full(version)) == [0, 1, 0x63, 0, 1, 0x77, 0, 1, 0x6d, 0, 1, 0x75, 0, 1, 0x70]
  {
    LetterBytes(0x63);
    LetterBytes(0x77);
    LetterBytes(0x6d);
    LetterBytes(0x75);
    LetterBytes(0x70);
    hide StringField, Written;
  }

  lemma FullLengths()
    ensures ConnectLength(Full(4)) == 25 && ConnectLength(Full(3)) == 27 && HeaderByte(CONNECT, 0, 0, 0) == 0x10
  {
  }

  lemma StartBytes()
    ensures Start(HeaderByte(CONNECT, 0, 0, 0), ConnectLength(Full(4))) == [0x10, 25]
    ensures Start(HeaderByte(CONNECT, 0, 0, 0), ConnectLength(Full(3))) == [0x10, 27]
  {
    hide HeaderByte, ConnectLength;
    FullLengths();
  }

  /** The packets of level 4 and of level 3. */
  lemma PacketBytes()
    ensures Packet(Full(4)) == [0x10, 25] + [0, 4, 0x4d, 0x51, 0x54, 0x54, 4, 0xce, 0, 10]
                               + [0, 1, 0x63, 0, 1, 0x77, 0, 1, 0x6d, 0, 1, 0x75, 0, 1, 0x70]
    ensures Packet(Full(3)) == [0x10, 27] + [0, 6, 0x4d, 0x51, 0x49, 0x73, 0x64, 0x70, 3, 0xce, 0, 10]
                               + [0, 1, 0x63, 0, 1, 0x77, 0, 1, 0x6d, 0, 1, 0x75, 0, 1, 0x70]
  {
    hide VariableHeader, Payload, Start, ConnectLength, HeaderByte, Full;
    StartBytes();
    HeaderBytes();
    PayloadBytes(3);
    PayloadBytes(4);
  }
}
