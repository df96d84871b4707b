/** libmqtt/MQTTPacket.c: remaining lengths, headers and strings on the wire. */
module MqttPacket {
  import opened Buffers
  import opened MqttStrings
  import opened Options

  // ---------- writing into a buffer ----------

  method WriteChar(buf: array<octet>, ptr: nat, c: octet) returns (next: nat)
    requires ptr < buf.Length
    modifies buf
    ensures next == ptr + 1 && buf[..] == Splice(old(buf[..]), ptr, [c])
  {
    buf[ptr] := c;
    next := ptr + 1;
  }

  /** The two bytes of an integer, which is cut to sixteen bits. */
  function TwoBytes(n: nat): seq<octet> {
    [n / 0x100 % 0x100, n % 0x100]
  }

  method WriteInt(buf: array<octet>, ptr: nat, n: nat) returns (next: nat)
    requires ptr + 2 <= buf.Length
    modifies buf
    ensures next == ptr + 2 && buf[..] == Splice(old(buf[..]), ptr, TwoBytes(n))
  {
    buf[ptr] := n / 0x100 % 0x100;
    buf[ptr + 1] := n % 0x100;
    next := ptr + 2;
  }

  /** memcpy into the buffer. */
  method Copy(buf: array<octet>, ptr: nat, bytes: seq<octet>) returns (next: nat)
    requires ptr + |bytes| <= buf.Length
    modifies buf
    ensures next == ptr + |bytes| && buf[..] == Splice(old(buf[..]), ptr, bytes)
  {
    forall i | 0 <= i < |bytes| {
      buf[ptr + i] := bytes[i];
    }
    next := ptr + |bytes|;
  }

  /** A string on the wire: its length in two bytes, then its characters. */
  function StringField(t: seq<octet>): seq<octet> {
    TwoBytes(|t|) + t
  }

  lemma FieldLength(t: seq<octet>)
    ensures |StringField(t)| == 2 + |t|
  {
  }

  method WriteMqttString(buf: array<octet>, ptr: nat, s: MqttString) returns (next: nat)
    requires ptr + 2 + |Written(s)| <= buf.Length
    modifies buf
    ensures next == ptr + |StringField(Written(s))|
    ensures buf[..] == Splice(old(buf[..]), ptr, StringField(Written(s)))
  {
    ghost var before := buf[..];
    SpliceTwice(before, ptr, TwoBytes(|Written(s)|), Written(s));
    if |s.Counted()| > 0 {
      next := WriteInt(buf, ptr, |s.Counted()|);
      next := Copy(buf, next, s.Counted());
    } else if s.cstring != None {
      next := WriteInt(buf, ptr, |s.cstring.value|);
      next := Copy(buf, next, s.cstring.value);
    } else {
      next := WriteInt(buf, ptr, 0);
      assert TwoBytes(0) + [] == TwoBytes(0);
    }
  }

  // ---------- reading from a buffer ----------

  /** `w` stands in `s` at position `cur`. */
  predicate At(s: seq<octet>, cur: nat, w: seq<octet>) {
    cur + |w| <= |s| && s[cur..cur + |w|] == w
  }

  lemma AtParts(s: seq<octet>, cur: nat, x: seq<octet>, y: seq<octet>)
    requires At(s, cur, x + y)
    ensures At(s, cur, x) && At(s, cur + |x|, y) && cur + |x| + |y| <= |s|
  {
    assert s[cur..cur + |x + y|][..|x|] == x && s[cur..cur + |x + y|][|x|..] == y;
  }

  /** The number in two bytes. */
  function IntAt(s: seq<octet>, cur: nat): nat
    requires cur + 2 <= |s|
  {
    0x100 * (s[cur] as int) + s[cur + 1]
  }

  lemma IntRoundTrip(s: seq<octet>, cur: nat, n: nat)
    requires n < 0x10000 && At(s, cur, TwoBytes(n))
    ensures IntAt(s, cur) == n
  {
    assert s[cur] == s[cur..cur + 2][0] && s[cur + 1] == s[cur..cur + 2][1];
  }

  /**
   What readMQTTLenString stores. Every call clears the C string. For a string that is there the data pointer is set
   to its characters, which are not read, and the position moves to `next`; otherwise the length alone is stored if
   its two bytes could be read, and the data pointer is left.
   */
  datatype Field = Missing(length: Option<nat>) | Field(start: nat, next: nat)

  /** The string at `cur`; nothing at or after `end` belongs to it. Only the two bytes of the length are read. */
  function StringAt(s: seq<octet>, cur: nat, end: nat): (f: Field)
    requires cur + 2 <= end ==> cur + 2 <= |s|
    ensures f.Field? ==> cur + 2 == f.start <= f.next <= end
  {
    if cur + 2 > end then Missing(None)
    else
      var length := IntAt(s, cur);
      if cur + 2 + length > end then Missing(Some(length))
      else Field(cur + 2, cur + 2 + length)
  }

  /** The characters, if they are in the buffer. */
  function Text(s: seq<octet>, f: Field): seq<octet>
    requires f.Field? && f.start <= f.next <= |s|
  {
    s[f.start..f.next]
  }

  method ReadMqttLenString(buf: array<octet>, cur: nat, end: nat) returns (f: Field)
    requires cur + 2 <= end ==> cur + 2 <= buf.Length
    ensures f == StringAt(buf[..], cur, end)
  {
    f := Missing(None);
    if end - cur > 1 {
      var length := 0x100 * (buf[cur] as int) + buf[cur + 1];
      f := Missing(Some(length));
      if cur + 2 + length <= end {
        f := Field(cur + 2, cur + 2 + length);
      }
    }
  }

  lemma StringStands(s: seq<octet>, cur: nat, end: nat)
    requires (cur + 2 <= end ==> cur + 2 <= |s|) && StringAt(s, cur, end).Field? && StringAt(s, cur, end).next <= |s|
    ensures var (f, t) := (StringAt(s, cur, end), Text(s, StringAt(s, cur, end)));
            |t| < 0x10000 && f.next == cur + |StringField(t)| && s[cur..f.next] == StringField(t)
  {
    var t := Text(s, StringAt(s, cur, end));
    assert TwoBytes(|t|) == [s[cur], s[cur + 1]];
    assert s[cur..cur + 2 + |t|] == [s[cur], s[cur + 1]] + t;
  }

  /** A string is found exactly if some text stands there with its length before it and ends in time. */
  lemma StringFoundIff(s: seq<octet>, cur: nat, end: nat)
    requires end <= |s|
    ensures StringAt(s, cur, end).Field? <==>
              exists t: seq<octet> :: |t| < 0x10000 && cur + |StringField(t)| <= end && At(s, cur, StringField(t))
  {
    if StringAt(s, cur, end).Field? {
      StringStands(s, cur, end);
    }
    forall t: seq<octet> | |t| < 0x10000 && cur + |StringField(t)| <= end && At(s, cur, StringField(t))
      ensures StringAt(s, cur, end).Field?
    {
      FieldLength(t);
      StringRoundTrip(s, cur, end, t);
    }
  }

  lemma StringRoundTrip(s: seq<octet>, cur: nat, end: nat, t: seq<octet>)
    requires |t| < 0x10000 && At(s, cur, StringField(t)) && cur + 2 + |t| <= end
    ensures cur + 2 + |t| <= |s|
    ensures StringAt(s, cur, end) == Field(cur + 2, cur + 2 + |t|) && Text(s, StringAt(s, cur, end)) == t
  {
    AtParts(s, cur, TwoBytes(|t|), t);
    IntRoundTrip(s, cur, |t|);
  }

  lemma IntIsCut(s: seq<octet>, cur: nat, n: nat)
    requires At(s, cur, TwoBytes(n))
    ensures IntAt(s, cur) == n % 0x10000
  {
    assert s[cur] == s[cur..cur + 2][0] && s[cur + 1] == s[cur..cur + 2][1];
    TwoByteValue(n);
  }

  lemma TwoByteValue(n: nat)
    ensures 0x100 * (n / 0x100 % 0x100) + n % 0x100 == n % 0x10000
  {
    var a := n / 0x100;
    LowPart(n, a / 0x100, a % 0x100, n % 0x100);
  }

  lemma LowPart(n: nat, high: nat, middle: nat, low: nat)
    requires n == 0x100 * (0x100 * high + middle) + low && middle < 0x100 && low < 0x100
    ensures n % 0x10000 == 0x100 * middle + low
  {
    assert n == 0x10000 * high + (0x100 * middle + low);
  }

  /**
   A string comes back whole exactly if its length fits two bytes; a longer one loses a multiple of 65536 characters.
   */
  lemma StringRoundTripIff(s: seq<octet>, cur: nat, end: nat, t: seq<octet>)
    requires At(s, cur, StringField(t)) && cur + 2 + |t| <= end <= |s|
    ensures var f := StringAt(s, cur, end);
            && f == Field(cur + 2, cur + 2 + |t| % 0x10000) && Text(s, f) == t[..|t| % 0x10000]
            && (Text(s, f) == t <==> |t| < 0x10000)
  {
    AtParts(s, cur, TwoBytes(|t|), t);
    IntIsCut(s, cur, |t|);
    assert s[cur + 2..cur + 2 + |t|][..|t| % 0x10000] == t[..|t| % 0x10000];
  }

  // ---------- the header byte ----------

  const CONNECT := 1
  const PUBLISH := 3
  const SUBSCRIBE := 8
  const UNSUBSCRIBE := 10

  /** The bit-fields of MQTTHeader keep four, one, two and one bits of what is stored into them. */
  function HeaderByte(kind: nat, dup: nat, qos: int, retain: nat): octet {
    kind % 16 * 16 + dup % 2 * 8 + qos % 4 * 2 + retain % 2
  }

  function HeaderType(b: octet): nat {
    b / 16
  }

  function HeaderDup(b: octet): nat {
    b / 8 % 2
  }

  function HeaderQos(b: octet): nat {
    b / 2 % 4
  }

  function HeaderRetain(b: octet): nat {
    b % 2
  }

  lemma HeaderRoundTrip(kind: nat, dup: nat, qos: int, retain: nat)
    ensures var b := HeaderByte(kind, dup, qos, retain);
            HeaderType(b) == kind % 16 && HeaderDup(b) == dup % 2 && HeaderQos(b) == qos % 4
              && HeaderRetain(b) == retain % 2
  {
    BitFields(kind % 16, dup % 2, qos % 4, retain % 2);
  }

  lemma BitFields(t: nat, d: nat, q: nat, r: nat)
    requires t < 16 && d < 2 && q < 4 && r < 2
    ensures var b := t * 16 + d * 8 + q * 2 + r; b / 16 == t && b / 8 % 2 == d && b / 2 % 4 == q && b % 2 == r
  {
    var b := t * 16 + d * 8 + q * 2 + r;
    assert b / 8 == 2 * t + d;
    assert b / 2 == 4 * (2 * t + d) + q;
  }

  // ---------- the remaining length ----------

  const MAX_REMAINING := 268435455

  const MQTTPACKET_BUFFER_TOO_SHORT := -2

  /** Section 2.2.3 of MQTT 3.1.1: digits to the base 128, the lowest first, all but the last marked by the top bit. */
  function LengthField(n: nat): (field: seq<octet>)
    ensures |field| >= 1
  {
    if n < 128 then [n] else [n % 128 + 128] + LengthField(n / 128)
  }

  method Encode(buf: array<octet>, ptr: nat, length: nat) returns (rc: nat)
    requires ptr + |LengthField(length)| <= buf.Length
    modifies buf
    ensures rc == |LengthField(length)| && buf[..] == Splice(old(buf[..]), ptr, LengthField(length))
  {
    var n := length;
    rc := 0;
    ghost var done: seq<octet> := [];
    ghost var before := buf[..];
    SpliceNothing(before, ptr);
    assert done + LengthField(n) == LengthField(length);
    var more := true;
    while more
      invariant rc == |done| && done + (if more then LengthField(n) else []) == LengthField(length)
      invariant buf[..] == Splice(before, ptr, done)
      decreases if more then n + 1 else 0
    {
      var d := n % 128;
      if n / 128 > 0 {
        d := d + 128;
      }
      DigitsLeft(done, n, d);
      EncodeDigit(buf, ptr, rc, d, before, done);
      n := n / 128;
      rc := rc + 1;
      done := done + [d];
      more := n > 0;
    }
    assert done + [] == done;
  }

  lemma DigitsLeft(done: seq<octet>, n: nat, d: octet)
    requires d == n % 128 + (if n / 128 > 0 then 128 else 0)
    ensures done + LengthField(n) == done + [d] + (if n / 128 > 0 then LengthField(n / 128) else [])
  {
  }

  method EncodeDigit(buf: array<octet>, ptr: nat, rc: nat, d: octet, ghost before: seq<octet>, ghost done: seq<octet>)
    requires |before| == buf.Length && rc == |done| && ptr + rc < buf.Length
    requires buf[..] == Splice(before, ptr, done)
    modifies buf
    ensures buf[..] == Splice(before, ptr, done + [d])
  {
    SpliceTwice(before, ptr, done, [d]);
    var _ := WriteChar(buf, ptr + rc, d);
  }

  /** The value of a length field and the length that MQTTPacket_decode returns, 5 if the field has no end. */
  datatype Decoded = Decoded(value: nat, len: nat)

  /** From the digit with number `k` on the field, or the four digits that are read at most, can be read. */
  predicate HasField(s: seq<octet>, k: nat)
    requires k <= 4
    decreases 4 - k
  {
    k == 4 || (s != [] && (s[0] < 128 || HasField(s[1..], k + 1)))
  }

  /** Reading on from the digit with number `k`; a fifth digit is not read. */
  function DecodedFrom(s: seq<octet>, k: nat): (d: Decoded)
    requires k <= 4 && HasField(s, k)
    ensures 1 <= d.len <= 5 - k && (d.len <= 4 - k ==> d.len <= |s|)
    decreases 4 - k
  {
    if k == 4 then Decoded(0, 1)
    else if s[0] < 128 then Decoded(s[0], 1)
    else
      var rest := DecodedFrom(s[1..], k + 1);
      Decoded(s[0] - 128 + 128 * rest.value, 1 + rest.len)
  }

  lemma Distribute(m: int, a: int, t: int)
    ensures m * (a + 128 * t) == a * m + (m * 128) * t
  {
    assert m * (128 * t) == (m * 128) * t;
  }

  function Times(m: int, n: int): int {
    m * n
  }

  lemma TimesDigit(m: int, a: int, t: int)
    ensures Times(m, a + 128 * t) == a * m + Times(m * 128, t)
  {
    Distribute(m, a, t);
  }

  lemma NextDigit(rest: seq<octet>, k: nat)
    requires k < 4 && HasField(rest, k)
    ensures rest != []
    ensures if rest[0] < 128 then DecodedFrom(rest, k) == Decoded(rest[0], 1)
            else
              && HasField(rest[1..], k + 1)
              && var tail := DecodedFrom(rest[1..], k + 1);
              DecodedFrom(rest, k) == Decoded(rest[0] - 128 + 128 * tail.value, 1 + tail.len)
  {
  }

  /** One digit, with the weight `m`. */
  lemma OneDigit(rest: seq<octet>, k: nat, m: nat)
    requires k < 4 && HasField(rest, k)
    ensures var (d, c) := (DecodedFrom(rest, k), rest[0]);
            if c < 128 then d.len == 1 && Times(m, d.value) == c % 128 * m
            else var tail := DecodedFrom(rest[1..], k + 1);
              d.len == 1 + tail.len && Times(m, d.value) == c % 128 * m + Times(m * 128, tail.value)
  {
    NextDigit(rest, k);
    hide Times, DecodedFrom, HasField;
    if rest[0] >= 128 {
      TimesDigit(m, rest[0] - 128, DecodedFrom(rest[1..], k + 1).value);
    } else {
      TimesDigit(m, rest[0], 0);
      TimesZero(m * 128);
    }
  }

  lemma TimesZero(m: int)
    ensures Times(m, 0) == 0 && Times(1, m) == m
  {
  }

  method DecodeBuf(buf: array<octet>, cur: nat) returns (value: nat, len: nat)
    requires cur <= buf.Length && HasField(buf[cur..], 0)
    ensures Decoded(value, len) == DecodedFrom(buf[cur..], 0)
  {
    hide DecodedFrom, Times;
    var multiplier: nat := 1;
    len := 0;
    value := 0;
    ghost var all := DecodedFrom(buf[cur..], 0);
    TimesZero(all.value);
    while true
      invariant len <= 4 && cur + len <= buf.Length && HasField(buf[cur + len..], len)
      invariant all.len == len + DecodedFrom(buf[cur + len..], len).len
      invariant all.value == value + Times(multiplier, DecodedFrom(buf[cur + len..], len).value)
      decreases 5 - len
    {
      ghost var rest := buf[cur + len..];
      len := len + 1;
      if len > 4 {
        NoFifthDigit(rest);
        TimesZero(multiplier);
        break;
      }
      var c := buf[cur + len - 1];
      assert rest[0] == c && rest[1..] == buf[cur + len..];
      OneDigit(rest, len - 1, multiplier);
      value := value + c % 128 * multiplier;
      multiplier := multiplier * 128;
      if c < 128 { break; }
    }
  }

  lemma NoFifthDigit(rest: seq<octet>)
    ensures DecodedFrom(rest, 4) == Decoded(0, 1)
  {
  }

  lemma {:induction false} FieldSize(n: nat)
    ensures |LengthField(n)| ==
            if n < 128 then 1 else if n < 16384 then 2 else if n < 2097152 then 3
            else if n < 268435456 then 4 else 4 + |LengthField(n / 268435456)|
  {
    var (a, b, c) := (n / 128, n / 16384, n / 2097152);
    assert a / 128 == b && b / 128 == c && c / 128 == n / 268435456;
    if n >= 128 { assert |LengthField(n)| == 1 + |LengthField(a)|; }
    if a >= 128 { assert |LengthField(a)| == 1 + |LengthField(b)|; }
    if b >= 128 { assert |LengthField(b)| == 1 + |LengthField(c)|; }
    if c >= 128 { assert |LengthField(c)| == 1 + |LengthField(c / 128)|; }
  }

  lemma {:induction false} DecodeEncoded(s: seq<octet>, n: nat, k: nat)
    requires k + |LengthField(n)| <= 4 && At(s, 0, LengthField(n))
    ensures HasField(s, k) && DecodedFrom(s, k) == Decoded(n, |LengthField(n)|)
  {
    assert s[0] == s[0..|LengthField(n)|][0];
    if n >= 128 {
      AtParts(s, 0, [n % 128 + 128], LengthField(n / 128));
      assert s[1..][0..|LengthField(n / 128)|] == s[1..1 + |LengthField(n / 128)|];
      DecodeEncoded(s[1..], n / 128, k + 1);
    }
  }

  /** Decoding undoes encoding and consumes exactly the encoded bytes. */
  lemma LengthRoundTrip(s: seq<octet>, cur: nat, n: nat)
    requires n <= MAX_REMAINING && At(s, cur, LengthField(n))
    ensures HasField(s[cur..], 0) && DecodedFrom(s[cur..], 0) == Decoded(n, |LengthField(n)|)
  {
    FieldSize(n);
    assert s[cur..][0..|LengthField(n)|] == s[cur..cur + |LengthField(n)|];
    DecodeEncoded(s[cur..], n, 0);
  }

  /**
   The encoding is the shortest form: writing back a decoded length never takes more bytes than were read, and
   it gives the same bytes exactly if the field read did not end in a superfluous zero digit.
   */
  lemma {:induction false} ShortestForm(s: seq<octet>, k: nat)
    requires k <= 4 && HasField(s, k) && DecodedFrom(s, k).len <= 4 - k
    ensures var d := DecodedFrom(s, k);
            && |LengthField(d.value)| <= d.len
            && (LengthField(d.value) == s[..d.len] <==> d.len == 1 || s[d.len - 1] != 0)
    decreases 4 - k
  {
    var d := DecodedFrom(s, k);
    if s[0] < 128 {
      assert s[..1] == [s[0]];
    } else {
      var rest := DecodedFrom(s[1..], k + 1);
      ShortestForm(s[1..], k + 1);
      assert d.value / 128 == rest.value && d.value % 128 == s[0] - 128;
      assert s[..d.len] == [s[0]] + s[1..][..rest.len] && s[1..][rest.len - 1] == s[d.len - 1];
      if d.value < 128 {
        assert rest.value == 0 && LengthField(d.value) == [d.value];
        LastDigitOfZero(s[1..], k + 1);
        assert |s[..d.len]| >= 2;
      } else {
        assert LengthField(d.value) == [s[0]] + LengthField(rest.value);
        SameTail(s[0], LengthField(rest.value), s[1..][..rest.len]);
        if rest.len == 1 {
          assert rest.value == s[1] != 0;
        }
      }
    }
  }

  lemma SameTail(x: octet, a: seq<octet>, b: seq<octet>)
    ensures [x] + a == [x] + b <==> a == b
  {
    assert ([x] + a)[1..] == a && ([x] + b)[1..] == b;
  }

  /** The last digit of a field with the value zero is zero. */
  lemma {:induction false} LastDigitOfZero(s: seq<octet>, k: nat)
    requires k <= 4 && HasField(s, k) && DecodedFrom(s, k).len <= 4 - k && DecodedFrom(s, k).value == 0
    ensures s[DecodedFrom(s, k).len - 1] == 0
    decreases 4 - k
  {
    if s[0] >= 128 {
      LastDigitOfZero(s[1..], k + 1);
    }
  }

  /** MQTTPacket_len. */
  function PacketLength(remaining: nat): nat {
    var n := remaining + 1;
    if n < 128 then n + 1
    else if n < 16384 then n + 2
    else if n < 2097151 then n + 3
    else n + 4
  }

  /** The bytes of a packet with this remaining length. */
  function TrueLength(remaining: nat): nat {
    1 + |LengthField(remaining)| + remaining
  }

  /**
   The predicted size is never too small for a length that can be encoded, and too large, by one, exactly for
   four lengths. Beyond them it is too small.
   */
  lemma PacketLengthIsEnough(remaining: nat)
    ensures PacketLength(remaining) >= TrueLength(remaining) <==> remaining <= MAX_REMAINING
    ensures remaining <= MAX_REMAINING ==>
              PacketLength(remaining) ==
              TrueLength(remaining) + (if remaining in {127, 16383, 2097150, 2097151} then 1 else 0)
  {
    FieldSize(remaining);
  }

  /**
   A packet that passes the size check with the predicted length `n` ends inside the buffer if its body has `w` bytes.
   */
  predicate Contained(n: nat, w: nat, buflen: nat) {
    PacketLength(n) <= buflen ==> 1 + |LengthField(n)| + w <= buflen
  }

  /**
   The size check keeps every write inside the buffer, whatever its size, exactly if the body is at most as long as
   predicted, or one byte longer at the four lengths where the predicted size is one too large. Beyond the lengths
   that the standard allows it must even be shorter, by the length bytes that the predicted size does not count.
   */
  lemma ContainedIff(n: nat, w: nat)
    ensures (forall buflen: nat :: Contained(n, w, buflen)) <==>
              if n in {127, 16383, 2097150, 2097151} then w <= n + 1
              else if n <= MAX_REMAINING then w <= n
              else w + |LengthField(n)| <= n + 4
  {
    PacketLengthIsEnough(n);
    FieldSize(n);
    assert Contained(n, w, PacketLength(n)) <==> 1 + |LengthField(n)| + w <= PacketLength(n);
  }

  // ---------- the start of every packet ----------

  function Start(header: octet, remaining: nat): (start: seq<octet>)
    ensures |start| == TrueLength(remaining) - remaining
  {
    [header] + LengthField(remaining)
  }

  lemma StartLength(header: octet, remaining: nat)
    ensures |Start(header, remaining)| == 1 + |LengthField(remaining)|
  {
  }

  method WriteStart(buf: array<octet>, header: octet, remaining: nat) returns (next: nat)
    requires |Start(header, remaining)| <= buf.Length
    modifies buf
    ensures next == |Start(header, remaining)| && buf[..] == Splice(old(buf[..]), 0, Start(header, remaining))
  {
    SpliceTwice(buf[..], 0, [header], LengthField(remaining));
    next := WriteChar(buf, 0, header);
    var size := Encode(buf, next, remaining);
    next := next + size;
  }

  /** The header byte and the length field can be read. */
  predicate HasLength(s: seq<octet>) {
    s != [] && HasField(s[1..], 0)
  }

  /** What the deserializers make of the first bytes: the length field and the position after it. */
  function LengthAt(s: seq<octet>): Decoded
    requires HasLength(s)
  {
    DecodedFrom(s[1..], 0)
  }

  /** The position after the packet that the length field announces. */
  function EndAt(s: seq<octet>): nat
    requires HasLength(s)
  {
    1 + LengthAt(s).len + LengthAt(s).value
  }

  /** What follows the digits does not matter. */
  lemma {:induction false} FieldInLonger(s: seq<octet>, t: seq<octet>, k: nat)
    requires k <= 4 && HasField(s, k) && s <= t
    ensures HasField(t, k) && DecodedFrom(t, k) == DecodedFrom(s, k)
    decreases 4 - k
  {
    if k < 4 && s[0] >= 128 {
      assert s[1..] <= t[1..];
      FieldInLonger(s[1..], t[1..], k + 1);
    }
  }

  /** The digits alone are enough. */
  lemma {:induction false} FieldOfPrefix(s: seq<octet>, t: seq<octet>, k: nat)
    requires k <= 4 && HasField(s, k) && t <= s
    requires DecodedFrom(s, k).len <= |t| || DecodedFrom(s, k).len == |t| + 1 == 5 - k
    ensures HasField(t, k) && DecodedFrom(t, k) == DecodedFrom(s, k)
    decreases 4 - k
  {
    if k < 4 && s[0] >= 128 {
      assert t[1..] <= s[1..];
      FieldOfPrefix(s[1..], t[1..], k + 1);
    }
  }

  /** The announced length comes back, and what was written after it follows. */
  lemma StartRoundTrip(s: seq<octet>, header: octet, n: nat, body: seq<octet>)
    requires n <= MAX_REMAINING && At(s, 0, Start(header, n) + body)
    ensures HasLength(s) && s[0] == header && LengthAt(s) == Decoded(n, |LengthField(n)|)
    ensures At(s, |Start(header, n)|, body) && EndAt(s) == |Start(header, n)| + n
    ensures |Start(header, n)| + |body| <= |s|
  {
    AtParts(s, 0, Start(header, n), body);
    AtParts(s, 0, [header], LengthField(n));
    LengthRoundTrip(s, 1, n);
  }

  /** Table 2.4 of MQTT 3.1.1: the first and the last length for each size of the field. */
  lemma LengthFieldsOfTheStandard()
    ensures LengthField(0) == [0x00] && LengthField(127) == [0x7f]
    ensures LengthField(128) == [0x80, 0x01] && LengthField(16383) == [0xff, 0x7f]
    ensures LengthField(16384) == [0x80, 0x80, 0x01] && LengthField(2097151) == [0xff, 0xff, 0x7f]
    ensures LengthField(2097152) == [0x80, 0x80, 0x80, 0x01] && LengthField(268435455) == [0xff, 0xff, 0xff, 0x7f]
  {
  }
}
