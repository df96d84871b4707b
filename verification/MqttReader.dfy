/** libmqtt/MQTTPacket.c: MQTTPacket_readnb, the packet reader that may be called again after every short read. */
module MqttReader {
  import opened Buffers
  import opened MqttPacket
  import opened MqttStrings
  import opened Options

  // ---------- the transport's bytes ----------

  /** What the transport does when it is asked: an error, nothing yet, or at most so many bytes. */
  datatype Answer = Error | Again | Grant(most: nat)

  /** What a call of getfn came to. GiveUp is the fifth attempt at the length field, which does not call getfn. */
  datatype Event = Err | Stall | Bytes(bytes: seq<octet>) | GiveUp

  /** How many bytes come when `n` are asked for and `left` are there. */
  function Granted(answer: Answer, n: nat, left: nat): int {
    match answer
    case Error => -1
    case Again => 0
    case Grant(most) => if most <= n && most <= left then most else if n <= left then n else left
  }

  class Source {
    /** The bytes to come. */
    var stream: seq<octet>
    /** The answers to come; after them the transport has nothing for ever. */
    var schedule: seq<Answer>

    constructor (stream: seq<octet>, schedule: seq<Answer>)
      ensures this.stream == stream && this.schedule == schedule
    {
      this.stream, this.schedule := stream, schedule;
    }

    /** getfn: -1 for an error, 0 for call again, or the number of bytes read, at most `n`. */
    method Get(n: nat) returns (frc: int, bytes: seq<octet>)
      modifies this
      ensures old(stream) == bytes + stream && -1 <= frc <= n && |bytes| == if frc == -1 then 0 else frc
      ensures frc == if old(schedule) == [] then 0 else Granted(old(schedule)[0], n, |old(stream)|)
      ensures schedule == if old(schedule) == [] then [] else old(schedule)[1..]
    {
      frc, bytes := 0, [];
      if schedule != [] {
        var answer := schedule[0];
        schedule := schedule[1..];
        match answer {
          case Error => frc := -1;
          case Again =>
          case Grant(most) =>
            frc := if most < n then most else n;
            frc := if frc < |stream| then frc else |stream|;
            bytes := stream[..frc];
            stream := stream[frc..];
        }
      }
    }
  }

  // ---------- the specification: what the events mean for the packets ----------

  datatype Progress = AwaitHeader
                    | AwaitLength(header: octet, digits: seq<octet>, attempts: nat)
                    | AwaitBody(header: octet, digits: seq<octet>, body: seq<octet>)

  /** A packet as it came over the wire, or the bytes read before a failure. */
  datatype Result = Received(header: octet, digits: seq<octet>, body: seq<octet>) | Failed(raw: seq<octet>)

  datatype Reading = Reading(progress: Progress, results: seq<Result>)

  /** 128 to the power k. */
  function Weight(k: nat): nat
    requires k <= 4
  {
    if k == 0 then 1 else if k == 1 then 128 else if k == 2 then 16384 else if k == 3 then 2097152 else 268435456
  }

  /** The number that the digits of a length field stand for. */
  function Value(digits: seq<octet>): nat
    requires |digits| <= 4
  {
    if digits == [] then 0
    else
      var n := |digits| - 1;
      Value(digits[..n]) + digits[n] % 128 * Weight(n)
  }

  /** The bytes of the current packet that have been read. */
  function Partial(p: Progress): seq<octet> {
    match p
    case AwaitHeader => []
    case AwaitLength(h, ds, _) => [h] + ds
    case AwaitBody(h, ds, b) => [h] + ds + b
  }

  /** A digit that has another one after it. */
  predicate Continues(digits: seq<octet>) {
    forall i :: 0 <= i < |digits| ==> digits[i] >= 128
  }

  /** One to four digits, of which exactly the last one ends the field. */
  predicate FieldOfDigits(digits: seq<octet>) {
    1 <= |digits| <= 4 && Continues(digits[..|digits| - 1]) && digits[|digits| - 1] < 128
  }

  predicate GoodProgress(p: Progress, buflen: nat) {
    match p
    case AwaitHeader => true
    case AwaitLength(_, ds, attempts) => |ds| <= attempts <= 4 && Continues(ds)
    case AwaitBody(_, ds, b) =>
      && FieldOfDigits(ds) && TrueLength(Value(ds)) <= buflen
      && (|b| < Value(ds) || (b == [] && Value(ds) == 0))
  }

  /** How many bytes getfn is asked for. */
  function Requested(p: Progress): nat
    requires p.AwaitBody? ==> |p.digits| <= 4 && |p.body| <= Value(p.digits)
  {
    if p.AwaitBody? then Value(p.digits) - |p.body| else 1
  }

  /** What can happen next. */
  predicate Possible(p: Progress, e: Event)
    requires p.AwaitBody? ==> |p.digits| <= 4 && |p.body| <= Value(p.digits)
  {
    match e
    case Bytes(bs) => 1 <= |bs| <= Requested(p) && !(p.AwaitLength? && p.attempts == 4)
    case GiveUp => p.AwaitLength? && p.attempts == 4
    case _ => !(p.AwaitLength? && p.attempts == 4)
  }

  function Fail(r: Reading, more: seq<octet>): Reading {
    Reading(AwaitHeader, r.results + [Failed(Partial(r.progress) + more)])
  }

  function Step(r: Reading, e: Event, buflen: nat): Reading
    requires GoodProgress(r.progress, buflen) && Possible(r.progress, e)
  {
    match (r.progress, e)
    case (_, Err) => Fail(r, [])
    case (_, GiveUp) => Fail(r, [])
    case (AwaitHeader, Stall) => r
    case (AwaitHeader, Bytes(bs)) => r.(progress := AwaitLength(bs[0], [], 0))
    case (AwaitLength(h, ds, a), Stall) => r.(progress := AwaitLength(h, ds, a + 1))
    case (AwaitLength(h, ds, a), Bytes(bs)) =>
      if bs[0] >= 128 then r.(progress := AwaitLength(h, ds + bs, a + 1))
      else if TrueLength(Value(ds + bs)) > buflen then Fail(r, bs)
      else r.(progress := AwaitBody(h, ds + bs, []))
    case (AwaitBody(_, _, _), Stall) => r
    case (AwaitBody(h, ds, b), Bytes(bs)) =>
      if |b + bs| == Value(ds) then Reading(AwaitHeader, r.results + [Received(h, ds, b + bs)])
      else r.(progress := AwaitBody(h, ds, b + bs))
  }

  lemma StepKeeps(r: Reading, e: Event, buflen: nat)
    requires GoodProgress(r.progress, buflen) && Possible(r.progress, e)
    ensures GoodProgress(Step(r, e, buflen).progress, buflen)
  {
    hide Value, TrueLength, Partial;
    if r.progress.AwaitLength? && e.Bytes? {
      var ds := r.progress.digits + e.bytes;
      assert ds[..|ds| - 1] == r.progress.digits;
    }
  }

  /** The packets and the progress after the events; None if an event was not possible when it happened. */
  function Run(events: seq<Event>, buflen: nat): (r: Option<Reading>)
    ensures r.Some? ==> GoodProgress(r.value.progress, buflen)
  {
    if events == [] then Some(Reading(AwaitHeader, []))
    else
      match Run(events[..|events| - 1], buflen)
      case None => None
      case Some(before) =>
        var e := events[|events| - 1];
        if !Possible(before.progress, e) then None
        else
          StepKeeps(before, e, buflen);
          Some(Step(before, e, buflen))
  }

  lemma RunJoins(events: seq<Event>, e: Event, buflen: nat)
    requires Run(events, buflen).Some? && Possible(Run(events, buflen).value.progress, e)
    ensures Run(events + [e], buflen) == Some(Step(Run(events, buflen).value, e, buflen))
  {
    assert (events + [e])[..|events|] == events;
  }

  // ---------- MQTTPacket_readnb ----------

  /** The fields of the transport and the buffer hold what the progress says. */
  predicate Represents(p: Progress, state: nat, multiplier: nat, remLen: nat, len: nat, buf: seq<octet>) {
    match p
    case AwaitHeader => state != 1 && state != 2
    case AwaitLength(h, ds, attempts) =>
      && state == 1 && len == attempts && buf != [] && buf[0] == h && |ds| <= 4
      && (attempts > 0 ==> remLen == Value(ds) && multiplier == Weight(|ds|))
    case AwaitBody(h, ds, b) =>
      && state == 2 && |ds| <= 4 && |b| <= Value(ds) && remLen == Value(ds) - |b|
      && len <= |buf| && buf[..len] == [h] + LengthField(Value(ds)) + b
  }

  /** What a call returns: a finished packet gives its type, a failure -1, and an unfinished packet 0. */
  ghost predicate Returns(before: Reading, after: Reading, rc: int, buf: seq<octet>) {
    if rc == -1 then
      |after.results| == |before.results| + 1 && after.results[..|before.results|] == before.results
      && after.results[|before.results|].Failed? && after.progress == AwaitHeader
    else if after.results == before.results then rc == 0
    else
      && |after.results| == |before.results| + 1 && after.results[..|before.results|] == before.results
      && after.progress == AwaitHeader
      && match after.results[|before.results|]
         case Failed(_) => false
         case Received(h, _, body) => rc == HeaderType(h) && At(buf, 0, [h] + LengthField(|body|) + body)
  }

  /** The event ends the call: everything but a header byte and a length byte after which the reading goes on. */
  predicate Stops(r: Reading, e: Event, buflen: nat) {
    match e
    case Bytes(bytes) =>
      r.progress.AwaitBody?
      || (r.progress.AwaitLength? && |r.progress.digits| < 4 && |bytes| == 1 && bytes[0] < 128
          && TrueLength(Value(r.progress.digits + bytes)) > buflen)
    case _ => true
  }

  /** Since `past` nothing has ended the call. */
  predicate Open(past: seq<Event>, events: seq<Event>, buflen: nat)
    decreases |events|
  {
    events == past
    || (|events| > |past| && Open(past, events[..|events| - 1], buflen) && Run(events[..|events| - 1], buflen).Some?
        && !Stops(Run(events[..|events| - 1], buflen).value, events[|events| - 1], buflen))
  }

  /** The call that began after `past` has ended with the last event. */
  predicate Closed(past: seq<Event>, events: seq<Event>, buflen: nat) {
    && |events| > |past| && Open(past, events[..|events| - 1], buflen) && Run(events[..|events| - 1], buflen).Some?
    && Stops(Run(events[..|events| - 1], buflen).value, events[|events| - 1], buflen)
  }

  lemma {:induction false} OpenExtends(past: seq<Event>, events: seq<Event>, buflen: nat)
    requires Open(past, events, buflen)
    ensures past <= events
  {
    if events != past {
      OpenExtends(past, events[..|events| - 1], buflen);
    }
  }

  lemma CallBegins(events: seq<Event>, buflen: nat)
    ensures Open(events, events, buflen)
  {
  }

  lemma CallGoesOn(past: seq<Event>, events: seq<Event>, e: Event, buflen: nat)
    requires Open(past, events, buflen) && Run(events, buflen).Some?
    ensures if Stops(Run(events, buflen).value, e, buflen) then Closed(past, events + [e], buflen)
            else Open(past, events + [e], buflen)
  {
    OpenExtends(past, events, buflen);
    assert (events + [e])[..|events|] == events;
    hide Run, Stops;
  }

  /** All the bytes that the events brought. */
  function Brought(events: seq<Event>): seq<octet> {
    if events == [] then []
    else
      var e := events[|events| - 1];
      Brought(events[..|events| - 1]) + (if e.Bytes? then e.bytes else [])
  }

  class Transport {
    const sck: Source
    var state: nat
    var multiplier: nat
    var remLen: nat
    var len: nat
    /** Everything that happened so far. */
    ghost var events: seq<Event>

    ghost predicate Valid(buf: array<octet>, buflen: nat)
      reads this, buf
    {
      && 5 <= buf.Length && buflen <= buf.Length
      && Run(events, buflen).Some?
      && Represents(Run(events, buflen).value.progress, state, multiplier, remLen, len, buf[..])
    }

    ghost function Now(buflen: nat): Reading
      reads this
      requires Run(events, buflen).Some?
    {
      Run(events, buflen).value
    }

    constructor (sck: Source)
      ensures this.sck == sck && events == [] && state == 0
    {
      this.sck := sck;
      state, multiplier, remLen, len := 0, 1, 0, 0;
      events := [];
    }

    /** The bytes brought so far and the bytes to come. */
    ghost function Total(): seq<octet>
      reads this, sck
    {
      Brought(events) + sck.stream
    }

    /** One call of getfn, noted in the events. */
    method Ask(n: nat, ghost buflen: nat) returns (frc: int, bytes: seq<octet>)
      requires Run(events, buflen).Some? && Requests(Now(buflen).progress, n)
      modifies this`events, sck
      ensures -1 <= frc <= n && |bytes| == if frc == -1 then 0 else frc
      ensures Total() == old(Total())
      ensures Run(events, buflen) == Some(Step(old(Now(buflen)), EventOf(frc, bytes), buflen))
      ensures events == old(events) + [EventOf(frc, bytes)]
    {
      hide Run, Step, Brought, Possible, Requests, EventOf;
      GoodRun(events, buflen);
      frc, bytes := sck.Get(n);
      WhatHappened(Now(buflen).progress, n, frc, bytes);
      assert Brought(events) + (bytes + sck.stream) == Brought(events) + bytes + sck.stream;
      RunJoins(events, EventOf(frc, bytes), buflen);
      BroughtJoins(events, EventOf(frc, bytes));
      events := events + [EventOf(frc, bytes)];
    }

    /** The fields hold the length field as far as it has been read. */
    ghost predicate Counting(r: Reading, digits: seq<octet>, buflen: nat)
      reads this
    {
      && r.progress.AwaitLength? && len <= 4 && |digits| <= len
      && Run(events, buflen) == Some(Reading(AwaitLength(r.progress.header, digits, len), r.results))
      && remLen == Value(digits) && multiplier == Weight(|digits|)
    }

    /** One turn of the loop of MQTTPacket_decodenb. */
    method ReadDigit(ghost r: Reading, ghost digits: seq<octet>, ghost buflen: nat, ghost past: seq<Event>)
      returns (frc: int, c: octet)
      requires Counting(r, digits, buflen) && len < 4 && Open(past, events, buflen)
      modifies this`events, this`len, this`remLen, this`multiplier, sck
      ensures -1 <= frc <= 1 && Total() == old(Total()) && len == old(len) + 1
      ensures frc == -1 ==> Run(events, buflen).Some? && Gave(r, Now(buflen))
      ensures frc == 0 ==> Counting(r, digits, buflen)
      ensures frc == 1 && c >= 128 ==> Counting(r, digits + [c], buflen)
      ensures frc == 1 && c < 128 ==>
                Run(events, buflen).Some? && Measured(r, Now(buflen), digits + [c], remLen, buflen)
      ensures if frc <= 0 || (c < 128 && TrueLength(remLen) > buflen) then Closed(past, events, buflen)
              else Open(past, events, buflen)
    {
      hide Run, Value, Weight, Brought, TrueLength, Open, Closed;
      GoodRun(events, buflen);
      var bytes;
      frc, bytes := Ask(1, buflen);
      CallGoesOn(past, old(events), EventOf(frc, bytes), buflen);
      len := len + 1;
      c := 0;
      if frc == 1 {
        c := bytes[0];
        assert bytes == [c];
        ValueJoins(digits, c);
        LastDigit(digits, c);
        remLen := remLen + c % 128 * multiplier;
        multiplier := multiplier * 128;
      }
    }

    /** MQTTPacket_decodenb; `digits` is the whole field if it ended. */
    method DecodeNb(buf: array<octet>, buflen: nat, ghost past: seq<Event>) returns (rc: int, ghost digits: seq<octet>)
      requires Valid(buf, buflen) && Now(buflen).progress.AwaitLength? && Open(past, events, buflen)
      modifies this`events, this`len, this`remLen, this`multiplier, sck
      ensures Total() == old(Total()) && Run(events, buflen).Some?
      ensures rc == -1 ==> Gave(old(Now(buflen)), Now(buflen))
      ensures rc == 0 ==> Counting(old(Now(buflen)), digits, buflen)
      ensures rc == -1 || rc == 0 || (rc > 0 && Measured(old(Now(buflen)), Now(buflen), digits, remLen, buflen))
      ensures if rc <= 0 || TrueLength(remLen) > buflen then Closed(past, events, buflen)
              else Open(past, events, buflen)
    {
      ghost var start := Now(buflen);
      digits := start.progress.digits;
      GoodRun(events, buflen);
      if len == 0 {
        multiplier := 1;
        remLen := 0;
      }
      hide Run, Value, Weight, Brought, Measured, Open, Closed, TrueLength;
      while true
        invariant Counting(start, digits, buflen) && Total() == old(Total()) && Open(past, events, buflen)
        decreases 5 - len
      {
        if len == 4 {
          len := 5;
          Note(GiveUp, buflen, past);
          return -1, digits;
        }
        var frc, c := ReadDigit(start, digits, buflen, past);
        if frc == -1 { return -1, digits; }
        if frc == 0 { return 0, digits; }
        digits := digits + [c];
        if c < 128 { break; }
      }
      rc := len;
    }

    /** Case 0 of the switch: the header byte. The result is what getfn returned. */
    method HeaderPhase(buf: array<octet>, buflen: nat) returns (frc: int)
      requires Valid(buf, buflen) && Now(buflen).progress.AwaitHeader?
      modifies this, sck, buf
      ensures -1 <= frc <= 1 && Total() == old(Total()) && Valid(buf, buflen)
      ensures frc == -1 ==> Gave(old(Now(buflen)), Now(buflen))
      ensures frc == 0 ==> Now(buflen) == old(Now(buflen))
      ensures frc == 1 ==> Now(buflen).progress.AwaitLength? && Now(buflen).results == old(Now(buflen)).results
      ensures if frc <= 0 then Closed(old(events), events, buflen) else Open(old(events), events, buflen)
    {
      hide Run, Brought, Open, Closed;
      CallBegins(events, buflen);
      var bytes;
      state := 0;
      frc, bytes := Ask(1, buflen);
      CallGoesOn(old(events), old(events), EventOf(frc, bytes), buflen);
      if frc == 1 {
        buf[0] := bytes[0];
        len := 0;
        state := 1;
      }
    }

    /** Case 1: the length field, which is written back in its shortest form. */
    method LengthPhase(buf: array<octet>, buflen: nat, ghost past: seq<Event>) returns (rc: int)
      requires Valid(buf, buflen) && Now(buflen).progress.AwaitLength? && Open(past, events, buflen)
      modifies this, sck, buf
      ensures -1 <= rc <= 1 && Total() == old(Total()) && Valid(buf, buflen)
      ensures rc == -1 ==> Gave(old(Now(buflen)), Now(buflen))
      ensures rc >= 0 ==> Now(buflen).results == old(Now(buflen)).results
      ensures rc == 0 ==> Now(buflen).progress.AwaitLength?
      ensures rc == 1 ==> Now(buflen).progress.AwaitBody?
      ensures if rc <= 0 then Closed(past, events, buflen) else Open(past, events, buflen)
    {
      hide Open, Closed;
      var frc: int;
      ghost var digits;
      ghost var header := Now(buflen).progress.header;
      frc, digits := DecodeNb(buf, buflen, past);
      if frc == -1 {
        state := 0;
        return -1;
      }
      if frc == 0 { return 0; }
      rc := StartBody(buf, buflen, digits, header);
    }

    /** The end of case 1: `remLen` is known. */
    method StartBody(buf: array<octet>, buflen: nat, ghost digits: seq<octet>, ghost header: octet) returns (rc: int)
      requires 5 <= buf.Length && buflen <= buf.Length && buf[0] == header && state == 1
      requires FieldOfDigits(digits) && remLen == Value(digits) && Run(events, buflen).Some?
      requires if TrueLength(remLen) > buflen then Now(buflen).progress == AwaitHeader
               else Now(buflen).progress == AwaitBody(header, digits, [])
      modifies this`state, this`len, buf
      ensures Valid(buf, buflen) && rc == if TrueLength(remLen) > buflen then -1 else 1
    {
      FieldFits(digits);
      hide Run, Value, LengthField, FieldOfDigits, Splice;
      HeaderKept(buf[..], LengthField(remLen), header);
      var size := Encode(buf, 1, remLen);
      len := 1 + size;
      if remLen + len > buflen {
        state := 0;
        return -1;
      }
      state := 2;
      assert [header] + LengthField(remLen) + [] == [header] + LengthField(remLen);
      rc := 1;
    }

    /** Case 2: the rest of the packet. */
    method BodyPhase(buf: array<octet>, buflen: nat, ghost past: seq<Event>) returns (rc: int)
      requires Valid(buf, buflen) && Now(buflen).progress.AwaitBody? && Open(past, events, buflen)
      modifies this, sck, buf
      ensures Total() == old(Total()) && Valid(buf, buflen)
      ensures Returns(old(Now(buflen)), Now(buflen), rc, buf[..]) && Closed(past, events, buflen)
    {
      GoodRun(events, buflen);
      hide Run, Value, Brought, LengthField, Splice, Open, Closed, At, HeaderType;
      ghost var r := Now(buflen);
      var frc, bytes := Ask(remLen, buflen);
      CallGoesOn(past, old(events), EventOf(frc, bytes), buflen);
      if frc == -1 {
        state := 0;
        return -1;
      }
      if frc == 0 { return 0; }
      rc := TakeBytes(buf, buflen, bytes, r);
    }

    /** The end of case 2: `bytes` have come after the reading `r`. */
    method TakeBytes(buf: array<octet>, buflen: nat, bytes: seq<octet>, ghost r: Reading) returns (rc: int)
      requires 5 <= buf.Length && buflen <= buf.Length && r.progress.AwaitBody? && GoodProgress(r.progress, buflen)
      requires Represents(r.progress, state, multiplier, remLen, len, buf[..]) && 0 < |bytes| <= remLen
      requires Run(events, buflen) == Some(Step(r, Bytes(bytes), buflen))
      modifies this`state, this`len, this`remLen, buf
      ensures Valid(buf, buflen) && Returns(r, Now(buflen), rc, buf[..])
    {
      hide Run, Value, LengthField, Splice, FieldOfDigits;
      ghost var p := r.progress;
      FieldFits(p.digits);
      BodyGrows(buf[..], len, [p.header] + LengthField(Value(p.digits)), p.body, bytes);
      var next := Copy(buf, len, bytes);
      remLen := remLen - |bytes|;
      len := len + |bytes|;
      if remLen != 0 { return 0; }
      rc := HeaderType(buf[0]);
      state := 0;
    }

    /**
     One call: it goes on to the first event that ends a call, nothing is lost, and the buffer holds each finished
     packet with the shortest length field.
     */
    method ReadNb(buf: array<octet>, buflen: nat) returns (rc: int)
      requires Valid(buf, buflen)
      modifies this, sck, buf
      ensures Valid(buf, buflen) && Total() == old(Total())
      ensures Returns(old(Now(buflen)), Now(buflen), rc, buf[..]) && Closed(old(events), events, buflen)
    {
      hide Run, Value, Brought, LengthField, Open, Closed;
      ghost var past := events;
      CallBegins(past, buflen);
      if state != 1 && state != 2 {
        rc := HeaderPhase(buf, buflen);
        if rc <= 0 { return; }
      }
      if state == 1 {
        rc := LengthPhase(buf, buflen, past);
        if rc <= 0 { return; }
      }
      rc := BodyPhase(buf, buflen, past);
    }

    ghost method Note(e: Event, buflen: nat, past: seq<Event>)
      requires Run(events, buflen).Some? && Possible(Now(buflen).progress, e) && !e.Bytes? && Open(past, events, buflen)
      modifies this`events
      ensures Total() == old(Total()) && Run(events, buflen) == Some(Step(old(Now(buflen)), e, buflen))
      ensures Closed(past, events, buflen)
    {
      hide Run, Open, Closed, Brought, Possible, Step;
      CallGoesOn(past, events, e, buflen);
      RunJoins(events, e, buflen);
      BroughtJoins(events, e);
      events := events + [e];
    }
  }

  /** Four digits cannot exceed what is encoded in four digits. */
  lemma FieldFits(digits: seq<octet>)
    requires |digits| <= 4
    ensures Value(digits) <= MAX_REMAINING && 1 + |LengthField(Value(digits))| <= 5
  {
    ValueBound(digits);
    FieldSize(Value(digits));
  }

  lemma {:induction false} ValueBound(digits: seq<octet>)
    requires |digits| <= 4
    ensures Value(digits) < Weight(|digits|)
  {
    if digits != [] {
      ValueBound(digits[..|digits| - 1]);
    }
  }

  lemma HeaderKept(buf: seq<octet>, field: seq<octet>, header: octet)
    requires buf != [] && buf[0] == header && 1 + |field| <= |buf|
    ensures Splice(buf, 1, field)[..1 + |field|] == [header] + field
  {
  }

  lemma BodyGrows(buf: seq<octet>, len: nat, start: seq<octet>, body: seq<octet>, bytes: seq<octet>)
    requires start != [] && len + |bytes| <= |buf| && buf[..len] == start + body
    ensures var after := Splice(buf, len, bytes);
            && after[..len + |bytes|] == start + (body + bytes) && after[0] == start[0]
            && At(after, 0, start + (body + bytes))
  {
    assert Splice(buf, len, bytes)[..len + |bytes|] == buf[..len] + bytes;
    assert start + body + bytes == start + (body + bytes);
    assert Splice(buf, len, bytes)[0] == (start + body)[0];
  }

  lemma WhatHappened(p: Progress, n: nat, frc: int, bytes: seq<octet>)
    requires Requests(p, n) && -1 <= frc <= n && |bytes| == if frc == -1 then 0 else frc
    ensures var e := EventOf(frc, bytes); Possible(p, e) && bytes == if e.Bytes? then e.bytes else []
  {
  }

  lemma GoodRun(events: seq<Event>, buflen: nat)
    ensures Run(events, buflen).Some? ==> GoodProgress(Run(events, buflen).value.progress, buflen)
  {
  }

  lemma LastDigit(digits: seq<octet>, c: octet)
    requires Continues(digits) && |digits| < 4
    ensures (digits + [c])[..|digits|] == digits
    ensures c < 128 ==> FieldOfDigits(digits + [c])
    ensures c >= 128 ==> Continues(digits + [c])
  {
    assert (digits + [c])[..|digits|] == digits;
  }

  /** `n` is what the code asks for, and an attempt is left. */
  predicate Requests(p: Progress, n: nat) {
    match p
    case AwaitHeader => n == 1
    case AwaitLength(_, _, attempts) => n == 1 && attempts < 4
    case AwaitBody(_, ds, b) => |ds| <= 4 && |b| + n == Value(ds)
  }

  function EventOf(frc: int, bytes: seq<octet>): Event {
    if frc == -1 then Err else if frc == 0 then Stall else Bytes(bytes)
  }

  lemma BroughtJoins(events: seq<Event>, e: Event)
    ensures Brought(events + [e]) == Brought(events) + (if e.Bytes? then e.bytes else [])
  {
    assert (events + [e])[..|events|] == events;
  }

  lemma ValueJoins(digits: seq<octet>, c: octet)
    requires |digits| < 4
    ensures Value(digits + [c]) == Value(digits) + c % 128 * Weight(|digits|)
    ensures Weight(|digits + [c]|) == 128 * Weight(|digits|)
  {
    assert (digits + [c])[..|digits|] == digits;
  }

  /** The current packet was given up. */
  ghost predicate Gave(before: Reading, after: Reading) {
    && after.progress == AwaitHeader
    && |after.results| == |before.results| + 1 && after.results[..|before.results|] == before.results
    && after.results[|before.results|].Failed?
  }

  /** The length field ended; the packet goes on exactly if it fits the buffer. */
  ghost predicate Measured(before: Reading, after: Reading, digits: seq<octet>, remLen: nat, buflen: nat) {
    && before.progress.AwaitLength? && FieldOfDigits(digits) && remLen == Value(digits)
    && if TrueLength(remLen) > buflen then Gave(before, after)
       else after == Reading(AwaitBody(before.progress.header, digits, []), before.results)
  }

  // ---------- what holds for every history of calls ----------

  /** The bytes of the packets and of the failures, in order. */
  function Raw(result: Result): seq<octet> {
    match result
    case Received(h, ds, b) => [h] + ds + b
    case Failed(raw) => raw
  }

  function AllRaw(results: seq<Result>): seq<octet> {
    if results == [] then [] else AllRaw(results[..|results| - 1]) + Raw(results[|results| - 1])
  }

  lemma AllRawJoins(results: seq<Result>, r: Result)
    ensures AllRaw(results + [r]) == AllRaw(results) + Raw(r)
  {
    assert (results + [r])[..|results|] == results;
  }

  lemma StepConserves(r: Reading, e: Event, buflen: nat)
    requires GoodProgress(r.progress, buflen) && Possible(r.progress, e)
    ensures var t := Step(r, e, buflen);
            AllRaw(t.results) + Partial(t.progress)
            == AllRaw(r.results) + Partial(r.progress) + (if e.Bytes? then e.bytes else [])
  {
    StepAdds(r, e, buflen);
    var t := Step(r, e, buflen);
    hide AllRaw, Step, Partial, Raw, Possible, GoodProgress;
    if t.results != r.results {
      AllRawJoins(r.results, t.results[|r.results|]);
    }
  }

  /** The bytes of the current packet grow by what came, or they become those of the next result. */
  lemma StepAdds(r: Reading, e: Event, buflen: nat)
    requires GoodProgress(r.progress, buflen) && Possible(r.progress, e)
    ensures var (t, now) := (Step(r, e, buflen), Partial(r.progress) + (if e.Bytes? then e.bytes else []));
            if t.results == r.results then Partial(t.progress) == now
            else
              && |t.results| == |r.results| + 1 && t.results == r.results + [t.results[|r.results|]]
              && Raw(t.results[|r.results|]) == now && Partial(t.progress) == []
  {
    hide Value, TrueLength, FieldOfDigits, Continues;
    if r.progress.AwaitBody? && e.Bytes? {
      var p := r.progress;
      assert [p.header] + p.digits + (p.body + e.bytes) == [p.header] + p.digits + p.body + e.bytes;
    } else if r.progress.AwaitLength? && e.Bytes? {
      var p := r.progress;
      assert [p.header] + (p.digits + e.bytes) == [p.header] + p.digits + e.bytes;
    }
  }

  /** Every byte that was read belongs, in order, to one packet, to one failure or to the packet being read. */
  lemma {:induction false} NothingIsLost(events: seq<Event>, buflen: nat)
    requires Run(events, buflen).Some?
    ensures var r := Run(events, buflen).value; Brought(events) == AllRaw(r.results) + Partial(r.progress)
  {
    if events != [] {
      var n := |events| - 1;
      NothingIsLost(events[..n], buflen);
      hide Step, Partial, AllRaw, Possible;
      StepConserves(Run(events[..n], buflen).value, events[n], buflen);
    }
  }

  /** A packet as the standard frames it, with a body, that fits the buffer. */
  predicate Framed(p: Result, buflen: nat) {
    p.Received? && FieldOfDigits(p.digits) && |p.body| == Value(p.digits) > 0 && TrueLength(|p.body|) <= buflen
  }

  lemma StepFrames(r: Reading, e: Event, buflen: nat)
    requires GoodProgress(r.progress, buflen) && Possible(r.progress, e)
    requires forall p :: p in r.results ==> p.Failed? || Framed(p, buflen)
    ensures forall p :: p in Step(r, e, buflen).results ==> p.Failed? || Framed(p, buflen)
  {
  }

  /** Every packet that is reported is framed. */
  lemma {:induction false} OnlyFramedPackets(events: seq<Event>, buflen: nat)
    requires Run(events, buflen).Some?
    ensures forall p :: p in Run(events, buflen).value.results ==> p.Failed? || Framed(p, buflen)
  {
    if events != [] {
      var n := |events| - 1;
      OnlyFramedPackets(events[..n], buflen);
      StepFrames(Run(events[..n], buflen).value, events[n], buflen);
    }
  }

  // ---------- the bytes of a packet ----------

  lemma DigitContinues(s: seq<octet>, a: seq<octet>, i: nat)
    requires FieldOfDigits(a) && a <= s && i < |a|
    ensures s[i] >= 128 <==> i < |a| - 1
  {
    assert i < |a| - 1 ==> a[..|a| - 1][i] == s[i];
  }

  lemma RawParts(p: Result, s: seq<octet>)
    requires p.Received? && Raw(p) <= s
    ensures s != [] && s[0] == p.header && p.digits <= s[1..] && p.body <= s[1..][|p.digits|..]
  {
    var n := 1 + |p.digits|;
    assert Raw(p)[0] == p.header;
    assert s[1..][..|p.digits|] == Raw(p)[1..n];
    assert s[1..][|p.digits|..][..|p.body|] == Raw(p)[n..n + |p.body|];
  }

  lemma {:induction false} AllRawFirst(results: seq<Result>)
    requires results != []
    ensures AllRaw(results) == Raw(results[0]) + AllRaw(results[1..])
  {
    hide Raw;
    var n := |results| - 1;
    if n > 0 {
      AllRawFirst(results[..n]);
      assert results[..n][1..] == results[1..][..n - 1];
    }
  }

  lemma RawNotEmpty(p: Result, buflen: nat)
    requires Framed(p, buflen)
    ensures Raw(p) != []
  {
  }

  // ---------- the length field in the buffer ----------

  lemma {:induction false} ValueFromFirst(c: octet, digits: seq<octet>)
    requires |digits| <= 3
    ensures Value([c] + digits) == c % 128 + 128 * Value(digits)
  {
    var n := |digits| - 1;
    if digits == [] {
      ValueJoins([], c);
      assert [c] + digits == [] + [c];
    } else {
      hide Value, Weight;
      var (front, d) := (digits[..n], digits[n]);
      ValueFromFirst(c, front);
      ValueJoins(front, d);
      ValueJoins([c] + front, d);
      assert digits == front + [d] && [c] + digits == [c] + front + [d];
      WeightDistributes(d % 128, n + 1);
    }
  }

  lemma WeightDistributes(c: nat, n: nat)
    requires 1 <= n <= 4
    ensures c * Weight(n) == 128 * (c * Weight(n - 1))
  {
    assert Weight(n) == 128 * Weight(n - 1);
  }

  /** What the serializers send as length field is a field, its value is the length, and the reader keeps its bytes. */
  lemma {:induction false} SentField(n: nat)
    requires n <= MAX_REMAINING
    ensures FieldOfDigits(LengthField(n)) && Value(LengthField(n)) == n
  {
    FieldSize(n);
    DigitsOfField(n);
  }

  lemma ContinuesIff(c: octet, digits: seq<octet>)
    ensures Continues([c] + digits) <==> c >= 128 && Continues(digits)
  {
    if Continues([c] + digits) {
      assert ([c] + digits)[0] == c;
      assert forall i :: 0 <= i < |digits| ==> digits[i] == ([c] + digits)[i + 1];
    }
  }

  lemma {:induction false} DigitsOfField(n: nat)
    requires |LengthField(n)| <= 4
    ensures FieldOfDigits(LengthField(n)) && Value(LengthField(n)) == n
  {
    hide Value, FieldOfDigits;
    if n >= 128 {
      DigitsOfField(n / 128);
      ValueFromFirst(n % 128 + 128, LengthField(n / 128));
      FieldFromFirst(n % 128 + 128, LengthField(n / 128));
    } else {
      OneDigit(n);
    }
  }

  lemma OneDigit(n: nat)
    requires n < 128
    ensures FieldOfDigits([n]) && Value([n]) == n
  {
    ValueJoins([], n);
    assert [n] == [] + [n];
  }

  lemma FieldFromFirst(c: octet, rest: seq<octet>)
    requires |rest| < 4
    ensures FieldOfDigits([c] + rest) <==> if c < 128 then rest == [] else FieldOfDigits(rest)
  {
    var all := [c] + rest;
    if rest != [] {
      assert all[..|rest|] == [c] + rest[..|rest| - 1] && all[|rest|] == rest[|rest| - 1];
      ContinuesIff(c, rest[..|rest| - 1]);
      hide Continues;
    }
  }

  lemma FirstDigit(digits: seq<octet>)
    requires 1 <= |digits| <= 4
    ensures FieldOfDigits(digits) <==> if digits[0] < 128 then |digits| == 1 else FieldOfDigits(digits[1..])
    ensures Value(digits) == digits[0] % 128 + 128 * Value(digits[1..]) && Value([]) == 0
  {
    ValueFromFirst(digits[0], digits[1..]);
    FieldFromFirst(digits[0], digits[1..]);
    assert digits == [digits[0]] + digits[1..];
    hide Value, FieldOfDigits;
  }

  /** The deserializers and the readers see the same length field, and give it the same value. */
  lemma DecodersAgree(s: seq<octet>, digits: seq<octet>)
    requires |digits| <= 4 && digits <= s
    ensures FieldOfDigits(digits) <==> HasField(s, 0) && DecodedFrom(s, 0).len == |digits|
    ensures FieldOfDigits(digits) ==> DecodedFrom(s, 0) == Decoded(Value(digits), |digits|)
  {
    DecodersAgreeFrom(s, digits, 0);
  }

  lemma {:induction false} DecodersAgreeFrom(s: seq<octet>, digits: seq<octet>, k: nat)
    requires k + |digits| <= 4 && digits <= s
    ensures FieldOfDigits(digits) <==> HasField(s, k) && DecodedFrom(s, k).len == |digits|
    ensures FieldOfDigits(digits) ==> DecodedFrom(s, k) == Decoded(Value(digits), |digits|)
    decreases |digits|
  {
    if digits != [] {
      assert digits[1..] <= s[1..];
      FirstDigit(digits);
      hide Value, FieldOfDigits;
      DecodersAgreeFrom(s[1..], digits[1..], k + 1);
    }
  }
}
