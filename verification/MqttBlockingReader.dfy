/** libmqtt/MQTTPacket.c: MQTTPacket_read, which takes a whole packet from its source in one call. */
module MqttBlockingReader {
  import opened Buffers
  import opened MqttPacket
  import opened MqttReader
  import opened MqttStrings

  // ---------- what a source delivers ----------

  /** What the next read of `n` bytes returns. */
  function Answered(schedule: seq<Answer>, n: nat, left: nat): int {
    if schedule == [] then 0 else Granted(schedule[0], n, left)
  }

  /** The answers after `k` reads. */
  function After(schedule: seq<Answer>, k: nat): seq<Answer> {
    if k <= |schedule| then schedule[k..] else []
  }

  /** The digits, at most `n`, that reads of one byte bring up to the end of the length field or a read that fails. */
  function Taken(stream: seq<octet>, schedule: seq<Answer>, n: nat): (digits: seq<octet>)
    ensures |digits| <= n && digits <= stream
  {
    if n == 0 || Answered(schedule, 1, |stream|) != 1 then []
    else if stream[0] < 128 then [stream[0]]
    else [stream[0]] + Taken(stream[1..], schedule[1..], n - 1)
  }

  /** The next `n` answers of the source let everything through that is asked for. */
  predicate Generous(schedule: seq<Answer>, n: nat, size: nat) {
    n <= |schedule| && forall i :: 0 <= i < n ==> schedule[i].Grant? && schedule[i].most >= size
  }

  /** The source will deliver `field` digit by digit. */
  predicate Delivers(field: seq<octet>, stream: seq<octet>, schedule: seq<Answer>) {
    FieldOfDigits(field) && field <= stream && Generous(schedule, |field|, 1)
  }

  lemma FirstDigit(field: seq<octet>)
    requires FieldOfDigits(field)
    ensures field[0] < 128 ==> field == [field[0]]
    ensures field[0] >= 128 ==> FieldOfDigits(field[1..])
  {
    var n := |field| - 1;
    DigitContinues(field, field, 0);
    if n > 0 {
      assert field[1..][..n - 1] == field[..n][1..];
    }
  }

  lemma FirstDelivered(field: seq<octet>, stream: seq<octet>, schedule: seq<Answer>)
    requires Delivers(field, stream, schedule)
    ensures stream != [] && stream[0] == field[0] && Answered(schedule, 1, |stream|) == 1
    ensures field[0] >= 128 ==> Delivers(field[1..], stream[1..], schedule[1..])
  {
    FirstDigit(field);
    hide FieldOfDigits;
    assert schedule[0].Grant?;
  }

  /** A field that the source delivers is what is taken. */
  lemma {:induction false} DeliveredIsTaken(field: seq<octet>, stream: seq<octet>, schedule: seq<Answer>, n: nat)
    requires Delivers(field, stream, schedule) && |field| <= n
    ensures Taken(stream, schedule, n) == field
    decreases n
  {
    FirstDigit(field);
    FirstDelivered(field, stream, schedule);
    hide Delivers, FieldOfDigits, Answered;
    if field[0] >= 128 {
      DeliveredIsTaken(field[1..], stream[1..], schedule[1..], n - 1);
    }
  }

  /** What is taken is delivered, and it has no end before its last digit. */
  lemma {:induction false} TakenIsDelivered(stream: seq<octet>, schedule: seq<Answer>, n: nat)
    ensures var digits := Taken(stream, schedule, n);
            Generous(schedule, |digits|, 1) && (digits != [] ==> Continues(digits[..|digits| - 1]))
    decreases n
  {
    if n > 0 && Answered(schedule, 1, |stream|) == 1 && stream[0] >= 128 {
      var rest := Taken(stream[1..], schedule[1..], n - 1);
      TakenIsDelivered(stream[1..], schedule[1..], n - 1);
      forall i | 0 <= i < |rest| + 1
        ensures schedule[i].Grant? && schedule[i].most >= 1
      {
        assert i > 0 ==> schedule[i] == schedule[1..][i - 1];
      }
      assert rest != [] ==> ([stream[0]] + rest)[..|rest|] == [stream[0]] + rest[..|rest| - 1];
    }
  }

  /** A whole field is taken exactly if the source delivers one, and then it is that one. */
  lemma WholeIff(stream: seq<octet>, schedule: seq<Answer>)
    ensures FieldOfDigits(Taken(stream, schedule, 4)) <==> exists field :: Delivers(field, stream, schedule)
    ensures forall field :: Delivers(field, stream, schedule) ==> Taken(stream, schedule, 4) == field
  {
    var digits := Taken(stream, schedule, 4);
    TakenIsDelivered(stream, schedule, 4);
    forall field | Delivers(field, stream, schedule)
      ensures digits == field
    {
      DeliveredIsTaken(field, stream, schedule, 4);
    }
    hide Taken;
    if FieldOfDigits(digits) {
      assert Delivers(digits, stream, schedule);
    }
  }

  // ---------- the length field ----------

  /** `digits` have been taken, and none of them ends the field. */
  ghost predicate Decoding(stream0: seq<octet>, schedule0: seq<Answer>, digits: seq<octet>, stream: seq<octet>,
                           schedule: seq<Answer>) {
    && |digits| <= 4 && Continues(digits) && stream0 == digits + stream && schedule == After(schedule0, |digits|)
    && Taken(stream0, schedule0, 4) == digits + Taken(stream, schedule, 4 - |digits|)
  }

  /** The reading of the field has ended with `digits`; at most one read has failed. */
  ghost predicate Decoded(stream0: seq<octet>, schedule0: seq<Answer>, digits: seq<octet>, whole: bool,
                          stream: seq<octet>, schedule: seq<Answer>) {
    && digits == Taken(stream0, schedule0, 4) && stream0 == digits + stream && (whole <==> FieldOfDigits(digits))
    && schedule == After(schedule0, |digits| + (if whole || |digits| == 4 then 0 else 1))
  }

  lemma DecodingStarts(stream: seq<octet>, schedule: seq<Answer>)
    ensures Decoding(stream, schedule, [], stream, schedule) && Value([]) == 0 && Weight(0) == 1
  {
    assert [] + stream == stream && [] + Taken(stream, schedule, 4) == Taken(stream, schedule, 4);
  }

  lemma NextAnswers(schedule: seq<Answer>, k: nat)
    ensures After(schedule, k + 1) == After(After(schedule, k), 1)
  {
  }

  lemma TakenNext(stream: seq<octet>, schedule: seq<Answer>, n: nat)
    requires n > 0 && Answered(schedule, 1, |stream|) == 1
    ensures stream != []
    ensures Taken(stream, schedule, n) ==
              [stream[0]] + if stream[0] < 128 then [] else Taken(stream[1..], After(schedule, 1), n - 1)
  {
  }

  /** One digit more, which ends the field. */
  lemma LastStep(stream0: seq<octet>, schedule0: seq<Answer>, digits: seq<octet>, c: octet, stream: seq<octet>,
                 schedule: seq<Answer>)
    requires Decoding(stream0, schedule0, digits, [c] + stream, schedule) && |digits| < 4 && c < 128
    requires Answered(schedule, 1, |[c] + stream|) == 1
    ensures Decoded(stream0, schedule0, digits + [c], true, stream, After(schedule, 1))
  {
    TakenNext([c] + stream, schedule, 4 - |digits|);
    NextAnswers(schedule0, |digits|);
    LastDigit(digits, c);
    hide Taken, Answered, After, FieldOfDigits, Continues;
    assert [c] + [] == [c] && digits + ([c] + stream) == digits + [c] + stream;
  }

  /** One digit more, which has another one after it. */
  lemma DecodingStep(stream0: seq<octet>, schedule0: seq<Answer>, digits: seq<octet>, c: octet, stream: seq<octet>,
                     schedule: seq<Answer>)
    requires Decoding(stream0, schedule0, digits, [c] + stream, schedule) && |digits| < 4 && c >= 128
    requires Answered(schedule, 1, |[c] + stream|) == 1
    ensures Decoding(stream0, schedule0, digits + [c], stream, After(schedule, 1))
  {
    TakenNext([c] + stream, schedule, 4 - |digits|);
    NextAnswers(schedule0, |digits|);
    LastDigit(digits, c);
    hide Taken, Answered, After, FieldOfDigits, Continues;
    var rest := Taken(stream, After(schedule, 1), 3 - |digits|);
    assert ([c] + stream)[1..] == stream && digits + ([c] + stream) == digits + [c] + stream;
    assert digits + ([c] + rest) == digits + [c] + rest;
  }

  /** The reading breaks off. */
  lemma DecodingEnds(stream0: seq<octet>, schedule0: seq<Answer>, digits: seq<octet>, stream: seq<octet>,
                     schedule: seq<Answer>)
    requires Decoding(stream0, schedule0, digits, stream, schedule)
    requires |digits| == 4 || Answered(schedule, 1, |stream|) != 1
    ensures Decoded(stream0, schedule0, digits, false, stream, if |digits| == 4 then schedule else After(schedule, 1))
  {
    NextAnswers(schedule0, |digits|);
    assert digits + [] == digits;
    assert digits != [] ==> digits[|digits| - 1] >= 128;
    hide Answered, After;
  }

  /**
   MQTTPacket_decode with a source: it takes the digits up to the end of the field, to the first read that fails,
   or to the fourth one. `whole` says whether the field has ended, which the result does not.
   */
  method Decode(source: Source) returns (value: nat, len: nat, ghost digits: seq<octet>, ghost whole: bool)
    modifies source
    ensures |digits| <= 4 && value == Value(digits) && len == |digits| + (if whole then 0 else 1)
    ensures Decoded(old(source.stream), old(source.schedule), digits, whole, source.stream, source.schedule)
  {
    ghost var (stream0, schedule0) := (source.stream, source.schedule);
    var multiplier: nat := 1;
    len, value, digits, whole := 0, 0, [], false;
    DecodingStarts(stream0, schedule0);
    hide Value, Weight, Decoded, Taken, After;
    while true
      invariant len == |digits| && value == Value(digits) && multiplier == Weight(|digits|)
      invariant Decoding(stream0, schedule0, digits, source.stream, source.schedule)
      decreases 5 - len
    {
      len := len + 1;
      if len > 4 {
        DecodingEnds(stream0, schedule0, digits, source.stream, source.schedule);
        return;
      }
      var frc, c := NextByte(source, stream0, schedule0, digits);
      if frc != 1 { return; }
      ValueJoins(digits, c);
      value := value + c % 128 * multiplier;
      multiplier := multiplier * 128;
      digits := digits + [c];
      if c < 128 {
        whole := true;
        return;
      }
    }
  }

  method NextByte(source: Source, ghost stream0: seq<octet>, ghost schedule0: seq<Answer>, ghost digits: seq<octet>)
    returns (frc: int, c: octet)
    requires Decoding(stream0, schedule0, digits, source.stream, source.schedule) && |digits| < 4
    modifies source
    ensures frc == 1 ==> if c < 128 then Decoded(stream0, schedule0, digits + [c], true, source.stream, source.schedule)
                         else Decoding(stream0, schedule0, digits + [c], source.stream, source.schedule)
    ensures frc != 1 ==> Decoded(stream0, schedule0, digits, false, source.stream, source.schedule)
  {
    hide Decoding, Decoded, Granted;
    ghost var (stream, schedule) := (source.stream, source.schedule);
    var bytes;
    frc, bytes := source.Get(1);
    c := 0;
    if frc == 1 {
      c := bytes[0];
      assert bytes == [c];
      if c < 128 {
        LastStep(stream0, schedule0, digits, c, source.stream, schedule);
      } else {
        DecodingStep(stream0, schedule0, digits, c, source.stream, schedule);
      }
    } else {
      assert [] + source.stream == source.stream;
      DecodingEnds(stream0, schedule0, digits, stream, schedule);
    }
  }

  // ---------- the packet ----------

  /** What a call reads from the stream; Failed if it returns -1. */
  function ReadAt(stream: seq<octet>, schedule: seq<Answer>, buflen: nat): Result {
    if Answered(schedule, 1, |stream|) != 1 then Failed([])
    else ReadAfterHeader(stream[0], stream[1..], After(schedule, 1), buflen)
  }

  function ReadAfterHeader(header: octet, stream: seq<octet>, schedule: seq<Answer>, buflen: nat): Result {
    var digits := Taken(stream, schedule, 4);
    var count := |digits| + (if FieldOfDigits(digits) || |digits| == 4 then 0 else 1);
    ReadBodyAt(header, digits, stream[|digits|..], After(schedule, count), buflen)
  }

  function ReadBodyAt(header: octet, digits: seq<octet>, stream: seq<octet>, schedule: seq<Answer>, buflen: nat): Result
    requires |digits| <= 4
  {
    var value := Value(digits);
    if TrueLength(value) > buflen || Answered(schedule, value, |stream|) != value then Failed([])
    else
      GrantedFits(schedule, value, |stream|);
      Received(header, digits, stream[..value])
  }

  lemma GrantedFits(schedule: seq<Answer>, n: nat, left: nat)
    requires Answered(schedule, n, left) == n
    ensures n <= left
  {
  }

  lemma FitsIff(value: nat)
    ensures TrueLength(value) == value + (1 + |LengthField(value)|)
  {
  }

  /** The steps after the length field. */
  method ReadBody(buf: array<octet>, buflen: nat, source: Source, header: octet, value: nat, ghost digits: seq<octet>)
    returns (rc: int, ghost got: Result)
    requires 5 <= buf.Length && buflen <= buf.Length && buf[0] == header && |digits| <= 4 && value == Value(digits)
    modifies buf, source
    ensures got == ReadBodyAt(header, digits, old(source.stream), old(source.schedule), buflen)
    ensures if got.Failed? then rc == -1
            else got.header == header && got.digits == digits && rc == HeaderType(header)
                 && At(buf[..], 0, [header] + LengthField(|got.body|) + got.body)
                 && old(source.stream) == got.body + source.stream
  {
    hide HeaderType, Value, LengthField, TrueLength, Splice, Granted;
    got := Failed([]);
    FieldFits(digits);
    HeaderKept(buf[..], LengthField(value), header);
    var size := Encode(buf, 1, value);
    var len := 1 + size;
    FitsIff(value);
    if value + len > buflen { return -1, got; }
    var frc, bytes := source.Get(value);
    if frc != value { return -1, got; }
    BodyGrows(buf[..], len, [header] + LengthField(value), [], bytes);
    var next := Copy(buf, len, bytes);
    rc := HeaderType(buf[0]);
    got := Received(header, digits, bytes);
  }

  /**
   A type is returned only with the packet in the buffer, its length written back in the shortest form, and exactly
   its bytes taken from the stream. The result of reading the length field is not looked at: `whole` says whether
   the field has ended.
   */
  method Read(buf: array<octet>, buflen: nat, source: Source) returns (rc: int, ghost got: Result, ghost whole: bool)
    requires 5 <= buf.Length && buflen <= buf.Length
    modifies buf, source
    ensures got == ReadAt(old(source.stream), old(source.schedule), buflen)
    ensures if got.Failed? then rc == -1
            else
              && rc == HeaderType(got.header) && At(buf[..], 0, [got.header] + LengthField(|got.body|) + got.body)
              && old(source.stream) == Raw(got) + source.stream && (whole <==> FieldOfDigits(got.digits))
  {
    hide HeaderType, LengthField, Granted, ReadBodyAt, Decoded, ReadAfterHeader;
    got, whole := Failed([]), false;
    var frc, bytes := source.Get(1);
    if frc != 1 { return -1, got, whole; }
    buf[0] := bytes[0];
    assert bytes == [bytes[0]];
    ghost var (stream, schedule) := (source.stream, source.schedule);
    var value, _, digits, ended := Decode(source);
    DecodedThen(bytes[0], stream, schedule, digits, ended, source.stream, source.schedule, buflen);
    ghost var left := source.stream;
    rc, got := ReadBody(buf, buflen, source, bytes[0], value, digits);
    whole := ended;
  }

  lemma DecodedThen(header: octet, stream0: seq<octet>, schedule0: seq<Answer>, digits: seq<octet>, whole: bool,
                    stream: seq<octet>, schedule: seq<Answer>, buflen: nat)
    requires Decoded(stream0, schedule0, digits, whole, stream, schedule)
    ensures |digits| <= 4 && stream0 == digits + stream && (whole <==> FieldOfDigits(digits))
    ensures ReadAfterHeader(header, stream0, schedule0, buflen) == ReadBodyAt(header, digits, stream, schedule, buflen)
  {
    hide Taken, FieldOfDigits, ReadBodyAt, After;
    assert stream0[|digits|..] == stream;
  }

  // ---------- which packets are read ----------

  /** The source will deliver the packet, in as many answers as the reader asks for; the body may be empty. */
  ghost predicate Sends(p: Result, stream: seq<octet>, schedule: seq<Answer>) {
    && p.Received? && FieldOfDigits(p.digits) && |p.body| == Value(p.digits) && Raw(p) <= stream
    && Generous(schedule, 2 + |p.digits|, if |p.body| == 0 then 1 else |p.body|)
  }

  /** First the header byte, then the length field. */
  lemma SendsHeader(p: Result, stream: seq<octet>, schedule: seq<Answer>)
    requires Sends(p, stream, schedule)
    ensures stream != [] && stream[0] == p.header && Answered(schedule, 1, |stream|) == 1
    ensures Delivers(p.digits, stream[1..], After(schedule, 1))
  {
    RawParts(p, stream);
    hide Raw, Value, FieldOfDigits;
  }

  /** Then the body. */
  lemma SendsBody(p: Result, stream: seq<octet>, schedule: seq<Answer>)
    requires Sends(p, stream, schedule)
    ensures stream != [] && |p.digits| <= 4 && |p.body| == Value(p.digits)
    ensures p.digits <= stream[1..] && p.body <= stream[1..][|p.digits|..]
    ensures var left := stream[1..][|p.digits|..];
            Answered(After(After(schedule, 1), |p.digits|), |p.body|, |left|) == |p.body|
  {
    RawParts(p, stream);
    hide Raw, Value;
    assert After(After(schedule, 1), |p.digits|)[0] == schedule[1 + |p.digits|];
  }

  /** A packet that the source delivers and that fits the buffer is read, with or without a body. */
  lemma SentIsRead(p: Result, stream: seq<octet>, schedule: seq<Answer>, buflen: nat)
    requires Sends(p, stream, schedule) && TrueLength(|p.body|) <= buflen
    ensures ReadAt(stream, schedule, buflen) == p
  {
    SendsHeader(p, stream, schedule);
    SendsBody(p, stream, schedule);
    assert FieldOfDigits(p.digits);
    hide Sends, Answered, Value, TrueLength, FieldOfDigits, After;
    DeliveredIsTaken(p.digits, stream[1..], After(schedule, 1), 4);
    hide Taken, Delivers;
    assert stream[1..][|p.digits|..][..|p.body|] == p.body;
  }

  /** The parts of what is reported. */
  lemma ReportedParts(stream: seq<octet>, schedule: seq<Answer>, buflen: nat)
    requires ReadAt(stream, schedule, buflen).Received?
    ensures var p := ReadAt(stream, schedule, buflen);
            && stream != [] && p.header == stream[0] && p.digits == Taken(stream[1..], After(schedule, 1), 4)
            && p.body <= stream[1..][|p.digits|..] && |p.body| == Value(p.digits) && TrueLength(|p.body|) <= buflen
  {
    SomethingGranted(schedule, |stream|);
    hide Taken, Value, TrueLength, FieldOfDigits, After, Answered;
    var p := ReadAt(stream, schedule, buflen);
    assert p.body == stream[1..][|p.digits|..][..Value(p.digits)];
  }

  lemma SomethingGranted(schedule: seq<Answer>, left: nat)
    ensures Answered(schedule, 1, left) == 1 ==> left > 0
  {
  }

  lemma RawBegins(p: Result, stream: seq<octet>)
    requires p.Received? && stream != [] && p.header == stream[0]
    requires p.digits <= stream[1..] && p.body <= stream[1..][|p.digits|..]
    ensures Raw(p) <= stream
  {
    assert stream == [stream[0]] + (p.digits + (p.body + stream[1..][|p.digits|..][|p.body|..]));
  }

  /**
   What is reported begins the stream, fits the buffer and has the body that its digits announce. Its length field
   is a whole one exactly if the source delivers a length field after the header.
   */
  lemma ReportedIsFramedIff(stream: seq<octet>, schedule: seq<Answer>, buflen: nat)
    requires ReadAt(stream, schedule, buflen).Received?
    ensures var p := ReadAt(stream, schedule, buflen);
            && stream != [] && Raw(p) <= stream && |p.digits| <= 4
            && |p.body| == Value(p.digits) && TrueLength(|p.body|) <= buflen
            && (FieldOfDigits(p.digits) <==> exists field :: Delivers(field, stream[1..], After(schedule, 1)))
  {
    ReportedParts(stream, schedule, buflen);
    hide *;
    WholeIff(stream[1..], After(schedule, 1));
    RawBegins(ReadAt(stream, schedule, buflen), stream);
  }

  /** Four digits without an end, which are no length field, are reported as a packet without a body. */
  lemma EndlessFieldIsReported(schedule: seq<Answer>)
    requires Generous(schedule, 6, 1)
    ensures var p := Received(0x30, [0x80, 0x80, 0x80, 0x80], []);
            ReadAt([0x30, 0x80, 0x80, 0x80, 0x80], schedule, 100) == p && !FieldOfDigits(p.digits)
  {
    var digits := [0x80, 0x80, 0x80, 0x80];
    FourAre(schedule[1..]);
    assert [0x30, 0x80, 0x80, 0x80, 0x80][1..] == digits && digits[4..] == [];
    NothingAnnounced(digits);
    hide Value, Taken;
  }

  lemma {:induction false} NothingAnnounced(digits: seq<octet>)
    requires |digits| <= 4 && forall i :: 0 <= i < |digits| ==> digits[i] == 0x80
    ensures Value(digits) == 0
  {
    if digits != [] {
      NothingAnnounced(digits[..|digits| - 1]);
    }
  }

  lemma FourAre(schedule: seq<Answer>)
    requires Generous(schedule, 4, 1)
    ensures Taken([0x80, 0x80, 0x80, 0x80], schedule, 4) == [0x80, 0x80, 0x80, 0x80]
  {
    TakenNext([0x80, 0x80, 0x80, 0x80], schedule, 4);
    TakenNext([0x80, 0x80, 0x80], schedule[1..], 3);
    TakenNext([0x80, 0x80], schedule[1..][1..], 2);
    TakenNext([0x80], schedule[1..][1..][1..], 1);
    assert Taken([], schedule[1..][1..][1..][1..], 0) == [];
    hide Taken;
  }
}
