/**
 Whole streams of packets through MQTTPacket_readnb (libmqtt/MQTTPacket.c), under every schedule of short reads and
 stalls. A stall in a length field counts as one of the four attempts at its bytes.
 */
module MqttStream {
  import opened MqttPacket
  import opened MqttReader
  import opened MqttStrings
  import opened Options

  // ---------- stalls in the length field ----------

  /**
   How often the transport had nothing while the length field of a packet was being read that starts after `start`
   bytes of the stream and whose length field ends before its byte `n`.
   */
  function LengthStalls(events: seq<Event>, start: nat, n: nat): nat {
    if events == [] then 0
    else
      var front := events[..|events| - 1];
      LengthStalls(front, start, n) + Held(events[|events| - 1], |Brought(front)| - start, n)
  }

  /** The reading of `p` after `k` of its bytes, with so many stalls in the length field. */
  function OnTrack(p: Result, k: nat, stalls: nat): Reading
    requires p.Received? && k <= |Raw(p)|
  {
    var n := 1 + |p.digits|;
    if k == 0 then Reading(AwaitHeader, [])
    else if k < n then Reading(AwaitLength(p.header, p.digits[..k - 1], k - 1 + stalls), [])
    else if k < |Raw(p)| then Reading(AwaitBody(p.header, p.digits, p.body[..k - n]), [])
    else Reading(AwaitHeader, [p])
  }

  /** Either the reading is on track within four attempts at the length field, or it failed after too many. */
  ghost predicate Tracked(r: Reading, p: Result, k: nat, stalls: nat)
    requires p.Received?
  {
    var n := 1 + |p.digits|;
    if k <= |Raw(p)| && r == OnTrack(p, k, stalls)
    then (k == 0 ==> stalls == 0) && (1 <= k < n ==> k - 1 + stalls <= 4) && (k >= n ==> |p.digits| + stalls <= 4)
    else r.results != [] && r.results[0].Failed? && |p.digits| + stalls > 4
  }

  function Added(e: Event): seq<octet> {
    if e.Bytes? then e.bytes else []
  }

  /** A stall that counts: the header has been read and the length field not yet. */
  function Held(e: Event, k: int, n: nat): nat {
    if e.Stall? && 1 <= k < n then 1 else 0
  }

  lemma RawLength(p: Result)
    requires p.Received?
    ensures |Raw(p)| == 1 + |p.digits| + |p.body|
  {
  }

  lemma HeaderOfRaw(p: Result, bytes: seq<octet>)
    requires p.Received? && |bytes| == 1 && bytes <= Raw(p)
    ensures bytes[0] == p.header
  {
    assert Raw(p)[0] == p.header;
  }

  lemma TrackHeader(p: Result, e: Event, stalls: nat, buflen: nat)
    requires Framed(p, buflen) && !e.Err? && Tracked(OnTrack(p, 0, stalls), p, 0, stalls)
    requires Possible(OnTrack(p, 0, stalls).progress, e) && Added(e) <= Raw(p)[0..]
    ensures Tracked(Step(OnTrack(p, 0, stalls), e, buflen), p, 0 + |Added(e)|, stalls + Held(e, 0, 1 + |p.digits|))
  {
    RawLength(p);
    assert Raw(p)[0..] == Raw(p);
    if e.Bytes? {
      HeaderOfRaw(p, e.bytes);
      assert p.digits[..0] == [];
    }
    hide Raw, Value, TrueLength;
  }

  lemma TrackStall(p: Result, k: nat, stalls: nat, buflen: nat)
    requires Framed(p, buflen) && 1 <= k < 1 + |p.digits| && k - 1 + stalls <= 4
    ensures GoodProgress(OnTrack(p, k, stalls).progress, buflen)
    ensures var a := OnTrack(p, k, stalls).progress;
            && (Possible(a, Stall) ==> Tracked(Step(OnTrack(p, k, stalls), Stall, buflen), p, k, stalls + 1))
            && (Possible(a, GiveUp) ==> Tracked(Step(OnTrack(p, k, stalls), GiveUp, buflen), p, k, stalls))
  {
    hide Value, TrueLength, Raw;
    RawLength(p);
  }

  lemma DigitOfRaw(p: Result, k: nat, bytes: seq<octet>)
    requires p.Received? && 1 <= k < 1 + |p.digits| && |bytes| == 1 && k <= |Raw(p)| && bytes <= Raw(p)[k..]
    ensures bytes[0] == p.digits[k - 1] && p.digits[..k - 1] + bytes == p.digits[..k]
  {
    assert Raw(p)[k..][0] == p.digits[k - 1];
    assert p.digits[..k - 1] + bytes == p.digits[..k];
  }

  lemma TrackDigit(p: Result, k: nat, stalls: nat, bytes: seq<octet>, buflen: nat)
    requires Framed(p, buflen) && 1 <= k < 1 + |p.digits| && k - 1 + stalls < 4
    requires |bytes| == 1 && bytes[0] == p.digits[k - 1] && p.digits[..k - 1] + bytes == p.digits[..k]
    ensures GoodProgress(OnTrack(p, k, stalls).progress, buflen)
    ensures Possible(OnTrack(p, k, stalls).progress, Bytes(bytes))
    ensures Step(OnTrack(p, k, stalls), Bytes(bytes), buflen) == OnTrack(p, k + 1, stalls)
  {
    hide Value, TrueLength, Raw;
    RawLength(p);
    DigitContinues(p.digits, p.digits, k - 1);
    if k == |p.digits| {
      assert p.digits[..k] == p.digits && p.body[..0] == [];
    }
  }

  lemma AttemptsLeft(p: Result, k: nat, stalls: nat)
    requires p.Received? && 1 <= k < 1 + |p.digits| && k <= |Raw(p)| && Tracked(OnTrack(p, k, stalls), p, k, stalls)
    ensures k - 1 + stalls <= 4
  {
    hide OnTrack, Raw;
  }

  lemma NothingHeld(e: Event, k: nat, n: nat)
    requires e.Bytes?
    ensures Added(e) == e.bytes && Held(e, k, n) == 0
  {
  }

  lemma TrackHold(p: Result, e: Event, k: nat, stalls: nat, buflen: nat)
    requires Framed(p, buflen) && (e.Stall? || e.GiveUp?) && 1 <= k < 1 + |p.digits| && k <= |Raw(p)|
             && k - 1 + stalls <= 4
    requires GoodProgress(OnTrack(p, k, stalls).progress, buflen) && Possible(OnTrack(p, k, stalls).progress, e)
    ensures Tracked(Step(OnTrack(p, k, stalls), e, buflen), p, k + |Added(e)|, stalls + Held(e, k, 1 + |p.digits|))
  {
    TrackStall(p, k, stalls, buflen);
    hide Step, Raw, OnTrack, Possible, GoodProgress, Framed, Tracked;
  }

  lemma TrackBytes(p: Result, k: nat, stalls: nat, bytes: seq<octet>, buflen: nat)
    requires Framed(p, buflen) && 1 <= k < 1 + |p.digits| && k <= |Raw(p)| && k - 1 + stalls <= 4
    requires GoodProgress(OnTrack(p, k, stalls).progress, buflen)
    requires Possible(OnTrack(p, k, stalls).progress, Bytes(bytes)) && bytes <= Raw(p)[k..]
    ensures Tracked(Step(OnTrack(p, k, stalls), Bytes(bytes), buflen), p, k + |bytes|, stalls)
  {
    RawLength(p);
    hide Raw, Value, TrueLength;
    DigitOfRaw(p, k, bytes);
    TrackDigit(p, k, stalls, bytes, buflen);
    hide Step, GoodProgress;
  }

  lemma TrackBody(r: Reading, p: Result, e: Event, k: nat, stalls: nat, buflen: nat)
    requires Framed(p, buflen) && !e.Err? && 1 + |p.digits| <= k < |Raw(p)|
    requires r == OnTrack(p, k, stalls) && Tracked(r, p, k, stalls)
    requires GoodProgress(r.progress, buflen) && Possible(r.progress, e)
    requires Added(e) <= Raw(p)[k..]
    ensures Tracked(Step(r, e, buflen), p, k + |Added(e)|, stalls + Held(e, k, 1 + |p.digits|))
  {
    if e.Bytes? {
      TrackPiece(p, k, stalls, e.bytes, buflen);
    }
    hide Raw, Framed, GoodProgress;
  }

  lemma TrackPiece(p: Result, k: nat, stalls: nat, bytes: seq<octet>, buflen: nat)
    requires Framed(p, buflen) && 1 + |p.digits| <= k < |Raw(p)| && |p.digits| + stalls <= 4
    requires GoodProgress(OnTrack(p, k, stalls).progress, buflen)
    requires Possible(OnTrack(p, k, stalls).progress, Bytes(bytes)) && bytes <= Raw(p)[k..]
    ensures Tracked(Step(OnTrack(p, k, stalls), Bytes(bytes), buflen), p, k + |bytes|, stalls)
  {
    RawLength(p);
    BodyOfRaw(p, k, bytes);
    hide Raw, Value, TrueLength, FieldOfDigits;
  }

  lemma BodyOfRaw(p: Result, k: nat, bytes: seq<octet>)
    requires p.Received? && 1 + |p.digits| <= k <= |Raw(p)| && bytes <= Raw(p)[k..]
    ensures var m := k - 1 - |p.digits|; m + |bytes| <= |p.body| && p.body[..m] + bytes == p.body[..m + |bytes|]
    ensures p.body[..|p.body|] == p.body
  {
    NextPiece([p.header] + p.digits, p.body, k - 1 - |p.digits|, bytes);
  }

  lemma NextPiece(a: seq<octet>, b: seq<octet>, m: nat, bytes: seq<octet>)
    requires m <= |b| && bytes <= (a + b)[|a| + m..]
    ensures m + |bytes| <= |b| && b[..m] + bytes == b[..m + |bytes|]
  {
    assert (a + b)[|a| + m..] == b[m..];
    assert bytes == b[m..][..|bytes|] == b[m..m + |bytes|];
  }

  /** After a failure the first result stays a failure. */
  lemma StaysFailed(r: Reading, e: Event, buflen: nat)
    requires GoodProgress(r.progress, buflen) && Possible(r.progress, e) && r.results != [] && r.results[0].Failed?
    ensures Step(r, e, buflen).results != [] && Step(r, e, buflen).results[0].Failed?
  {
  }

  predicate NoErrors(events: seq<Event>) {
    Err !in events
  }

  lemma LastEvent(events: seq<Event>, e: Event, buflen: nat)
    requires Run(events + [e], buflen).Some?
    ensures Run(events, buflen).Some? && GoodProgress(Run(events, buflen).value.progress, buflen)
    ensures Possible(Run(events, buflen).value.progress, e)
    ensures Run(events + [e], buflen).value == Step(Run(events, buflen).value, e, buflen)
    ensures Brought(events + [e]) == Brought(events) + Added(e)
    ensures NoErrors(events + [e]) ==> NoErrors(events) && !e.Err?
  {
    hide Step, Possible, GoodProgress;
    assert (events + [e])[..|events|] == events && (events + [e])[|events|] == e;
  }

  lemma LastStall(events: seq<Event>, e: Event, start: nat, n: nat)
    ensures LengthStalls(events + [e], start, n) ==
            LengthStalls(events, start, n) + Held(e, |Brought(events)| - start, n)
  {
    assert (events + [e])[..|events|] == events && (events + [e])[|events|] == e;
  }

  lemma TrackFailed(r: Reading, p: Result, k: nat, stalls: nat, k': nat, more: nat)
    requires p.Received? && r.results != [] && r.results[0].Failed? && |p.digits| + stalls > 4
    ensures Tracked(r, p, k', stalls + more)
  {
  }

  /** One event in the reading of `p`: the readings, the bytes and the stalls before and after it. */
  ghost predicate OneStep(before: Reading, e: Event, after: Reading, p: Result, k: nat, stalls: nat, k': nat,
                          stalls': nat, buflen: nat) {
    && Framed(p, buflen) && GoodProgress(before.progress, buflen) && Possible(before.progress, e) && !e.Err?
    && k < |Raw(p)| && Tracked(before, p, k, stalls) && Added(e) <= Raw(p)[k..]
    && after == Step(before, e, buflen) && k' == k + |Added(e)| && stalls' == stalls + Held(e, k, 1 + |p.digits|)
  }

  lemma TrackLength(before: Reading, e: Event, after: Reading, p: Result, k: nat, stalls: nat, k': nat, stalls': nat,
                    buflen: nat)
    requires OneStep(before, e, after, p, k, stalls, k', stalls', buflen) && p.Received?
    requires before == OnTrack(p, k, stalls) && 1 <= k < 1 + |p.digits|
    ensures Tracked(after, p, k', stalls')
  {
    hide Framed, GoodProgress, Possible, Raw, Tracked, Added, Step, Held, OnTrack;
    AttemptsLeft(p, k, stalls);
    if e.Bytes? {
      NothingHeld(e, k, 1 + |p.digits|);
      TrackBytes(p, k, stalls, e.bytes, buflen);
    } else {
      TrackHold(p, e, k, stalls, buflen);
    }
  }

  lemma TrackEnds(before: Reading, e: Event, after: Reading, p: Result, k: nat, stalls: nat, k': nat, stalls': nat,
                  buflen: nat)
    requires OneStep(before, e, after, p, k, stalls, k', stalls', buflen) && p.Received?
    requires before == OnTrack(p, k, stalls) && (k == 0 || k >= 1 + |p.digits|)
    ensures Tracked(after, p, k', stalls')
  {
    hide Framed, GoodProgress, Possible, Raw, Tracked, Added, Step, Held, OnTrack;
    if k == 0 {
      TrackHeader(p, e, stalls, buflen);
    } else {
      TrackBody(before, p, e, k, stalls, buflen);
    }
  }

  lemma TrackFailure(before: Reading, e: Event, after: Reading, p: Result, k: nat, stalls: nat, k': nat, stalls': nat,
                     buflen: nat)
    requires OneStep(before, e, after, p, k, stalls, k', stalls', buflen) && p.Received?
    requires k <= |Raw(p)| && before != OnTrack(p, k, stalls)
    ensures Tracked(after, p, k', stalls')
  {
    hide Framed, GoodProgress, Possible, Raw, Added, Step, Held, OnTrack;
    StaysFailed(before, e, buflen);
    TrackFailed(after, p, k, stalls, k', stalls' - stalls);
  }

  lemma TrackStep(before: Reading, e: Event, after: Reading, p: Result, k: nat, stalls: nat, k': nat, stalls': nat,
                  buflen: nat)
    requires OneStep(before, e, after, p, k, stalls, k', stalls', buflen) && p.Received?
    ensures Tracked(after, p, k', stalls')
  {
    assert k <= |Raw(p)|;
    hide *;
    if before != OnTrack(p, k, stalls) {
      TrackFailure(before, e, after, p, k, stalls, k', stalls', buflen);
    } else if 1 <= k < 1 + |p.digits| {
      TrackLength(before, e, after, p, k, stalls, k', stalls', buflen);
    } else {
      TrackEnds(before, e, after, p, k, stalls, k', stalls', buflen);
    }
  }

  /** A history that has brought a part of `p`. */
  predicate HistoryOf(events: seq<Event>, p: Result, buflen: nat) {
    Framed(p, buflen) && Run(events, buflen).Some? && NoErrors(events) && Brought(events) < Raw(p)
  }

  lemma ShorterHistory(front: seq<Event>, e: Event, p: Result, buflen: nat)
    requires HistoryOf(front + [e], p, buflen)
    ensures HistoryOf(front, p, buflen) && !e.Err? && Added(e) <= Raw(p)[|Brought(front)|..]
    ensures |Brought(front + [e])| == |Brought(front)| + |Added(e)|
  {
    LastEvent(front, e, buflen);
    LaterBytes(Brought(front), Added(e), Raw(p));
    hide Framed, Run, Brought, Raw, NoErrors;
  }

  ghost predicate TrackedAfter(events: seq<Event>, p: Result, buflen: nat)
    requires p.Received? && Run(events, buflen).Some?
  {
    Tracked(Run(events, buflen).value, p, |Brought(events)|, LengthStalls(events, 0, 1 + |p.digits|))
  }

  lemma TrackLast(front: seq<Event>, e: Event, p: Result, buflen: nat)
    requires Framed(p, buflen) && Run(front, buflen).Some? && Run(front + [e], buflen).Some? && !e.Err?
    requires |Brought(front)| < |Raw(p)| && Added(e) <= Raw(p)[|Brought(front)|..]
    requires |Brought(front + [e])| == |Brought(front)| + |Added(e)|
    requires TrackedAfter(front, p, buflen)
    ensures TrackedAfter(front + [e], p, buflen)
  {
    FramedReceived(p, buflen);
    LastEvent(front, e, buflen);
    LastStall(front, e, 0, 1 + |p.digits|);
    hide Framed, Run, Brought, Raw, NoErrors, Tracked, Step, LengthStalls, Possible, GoodProgress, Added, Held;
    TrackStep(Run(front, buflen).value, e, Run(front + [e], buflen).value, p, |Brought(front)|,
              LengthStalls(front, 0, 1 + |p.digits|), |Brought(front + [e])|,
              LengthStalls(front + [e], 0, 1 + |p.digits|), buflen);
  }

  /** A packet so far: on track, or failed because of the stalls. */
  lemma {:induction false} TrackPacket(events: seq<Event>, p: Result, buflen: nat)
    requires HistoryOf(events, p, buflen)
    ensures TrackedAfter(events, p, buflen)
  {
    if events != [] {
      var (front, e) := (events[..|events| - 1], events[|events| - 1]);
      assert events == front + [e];
      ShorterHistory(front, e, p, buflen);
      TrackPacket(front, p, buflen);
      hide Framed, Run, Brought, Raw, NoErrors, TrackedAfter;
      TrackLast(front, e, p, buflen);
    }
  }

  lemma FramedReceived(p: Result, buflen: nat)
    requires Framed(p, buflen)
    ensures p.Received?
  {
  }

  lemma LaterBytes(a: seq<octet>, b: seq<octet>, s: seq<octet>)
    requires a + b <= s
    ensures a <= s && b <= s[|a|..]
  {
    assert (a + b)[..|a|] == a && (a + b)[|a|..] == b;
  }

  lemma Finished(r: Reading, p: Result, stalls: nat, buflen: nat)
    requires Framed(p, buflen) && Tracked(r, p, |Raw(p)|, stalls)
    ensures r == Reading(AwaitHeader, [p]) <==> |p.digits| + stalls <= 4
    ensures |p.digits| + stalls > 4 ==> r.results != [] && r.results[0].Failed?
  {
  }

  // ---------- packet after packet ----------

  lemma StepAfter(done: seq<Result>, r: Reading, e: Event, buflen: nat)
    requires GoodProgress(r.progress, buflen) && Possible(r.progress, e)
    ensures var t := Step(r, e, buflen);
            Step(Reading(r.progress, done + r.results), e, buflen) == Reading(t.progress, done + t.results)
  {
    hide Value, TrueLength, Partial;
    var t := Step(r, e, buflen);
    if t.results != r.results {
      assert done + (r.results + [t.results[|r.results|]]) == done + r.results + [t.results[|r.results|]];
    }
  }

  /** After the end of a packet or a failure the reader goes on like a new one. */
  lemma {:induction false} FreshRun(a: seq<Event>, b: seq<Event>, buflen: nat)
    requires Run(a, buflen).Some? && Run(a, buflen).value.progress == AwaitHeader
    ensures var (done, rest) := (Run(a, buflen).value.results, Run(b, buflen));
            Run(a + b, buflen) ==
              if rest.None? then None else Some(Reading(rest.value.progress, done + rest.value.results))
    decreases |b|
  {
    var done := Run(a, buflen).value.results;
    if b == [] {
      assert a + b == a && done + [] == done;
    } else {
      var (front, e) := (b[..|b| - 1], b[|b| - 1]);
      assert b == front + [e] && (a + b)[..|a + b| - 1] == a + front && (a + b)[|a + b| - 1] == e;
      FreshRun(a, front, buflen);
      hide Step, Possible;
      if Run(front, buflen).Some? && Possible(Run(front, buflen).value.progress, e) {
        StepAfter(done, Run(front, buflen).value, e, buflen);
      }
    }
  }

  lemma {:induction false} BroughtInParts(a: seq<Event>, b: seq<Event>)
    ensures Brought(a + b) == Brought(a) + Brought(b)
    decreases |b|
  {
    if b == [] {
      assert a + b == a;
    } else {
      var (front, e) := (b[..|b| - 1], b[|b| - 1]);
      assert b == front + [e] && a + b == a + front + [e];
      BroughtInParts(a, front);
      BroughtJoins(a + front, e);
      BroughtJoins(front, e);
      hide Brought;
    }
  }

  /** Nothing is held in a field that starts later. */
  lemma {:induction false} NoStallsBefore(events: seq<Event>, start: nat, n: nat)
    requires |Brought(events)| <= start
    ensures LengthStalls(events, start, n) == 0
  {
    if events != [] {
      NoStallsBefore(events[..|events| - 1], start, n);
    }
  }

  /** The stalls of a later packet are those of the later events. */
  lemma {:induction false} LaterStalls(a: seq<Event>, b: seq<Event>, start: nat, n: nat)
    ensures LengthStalls(a + b, |Brought(a)| + start, n) == LengthStalls(b, start, n)
    decreases |b|
  {
    if b == [] {
      assert a + b == a;
      NoStallsBefore(a, |Brought(a)| + start, n);
    } else {
      var (front, e) := (b[..|b| - 1], b[|b| - 1]);
      assert b == front + [e] && a + b == a + front + [e];
      LaterStalls(a, front, start, n);
      BroughtInParts(a, front);
      LastStall(a + front, e, |Brought(a)| + start, n);
      LastStall(front, e, start, n);
      hide LengthStalls, Brought;
    }
  }

  /** An event on track stays within the packet. */
  lemma EventFits(p: Result, k: nat, stalls: nat, e: Event, buflen: nat)
    requires Framed(p, buflen) && k < |Raw(p)| && Tracked(OnTrack(p, k, stalls), p, k, stalls)
    requires GoodProgress(OnTrack(p, k, stalls).progress, buflen) && Possible(OnTrack(p, k, stalls).progress, e)
    ensures k + |Added(e)| <= |Raw(p)|
  {
    RawLength(p);
    hide Raw, Value, TrueLength, FieldOfDigits;
  }

  /** The length field of `p`, which starts after `start` bytes, is read within four attempts. */
  predicate Budget(events: seq<Event>, p: Result, start: nat)
    requires p.Received?
  {
    |p.digits| + LengthStalls(events, start, 1 + |p.digits|) <= 4
  }

  ghost predicate FirstFails(events: seq<Event>, buflen: nat)
    requires Run(events, buflen).Some?
  {
    Run(events, buflen).value.results != [] && Run(events, buflen).value.results[0].Failed?
  }

  /** The events after which the first packet has been read. */
  ghost predicate Splits(n: nat, events: seq<Event>, p: Result, buflen: nat) {
    && n <= |events| && Run(events[..n], buflen) == Some(Reading(AwaitHeader, [p])) && Brought(events[..n]) == Raw(p)
  }

  /** A reading that is on track goes on to the end of the packet, or fails. */
  lemma EndsOnTrack(front: seq<Event>, e: Event, p: Result, stream: seq<octet>, buflen: nat)
    requires HistoryOf(front, p, buflen) && Run(front + [e], buflen).Some? && !e.Err?
    requires Raw(p) <= stream && Brought(front + [e]) <= stream && |Brought(front + [e])| >= |Raw(p)|
    requires Run(front, buflen).value == OnTrack(p, |Brought(front)|, LengthStalls(front, 0, 1 + |p.digits|))
    requires TrackedAfter(front, p, buflen)
    ensures Brought(front + [e]) == Raw(p) && TrackedAfter(front + [e], p, buflen)
  {
    LastEvent(front, e, buflen);
    var (k, stalls) := (|Brought(front)|, LengthStalls(front, 0, 1 + |p.digits|));
    hide Run, Brought, Raw, LengthStalls, Step, Possible, GoodProgress, OnTrack, Framed, Tracked;
    EventFits(p, k, stalls, e, buflen);
    EndOfBytes(Brought(front), Added(e), Raw(p), stream);
    hide TrackedAfter, Added;
    TrackLast(front, e, p, buflen);
  }

  lemma EndOfBytes(a: seq<octet>, b: seq<octet>, raw: seq<octet>, stream: seq<octet>)
    requires a < raw && raw <= stream && a + b <= stream && |a| + |b| == |raw|
    ensures a + b == raw && b <= raw[|a|..]
  {
    assert a + b == stream[..|raw|] == raw;
    assert (a + b)[|a|..] == b;
  }

  lemma FailsOn(front: seq<Event>, e: Event, buflen: nat)
    requires Run(front, buflen).Some? && Run(front + [e], buflen).Some? && FirstFails(front, buflen)
    ensures FirstFails(front + [e], buflen)
  {
    LastEvent(front, e, buflen);
    StaysFailed(Run(front, buflen).value, e, buflen);
    hide Run, Step, Possible, GoodProgress;
  }

  lemma EndsIn(front: seq<Event>, e: Event, p: Result, buflen: nat)
    requires Framed(p, buflen) && p.Received? && Run(front + [e], buflen).Some? && Brought(front + [e]) == Raw(p)
    requires TrackedAfter(front + [e], p, buflen)
    ensures if Budget(front + [e], p, 0) then Splits(|front| + 1, front + [e], p, buflen)
            else FirstFails(front + [e], buflen)
  {
    hide Run, Brought, Raw, LengthStalls, Framed, Tracked;
    assert (front + [e])[..|front| + 1] == front + [e];
    Finished(Run(front + [e], buflen).value, p, LengthStalls(front + [e], 0, 1 + |p.digits|), buflen);
  }

  lemma StaysOut(front: seq<Event>, e: Event, p: Result, buflen: nat)
    requires p.Received? && Run(front, buflen).Some? && Run(front + [e], buflen).Some? && TrackedAfter(front, p, buflen)
    requires |Brought(front)| <= |Raw(p)|
    requires Run(front, buflen).value != OnTrack(p, |Brought(front)|, LengthStalls(front, 0, 1 + |p.digits|))
    ensures !Budget(front + [e], p, 0) && FirstFails(front + [e], buflen)
  {
    hide Run, Brought, Raw, LengthStalls, OnTrack;
    LastStall(front, e, 0, 1 + |p.digits|);
    FailsOn(front, e, buflen);
  }

  /** One event after a part of `p`, which completes it. */
  lemma FirstPacketEnds(front: seq<Event>, e: Event, p: Result, stream: seq<octet>, buflen: nat)
    requires HistoryOf(front, p, buflen) && Run(front + [e], buflen).Some? && !e.Err?
    requires Raw(p) <= stream && Brought(front + [e]) <= stream && |Brought(front + [e])| >= |Raw(p)|
    ensures p.Received?
    ensures if Budget(front + [e], p, 0) then Splits(|front| + 1, front + [e], p, buflen)
            else FirstFails(front + [e], buflen)
  {
    FramedReceived(p, buflen);
    TrackPacket(front, p, buflen);
    hide Run, Brought, Raw, LengthStalls, OnTrack, Framed, TrackedAfter, NoErrors;
    if Run(front, buflen).value == OnTrack(p, |Brought(front)|, LengthStalls(front, 0, 1 + |p.digits|)) {
      EndsOnTrack(front, e, p, stream, buflen);
      EndsIn(front, e, p, buflen);
    } else {
      StaysOut(front, e, p, buflen);
    }
  }

  /** Later events do not change what became of it. */
  lemma FirstPacketStays(front: seq<Event>, e: Event, p: Result, n: nat, buflen: nat)
    requires p.Received? && Run(front, buflen).Some? && Run(front + [e], buflen).Some? && |Brought(front)| >= |Raw(p)|
    requires if Budget(front, p, 0) then Splits(n, front, p, buflen) else FirstFails(front, buflen)
    ensures if Budget(front + [e], p, 0) then Splits(n, front + [e], p, buflen) else FirstFails(front + [e], buflen)
  {
    hide Run, Brought, Raw, LengthStalls, FirstFails;
    RawLength(p);
    LastStall(front, e, 0, 1 + |p.digits|);
    if Budget(front, p, 0) {
      assert (front + [e])[..n] == front[..n];
    } else {
      FailsOn(front, e, buflen);
    }
  }

  lemma NothingMissing(front: seq<Event>, e: Event, stream: seq<octet>, buflen: nat)
    requires Run(front + [e], buflen).Some? && NoErrors(front + [e]) && Brought(front + [e]) <= stream
    ensures Run(front, buflen).Some? && NoErrors(front) && !e.Err? && Brought(front) <= stream
  {
    LastEvent(front, e, buflen);
    LaterBytes(Brought(front), Added(e), stream);
    hide Run, Brought, NoErrors, Added;
  }

  /** The first packet of a stream of which the events have brought all its bytes. */
  lemma {:induction false} FirstPacket(events: seq<Event>, p: Result, stream: seq<octet>, buflen: nat) returns (n: nat)
    requires Framed(p, buflen) && Run(events, buflen).Some? && NoErrors(events)
    requires Raw(p) <= stream && Brought(events) <= stream && |Brought(events)| >= |Raw(p)|
    ensures if Budget(events, p, 0) then Splits(n, events, p, buflen) else FirstFails(events, buflen)
  {
    RawNotEmpty(p, buflen);
    FramedReceived(p, buflen);
    var (front, e) := (events[..|events| - 1], events[|events| - 1]);
    assert events == front + [e];
    NothingMissing(front, e, stream, buflen);
    hide Run, Brought, Raw, Framed, NoErrors, Budget, Splits, FirstFails;
    if |Brought(front)| < |Raw(p)| {
      n := |front| + 1;
      FirstPacketEnds(front, e, p, stream, buflen);
    } else {
      n := FirstPacket(front, p, stream, buflen);
      FirstPacketStays(front, e, p, n, buflen);
    }
  }

  /** Where packet `i` starts in the stream. */
  function Offset(packets: seq<Result>, i: nat): nat
    requires i <= |packets|
  {
    |AllRaw(packets[..i])|
  }

  predicate AllFramed(packets: seq<Result>, buflen: nat) {
    forall i :: 0 <= i < |packets| ==> Framed(packets[i], buflen)
  }

  /** Packet `i` is read within four attempts at its length field. */
  predicate InBudget(events: seq<Event>, packets: seq<Result>, i: nat)
    requires i < |packets| && packets[i].Received?
  {
    Budget(events, packets[i], Offset(packets, i))
  }

  /** So are the first `m` packets. */
  predicate FirstInBudget(events: seq<Event>, packets: seq<Result>, m: nat, buflen: nat)
    requires m <= |packets| && AllFramed(packets, buflen)
  {
    forall i :: 0 <= i < m ==> InBudget(events, packets, i)
  }

  lemma {:induction false} NothingBrought(events: seq<Event>, buflen: nat)
    requires Run(events, buflen).Some? && NoErrors(events) && Brought(events) == []
    ensures Run(events, buflen).value == Reading(AwaitHeader, [])
  {
    if events != [] {
      var (front, e) := (events[..|events| - 1], events[|events| - 1]);
      assert events == front + [e];
      LastEvent(front, e, buflen);
      NothingBrought(front, buflen);
    }
  }

  /** The packets after the first one start later by its bytes. */
  lemma OffsetOfRest(packets: seq<Result>, i: nat)
    requires i < |packets|
    ensures Offset(packets, i + 1) == |Raw(packets[0])| + Offset(packets[1..], i)
  {
    AllRawFirst(packets[..i + 1]);
    assert packets[..i + 1][1..] == packets[1..][..i];
  }

  /** Their stalls are those of the events after it. */
  lemma BudgetOfRest(a: seq<Event>, b: seq<Event>, packets: seq<Result>, i: nat)
    requires i + 1 < |packets| && packets[i + 1].Received? && |Brought(a)| == |Raw(packets[0])|
    ensures InBudget(a + b, packets, i + 1) <==> InBudget(b, packets[1..], i)
  {
    hide Raw, Brought, LengthStalls, Offset;
    OffsetOfRest(packets, i);
    LaterStalls(a, b, Offset(packets[1..], i), 1 + |packets[i + 1].digits|);
  }

  /** A history, without errors, of the stream of these packets or of its beginning. */
  predicate History(events: seq<Event>, packets: seq<Result>, buflen: nat) {
    && AllFramed(packets, buflen) && Run(events, buflen).Some? && NoErrors(events) && Brought(events) <= AllRaw(packets)
  }

  /** The bytes of the first `m` packets have come. */
  predicate Came(events: seq<Event>, packets: seq<Result>, m: nat) {
    m <= |packets| && Offset(packets, m) <= |Brought(events)|
  }

  lemma FirstFramed(packets: seq<Result>, buflen: nat)
    requires AllFramed(packets, buflen) && packets != []
    ensures Framed(packets[0], buflen) && packets[0].Received? && AllFramed(packets[1..], buflen)
  {
    FramedReceived(packets[0], buflen);
    hide Framed;
  }

  lemma StartOfStream(packets: seq<Result>)
    ensures Offset(packets, 0) == 0
  {
    assert packets[..0] == [];
  }

  lemma FirstCame(events: seq<Event>, packets: seq<Result>, m: nat)
    requires Came(events, packets, m) && m > 0
    ensures |Brought(events)| >= |Raw(packets[0])| && AllRaw(packets) == Raw(packets[0]) + AllRaw(packets[1..])
  {
    AllRawFirst(packets);
    OffsetOfRest(packets, m - 1);
    hide Raw, Brought, Offset;
  }

  /** The history, up to the end of the first packet and after it. */
  ghost predicate Parts(events: seq<Event>, a: seq<Event>, b: seq<Event>, packets: seq<Result>, buflen: nat)
    requires packets != []
  {
    && events == a + b && History(events, packets, buflen) && History(b, packets[1..], buflen)
    && Brought(events) == Brought(a) + Brought(b) && |Brought(a)| == |Raw(packets[0])|
    && Run(events, buflen).value ==
         Reading(Run(b, buflen).value.progress, [packets[0]] + Run(b, buflen).value.results)
  }

  lemma RestOfEvents(a: seq<Event>, b: seq<Event>)
    requires NoErrors(a + b)
    ensures NoErrors(b)
  {
  }

  lemma RestOfBytes(x: seq<octet>, y: seq<octet>, first: seq<octet>, rest: seq<octet>)
    requires x == first && x + y <= first + rest
    ensures y <= rest
  {
    assert (x + y)[|x|..] == y && (first + rest)[|x|..] == rest;
  }

  /** What comes after the first packet. */
  lemma SplitResults(a: seq<Event>, b: seq<Event>, p: Result, buflen: nat)
    requires Run(a, buflen) == Some(Reading(AwaitHeader, [p])) && Run(a + b, buflen).Some?
    ensures Run(b, buflen).Some?
    ensures Run(a + b, buflen).value == Reading(Run(b, buflen).value.progress, [p] + Run(b, buflen).value.results)
  {
    FreshRun(a, b, buflen);
    hide Run;
  }

  lemma SplitBytes(a: seq<Event>, b: seq<Event>, first: seq<octet>, rest: seq<octet>)
    requires NoErrors(a + b) && Brought(a) == first && Brought(a + b) <= first + rest
    ensures NoErrors(b) && Brought(b) <= rest && Brought(a + b) == Brought(a) + Brought(b)
  {
    BroughtInParts(a, b);
    RestOfEvents(a, b);
    hide Brought, NoErrors;
    RestOfBytes(Brought(a), Brought(b), first, rest);
  }

  lemma SplitParts(events: seq<Event>, n: nat, packets: seq<Result>, buflen: nat) returns (a: seq<Event>, b: seq<Event>)
    requires packets != [] && History(events, packets, buflen) && Splits(n, events, packets[0], buflen)
    requires AllRaw(packets) == Raw(packets[0]) + AllRaw(packets[1..])
    ensures Parts(events, a, b, packets, buflen)
  {
    hide Run, Brought, Raw, AllRaw, NoErrors, AllFramed;
    a, b := events[..n], events[n..];
    assert events == a + b;
    FirstFramed(packets, buflen);
    SplitResults(a, b, packets[0], buflen);
    SplitBytes(a, b, Raw(packets[0]), AllRaw(packets[1..]));
  }

  /** The first packet of a stream whose bytes have come: it is reported, or it is the first failure. */
  lemma FirstOfStream(events: seq<Event>, packets: seq<Result>, m: nat, buflen: nat)
    returns (a: seq<Event>, b: seq<Event>)
    requires History(events, packets, buflen) && Came(events, packets, m) && m > 0
    ensures packets[0].Received?
    ensures if InBudget(events, packets, 0) then Parts(events, a, b, packets, buflen) else FirstFails(events, buflen)
  {
    FirstFramed(packets, buflen);
    FirstCame(events, packets, m);
    StartOfStream(packets);
    a, b := [], [];
    hide Run, Raw, AllRaw, NoErrors, Framed, Brought, Offset, AllFramed, Parts, Splits, FirstFails, Budget;
    var n := FirstPacket(events, packets[0], AllRaw(packets), buflen);
    if InBudget(events, packets, 0) {
      a, b := SplitParts(events, n, packets, buflen);
    }
  }

  lemma NextInBudget(events: seq<Event>, a: seq<Event>, b: seq<Event>, packets: seq<Result>, i: nat, buflen: nat)
    requires packets != [] && Parts(events, a, b, packets, buflen) && i + 1 < |packets|
    ensures packets[i + 1].Received? && (InBudget(events, packets, i + 1) <==> InBudget(b, packets[1..], i))
  {
    FramedReceived(packets[i + 1], buflen);
    hide Run, Brought, Raw, AllRaw, NoErrors, Offset, InBudget, Framed, AllFramed;
    BudgetOfRest(a, b, packets, i);
  }

  /** The stall budget of the packets after the first one is that of the events after it. */
  lemma RestInBudget(events: seq<Event>, a: seq<Event>, b: seq<Event>, packets: seq<Result>, m: nat, buflen: nat)
    requires packets != [] && Parts(events, a, b, packets, buflen) && Came(events, packets, m + 1)
    requires FirstInBudget(events, packets, m, buflen)
    ensures Came(b, packets[1..], m) && (m > 0 ==> FirstInBudget(b, packets[1..], m - 1, buflen))
    ensures FirstInBudget(events, packets, m + 1, buflen) ==> FirstInBudget(b, packets[1..], m, buflen)
  {
    forall i | 0 <= i < m
      ensures packets[i + 1].Received? && (InBudget(events, packets, i + 1) <==> InBudget(b, packets[1..], i))
    {
      hide *;
      NextInBudget(events, a, b, packets, i, buflen);
    }
    OffsetOfRest(packets, m);
    hide Framed, Run, Brought, Raw, AllRaw, NoErrors, Offset, InBudget;
  }

  lemma FirstIsIn(events: seq<Event>, packets: seq<Result>, m: nat, buflen: nat)
    requires AllFramed(packets, buflen) && 0 < m <= |packets| && FirstInBudget(events, packets, m, buflen)
    ensures packets[0].Received? && InBudget(events, packets, 0)
  {
    hide Framed, InBudget;
    FramedReceived(packets[0], buflen);
  }

  /** The first `m` packets have been reported, and if these are all of them, nothing else. */
  ghost predicate InOrder(r: Reading, packets: seq<Result>, m: nat) {
    m <= |packets| && packets[..m] <= r.results && (m == |packets| ==> r == Reading(AwaitHeader, packets))
  }

  ghost predicate FailsAt(r: Reading, packets: seq<Result>, m: nat) {
    m < |packets| && m < |r.results| && r.results[..m] == packets[..m] && r.results[m].Failed?
  }

  lemma FirstThenRest(r: Reading, all: Reading, packets: seq<Result>, m: nat)
    requires packets != [] && all == Reading(r.progress, [packets[0]] + r.results)
    ensures InOrder(r, packets[1..], m) ==> InOrder(all, packets, m + 1)
    ensures FailsAt(r, packets[1..], m) ==> FailsAt(all, packets, m + 1)
  {
    if m < |packets| {
      assert packets[..m + 1] == [packets[0]] + packets[1..][..m];
      assert m <= |r.results| ==> all.results[..m + 1] == [packets[0]] + r.results[..m];
    }
    assert packets == [packets[0]] + packets[1..];
  }

  lemma PartsResults(events: seq<Event>, a: seq<Event>, b: seq<Event>, packets: seq<Result>, m: nat, buflen: nat)
    requires packets != [] && Parts(events, a, b, packets, buflen)
    ensures Run(events, buflen).Some? && Run(b, buflen).Some? && History(b, packets[1..], buflen)
    ensures InOrder(Run(b, buflen).value, packets[1..], m) ==> InOrder(Run(events, buflen).value, packets, m + 1)
    ensures FailsAt(Run(b, buflen).value, packets[1..], m) ==> FailsAt(Run(events, buflen).value, packets, m + 1)
  {
    hide Run, Brought, Raw, AllRaw, NoErrors, AllFramed, InOrder, FailsAt;
    FirstThenRest(Run(b, buflen).value, Run(events, buflen).value, packets, m);
  }

  lemma InOrderStarts(events: seq<Event>, packets: seq<Result>, buflen: nat)
    requires History(events, packets, buflen)
    ensures InOrder(Run(events, buflen).value, packets, 0)
  {
    if packets == [] {
      NothingBrought(events, buflen);
    }
    hide Run, Brought, NoErrors;
  }

  /** One packet of the stream. */
  lemma Onward(events: seq<Event>, packets: seq<Result>, m: nat, buflen: nat) returns (b: seq<Event>)
    requires History(events, packets, buflen) && Came(events, packets, m + 1)
    requires FirstInBudget(events, packets, m + 1, buflen)
    ensures m < |packets|
    ensures History(b, packets[1..], buflen) && Came(b, packets[1..], m) && FirstInBudget(b, packets[1..], m, buflen)
    ensures InOrder(Run(b, buflen).value, packets[1..], m) ==> InOrder(Run(events, buflen).value, packets, m + 1)
  {
    FirstIsIn(events, packets, m + 1, buflen);
    hide *;
    var a;
    a, b := FirstOfStream(events, packets, m + 1, buflen);
    RestInBudget(events, a, b, packets, m, buflen);
    PartsResults(events, a, b, packets, m, buflen);
  }

  /**
   A stream of framed packets under every schedule of short reads and stalls without an error: as long as every
   packet has at most four stalls in its length field and bytes of that field, the packets come out in order.
   */
  lemma {:induction false} PacketsInOrder(events: seq<Event>, packets: seq<Result>, m: nat, buflen: nat)
    requires History(events, packets, buflen) && Came(events, packets, m) && FirstInBudget(events, packets, m, buflen)
    ensures InOrder(Run(events, buflen).value, packets, m)
    decreases m
  {
    hide *;
    if m == 0 {
      InOrderStarts(events, packets, buflen);
    } else {
      var b := Onward(events, packets, m - 1, buflen);
      PacketsInOrder(b, packets[1..], m - 1, buflen);
    }
  }

  lemma FailsAtOnce(events: seq<Event>, packets: seq<Result>, buflen: nat)
    requires History(events, packets, buflen) && Came(events, packets, 1)
    requires packets[0].Received? && !InBudget(events, packets, 0)
    ensures FailsAt(Run(events, buflen).value, packets, 0)
  {
    hide Run, Brought, Raw, AllRaw, NoErrors, AllFramed, Offset, InBudget, Parts;
    var _, _ := FirstOfStream(events, packets, 1, buflen);
    hide History;
    assert Run(events, buflen).value.results[..0] == packets[..0];
  }

  /** One packet before the one that fails. */
  lemma OnwardToFailure(events: seq<Event>, packets: seq<Result>, m: nat, buflen: nat) returns (b: seq<Event>)
    requires History(events, packets, buflen) && Came(events, packets, m + 2)
    requires FirstInBudget(events, packets, m + 1, buflen)
    requires packets[m + 1].Received? && !InBudget(events, packets, m + 1)
    ensures m + 1 < |packets|
    ensures History(b, packets[1..], buflen) && Came(b, packets[1..], m + 1)
            && FirstInBudget(b, packets[1..], m, buflen)
    ensures !InBudget(b, packets[1..], m)
    ensures FailsAt(Run(b, buflen).value, packets[1..], m) ==> FailsAt(Run(events, buflen).value, packets, m + 1)
  {
    FirstIsIn(events, packets, m + 1, buflen);
    hide *;
    var a;
    a, b := FirstOfStream(events, packets, m + 2, buflen);
    RestInBudget(events, a, b, packets, m + 1, buflen);
    NextInBudget(events, a, b, packets, m, buflen);
    PartsResults(events, a, b, packets, m, buflen);
  }

  /** The first packet of the stream that has more is the first one that fails. */
  lemma {:induction false} FirstFailure(events: seq<Event>, packets: seq<Result>, m: nat, buflen: nat)
    requires History(events, packets, buflen) && Came(events, packets, m + 1)
             && FirstInBudget(events, packets, m, buflen)
    requires packets[m].Received? && !InBudget(events, packets, m)
    ensures FailsAt(Run(events, buflen).value, packets, m)
    decreases m
  {
    hide *;
    if m == 0 {
      FailsAtOnce(events, packets, buflen);
    } else {
      var b := OnwardToFailure(events, packets, m - 1, buflen);
      FirstFailure(b, packets[1..], m - 1, buflen);
    }
  }

  /** The first of the packets whose field is not read within four attempts. */
  lemma FirstOver(events: seq<Event>, packets: seq<Result>, n: nat, buflen: nat) returns (m: nat)
    requires AllFramed(packets, buflen) && n <= |packets| && !FirstInBudget(events, packets, n, buflen)
    ensures m < n && packets[m].Received? && FirstInBudget(events, packets, m, buflen) && !InBudget(events, packets, m)
  {
    hide Framed, InBudget;
    m := n - 1;
    FramedReceived(packets[m], buflen);
    if !FirstInBudget(events, packets, m, buflen) {
      m := FirstOver(events, packets, m, buflen);
    }
  }

  lemma AllCame(events: seq<Event>, packets: seq<Result>, m: nat)
    requires Brought(events) == AllRaw(packets) && m <= |packets|
    ensures Came(events, packets, m)
    decreases |packets| - m
  {
    hide Raw, Brought;
    if m == |packets| {
      assert packets[..m] == packets;
    } else {
      AllCame(events, packets, m + 1);
      assert packets[..m + 1][..m] == packets[..m];
    }
  }

  lemma FirstFailureAt(events: seq<Event>, packets: seq<Result>, m: nat, buflen: nat)
    requires History(events, packets, buflen) && Brought(events) == AllRaw(packets) && m < |packets|
    requires FirstInBudget(events, packets, m, buflen) && packets[m].Received? && !InBudget(events, packets, m)
    ensures FailsAt(Run(events, buflen).value, packets, m)
  {
    hide *;
    AllCame(events, packets, m + 1);
    FirstFailure(events, packets, m, buflen);
  }

  lemma AllDelivered(events: seq<Event>, packets: seq<Result>, buflen: nat)
    requires History(events, packets, buflen) && Brought(events) == AllRaw(packets)
    requires FirstInBudget(events, packets, |packets|, buflen)
    ensures Run(events, buflen).value == Reading(AwaitHeader, packets)
  {
    AllCame(events, packets, |packets|);
    PacketsInOrder(events, packets, |packets|, buflen);
    hide Run, Brought, AllRaw, FirstInBudget, NoErrors, AllFramed;
  }

  lemma AllReceived(packets: seq<Result>, buflen: nat)
    requires AllFramed(packets, buflen)
    ensures forall i :: 0 <= i < |packets| ==> packets[i].Received?
  {
    hide FieldOfDigits, Value, TrueLength;
  }

  /**
   A whole stream of framed packets under every schedule of short reads and stalls without an error: it is
   delivered exactly if every packet has at most four stalls in its length field and bytes of that field.
   Otherwise the first packet that has more is the first failure.
   */
  lemma FramedDeliveredIff(events: seq<Event>, packets: seq<Result>, buflen: nat)
    requires History(events, packets, buflen) && Brought(events) == AllRaw(packets)
    ensures Run(events, buflen).value == Reading(AwaitHeader, packets) <==>
              forall i :: 0 <= i < |packets| ==> InBudget(events, packets, i)
    ensures forall m :: 0 <= m < |packets| && !InBudget(events, packets, m)
                        && (forall i :: 0 <= i < m ==> InBudget(events, packets, i)) ==>
              FailsAt(Run(events, buflen).value, packets, m)
  {
    hide Run, Brought, Raw, AllRaw, NoErrors, Framed, InBudget, AllFramed;
    AllReceived(packets, buflen);
    forall m | 0 <= m < |packets| && FirstInBudget(events, packets, m, buflen) && !InBudget(events, packets, m)
      ensures FailsAt(Run(events, buflen).value, packets, m)
    {
      hide *;
      FirstFailureAt(events, packets, m, buflen);
    }
    if FirstInBudget(events, packets, |packets|, buflen) {
      hide *;
      AllDelivered(events, packets, buflen);
    } else {
      var m := FirstOver(events, packets, |packets|, buflen);
    }
  }

  /** A packet that can be sent: its length field says how long its body is. */
  predicate Sent(p: Result) {
    p.Received? && FieldOfDigits(p.digits) && |p.body| == Value(p.digits)
  }

  predicate AllSent(packets: seq<Result>) {
    forall i :: 0 <= i < |packets| ==> Sent(packets[i])
  }

  /** The packet has a body, and it fits the buffer. */
  predicate Takes(p: Result, buflen: nat)
    requires p.Received?
  {
    p.body != [] && TrueLength(|p.body|) <= buflen
  }

  lemma FramedIff(packets: seq<Result>, buflen: nat)
    requires AllSent(packets)
    ensures AllFramed(packets, buflen) <==> forall i :: 0 <= i < |packets| ==> Takes(packets[i], buflen)
  {
    hide FieldOfDigits, TrueLength;
    if forall i :: 0 <= i < |packets| ==> Takes(packets[i], buflen) {
      assert AllFramed(packets, buflen);
    } else {
      var i :| 0 <= i < |packets| && !Takes(packets[i], buflen);
      assert !Framed(packets[i], buflen);
    }
  }

  lemma ReportedAreFramed(events: seq<Event>, packets: seq<Result>, buflen: nat)
    requires AllSent(packets) && Run(events, buflen) == Some(Reading(AwaitHeader, packets))
    ensures AllFramed(packets, buflen)
  {
    OnlyFramedPackets(events, buflen);
    hide Run, Framed, FieldOfDigits;
  }

  /**
   Every whole stream of packets that can be sent, under every schedule of short reads and stalls without an error: it
   is delivered exactly if each packet has a body, fits the buffer, and has at most four stalls in its length field and
   bytes of that field.
   */
  lemma DeliveredIff(events: seq<Event>, packets: seq<Result>, buflen: nat)
    requires AllSent(packets) && Run(events, buflen).Some? && NoErrors(events) && Brought(events) == AllRaw(packets)
    ensures Run(events, buflen).value == Reading(AwaitHeader, packets) <==>
              forall i :: 0 <= i < |packets| ==> Takes(packets[i], buflen) && InBudget(events, packets, i)
  {
    FramedIff(packets, buflen);
    hide Run, Brought, AllRaw, NoErrors, InBudget, AllFramed, Takes, Sent;
    if Run(events, buflen).value == Reading(AwaitHeader, packets) {
      ReportedAreFramed(events, packets, buflen);
    }
    if AllFramed(packets, buflen) {
      FramedDeliveredIff(events, packets, buflen);
    }
  }

  lemma Extended(events: seq<Event>, e: Event, r: Reading, bytes: seq<octet>, buflen: nat)
    requires Run(events, buflen) == Some(r) && Brought(events) == bytes && Possible(r.progress, e)
    ensures Run(events + [e], buflen) == Some(Step(r, e, buflen)) && Brought(events + [e]) == bytes + Added(e)
  {
    RunJoins(events, e, buflen);
    BroughtJoins(events, e);
    hide Run, Step, Brought, Possible;
  }

  lemma Stalled(events: seq<Event>, header: octet, k: nat, bytes: seq<octet>, buflen: nat)
    requires Run(events, buflen) == Some(Reading(AwaitLength(header, [], k), [])) && Brought(events) == bytes && k < 4
    ensures Run(events + [Stall], buflen) == Some(Reading(AwaitLength(header, [], k + 1), []))
    ensures Brought(events + [Stall]) == bytes
  {
    hide Run, Brought;
    Extended(events, Stall, Reading(AwaitLength(header, [], k), []), bytes, buflen);
    assert bytes + [] == bytes;
  }

  lemma GivenUp(buflen: nat)
    ensures var events := [Bytes([0x30]), Stall, Stall, Stall, Stall, GiveUp];
            Run(events, buflen) == Some(Reading(AwaitHeader, [Failed([0x30])])) && Brought(events) == [0x30]
  {
    var header := [Bytes([0x30])];
    var events := header + [Stall] + [Stall] + [Stall] + [Stall];
    assert header == [] + [Bytes([0x30])];
    Extended([], Bytes([0x30]), Reading(AwaitHeader, []), [], buflen);
    hide Run, Brought;
    Stalled(header, 0x30, 0, [0x30], buflen);
    Stalled(header + [Stall], 0x30, 1, [0x30], buflen);
    Stalled(header + [Stall] + [Stall], 0x30, 2, [0x30], buflen);
    Stalled(header + [Stall] + [Stall] + [Stall], 0x30, 3, [0x30], buflen);
    Extended(events, GiveUp, Reading(AwaitLength(0x30, [], 4), []), [0x30], buflen);
    assert events + [GiveUp] == [Bytes([0x30]), Stall, Stall, Stall, Stall, GiveUp];
    assert [0x30] + [] + [] == [0x30] && [] + [Failed([0x30])] == [Failed([0x30])];
  }

  /** Four stalls before a length field of one byte lose the packet, and its other bytes are taken for a new one. */
  lemma FourStallsLoseThePacket()
    ensures var p := Received(0x30, [1], [7]);
            var events := [Bytes([0x30]), Stall, Stall, Stall, Stall, GiveUp, Bytes([1]), Bytes([7])];
            && Framed(p, 100) && NoErrors(events) && Brought(events) == Raw(p)
            && Run(events, 100) == Some(Reading(AwaitBody(1, [7], []), [Failed([0x30])]))
  {
    hide Run, Brought;
    var front := [Bytes([0x30]), Stall, Stall, Stall, Stall, GiveUp];
    var failed := [Failed([0x30])];
    GivenUp(100);
    Extended(front, Bytes([1]), Reading(AwaitHeader, failed), [0x30], 100);
    Extended(front + [Bytes([1])], Bytes([7]), Reading(AwaitLength(1, [], 0), failed), [0x30, 1], 100);
    assert front + [Bytes([1])] + [Bytes([7])] ==
           [Bytes([0x30]), Stall, Stall, Stall, Stall, GiveUp, Bytes([1]), Bytes([7])];
    assert Framed(Received(0x30, [1], [7]), 100);
  }

  lemma EmptyBodyStep(r: Reading, e: Event, buflen: nat)
    requires GoodProgress(r.progress, buflen) && Possible(r.progress, e) && !e.Err?
    requires r.progress.AwaitBody? && Value(r.progress.digits) == 0
    ensures Step(r, e, buflen) == r
  {
  }

  /** A packet with an empty body is never reported: the reader keeps asking for no bytes and gets none. */
  lemma {:induction false} EmptyBodyNeverEnds(events: seq<Event>, more: seq<Event>, buflen: nat)
    requires Run(events, buflen).Some? && Run(events + more, buflen).Some? && NoErrors(more)
    requires var p := Run(events, buflen).value.progress; p.AwaitBody? && |p.digits| <= 4 && Value(p.digits) == 0
    ensures Run(events + more, buflen) == Run(events, buflen)
  {
    if more == [] {
      assert events + more == events;
    } else {
      var (front, e) := (more[..|more| - 1], more[|more| - 1]);
      assert more == front + [e] && events + more == (events + front) + [e];
      assert NoErrors(front) && !e.Err?;
      hide Run, NoErrors, Value, Step, Possible, Brought, GoodProgress;
      LastEvent(events + front, e, buflen);
      EmptyBodyNeverEnds(events, front, buflen);
      EmptyBodyStep(Run(events, buflen).value, e, buflen);
    }
  }
  /** A PINGRESP of two bytes is never reported, whatever comes after it: its empty body is asked for for ever. */
  lemma PingIsNeverDelivered(more: seq<Event>, buflen: nat)
    requires buflen >= 2 && NoErrors(more) && Run([Bytes([0xd0]), Bytes([0])] + more, buflen).Some?
    ensures var ping := Received(0xd0, [0], []);
            && Sent(ping) && Brought([Bytes([0xd0]), Bytes([0])]) == Raw(ping)
            && Run([Bytes([0xd0]), Bytes([0])] + more, buflen) == Some(Reading(AwaitBody(0xd0, [0], []), []))
  {
    hide *;
    PingRead(buflen);
    PingIsSent();
    EmptyBodyNeverEnds([Bytes([0xd0]), Bytes([0])], more, buflen);
  }

  lemma PingIsSent()
    ensures Sent(Received(0xd0, [0], [])) && Raw(Received(0xd0, [0], [])) == [0xd0, 0] && Value([0]) == 0
  {
  }

  lemma PingRead(buflen: nat)
    requires buflen >= 2
    ensures var ping := [Bytes([0xd0]), Bytes([0])];
            Run(ping, buflen) == Some(Reading(AwaitBody(0xd0, [0], []), [])) && Brought(ping) == [0xd0, 0]
  {
    Extended([], Bytes([0xd0]), Reading(AwaitHeader, []), [], buflen);
    assert [] + [Bytes([0xd0])] == [Bytes([0xd0])] && [] + [0xd0] == [0xd0];
    assert Value([] + [0]) == 0;
    hide Run, Brought;
    Extended([Bytes([0xd0])], Bytes([0]), Reading(AwaitLength(0xd0, [], 0), []), [0xd0], buflen);
    assert [Bytes([0xd0])] + [Bytes([0])] == [Bytes([0xd0]), Bytes([0])];
  }
}
