/**
 libmqtt/MQTTSubscribeClient.c, MQTTSubscribeServer.c, MQTTUnsubscribeClient.c and MQTTUnsubscribeServer.c: lists
 of topic filters there and back. An UNSUBSCRIBE entry is a SUBSCRIBE entry without the byte of the QoS.
 */
module MqttSubscribe {
  import opened Buffers
  import opened MqttPacket
  import opened MqttStrings
  import opened Options

  datatype Kind = Subscribe | Unsubscribe {
    function PacketType(): nat {
      if Subscribe? then SUBSCRIBE else UNSUBSCRIBE
    }

    function QosSize(): nat {
      if Subscribe? then 1 else 0
    }
  }

  /** A filter and its requested QoS, of which one byte is sent; an UNSUBSCRIBE ignores it. */
  datatype Entry = Entry(filter: MqttString, qos: int)

  /** The loop of MQTTSerialize_subscribeLength and of MQTTSerialize_unsubscribeLength. */
  function EntriesLength(kind: Kind, entries: seq<Entry>): nat {
    if entries == [] then 0
    else
      var n := |entries| - 1;
      EntriesLength(kind, entries[..n]) + 2 + StringLength(entries[n].filter) + kind.QosSize()
  }

  method ListLength(kind: Kind, entries: seq<Entry>) returns (len: nat)
    ensures len == 2 + EntriesLength(kind, entries)
  {
    len := 2;
    var i := 0;
    while i < |entries|
      invariant 0 <= i <= |entries| && len == 2 + EntriesLength(kind, entries[..i])
    {
      assert entries[..i + 1][..i] == entries[..i];
      len := len + 2 + StringLength(entries[i].filter) + kind.QosSize();
      i := i + 1;
    }
    assert entries[..|entries|] == entries;
  }

  /** Sections 3.8.3 and 3.10.3 of MQTT 3.1.1. */
  function EntryField(kind: Kind, e: Entry): seq<octet> {
    StringField(Written(e.filter)) + (if kind.Subscribe? then [e.qos % 0x100] else [])
  }

  function EntryFields(kind: Kind, entries: seq<Entry>): seq<octet> {
    if entries == [] then [] else EntryField(kind, entries[0]) + EntryFields(kind, entries[1..])
  }

  function Body(kind: Kind, packetId: nat, entries: seq<Entry>): seq<octet> {
    TwoBytes(packetId) + EntryFields(kind, entries)
  }

  /** The remaining length that is predicted is the one that is announced. */
  function Packet(kind: Kind, dup: octet, packetId: nat, entries: seq<Entry>): seq<octet> {
    Start(HeaderByte(kind.PacketType(), dup, 1, 0), 2 + EntriesLength(kind, entries)) + Body(kind, packetId, entries)
  }

  /** How much longer the filters are written than they are counted. */
  function SumExcess(entries: seq<Entry>): int {
    if entries == [] then 0 else SumExcess(entries[..|entries| - 1]) + Excess(entries[|entries| - 1].filter)
  }

  /** The filters are written as long as they are counted, and the length field can carry the packet. */
  predicate Sendable(kind: Kind, entries: seq<Entry>) {
    SumExcess(entries) == 0 && 2 + EntriesLength(kind, entries) <= MAX_REMAINING
  }

  lemma {:induction false} EntryFieldsJoin(kind: Kind, a: seq<Entry>, b: seq<Entry>)
    ensures EntryFields(kind, a + b) == EntryFields(kind, a) + EntryFields(kind, b)
  {
    hide EntryField;
    if a == [] {
      assert a + b == b;
    } else {
      EntryFieldsJoin(kind, a[1..], b);
      FirstOfJoin(a, b);
    }
  }

  lemma FirstOfJoin<T>(a: seq<T>, b: seq<T>)
    requires a != []
    ensures a + b != [] && (a + b)[0] == a[0] && (a + b)[1..] == a[1..] + b
  {
  }

  /** The prediction is wrong by what the filters are wrong. */
  lemma {:induction false} PredictedLength(kind: Kind, entries: seq<Entry>)
    ensures |EntryFields(kind, entries)| - EntriesLength(kind, entries) == SumExcess(entries)
  {
    if entries != [] {
      var n := |entries| - 1;
      PredictedLength(kind, entries[..n]);
      EntryFieldsJoin(kind, entries[..n], [entries[n]]);
      assert entries == entries[..n] + [entries[n]];
      OneEntry(kind, entries[n]);
      EntryLength(kind, entries[n]);
      hide EntryField, EntryFields;
    }
  }

  lemma EntryLength(kind: Kind, e: Entry)
    ensures |EntryField(kind, e)| == 2 + |Written(e.filter)| + kind.QosSize()
  {
    FieldLength(Written(e.filter));
  }

  /**
   The check against `buflen` keeps the whole packet inside the buffer, whatever its size, exactly if the filters
   are written at most as long as they are counted, with one byte to spare at four lengths; beyond the lengths that
   the standard allows they must even be shorter.
   */
  lemma StaysInsideIff(kind: Kind, packetId: nat, entries: seq<Entry>)
    ensures var (n, excess) := (2 + EntriesLength(kind, entries), SumExcess(entries));
            (forall buflen: nat :: Contained(n, |Body(kind, packetId, entries)|, buflen)) <==>
              if n in {127, 16383, 2097150, 2097151} then excess <= 1
              else if n <= MAX_REMAINING then excess <= 0
              else excess + |LengthField(n)| <= 4
  {
    PredictedLength(kind, entries);
    IdLength(packetId);
    ContainedIff(2 + EntriesLength(kind, entries), |Body(kind, packetId, entries)|);
    hide EntryFields, EntriesLength, SumExcess, TwoBytes;
  }

  /** With a filter whose two forms differ, a SUBSCRIBE that passes the check ends one byte after the buffer. */
  lemma TwoFormsOverflow()
    ensures var entries := [Entry(TWO_FORMS, 0)];
            var n := 2 + EntriesLength(Subscribe, entries);
            && PacketLength(n) == 7 && |Packet(Subscribe, 0, 1, entries)| == 8
            && !Contained(n, |Body(Subscribe, 1, entries)|, 7)
  {
    var entries := [Entry(TWO_FORMS, 0)];
    assert entries[..0] == [];
    assert EntriesLength(Subscribe, entries) == 3 && SumExcess(entries) == 1;
    PredictedLength(Subscribe, entries);
    IdLength(1);
    assert LengthField(5) == [5];
    hide EntryFields, TwoBytes;
  }

  /**
   Nothing at all is written if the packet might not fit. What is written lies in the memory behind `buf`, and
   inside `buflen` under the condition of StaysInsideIff.
   */
  method SerializeList(buf: array<octet>, buflen: nat, kind: Kind, dup: octet, packetId: nat, entries: seq<Entry>)
    returns (rc: int)
    requires buflen <= buf.Length
    requires PacketLength(2 + EntriesLength(kind, entries)) <= buflen ==>
             |Packet(kind, dup, packetId, entries)| <= buf.Length
    modifies buf
    ensures PacketLength(2 + EntriesLength(kind, entries)) > buflen ==>
              rc == MQTTPACKET_BUFFER_TOO_SHORT && buf[..] == old(buf[..])
    ensures PacketLength(2 + EntriesLength(kind, entries)) <= buflen ==>
              && rc == |Packet(kind, dup, packetId, entries)|
              && buf[..] == Splice(old(buf[..]), 0, Packet(kind, dup, packetId, entries))
              && (Contained(2 + EntriesLength(kind, entries), |Body(kind, packetId, entries)|, buflen) ==> rc <= buflen)
  {
    hide Body, EntriesLength, Start, HeaderByte, PacketLength, LengthField, Splice;
    var remaining := ListLength(kind, entries);
    if PacketLength(remaining) > buflen {
      return MQTTPACKET_BUFFER_TOO_SHORT;
    }
    var header := HeaderByte(kind.PacketType(), dup, 1, 0);
    StartLength(header, remaining);
    SpliceTwice(buf[..], 0, Start(header, remaining), Body(kind, packetId, entries));
    var ptr := WriteStart(buf, header, remaining);
    rc := WriteBody(buf, ptr, kind, packetId, entries);
  }

  method WriteBody(buf: array<octet>, ptr: nat, kind: Kind, packetId: nat, entries: seq<Entry>) returns (next: nat)
    requires ptr + |Body(kind, packetId, entries)| <= buf.Length
    modifies buf
    ensures next == ptr + |Body(kind, packetId, entries)|
    ensures buf[..] == Splice(old(buf[..]), ptr, Body(kind, packetId, entries))
  {
    ghost var before := buf[..];
    SpliceTwice(before, ptr, TwoBytes(packetId), EntryFields(kind, entries));
    next := WriteInt(buf, ptr, packetId);
    next := WriteEntries(buf, next, kind, entries);
  }

  /** The fields of the first `i` entries. */
  function Front(kind: Kind, entries: seq<Entry>, i: nat): seq<octet>
    requires i <= |entries|
  {
    EntryFields(kind, entries[..i])
  }

  lemma FrontEnds(kind: Kind, entries: seq<Entry>)
    ensures Front(kind, entries, 0) == [] && Front(kind, entries, |entries|) == EntryFields(kind, entries)
  {
    assert entries[..|entries|] == entries;
  }

  lemma OneEntry(kind: Kind, e: Entry)
    ensures EntryFields(kind, [e]) == EntryField(kind, e)
  {
    assert EntryFields(kind, [e]) == EntryField(kind, e) + [];
  }

  lemma FrontNext(kind: Kind, entries: seq<Entry>, i: nat)
    requires i < |entries|
    ensures Front(kind, entries, i + 1) == Front(kind, entries, i) + EntryField(kind, entries[i])
    ensures |Front(kind, entries, i + 1)| <= |EntryFields(kind, entries)|
  {
    hide EntryField, EntryFields;
    OneEntry(kind, entries[i]);
    EntryFieldsJoin(kind, entries[..i], [entries[i]]);
    EntryFieldsJoin(kind, entries[..i + 1], entries[i + 1..]);
    assert entries[..i + 1] == entries[..i] + [entries[i]] && entries == entries[..i + 1] + entries[i + 1..];
  }

  /** The first `i` fields have been written at `ptr`. */
  ghost predicate Wrote(before: seq<octet>, now: seq<octet>, ptr: nat, next: nat, kind: Kind, entries: seq<Entry>,
                        i: nat) {
    && i <= |entries| && next == ptr + |Front(kind, entries, i)| <= |before|
    && now == Splice(before, ptr, Front(kind, entries, i))
  }

  method WriteNext(buf: array<octet>, ghost before: seq<octet>, ghost ptr: nat, next: nat, kind: Kind,
                   entries: seq<Entry>, i: nat)
    returns (next': nat)
    requires i < |entries| && ptr + |EntryFields(kind, entries)| <= |before| == buf.Length
    requires Wrote(before, buf[..], ptr, next, kind, entries, i)
    modifies buf
    ensures Wrote(before, buf[..], ptr, next', kind, entries, i + 1)
  {
    hide Splice, EntryField, EntryFields, Front;
    FrontNext(kind, entries, i);
    SpliceTwice(before, ptr, Front(kind, entries, i), EntryField(kind, entries[i]));
    next' := WriteEntry(buf, next, kind, entries[i]);
  }

  method WriteEntries(buf: array<octet>, ptr: nat, kind: Kind, entries: seq<Entry>) returns (next: nat)
    requires ptr + |EntryFields(kind, entries)| <= buf.Length
    modifies buf
    ensures next == ptr + |EntryFields(kind, entries)|
    ensures buf[..] == Splice(old(buf[..]), ptr, EntryFields(kind, entries))
  {
    next := ptr;
    var i := 0;
    ghost var before := buf[..];
    SpliceNothing(before, ptr);
    FrontEnds(kind, entries);
    hide Splice, EntryFields, Front;
    while i < |entries|
      invariant 0 <= i <= |entries| && Wrote(before, buf[..], ptr, next, kind, entries, i)
    {
      next := WriteNext(buf, before, ptr, next, kind, entries, i);
      i := i + 1;
    }
  }

  method WriteEntry(buf: array<octet>, ptr: nat, kind: Kind, e: Entry) returns (next: nat)
    requires ptr + |EntryField(kind, e)| <= buf.Length
    modifies buf
    ensures next == ptr + |EntryField(kind, e)| && buf[..] == Splice(old(buf[..]), ptr, EntryField(kind, e))
  {
    hide Splice, StringField, Written;
    ghost var name: seq<octet> := StringField(Written(e.filter));
    ghost var qos: seq<octet> := [e.qos % 0x100];
    FieldLength(Written(e.filter));
    SpliceTwice(buf[..], ptr, name, if kind.Subscribe? then qos else []);
    assert name + [] == name;
    next := WriteMqttString(buf, ptr, e.filter);
    if kind.Subscribe? {
      next := WriteChar(buf, next, e.qos % 0x100);
    }
  }

  // ---------- the list on the wire ----------

  /** An entry on the wire; an UNSUBSCRIBE has no QoS. */
  datatype Item = Item(filter: seq<octet>, qos: octet)

  predicate Fits(kind: Kind, item: Item) {
    |item.filter| < 0x10000 && (kind.Unsubscribe? ==> item.qos == 0)
  }

  predicate AllFit(kind: Kind, items: seq<Item>) {
    forall i :: 0 <= i < |items| ==> Fits(kind, items[i])
  }

  /** Sections 3.8.3 and 3.10.3 of MQTT 3.1.1 again, from the side of the reader. */
  function WireItem(kind: Kind, item: Item): (w: seq<octet>)
    ensures |w| == 2 + |item.filter| + kind.QosSize()
  {
    FieldLength(item.filter);
    StringField(item.filter) + (if kind.Subscribe? then [item.qos] else [])
  }

  function WireItems(kind: Kind, items: seq<Item>): seq<octet> {
    if items == [] then [] else WireItem(kind, items[0]) + WireItems(kind, items[1..])
  }

  /** An entry that was read: where its filter lies, and its QoS. */
  datatype Found = Found(filter: Field, qos: octet)

  /** One turn of the loop: the entry, if it is complete, what its string slot holds, and where the next one starts. */
  datatype Turn = Turn(item: Option<Found>, slot: Field, next: nat)

  /**
   What the loop reads: the entries, what it stored in the slots of `topicFilters`, and whether the list ended
   with the packet. An entry that is not complete has used its slot too.
   */
  datatype Items = Items(complete: bool, items: seq<Found>, slots: seq<Field>)

  /** What one turn reads can be read: the two bytes of the filter's length and, in a SUBSCRIBE, the QoS. */
  predicate TurnReadable(s: seq<octet>, cur: nat, end: nat, kind: Kind) {
    && (cur + 2 <= end ==> cur + 2 <= |s|)
    && (kind.Subscribe? && StringAt(s, cur, end).Field? && StringAt(s, cur, end).next < end ==>
          StringAt(s, cur, end).next < |s|)
  }

  function ItemAt(s: seq<octet>, cur: nat, end: nat, kind: Kind): (t: Turn)
    requires TurnReadable(s, cur, end, kind)
    ensures if t.item.Some? then cur < t.next <= end else t.next == cur
    ensures t.item.Some? ==> t.slot == t.item.value.filter && Lies(t.item.value, end)
  {
    var slot := StringAt(s, cur, end);
    if slot.Missing? then Turn(None, slot, cur)
    else if kind.Unsubscribe? then Turn(Some(Found(slot, 0)), slot, slot.next)
    else if slot.next >= end then Turn(None, slot, cur)
    else Turn(Some(Found(slot, s[slot.next])), slot, slot.next + 1)
  }

  /** Everything that the loop reads can be read. */
  predicate CanRead(s: seq<octet>, cur: nat, end: nat, kind: Kind)
    decreases end - cur
  {
    cur < end ==>
      && TurnReadable(s, cur, end, kind)
      && (ItemAt(s, cur, end, kind).item.Some? ==> CanRead(s, ItemAt(s, cur, end, kind).next, end, kind))
  }

  function ItemsAt(s: seq<octet>, cur: nat, end: nat, kind: Kind): (r: Items)
    requires CanRead(s, cur, end, kind)
    ensures AllLie(r.items, end)
    decreases end - cur
  {
    if cur >= end then Items(true, [], [])
    else
      var t := ItemAt(s, cur, end, kind);
      if t.item.None? then Items(false, [], [t.slot])
      else
        var rest := ItemsAt(s, t.next, end, kind);
        Items(rest.complete, [t.item.value] + rest.items, [t.slot] + rest.slots)
  }

  /** The filter ends at `end` or before. */
  predicate Lies(f: Found, end: nat) {
    f.filter.Field? && f.filter.start <= f.filter.next <= end
  }

  predicate AllLie(fs: seq<Found>, end: nat) {
    forall i :: 0 <= i < |fs| ==> Lies(fs[i], end)
  }

  lemma LieBefore(fs: seq<Found>, end: nat, n: nat)
    requires AllLie(fs, end) && end <= n
    ensures AllLie(fs, n)
  {
  }

  /** The entry, if its filter is in the buffer. */
  function Shown(s: seq<octet>, f: Found): Item
    requires Lies(f, |s|)
  {
    Item(Text(s, f.filter), f.qos)
  }

  function AllShown(s: seq<octet>, fs: seq<Found>): (items: seq<Item>)
    requires AllLie(fs, |s|)
    ensures |items| == |fs| && forall i :: 0 <= i < |fs| ==> items[i] == Shown(s, fs[i])
  {
    if fs == [] then [] else [Shown(s, fs[0])] + AllShown(s, fs[1..])
  }

  /** Nothing behind the announced end is read. */
  lemma {:induction false} AllIsReadable(s: seq<octet>, cur: nat, end: nat, kind: Kind)
    requires end <= |s|
    ensures CanRead(s, cur, end, kind)
    decreases end - cur
  {
    if cur < end && ItemAt(s, cur, end, kind).item.Some? {
      AllIsReadable(s, ItemAt(s, cur, end, kind).next, end, kind);
    }
  }

  lemma ItemStands(s: seq<octet>, cur: nat, end: nat, kind: Kind)
    requires end <= |s| && ItemAt(s, cur, end, kind).item.Some?
    ensures var (t, item) := (ItemAt(s, cur, end, kind), Shown(s, ItemAt(s, cur, end, kind).item.value));
            Fits(kind, item) && t.next == cur + |WireItem(kind, item)| && s[cur..t.next] == WireItem(kind, item)
  {
    StringStands(s, cur, end);
    var item := Shown(s, ItemAt(s, cur, end, kind).item.value);
    FieldLength(item.filter);
    hide StringField, StringAt;
    if kind.Subscribe? {
      assert s[cur..cur + 3 + |item.filter|] == s[cur..cur + 2 + |item.filter|] + [item.qos];
    }
  }

  lemma ItemIsRead(s: seq<octet>, cur: nat, end: nat, kind: Kind, item: Item)
    requires Fits(kind, item) && cur + |WireItem(kind, item)| <= end <= |s| && At(s, cur, WireItem(kind, item))
    ensures var t := ItemAt(s, cur, end, kind);
            t.item.Some? && Shown(s, t.item.value) == item && t.next == cur + |WireItem(kind, item)|
  {
    hide StringField, StringAt, Text;
    var name := StringField(item.filter);
    FieldLength(item.filter);
    AtParts(s, cur, name, if kind.Subscribe? then [item.qos] else []);
    StringRoundTrip(s, cur, end, item.filter);
    if kind.Subscribe? {
      assert s[cur + |name|] == s[cur + |name|..cur + |name| + 1][0];
    }
  }

  /** The list is read to its end, and these are its entries. */
  ghost predicate ReadAs(s: seq<octet>, cur: nat, end: nat, kind: Kind, items: seq<Item>) {
    && end <= |s| && CanRead(s, cur, end, kind) && ItemsAt(s, cur, end, kind).complete
    && AllShown(s, ItemsAt(s, cur, end, kind).items) == items
  }

  lemma NothingIsRead(s: seq<octet>, cur: nat, kind: Kind)
    requires At(s, cur, WireItems(kind, []))
    ensures ReadAs(s, cur, cur + |WireItems(kind, [])|, kind, [])
  {
  }

  lemma ReadOneMore(s: seq<octet>, cur: nat, end: nat, kind: Kind, item: Item, rest: seq<Item>)
    requires Fits(kind, item) && At(s, cur, WireItem(kind, item))
    requires cur + |WireItem(kind, item)| <= end && ReadAs(s, cur + |WireItem(kind, item)|, end, kind, rest)
    ensures ReadAs(s, cur, end, kind, [item] + rest)
  {
    ItemIsRead(s, cur, end, kind, item);
    hide ItemAt, Shown, Lies, At, Fits;
    var r := ItemsAt(s, cur, end, kind);
    assert r.items[1..] == ItemsAt(s, cur + |WireItem(kind, item)|, end, kind).items;
    LieBefore(r.items, end, |s|);
  }

  lemma FirstOnTheWire(s: seq<octet>, cur: nat, kind: Kind, items: seq<Item>)
    requires items != [] && AllFit(kind, items) && At(s, cur, WireItems(kind, items))
    ensures Fits(kind, items[0]) && AllFit(kind, items[1..]) && At(s, cur, WireItem(kind, items[0]))
    ensures var next := cur + |WireItem(kind, items[0])|;
            && cur < next && At(s, next, WireItems(kind, items[1..]))
            && cur + |WireItems(kind, items)| == next + |WireItems(kind, items[1..])|
    ensures items == [items[0]] + items[1..]
  {
    hide At, Fits, WireItem;
    AtParts(s, cur, WireItem(kind, items[0]), WireItems(kind, items[1..]));
  }

  /** The list on the wire is read entry by entry. */
  lemma {:induction false} WireIsRead(s: seq<octet>, cur: nat, kind: Kind, items: seq<Item>)
    requires AllFit(kind, items) && At(s, cur, WireItems(kind, items))
    ensures ReadAs(s, cur, cur + |WireItems(kind, items)|, kind, items)
    decreases |items|
  {
    hide *;
    if items == [] {
      NothingIsRead(s, cur, kind);
    } else {
      var next := cur + |WireItem(kind, items[0])|;
      FirstOnTheWire(s, cur, kind, items);
      WireIsRead(s, next, kind, items[1..]);
      ReadOneMore(s, cur, cur + |WireItems(kind, items)|, kind, items[0], items[1..]);
    }
  }

  /** A list that is read to its end stands on the wire. */
  lemma {:induction false} ReadStands(s: seq<octet>, cur: nat, end: nat, kind: Kind)
    requires cur <= end <= |s| && CanRead(s, cur, end, kind) && ItemsAt(s, cur, end, kind).complete
    ensures var items := AllShown(s, ItemsAt(s, cur, end, kind).items);
            AllFit(kind, items) && s[cur..end] == WireItems(kind, items)
    decreases end - cur
  {
    hide WireItem, ItemAt, Fits, Shown, Lies;
    if cur < end {
      var t := ItemAt(s, cur, end, kind);
      var rest := ItemsAt(s, t.next, end, kind).items;
      assert [t.item.value][0] == t.item.value;
      LieBefore([t.item.value], end, |s|);
      LieBefore(rest, end, |s|);
      ItemStands(s, cur, end, kind);
      ReadStands(s, t.next, end, kind);
      assert s[cur..end] == s[cur..t.next] + s[t.next..end];
      FirstFits(kind, Shown(s, t.item.value), AllShown(s, rest));
      assert ([t.item.value] + rest)[1..] == rest;
    }
  }

  lemma FirstFits(kind: Kind, item: Item, rest: seq<Item>)
    requires Fits(kind, item) && AllFit(kind, rest)
    ensures AllFit(kind, [item] + rest)
            && WireItems(kind, [item] + rest) == WireItem(kind, item) + WireItems(kind, rest)
  {
    assert ([item] + rest)[1..] == rest;
    hide Fits, WireItem;
  }

  /** The bytes are the concatenation of some entries. */
  ghost predicate IsList(kind: Kind, bytes: seq<octet>) {
    exists items :: AllFit(kind, items) && WireItems(kind, items) == bytes
  }

  lemma ListIsRead(s: seq<octet>, cur: nat, end: nat, kind: Kind, items: seq<Item>)
    requires cur <= end <= |s| && AllFit(kind, items) && WireItems(kind, items) == s[cur..end]
    ensures ReadAs(s, cur, end, kind, items)
  {
    hide AllFit, WireItems, ReadAs;
    assert At(s, cur, s[cur..end]);
    WireIsRead(s, cur, kind, items);
  }

  /** The list is read to its end exactly if it is one, and then the entries read are its entries. */
  lemma CompleteIff(s: seq<octet>, cur: nat, end: nat, kind: Kind)
    requires cur <= end <= |s|
    ensures CanRead(s, cur, end, kind)
    ensures ItemsAt(s, cur, end, kind).complete <==> IsList(kind, s[cur..end])
    ensures forall items ::
              AllFit(kind, items) && WireItems(kind, items) == s[cur..end] ==> ReadAs(s, cur, end, kind, items)
  {
    AllIsReadable(s, cur, end, kind);
    hide ItemsAt, WireItems, AllFit, AllShown, CanRead;
    if ItemsAt(s, cur, end, kind).complete {
      ReadStands(s, cur, end, kind);
    }
    forall items | AllFit(kind, items) && WireItems(kind, items) == s[cur..end] {
      ListIsRead(s, cur, end, kind, items);
    }
  }

  // ---------- reading the list ----------

  /** The body of the loops: the string is stored in its slot and, in a SUBSCRIBE, the byte after it in the other. */
  method ReadItem(buf: array<octet>, start: nat, end: nat, kind: Kind, count: nat,
                  topicFilters: array<Field>, requestedQoSs: array<octet>) returns (ok: bool, cur: nat)
    requires start < end && TurnReadable(buf[..], start, end, kind)
    requires count < topicFilters.Length && buf != requestedQoSs
    requires kind.Subscribe? && ItemAt(buf[..], start, end, kind).item.Some? ==> count < requestedQoSs.Length
    modifies topicFilters, requestedQoSs
    ensures var t := ItemAt(buf[..], start, end, kind);
            && ok == t.item.Some? && cur == t.next
            && topicFilters[..] == old(topicFilters[..])[count := t.slot]
            && requestedQoSs[..] ==
               if ok && kind.Subscribe? then old(requestedQoSs[..])[count := t.item.value.qos]
               else old(requestedQoSs[..])
  {
    cur := start;
    ok := false;
    var f := ReadMqttLenString(buf, cur, end);
    topicFilters[count] := f;
    if f.Missing? {
      return;
    }
    if kind.Subscribe? {
      if f.next >= end {
        return;
      }
      requestedQoSs[count] := buf[f.next];
      cur := f.next + 1;
    } else {
      cur := f.next;
    }
    ok := true;
  }

  /** The QoS values that are stored. */
  function Qoss(kind: Kind, items: seq<Found>): (q: seq<octet>)
    ensures |q| == if kind.Subscribe? then |items| else 0
  {
    if kind.Unsubscribe? || items == [] then [] else Qoss(kind, items[..|items| - 1]) + [items[|items| - 1].qos]
  }

  /** What has been read before, and the rest of the list. */
  function Prepend(done: Items, rest: Items): Items {
    Items(rest.complete, done.items + rest.items, done.slots + rest.slots)
  }

  lemma NextItems(s: seq<octet>, cur: nat, end: nat, kind: Kind, done: Items)
    requires cur < end && CanRead(s, cur, end, kind)
    ensures var t := ItemAt(s, cur, end, kind);
            Prepend(done, ItemsAt(s, cur, end, kind)) ==
              if t.item.None? then Items(false, done.items, done.slots + [t.slot])
              else Prepend(Items(true, done.items + [t.item.value], done.slots + [t.slot]),
                           ItemsAt(s, t.next, end, kind))
  {
    hide ItemAt;
    var t := ItemAt(s, cur, end, kind);
    if t.item.Some? {
      var rest := ItemsAt(s, t.next, end, kind);
      assert done.items + ([t.item.value] + rest.items) == done.items + [t.item.value] + rest.items;
      assert done.slots + ([t.slot] + rest.slots) == done.slots + [t.slot] + rest.slots;
    } else {
      assert done.items + [] == done.items;
    }
  }

  lemma NothingRead(r: Items)
    ensures Prepend(Items(true, [], []), r) == r
    ensures r.complete ==> Prepend(r, Items(true, [], [])) == r
  {
    assert [] + r.items == r.items && [] + r.slots == r.slots;
    assert r.items + [] == r.items && r.slots + [] == r.slots;
  }

  /** The arrays after `r` has been read: its slots are written, and nothing else. */
  ghost predicate Filled(kind: Kind, r: Items, filters0: seq<Field>, qoss0: seq<octet>, filters: seq<Field>,
                         qoss: seq<octet>) {
    && |r.slots| <= |filters0| && |Qoss(kind, r.items)| <= |qoss0|
    && filters == r.slots + filters0[|r.slots|..]
    && qoss == Qoss(kind, r.items) + qoss0[|Qoss(kind, r.items)|..]
  }

  /** The arrays have room for everything that is stored in them; `maxcount` does not enter. */
  predicate Room(kind: Kind, r: Items, filters: nat, qoss: nat) {
    |r.slots| <= filters && (kind.Subscribe? ==> |r.items| <= qoss)
  }

  lemma FilledStarts(kind: Kind, filters0: seq<Field>, qoss0: seq<octet>)
    ensures Filled(kind, Items(true, [], []), filters0, qoss0, filters0, qoss0)
  {
  }

  lemma FilledSlot(kind: Kind, done: Items, slot: Field, filters0: seq<Field>, qoss0: seq<octet>,
                   filters: seq<Field>, qoss: seq<octet>)
    requires Filled(kind, done, filters0, qoss0, filters, qoss) && |done.slots| < |filters0|
    ensures Filled(kind, Items(false, done.items, done.slots + [slot]), filters0, qoss0, filters[|done.slots| := slot],
                   qoss)
  {
    hide Qoss;
  }

  lemma FilledItem(kind: Kind, done: Items, t: Turn, filters0: seq<Field>, qoss0: seq<octet>,
                   filters: seq<Field>, qoss: seq<octet>)
    requires Filled(kind, done, filters0, qoss0, filters, qoss) && t.item.Some?
             && |done.slots| == |done.items| < |filters0|
    requires kind.Subscribe? ==> |done.items| < |qoss0|
    ensures Filled(kind, Items(true, done.items + [t.item.value], done.slots + [t.slot]), filters0, qoss0,
                   filters[|done.slots| := t.slot],
                   if kind.Subscribe? then qoss[|done.items| := t.item.value.qos] else qoss)
  {
    assert (done.items + [t.item.value])[..|done.items|] == done.items;
  }

  /** More is stored than has been read so far. */
  lemma RoomForNext(s: seq<octet>, cur: nat, end: nat, kind: Kind, done: Items, filters: nat, qoss: nat)
    requires cur < end && CanRead(s, cur, end, kind)
    requires Room(kind, Prepend(done, ItemsAt(s, cur, end, kind)), filters, qoss)
    ensures |done.slots| < filters
    ensures kind.Subscribe? && ItemAt(s, cur, end, kind).item.Some? ==> |done.items| < qoss
  {
    hide ItemAt;
  }

  /** The loop has read `done` and goes on at `cur`. */
  ghost predicate Progress(s: seq<octet>, start: nat, cur: nat, end: nat, kind: Kind, done: Items, filters0: seq<Field>,
                           qoss0: seq<octet>, filters: seq<Field>, qoss: seq<octet>)
    requires CanRead(s, start, end, kind)
  {
    && CanRead(s, cur, end, kind) && done.complete && |done.items| == |done.slots|
    && Prepend(done, ItemsAt(s, cur, end, kind)) == ItemsAt(s, start, end, kind)
    && Filled(kind, done, filters0, qoss0, filters, qoss)
  }

  /** One turn: either the loop goes on with one item more, or it ends and everything is stored. */
  lemma ProgressStep(s: seq<octet>, start: nat, cur: nat, end: nat, kind: Kind, done: Items, filters0: seq<Field>,
                     qoss0: seq<octet>, filters: seq<Field>, qoss: seq<octet>)
    requires cur < end && CanRead(s, start, end, kind)
    requires Progress(s, start, cur, end, kind, done, filters0, qoss0, filters, qoss)
    requires Room(kind, ItemsAt(s, start, end, kind), |filters0|, |qoss0|)
    ensures |done.slots| < |filters| == |filters0| && |qoss| == |qoss0|
    ensures var (t, all) := (ItemAt(s, cur, end, kind), ItemsAt(s, start, end, kind));
            if t.item.None? then all == Items(false, done.items, done.slots + [t.slot])
                                 && Filled(kind, all, filters0, qoss0, filters[|done.slots| := t.slot], qoss)
            else
              && (kind.Subscribe? ==> |done.items| < |qoss|)
              && Progress(s, start, t.next, end, kind, Items(true, done.items + [t.item.value], done.slots + [t.slot]),
                          filters0, qoss0, filters[|done.slots| := t.slot],
                          if kind.Subscribe? then qoss[|done.items| := t.item.value.qos] else qoss)
  {
    hide ItemAt, Prepend, Filled, Room, ItemsAt;
    var t := ItemAt(s, cur, end, kind);
    RoomForNext(s, cur, end, kind, done, |filters0|, |qoss0|);
    FilledLengths(kind, done, filters0, qoss0, filters, qoss);
    NextItems(s, cur, end, kind, done);
    FilledSlot(kind, done, t.slot, filters0, qoss0, filters, qoss);
    if t.item.Some? {
      FilledItem(kind, done, t, filters0, qoss0, filters, qoss);
    }
  }

  lemma FilledLengths(kind: Kind, done: Items, filters0: seq<Field>, qoss0: seq<octet>, filters: seq<Field>,
                      qoss: seq<octet>)
    requires Filled(kind, done, filters0, qoss0, filters, qoss)
    ensures |filters| == |filters0| && |qoss| == |qoss0|
  {
    hide Qoss;
  }

  /** The list broke off after `done`, and everything is stored. */
  ghost predicate Ended(all: Items, kind: Kind, done: Items, filters0: seq<Field>, qoss0: seq<octet>,
                        filters: seq<Field>, qoss: seq<octet>) {
    !all.complete && all.items == done.items && Filled(kind, all, filters0, qoss0, filters, qoss)
  }

  lemma ReadingStarts(s: seq<octet>, start: nat, end: nat, kind: Kind, filters0: seq<Field>, qoss0: seq<octet>)
    requires CanRead(s, start, end, kind)
    ensures Progress(s, start, start, end, kind, Items(true, [], []), filters0, qoss0, filters0, qoss0)
  {
    NothingRead(ItemsAt(s, start, end, kind));
    FilledStarts(kind, filters0, qoss0);
    hide ItemsAt, Prepend, Filled;
  }

  lemma ReadingEnds(s: seq<octet>, start: nat, cur: nat, end: nat, kind: Kind, complete: bool, done: Items,
                    filters0: seq<Field>, qoss0: seq<octet>, filters: seq<Field>, qoss: seq<octet>)
    requires CanRead(s, start, end, kind) && (complete ==> cur >= end)
    requires if complete then Progress(s, start, cur, end, kind, done, filters0, qoss0, filters, qoss)
             else Ended(ItemsAt(s, start, end, kind), kind, done, filters0, qoss0, filters, qoss)
    ensures var r := ItemsAt(s, start, end, kind);
            complete == r.complete && |done.items| == |r.items| && Filled(kind, r, filters0, qoss0, filters, qoss)
  {
    if complete {
      NothingRead(done);
    }
    hide Filled;
  }

  /** One turn of the loops. */
  method ReadNext(buf: array<octet>, ghost start: nat, cur: nat, end: nat, kind: Kind, count: nat,
                  topicFilters: array<Field>, requestedQoSs: array<octet>, ghost done: Items,
                  ghost filters0: seq<Field>, ghost qoss0: seq<octet>)
    returns (ok: bool, next: nat, ghost more: Items)
    requires count == |done.items| && cur < end && CanRead(buf[..], start, end, kind) && buf != requestedQoSs
    requires Room(kind, ItemsAt(buf[..], start, end, kind), |filters0|, |qoss0|)
    requires Progress(buf[..], start, cur, end, kind, done, filters0, qoss0, topicFilters[..], requestedQoSs[..])
    modifies topicFilters, requestedQoSs
    ensures ok ==> cur < next && |more.items| == |done.items| + 1
                   && Progress(buf[..], start, next, end, kind, more, filters0, qoss0, topicFilters[..],
                               requestedQoSs[..])
    ensures !ok ==> more == done && cur <= next
    ensures !ok ==>
            Ended(ItemsAt(buf[..], start, end, kind), kind, done, filters0, qoss0, topicFilters[..], requestedQoSs[..])
  {
    hide ItemAt, ItemsAt, Prepend, Filled, Room;
    ghost var s := buf[..];
    ghost var t := ItemAt(s, cur, end, kind);
    ProgressStep(s, start, cur, end, kind, done, filters0, qoss0, topicFilters[..], requestedQoSs[..]);
    hide Progress;
    ok, next := ReadItem(buf, cur, end, kind, count, topicFilters, requestedQoSs);
    more := if ok then Items(true, done.items + [t.item.value], done.slots + [t.slot]) else done;
  }

  method ReadItems(buf: array<octet>, start: nat, end: nat, kind: Kind, topicFilters: array<Field>,
                   requestedQoSs: array<octet>)
    returns (complete: bool, count: nat)
    requires CanRead(buf[..], start, end, kind) && buf != requestedQoSs
    requires Room(kind, ItemsAt(buf[..], start, end, kind), topicFilters.Length, requestedQoSs.Length)
    modifies topicFilters, requestedQoSs
    ensures var r := ItemsAt(buf[..], start, end, kind);
            && complete == r.complete && count == |r.items|
            && Filled(kind, r, old(topicFilters[..]), old(requestedQoSs[..]), topicFilters[..], requestedQoSs[..])
  {
    var cur := start;
    count := 0;
    ghost var s := buf[..];
    ghost var (filters0, qoss0) := (topicFilters[..], requestedQoSs[..]);
    ghost var done := Items(true, [], []);
    ReadingStarts(s, start, end, kind, filters0, qoss0);
    complete := true;
    hide ItemAt, ItemsAt, Progress, Ended, Filled, Room;
    while cur < end && complete
      invariant buf[..] == s && count == |done.items|
      invariant if complete
                then Progress(s, start, cur, end, kind, done, filters0, qoss0, topicFilters[..], requestedQoSs[..])
                else Ended(ItemsAt(s, start, end, kind), kind, done, filters0, qoss0, topicFilters[..],
                           requestedQoSs[..])
      decreases end - cur, complete
    {
      complete, cur, done :=
        ReadNext(buf, start, cur, end, kind, count, topicFilters, requestedQoSs, done, filters0, qoss0);
      if complete {
        count := count + 1;
      }
    }
    ReadingEnds(s, start, cur, end, kind, complete, done, filters0, qoss0, topicFilters[..], requestedQoSs[..]);
  }

  /** The out-parameters besides the arrays; None where nothing was stored. */
  datatype Parsed = Parsed(rc: int, dup: Option<nat>, packetId: Option<nat>, count: Option<nat>)

  /**
   What is read of the data: in a packet of this type the length field, the two bytes of the packet identifier, and of
   the list what the loop reads. The filters need not be there, and the length of the data is not looked at.
   */
  predicate Readable(s: seq<octet>, kind: Kind) {
    && s != []
    && (HeaderType(s[0]) == kind.PacketType() ==>
          && HasLength(s) && 3 + LengthAt(s).len <= |s|
          && CanRead(s, 3 + LengthAt(s).len, EndAt(s), kind))
  }

  /** The list of a packet, after the packet identifier. */
  function ListItems(s: seq<octet>, kind: Kind): Items
    requires Readable(s, kind) && HeaderType(s[0]) == kind.PacketType()
  {
    ItemsAt(s, 3 + LengthAt(s).len, EndAt(s), kind)
  }

  function ListAt(s: seq<octet>, kind: Kind): Parsed
    requires Readable(s, kind)
  {
    if HeaderType(s[0]) != kind.PacketType() then Parsed(if kind.Subscribe? then -1 else 0, None, None, None)
    else
      var r := ListItems(s, kind);
      Parsed(if r.complete then 1 else LengthAt(s).len, Some(HeaderDup(s[0])), Some(IntAt(s, 1 + LengthAt(s).len)),
             Some(|r.items|))
  }

  lemma OtherType(s: seq<octet>, kind: Kind)
    requires Readable(s, kind) && HeaderType(s[0]) != kind.PacketType()
    ensures ListAt(s, kind) == Parsed(if kind.Subscribe? then -1 else 0, None, None, None)
  {
  }

  /** What is read after the header byte of a packet of this type. */
  method ReadAfterHeader(buf: array<octet>, kind: Kind, dup: nat, topicFilters: array<Field>,
                         requestedQoSs: array<octet>)
    returns (p: Parsed)
    requires Readable(buf[..], kind) && HeaderType(buf[0]) == kind.PacketType() && buf != requestedQoSs
    requires dup == HeaderDup(buf[0])
    requires Room(kind, ListItems(buf[..], kind), topicFilters.Length, requestedQoSs.Length)
    modifies topicFilters, requestedQoSs
    ensures p == ListAt(buf[..], kind)
    ensures Filled(kind, ListItems(buf[..], kind), old(topicFilters[..]), old(requestedQoSs[..]), topicFilters[..],
                   requestedQoSs[..])
  {
    hide ItemsAt, HeaderType, HeaderDup, DecodedFrom, HasField, Filled, Room, CanRead;
    assert buf[1..] == buf[..][1..];
    var remaining, size := DecodeBuf(buf, 1);
    var cur := 1 + size;
    var end := cur + remaining;
    var id := 0x100 * (buf[cur] as int) + buf[cur + 1];
    var complete, count := ReadItems(buf, cur + 2, end, kind, topicFilters, requestedQoSs);
    p := Parsed(if complete then 1 else size, Some(dup), Some(id), Some(count));
  }

  /** `buf` is the memory; `maxcount` and `buflen` are parameters of the code that it never reads. */
  method DeserializeList(buf: array<octet>, buflen: nat, kind: Kind, maxcount: nat, topicFilters: array<Field>,
                         requestedQoSs: array<octet>)
    returns (p: Parsed)
    requires Readable(buf[..], kind) && buf != requestedQoSs
    requires HeaderType(buf[0]) == kind.PacketType() ==>
               Room(kind, ListItems(buf[..], kind), topicFilters.Length, requestedQoSs.Length)
    modifies topicFilters, requestedQoSs
    ensures p == ListAt(buf[..], kind)
    ensures if HeaderType(buf[0]) == kind.PacketType()
            then Filled(kind, ListItems(buf[..], kind), old(topicFilters[..]), old(requestedQoSs[..]), topicFilters[..],
                        requestedQoSs[..])
            else topicFilters[..] == old(topicFilters[..]) && requestedQoSs[..] == old(requestedQoSs[..])
  {
    hide ListAt, ListItems, HeaderType, HeaderDup, Filled, Room, HasLength, CanRead;
    if HeaderType(buf[0]) != kind.PacketType() {
      OtherType(buf[..], kind);
      return Parsed(if kind.Subscribe? then -1 else 0, None, None, None);
    }
    p := ReadAfterHeader(buf, kind, HeaderDup(buf[0]), topicFilters, requestedQoSs);
  }

  // ---------- there and back ----------

  /** What the entries are read back as. */
  function Expected(kind: Kind, entries: seq<Entry>): seq<Item> {
    if entries == [] then []
    else [ExpectedItem(kind, entries[0])] + Expected(kind, entries[1..])
  }

  predicate Short(entries: seq<Entry>) {
    forall i :: 0 <= i < |entries| ==> |Written(entries[i].filter)| < 0x10000
  }

  function ExpectedItem(kind: Kind, e: Entry): Item {
    Item(Written(e.filter), if kind.Subscribe? then e.qos % 0x100 else 0)
  }

  lemma {:induction false} WireOfExpected(kind: Kind, entries: seq<Entry>)
    requires Short(entries)
    ensures AllFit(kind, Expected(kind, entries))
            && WireItems(kind, Expected(kind, entries)) == EntryFields(kind, entries)
  {
    if entries != [] {
      WireOfExpected(kind, entries[1..]);
      FirstFits(kind, ExpectedItem(kind, entries[0]), Expected(kind, entries[1..]));
      hide AllFit, WireItems, StringField;
    }
  }

  lemma BodyLength(kind: Kind, packetId: nat, entries: seq<Entry>)
    ensures |Body(kind, packetId, entries)| == 2 + EntriesLength(kind, entries) + SumExcess(entries)
  {
    IdLength(packetId);
    PredictedLength(kind, entries);
  }

  lemma {:induction false} ExpectedLength(kind: Kind, entries: seq<Entry>)
    ensures |Expected(kind, entries)| == |entries|
  {
    if entries != [] {
      ExpectedLength(kind, entries[1..]);
    }
  }

  lemma IdLength(packetId: nat)
    ensures |TwoBytes(packetId)| == 2
  {
  }

  /** In particular the filters come back in order, and with them every QoS that fits a byte. */
  lemma {:induction false} ExpectedItems(kind: Kind, entries: seq<Entry>, i: nat)
    requires i < |entries|
    ensures |Expected(kind, entries)| == |entries| && Expected(kind, entries)[i].filter == Written(entries[i].filter)
    ensures kind.Subscribe? && 0 <= entries[i].qos < 0x100 ==> Expected(kind, entries)[i].qos == entries[i].qos
  {
    if |entries| > 1 {
      ExpectedItems(kind, entries[1..], if i == 0 then 0 else i - 1);
    }
  }

  lemma BodyRoundTrip(s: seq<octet>, cur: nat, kind: Kind, packetId: nat, entries: seq<Entry>)
    requires Short(entries) && packetId < 0x10000 && At(s, cur, Body(kind, packetId, entries))
    ensures var end := cur + |Body(kind, packetId, entries)|;
            && cur + 2 <= end <= |s| && IntAt(s, cur) == packetId
            && ReadAs(s, cur + 2, end, kind, Expected(kind, entries))
  {
    hide At, TwoBytes, EntryFields, Expected, IntAt, WireItems, AllFit, ReadAs;
    IdLength(packetId);
    AtParts(s, cur, TwoBytes(packetId), EntryFields(kind, entries));
    IntRoundTrip(s, cur, packetId);
    WireOfExpected(kind, entries);
    WireIsRead(s, cur + 2, kind, Expected(kind, entries));
  }

  /** The start of a serialized list, up to the packet identifier. */
  lemma StartOfList(s: seq<octet>, kind: Kind, dup: octet, packetId: nat, entries: seq<Entry>)
    requires Sendable(kind, entries) && packetId < 0x10000 && At(s, 0, Packet(kind, dup, packetId, entries))
    ensures Readable(s, kind) && HeaderType(s[0]) == kind.PacketType() && EndAt(s) <= |s|
    ensures HeaderDup(s[0]) == dup % 2 && IntAt(s, 1 + LengthAt(s).len) == packetId
    ensures At(s, 1 + LengthAt(s).len, Body(kind, packetId, entries))
    ensures EndAt(s) == 1 + LengthAt(s).len + |Body(kind, packetId, entries)| && |Body(kind, packetId, entries)| >= 2
  {
    hide At, Start, HeaderByte, HeaderType, HeaderDup, IntAt, EntriesLength, EntryFields, TwoBytes, HasField,
         DecodedFrom, SumExcess, CanRead;
    var header := HeaderByte(kind.PacketType(), dup, 1, 0);
    var body := Body(kind, packetId, entries);
    BodyLength(kind, packetId, entries);
    IdLength(packetId);
    HeaderRoundTrip(kind.PacketType(), dup, 1, 0);
    StartRoundTrip(s, header, |body|, body);
    StartLength(header, |body|);
    var cur := |Start(header, |body|)|;
    AtParts(s, cur, TwoBytes(packetId), EntryFields(kind, entries));
    IntRoundTrip(s, cur, packetId);
    AllIsReadable(s, cur + 2, EndAt(s), kind);
  }

  /** Deserializing a serialized list gives the packet identifier and every entry, in order. */
  lemma ListRoundTrip(s: seq<octet>, kind: Kind, dup: octet, packetId: nat, entries: seq<Entry>)
    requires Sendable(kind, entries) && Short(entries) && packetId < 0x10000
    requires At(s, 0, Packet(kind, dup, packetId, entries))
    ensures Readable(s, kind) && HeaderType(s[0]) == kind.PacketType()
    ensures ListAt(s, kind) == Parsed(1, Some(dup % 2), Some(packetId), Some(|entries|))
    ensures ReadAs(s, 3 + LengthAt(s).len, EndAt(s), kind, Expected(kind, entries))
  {
    hide At, Packet, Body, HeaderType, HeaderDup, ItemsAt, Expected, IntAt, HasField, DecodedFrom, AllShown, CanRead,
         Sendable;
    StartOfList(s, kind, dup, packetId, entries);
    BodyRoundTrip(s, 1 + LengthAt(s).len, kind, packetId, entries);
    ExpectedLength(kind, entries);
  }

  lemma {:induction false} FitsIsShort(kind: Kind, entries: seq<Entry>)
    requires AllFit(kind, Expected(kind, entries))
    ensures Short(entries)
  {
    forall i | 0 <= i < |entries| ensures |Written(entries[i].filter)| < 0x10000 {
      ExpectedItems(kind, entries, i);
      assert Fits(kind, Expected(kind, entries)[i]);
      hide Expected, Written;
    }
  }

  /** The entries come back exactly if every filter fits its length bytes. */
  lemma ListRoundTripIff(s: seq<octet>, kind: Kind, dup: octet, packetId: nat, entries: seq<Entry>)
    requires Sendable(kind, entries) && packetId < 0x10000 && At(s, 0, Packet(kind, dup, packetId, entries))
    ensures Readable(s, kind) && HeaderType(s[0]) == kind.PacketType()
    ensures ReadAs(s, 3 + LengthAt(s).len, EndAt(s), kind, Expected(kind, entries)) <==> Short(entries)
  {
    hide At, Packet, Body, HeaderType, HeaderDup, ItemsAt, Expected, IntAt, HasField, DecodedFrom, AllShown, CanRead,
         Sendable, AllFit, Short, WireItems;
    StartOfList(s, kind, dup, packetId, entries);
    if Short(entries) {
      ListRoundTrip(s, kind, dup, packetId, entries);
    }
    if ReadAs(s, 3 + LengthAt(s).len, EndAt(s), kind, Expected(kind, entries)) {
      ReadStands(s, 3 + LengthAt(s).len, EndAt(s), kind);
      FitsIsShort(kind, entries);
    }
  }

  lemma LongFilter(filter: seq<octet>)
    requires |filter| == 0x10000
    ensures var entries := [Entry(MqttString(None, Some(filter)), 0)];
            Sendable(Subscribe, entries) && !Short(entries)
  {
    var entries := [Entry(MqttString(None, Some(filter)), 0)];
    assert entries[..0] == [] && |Written(entries[0].filter)| == 0x10000;
  }

  /** A filter of 65536 bytes can be sent and does not come back. */
  lemma LongFilterIsCut(s: seq<octet>, filter: seq<octet>)
    requires |filter| == 0x10000
    requires At(s, 0, Packet(Subscribe, 0, 1, [Entry(MqttString(None, Some(filter)), 0)]))
    ensures var entries := [Entry(MqttString(None, Some(filter)), 0)];
            && Sendable(Subscribe, entries) && Readable(s, Subscribe) && HeaderType(s[0]) == Subscribe.PacketType()
            && !ReadAs(s, 3 + LengthAt(s).len, EndAt(s), Subscribe, Expected(Subscribe, entries))
  {
    hide *;
    LongFilter(filter);
    ListRoundTripIff(s, Subscribe, 0, 1, [Entry(MqttString(None, Some(filter)), 0)]);
  }

  // ---------- packets that are not all there ----------

  /** A list of entries stands between the packet identifier and the announced end, or nothing does. */
  ghost predicate HasList(s: seq<octet>, kind: Kind)
    requires HasLength(s) && EndAt(s) <= |s|
  {
    var cur := 3 + LengthAt(s).len;
    cur > EndAt(s) || IsList(kind, s[cur..EndAt(s)])
  }

  lemma TurnInLonger(s: seq<octet>, t: seq<octet>, cur: nat, end: nat, kind: Kind)
    requires s <= t && TurnReadable(s, cur, end, kind)
    ensures TurnReadable(t, cur, end, kind) && ItemAt(t, cur, end, kind) == ItemAt(s, cur, end, kind)
  {
  }

  /** What can be read is the same whatever follows it. */
  lemma {:induction false} ListInLonger(s: seq<octet>, t: seq<octet>, cur: nat, end: nat, kind: Kind)
    requires s <= t && CanRead(s, cur, end, kind)
    ensures CanRead(t, cur, end, kind) && ItemsAt(t, cur, end, kind) == ItemsAt(s, cur, end, kind)
    decreases end - cur
  {
    if cur < end {
      TurnInLonger(s, t, cur, end, kind);
      hide ItemAt, TurnReadable;
      if ItemAt(s, cur, end, kind).item.Some? {
        ListInLonger(s, t, ItemAt(s, cur, end, kind).next, end, kind);
      }
    }
  }

  lemma LongerReadable(s: seq<octet>, t: seq<octet>, kind: Kind)
    requires s <= t && Readable(s, kind) && HeaderType(s[0]) == kind.PacketType()
    ensures t[0] == s[0] && HasLength(t) && LengthAt(t) == LengthAt(s) && EndAt(t) == EndAt(s)
    ensures Readable(t, kind) && ListItems(t, kind) == ListItems(s, kind)
  {
    hide HasField, DecodedFrom, HeaderType, CanRead, ItemsAt;
    assert s[1..] <= t[1..];
    FieldInLonger(s[1..], t[1..], 0);
    ListInLonger(s, t, 3 + LengthAt(s).len, EndAt(s), kind);
  }

  /**
   What a return value of 1 means for any data, complete or not: a list stands between the packet identifier and the
   announced end, or nothing does, or the length field has one byte, whose count is what the failing exit returns. The
   list is the one in the memory `t` that goes on behind the data `s`, since the code does not look where these end.
   The entries read are those of the list.
   */
  lemma ListAcceptedIff(s: seq<octet>, t: seq<octet>, kind: Kind)
    requires Readable(s, kind) && HeaderType(s[0]) == kind.PacketType() && s <= t && EndAt(s) <= |t|
    ensures HasLength(t) && EndAt(t) == EndAt(s) && (ListAt(s, kind).rc == 1 <==> HasList(t, kind) || s[1] < 128)
    ensures var (cur, r) := (3 + LengthAt(s).len, ListItems(s, kind));
            && (r.complete <==> HasList(t, kind))
            && (cur <= EndAt(s) && r.complete ==> t[cur..EndAt(s)] == WireItems(kind, AllShown(t, r.items)))
  {
    LongerReadable(s, t, kind);
    assert s[1..][0] == s[1];
    ListStands(t, kind);
    hide HasField, HasList, WireItems, AllShown, ItemsAt, CanRead, HeaderType;
  }

  lemma ListStands(t: seq<octet>, kind: Kind)
    requires Readable(t, kind) && HeaderType(t[0]) == kind.PacketType() && EndAt(t) <= |t|
    ensures var (cur, r) := (3 + LengthAt(t).len, ListItems(t, kind));
            && (r.complete <==> HasList(t, kind))
            && (cur <= EndAt(t) && r.complete ==> t[cur..EndAt(t)] == WireItems(kind, AllShown(t, r.items)))
  {
    var (cur, end) := (3 + LengthAt(t).len, EndAt(t));
    hide HasField, IsList, WireItems, HeaderType;
    if cur <= end {
      CompleteIff(t, cur, end, kind);
      if ItemsAt(t, cur, end, kind).complete {
        ReadStands(t, cur, end, kind);
      }
      hide ItemsAt, CanRead, AllShown;
    }
  }

  /** The bytes that are read of a complete list end here: a SUBSCRIBE ends with a QoS, an UNSUBSCRIBE with a filter. */
  function ReadEnd(kind: Kind, r: Items, end: nat): nat
    requires r.items != [] && AllLie(r.items, end)
  {
    if kind.Subscribe? then end else r.items[|r.items| - 1].filter.start
  }

  lemma {:induction false} ReadEndIsLater(s: seq<octet>, cur: nat, end: nat, kind: Kind)
    requires cur < end && CanRead(s, cur, end, kind) && ItemsAt(s, cur, end, kind).complete
    ensures ItemsAt(s, cur, end, kind).items != []
    ensures cur + 2 <= ReadEnd(kind, ItemsAt(s, cur, end, kind), end)
    decreases end - cur
  {
    var next := ItemAt(s, cur, end, kind).next;
    if next < end {
      ReadEndIsLater(s, next, end, kind);
    }
  }

  lemma NoEntries(s: seq<octet>, cur: nat, end: nat, kind: Kind)
    requires CanRead(s, cur, end, kind)
    ensures cur >= end ==> ItemsAt(s, cur, end, kind).items == []
  {
  }

  /** A complete list can be read from the first bytes exactly if they reach to its ReadEnd. */
  lemma {:induction false} PrefixIff(s: seq<octet>, t: seq<octet>, cur: nat, end: nat, kind: Kind)
    requires t <= s && cur < end && CanRead(s, cur, end, kind) && ItemsAt(s, cur, end, kind).complete
    requires ItemsAt(s, cur, end, kind).items != []
    ensures CanRead(t, cur, end, kind) <==> ReadEnd(kind, ItemsAt(s, cur, end, kind), end) <= |t|
    decreases end - cur
  {
    ReadEndIsLater(s, cur, end, kind);
    var next := ItemAt(s, cur, end, kind).next;
    if cur + 2 <= |t| && next < end {
      ReadEndIsLater(s, next, end, kind);
      PrefixIff(s, t, next, end, kind);
    }
  }

  /** Of the first bytes that hold the packet identifier, the list is all that matters. */
  lemma StartOfPrefix(s: seq<octet>, t: seq<octet>, kind: Kind)
    requires Readable(s, kind) && HeaderType(s[0]) == kind.PacketType() && 3 + LengthAt(s).len <= |t| && t <= s
    ensures HasLength(t) && LengthAt(t) == LengthAt(s) && t[0] == s[0]
    ensures IntAt(t, 1 + LengthAt(s).len) == IntAt(s, 1 + LengthAt(s).len)
  {
    assert t[1..] <= s[1..];
    FieldOfPrefix(s[1..], t[1..], 0);
    hide HasField, DecodedFrom, CanRead, HeaderType;
  }

  /**
   Reading stays inside the first `buflen` bytes, which the code does not check, if the announced packet does, and for
   a complete list of a SUBSCRIBE only if it does. An UNSUBSCRIBE does not read its last filter.
   */
  lemma ReadsInsideIff(s: seq<octet>, kind: Kind, buflen: nat)
    requires Readable(s, kind) && HeaderType(s[0]) == kind.PacketType() && 3 + LengthAt(s).len <= buflen <= |s|
    ensures EndAt(s) <= buflen ==> Readable(s[..buflen], kind) && ListAt(s[..buflen], kind) == ListAt(s, kind)
    ensures var r := ListItems(s, kind);
            r.complete && r.items != [] ==> (Readable(s[..buflen], kind) <==> ReadEnd(kind, r, EndAt(s)) <= buflen)
  {
    hide HasField, DecodedFrom, HeaderType, HeaderDup, CanRead, ItemsAt, ReadEnd, IntAt;
    var t := s[..buflen];
    var (cur, end) := (3 + LengthAt(s).len, EndAt(s));
    StartOfPrefix(s, t, kind);
    NoEntries(s, cur, end, kind);
    if end <= buflen {
      AllIsReadable(t, cur, end, kind);
      ListInLonger(t, s, cur, end, kind);
    }
    if ItemsAt(s, cur, end, kind).complete && ItemsAt(s, cur, end, kind).items != [] {
      PrefixIff(s, t, cur, end, kind);
    }
  }

  /** A SUBSCRIBE whose only filter is cut off is reported as read. */
  lemma TruncatedIsAccepted()
    ensures var s := [0x82, 3, 0, 1, 0];
            Readable(s, Subscribe) && ListAt(s, Subscribe).rc == 1 && !HasList(s, Subscribe)
  {
    var s := [0x82, 3, 0, 1, 0];
    assert s[1..][0] == 3;
    CompleteIff(s, 4, 5, Subscribe);
    hide IsList;
  }

  /** A SUBSCRIBE of eight bytes, of which four are there: what lies behind them in the memory is read as its entry. */
  lemma ForeignBytesAreRead(a: octet, b: octet)
    ensures var s := [0x82, 6, 0, 1, 0, 1, a, b];
            && Readable(s, Subscribe) && ListAt(s, Subscribe).rc == 1 && !Readable(s[..4], Subscribe)
            && ListItems(s, Subscribe).items == [Found(Field(6, 7), b)]
  {
    var s := [0x82, 6, 0, 1, 0, 1, a, b];
    assert s[1..][0] == 6 && IntAt(s, 4) == 1;
    assert ItemAt(s, 4, 8, Subscribe) == Turn(Some(Found(Field(6, 7), b)), Field(6, 7), 8);
    assert CanRead(s, 8, 8, Subscribe);
  }

  // ---------- a packet of each kind, byte by byte ----------

  /** "a/b" at QoS 1 and "c/d" at QoS 2, the example of sections 3.8.3 and 3.10.3 of MQTT 3.1.1. */
  function Example(): seq<Entry> {
    [Entry(MqttString(None, Some([0x61, 0x2f, 0x62])), 1), Entry(MqttString(None, Some([0x63, 0x2f, 0x64])), 2)]
  }

  lemma EntryBytes(kind: Kind)
    ensures EntryField(kind, Example()[0]) == [0, 3, 0x61, 0x2f, 0x62] + if kind.Subscribe? then [1] else []
    ensures EntryField(kind, Example()[1]) == [0, 3, 0x63, 0x2f, 0x64] + if kind.Subscribe? then [2] else []
  {
  }

  lemma ListBytes(kind: Kind)
    ensures EntryFields(kind, Example()) == EntryField(kind, Example()[0]) + EntryField(kind, Example()[1])
    ensures EntriesLength(kind, Example()) == 10 + 2 * kind.QosSize()
  {
    hide EntryField;
    var (a, b) := (Example()[0], Example()[1]);
    assert Example() == [a] + [b];
    EntryFieldsJoin(kind, [a], [b]);
    OneEntry(kind, a);
    OneEntry(kind, b);
    assert Example()[..1] == [a] && [a][..0] == [];
  }

  lemma HeaderBytes()
    ensures HeaderByte(SUBSCRIBE, 0, 1, 0) == 0x82 && HeaderByte(UNSUBSCRIBE, 1, 1, 0) == 0xaa
  {
  }

  lemma StartBytes()
    ensures Start(HeaderByte(SUBSCRIBE, 0, 1, 0), 14) == [0x82, 14]
    ensures Start(HeaderByte(UNSUBSCRIBE, 1, 1, 0), 12) == [0xaa, 12]
  {
    hide HeaderByte;
    HeaderBytes();
  }

  /** The packets of packet identifier 10, the second one a duplicate. */
  lemma PacketBytes()
    ensures Packet(Subscribe, 0, 10, Example()) ==
            [0x82, 14, 0, 10] + ([0, 3, 0x61, 0x2f, 0x62, 1] + [0, 3, 0x63, 0x2f, 0x64, 2])
    ensures Packet(Unsubscribe, 1, 10, Example()) ==
            [0xaa, 12, 0, 10] + ([0, 3, 0x61, 0x2f, 0x62] + [0, 3, 0x63, 0x2f, 0x64])
  {
    hide EntryField, EntryFields, EntriesLength, Start, HeaderByte, Example;
    ListBytes(Subscribe);
    ListBytes(Unsubscribe);
    EntryBytes(Subscribe);
    EntryBytes(Unsubscribe);
    StartBytes();
    assert TwoBytes(10) == [0, 10];
  }
}
