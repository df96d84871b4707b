/** libmqtt/MQTTClient.c: which topic names a filter accepts, and which handlers a message reaches. */
module TopicMatch {
  import opened MqttStrings
  import opened Options

  const SLASH: octet := 0x2f
  const PLUS: octet := 0x2b
  const HASH: octet := 0x23

  // ---------- the levels of section 4.7.1 of MQTT 3.1.1 ----------

  /** The length of the first level. */
  function FirstLevel(s: seq<octet>): (k: nat)
    ensures k <= |s| && SLASH !in s[..k] && (k < |s| ==> s[k] == SLASH)
  {
    if s == [] || s[0] == SLASH then 0 else 1 + FirstLevel(s[1..])
  }

  lemma {:induction false} FirstLevelIs(s: seq<octet>, k: nat)
    requires k <= |s| && SLASH !in s[..k] && (k < |s| ==> s[k] == SLASH)
    ensures k == FirstLevel(s)
  {
    if k > 0 {
      assert s[..k][0] == s[0] && s[1..][..k - 1] == s[..k][1..];
      FirstLevelIs(s[1..], k - 1);
    }
  }

  /** The levels that the separators cut a string into; the empty string is one empty level. */
  function Levels(s: seq<octet>): (levels: seq<seq<octet>>)
    ensures levels != []
  {
    var k := FirstLevel(s);
    if k == |s| then [s] else [s[..k]] + Levels(s[k + 1..])
  }

  /** `+` stands for one level, a final `#` for all the levels that are left, which may be none. */
  predicate Matches(filter: seq<seq<octet>>, name: seq<seq<octet>>) {
    if filter == [] then name == []
    else if filter == [[HASH]] then true
    else name != [] && (filter[0] == [PLUS] || filter[0] == name[0]) && Matches(filter[1..], name[1..])
  }

  /** The first `n` levels agree. */
  predicate Agree(filter: seq<seq<octet>>, name: seq<seq<octet>>, n: nat)
    requires n <= |filter|
  {
    n <= |name| && forall i :: 0 <= i < n ==> filter[i] == [0x2b] || filter[i] == name[i]
  }

  lemma AgreeFromFirst(filter: seq<seq<octet>>, name: seq<seq<octet>>, n: nat)
    requires 1 <= n <= |filter| && name != []
    ensures Agree(filter, name, n) <==>
              (filter[0] == [0x2b] || filter[0] == name[0]) && Agree(filter[1..], name[1..], n - 1)
  {
    var (fs, ns) := (filter[1..], name[1..]);
    if Agree(fs, ns, n - 1) {
      assert forall i :: 1 <= i < n ==> filter[i] == fs[i - 1] && name[i] == ns[i - 1];
    }
  }

  /** The rule without recursion: the filter is as long as the name, or a final `#` stands for what is left. */
  lemma {:induction false} MatchesIff(filter: seq<seq<octet>>, name: seq<seq<octet>>)
    requires forall i :: 0 <= i < |filter| - 1 ==> filter[i] != [0x23]
    ensures Matches(filter, name) <==>
              if filter != [] && filter[|filter| - 1] == [0x23] then Agree(filter, name, |filter| - 1)
              else |filter| == |name| && Agree(filter, name, |filter|)
  {
    hide Agree;
    if filter == [] || filter == [[HASH]] {
      AgreeOnNothing(filter, name);
    } else if name == [] {
      AgreeNeedsNames(filter, |filter| - 1);
    } else {
      MatchesIff(filter[1..], name[1..]);
      AgreeFromFirst(filter, name, |filter|);
      if |filter| > 1 {
        AgreeFromFirst(filter, name, |filter| - 1);
      }
    }
  }

  lemma AgreeOnNothing(filter: seq<seq<octet>>, name: seq<seq<octet>>)
    ensures Agree(filter, name, 0)
  {
  }

  lemma AgreeNeedsNames(filter: seq<seq<octet>>, n: nat)
    requires n <= |filter|
    ensures Agree(filter, [], n) ==> n == 0
  {
  }

  /** The levels, put together again. */
  function Joined(levels: seq<seq<octet>>): seq<octet>
    requires levels != []
  {
    if |levels| == 1 then levels[0] else levels[0] + [0x2f] + Joined(levels[1..])
  }

  predicate NoSeparators(levels: seq<seq<octet>>) {
    forall i :: 0 <= i < |levels| ==> 0x2f !in levels[i]
  }

  lemma OneMoreLevel(level: seq<octet>, rest: seq<seq<octet>>)
    requires rest != []
    ensures Joined([level] + rest) == level + [0x2f] + Joined(rest)
    ensures NoSeparators([level] + rest) <==> 0x2f !in level && NoSeparators(rest)
  {
    var levels := [level] + rest;
    assert levels[1..] == rest && levels[0] == level;
    assert forall i :: 1 <= i < |levels| ==> levels[i] == rest[i - 1];
  }

  lemma FirstOfJoined(level: seq<octet>, rest: seq<octet>)
    requires 0x2f !in level
    ensures var s := level + [0x2f] + rest;
            FirstLevel(s) == |level| && s[..|level|] == level && s[|level| + 1..] == rest && |level| < |s|
  {
    var s := level + [0x2f] + rest;
    assert s[..|level|] == level && s[|level|] == 0x2f && s[|level| + 1..] == rest;
    FirstLevelIs(s, |level|);
  }

  lemma OneLevel(level: seq<octet>)
    ensures Joined([level]) == level && (NoSeparators([level]) <==> 0x2f !in level)
    ensures 0x2f !in level ==> Levels(level) == [level]
  {
    assert level[..|level|] == level;
    if 0x2f !in level {
      FirstLevelIs(level, |level|);
    }
  }

  /** The levels of a string are the only ones without a separator that make it up. */
  lemma LevelsIff(s: seq<octet>, levels: seq<seq<octet>>)
    requires levels != []
    ensures levels == Levels(s) <==> Joined(levels) == s && NoSeparators(levels)
  {
    hide Joined, Levels, NoSeparators;
    LevelsJoin(s);
    if NoSeparators(levels) {
      JoinedLevels(levels);
    }
  }

  lemma {:induction false} LevelsJoin(s: seq<octet>)
    ensures Joined(Levels(s)) == s && NoSeparators(Levels(s))
  {
    var k := FirstLevel(s);
    hide FirstLevel, Joined, NoSeparators;
    if k < |s| {
      LevelsJoin(s[k + 1..]);
      OneMoreLevel(s[..k], Levels(s[k + 1..]));
      assert s == s[..k] + [s[k]] + s[k + 1..];
    } else {
      OneLevel(s);
      assert s[..k] == s;
    }
  }

  lemma {:induction false} JoinedLevels(levels: seq<seq<octet>>)
    requires levels != [] && NoSeparators(levels)
    ensures Levels(Joined(levels)) == levels
  {
    hide FirstLevel, Joined, NoSeparators;
    if |levels| == 1 {
      assert levels == [levels[0]];
      OneLevel(levels[0]);
    } else {
      assert levels == [levels[0]] + levels[1..];
      OneMoreLevel(levels[0], levels[1..]);
      JoinedLevels(levels[1..]);
      FirstOfJoined(levels[0], Joined(levels[1..]));
    }
  }

  predicate Ordinary(level: seq<octet>) {
    PLUS !in level && HASH !in level
  }

  /** The wildcards of a filter occupy whole levels, and `#` only the last one. */
  predicate WellFormed(filter: seq<octet>) {
    WellFormedLevels(Levels(filter))
  }

  predicate WellFormedLevels(levels: seq<seq<octet>>) {
    forall i :: 0 <= i < |levels| ==>
      Ordinary(levels[i]) || levels[i] == [PLUS] || (levels[i] == [HASH] && i == |levels| - 1)
  }

  /** A wildcard stands where the name has an empty level, or `#` where the name has no level left. */
  predicate WildcardMeetsEmpty(filter: seq<seq<octet>>, name: seq<seq<octet>>) {
    exists i :: 0 <= i < |filter| && WildcardOnNothing(filter, name, i)
  }

  predicate WildcardOnNothing(filter: seq<seq<octet>>, name: seq<seq<octet>>, i: nat)
    requires i < |filter|
  {
    || (filter[i] == [PLUS] && i < |name| && name[i] == [])
    || (filter[i] == [HASH] && (i >= |name| || name[i] == []))
  }

  // ---------- isTopicMatched ----------

  /** What the loop of isTopicMatched decides about the characters that are left. */
  predicate Scan(f: seq<octet>, n: seq<octet>)
    decreases |f|
  {
    if f == [] || n == [] then f == [] && n == []
    else if n[0] == SLASH && f[0] != SLASH then false
    else if f[0] != PLUS && f[0] != HASH && f[0] != n[0] then false
    else if f[0] == PLUS then Scan(f[1..], n[FirstLevel(n)..])
    else if f[0] == HASH then Scan(f[1..], [])
    else Scan(f[1..], n[1..])
  }

  /** The inner loop: from inside a level to its last character. */
  method LastOfLevel(name: seq<octet>, start: nat) returns (curn: nat)
    requires start < |name| && name[start] != SLASH
    ensures start <= curn < |name| && name[curn + 1..] == name[start..][FirstLevel(name[start..])..]
  {
    curn := start;
    var nextpos := curn + 1;
    while nextpos < |name| && name[nextpos] != SLASH
      invariant start <= curn < |name| && nextpos == curn + 1
      invariant SLASH !in name[start..nextpos]
    {
      assert name[start..nextpos + 1] == name[start..nextpos] + [name[nextpos]];
      curn := curn + 1;
      nextpos := curn + 1;
    }
    assert name[start..][..nextpos - start] == name[start..nextpos];
    FirstLevelIs(name[start..], nextpos - start);
  }

  method IsTopicMatched(filter: CString, name: seq<octet>) returns (matched: bool)
    ensures matched == Scan(filter, name)
    ensures WellFormed(filter) ==>
      (matched <==> Matches(Levels(filter), Levels(name)) && !WildcardMeetsEmpty(Levels(filter), Levels(name)))
  {
    hide WellFormed, Matches, WildcardMeetsEmpty, Levels, FirstLevel;
    var curf, curn := 0, 0;
    while curf < |filter| && curn < |name|
      invariant 0 <= curf <= |filter| && 0 <= curn <= |name|
      invariant Scan(filter[curf..], name[curn..]) == Scan(filter, name)
    {
      if name[curn] == SLASH && filter[curf] != SLASH { break; }
      if filter[curf] != PLUS && filter[curf] != HASH && filter[curf] != name[curn] { break; }
      if filter[curf] == PLUS {
        curn := LastOfLevel(name, curn);
      } else if filter[curf] == HASH {
        curn := |name| - 1;
      }
      curf := curf + 1;
      curn := curn + 1;
    }
    matched := curn == |name| && curf == |filter|;
    if WellFormed(filter) {
      ScanIsMatch(filter, name);
    }
  }

  /** A level without wildcards must be the first level of the name. */
  lemma {:induction false} ScanOrdinary(f: seq<octet>, n: seq<octet>, k: nat)
    requires k == FirstLevel(f) && Ordinary(f[..k])
    ensures Scan(f, n) <==> FirstLevel(n) == k && n[..k] == f[..k] && Scan(f[k..], n[k..])
  {
    if k > 0 && n != [] && f[0] == n[0] {
      assert f[..k][0] == f[0];
      assert f[1..][..k - 1] == f[..k][1..];
      ScanOrdinary(f[1..], n[1..], k - 1);
      assert FirstLevel(n) == 1 + FirstLevel(n[1..]);
      assert f[..k] == [f[0]] + f[1..][..k - 1];
      if FirstLevel(n) == k {
        assert n[..k] == [n[0]] + n[1..][..k - 1];
      }
    } else if k > 0 {
      assert f[..k][0] == f[0];
    }
  }

  /** The decision of Scan, level by level. */
  predicate LevelScan(filter: seq<seq<octet>>, name: seq<seq<octet>>) {
    if filter == [] then name == []
    else if filter == [[HASH]] then name != [] && name[0] != []
    else
      && name != []
      && (if filter[0] == [PLUS] then name[0] != [] else filter[0] == name[0])
      && LevelScan(filter[1..], name[1..])
  }

  lemma WellFormedTail(level: seq<octet>, rest: seq<seq<octet>>)
    requires WellFormedLevels([level] + rest) && rest != []
    ensures WellFormedLevels(rest) && (Ordinary(level) || level == [PLUS])
  {
    var levels := [level] + rest;
    assert levels[0] == level;
    forall i | 0 <= i < |rest|
      ensures Ordinary(rest[i]) || rest[i] == [PLUS] || (rest[i] == [HASH] && i == |rest| - 1)
    {
      assert levels[i + 1] == rest[i];
    }
  }

  lemma LevelsFromFirst(s: seq<octet>)
    ensures var k := FirstLevel(s);
            Levels(s) == [s[..k]] + (if k == |s| then [] else Levels(s[k + 1..]))
  {
    assert s[..|s|] == s;
  }

  /** A well-formed filter starts with a level and goes on well-formed. */
  lemma WellFormedFirst(f: seq<octet>)
    requires WellFormed(f) && f != [HASH]
    ensures var k := FirstLevel(f);
            (Ordinary(f[..k]) || f[..k] == [PLUS]) && (k < |f| ==> WellFormed(f[k + 1..]))
  {
    hide Ordinary, FirstLevel;
    var k := FirstLevel(f);
    LevelsFromFirst(f);
    if k < |f| {
      WellFormedTail(f[..k], Levels(f[k + 1..]));
    } else {
      assert f[..k] == f && Levels(f)[0] == f;
    }
  }

  /** After a matched level both strings end, or both go on with a separator. */
  lemma {:induction false} ScanSeparator(f: seq<octet>, n: seq<octet>)
    requires f == [] || f[0] == SLASH
    requires n == [] || n[0] == SLASH
    ensures Scan(f, n) <==> (f == [] && n == []) || (f != [] && n != [] && Scan(f[1..], n[1..]))
  {
  }

  /** One level of both strings. */
  lemma ScanOneLevel(f: seq<octet>, n: seq<octet>, k: nat, j: nat)
    requires k == FirstLevel(f) && j == FirstLevel(n) && (Ordinary(f[..k]) || f[..k] == [PLUS])
    ensures Scan(f, n) <==>
              (if f[..k] == [PLUS] then n[..j] != [] else f[..k] == n[..j]) && Scan(f[k..], n[j..])
  {
    hide Scan, FirstLevel;
    if f[..k] == [PLUS] {
      assert f[..k][0] == f[0];
      ScanPlus(f, n);
    } else {
      ScanOrdinary(f, n, k);
      if f[..k] == n[..j] {
        assert |f[..k]| == |n[..j]|;
      }
    }
  }

  lemma {:induction false} ScanLevels(f: seq<octet>, n: seq<octet>)
    requires WellFormed(f)
    ensures Scan(f, n) == LevelScan(Levels(f), Levels(n))
    decreases |f|
  {
    hide Scan, WellFormed, Ordinary, FirstLevel, Levels, LevelScan;
    var (k, j) := (FirstLevel(f), FirstLevel(n));
    LevelsFromFirst(n);
    if f == [HASH] {
      ScanHash(f, n);
      LevelScanHash(n[..j], Levels(n));
      LevelsOfHash();
    } else {
      WellFormedFirst(f);
      LevelsFromFirst(f);
      NotHash(f[..k]);
      ScanOneLevel(f, n, k, j);
      ScanSeparator(f[k..], n[j..]);
      if k < |f| {
        assert f[k..][1..] == f[k + 1..];
        if j < |n| {
          assert n[j..][1..] == n[j + 1..];
          ScanLevels(f[k + 1..], n[j + 1..]);
        }
      }
      LevelScanStep(f[..k], if k == |f| then [] else Levels(f[k + 1..]),
                    n[..j], if j == |n| then [] else Levels(n[j + 1..]));
    }
  }

  lemma NotHash(level: seq<octet>)
    requires Ordinary(level) || level == [PLUS]
    ensures level != [HASH]
  {
  }

  lemma LevelsOfHash()
    ensures Levels([HASH]) == [[HASH]]
  {
  }

  lemma LevelScanHash(first: seq<octet>, name: seq<seq<octet>>)
    requires name != [] && name[0] == first
    ensures LevelScan([[HASH]], name) <==> first != []
  {
  }

  lemma LevelScanStep(level: seq<octet>, filter: seq<seq<octet>>, first: seq<octet>, name: seq<seq<octet>>)
    requires level != [HASH]
    ensures LevelScan([level] + filter, [first] + name) <==>
              (if level == [PLUS] then first != [] else level == first)
              && (if filter == [] || name == [] then filter == [] && name == [] else LevelScan(filter, name))
  {
    var (fs, ns) := ([level] + filter, [first] + name);
    assert fs[0] == level && ns[0] == first && fs[1..] == filter && ns[1..] == name && fs != [[HASH]];
  }

  lemma ScanHash(f: seq<octet>, n: seq<octet>)
    requires f == [HASH]
    ensures Scan(f, n) <==> FirstLevel(n) > 0
  {
  }

  lemma ScanPlus(f: seq<octet>, n: seq<octet>)
    requires FirstLevel(f) == 1 && f[0] == PLUS
    ensures Scan(f, n) <==> FirstLevel(n) > 0 && Scan(f[1..], n[FirstLevel(n)..])
  {
  }

  /** LevelScan is the standard's rule except where a wildcard meets nothing. */
  lemma {:induction false} LevelScanIsMatch(filter: seq<seq<octet>>, name: seq<seq<octet>>)
    requires forall i :: 0 <= i < |filter| && filter[i] == [HASH] ==> i == |filter| - 1
    ensures LevelScan(filter, name) <==> Matches(filter, name) && !WildcardMeetsEmpty(filter, name)
  {
    if filter == [] {
    } else if filter == [[HASH]] {
      assert WildcardOnNothing(filter, name, 0) == (name == [] || name[0] == []);
    } else if name != [] {
      var (fs, ns) := (filter[1..], name[1..]);
      LevelScanIsMatch(fs, ns);
      forall i | 0 <= i < |fs|
        ensures WildcardOnNothing(fs, ns, i) == WildcardOnNothing(filter, name, i + 1)
      {
      }
      assert WildcardMeetsEmpty(filter, name) == (WildcardOnNothing(filter, name, 0) || WildcardMeetsEmpty(fs, ns)) by {
        if i :| 0 <= i < |filter| && WildcardOnNothing(filter, name, i) {
          assert i == 0 || WildcardOnNothing(fs, ns, i - 1);
        }
        if i :| 0 <= i < |fs| && WildcardOnNothing(fs, ns, i) {
          assert WildcardOnNothing(filter, name, i + 1);
        }
      }
    }
  }

  lemma ScanIsMatch(f: seq<octet>, n: seq<octet>)
    requires WellFormed(f)
    ensures Scan(f, n) <==> Matches(Levels(f), Levels(n)) && !WildcardMeetsEmpty(Levels(f), Levels(n))
  {
    ScanLevels(f, n);
    LevelScanIsMatch(Levels(f), Levels(n));
  }

  /** Without empty levels the only deviation is that `name/#` does not match `name` itself. */
  lemma ScanOnFullNames(f: seq<octet>, n: seq<octet>)
    requires WellFormed(f) && [] !in Levels(n)
    ensures var (fs, ns) := (Levels(f), Levels(n));
            Scan(f, n) <==> Matches(fs, ns) && !(|fs| == |ns| + 1 && fs[|ns|] == [HASH])
  {
    var (fs, ns) := (Levels(f), Levels(n));
    ScanIsMatch(f, n);
    if |fs| == |ns| + 1 && fs[|ns|] == [HASH] {
      assert WildcardOnNothing(fs, ns, |ns|);
    } else if Matches(fs, ns) {
      MatchLengths(fs, ns);
      forall i | 0 <= i < |fs|
        ensures !WildcardOnNothing(fs, ns, i)
      {
        assert i < |ns| ==> ns[i] in ns;
      }
    }
  }

  /** The filter `a/#` matches its parent `a` by the standard, and the code refuses it. */
  lemma ParentIsRefused()
    ensures var (f, n) := ([0x61, 0x2f, 0x23], [0x61]);
            WellFormed(f) && Matches(Levels(f), Levels(n)) && !Scan(f, n)
  {
    var (f, n) := ([0x61, 0x2f, 0x23], [0x61]);
    assert f[1..] == [SLASH, HASH] && f[2..] == [HASH] && f[..1] == [0x61] && n[1..] == [];
    assert FirstLevel(n) == 1 && FirstLevel(f) == 1;
    assert Levels(f) == [[0x61]] + Levels([HASH]) == [[0x61], [HASH]] && Levels(n) == [[0x61]];
    assert [[0x61], [HASH]][1..] == [[HASH]];
  }

  /** The filter `+/b` matches `/b`, whose first level is empty, and the code refuses it. */
  lemma EmptyLevelIsRefused()
    ensures var (f, n) := ([0x2b, 0x2f, 0x62], [0x2f, 0x62]);
            WellFormed(f) && Matches(Levels(f), Levels(n)) && !Scan(f, n)
  {
    var (f, n) := ([0x2b, 0x2f, 0x62], [0x2f, 0x62]);
    assert f[1..] == [0x2f, 0x62] && f[2..] == [0x62] && f[..1] == [PLUS] && n[1..] == [0x62] && n[..0] == [];
    assert FirstLevel([0x62]) == 1 && Levels([0x62]) == [[0x62]];
    assert Levels(f) == [[PLUS]] + Levels([0x62]) == [[PLUS], [0x62]];
    assert Levels(n) == [[]] + Levels([0x62]) == [[], [0x62]];
    assert [[PLUS], [0x62]][1..] == [[0x62]] && [[], [0x62]][1..] == [[0x62]];
  }

  /** A matching name has at most one level less than the filter, and then the filter ends in `#`. */
  lemma {:induction false} MatchLengths(filter: seq<seq<octet>>, name: seq<seq<octet>>)
    requires Matches(filter, name)
    ensures |filter| <= |name| || (|filter| == |name| + 1 && filter[|name|] == [HASH])
  {
    if filter != [] && filter != [[HASH]] {
      MatchLengths(filter[1..], name[1..]);
    }
  }

  // ---------- deliverMessage ----------

  const MAX_MESSAGE_HANDLERS := 5

  const SUCCESS := 0
  const FAILURE := -1

  /** A registration; functions and their arguments are known by numbers. */
  datatype MessageHandler = MessageHandler(arg: nat, topicFilter: Option<CString>, fp: Option<nat>)

  datatype Call<M> = Handler(fp: nat, arg: nat, topic: MqttString, message: M)
                   | Default(fp: nat, topic: MqttString, message: M)

  /** MQTTPacket_equals. */
  function Text(s: MqttString): seq<octet> {
    if s.cstring.Some? then s.cstring.value else s.Counted()
  }

  /** A filter accepts the topic if it equals or matches it; the matcher looks at the counted form only. */
  predicate Accepts(filter: CString, topic: MqttString) {
    Text(topic) == filter || Scan(filter, topic.Counted())
  }

  predicate Selected(h: MessageHandler, topic: MqttString) {
    h.topicFilter.Some? && h.fp.Some? && Accepts(h.topicFilter.value, topic)
  }

  /** One call for every selected registration, in the order of the table. */
  function HandlerCalls<M>(hs: seq<MessageHandler>, topic: MqttString, message: M): seq<Call<M>> {
    if hs == [] then []
    else
      var h := hs[|hs| - 1];
      HandlerCalls(hs[..|hs| - 1], topic, message)
        + (if Selected(h, topic) then [Handler(h.fp.value, h.arg, topic, message)] else [])
  }

  /** The first slot without a filter. */
  function FirstFree(hs: seq<MessageHandler>): (k: nat)
    ensures k <= |hs| && (k < |hs| ==> hs[k].topicFilter == None)
    ensures forall j :: 0 <= j < k ==> hs[j].topicFilter != None
  {
    if hs == [] || hs[0].topicFilter == None then 0 else 1 + FirstFree(hs[1..])
  }

  class Client<M> {
    const messageHandlers: array<MessageHandler>
    var defaultMessageHandler: Option<nat>
    /** The handler calls made so far. */
    var calls: seq<Call<M>>

    predicate Valid()
      reads this
    {
      messageHandlers.Length == MAX_MESSAGE_HANDLERS
    }

    constructor ()
      ensures Valid() && fresh(messageHandlers)
      ensures forall i :: 0 <= i < MAX_MESSAGE_HANDLERS ==> messageHandlers[i].topicFilter == None
      ensures defaultMessageHandler == None && calls == []
    {
      messageHandlers := new MessageHandler[MAX_MESSAGE_HANDLERS](_ => MessageHandler(0, None, None));
      defaultMessageHandler := None;
      calls := [];
    }

    /** The part of MQTTSubscribe that takes the first free slot; without one nothing happens. */
    method Register(topicFilter: CString, fp: Option<nat>, arg: nat) returns (done: bool)
      requires Valid()
      modifies messageHandlers
      ensures var k := FirstFree(old(messageHandlers[..]));
              && done == (k < MAX_MESSAGE_HANDLERS)
              && messageHandlers[..] ==
                 if done then old(messageHandlers[..])[k := MessageHandler(arg, Some(topicFilter), fp)]
                 else old(messageHandlers[..])
    {
      var i := 0;
      done := false;
      ghost var before := messageHandlers[..];
      while i < MAX_MESSAGE_HANDLERS
        invariant 0 <= i <= MAX_MESSAGE_HANDLERS
        invariant messageHandlers[..] == before
        invariant FirstFree(before) >= i
      {
        if messageHandlers[i].topicFilter == None {
          messageHandlers[i] := MessageHandler(arg, Some(topicFilter), fp);
          assert messageHandlers[..] == before[i := MessageHandler(arg, Some(topicFilter), fp)];
          return true;
        }
        i := i + 1;
      }
    }

    /** Exactly the selected handlers run, in order, and the default handler only if there are none. */
    method DeliverMessage(topic: MqttString, message: M) returns (rc: int)
      requires Valid()
      modifies this`calls
      ensures var own := HandlerCalls(messageHandlers[..], topic, message);
              && (own != [] ==> rc == SUCCESS && calls == old(calls) + own)
              && (own == [] && defaultMessageHandler.Some? ==>
                    rc == SUCCESS && calls == old(calls) + [Default(defaultMessageHandler.value, topic, message)])
              && (own == [] && defaultMessageHandler.None? ==> rc == FAILURE && calls == old(calls))
    {
      rc := FAILURE;
      var i := 0;
      while i < MAX_MESSAGE_HANDLERS
        invariant 0 <= i <= MAX_MESSAGE_HANDLERS
        invariant calls == old(calls) + HandlerCalls(messageHandlers[..i], topic, message)
        invariant rc == if HandlerCalls(messageHandlers[..i], topic, message) == [] then FAILURE else SUCCESS
      {
        var h := messageHandlers[i];
        assert messageHandlers[..i + 1][..i] == messageHandlers[..i];
        if h.topicFilter != None {
          var accepted := Text(topic) == h.topicFilter.value;
          if !accepted {
            accepted := IsTopicMatched(h.topicFilter.value, topic.Counted());
          }
          if accepted && h.fp != None {
            calls := calls + [Handler(h.fp.value, h.arg, topic, message)];
            rc := SUCCESS;
          }
        }
        i := i + 1;
      }
      assert messageHandlers[..MAX_MESSAGE_HANDLERS] == messageHandlers[..];
      if rc == FAILURE && defaultMessageHandler != None {
        calls := calls + [Default(defaultMessageHandler.value, topic, message)];
        rc := SUCCESS;
      }
    }
  }

  /** A call is made for a function and its argument exactly if a selected registration has them. */
  lemma {:induction false} CalledIffSelected<M>(hs: seq<MessageHandler>, topic: MqttString, message: M, fp: nat,
                                                arg: nat)
    ensures Handler(fp, arg, topic, message) in HandlerCalls(hs, topic, message)
       <==> exists i :: 0 <= i < |hs| && Selected(hs[i], topic) && hs[i].fp == Some(fp) && hs[i].arg == arg
  {
    if hs != [] {
      CalledIffSelected(hs[..|hs| - 1], topic, message, fp, arg);
    }
  }

  /** The calls, one by one: call `k` is made for the k-th selected registration of the table. */
  lemma {:induction false} CallsInOrder<M>(hs: seq<MessageHandler>, topic: MqttString, message: M)
    returns (ks: seq<nat>)
    ensures |ks| == |HandlerCalls(hs, topic, message)|
    ensures forall a, b :: 0 <= a < b < |ks| ==> ks[a] < ks[b]
    ensures forall i :: i in ks <==> 0 <= i < |hs| && Selected(hs[i], topic)
    ensures forall k :: 0 <= k < |ks| ==>
              && ks[k] < |hs| && Selected(hs[ks[k]], topic)
              && HandlerCalls(hs, topic, message)[k] == Handler(hs[ks[k]].fp.value, hs[ks[k]].arg, topic, message)
  {
    hide Accepts;
    ks := [];
    if hs != [] {
      var n := |hs| - 1;
      ks := CallsInOrder(hs[..n], topic, message);
      if Selected(hs[n], topic) {
        assert forall k :: 0 <= k < |ks| ==> ks[k] in ks;
        ks := ks + [n];
      }
    }
  }

  /** As many calls as selected registrations. */
  lemma {:induction false} NumberOfCalls<M>(hs: seq<MessageHandler>, topic: MqttString, message: M)
    ensures |HandlerCalls(hs, topic, message)| == |set i: nat | i < |hs| && Selected(hs[i], topic)|
  {
    hide Selected;
    if hs != [] {
      var n := |hs| - 1;
      var front := set i: nat | i < n && Selected(hs[i], topic);
      NumberOfCalls(hs[..n], topic, message);
      assert front == set i: nat | i < |hs[..n]| && Selected(hs[..n][i], topic);
      var all := set i: nat | i < |hs| && Selected(hs[i], topic);
      assert all == if Selected(hs[n], topic) then front + {n} else front;
    }
  }

  /** Which registrations are selected, by the rules of section 4.7.1 where the filter is well-formed. */
  lemma SelectedIff(h: MessageHandler, topic: MqttString)
    requires h.topicFilter.Some? && WellFormed(h.topicFilter.value)
    ensures var (f, name) := (h.topicFilter.value, topic.Counted());
            Selected(h, topic) <==>
              && h.fp.Some?
              && ((topic.cstring.Some? && topic.cstring.value == f)
                  || (Matches(Levels(f), Levels(name)) && !WildcardMeetsEmpty(Levels(f), Levels(name))))
  {
    var f := h.topicFilter.value;
    ScanIsMatch(f, topic.Counted());
    if topic.cstring.None? {
      EqualityIsRedundant(f, topic);
    }
    hide Scan, Matches, WildcardMeetsEmpty, Levels, WellFormed;
  }

  /** For a well-formed filter and a counted topic the separate equality test adds nothing. */
  lemma EqualityIsRedundant(filter: CString, topic: MqttString)
    requires WellFormed(filter) && topic.cstring == None
    ensures Accepts(filter, topic) == Scan(filter, topic.Counted())
  {
    if Text(topic) == filter {
      var levels := Levels(filter);
      MatchesItself(levels);
      NoEmptyWildcard(levels);
      ScanIsMatch(filter, filter);
    }
  }

  lemma {:induction false} MatchesItself(levels: seq<seq<octet>>)
    ensures Matches(levels, levels)
  {
    if levels != [] {
      MatchesItself(levels[1..]);
    }
  }

  lemma NoEmptyWildcard(levels: seq<seq<octet>>)
    ensures !WildcardMeetsEmpty(levels, levels)
  {
  }
}
