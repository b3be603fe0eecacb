// The route-scoped answer cache: entries with a TTL, eviction of the oldest,
// and answers kept both parsed and serialised. Every operation is one atomic
// step at an explicit time in nanoseconds.

module Cache {
  import opened Types
  import opened Names
  import opened RecordTypes
  import opened Records
  import opened Message

  datatype Route = China | Foreign | Bootstrap | Fallback

  // What a lookup names: the hashed triple.
  datatype CacheQuery = CacheQuery(route: Route, qtype: QType, name: Name)

  // 128-bit hash values.
  type CacheKey = nat

  datatype CacheConfig = CacheConfig(maxEntries: nat, minTtl: u32, maxTtl: u32, negativeTtl: u32) {
    // What clamping demands of the configuration.
    predicate Ordered() {
      minTtl <= maxTtl
    }

    function Clamp(ttl: u32): u32 {
      if ttl < minTtl then minTtl else if ttl > maxTtl then maxTtl else ttl
    }
  }

  // ---------- stored answers ----------

  datatype CachedResponse = CachedResponse(wire: bytes, message: Message) {
    // The wire form with the two id bytes overwritten.
    function WireWithId(id: u16): bytes
      requires |wire| >= 2
    {
      wire[0 := id / 0x100][1 := id % 0x100]
    }
  }

  ghost function Respond(m: Message): CachedResponse {
    CachedResponse(MessageBytes(m), m)
  }

  method NewResponse(m: Message) returns (r: CachedResponse)
    ensures r == Respond(m)
  {
    var stored := new DnsMessage.Of(m);
    var wire := stored.ToWire();
    r := CachedResponse(wire, m);
  }

  // Patching the id of a stored answer sends what encoding the message with its
  // header id replaced would send.
  lemma FastHitIsSimpleHit(m: Message, id: u16)
    ensures |Respond(m).wire| >= 2
    ensures Respond(m).WireWithId(id) == MessageBytes(WithId(Respond(m).message, id))
  {
    IdPatch(m, id);
  }

  // A patched hit decodes to the stored message under the new id exactly when
  // the stored message is well formed.
  lemma FastHitDecodesIff(m: Message, id: u16)
    ensures |Respond(m).wire| >= 2
    ensures Decode(Respond(m).WireWithId(id)) == Ok(WithId(m, id)) <==> WfMessage(m)
  {
    hide MessageBytes, Decode, AllWf, AllWfQuestions;
    FastHitIsSimpleHit(m, id);
    MessageRoundTripIff(WithId(m, id));
    assert WfMessage(WithId(m, id)) == WfMessage(m);
  }

  datatype CacheEntry = CacheEntry(response: CachedResponse, insertedAt: nat, ttlSecs: u32) {
    // Whole seconds elapsed, none if the clock reads earlier.
    predicate Expired(now: nat) {
      (if now >= insertedAt then (now - insertedAt) / NANOS else 0) >= ttlSecs as int
    }
  }

  // An entry lives for its TTL in seconds from its insertion, not at all with a
  // TTL of zero.
  lemma ExpiredIff(entry: CacheEntry, now: nat)
    ensures entry.Expired(now) <==> entry.ttlSecs == 0 || now >= entry.insertedAt + entry.ttlSecs as int * 1_000_000_000
  {
    if now >= entry.insertedAt {
      var elapsed, ttl := now - entry.insertedAt, entry.ttlSecs as int;
      assert elapsed == elapsed / NANOS * NANOS + elapsed % NANOS;
      if elapsed / NANOS >= ttl {
        assert elapsed / NANOS * NANOS >= ttl * NANOS;
      } else {
        assert (elapsed / NANOS + 1) * NANOS <= ttl * NANOS;
      }
    }
  }

  // Clamping stays within the bounds and leaves what lies within them.
  lemma ClampLaw(config: CacheConfig, ttl: u32)
    requires config.Ordered()
    ensures config.minTtl <= config.Clamp(ttl) <= config.maxTtl
    ensures config.Clamp(ttl) == ttl <==> config.minTtl <= ttl <= config.maxTtl
    ensures ttl <= config.minTtl ==> config.Clamp(ttl) == config.minTtl
    ensures ttl >= config.maxTtl ==> config.Clamp(ttl) == config.maxTtl
    ensures config.Clamp(config.Clamp(ttl)) == config.Clamp(ttl)
  {
  }

  const NANOS: nat := 1_000_000_000
  const COUNTER: nat := 0x1_0000_0000_0000_0000

  // The least TTL of the records, 0 when there are none.
  function MinTtl(rs: seq<ResourceRecord>): u32 {
    if rs == [] then 0
    else if |rs| == 1 then rs[0].ttl
    else
      var rest := MinTtl(rs[1..]);
      if rs[0].ttl <= rest then rs[0].ttl else rest
  }

  lemma {:induction false} MinTtlIsLeast(rs: seq<ResourceRecord>)
    requires rs != []
    ensures forall i | 0 <= i < |rs| :: MinTtl(rs) <= rs[i].ttl
    ensures exists i :: 0 <= i < |rs| && rs[i].ttl == MinTtl(rs)
  {
    if |rs| > 1 {
      MinTtlIsLeast(rs[1..]);
      var i :| 0 <= i < |rs[1..]| && rs[1..][i].ttl == MinTtl(rs[1..]);
      assert rs[i + 1].ttl == MinTtl(rs[1..]);
      forall j | 0 <= j < |rs| ensures MinTtl(rs) <= rs[j].ttl {
        if j > 0 {
          assert rs[1..][j - 1] == rs[j];
        }
      }
    }
  }

  // The first answer's TTL is the one used exactly when it is the least.
  lemma FirstTtlIff(rs: seq<ResourceRecord>)
    requires rs != []
    ensures MinTtl(rs) == rs[0].ttl <==> forall i | 0 <= i < |rs| :: rs[0].ttl <= rs[i].ttl
  {
    MinTtlIsLeast(rs);
  }

  function WithTtls(rs: seq<ResourceRecord>, ttl: u32): (r: seq<ResourceRecord>)
    ensures |r| == |rs|
    ensures forall i | 0 <= i < |rs| :: r[i] == rs[i].(ttl := ttl)
  {
    seq(|rs|, i requires 0 <= i < |rs| => rs[i].(ttl := ttl))
  }

  // ---------- operations as steps between states ----------

  datatype State = State(entries: map<CacheKey, CacheEntry>, hits: nat, misses: nat, evictions: nat)

  const EMPTY: State := State(map[], 0, 0, 0)

  datatype Op =
    | Get(q: CacheQuery)
    | Insert(q: CacheQuery, message: Message)
    | InsertTtl(q: CacheQuery, message: Message, ttl: u32)
    | InsertNegative(q: CacheQuery, message: Message)
    | Clear
  {
    predicate Positive() {
      Insert? || InsertTtl?
    }

    predicate Stores(what: CacheQuery) {
      (Insert? || InsertTtl? || InsertNegative?) && q == what
    }
  }

  // An operation, when it ran, and what it returned.
  datatype Event = Event(now: nat, op: Op, result: Option<CachedResponse>)

  // The TTL an insertion asks for, before the configured bounds.
  function RequestedTtl(op: Op): u32
    requires op.Positive()
  {
    if op.Insert? then MinTtl(op.message.answers) else op.ttl
  }

  // What an insertion leaves behind.
  ghost function EntryOf(config: CacheConfig, e: Event): CacheEntry
    requires e.op.Positive() || e.op.InsertNegative?
  {
    if e.op.InsertNegative? then CacheEntry(Respond(e.op.message), e.now, config.negativeTtl)
    else
      var ttl := config.Clamp(RequestedTtl(e.op));
      CacheEntry(Respond(e.op.message.(answers := WithTtls(e.op.message.answers, ttl))), e.now, ttl)
  }

  // An insertion stores the first answer's TTL, within the bounds, exactly when
  // no answer has a smaller one or the bounds make no difference between the two.
  lemma DocumentedTtlIff(config: CacheConfig, q: CacheQuery, m: Message, now: nat)
    requires config.Ordered() && m.answers != []
    ensures EntryOf(config, Event(now, Insert(q, m), None)).ttlSecs == config.Clamp(m.answers[0].ttl) <==>
            || (forall i | 0 <= i < |m.answers| :: m.answers[0].ttl <= m.answers[i].ttl)
            || m.answers[0].ttl <= config.minTtl
            || config.maxTtl <= MinTtl(m.answers)
            || config.minTtl == config.maxTtl
  {
    hide WithTtls;
    MinTtlIsLeast(m.answers);
    FirstTtlIff(m.answers);
  }

  // Under bounds of 0 and 10, answers with TTLs 2 and 1 are stored with 1.
  lemma DocumentedTtlIsNotUsed(q: CacheQuery, m: Message, r: ResourceRecord, now: nat)
    ensures var config := CacheConfig(1, 0, 10, 0);
            var two := m.(answers := [r.(ttl := 2), r.(ttl := 1)]);
            && EntryOf(config, Event(now, Insert(q, two), None)).ttlSecs == 1
            && config.Clamp(two.answers[0].ttl) == 2
  {
    hide WithTtls, MinTtl;
    var rs := [r.(ttl := 2), r.(ttl := 1)];
    MinTtlIsLeast(rs);
    assert rs[1].ttl == 1;
  }

  // ---------- when a rewritten answer decodes ----------

  predicate OptTtlsAre(rs: seq<ResourceRecord>, ttl: u32) {
    forall i | 0 <= i < |rs| :: rs[i].rdata.OPT? ==> rs[i].ttl == ttl
  }

  // Rewriting the TTL of a well-formed record breaks it exactly when it is an
  // OPT record with another TTL, whose fields no longer agree with it.
  lemma RewrittenRecordIff(r: ResourceRecord, ttl: u32)
    requires WfRecord(r)
    ensures WfRecord(r.(ttl := ttl)) <==> (r.rdata.OPT? ==> r.ttl == ttl)
  {
    hide WfRData, RDataBytes, RecordType.Canonical, RecordClass.Canonical, RecordClass.FromU16, OptFrom;
    if r.rdata.OPT? {
      OptTtlKept(r.ttl, r.rdata.opt.udpPayloadSize, r.rdata.opt.options);
      OptTtlKept(ttl, r.rdata.opt.udpPayloadSize, r.rdata.opt.options);
    }
  }

  lemma RewrittenIsWfIff(m: Message, ttl: u32)
    requires WfMessage(m)
    ensures WfMessage(m.(answers := WithTtls(m.answers, ttl))) <==> OptTtlsAre(m.answers, ttl)
  {
    hide WfRecord, WfQuestion;
    var rs := WithTtls(m.answers, ttl);
    forall i | 0 <= i < |rs| ensures WfRecord(rs[i]) <==> (m.answers[i].rdata.OPT? ==> m.answers[i].ttl == ttl) {
      assert WfRecord(m.answers[i]);
      RewrittenRecordIff(m.answers[i], ttl);
    }
  }

  // A positive insertion of a well-formed message is later sent, under any id,
  // in bytes that decode to what was stored exactly when every OPT answer
  // already had the TTL it is stored with.
  lemma PositiveHitDecodesIff(config: CacheConfig, e: Event, id: u16)
    requires e.op.Positive() && WfMessage(e.op.message)
    ensures var entry := EntryOf(config, e);
            |entry.response.wire| >= 2 &&
            (Decode(entry.response.WireWithId(id)) == Ok(WithId(entry.response.message, id)) <==>
             OptTtlsAre(e.op.message.answers, entry.ttlSecs))
  {
    hide WfMessage, Decode, MessageBytes, WithTtls, MinTtl, CachedResponse.WireWithId, OptTtlsAre;
    var entry := EntryOf(config, e);
    FastHitDecodesIff(entry.response.message, id);
    RewrittenIsWfIff(e.op.message, entry.ttlSecs);
  }

  // The TTL an insertion is stored with.
  function StoredTtl(config: CacheConfig, op: Op): u32
    requires op.Positive() || op.InsertNegative?
  {
    if op.InsertNegative? then config.negativeTtl else config.Clamp(RequestedTtl(op))
  }

  // A negative insertion is stored with the configured TTL, any other with the
  // TTL given or the least of its answers' TTLs, moved to the nearer bound if it
  // lies outside, and with the lower bound if there is no answer.
  lemma StoredTtlLaw(config: CacheConfig, op: Op)
    requires config.Ordered() && (op.Positive() || op.InsertNegative?)
    ensures op.InsertNegative? ==> StoredTtl(config, op) == config.negativeTtl
    ensures op.InsertTtl? && config.minTtl <= op.ttl <= config.maxTtl ==> StoredTtl(config, op) == op.ttl
    ensures op.InsertTtl? && op.ttl < config.minTtl ==> StoredTtl(config, op) == config.minTtl
    ensures op.InsertTtl? && op.ttl > config.maxTtl ==> StoredTtl(config, op) == config.maxTtl
    ensures op.Insert? && op.message.answers == [] ==> StoredTtl(config, op) == config.minTtl
    ensures op.Insert? && op.message.answers != [] ==>
              exists i :: 0 <= i < |op.message.answers|
                && StoredTtl(config, op) == StoredTtl(config, InsertTtl(op.q, op.message, op.message.answers[i].ttl))
                && forall j | 0 <= j < |op.message.answers| :: op.message.answers[i].ttl <= op.message.answers[j].ttl
  {
    if op.Insert? && op.message.answers != [] {
      MinTtlIsLeast(op.message.answers);
      var i :| 0 <= i < |op.message.answers| && op.message.answers[i].ttl == MinTtl(op.message.answers);
      assert StoredTtl(config, op) == StoredTtl(config, InsertTtl(op.q, op.message, op.message.answers[i].ttl));
    }
  }

  // What an insertion leaves carries its clock reading and that TTL.
  lemma EntryExpiredIff(config: CacheConfig, e: Event, now: nat)
    requires e.op.Positive() || e.op.InsertNegative?
    ensures EntryOf(config, e).Expired(now) <==>
            StoredTtl(config, e.op) == 0 || now >= e.now + StoredTtl(config, e.op) as int * 1_000_000_000
  {
    hide CacheEntry.Expired, WithTtls, MinTtl, CacheConfig.Clamp;
    ExpiredIff(EntryOf(config, e), now);
  }

  ghost predicate Oldest(entries: map<CacheKey, CacheEntry>, k: CacheKey) {
    k in entries && forall j | j in entries :: entries[k].insertedAt <= entries[j].insertedAt
  }

  ghost predicate SomeBefore(entries: map<CacheKey, CacheEntry>, now: nat) {
    exists k :: k in entries && entries[k].insertedAt < now
  }

  // One entry with the least insertion time goes, unless all are as new as now.
  ghost predicate Evicts(s: State, now: nat, s': State) {
    if SomeBefore(s.entries, now)
    then exists k :: Oldest(s.entries, k) && s' == EvictKey(s, k)
    else s' == s
  }

  ghost function EvictKey(s: State, k: CacheKey): State {
    s.(entries := s.entries - {k}, evictions := (s.evictions + 1) % COUNTER)
  }

  ghost predicate MakesRoom(config: CacheConfig, s: State, now: nat, s': State) {
    if |s.entries| >= config.maxEntries then Evicts(s, now, s') else s' == s
  }

  ghost function Put(s: State, k: CacheKey, e: CacheEntry): State {
    s.(entries := s.entries[k := e])
  }

  ghost predicate Step(config: CacheConfig, hash: CacheQuery -> CacheKey, s: State, e: Event, s': State) {
    match e.op
    case Get(q) =>
      var k := hash(q);
      if k in s.entries && !s.entries[k].Expired(e.now)
      then e.result == Some(s.entries[k].response) && s' == s.(hits := (s.hits + 1) % COUNTER)
      else e.result == None && s' == s.(entries := s.entries - {k}, misses := (s.misses + 1) % COUNTER)
    case Clear => e.result == None && s' == s.(entries := map[])
    case InsertNegative(q, _) => e.result == None && s' == Put(s, hash(q), EntryOf(config, e))
    case _ =>
      e.result == None
      && exists room :: MakesRoom(config, s, e.now, room) && s' == Put(room, hash(e.op.q), EntryOf(config, e))
  }

  // A hit leaves the entries alone; a miss takes what stood under its key, and
  // nothing else.
  lemma LookupEffect(config: CacheConfig, hash: CacheQuery -> CacheKey, s: State, e: Event, s': State)
    requires Step(config, hash, s, e, s') && e.op.Get?
    ensures e.result.Some? ==> hash(e.op.q) in s.entries && s'.entries == s.entries
    ensures e.result.None? ==> hash(e.op.q) !in s'.entries
    ensures forall k | k != hash(e.op.q) :: k in s'.entries <==> k in s.entries
    ensures forall k | k != hash(e.op.q) && k in s.entries :: s'.entries[k] == s.entries[k]
  {
    hide CacheEntry.Expired;
  }

  // ---------- runs and the log ----------

  ghost predicate Run(config: CacheConfig, hash: CacheQuery -> CacheKey, log: seq<Event>, states: seq<State>) {
    && |states| == |log| + 1 && states[0] == EMPTY
    && forall i | 0 <= i < |log| :: Step(config, hash, states[i], log[i], states[i + 1])
  }

  // No two of the queries in play share a key.
  ghost predicate CollisionFree(hash: CacheQuery -> CacheKey, play: set<CacheQuery>) {
    forall q, r | q in play && r in play :: hash(q) == hash(r) ==> q == r
  }

  ghost predicate PlaysIn(log: seq<Event>, play: set<CacheQuery>) {
    forall i | 0 <= i < |log| :: log[i].op.Clear? || log[i].op.q in play
  }

  // The latest insertion for a query since the last clear.
  function Latest(log: seq<Event>, q: CacheQuery): (r: Option<nat>)
    ensures r.Some? ==> r.value < |log| && log[r.value].op.Stores(q)
  {
    if log == [] then None
    else
      var last := |log| - 1;
      if log[last].op.Clear? then None
      else if log[last].op.Stores(q) then Some(last)
      else Latest(log[..last], q)
  }

  predicate LatestAt(log: seq<Event>, q: CacheQuery, j: nat) {
    && j < |log| && log[j].op.Stores(q)
    && forall i | j < i < |log| :: !log[i].op.Clear? && !log[i].op.Stores(q)
  }

  lemma {:induction false} LatestIsLast(log: seq<Event>, q: CacheQuery, j: nat)
    ensures Latest(log, q) == Some(j) <==> LatestAt(log, q, j)
    decreases |log|
  {
    if log != [] {
      var last := |log| - 1;
      if !log[last].op.Clear? && !log[last].op.Stores(q) {
        LatestIsLast(log[..last], q, j);
        if LatestAt(log[..last], q, j) {
          assert forall i | j < i < last :: log[..last][i] == log[i];
        }
        if LatestAt(log, q, j) {
          assert forall i | j < i < last :: log[..last][i] == log[i];
        }
      }
    }
  }

  // An entry found under a query's key is what its latest insertion stored.
  ghost predicate Logged(config: CacheConfig, hash: CacheQuery -> CacheKey, log: seq<Event>, s: State, q: CacheQuery) {
    hash(q) in s.entries ==>
      Latest(log, q).Some? && s.entries[hash(q)] == EntryOf(config, log[Latest(log, q).value])
  }

  lemma LatestSnoc(log: seq<Event>, e: Event, q: CacheQuery)
    ensures Latest(log + [e], q) ==
            if e.op.Clear? then None else if e.op.Stores(q) then Some(|log|) else Latest(log, q)
  {
    assert (log + [e])[..|log|] == log;
  }

  lemma LoggedStep(config: CacheConfig, hash: CacheQuery -> CacheKey, play: set<CacheQuery>,
                   log: seq<Event>, s: State, e: Event, s': State, q: CacheQuery)
    requires CollisionFree(hash, play) && q in play && (e.op.Clear? || e.op.q in play)
    requires Logged(config, hash, log, s, q) && Step(config, hash, s, e, s')
    ensures Logged(config, hash, log + [e], s', q)
  {
    hide EntryOf;
    LatestSnoc(log, e, q);
  }

  lemma {:induction false} EntriesAreLogged(config: CacheConfig, hash: CacheQuery -> CacheKey, play: set<CacheQuery>,
                                            log: seq<Event>, states: seq<State>, n: nat, q: CacheQuery)
    requires Run(config, hash, log, states) && CollisionFree(hash, play) && PlaysIn(log, play)
    requires q in play && n <= |log|
    ensures Logged(config, hash, log[..n], states[n], q)
    decreases n
  {
    hide Step;
    if n > 0 {
      EntriesAreLogged(config, hash, play, log, states, n - 1, q);
      LoggedStep(config, hash, play, log[..n - 1], states[n - 1], log[n - 1], states[n], q);
      TakeOneMore(log, n - 1);
    }
  }

  ghost predicate ClockAdvances(log: seq<Event>, strictly: bool) {
    forall i, j | 0 <= i < j < |log| :: log[i].now < log[j].now || (!strictly && log[i].now == log[j].now)
  }

  // A hit is what the latest insertion for exactly this triple stored, no older
  // than its TTL, with every answer TTL of a positive insertion set to the
  // requested TTL within the configured bounds.
  lemma HitIsLatest(config: CacheConfig, hash: CacheQuery -> CacheKey, play: set<CacheQuery>,
                    log: seq<Event>, states: seq<State>, n: nat)
    returns (j: nat)
    requires Run(config, hash, log, states) && CollisionFree(hash, play) && PlaysIn(log, play)
    requires n < |log| && log[n].op.Get? && log[n].result.Some?
    ensures LatestAt(log[..n], log[n].op.q, j) && log[j].op.Stores(log[n].op.q)
    ensures StoredTtl(config, log[j].op) > 0
    ensures log[n].now < log[j].now + StoredTtl(config, log[j].op) as int * 1_000_000_000
    ensures var r, stored := log[n].result.value, log[j].op;
            && r.wire == MessageBytes(r.message)
            && if stored.InsertNegative? then r.message == stored.message
               else
                 && r.message == stored.message.(answers := r.message.answers)
                 && |r.message.answers| == |stored.message.answers|
                 && forall i | 0 <= i < |r.message.answers| ::
                      r.message.answers[i] == stored.message.answers[i].(ttl := StoredTtl(config, stored))
  {
    hide WithTtls;
    var q := log[n].op.q;
    EntriesAreLogged(config, hash, play, log, states, n, q);
    assert Step(config, hash, states[n], log[n], states[n + 1]);
    j := Latest(log[..n], q).value;
    LatestIsLast(log[..n], q, j);
    assert log[..n][j] == log[j];
    EntryExpiredIff(config, log[j], log[n].now);
  }

  // ---------- when a fresh answer is missing ----------

  // An insertion for another query that made this key go.
  ghost predicate Taken(log: seq<Event>, states: seq<State>, k: CacheKey, i: nat)
    requires |states| == |log| + 1
  {
    i < |log| && log[i].op.Positive() && k in states[i].entries && k !in states[i + 1].entries
  }

  // One step under the key of a query it neither stores nor clears.
  lemma OtherStep(config: CacheConfig, hash: CacheQuery -> CacheKey, s: State, e: Event, s': State, q: CacheQuery)
    requires Step(config, hash, s, e, s') && !e.op.Clear? && !e.op.Stores(q)
    requires e.op.q != q ==> hash(e.op.q) != hash(q)
    ensures hash(q) in s'.entries ==> hash(q) in s.entries && s'.entries[hash(q)] == s.entries[hash(q)]
    ensures hash(q) in s.entries && hash(q) !in s'.entries && !e.op.Positive() ==> s.entries[hash(q)].Expired(e.now)
  {
    hide EntryOf;
  }

  lemma {:induction false} PresentUnlessTaken(config: CacheConfig, hash: CacheQuery -> CacheKey, play: set<CacheQuery>,
                                              log: seq<Event>, states: seq<State>,
                                              q: CacheQuery, j: nat, n: nat, now: nat)
    requires Run(config, hash, log, states) && CollisionFree(hash, play) && PlaysIn(log, play) && q in play
    requires n <= |log| && LatestAt(log[..n], q, j) && !EntryOf(config, log[j]).Expired(now)
    requires forall i | 0 <= i < n :: log[i].now <= now
    ensures hash(q) in states[n].entries <==> !exists i :: j < i < n && Taken(log, states, hash(q), i)
    ensures hash(q) in states[n].entries ==> states[n].entries[hash(q)] == EntryOf(config, log[j])
    decreases n
  {
    hide EntryOf;
    var last := n - 1;
    var e := log[last];
    assert log[..n][j] == log[j] && log[..n][last] == e;
    assert Step(config, hash, states[last], e, states[n]);
    if j < last {
      forall i | j < i < last ensures !log[..last][i].op.Clear? && !log[..last][i].op.Stores(q) {
        assert log[..n][i] == log[i];
      }
      PresentUnlessTaken(config, hash, play, log, states, q, j, last, now);
      OtherStep(config, hash, states[last], e, states[n], q);
      FreshWasFresh(EntryOf(config, log[j]), e.now, now);
      if hash(q) in states[last].entries && hash(q) !in states[n].entries {
        assert Taken(log, states, hash(q), last);
      }
    } else {
      StoredAt(config, hash, states[last], e, states[n], q);
    }
  }

  lemma FreshWasFresh(entry: CacheEntry, before: nat, now: nat)
    requires before <= now && !entry.Expired(now)
    ensures !entry.Expired(before)
  {
    if before >= entry.insertedAt {
      assert (before - entry.insertedAt) / NANOS <= (now - entry.insertedAt) / NANOS;
    }
  }

  lemma StoredAt(config: CacheConfig, hash: CacheQuery -> CacheKey, s: State, e: Event, s': State, q: CacheQuery)
    requires Step(config, hash, s, e, s') && e.op.Stores(q)
    ensures hash(q) in s'.entries && s'.entries[hash(q)] == EntryOf(config, e)
  {
    hide EntryOf;
  }

  // A lookup whose latest insertion is still fresh misses exactly when some
  // later insertion for another query took the entry away; otherwise it returns
  // what that insertion stored.
  lemma FreshMissIff(config: CacheConfig, hash: CacheQuery -> CacheKey, play: set<CacheQuery>,
                     log: seq<Event>, states: seq<State>, n: nat, j: nat)
    requires Run(config, hash, log, states) && CollisionFree(hash, play) && PlaysIn(log, play)
    requires ClockAdvances(log, false)
    requires n < |log| && log[n].op.Get? && LatestAt(log[..n], log[n].op.q, j) && log[j].op.Stores(log[n].op.q)
    requires StoredTtl(config, log[j].op) > 0
    requires log[n].now < log[j].now + StoredTtl(config, log[j].op) as int * 1_000_000_000
    ensures log[n].result == None <==> exists i :: j < i < n && Taken(log, states, hash(log[n].op.q), i)
    ensures log[n].result.Some? ==> log[n].result.value == EntryOf(config, log[j]).response
  {
    hide EntryOf;
    EntryExpiredIff(config, log[j], log[n].now);
    PresentUnlessTaken(config, hash, play, log, states, log[n].op.q, j, n, log[n].now);
    assert Step(config, hash, states[n], log[n], states[n + 1]);
  }

  ghost predicate NeverFull(config: CacheConfig, log: seq<Event>, states: seq<State>)
    requires |states| == |log| + 1
  {
    forall i | 0 <= i < |log| && log[i].op.Positive() :: |states[i].entries| < config.maxEntries
  }

  // While no insertion finds the cache full, every lookup agrees with the log:
  // the latest insertion if it is fresh, nothing otherwise.
  lemma NeverFullIsTheLog(config: CacheConfig, hash: CacheQuery -> CacheKey, play: set<CacheQuery>,
                          log: seq<Event>, states: seq<State>, n: nat)
    requires Run(config, hash, log, states) && CollisionFree(hash, play) && PlaysIn(log, play)
    requires ClockAdvances(log, false)
    requires NeverFull(config, log, states) && n < |log| && log[n].op.Get?
    ensures var latest := Latest(log[..n], log[n].op.q);
            log[n].result ==
              if && latest.Some?
                 && log[n].now < log[latest.value].now + StoredTtl(config, log[latest.value].op) as int * 1_000_000_000
                 && StoredTtl(config, log[latest.value].op) > 0
              then Some(EntryOf(config, log[latest.value]).response) else None
  {
    hide EntryOf;
    var q := log[n].op.q;
    var latest := Latest(log[..n], q);
    forall i | 0 <= i < n ensures !Taken(log, states, hash(q), i) {
      assert Step(config, hash, states[i], log[i], states[i + 1]);
    }
    if latest.Some? {
      LatestIsLast(log[..n], q, latest.value);
      assert log[..n][latest.value] == log[latest.value];
    }
    if && latest.Some?
       && log[n].now < log[latest.value].now + StoredTtl(config, log[latest.value].op) as int * 1_000_000_000
       && StoredTtl(config, log[latest.value].op) > 0
    {
      FreshMissIff(config, hash, play, log, states, n, latest.value);
    } else if log[n].result.Some? {
      var j := HitIsLatest(config, hash, play, log, states, n);
      LatestIsLast(log[..n], q, j);
    }
  }

  // ---------- size and eviction ----------

  function Negatives(log: seq<Event>): nat {
    if log == [] then 0
    else Negatives(log[..|log| - 1]) + if log[|log| - 1].op.InsertNegative? then 1 else 0
  }

  ghost predicate AllBefore(entries: map<CacheKey, CacheEntry>, now: nat) {
    forall k | k in entries :: entries[k].insertedAt < now
  }

  lemma PutSize(m: map<CacheKey, CacheEntry>, k: CacheKey, e: CacheEntry)
    ensures |m[k := e]| == if k in m then |m| else |m| + 1
  {
    assert m[k := e].Keys == m.Keys + {k};
    assert |m[k := e]| == |m[k := e].Keys| && |m| == |m.Keys|;
  }

  lemma DropSize(m: map<CacheKey, CacheEntry>, k: CacheKey)
    ensures |m - {k}| == if k in m then |m| - 1 else |m|
  {
    assert (m - {k}).Keys == m.Keys - {k};
    assert |m - {k}| == |(m - {k}).Keys| && |m| == |m.Keys|;
  }

  lemma RoomSize(config: CacheConfig, s: State, now: nat, room: State)
    requires MakesRoom(config, s, now, room)
    ensures |room.entries| ==
            if |s.entries| >= config.maxEntries && SomeBefore(s.entries, now) then |s.entries| - 1 else |s.entries|
    ensures room.entries.Keys <= s.entries.Keys && forall k | k in room.entries :: room.entries[k] == s.entries[k]
  {
    if |s.entries| >= config.maxEntries && SomeBefore(s.entries, now) {
      var k :| Oldest(s.entries, k) && room == EvictKey(s, k);
      DropSize(s.entries, k);
    }
  }

  // An insertion of a new key into a full cache keeps its size exactly when some
  // entry is older than the insertion.
  lemma FullInsertKeepsSizeIff(config: CacheConfig, hash: CacheQuery -> CacheKey, s: State, e: Event, s': State)
    requires Step(config, hash, s, e, s') && e.op.Positive()
    requires |s.entries| >= config.maxEntries && hash(e.op.q) !in s.entries
    ensures |s'.entries| == |s.entries| <==> SomeBefore(s.entries, e.now)
  {
    hide EntryOf;
    var room :| MakesRoom(config, s, e.now, room) && s' == Put(room, hash(e.op.q), EntryOf(config, e));
    RoomSize(config, s, e.now, room);
    PutSize(room.entries, hash(e.op.q), EntryOf(config, e));
  }

  // A positive insertion that finds the cache full of entries, none of them older
  // than its clock reading, and so evicts nothing.
  ghost predicate Stalls(config: CacheConfig, s: State, e: Event) {
    e.op.Positive() && |s.entries| >= config.maxEntries && s.entries != map[] && !SomeBefore(s.entries, e.now)
  }

  ghost function Stalled(config: CacheConfig, log: seq<Event>, states: seq<State>, n: nat): nat
    requires |states| == |log| + 1 && n <= |log|
  {
    if n == 0 then 0
    else Stalled(config, log, states, n - 1) + if Stalls(config, states[n - 1], log[n - 1]) then 1 else 0
  }

  lemma SizeStep(config: CacheConfig, hash: CacheQuery -> CacheKey, s: State, e: Event, s': State, limit: nat)
    requires Step(config, hash, s, e, s')
    requires |s.entries| <= limit && limit >= 1 && limit >= config.maxEntries
    ensures |s'.entries| <= limit + (if e.op.InsertNegative? then 1 else 0) + if Stalls(config, s, e) then 1 else 0
  {
    hide EntryOf, MakesRoom, SomeBefore;
    match e.op
    case Get(q) => DropSize(s.entries, hash(q));
    case Clear =>
    case InsertNegative(q, _) => PutSize(s.entries, hash(q), EntryOf(config, e));
    case _ =>
      var room :| MakesRoom(config, s, e.now, room) && s' == Put(room, hash(e.op.q), EntryOf(config, e));
      RoomSize(config, s, e.now, room);
      PutSize(room.entries, hash(e.op.q), EntryOf(config, e));
  }

  function AtLeastOne(n: nat): nat {
    if n >= 1 then n else 1
  }

  // In every run the entries never outnumber the limit, the negative insertions,
  // which do not evict, and the insertions whose clock had not moved on.
  lemma {:induction false} SizeBound(
    config: CacheConfig, hash: CacheQuery -> CacheKey, log: seq<Event>, states: seq<State>, n: nat)
    requires Run(config, hash, log, states) && n <= |log|
    ensures |states[n].entries|
            <= AtLeastOne(config.maxEntries) + Negatives(log[..n]) + Stalled(config, log, states, n)
    decreases n
  {
    hide Step, Stalls;
    if n > 0 {
      SizeBound(config, hash, log, states, n - 1);
      SizeStep(config, hash, states[n - 1], log[n - 1], states[n],
               AtLeastOne(config.maxEntries) + Negatives(log[..n - 1]) + Stalled(config, log, states, n - 1));
      assert log[..n][..n - 1] == log[..n - 1] && log[..n][n - 1] == log[n - 1];
    }
  }

  ghost predicate AllUpTo(entries: map<CacheKey, CacheEntry>, now: nat) {
    forall k | k in entries :: entries[k].insertedAt <= now
  }

  // What a step leaves was there before it or carries its time.
  lemma StepTimes(config: CacheConfig, hash: CacheQuery -> CacheKey, s: State, e: Event, s': State)
    requires Step(config, hash, s, e, s') && AllUpTo(s.entries, e.now)
    ensures AllUpTo(s'.entries, e.now)
  {
    hide EntryOf;
    if e.op.Positive() {
      EntryTime(config, e);
      var room :| MakesRoom(config, s, e.now, room) && s' == Put(room, hash(e.op.q), EntryOf(config, e));
      RoomSize(config, s, e.now, room);
      assert forall k | k in room.entries :: k in s.entries.Keys;
    } else if e.op.InsertNegative? {
      EntryTime(config, e);
    }
  }

  lemma {:induction false} EntriesUpToNow(
    config: CacheConfig, hash: CacheQuery -> CacheKey, log: seq<Event>, states: seq<State>, n: nat)
    requires Run(config, hash, log, states) && ClockAdvances(log, true) && n <= |log|
    ensures n > 0 ==> AllUpTo(states[n].entries, log[n - 1].now)
    ensures n < |log| ==> AllBefore(states[n].entries, log[n].now)
    decreases n
  {
    hide Step;
    if n > 0 {
      EntriesUpToNow(config, hash, log, states, n - 1);
      StepTimes(config, hash, states[n - 1], log[n - 1], states[n]);
    }
  }

  // With a clock that strictly advances no insertion is stalled, so only the
  // negative insertions go past the limit.
  lemma {:induction false} AdvancingClockNeverStalls(
    config: CacheConfig, hash: CacheQuery -> CacheKey, log: seq<Event>, states: seq<State>, n: nat)
    requires Run(config, hash, log, states) && ClockAdvances(log, true) && n <= |log|
    ensures Stalled(config, log, states, n) == 0
    ensures |states[n].entries| <= AtLeastOne(config.maxEntries) + Negatives(log[..n])
    decreases n
  {
    SizeBound(config, hash, log, states, n);
    if n > 0 {
      AdvancingClockNeverStalls(config, hash, log, states, n - 1);
      EntriesUpToNow(config, hash, log, states, n - 1);
      var s := states[n - 1];
      if s.entries != map[] {
        var k :| k in s.entries;
        assert s.entries[k].insertedAt < log[n - 1].now;
      }
    }
  }

  // What goes when an insertion finds the cache full is an entry with the least
  // insertion time, and nothing else.
  lemma EvictedIsOldest(config: CacheConfig, hash: CacheQuery -> CacheKey, s: State, e: Event, s': State, k: CacheKey)
    requires Step(config, hash, s, e, s') && e.op.Positive() && k in s.entries && k !in s'.entries
    ensures Oldest(s.entries, k) && |s.entries| >= config.maxEntries
    ensures forall j | j in s.entries && j != k && j != hash(e.op.q) :: j in s'.entries && s'.entries[j] == s.entries[j]
    ensures s'.evictions == (s.evictions + 1) % COUNTER
  {
    hide EntryOf;
  }

  // In terms of the log: the latest insertion for the evicted query is no later
  // than the latest insertion for any query still held.
  lemma EvictedWasInsertedFirst(config: CacheConfig, hash: CacheQuery -> CacheKey, play: set<CacheQuery>,
                                log: seq<Event>, states: seq<State>, i: nat, q: CacheQuery, other: CacheQuery)
    requires Run(config, hash, log, states) && CollisionFree(hash, play) && PlaysIn(log, play)
    requires q in play && other in play && Taken(log, states, hash(q), i) && hash(other) in states[i].entries
    ensures Latest(log[..i], q).Some? && Latest(log[..i], other).Some?
    ensures log[Latest(log[..i], q).value].now <= log[Latest(log[..i], other).value].now
  {
    EntriesAreLogged(config, hash, play, log, states, i, q);
    EntriesAreLogged(config, hash, play, log, states, i, other);
    EvictedIsOldest(config, hash, states[i], log[i], states[i + 1], hash(q));
  }

  // A clock that stands still lets a positive insertion exceed the limit.
  lemma StalledClockOverflows(q: CacheQuery, r: CacheQuery, m: Message, hash: CacheQuery -> CacheKey)
    requires hash(q) != hash(r)
    ensures var config := CacheConfig(1, 0, 0, 0);
            exists log: seq<Event>, states: seq<State> ::
              && Run(config, hash, log, states) && |log| == 2 && Negatives(log) == 0
              && ClockAdvances(log, false) && |states[2].entries| == 2
  {
    hide EntryOf;
    var config := CacheConfig(1, 0, 0, 0);
    var e1, e2 := Event(0, Insert(q, m), None), Event(0, Insert(r, m), None);
    assert EntryOf(config, e1).insertedAt == 0 by {
      EntryTime(config, e1);
    }
    var s1 := Put(EMPTY, hash(q), EntryOf(config, e1));
    var s2 := Put(s1, hash(r), EntryOf(config, e2));
    assert s1.entries == map[hash(q) := EntryOf(config, e1)];
    assert MakesRoom(config, EMPTY, 0, EMPTY);
    assert !SomeBefore(s1.entries, 0) && MakesRoom(config, s1, 0, s1);
    assert Step(config, hash, EMPTY, e1, s1) && Step(config, hash, s1, e2, s2);
    var log, states := [e1, e2], [EMPTY, s1, s2];
    PutSize(EMPTY.entries, hash(q), EntryOf(config, e1));
    PutSize(s1.entries, hash(r), EntryOf(config, e2));
    assert log[..1] == [e1] && [e1][..0] == [];
    assert Negatives([e1]) == 0;
    assert Run(config, hash, log, states);
  }

  lemma EntryTime(config: CacheConfig, e: Event)
    requires e.op.Positive() || e.op.InsertNegative?
    ensures EntryOf(config, e).insertedAt == e.now
  {
  }

  // ---------- the counters ----------

  function Lookups(log: seq<Event>, hit: bool): nat {
    if log == [] then 0
    else
      var last := log[|log| - 1];
      Lookups(log[..|log| - 1], hit) + if last.op.Get? && last.result.Some? == hit then 1 else 0
  }

  lemma CounterStep(config: CacheConfig, hash: CacheQuery -> CacheKey, s: State, e: Event, s': State)
    requires Step(config, hash, s, e, s')
    ensures s'.hits == if e.op.Get? && e.result.Some? then (s.hits + 1) % COUNTER else s.hits
    ensures s'.misses == if e.op.Get? && e.result.None? then (s.misses + 1) % COUNTER else s.misses
  {
    hide EntryOf;
  }

  lemma EvictionStep(config: CacheConfig, hash: CacheQuery -> CacheKey, s: State, e: Event, s': State)
    requires Step(config, hash, s, e, s')
    ensures s'.evictions == if TakesOldest(config, s, e) then (s.evictions + 1) % COUNTER else s.evictions
  {
    hide EntryOf, MakesRoom, SomeBefore, CacheEntry.Expired;
    if e.op.Positive() {
      var room :| MakesRoom(config, s, e.now, room) && s' == Put(room, hash(e.op.q), EntryOf(config, e));
      RoomEvictions(config, s, e.now, room);
    }
  }

  lemma RoomEvictions(config: CacheConfig, s: State, now: nat, room: State)
    requires MakesRoom(config, s, now, room)
    ensures room.evictions == if |s.entries| >= config.maxEntries && SomeBefore(s.entries, now)
                              then (s.evictions + 1) % COUNTER else s.evictions
  {
    hide SomeBefore;
  }

  // An insertion that finds the cache full and some entry older than itself.
  ghost predicate TakesOldest(config: CacheConfig, s: State, e: Event) {
    e.op.Positive() && |s.entries| >= config.maxEntries && SomeBefore(s.entries, e.now)
  }

  ghost function Evictions(config: CacheConfig, log: seq<Event>, states: seq<State>, n: nat): nat
    requires |states| == |log| + 1 && n <= |log|
  {
    if n == 0 then 0
    else Evictions(config, log, states, n - 1) + if TakesOldest(config, states[n - 1], log[n - 1]) then 1 else 0
  }

  lemma CountOneMore(x: nat)
    ensures (x % COUNTER + 1) % COUNTER == (x + 1) % COUNTER
  {
  }

  // The counters count, modulo 64 bits, the lookups that returned something, those
  // that did not, and the insertions that took the oldest entry.
  lemma {:induction false} CountersCount(
    config: CacheConfig, hash: CacheQuery -> CacheKey, log: seq<Event>, states: seq<State>, n: nat)
    requires Run(config, hash, log, states) && n <= |log|
    ensures states[n].hits == Lookups(log[..n], true) % 0x1_0000_0000_0000_0000
    ensures states[n].misses == Lookups(log[..n], false) % 0x1_0000_0000_0000_0000
    ensures states[n].evictions == Evictions(config, log, states, n) % 0x1_0000_0000_0000_0000
    decreases n
  {
    hide Step, TakesOldest;
    if n > 0 {
      CountersCount(config, hash, log, states, n - 1);
      CounterStep(config, hash, states[n - 1], log[n - 1], states[n]);
      EvictionStep(config, hash, states[n - 1], log[n - 1], states[n]);
      assert log[..n][..n - 1] == log[..n - 1] && log[..n][n - 1] == log[n - 1];
      CountOneMore(Lookups(log[..n - 1], true));
      CountOneMore(Lookups(log[..n - 1], false));
      CountOneMore(Evictions(config, log, states, n - 1));
    }
  }

  // ---------- the cache object ----------

  datatype Stats = Stats(hits: nat, misses: nat, evictions: nat, entries: nat)

  class RouteScopedCache {
    var entries: map<CacheKey, CacheEntry>
    var hits: nat
    var misses: nat
    var evictions: nat
    const config: CacheConfig
    const hash: CacheQuery -> CacheKey

    function View(): State
      reads this
    {
      State(entries, hits, misses, evictions)
    }

    constructor (config: CacheConfig, hash: CacheQuery -> CacheKey)
      ensures this.config == config && this.hash == hash && View() == EMPTY
    {
      this.config, this.hash := config, hash;
      entries, hits, misses, evictions := map[], 0, 0, 0;
    }

    // An expired entry is removed and counts as a miss.
    method GetScoped(q: CacheQuery, now: nat) returns (r: Option<CachedResponse>)
      modifies this
      ensures Step(config, hash, old(View()), Event(now, Get(q), r), View())
    {
      var key := hash(q);
      if key in entries {
        if entries[key].Expired(now) {
          entries := entries - {key};
          misses := (misses + 1) % COUNTER;
          return None;
        }
        hits := (hits + 1) % COUNTER;
        return Some(entries[key].response);
      }
      assert entries == entries - {key};
      misses := (misses + 1) % COUNTER;
      return None;
    }

    method InsertScoped(q: CacheQuery, message: Message, now: nat)
      requires config.Ordered()
      modifies this
      ensures Step(config, hash, old(View()), Event(now, Insert(q, message), None), View())
    {
      hide Evicts, WithTtls, Respond;
      var ttl := config.Clamp(MinTtl(message.answers));
      InsertScopedWithTtl(q, message, ttl, now);
      assert EntryOf(config, Event(now, InsertTtl(q, message, ttl), None))
          == EntryOf(config, Event(now, Insert(q, message), None));
    }

    method InsertScopedWithTtl(q: CacheQuery, message: Message, ttl: u32, now: nat)
      requires config.Ordered()
      modifies this
      ensures Step(config, hash, old(View()), Event(now, InsertTtl(q, message, ttl), None), View())
    {
      hide Evicts;
      var clamped := config.Clamp(ttl);
      var stored := SetTtls(message, clamped);
      if |entries| >= config.maxEntries {
        EvictOldest(now);
      }
      ghost var room := View();
      var response := NewResponse(stored);
      entries := entries[hash(q) := CacheEntry(response, now, clamped)];
      assert MakesRoom(config, old(View()), now, room);
    }

    // Does not evict.
    method InsertNegativeScoped(q: CacheQuery, message: Message, now: nat)
      modifies this
      ensures Step(config, hash, old(View()), Event(now, InsertNegative(q, message), None), View())
    {
      var response := NewResponse(message);
      entries := entries[hash(q) := CacheEntry(response, now, config.negativeTtl)];
    }

    method Clear(ghost now: nat)
      modifies this`entries
      ensures Step(config, hash, old(View()), Event(now, Op.Clear, None), View())
    {
      entries := map[];
    }

    method GetStats() returns (stats: Stats)
      ensures stats == Stats(hits, misses, evictions, |entries|)
    {
      stats := Stats(hits, misses, evictions, |entries|);
    }

    // Scans the entries, in any order, for one strictly older than the oldest
    // seen so far.
    method EvictOldest(now: nat)
      modifies this
      ensures Evicts(old(View()), now, View())
    {
      var oldestKey: Option<CacheKey> := None;
      var oldestTime := now;
      var left := entries.Keys;
      while left != {}
        invariant left <= entries.Keys && entries == old(entries) && View() == old(View())
        invariant forall k | k in entries && k !in left :: entries[k].insertedAt >= oldestTime
        invariant oldestKey.None? ==> oldestTime == now
        invariant oldestKey.Some? ==> oldestKey.value in entries && oldestTime < now
                                      && entries[oldestKey.value].insertedAt == oldestTime
        decreases |left|
      {
        var k :| k in left;
        left := left - {k};
        if entries[k].insertedAt < oldestTime {
          oldestTime := entries[k].insertedAt;
          oldestKey := Some(k);
        }
      }
      if oldestKey.Some? {
        assert Oldest(entries, oldestKey.value) && SomeBefore(entries, now);
        entries := entries - {oldestKey.value};
        evictions := (evictions + 1) % COUNTER;
        assert View() == EvictKey(old(View()), oldestKey.value);
      }
    }
  }

  // A copy of the message whose answers all carry this TTL.
  method SetTtls(message: Message, ttl: u32) returns (r: Message)
    ensures r == message.(answers := WithTtls(message.answers, ttl))
  {
    var stored := new DnsMessage.Of(message);
    for i := 0 to |message.answers|
      invariant stored.View() == message.(answers := stored.answers)
      invariant |stored.answers| == |message.answers|
      invariant forall j | 0 <= j < i :: stored.answers[j] == message.answers[j].(ttl := ttl)
      invariant forall j | i <= j < |message.answers| :: stored.answers[j] == message.answers[j]
    {
      stored.answers := stored.answers[i := stored.answers[i].(ttl := ttl)];
    }
    r := stored.View();
    assert r.answers == WithTtls(message.answers, ttl);
  }
}
