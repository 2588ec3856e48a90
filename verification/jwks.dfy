/** The cache of JWT signing keys, shared by concurrent callers. Times are in nanoseconds. */
module Jwks {
  import opened Wrappers

  const SECOND := 1_000_000_000
  const KID_MISS_REFRESH_COOLDOWN := 30 * SECOND
  const STALE_GRACE_PERIOD := 300 * SECOND

  /** A signing key: its `kid`, if it has one, and the rest of its JSON. */
  datatype Key = Key(kid: Option<string>, raw: string)

  type Keys = seq<Key>

  predicate HasKid(keys: Keys, kid: string) {
    exists i :: 0 <= i < |keys| && keys[i].kid == Some(kid)
  }

  /** `Instant::duration_since`: zero when `earlier` is later. */
  function Since(now: int, earlier: int): nat {
    if now < earlier then 0 else now - earlier
  }

  datatype Config = Config(maxAgeSeconds: nat, processId: nat) {
    /** The configured age plus the jitter of this process. */
    function MaxAge(): (age: nat)
      ensures (maxAgeSeconds + 60) * SECOND <= age <= (maxAgeSeconds + 90) * SECOND
      ensures age >= 60 * SECOND
    {
      (maxAgeSeconds + (processId % 31 + 60)) * SECOND
    }
  }

  datatype CacheState = CacheState(keys: Keys, fetchedAt: int, lastKidMissRefresh: Option<int>)

  /** What the cache answers without a fetch, if it does. */
  function Fresh(c: CacheState, maxAge: nat, now: int, kid: Option<string>): Option<Keys> {
    if Since(now, c.fetchedAt) < maxAge && c.keys != [] then
      if kid.None? || HasKid(c.keys, kid.value) then Some(c.keys)
      else if c.lastKidMissRefresh.Some?
              && Since(now, c.lastKidMissRefresh.value) < KID_MISS_REFRESH_COOLDOWN then Some(c.keys)
      else None
    else None
  }

  /** What the cache answers after a failed fetch. */
  function Stale(c: CacheState, maxAge: nat, now: int): Option<Keys> {
    if Since(now, c.fetchedAt) < maxAge + STALE_GRACE_PERIOD && c.keys != [] then Some(c.keys) else None
  }

  /** The cache after a fetch of `keys`, with the two clock readings taken under the write lock. */
  function Refreshed(c: CacheState, keys: Keys, kid: Option<string>, at: int, refreshedAt: int): CacheState {
    CacheState(keys, at, if kid.Some? then Some(refreshedAt) else c.lastKidMissRefresh)
  }

  /** The jitter goes through 60 to 90 s as the process numbers go up, and then begins anew. */
  lemma JitterOfProcess(maxAgeSeconds: nat, n: nat, rounds: nat)
    requires n < 31
    ensures Config(maxAgeSeconds, n + 31 * rounds).MaxAge() == (maxAgeSeconds + 60 + n) * 1_000_000_000
  {
  }

  class JwksCache {
    var keys: Keys
    var fetchedAt: int
    var lastKidMissRefresh: Option<int>

    function View(): CacheState
      reads this
    {
      CacheState(keys, fetchedAt, lastKidMissRefresh)
    }

    /** The cache starts empty and too old. */
    constructor (cfg: Config, now: int)
      ensures View() == Initial(cfg, now)
    {
      keys := [];
      fetchedAt := now - (cfg.maxAgeSeconds + 1) * SECOND;
      lastKidMissRefresh := None;
    }

    /** The check under the read lock. */
    method Check(maxAge: nat, now: int, kid: Option<string>) returns (answer: Option<Keys>)
      ensures answer == Fresh(View(), maxAge, now, kid)
      ensures answer.Some? <==>
                && keys != [] && 0 < maxAge && now < fetchedAt + maxAge
                && (|| kid.None?
                    || (exists i :: 0 <= i < |keys| && keys[i].kid == kid)
                    || (lastKidMissRefresh.Some? && now < lastKidMissRefresh.value + 30 * 1_000_000_000))
      ensures answer.Some? ==> answer.value == keys
    {
      var age := Since(now, fetchedAt);
      if age < maxAge && keys != [] {
        if kid.None? || HasKid(keys, kid.value) {
          return Some(keys);
        }
        if lastKidMissRefresh.Some? && Since(now, lastKidMissRefresh.value) < KID_MISS_REFRESH_COOLDOWN {
          return Some(keys);
        }
      }
      return None;
    }

    /** The update under the write lock. */
    method Write(fetched: Keys, kid: Option<string>, at: int, refreshedAt: int)
      modifies this
      ensures View() == Refreshed(old(View()), fetched, kid, at, refreshedAt)
      ensures keys == fetched && fetchedAt == at
      ensures lastKidMissRefresh == if kid.Some? then Some(refreshedAt) else old(lastKidMissRefresh)
    {
      keys := fetched;
      fetchedAt := at;
      if kid.Some? {
        lastKidMissRefresh := Some(refreshedAt);
      }
    }

    /** The fallback under the read lock, when the fetch failed. */
    method ServeStale(maxAge: nat, now: int) returns (answer: Option<Keys>)
      ensures answer == Stale(View(), maxAge, now)
      ensures answer.Some? <==> keys != [] && now < fetchedAt + maxAge + 300 * 1_000_000_000
      ensures answer.Some? ==> answer.value == keys
    {
      var staleness := Since(now, fetchedAt);
      if staleness < maxAge + STALE_GRACE_PERIOD && keys != [] {
        return Some(keys);
      }
      return None;
    }
  }

  function Initial(cfg: Config, now: int): CacheState {
    CacheState([], now - (cfg.maxAgeSeconds + 1) * SECOND, None)
  }

  // ---- concurrent callers ------------------------------------------------------------

  /** How far a call has come; `now` is the clock reading it started with. */
  datatype Call =
    | Started(now: int, kid: Option<string>)
    | Fetching(now: int, kid: Option<string>)
    | Fetched(now: int, kid: Option<string>, result: Option<Keys>)
    | Writing(kid: Option<string>, keys: Keys, at: int)
    | Returned(answer: Option<Keys>)

  /** What happened under the lock, in the order of the lock. */
  datatype Event =
    | Checked(id: nat, now: int, kid: Option<string>, answer: Option<Keys>)
    | Wrote(id: nat, kid: Option<string>, keys: Keys, at: int, releasedAt: int)
    | FellBack(id: nat, now: int, answer: Option<Keys>)

  /** `writer` is the call that holds the write lock, if any. */
  datatype State = State(
    clock: int, cache: CacheState, calls: map<nat, Call>, writer: Option<nat>, log: seq<Event>)

  ghost predicate Init(cfg: Config, s: State) {
    s.cache == Initial(cfg, s.clock) && s.calls == map[] && s.writer == None && s.log == []
  }

  ghost predicate Tick(s: State, s': State) {
    s' == s.(clock := s'.clock) && s.clock <= s'.clock
  }

  ghost predicate Begin(s: State, s': State, id: nat, kid: Option<string>) {
    id !in s.calls && s' == s.(calls := s.calls[id := Started(s.clock, kid)])
  }

  ghost predicate CheckStep(cfg: Config, s: State, s': State, id: nat) {
    && s.writer == None && id in s.calls && s.calls[id].Started?
    && var call := s.calls[id];
       var answer := Fresh(s.cache, cfg.MaxAge(), call.now, call.kid);
       s' == s.(calls := s.calls[id := if answer.Some? then Returned(answer) else Fetching(call.now, call.kid)],
                log := s.log + [Checked(id, call.now, call.kid, answer)])
  }

  ghost predicate FetchStep(s: State, s': State, id: nat, result: Option<Keys>) {
    && id in s.calls && s.calls[id].Fetching?
    && s' == s.(calls := s.calls[id := Fetched(s.calls[id].now, s.calls[id].kid, result)])
  }

  /** The write lock is taken: the keys are replaced, and the clock is read for the first time. */
  ghost predicate InstallStep(s: State, s': State, id: nat) {
    && s.writer == None && id in s.calls && s.calls[id].Fetched? && s.calls[id].result.Some?
    && var keys := s.calls[id].result.value;
       s' == s.(cache := s.cache.(keys := keys, fetchedAt := s.clock),
                calls := s.calls[id := Writing(s.calls[id].kid, keys, s.clock)],
                writer := Some(id))
  }

  /** The clock is read again, for a request that named a key, and the write lock is given back. */
  ghost predicate ReleaseStep(s: State, s': State, id: nat) {
    && s.writer == Some(id) && id in s.calls && s.calls[id].Writing?
    && var call := s.calls[id];
       s' == s.(cache := if call.kid.Some? then s.cache.(lastKidMissRefresh := Some(s.clock)) else s.cache,
                calls := s.calls[id := Returned(Some(call.keys))],
                writer := None,
                log := s.log + [Wrote(id, call.kid, call.keys, call.at, s.clock)])
  }

  ghost predicate FallBackStep(cfg: Config, s: State, s': State, id: nat) {
    && s.writer == None && id in s.calls && s.calls[id].Fetched? && s.calls[id].result.None?
    && var answer := Stale(s.cache, cfg.MaxAge(), s.calls[id].now);
       s' == s.(calls := s.calls[id := Returned(answer)],
                log := s.log + [FellBack(id, s.calls[id].now, answer)])
  }

  /** One caller makes one step, or time passes. */
  ghost predicate Step(cfg: Config, s: State, s': State) {
    || Tick(s, s')
    || (exists id, kid :: Begin(s, s', id, kid))
    || (exists id :: CheckStep(cfg, s, s', id))
    || (exists id, result :: FetchStep(s, s', id, result))
    || (exists id :: InstallStep(s, s', id))
    || (exists id :: ReleaseStep(s, s', id))
    || (exists id :: FallBackStep(cfg, s, s', id))
  }

  ghost predicate Run(cfg: Config, states: seq<State>) {
    && states != [] && Init(cfg, states[0])
    && forall i :: 0 <= i < |states| - 1 ==> Step(cfg, states[i], states[i + 1])
  }

  // ---- what every run keeps -----------------------------------------------------------

  /** The last write in a log. */
  function LastWrite(log: seq<Event>): (w: Option<Event>)
    ensures w.Some? ==> w.value.Wrote? && w.value in log
  {
    if log == [] then None
    else
      var e := log[|log| - 1];
      if e.Wrote? then Some(e) else LastWrite(log[..|log| - 1])
  }

  /** The keys that the last write installed; none before the first. */
  function InstalledKeys(log: seq<Event>): Keys {
    match LastWrite(log)
    case Some(Wrote(_, _, keys, _, _)) => keys
    case _ => []
  }

  /** `e` is a write made for a request that named a key. */
  predicate KidRefresh(e: Event) { e.Wrote? && e.kid.Some? }

  /** The cache holds what was written last, and no write lies in the future. */
  ghost predicate Matches(clock: int, cache: CacheState, log: seq<Event>) {
    && cache.fetchedAt <= clock
    && (match LastWrite(log)
        case None => cache.keys == []
        case Some(w) => cache.keys == w.keys && cache.fetchedAt == w.at)
    && (forall e :: e in log && e.Wrote? ==> e.at <= cache.fetchedAt)
    && (forall e :: e in log && KidRefresh(e) ==>
          cache.lastKidMissRefresh.Some? && e.at <= e.releasedAt <= cache.lastKidMissRefresh.value)
    && (cache.lastKidMissRefresh.Some? ==>
          && cache.lastKidMissRefresh.value <= clock
          && exists e :: e in log && KidRefresh(e) && e.releasedAt == cache.lastKidMissRefresh.value)
  }

  /** `cache` is the matching cache `before` with the keys of a write that has not ended yet. */
  ghost predicate Installed(clock: int, before: CacheState, cache: CacheState, log: seq<Event>, call: Call) {
    && call.Writing? && Matches(call.at, before, log) && call.at <= clock
    && cache == before.(keys := call.keys, fetchedAt := call.at)
  }

  /** Outside a write, cache and log match; within one, they did before it. */
  ghost predicate CacheMatches(s: State) {
    match s.writer
    case None => Matches(s.clock, s.cache, s.log)
    case Some(id) => id in s.calls && exists before :: Installed(s.clock, before, s.cache, s.log, s.calls[id])
  }

  /** Keys given out of the cache were installed, not empty, and not too old. */
  ghost predicate FromCache(maxAge: nat, before: seq<Event>, now: int, keys: Keys) {
    keys != [] && exists e :: e in before && e.Wrote? && e.keys == keys && Since(now, e.at) < maxAge
  }

  /** A request for a named key was written out less than 30 s before `now`. */
  ghost predicate Cooling(before: seq<Event>, now: int) {
    exists w :: w in before && KidRefresh(w) && now < w.releasedAt + 30 * 1_000_000_000
  }

  /** The last write installed some keys, less than `age` before `now`. */
  predicate Recent(age: nat, before: seq<Event>, now: int) {
    InstalledKeys(before) != [] && now < LastWrite(before).value.at + age
  }

  /** What holds of an event, given the events before it. */
  ghost predicate EventOk(maxAge: nat, before: seq<Event>, e: Event) {
    match e
    case Checked(_, now, kid, answer) =>
      && (answer.Some? <==> Recent(maxAge, before, now)
                            && (kid.None? || HasKid(InstalledKeys(before), kid.value) || Cooling(before, now)))
      && (answer.Some? ==> answer.value == InstalledKeys(before))
      && (forall w :: w in before && KidRefresh(w) && now < w.at + 30 * 1_000_000_000 ==>
            (answer.None? <==> InstalledKeys(before) == []))
    case FellBack(_, now, answer) =>
      && (answer.Some? <==> Recent(maxAge + 300 * 1_000_000_000, before, now))
      && (answer.Some? ==> answer.value == InstalledKeys(before))
    case Wrote(_, _, _, at, _) =>
      forall w :: w in before && w.Wrote? ==> w.at <= at
  }

  ghost predicate LogOk(maxAge: nat, log: seq<Event>) {
    forall k :: 0 <= k < |log| ==> EventOk(maxAge, log[..k], log[k])
  }

  lemma {:induction false} LogOkAppend(maxAge: nat, log: seq<Event>, e: Event)
    requires LogOk(maxAge, log) && EventOk(maxAge, log, e)
    ensures LogOk(maxAge, log + [e])
  {
    var all := log + [e];
    forall k | 0 <= k < |all| ensures EventOk(maxAge, all[..k], all[k]) {
      if k < |log| { assert all[..k] == log[..k]; } else { assert all[..k] == log; }
    }
  }

  /** A check soon after a refresh for a named key fetches exactly when the last write was empty. */
  lemma CheckOk(cfg: Config, clock: int, cache: CacheState, log: seq<Event>, id: nat, now: int, kid: Option<string>)
    requires Matches(clock, cache, log)
    ensures EventOk(cfg.MaxAge(), log, Checked(id, now, kid, Fresh(cache, cfg.MaxAge(), now, kid)))
  {
    var answer := Fresh(cache, cfg.MaxAge(), now, kid);
    KeysMatch(clock, cache, log);
    if w :| w in log && KidRefresh(w) && now < w.releasedAt + 30 * SECOND {
      assert now < cache.lastKidMissRefresh.value + 30 * SECOND;
    }
    forall w | w in log && KidRefresh(w) && now < w.at + 30 * 1_000_000_000
      ensures answer.None? <==> InstalledKeys(log) == []
    {
      assert Since(now, cache.fetchedAt) < 60 * SECOND <= cfg.MaxAge();
    }
  }

  lemma FallBackOk(cfg: Config, clock: int, cache: CacheState, log: seq<Event>, id: nat, now: int)
    requires Matches(clock, cache, log)
    ensures EventOk(cfg.MaxAge(), log, FellBack(id, now, Stale(cache, cfg.MaxAge(), now)))
  {
    KeysMatch(clock, cache, log);
  }

  /** A matching cache holds the keys that were installed last. */
  lemma KeysMatch(clock: int, cache: CacheState, log: seq<Event>)
    requires Matches(clock, cache, log)
    ensures cache.keys == InstalledKeys(log) && (LastWrite(log).Some? ==> cache.fetchedAt == LastWrite(log).value.at)
  {
  }

  lemma RefreshRecorded(cache: CacheState, log: seq<Event>, e: Event)
    requires cache.lastKidMissRefresh.Some? ==>
               exists w :: w in log && KidRefresh(w) && w.releasedAt == cache.lastKidMissRefresh.value
    ensures cache.lastKidMissRefresh.Some? ==>
              exists w :: w in log + [e] && KidRefresh(w) && w.releasedAt == cache.lastKidMissRefresh.value
  {
    if cache.lastKidMissRefresh.Some? {
      var w :| w in log && KidRefresh(w) && w.releasedAt == cache.lastKidMissRefresh.value;
      assert w in log + [e];
    }
  }

  /** Appending an event that is no write keeps the match between log and cache. */
  lemma MatchesAfterRead(clock: int, cache: CacheState, log: seq<Event>, e: Event)
    requires Matches(clock, cache, log) && !e.Wrote?
    ensures Matches(clock, cache, log + [e])
  {
    assert (log + [e])[..|log|] == log;
    assert LastWrite(log + [e]) == LastWrite(log);
    RefreshRecorded(cache, log, e);
  }

  lemma MatchesAfterWrite(
      clock: int, before: CacheState, log: seq<Event>, id: nat, keys: Keys, kid: Option<string>, at: int)
    requires Matches(at, before, log) && at <= clock
    ensures var e := Wrote(id, kid, keys, at, clock);
            && EventOk(0, log, e)
            && Matches(clock, Refreshed(before, keys, kid, at, clock), log + [e])
  {
    var e := Wrote(id, kid, keys, at, clock);
    assert e in log + [e];
    RefreshRecorded(before, log, e);
  }

  lemma CheckKeeps(cfg: Config, s: State, s': State, id: nat)
    requires CheckStep(cfg, s, s', id) && CacheMatches(s) && LogOk(cfg.MaxAge(), s.log)
    ensures CacheMatches(s') && LogOk(cfg.MaxAge(), s'.log)
  {
    hide Matches, LogOk, EventOk;
    var call := s.calls[id];
    var e := Checked(id, call.now, call.kid, Fresh(s.cache, cfg.MaxAge(), call.now, call.kid));
    CheckOk(cfg, s.clock, s.cache, s.log, id, call.now, call.kid);
    LogOkAppend(cfg.MaxAge(), s.log, e);
    MatchesAfterRead(s.clock, s.cache, s.log, e);
  }

  lemma FallBackKeeps(cfg: Config, s: State, s': State, id: nat)
    requires FallBackStep(cfg, s, s', id) && CacheMatches(s) && LogOk(cfg.MaxAge(), s.log)
    ensures CacheMatches(s') && LogOk(cfg.MaxAge(), s'.log)
  {
    hide Matches, LogOk, EventOk;
    var call := s.calls[id];
    var e := FellBack(id, call.now, Stale(s.cache, cfg.MaxAge(), call.now));
    FallBackOk(cfg, s.clock, s.cache, s.log, id, call.now);
    LogOkAppend(cfg.MaxAge(), s.log, e);
    MatchesAfterRead(s.clock, s.cache, s.log, e);
  }

  lemma InstallKeeps(s: State, s': State, id: nat)
    requires InstallStep(s, s', id) && CacheMatches(s)
    ensures CacheMatches(s') && s'.log == s.log
  {
    hide Matches;
    assert Installed(s'.clock, s.cache, s'.cache, s'.log, s'.calls[id]);
  }

  lemma WriteEventOk(maxAge: nat, log: seq<Event>, e: Event)
    requires e.Wrote? && EventOk(0, log, e)
    ensures EventOk(maxAge, log, e)
  {
  }

  lemma {:induction false} ReleaseKeeps(maxAge: nat, s: State, s': State, id: nat)
    requires ReleaseStep(s, s', id) && CacheMatches(s) && LogOk(maxAge, s.log)
    ensures CacheMatches(s') && LogOk(maxAge, s'.log)
  {
    hide Matches, LogOk, EventOk;
    var call := s.calls[id];
    var before :| Installed(s.clock, before, s.cache, s.log, call);
    var e := Wrote(id, call.kid, call.keys, call.at, s.clock);
    MatchesAfterWrite(s.clock, before, s.log, id, call.keys, call.kid, call.at);
    WriteEventOk(maxAge, s.log, e);
    LogOkAppend(maxAge, s.log, e);
  }

  /** A step of another kind: the clock may advance, and a call may begin or end its fetch. */
  lemma OtherStepKeeps(s: State, s': State)
    requires CacheMatches(s)
    requires s'.log == s.log && s'.cache == s.cache && s'.writer == s.writer && s.clock <= s'.clock
    requires forall id :: id in s.calls && s.writer == Some(id) ==> id in s'.calls && s'.calls[id] == s.calls[id]
    ensures CacheMatches(s')
  {
    if s.writer.Some? {
      var id := s.writer.value;
      var before :| Installed(s.clock, before, s.cache, s.log, s.calls[id]);
      assert Installed(s'.clock, before, s'.cache, s'.log, s'.calls[id]);
    }
  }

  lemma WriterIsWriting(s: State, id: nat)
    requires CacheMatches(s) && s.writer == Some(id)
    ensures id in s.calls && s.calls[id].Writing?
  {
  }

  lemma StepKeepsInvariant(cfg: Config, s: State, s': State)
    requires Step(cfg, s, s') && CacheMatches(s) && LogOk(cfg.MaxAge(), s.log)
    ensures CacheMatches(s') && LogOk(cfg.MaxAge(), s'.log)
  {
    hide CacheMatches, LogOk;
    if id :| CheckStep(cfg, s, s', id) {
      CheckKeeps(cfg, s, s', id);
    } else if id :| FallBackStep(cfg, s, s', id) {
      FallBackKeeps(cfg, s, s', id);
    } else if id :| InstallStep(s, s', id) {
      InstallKeeps(s, s', id);
    } else if id :| ReleaseStep(s, s', id) {
      ReleaseKeeps(cfg.MaxAge(), s, s', id);
    } else {
      if s.writer.Some? { WriterIsWriting(s, s.writer.value); }
      OtherStepKeeps(s, s');
    }
  }

  lemma InitOk(cfg: Config, s: State)
    requires Init(cfg, s)
    ensures CacheMatches(s) && LogOk(cfg.MaxAge(), s.log)
  {
  }

  lemma RunPrefix(cfg: Config, states: seq<State>)
    requires Run(cfg, states) && |states| > 1
    ensures var n := |states| - 1;
            Run(cfg, states[..n]) && states[..n][n - 1] == states[n - 1] && Step(cfg, states[n - 1], states[n])
  {
    hide Step, Init;
    var n := |states| - 1;
    assert Step(cfg, states[n - 1], states[n - 1 + 1]);
    forall i | 0 <= i < n - 1 ensures Step(cfg, states[..n][i], states[..n][i + 1]) {
      assert Step(cfg, states[i], states[i + 1]);
    }
  }

  lemma RunStart(cfg: Config, states: seq<State>)
    requires Run(cfg, states)
    ensures Init(cfg, states[0])
  {
  }

  lemma {:induction false} RunKeepsInvariant(cfg: Config, states: seq<State>)
    requires Run(cfg, states)
    ensures var s := states[|states| - 1]; CacheMatches(s) && LogOk(cfg.MaxAge(), s.log)
    decreases |states|
  {
    assert states != [];
    hide Run, Step, CacheMatches, LogOk, Init;
    var n := |states| - 1;
    if n == 0 {
      RunStart(cfg, states);
      InitOk(cfg, states[0]);
    } else {
      RunPrefix(cfg, states);
      RunKeepsInvariant(cfg, states[..n]);
      StepKeepsInvariant(cfg, states[n - 1], states[n]);
    }
  }

  // ---- what callers may rely on ------------------------------------------------------------

  lemma EventsOk(cfg: Config, states: seq<State>, k: nat)
    requires Run(cfg, states) && k < |states[|states| - 1].log|
    ensures var log := states[|states| - 1].log; EventOk(cfg.MaxAge(), log[..k], log[k])
  {
    RunKeepsInvariant(cfg, states);
  }

  /**
   Under every interleaving: a call is answered without a fetch if and only if the last write installed
   some keys, less than the maximum age before the call started, and the call names no key, or one of
   those, or a write for a named key ended less than 30 s before the call started. It gets those keys.
   */
  lemma CheckAnswersIff(cfg: Config, states: seq<State>, k: nat)
    requires Run(cfg, states)
    requires var log := states[|states| - 1].log; k < |log| && log[k].Checked?
    ensures var log := states[|states| - 1].log;
            var before, now, kid := log[..k], log[k].now, log[k].kid;
            var keys := InstalledKeys(before);
            && (log[k].answer.Some? <==>
                && keys != [] && now < LastWrite(before).value.at + cfg.MaxAge()
                && (|| kid.None?
                    || (exists i :: 0 <= i < |keys| && keys[i].kid == kid)
                    || (exists w :: w in before && w.Wrote? && w.kid.Some?
                                    && now < w.releasedAt + 30 * 1_000_000_000)))
            && (log[k].answer.Some? ==> log[k].answer.value == keys)
  {
    hide InstalledKeys, LastWrite, Run;
    EventsOk(cfg, states, k);
  }

  /** After a failed fetch it gets them if and only if they were written within that age and 300 s more. */
  lemma FallBackAnswersIff(cfg: Config, states: seq<State>, k: nat)
    requires Run(cfg, states)
    requires var log := states[|states| - 1].log; k < |log| && log[k].FellBack?
    ensures var log := states[|states| - 1].log;
            var before := log[..k];
            var keys := InstalledKeys(before);
            && (log[k].answer.Some? <==>
                keys != [] && log[k].now < LastWrite(before).value.at + cfg.MaxAge() + 300 * 1_000_000_000)
            && (log[k].answer.Some? ==> log[k].answer.value == keys)
  {
    hide InstalledKeys, LastWrite, Run;
    EventsOk(cfg, states, k);
  }

  /**
   Under every interleaving: a call that starts less than 30 s after a refresh made for a named key
   starts a fetch exactly when the last installed key list was empty.
   */
  lemma NoFetchDuringCooldown(cfg: Config, states: seq<State>, i: nat, k: nat)
    requires Run(cfg, states)
    requires var log := states[|states| - 1].log;
             && i < k < |log| && KidRefresh(log[i]) && log[k].Checked?
             && log[k].now < log[i].at + 30 * 1_000_000_000
    ensures var log := states[|states| - 1].log; log[k].answer.None? <==> InstalledKeys(log[..k]) == []
  {
    var log := states[|states| - 1].log;
    EventsOk(cfg, states, k);
    assert log[..k][i] == log[i];
  }

  lemma {:induction false} InstalledNonEmpty(log: seq<Event>, i: nat)
    requires i < |log| && log[i].Wrote?
    requires forall e :: e in log && e.Wrote? ==> e.keys != []
    ensures InstalledKeys(log) != []
  {
    var n := |log| - 1;
    if !log[n].Wrote? {
      InstalledNonEmpty(log[..n], i);
    } else {
      assert log[n] in log;
    }
  }

  /** When no fetch returns an empty list, such a call never fetches. */
  lemma CooldownHolds(cfg: Config, states: seq<State>, i: nat, k: nat)
    requires Run(cfg, states)
    requires var log := states[|states| - 1].log;
             && (forall e :: e in log && e.Wrote? ==> e.keys != [])
             && i < k < |log| && KidRefresh(log[i]) && log[k].Checked?
             && log[k].now < log[i].at + 30 * 1_000_000_000
    ensures states[|states| - 1].log[k].answer.Some?
  {
    var log := states[|states| - 1].log;
    NoFetchDuringCooldown(cfg, states, i, k);
    InstalledNonEmpty(log[..k], i);
  }

  /**
   Under every interleaving: keys answered from the cache, at once or after a failed fetch, are not
   empty and were installed by an earlier write less than the maximum age plus 300 s before the call.
   */
  lemma CachedKeysAreRecent(cfg: Config, states: seq<State>, k: nat)
    requires Run(cfg, states)
    requires var log := states[|states| - 1].log;
             k < |log| && !log[k].Wrote? && log[k].answer.Some?
    ensures var log := states[|states| - 1].log;
            FromCache(cfg.MaxAge() + 300 * 1_000_000_000, log[..k], log[k].now, log[k].answer.value)
  {
    EventsOk(cfg, states, k);
  }

  /** Without the grace period, keys answered at once are younger than the maximum age. */
  lemma FreshKeysAreFresh(cfg: Config, states: seq<State>, k: nat)
    requires Run(cfg, states)
    requires var log := states[|states| - 1].log; k < |log| && log[k].Checked? && log[k].answer.Some?
    ensures var log := states[|states| - 1].log;
            FromCache(cfg.MaxAge(), log[..k], log[k].now, log[k].answer.value)
  {
    EventsOk(cfg, states, k);
  }

  /** An answer without the requested key is only given within 30 s of a refresh for a named key. */
  lemma MissingKidOnlyInCooldown(cfg: Config, states: seq<State>, k: nat)
    requires Run(cfg, states)
    requires var log := states[|states| - 1].log;
             && k < |log| && log[k].Checked? && log[k].answer.Some? && log[k].kid.Some?
             && !HasKid(log[k].answer.value, log[k].kid.value)
    ensures var log := states[|states| - 1].log;
            exists w :: w in log[..k] && KidRefresh(w) && log[k].now < w.releasedAt + 30 * 1_000_000_000
  {
    EventsOk(cfg, states, k);
  }

  /** Writes never move the age of the cache backwards. */
  lemma WritesAreOrdered(cfg: Config, states: seq<State>, i: nat, k: nat)
    requires Run(cfg, states)
    requires var log := states[|states| - 1].log; i < k < |log| && log[i].Wrote? && log[k].Wrote?
    ensures var log := states[|states| - 1].log; log[i].at <= log[k].at
  {
    EventsOk(cfg, states, k);
    var log := states[|states| - 1].log;
    assert log[..k][i] == log[i];
  }

  /** An empty fetch defeats the cooldown: the next call, even at the same instant, fetches again. */
  lemma EmptyFetchDefeatsCooldown(cfg: Config, c: CacheState, kid: string, at: int)
    ensures Fresh(Refreshed(c, [], Some(kid), at, at), cfg.MaxAge(), at, Some(kid)) == None
  {
  }

  // ---- what a call returns is what the log says ------------------------------------------------

  /** How far a call has come shows in the log: it checked before it fetched, and it returned its own event. */
  ghost predicate CallLogged(clock: int, log: seq<Event>, id: nat, call: Call) {
    match call
    case Started(now, _) => now <= clock
    case Fetching(now, kid) => now <= clock && Checked(id, now, kid, None) in log
    case Fetched(now, kid, _) => now <= clock && Checked(id, now, kid, None) in log
    case Writing(kid, _, at) => exists now :: now <= at && Checked(id, now, kid, None) in log
    case Returned(answer) => ReturnLogged(log, id, answer)
  }

  /** Keys were found by the check, or written, or the check found none and the fetch failed. */
  ghost predicate ReturnLogged(log: seq<Event>, id: nat, answer: Option<Keys>) {
    || (answer.Some? && exists now, kid :: Checked(id, now, kid, answer) in log)
    || (exists now, kid, at, releasedAt ::
          && answer.Some? && now <= at && Checked(id, now, kid, None) in log
          && Wrote(id, kid, answer.value, at, releasedAt) in log)
    || (exists now, kid :: Checked(id, now, kid, None) in log && FellBack(id, now, answer) in log)
  }

  ghost predicate CallsLogged(s: State) {
    forall id :: id in s.calls ==> CallLogged(s.clock, s.log, id, s.calls[id])
  }

  lemma LoggedLonger(clock: int, log: seq<Event>, id: nat, call: Call, clock': int, log': seq<Event>)
    requires CallLogged(clock, log, id, call) && clock <= clock' && log <= log'
    ensures CallLogged(clock', log', id, call)
  {
    assert forall e :: e in log ==> e in log';
    match call
    case Writing(kid, _, at) =>
      var now :| now <= at && Checked(id, now, kid, None) in log;
      assert Checked(id, now, kid, None) in log';
    case Returned(answer) =>
      ReturnLoggedLonger(log, id, answer, log');
    case _ =>
  }

  lemma ReturnLoggedLonger(log: seq<Event>, id: nat, answer: Option<Keys>, log': seq<Event>)
    requires ReturnLogged(log, id, answer) && forall e :: e in log ==> e in log'
    ensures ReturnLogged(log', id, answer)
  {
    if answer.Some? && exists now, kid :: Checked(id, now, kid, answer) in log {
      var now, kid :| Checked(id, now, kid, answer) in log;
      assert Checked(id, now, kid, answer) in log';
    } else if now, kid :| Checked(id, now, kid, None) in log && FellBack(id, now, answer) in log {
      assert Checked(id, now, kid, None) in log' && FellBack(id, now, answer) in log';
    } else {
      var now, kid, at, releasedAt :|
        now <= at && Checked(id, now, kid, None) in log && Wrote(id, kid, answer.value, at, releasedAt) in log;
      assert Checked(id, now, kid, None) in log' && Wrote(id, kid, answer.value, at, releasedAt) in log';
    }
  }

  /** A step that moves the call `id` alone. */
  lemma OneCallMoves(s: State, s': State, id: nat)
    requires CallsLogged(s) && s.clock <= s'.clock && s.log <= s'.log
    requires id in s'.calls && s'.calls == s.calls[id := s'.calls[id]]
    requires CallLogged(s'.clock, s'.log, id, s'.calls[id])
    ensures CallsLogged(s')
  {
    hide CallLogged;
    forall other | other in s'.calls ensures CallLogged(s'.clock, s'.log, other, s'.calls[other]) {
      if other != id { LoggedLonger(s.clock, s.log, other, s.calls[other], s'.clock, s'.log); }
    }
  }

  lemma LockStepLogs(cfg: Config, s: State, s': State, id: nat)
    requires CallsLogged(s)
    requires CheckStep(cfg, s, s', id) || InstallStep(s, s', id) || ReleaseStep(s, s', id)
             || FallBackStep(cfg, s, s', id)
    ensures id in s'.calls && CallLogged(s'.clock, s'.log, id, s'.calls[id])
  {
    hide Fresh, Stale;
    var call := s.calls[id];
    assert CallLogged(s.clock, s.log, id, call);
    assert forall e :: e in s.log ==> e in s'.log;
    if s'.log != s.log { assert s'.log[|s.log|] in s'.log; }
    if ReleaseStep(s, s', id) {
      var now :| now <= call.at && Checked(id, now, call.kid, None) in s.log;
      assert Checked(id, now, call.kid, None) in s'.log;
    }
  }

  lemma StepLogs(cfg: Config, s: State, s': State)
    requires Step(cfg, s, s') && CallsLogged(s)
    ensures CallsLogged(s')
  {
    hide CallLogged, Fresh, Stale;
    if id :| CheckStep(cfg, s, s', id) || InstallStep(s, s', id) || ReleaseStep(s, s', id)
             || FallBackStep(cfg, s, s', id) {
      LockStepLogs(cfg, s, s', id);
      OneCallMoves(s, s', id);
    } else if Tick(s, s') {
      forall id | id in s'.calls ensures CallLogged(s'.clock, s'.log, id, s'.calls[id]) {
        LoggedLonger(s.clock, s.log, id, s.calls[id], s'.clock, s'.log);
      }
    } else {
      var id := FreeStepLogs(s, s');
      OneCallMoves(s, s', id);
    }
  }

  lemma FreeStepLogs(s: State, s': State) returns (id: nat)
    requires CallsLogged(s)
    requires (exists id, kid :: Begin(s, s', id, kid)) || (exists id, result :: FetchStep(s, s', id, result))
    ensures id in s'.calls && s'.calls == s.calls[id := s'.calls[id]]
    ensures s'.log == s.log && s'.clock == s.clock && CallLogged(s'.clock, s'.log, id, s'.calls[id])
  {
    if i, kid :| Begin(s, s', i, kid) {
      id := i;
    } else {
      var i, result :| FetchStep(s, s', i, result);
      id := i;
      assert CallLogged(s.clock, s.log, id, s.calls[id]);
    }
  }

  lemma {:induction false} RunLogs(cfg: Config, states: seq<State>)
    requires Run(cfg, states)
    ensures CallsLogged(states[|states| - 1])
    decreases |states|
  {
    assert states != [];
    hide Run, Step, CallLogged;
    var n := |states| - 1;
    if n == 0 {
      RunStart(cfg, states);
    } else {
      RunPrefix(cfg, states);
      RunLogs(cfg, states[..n]);
      StepLogs(cfg, states[n - 1], states[n]);
    }
  }

  /**
   Under every interleaving: a call that returned did so in one of three ways. Its check found keys, and
   it returned them; or its check found none, and it returned the keys that it wrote later; or its check
   found none, the fetch failed, and it returned what the fallback gave for the same start of the call.
   */
  lemma {:induction false} ReturnsAsLogged(cfg: Config, states: seq<State>, id: nat)
    requires Run(cfg, states)
    requires var s := states[|states| - 1]; id in s.calls && s.calls[id].Returned?
    ensures var log, answer := states[|states| - 1].log, states[|states| - 1].calls[id].answer;
            || (answer.Some? && exists now, kid :: Checked(id, now, kid, answer) in log)
            || (exists now, kid, at, releasedAt ::
                  && answer.Some? && now <= at && Checked(id, now, kid, None) in log
                  && Wrote(id, kid, answer.value, at, releasedAt) in log)
            || (exists now, kid :: Checked(id, now, kid, None) in log && FellBack(id, now, answer) in log)
  {
    hide Step;
    RunLogs(cfg, states);
    var s := states[|states| - 1];
    assert CallLogged(s.clock, s.log, id, s.calls[id]);
  }

  /** One call alone, from the clock reading to the answer; `fetch` is what a fetch would return. */
  method GetOrRefreshKeys(cache: JwksCache, cfg: Config, kid: Option<string>, now: int, fetch: Option<Keys>,
                          at: int, refreshedAt: int)
    returns (answer: Option<Keys>)
    requires now <= at <= refreshedAt
    modifies cache
    ensures var before := old(cache.View());
            var hit := Fresh(before, cfg.MaxAge(), now, kid);
            if hit.Some? then answer == hit && cache.View() == before
            else if fetch.Some? then
              answer == fetch && cache.View() == Refreshed(before, fetch.value, kid, at, refreshedAt)
            else answer == Stale(before, cfg.MaxAge(), now) && cache.View() == before
  {
    answer := cache.Check(cfg.MaxAge(), now, kid);
    if answer.Some? {
      return;
    }
    match fetch
    case Some(keys) =>
      cache.Write(keys, kid, at, refreshedAt);
      answer := fetch;
    case None =>
      answer := cache.ServeStale(cfg.MaxAge(), now);
  }
}
