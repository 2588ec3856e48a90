/** Which tools the MCP server lists, finds and calls. */
module Access {
  import opened Wrappers
  import opened Strings
  import opened Utf8
  import opened Sorting
  import opened Policy

  datatype ToolEntry = ToolEntry(key: string, mode: Mode, provider: string, categories: seq<string>)

  /** The catalog lists its entries by ascending key. */
  datatype McpState = McpState(catalog: seq<ToolEntry>, autoYes: bool, policies: seq<PolicyRule>)

  datatype RpcFailure = InvalidParams | AccessDenied

  predicate KeyLess(a: string, b: string) { LexLess(Encode(a), Encode(b)) }

  ghost predicate ValidState(state: McpState) {
    forall i, j :: 0 <= i < j < |state.catalog| ==> KeyLess(state.catalog[i].key, state.catalog[j].key)
  }

  function Get(catalog: seq<ToolEntry>, key: string): Option<ToolEntry> {
    if catalog == [] then None
    else if catalog[0].key == key then Some(catalog[0])
    else Get(catalog[1..], key)
  }

  /** The gates in front of calling a tool, in full mode and through the discovery tool alike. */
  function Call(state: McpState, name: string, subject: Option<string>): Result<ToolEntry, RpcFailure> {
    var toolKey := Lower(name);
    match Get(state.catalog, toolKey)
    case None => Err(InvalidParams)
    case Some(entry) =>
      if entry.mode == Write && !state.autoYes && subject == None then Err(AccessDenied)
      else if subject.Some? && !Permitted(state.policies, subject.value, toolKey, entry.mode) then Err(AccessDenied)
      else Ok(entry)
  }

  predicate Visible(state: McpState, entry: ToolEntry, subject: Option<string>) {
    match subject
    case Some(s) => Permitted(state.policies, s, entry.key, entry.mode)
    case None => state.autoYes || entry.mode != Write
  }

  function VisibleOnly(state: McpState, entries: seq<ToolEntry>, subject: Option<string>): seq<ToolEntry> {
    if entries == [] then []
    else (if Visible(state, entries[0], subject) then [entries[0]] else []) + VisibleOnly(state, entries[1..], subject)
  }

  lemma {:induction false} VisibleOnlyHas(
      state: McpState, entries: seq<ToolEntry>, subject: Option<string>, e: ToolEntry)
    ensures e in VisibleOnly(state, entries, subject) <==> e in entries && Visible(state, e, subject)
    decreases |entries|
  {
    hide Visible;
    if entries == [] {
    } else {
      VisibleOnlyHas(state, entries[1..], subject, e);
      assert e in entries <==> e == entries[0] || e in entries[1..];
    }
  }

  /** The tools that full mode lists. */
  function BuildTools(state: McpState, subject: Option<string>): (tools: seq<ToolEntry>) {
    VisibleOnly(state, state.catalog, subject)
  }

  /**
   A call is let through exactly when a tool has the lower-case name, it reads or confirmations are
   off or the caller is known, and the policies permit a known caller. An unknown name is another error.
   */
  lemma {:induction false} CallIff(state: McpState, name: string, subject: Option<string>, e: ToolEntry)
    requires ValidState(state) && e in state.catalog && e.key == Lower(name)
    ensures Call(state, name, subject)
            == if && (e.mode == Read || state.autoYes || subject.Some?)
                  && (subject.None? || Permitted(state.policies, subject.value, e.key, e.mode))
               then Ok(e) else Err(AccessDenied)
  {
    hide Permitted, Lower;
    GetOwn(state, e);
  }

  lemma UnknownTool(state: McpState, name: string, subject: Option<string>)
    requires forall e :: e in state.catalog ==> e.key != Lower(name)
    ensures Call(state, name, subject) == Err(InvalidParams)
  {
    hide Permitted, Lower;
    GetFinds(state.catalog, Lower(name));
  }

  /** Full mode lists the permitted tools of a known caller, or else the ones that need no confirmation. */
  lemma ListedIff(state: McpState, subject: Option<string>, e: ToolEntry)
    ensures e in BuildTools(state, subject)
            <==> e in state.catalog
                 && if subject.Some? then Permitted(state.policies, subject.value, e.key, e.mode)
                    else e.mode == Read || state.autoYes
  {
    hide Permitted;
    ListedAreVisible(state, subject, e);
  }

  /** The list is in the order of the catalog. */
  lemma {:induction false} ListedInOrder(
      state: McpState, entries: seq<ToolEntry>, subject: Option<string>, i: nat, j: nat)
    requires forall a, b :: 0 <= a < b < |entries| ==> KeyLess(entries[a].key, entries[b].key)
    requires i < j < |VisibleOnly(state, entries, subject)|
    ensures var listed := VisibleOnly(state, entries, subject); KeyLess(listed[i].key, listed[j].key)
    decreases |entries|
  {
    hide Visible, KeyLess;
    var rest := entries[1..];
    assert forall b :: 0 <= b < |rest| ==> rest[b] == entries[b + 1];
    if !Visible(state, entries[0], subject) {
      ListedInOrder(state, rest, subject, i, j);
    } else if i > 0 {
      ListedInOrder(state, rest, subject, i - 1, j - 1);
    } else {
      var last := VisibleOnly(state, rest, subject)[j - 1];
      VisibleOnlyHas(state, rest, subject, last);
      var b :| 0 <= b < |rest| && rest[b] == last;
      assert KeyLess(entries[0].key, entries[b + 1].key);
    }
  }

  /** Full mode lists exactly the visible tools. */
  lemma ListedAreVisible(state: McpState, subject: Option<string>, e: ToolEntry)
    ensures e in BuildTools(state, subject) <==> e in state.catalog && Visible(state, e, subject)
  {
    VisibleOnlyHas(state, state.catalog, subject, e);
  }

  // ---- listing agrees with calling -------------------------------------------------------

  lemma {:induction false} GetFinds(catalog: seq<ToolEntry>, key: string)
    ensures match Get(catalog, key)
            case None => forall e :: e in catalog ==> e.key != key
            case Some(e) => e in catalog && e.key == key
  {
    if catalog != [] && catalog[0].key != key {
      GetFinds(catalog[1..], key);
    }
  }

  lemma KeysDistinct(state: McpState, a: ToolEntry, b: ToolEntry)
    requires ValidState(state) && a in state.catalog && b in state.catalog && a.key == b.key
    ensures a == b
  {
    var i :| 0 <= i < |state.catalog| && state.catalog[i] == a;
    var j :| 0 <= j < |state.catalog| && state.catalog[j] == b;
    if i < j || j < i {
      assert KeyLess(state.catalog[if i < j then i else j].key, state.catalog[if i < j then j else i].key);
      LexIrreflexive(Encode(a.key));
    }
  }

  lemma GetOwn(state: McpState, entry: ToolEntry)
    requires ValidState(state) && entry in state.catalog
    ensures Get(state.catalog, entry.key) == Some(entry)
  {
    GetFinds(state.catalog, entry.key);
    KeysDistinct(state, entry, Get(state.catalog, entry.key).value);
  }

  /**
   * A tool is listed exactly when calling it by its key reaches it, if and only if the key is lower
   * case, or the tool is not listed at all.
   */
  lemma {:induction false} ListingAgreesIff(state: McpState, entry: ToolEntry, subject: Option<string>)
    requires ValidState(state) && entry in state.catalog
    ensures (entry in BuildTools(state, subject) <==> Call(state, entry.key, subject) == Ok(entry))
            <==> Lower(entry.key) == entry.key || !Visible(state, entry, subject)
  {
    hide Permitted;
    var key := Lower(entry.key);
    GetOwn(state, entry);
    GetFinds(state.catalog, key);
    ListedAreVisible(state, subject, entry);
  }

  /** With lower-case keys the list shows exactly the tools that can be called, by any spelling. */
  lemma {:induction false} ListingIsCalling(state: McpState, name: string, subject: Option<string>)
    requires ValidState(state) && forall e :: e in state.catalog ==> Lower(e.key) == e.key
    ensures Call(state, name, subject).Ok?
            <==> exists e :: e in BuildTools(state, subject) && e.key == Lower(name)
    ensures Call(state, name, subject).Ok? ==> Call(state, name, subject).value in BuildTools(state, subject)
  {
    hide Permitted;
    GetFinds(state.catalog, Lower(name));
    if Get(state.catalog, Lower(name)).Some? {
      ListedAreVisible(state, subject, Get(state.catalog, Lower(name)).value);
    }
    if e :| e in BuildTools(state, subject) && e.key == Lower(name) {
      ListedAreVisible(state, subject, e);
      GetOwn(state, e);
    }
  }

  // ---- searching -----------------------------------------------------------------------------

  const MAX_DISCOVERY_LIMIT := 50

  datatype SearchArgs = SearchArgs(
    query: string, limit: nat, mode: Option<string>, provider: Option<string>, category: Option<string>)

  function NonBlank(value: Option<string>): Option<string> {
    if value.Some? && Trim(value.value) != "" then Some(Trim(value.value)) else None
  }

  function ParseModeFilter(mode: Option<string>): Result<Option<Mode>, RpcFailure> {
    match NonBlank(mode)
    case None => Ok(None)
    case Some(m) => if m == "read" then Ok(Some(Read)) else if m == "write" then Ok(Some(Write)) else Err(InvalidParams)
  }

  predicate Selected(entry: ToolEntry, mode: Option<Mode>, provider: Option<string>, category: Option<string>) {
    && (mode.Some? ==> entry.mode == mode.value)
    && (provider.Some? ==> Lower(entry.provider) == Lower(provider.value))
    && (category.Some? ==>
          exists i :: 0 <= i < |entry.categories| && Lower(entry.categories[i]) == Lower(category.value))
  }

  function Clamp(limit: nat): (n: nat)
    ensures 1 <= n <= 50
    ensures n != limit ==> (limit == 0 && n == 1) || (limit > 50 && n == 50)
  {
    if limit < 1 then 1 else if limit > MAX_DISCOVERY_LIMIT then MAX_DISCOVERY_LIMIT else limit
  }

  datatype Match = Match(key: string, score: real)

  /** Better scores first, equal scores by key. */
  predicate RanksBefore(a: Match, b: Match) {
    a.score > b.score || (a.score == b.score && KeyLess(a.key, b.key))
  }

  lemma RankingIsStrictTotal()
    ensures StrictTotal(RanksBefore)
  {
    forall a ensures !RanksBefore(a, a) { LexIrreflexive(Encode(a.key)); }
    forall a, b ensures a == b || RanksBefore(a, b) || RanksBefore(b, a) {
      LexTrichotomy(Encode(a.key), Encode(b.key));
      if Encode(a.key) == Encode(b.key) { EncodeInjective(a.key, b.key); }
    }
    forall a, b, c | RanksBefore(a, b) && RanksBefore(b, c) ensures RanksBefore(a, c) {
      if a.score == b.score == c.score { LexTransitive(Encode(a.key), Encode(b.key), Encode(c.key)); }
    }
  }

  /** The entry is what the search asks for, and its caller may use it. */
  predicate Candidate(
      state: McpState, args: SearchArgs, mode: Option<Mode>, subject: Option<string>,
      score: (string, ToolEntry) -> real,
      entry: ToolEntry)
  {
    && Selected(entry, mode, NonBlank(args.provider), NonBlank(args.category))
    && Visible(state, entry, subject)
    && score(Trim(args.query), entry) > 0.0
  }

  /** What a search asks for, and whom it answers: read off the arguments. */
  lemma {:induction false} CandidateIff(
      state: McpState, args: SearchArgs, mode: Option<Mode>, subject: Option<string>,
      score: (string, ToolEntry) -> real, e: ToolEntry)
    requires ParseModeFilter(args.mode) == Ok(mode)
    ensures Candidate(state, args, mode, subject, score, e)
            <==> && (args.mode.Some? && Trim(args.mode.value) == "read" ==> e.mode == Read)
                 && (args.mode.Some? && Trim(args.mode.value) == "write" ==> e.mode == Write)
                 && (args.provider.Some? && Trim(args.provider.value) != "" ==>
                       Lower(e.provider) == Lower(Trim(args.provider.value)))
                 && (args.category.Some? && Trim(args.category.value) != "" ==>
                       exists c :: c in e.categories && Lower(c) == Lower(Trim(args.category.value)))
                 && (if subject.Some? then Permitted(state.policies, subject.value, e.key, e.mode)
                     else e.mode == Read || state.autoYes)
                 && score(Trim(args.query), e) > 0.0
  {
    hide Permitted, TrimBy, Lower;
    if args.category.Some? && Trim(args.category.value) != "" {
      CategoryIn(e.categories, Trim(args.category.value));
    }
  }

  lemma CategoryIn(categories: seq<string>, wanted: string)
    ensures (exists i :: 0 <= i < |categories| && Lower(categories[i]) == Lower(wanted))
            <==> exists c :: c in categories && Lower(c) == Lower(wanted)
  {
    hide Lower;
    if c :| c in categories && Lower(c) == Lower(wanted) {
      var i :| 0 <= i < |categories| && categories[i] == c;
      assert Lower(categories[i]) == Lower(wanted);
    }
  }

  function RankOf(args: SearchArgs, score: (string, ToolEntry) -> real, entry: ToolEntry): Match {
    Match(entry.key, score(Trim(args.query), entry))
  }

  /** `matches` are candidates, best first, and no candidate that is left out is better than any of them. */
  ghost predicate BestMatches(
      state: McpState, args: SearchArgs, mode: Option<Mode>, subject: Option<string>,
      score: (string, ToolEntry) -> real,
      matches: seq<Match>)
  {
    && |matches| <= Clamp(args.limit)
    && Sorted(RanksBefore, matches)
    && (forall m :: m in matches ==>
          exists e :: e in state.catalog && Candidate(state, args, mode, subject, score, e)
                      && m == RankOf(args, score, e))
    && forall e :: e in state.catalog && Candidate(state, args, mode, subject, score, e)
         && RankOf(args, score, e) !in matches
         ==> |matches| == Clamp(args.limit)
             && forall m :: m in matches ==> RanksBefore(m, RankOf(args, score, e))
  }

  method DiscoverySearch(
      state: McpState, args: SearchArgs, subject: Option<string>, score: (string, ToolEntry) -> real)
    returns (r: Result<seq<Match>, RpcFailure>)
    ensures var mode := ParseModeFilter(args.mode);
            if Trim(args.query) == "" || mode.Err? then r == Err(InvalidParams)
            else r.Ok? && BestMatches(state, args, mode.value, subject, score, r.value)
    ensures r.Ok? <==> Trim(args.query) != ""
                       && (args.mode.None? || Trim(args.mode.value) in ["", "read", "write"])
    ensures r.Ok? ==> forall i, j :: 0 <= i < j < |r.value| ==>
              || r.value[i].score > r.value[j].score
              || (r.value[i].score == r.value[j].score && KeyLess(r.value[i].key, r.value[j].key))
  {
    hide Permitted, Selected, Trim, LexLess, Encode;
    var query := Trim(args.query);
    if query == "" {
      return Err(InvalidParams);
    }
    var parsed := ParseModeFilter(args.mode);
    if parsed.Err? {
      return Err(parsed.error);
    }
    var mode := parsed.value;
    var limit := Clamp(args.limit);
    var collected: set<Match> := {};
    for i := 0 to |state.catalog|
      invariant forall m :: m in collected <==>
        exists k :: 0 <= k < i && Candidate(state, args, mode, subject, score, state.catalog[k])
                    && m == RankOf(args, score, state.catalog[k])
    {
      var entry := state.catalog[i];
      if Candidate(state, args, mode, subject, score, entry) {
        collected := collected + {RankOf(args, score, entry)};
      }
    }
    RankingIsStrictTotal();
    var ranked := Sort(RanksBefore, collected);
    var kept := if |ranked| > limit then ranked[..limit] else ranked;
    KeptAreBest(state, args, mode, subject, score, collected, ranked, kept);
    return Ok(kept);
  }

  lemma KeptAreBest(
      state: McpState, args: SearchArgs, mode: Option<Mode>, subject: Option<string>,
      score: (string, ToolEntry) -> real,
      collected: set<Match>, ranked: seq<Match>, kept: seq<Match>)
    requires forall m :: m in collected <==>
      exists k :: 0 <= k < |state.catalog| && Candidate(state, args, mode, subject, score, state.catalog[k])
                  && m == RankOf(args, score, state.catalog[k])
    requires SortedListOf(RanksBefore, ranked, collected)
    requires kept == if |ranked| > Clamp(args.limit) then ranked[..Clamp(args.limit)] else ranked
    ensures BestMatches(state, args, mode, subject, score, kept)
  {
    hide Candidate, RanksBefore, RankOf;
    forall m | m in kept
      ensures exists e :: e in state.catalog && Candidate(state, args, mode, subject, score, e)
                          && m == RankOf(args, score, e)
    {
      assert m in ranked && m in collected;
      var k :| 0 <= k < |state.catalog| && Candidate(state, args, mode, subject, score, state.catalog[k])
               && m == RankOf(args, score, state.catalog[k]);
      assert state.catalog[k] in state.catalog;
    }
    forall e | e in state.catalog && Candidate(state, args, mode, subject, score, e) && RankOf(args, score, e) !in kept
      ensures |kept| == Clamp(args.limit) && forall m :: m in kept ==> RanksBefore(m, RankOf(args, score, e))
    {
      var k :| 0 <= k < |state.catalog| && state.catalog[k] == e;
      assert RankOf(args, score, e) in collected;
      var j :| 0 <= j < |ranked| && ranked[j] == RankOf(args, score, e);
      assert j >= |kept|;
    }
  }

  /** Whatever a search finds can be called by its name, when keys are lower case. */
  lemma SearchedIsCallable(
      state: McpState, args: SearchArgs, mode: Option<Mode>, subject: Option<string>,
      score: (string, ToolEntry) -> real,
      matches: seq<Match>, m: Match)
    requires ValidState(state) && forall e :: e in state.catalog ==> Lower(e.key) == e.key
    requires BestMatches(state, args, mode, subject, score, matches) && m in matches
    ensures Call(state, m.key, subject).Ok? && Call(state, m.key, subject).value.key == m.key
  {
    hide Permitted, Selected, Trim, Sorted, Clamp;
    var e :| e in state.catalog && Candidate(state, args, mode, subject, score, e) && m == RankOf(args, score, e);
    GetOwn(state, e);
  }
}
