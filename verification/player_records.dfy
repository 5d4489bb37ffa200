/** What `limited_fetch` makes of one upstream response, and what
    `collect_all` keeps of all of them. */
module PlayerRecords {
  import opened Optional
  import opened PlayerStats
  import DateFormat

  /** The parts of a decoded GetPlayerCombinedInfo response that
      `limited_fetch` reads from `data.InfoResultPayload`. */
  datatype Payload = Payload(
    /** `UserReadOnlyData.AccountInfo.Value` after its second JSON decoding
        (`{}` when absent); `None` when that text is not a JSON object. */
    accountData: Option<map<string, string>>,
    /** `AccountInfo.Created`, if present. */
    created: Option<string>,
    /** `PlayerStatistics`, `[]` when absent. */
    statistics: seq<StatEntry>)

  /** The dict `limited_fetch` returns for a player. */
  datatype PlayerRecord = PlayerRecord(
    playfabId: string,
    id: string,
    platform: Option<string>,
    username: Option<string>,
    entityId: Option<string>,
    createdAt: Option<string>,
    stats: Stats)

  /** Python's `d.get(k)`. */
  function Get(d: map<string, string>, k: string): Option<string>
  {
    if k in d then Some(d[k]) else None
  }

  /** Python's truth value of an optional string: present and non-empty. */
  predicate Truthy(v: Option<string>)
  {
    v.Some? && v.value != ""
  }

  /** What every record that leaves `limited_fetch` satisfies. */
  predicate ValidRecord(r: PlayerRecord)
  {
    && r.playfabId != ""
    && r.id != ""
    && r.stats.Keys !! Excluded
    && (r.createdAt.Some? ==> |r.createdAt.value| == 19)
  }

  /** The normalisation inside `limited_fetch`: `None` wherever the Python
      code raises (undecodable account data, an unreadable statistic, a
      missing or empty `PlayFabId` or `PlatformAccountId`), the record
      otherwise. */
  function Normalize(p: Payload): (r: Option<PlayerRecord>)
    ensures r.Some? <==>
      && p.accountData.Some?
      && EntriesReadable(p.statistics)
      && Truthy(Get(p.accountData.value, "PlayFabId"))
      && Truthy(Get(p.accountData.value, "PlatformAccountId"))
    ensures r.Some? ==> ValidRecord(r.value)
    ensures r.Some? ==>
      && r.value.playfabId == p.accountData.value["PlayFabId"]
      && r.value.id == p.accountData.value["PlatformAccountId"]
      && r.value.platform == Get(p.accountData.value, "Platform")
      && r.value.username == Get(p.accountData.value, "Name")
      && r.value.entityId == Get(p.accountData.value, "EntityId")
      && r.value.createdAt == DateFormat.IsoToSql(p.created)
  {
    match p.accountData
    case None => None
    case Some(account) =>
      match BuildStats(p.statistics)
      case None => None
      case Some(raw) =>
        var stats := AddFormatted(raw);
        AddFormattedKeepsExclusion(raw);
        var playfabId, id := Get(account, "PlayFabId"), Get(account, "PlatformAccountId");
        if !Truthy(playfabId) || !Truthy(id) then None
        else
          Some(PlayerRecord(
            playfabId.value, id.value,
            Get(account, "Platform"), Get(account, "Name"), Get(account, "EntityId"),
            DateFormat.IsoToSql(p.created), stats))
  }

  /** The `_formatted` keys a statistics list yields: one per rank timestamp
      the list names. */
  ghost function FormattedFor(entries: seq<StatEntry>): set<string>
  {
    set k | k in TimestampKeys && Named(entries, k) :: FormattedKey(k)
  }

  /** Entry `i` is the last occurrence of a kept statistic. */
  ghost predicate KeptLast(es: seq<StatEntry>, i: int)
    requires 0 <= i < |es|
  {
    es[i].name.Some? && es[i].value.Some? && es[i].name.value !in Excluded && LastWithName(es, i)
  }

  /** A record's statistics, end to end: the keys are the list's
      non-excluded names plus a `_formatted` key per rank timestamp present;
      each name keeps the value of its last occurrence, unless it is itself
      one of those `_formatted` keys; and each `_formatted` key holds its
      timestamp's last value, formatted. */
  lemma NormalizeStats(p: Payload)
    requires Normalize(p).Some?
    ensures forall k :: k in Normalize(p).value.stats <==>
      (k !in Excluded && Named(p.statistics, k)) || k in FormattedFor(p.statistics)
    ensures forall i ::
      (0 <= i < |p.statistics| && KeptLast(p.statistics, i)
       && p.statistics[i].name.value !in FormattedFor(p.statistics)) ==>
      && p.statistics[i].name.value in Normalize(p).value.stats
      && Normalize(p).value.stats[p.statistics[i].name.value] == p.statistics[i].value.value
    ensures forall i ::
      (0 <= i < |p.statistics| && KeptLast(p.statistics, i)
       && p.statistics[i].name.value in TimestampKeys) ==>
      && FormattedKey(p.statistics[i].name.value) in Normalize(p).value.stats
      && Normalize(p).value.stats[FormattedKey(p.statistics[i].name.value)]
         == StrV(FormatStat(p.statistics[i].value.value))
  {
    NormalizeBuilt(p);
    ListStats(p.statistics, BuildStats(p.statistics).value, Normalize(p).value.stats);
  }

  lemma NormalizeBuilt(p: Payload)
    requires Normalize(p).Some?
    ensures BuildStats(p.statistics).Some?
    ensures Normalize(p).value.stats == AddFormatted(BuildStats(p.statistics).value)
  {
  }

  /** The same facts about the statistics list alone. */
  lemma ListStats(es: seq<StatEntry>, raw: Stats, st: Stats)
    requires BuildStats(es) == Some(raw) && st == AddFormatted(raw)
    ensures forall k :: k in st <==> (k !in Excluded && Named(es, k)) || k in FormattedFor(es)
    ensures forall i :: 0 <= i < |es| && KeptLast(es, i) && es[i].name.value !in FormattedFor(es) ==>
      es[i].name.value in st && st[es[i].name.value] == es[i].value.value
    ensures forall i :: 0 <= i < |es| && KeptLast(es, i) && es[i].name.value in TimestampKeys ==>
      FormattedKey(es[i].name.value) in st
      && st[FormattedKey(es[i].name.value)] == StrV(FormatStat(es[i].value.value))
  {
    BuildStatsLastWins(es);
    AddedKeysOfList(es, raw);
    forall i | 0 <= i < |es| && KeptLast(es, i)
      ensures es[i].name.value in raw && raw[es[i].name.value] == es[i].value.value
    {
    }
    StatsValues(es, raw, st);
  }

  lemma AddedKeysOfList(es: seq<StatEntry>, raw: Stats)
    requires forall k :: k in raw <==> k !in Excluded && Named(es, k)
    ensures AddedKeys(raw) == FormattedFor(es)
  {
    forall k | k in TimestampKeys
      ensures k in raw <==> Named(es, k)
    {
      assert k !in Excluded;
    }
  }

  lemma StatsValues(es: seq<StatEntry>, raw: Stats, st: Stats)
    requires forall i :: 0 <= i < |es| && KeptLast(es, i) ==>
      es[i].name.value in raw && raw[es[i].name.value] == es[i].value.value
    requires AddedKeys(raw) == FormattedFor(es) && st == AddFormatted(raw)
    ensures forall i :: 0 <= i < |es| && KeptLast(es, i) && es[i].name.value !in FormattedFor(es) ==>
      es[i].name.value in st && st[es[i].name.value] == es[i].value.value
    ensures forall i :: 0 <= i < |es| && KeptLast(es, i) && es[i].name.value in TimestampKeys ==>
      FormattedKey(es[i].name.value) in st
      && st[FormattedKey(es[i].name.value)] == StrV(FormatStat(es[i].value.value))
  {
  }

  // ----- collect_all -----

  /** How the upstream call for one id ended: a decoded response, or an
      exception (a non-200 status, a transport error, undecodable JSON). */
  datatype FetchOutcome = Fetched(payload: Payload) | FetchFailed

  /** `limited_fetch` for one id: every exception becomes `None`. */
  function LimitedFetch(o: FetchOutcome): (r: Option<PlayerRecord>)
    ensures r.Some? <==> o.Fetched? && Normalize(o.payload).Some?
    ensures r.Some? ==> ValidRecord(r.value) && r.value == Normalize(o.payload).value
  {
    match o
    case FetchFailed => None
    case Fetched(p) => Normalize(p)
  }

  /** The gathered results, one per id, in id order. */
  function Results(outcomes: seq<FetchOutcome>): (rs: seq<Option<PlayerRecord>>)
    ensures |rs| == |outcomes|
    ensures forall i :: 0 <= i < |outcomes| ==> rs[i] == LimitedFetch(outcomes[i])
  {
    seq(|outcomes|, i requires 0 <= i < |outcomes| => LimitedFetch(outcomes[i]))
  }

  /** `collect_all`: the records of the ids whose fetch and normalisation
      succeeded, in id order. */
  function CollectAll(outcomes: seq<FetchOutcome>): (records: seq<PlayerRecord>)
    ensures |records| <= |outcomes|
    ensures forall k :: 0 <= k < |records| ==> ValidRecord(records[k])
  {
    KeepSome(Results(outcomes))
  }

  /** The collected list is the subsequence of successful results: each
      success appears, in id order, and nothing else does. */
  lemma CollectAllKeepsSuccessesInOrder(outcomes: seq<FetchOutcome>)
    ensures SelectsSome(Results(outcomes), SomePositions(Results(outcomes)), CollectAll(outcomes))
  {
    KeepSomeIsOrderedSelection(Results(outcomes));
  }

  /** A failure for one id does not disturb the others: collecting two
      batches back to back gives the two results concatenated. */
  lemma CollectAllAppend(a: seq<FetchOutcome>, b: seq<FetchOutcome>)
    ensures CollectAll(a + b) == CollectAll(a) + CollectAll(b)
  {
    assert Results(a + b) == Results(a) + Results(b);
    KeepSomeAppend(Results(a), Results(b));
  }

  /** Example: two ids where the first fetch succeeds and the second
      fails: exactly the first player's record is collected. */
  lemma CollectAllOneFailure(pa: Payload)
    requires Normalize(pa).Some?
    ensures CollectAll([Fetched(pa), FetchFailed]) == [Normalize(pa).value]
  {
    var rs := Results([Fetched(pa), FetchFailed]);
    assert rs == [Normalize(pa), None];
    assert rs[..1] == [Normalize(pa)];
    assert rs[..1][..0] == [];
    assert KeepSome(rs[..1]) == [Normalize(pa).value];
    assert KeepSome(rs) == KeepSome(rs[..1]);
  }
}
