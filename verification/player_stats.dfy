/** The `stats` map `limited_fetch` builds from the `PlayerStatistics` list of
    a player's combined info: every statistic but four casual-mode ones, the
    last value winning for a repeated name, plus a readable `_formatted`
    copy of the two rank timestamps. */
module PlayerStats {
  import opened Optional
  import DateFormat
  import Text

  /** A statistic value as the upstream JSON carries it. */
  datatype StatValue = IntV(i: int) | StrV(s: string)

  /** One element of `PlayerStatistics`; a key missing from the JSON object
      is `None`. */
  datatype StatEntry = StatEntry(name: Option<string>, value: Option<StatValue>)

  type Stats = map<string, StatValue>

  /** The casual-mode statistics that are never stored. */
  const Excluded: set<string> :=
    {"CasualRank", "CasualRankTimestamp", "CasualRankSamples", "CasualMatchCount"}

  const TeamfightKey := "TeamfightRankTimestamp"
  const DuelKey := "DuelRankTimestamp"

  /** The statistics that get a readable copy. */
  const TimestampKeys: set<string> := {TeamfightKey, DuelKey}

  function FormattedKey(k: string): string
  {
    k + "_formatted"
  }

  // ----- building the map -----

  /** The comprehension reads `stat["StatisticName"]` of every entry (to test
      it against the excluded names) and `stat["Value"]` of every kept entry;
      a missing key raises `KeyError`, which drops the whole player. */
  predicate EntriesReadable(entries: seq<StatEntry>)
  {
    forall i :: 0 <= i < |entries| ==>
      entries[i].name.Some? && (entries[i].name.value !in Excluded ==> entries[i].value.Some?)
  }

  /** The dict comprehension over `PlayerStatistics`, entries taken in list
      order; `None` when it raises. */
  function BuildStats(entries: seq<StatEntry>): (r: Option<Stats>)
    ensures r.Some? <==> EntriesReadable(entries)
    ensures r.Some? ==> r.value.Keys !! Excluded
  {
    if |entries| == 0 then Some(map[])
    else
      var init := entries[..|entries| - 1];
      var last := entries[|entries| - 1];
      assert forall i :: 0 <= i < |init| ==> init[i] == entries[i];
      match BuildStats(init)
      case None => None
      case Some(m) =>
        match last.name
        case None => None
        case Some(n) =>
          if n in Excluded then Some(m)
          else
            match last.value
            case None => None
            case Some(v) => Some(m[n := v])
  }

  /** Some entry carries the name `k`. */
  ghost predicate Named(entries: seq<StatEntry>, k: string)
  {
    exists i :: 0 <= i < |entries| && entries[i].name == Some(k)
  }

  /** Entry `i` is the last one carrying its name. */
  ghost predicate LastWithName(entries: seq<StatEntry>, i: int)
    requires 0 <= i < |entries|
  {
    forall j :: i < j < |entries| ==> entries[j].name != entries[i].name
  }

  /** The map holds exactly the non-excluded names of the list, each with the
      value of its last occurrence. */
  lemma BuildStatsLastWins(entries: seq<StatEntry>)
    requires BuildStats(entries).Some?
    ensures forall k :: k in BuildStats(entries).value <==> k !in Excluded && Named(entries, k)
    ensures forall i :: 0 <= i < |entries| && entries[i].name.value !in Excluded && LastWithName(entries, i) ==>
      && entries[i].name.value in BuildStats(entries).value
      && BuildStats(entries).value[entries[i].name.value] == entries[i].value.value
  {
    BuildStatsKeys(entries);
    BuildStatsValues(entries);
  }

  /** The keys of the map are the non-excluded names of the list. */
  lemma {:induction false} BuildStatsKeys(entries: seq<StatEntry>)
    requires BuildStats(entries).Some?
    ensures forall k :: k in BuildStats(entries).value <==> k !in Excluded && Named(entries, k)
  {
    if |entries| > 0 {
      var init := entries[..|entries| - 1];
      var last := entries[|entries| - 1];
      BuildStatsKeys(init);
      var r := BuildStats(entries).value;
      forall k
        ensures k in r <==> k !in Excluded && Named(entries, k)
      {
        if Named(entries, k) && k != last.name.value {
          var i :| 0 <= i < |entries| && entries[i].name == Some(k);
          assert init[i] == entries[i];
        }
        if Named(init, k) {
          var i :| 0 <= i < |init| && init[i].name == Some(k);
          assert entries[i] == init[i];
        }
        assert entries[|entries| - 1].name == last.name;
      }
    }
  }

  /** Each name's value is the one of its last occurrence. */
  lemma {:induction false} BuildStatsValues(entries: seq<StatEntry>)
    requires BuildStats(entries).Some?
    ensures forall i :: 0 <= i < |entries| && entries[i].name.value !in Excluded && LastWithName(entries, i) ==>
      && entries[i].name.value in BuildStats(entries).value
      && BuildStats(entries).value[entries[i].name.value] == entries[i].value.value
  {
    if |entries| > 0 {
      var init := entries[..|entries| - 1];
      BuildStatsValues(init);
      var r := BuildStats(entries).value;
      forall i | 0 <= i < |entries| - 1 && entries[i].name.value !in Excluded && LastWithName(entries, i)
        ensures entries[i].name.value in r && r[entries[i].name.value] == entries[i].value.value
      {
        assert init[i] == entries[i];
        assert LastWithName(init, i) by {
          forall j | i < j < |init|
            ensures init[j].name != init[i].name
          {
            assert init[j] == entries[j];
          }
        }
      }
    }
  }

  // ----- the `_formatted` entries -----

  /** `format_timestamp` applied to a statistic value: a number is formatted
      as a date-time, while a string makes `utcfromtimestamp` raise
      `TypeError`, so `str` of it, the string itself, comes back. */
  function FormatStat(v: StatValue): (r: string)
    ensures v.StrV? ==> r == v.s
    ensures v.IntV? && !DateFormat.InRange(v.i) ==> r == Text.IntToDecimal(v.i)
    ensures v.IntV? && DateFormat.InRange(v.i) ==>
      |r| == 19 && r[10] == ' ' && DateFormat.ParseIso(r) == Some(DateFormat.FromTimestamp(v.i))
  {
    match v
    case IntV(n) => DateFormat.FormatTimestamp(n)
    case StrV(s) => s
  }

  /** One iteration of the `for ts_key in (...)` loop. */
  function WithFormatted(s: Stats, k: string): Stats
  {
    if k in s then s[FormattedKey(k) := StrV(FormatStat(s[k]))] else s
  }

  /** The keys the loop adds for the map `s`. */
  function AddedKeys(s: Stats): set<string>
  {
    set k | k in TimestampKeys && k in s :: FormattedKey(k)
  }

  /** The loop over `TeamfightRankTimestamp` and `DuelRankTimestamp`: each
      one present gains a readable copy under `<key>_formatted`; nothing else
      is added and every other entry, the raw timestamps included, keeps its
      value. */
  function AddFormatted(s: Stats): (r: Stats)
    ensures r.Keys == s.Keys + AddedKeys(s)
    ensures forall k :: k in TimestampKeys && k in s ==> r[FormattedKey(k)] == StrV(FormatStat(s[k]))
    ensures forall k :: k in s && k !in AddedKeys(s) ==> r[k] == s[k]
  {
    assert FormattedKey(TeamfightKey) != DuelKey;
    assert FormattedKey(TeamfightKey) != FormattedKey(DuelKey);
    WithFormatted(WithFormatted(s, TeamfightKey), DuelKey)
  }

  /** Example: a Teamfight rank timestamp of 1700000000 gets a readable
      copy holding the UTC date-time of that instant. */
  lemma AddFormattedTeamfightExample(s: Stats)
    requires TeamfightKey in s && s[TeamfightKey] == IntV(1700000000)
    ensures FormattedKey(TeamfightKey) in AddFormatted(s)
    ensures AddFormatted(s)[FormattedKey(TeamfightKey)] == StrV("2023-11-14 22:13:20")
  {
    var v := FormatStat(s[TeamfightKey]);
    DateFormat.FormatTimestampExample();
    assert v == DateFormat.FormatTimestamp(1700000000);
  }

  /** No `_formatted` key is an excluded name, so the exclusion survives. */
  lemma AddFormattedKeepsExclusion(s: Stats)
    requires s.Keys !! Excluded
    ensures AddFormatted(s).Keys !! Excluded
  {
    assert AddedKeys(s) <= {FormattedKey(TeamfightKey), FormattedKey(DuelKey)};
  }
}
