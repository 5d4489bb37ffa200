/** `insert_into_database`: each collected record becomes one
    `INSERT ... ON DUPLICATE KEY UPDATE` on the players table, whose unique
    key is `playfab_id`. The table is a map from that key to its row; a
    statement that fails leaves the table as it was and the loop goes on. */
module Persistence {
  import opened Optional
  import opened PlayerStats
  import opened PlayerRecords

  /** A row of the players table; `statsJson` holds the record's statistics
      map in place of the `json.dumps` text, whose key order is not
      tracked. */
  datatype Row = Row(
    playfabId: string,
    id: string,
    username: Option<string>,
    platform: Option<string>,
    entityId: Option<string>,
    createdAt: Option<string>,
    statsJson: Stats)

  type Table = map<string, Row>

  /** The seven values the statement binds for a record. */
  function RowOf(p: PlayerRecord): Row
  {
    Row(p.playfabId, p.id, p.username, p.platform, p.entityId, p.createdAt, p.stats)
  }

  /** The columns the `INSERT` alone writes: never touched by the
      `ON DUPLICATE KEY UPDATE` clause. */
  datatype WriteOnce = WriteOnce(playfabId: string, id: string, entityId: Option<string>)

  /** The columns the `ON DUPLICATE KEY UPDATE` clause overwrites. */
  datatype Overwritten = Overwritten(
    username: Option<string>, platform: Option<string>, createdAt: Option<string>, statsJson: Stats)

  function WriteOncePart(row: Row): WriteOnce
  {
    WriteOnce(row.playfabId, row.id, row.entityId)
  }

  function OverwrittenPart(row: Row): Overwritten
  {
    Overwritten(row.username, row.platform, row.createdAt, row.statsJson)
  }

  /** The two parts together make up the whole row. */
  lemma RowOfParts(a: Row, b: Row)
    requires WriteOncePart(a) == WriteOncePart(b)
    requires OverwrittenPart(a) == OverwrittenPart(b)
    ensures a == b
  {
    assert a.playfabId == b.playfabId && a.id == b.id && a.entityId == b.entityId;
    assert a.username == b.username && a.platform == b.platform;
    assert a.createdAt == b.createdAt && a.statsJson == b.statsJson;
  }

  /** Every row is filed under its own `playfab_id`. */
  predicate KeyedByPlayFabId(t: Table)
  {
    forall k :: k in t ==> t[k].playfabId == k
  }

  // ----- one statement -----

  /** One `INSERT ... ON DUPLICATE KEY UPDATE` that succeeds. */
  function Upsert(t: Table, p: PlayerRecord): (r: Table)
    ensures r.Keys == t.Keys + {p.playfabId}
    ensures forall k :: k in t && k != p.playfabId ==> r[k] == t[k]
    ensures OverwrittenPart(r[p.playfabId]) == OverwrittenPart(RowOf(p))
    ensures WriteOncePart(r[p.playfabId]) ==
      if p.playfabId in t then WriteOncePart(t[p.playfabId]) else WriteOncePart(RowOf(p))
  {
    var key := p.playfabId;
    if key in t then
      var row := t[key];
      t[key := row.(username := p.username, platform := p.platform,
                    createdAt := p.createdAt, statsJson := p.stats)]
    else
      t[key := RowOf(p)]
  }

  /** A new key gets a row with all seven values from the record. */
  lemma UpsertNewRow(t: Table, p: PlayerRecord)
    requires p.playfabId !in t
    ensures Upsert(t, p)[p.playfabId] == RowOf(p)
  {
    RowOfParts(Upsert(t, p)[p.playfabId], RowOf(p));
  }

  /** Running the same statement twice leaves the table as running it once. */
  lemma UpsertIdempotent(t: Table, p: PlayerRecord)
    ensures Upsert(Upsert(t, p), p) == Upsert(t, p)
  {
    var r := Upsert(t, p);
    var rr := Upsert(r, p);
    RowOfParts(rr[p.playfabId], r[p.playfabId]);
    assert rr.Keys == r.Keys;
  }

  /** The rows stay filed under their own key. */
  lemma UpsertKeepsKeying(t: Table, p: PlayerRecord)
    requires KeyedByPlayFabId(t)
    ensures KeyedByPlayFabId(Upsert(t, p))
  {
  }

  // ----- the whole list -----

  /** The statements of `rs`, all succeeding, applied in list order. */
  function UpsertAll(t: Table, rs: seq<PlayerRecord>): (r: Table)
    ensures r.Keys == t.Keys + PlayFabIds(rs)
  {
    if |rs| == 0 then t
    else
      PlayFabIdsStep(rs);
      Upsert(UpsertAll(t, rs[..|rs| - 1]), rs[|rs| - 1])
  }

  /** The keys the records of `rs` carry. */
  function PlayFabIds(rs: seq<PlayerRecord>): set<string>
  {
    set i | 0 <= i < |rs| :: rs[i].playfabId
  }

  /** The position of the last record of `rs` with key `k`, -1 if none. */
  function LastIndexOf(rs: seq<PlayerRecord>, k: string): (i: int)
    ensures -1 <= i < |rs|
    ensures i >= 0 ==> rs[i].playfabId == k
    ensures forall j :: i < j < |rs| ==> rs[j].playfabId != k
  {
    if |rs| == 0 then -1
    else if rs[|rs| - 1].playfabId == k then |rs| - 1
    else LastIndexOf(rs[..|rs| - 1], k)
  }

  /** The position of the first record of `rs` with key `k`, -1 if none. */
  function FirstIndexOf(rs: seq<PlayerRecord>, k: string): (i: int)
    ensures -1 <= i < |rs|
    ensures i >= 0 ==> rs[i].playfabId == k && forall j :: 0 <= j < i ==> rs[j].playfabId != k
    ensures i < 0 ==> forall j :: 0 <= j < |rs| ==> rs[j].playfabId != k
  {
    if |rs| == 0 then -1
    else
      var i := FirstIndexOf(rs[..|rs| - 1], k);
      assert forall j :: 0 <= j < |rs| - 1 ==> rs[..|rs| - 1][j] == rs[j];
      if i >= 0 then i
      else if rs[|rs| - 1].playfabId == k then |rs| - 1
      else -1
  }

  lemma PlayFabIdsStep(rs: seq<PlayerRecord>)
    requires |rs| > 0
    ensures PlayFabIds(rs) == PlayFabIds(rs[..|rs| - 1]) + {rs[|rs| - 1].playfabId}
  {
    var init := rs[..|rs| - 1];
    forall k | k in PlayFabIds(rs)
      ensures k in PlayFabIds(init) + {rs[|rs| - 1].playfabId}
    {
      var i :| 0 <= i < |rs| && rs[i].playfabId == k;
      if i < |rs| - 1 {
        assert init[i] == rs[i];
      }
    }
    forall k | k in PlayFabIds(init)
      ensures k in PlayFabIds(rs)
    {
      var i :| 0 <= i < |init| && init[i].playfabId == k;
      assert rs[i] == init[i];
    }
    assert rs[|rs| - 1].playfabId in PlayFabIds(rs);
  }

  /** The list leaves every row it does not address as it was. */
  lemma {:induction false} UpsertAllKeys(t: Table, rs: seq<PlayerRecord>)
    ensures forall k :: k in t && k !in PlayFabIds(rs) ==> UpsertAll(t, rs)[k] == t[k]
  {
    if |rs| > 0 {
      UpsertAllKeys(t, rs[..|rs| - 1]);
      PlayFabIdsStep(rs);
    }
  }

  /** Records are applied in list order: a key of the list ends with the
      overwritten columns of its last record. */
  lemma {:induction false} UpsertAllLastWins(t: Table, rs: seq<PlayerRecord>)
    ensures forall k :: k in PlayFabIds(rs) ==>
      && LastIndexOf(rs, k) >= 0
      && k in UpsertAll(t, rs)
      && OverwrittenPart(UpsertAll(t, rs)[k]) == OverwrittenPart(RowOf(rs[LastIndexOf(rs, k)]))
  {
    if |rs| > 0 {
      var init := rs[..|rs| - 1];
      var x := rs[|rs| - 1];
      UpsertAllLastWins(t, init);
      PlayFabIdsStep(rs);
      var r := UpsertAll(t, rs);
      assert r == Upsert(UpsertAll(t, init), x);
      forall k | k in PlayFabIds(rs) && k != x.playfabId
        ensures LastIndexOf(rs, k) >= 0 && k in r
        ensures OverwrittenPart(r[k]) == OverwrittenPart(RowOf(rs[LastIndexOf(rs, k)]))
      {
        assert k in PlayFabIds(init);
        assert rs[LastIndexOf(init, k)] == init[LastIndexOf(init, k)];
      }
    }
  }

  /** A key of the list keeps the write-once columns it had before the list
      or, for a new key, takes those of its first record. */
  lemma {:induction false} UpsertAllWriteOnce(t: Table, rs: seq<PlayerRecord>)
    ensures forall k :: k in PlayFabIds(rs) ==>
      && FirstIndexOf(rs, k) >= 0
      && k in UpsertAll(t, rs)
      && WriteOncePart(UpsertAll(t, rs)[k]) ==
         if k in t then WriteOncePart(t[k]) else WriteOncePart(RowOf(rs[FirstIndexOf(rs, k)]))
  {
    if |rs| > 0 {
      var init := rs[..|rs| - 1];
      var x := rs[|rs| - 1];
      UpsertAllWriteOnce(t, init);
      UpsertAllKeys(t, init);
      PlayFabIdsStep(rs);
      var r0 := UpsertAll(t, init);
      var r := UpsertAll(t, rs);
      assert r == Upsert(r0, x);
      forall k | k in PlayFabIds(init)
        ensures FirstIndexOf(rs, k) >= 0 && k in r
        ensures WriteOncePart(r[k]) ==
          if k in t then WriteOncePart(t[k]) else WriteOncePart(RowOf(rs[FirstIndexOf(rs, k)]))
      {
        assert rs[FirstIndexOf(init, k)] == init[FirstIndexOf(init, k)];
      }
    }
  }

  /** Running the whole list a second time changes nothing: each key's
      overwritten columns already hold its last record's values. */
  lemma UpsertAllIdempotent(t: Table, rs: seq<PlayerRecord>)
    ensures UpsertAll(UpsertAll(t, rs), rs) == UpsertAll(t, rs)
  {
    var r := UpsertAll(t, rs);
    var rr := UpsertAll(r, rs);
    UpsertAllKeys(t, rs);
    UpsertAllKeys(r, rs);
    UpsertAllLastWins(t, rs);
    UpsertAllLastWins(r, rs);
    UpsertAllWriteOnce(r, rs);
    forall k | k in rr
      ensures rr[k] == r[k]
    {
      if k in PlayFabIds(rs) {
        RowOfParts(rr[k], r[k]);
      }
    }
    assert rr.Keys == r.Keys;
  }

  /** What a row made from a normalised record satisfies. */
  predicate ValidRow(row: Row)
  {
    row.playfabId != "" && row.id != "" && row.statsJson.Keys !! Excluded
  }

  /** Every row the list creates comes from its records: when they are all
      valid, so are the new rows. */
  lemma UpsertAllNewRowsValid(t: Table, rs: seq<PlayerRecord>)
    requires forall i :: 0 <= i < |rs| ==> ValidRecord(rs[i])
    ensures forall k :: k in UpsertAll(t, rs) && k !in t ==> ValidRow(UpsertAll(t, rs)[k])
  {
    UpsertAllKeys(t, rs);
    UpsertAllLastWins(t, rs);
    UpsertAllWriteOnce(t, rs);
    forall k | k in UpsertAll(t, rs) && k !in t
      ensures ValidRow(UpsertAll(t, rs)[k])
    {
      assert ValidRecord(rs[FirstIndexOf(rs, k)]);
      assert ValidRecord(rs[LastIndexOf(rs, k)]);
    }
  }

  /** The rows stay filed under their own key after the whole list. */
  lemma {:induction false} UpsertAllKeepsKeying(t: Table, rs: seq<PlayerRecord>)
    requires KeyedByPlayFabId(t)
    ensures KeyedByPlayFabId(UpsertAll(t, rs))
  {
    if |rs| > 0 {
      UpsertAllKeepsKeying(t, rs[..|rs| - 1]);
      UpsertKeepsKeying(UpsertAll(t, rs[..|rs| - 1]), rs[|rs| - 1]);
    }
  }

  // ----- failing statements -----

  /** The record at each position, or `None` where its statement raised. */
  function Attempts(rs: seq<PlayerRecord>, failed: set<nat>): (a: seq<Option<PlayerRecord>>)
    ensures |a| == |rs|
    ensures forall i :: 0 <= i < |rs| ==> a[i] == if i in failed then None else Some(rs[i])
  {
    seq(|rs|, i requires 0 <= i < |rs| => if i in failed then None else Some(rs[i]))
  }

  /** The records whose statement went through, in list order. */
  function Surviving(rs: seq<PlayerRecord>, failed: set<nat>): (s: seq<PlayerRecord>)
    ensures |s| <= |rs|
    ensures forall k :: 0 <= k < |s| ==> s[k] in rs
  {
    SurvivingFromList(rs, failed);
    KeepSome(Attempts(rs, failed))
  }

  lemma SurvivingFromList(rs: seq<PlayerRecord>, failed: set<nat>)
    ensures forall k :: 0 <= k < |KeepSome(Attempts(rs, failed))| ==> KeepSome(Attempts(rs, failed))[k] in rs
  {
    var a := Attempts(rs, failed);
    var s := KeepSome(a);
    forall k | 0 <= k < |s|
      ensures s[k] in rs
    {
      assert Some(s[k]) in a;
      var i :| 0 <= i < |a| && a[i] == Some(s[k]);
      assert rs[i] == s[k];
    }
  }

  /** Without failures every record goes through. */
  lemma {:induction false} SurvivingWithoutFailures(rs: seq<PlayerRecord>, failed: set<nat>)
    requires forall i :: 0 <= i < |rs| ==> i !in failed
    ensures Surviving(rs, failed) == rs
  {
    if |rs| > 0 {
      var init := rs[..|rs| - 1];
      SurvivingWithoutFailures(init, failed);
      assert Attempts(rs, failed)[..|rs| - 1] == Attempts(init, failed);
    }
  }

  lemma SurvivingStep(rs: seq<PlayerRecord>, failed: set<nat>, i: int)
    requires 0 <= i < |rs|
    ensures Surviving(rs[..i + 1], failed) ==
      Surviving(rs[..i], failed) + (if i in failed then [] else [rs[i]])
  {
    var before := Attempts(rs[..i], failed);
    var x := if i in failed then None else Some(rs[i]);
    assert Attempts(rs[..i + 1], failed) == before + [x];
    KeepSomeAppend(before, [x]);
    assert [x][..0] == [];
  }

  lemma UpsertAllStep(t: Table, rs: seq<PlayerRecord>, p: PlayerRecord)
    ensures UpsertAll(t, rs + [p]) == Upsert(UpsertAll(t, rs), p)
  {
    assert (rs + [p])[..|rs|] == rs;
  }

  lemma InsertStep(t: Table, data: seq<PlayerRecord>, failed: set<nat>, i: int)
    requires 0 <= i < |data|
    ensures UpsertAll(t, Surviving(data[..i + 1], failed)) ==
      if i in failed then UpsertAll(t, Surviving(data[..i], failed))
      else Upsert(UpsertAll(t, Surviving(data[..i], failed)), data[i])
  {
    var before := Surviving(data[..i], failed);
    SurvivingStep(data, failed, i);
    if i in failed {
      assert Surviving(data[..i + 1], failed) == before;
    } else {
      assert Surviving(data[..i + 1], failed) == before + [data[i]];
      UpsertAllStep(t, before, data[i]);
    }
  }

  /** `insert_into_database`: one statement per record, in list order; a
      statement that raises (its position is in `failed`) is logged and
      skipped, and the loop carries on with the next record. The table ends
      as if only the surviving records had been sent. */
  method InsertIntoDatabase(t: Table, data: seq<PlayerRecord>, failed: set<nat>) returns (r: Table)
    ensures r == UpsertAll(t, Surviving(data, failed))
  {
    r := t;
    var i := 0;
    while i < |data|
      invariant 0 <= i <= |data|
      invariant r == UpsertAll(t, Surviving(data[..i], failed))
    {
      InsertStep(t, data, failed, i);
      if i !in failed {
        r := Upsert(r, data[i]);
      }
      i := i + 1;
    }
    assert data[..i] == data;
  }

  /** The surviving records are exactly the ones whose statement did not
      raise, in list order. */
  lemma SurvivingAreTheNonFailing(rs: seq<PlayerRecord>, failed: set<nat>)
    ensures SelectsSome(Attempts(rs, failed), SomePositions(Attempts(rs, failed)), Surviving(rs, failed))
  {
    KeepSomeIsOrderedSelection(Attempts(rs, failed));
  }

  // ----- a whole run -----

  /** `run`: collect the players, then write them. */
  function Run(t: Table, outcomes: seq<FetchOutcome>, failed: set<nat>): (r: Table)
    ensures t.Keys <= r.Keys
    ensures forall k :: k in r && k !in t ==> k != ""
  {
    var rs := Surviving(CollectAll(outcomes), failed);
    assert forall k :: k in PlayFabIds(rs) ==> k != "";
    UpsertAll(t, rs)
  }

  /** Every row a run writes comes from a record that passed normalisation. */
  lemma RunWritesValidRows(t: Table, outcomes: seq<FetchOutcome>, failed: set<nat>)
    requires KeyedByPlayFabId(t)
    ensures KeyedByPlayFabId(Run(t, outcomes, failed))
    ensures forall k :: k in Run(t, outcomes, failed) && k !in t ==> ValidRow(Run(t, outcomes, failed)[k])
  {
    var collected := CollectAll(outcomes);
    var rs := Surviving(collected, failed);
    forall i | 0 <= i < |rs|
      ensures ValidRecord(rs[i])
    {
      var j :| 0 <= j < |collected| && collected[j] == rs[i];
    }
    UpsertAllKeepsKeying(t, rs);
    UpsertAllNewRowsValid(t, rs);
  }

  /** One record written to an empty table gives its row alone. */
  lemma WriteOneRecord(p: PlayerRecord)
    ensures UpsertAll(map[], Surviving([p], {})) == map[p.playfabId := RowOf(p)]
  {
    SurvivingWithoutFailures([p], {});
    UpsertAllStep(map[], [], p);
    assert [] + [p] == [p];
    UpsertIntoEmpty(p);
  }

  lemma UpsertIntoEmpty(p: PlayerRecord)
    ensures Upsert(map[], p) == map[p.playfabId := RowOf(p)]
  {
    UpsertNewRow(map[], p);
    assert Upsert(map[], p).Keys == {p.playfabId};
  }

  /** Example: two ids where the first fetch succeeds and the second
      fails, written to an empty table: one row, the first player's. */
  lemma RunOneFailure(pa: Payload)
    requires Normalize(pa).Some?
    ensures Run(map[], [Fetched(pa), FetchFailed], {}) ==
      map[Normalize(pa).value.playfabId := RowOf(Normalize(pa).value)]
  {
    CollectAllOneFailure(pa);
    WriteOneRecord(Normalize(pa).value);
  }
}
