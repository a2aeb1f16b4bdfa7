/** Exporting a Metrics Grimoire identities table as a Sorting Hat snapshot
    (`mg2sh`): every row becomes a unique identity of its own, keyed by its
    `mg_id`, holding one identity with the row's fields. */
module Mg2Sh {
  import opened Wrappers
  import opened TextOrder
  import opened DateTime
  import opened JsonOutput
  import opened KeyedMap
  import opened Snapshot
  import opened MgModel

  /** The identity dict of a row: what `to_dict()` returns, with `id` and
      `uuid` set to the row's key and `source` to the given source. */
  function IdentityOf(row: MgIdentity, uuid: string, source: string): Dict
  {
    row.asDict["id" := Str(uuid)]["uuid" := Str(uuid)]["source" := Str(source)]
  }

  /** The unique identity written for a row under key `uuid`. */
  function UidOf(row: MgIdentity, uuid: string, source: string): UidRecord
  {
    UidRecord(uuid, None, [], [IdentityOf(row, uuid, source)])
  }

  /** The key a row is filed under: `to_unicode(identity.mg_id)`. */
  function KeyOf(row: MgIdentity, toUnicode: Value -> string): string
  {
    toUnicode(row.mgId)
  }

  /** The assignments `uids[uuid] = uid`, one per row, in row order. */
  function Entries(rows: seq<MgIdentity>, source: string, toUnicode: Value -> string): seq<(string, UidRecord)>
  {
    seq(|rows|, i requires 0 <= i < |rows| =>
      (KeyOf(rows[i], toUnicode), UidOf(rows[i], KeyOf(rows[i], toUnicode), source)))
  }

  /** The `uids` dict once the loop has run over `rows`. */
  function Uids(rows: seq<MgIdentity>, source: string, toUnicode: Value -> string): map<string, UidRecord>
  {
    Assign(Entries(rows, source, toUnicode))
  }

  /** The object `to_json` writes, with the clock reading `now`. */
  function SnapshotOf(rows: seq<MgIdentity>, source: string, now: DateTime,
                      toUnicode: Value -> string): Snapshot
  {
    Snapshot(StrDateTime(now), source, [], map[], Uids(rows, source, toUnicode))
  }

  /** `to_json(identities, source)`: `datetime.datetime.now()` is the parameter
      `now`, and the result is the written tree or the `TypeError` that
      `json.dumps` (which has no `default` hook here) raises. */
  method ToJson(identities: seq<MgIdentity>, source: string, now: DateTime,
                toUnicode: Value -> string) returns (out: Result<Json, EncodeError>)
    ensures out == EncodeSnapshot(SnapshotOf(identities, source, now, toUnicode), NoDefault)
  {
    var uids: map<string, UidRecord> := map[];
    for i := 0 to |identities|
      invariant uids == Assign(Entries(identities[..i], source, toUnicode))
    {
      var identity := identities[i];
      var uuid := toUnicode(identity.mgId);

      var x := identity.asDict;
      x := x["id" := Str(uuid)];
      x := x["uuid" := Str(uuid)];
      x := x["source" := Str(source)];

      var uid := UidRecord(uuid, None, [], [x]);

      uids := uids[uuid := uid];
      EntriesSnoc(identities, i, source, toUnicode);
    }
    assert identities[..|identities|] == identities;

    var obj := Snapshot(StrDateTime(now), source, [], map[], uids);
    out := EncodeSnapshot(obj, NoDefault);
  }

  lemma EntriesSnoc(rows: seq<MgIdentity>, i: nat, source: string, toUnicode: Value -> string)
    requires i < |rows|
    ensures var es := Entries(rows[..i + 1], source, toUnicode);
      && es[..i] == Entries(rows[..i], source, toUnicode)
      && es[i] == (KeyOf(rows[i], toUnicode), UidOf(rows[i], KeyOf(rows[i], toUnicode), source))
  {
  }

  /** The written identity has the row's fields, except that `id`, `uuid` and
      `source` are overridden whatever `to_dict()` returned. */
  lemma IdentityOfFields(row: MgIdentity, uuid: string, source: string)
    ensures var x := IdentityOf(row, uuid, source);
      && x.Keys == row.asDict.Keys + {"id", "uuid", "source"}
      && x["id"] == Str(uuid) && x["uuid"] == Str(uuid) && x["source"] == Str(source)
      && forall f | f in row.asDict && f != "id" && f != "uuid" && f != "source" :: x[f] == row.asDict[f]
  {
  }

  /** The uuids written are exactly the keys of the rows. */
  lemma UidsKeys(rows: seq<MgIdentity>, source: string, toUnicode: Value -> string)
    ensures Uids(rows, source, toUnicode).Keys == set i | 0 <= i < |rows| :: KeyOf(rows[i], toUnicode)
  {
    var es := Entries(rows, source, toUnicode);
    assert (set i | 0 <= i < |es| :: es[i].0) == set i | 0 <= i < |rows| :: KeyOf(rows[i], toUnicode) by {
      forall i | 0 <= i < |rows|
        ensures es[i].0 == KeyOf(rows[i], toUnicode)
      {
      }
    }
  }

  /** Row `i` is the last one filed under its key. */
  predicate LastRowFor(rows: seq<MgIdentity>, toUnicode: Value -> string, k: string, i: int)
  {
    && 0 <= i < |rows|
    && KeyOf(rows[i], toUnicode) == k
    && forall j | i < j < |rows| :: KeyOf(rows[j], toUnicode) != k
  }

  /** Every key holds the record of the last row filed under it: `uuid` equal
      to the key, no profile, no enrollments and that row's identity alone. */
  lemma UidsLastRowWins(rows: seq<MgIdentity>, source: string, toUnicode: Value -> string, k: string)
    requires k in Uids(rows, source, toUnicode)
    ensures exists i :: && LastRowFor(rows, toUnicode, k, i)
                        && Uids(rows, source, toUnicode)[k] == UidOf(rows[i], k, source)
    ensures var u := Uids(rows, source, toUnicode)[k];
      u.uuid == k && u.profile.None? && u.enrollments == [] && |u.identities| == 1
  {
    var es := Entries(rows, source, toUnicode);
    AssignLastWins(es, k);
    var i :| IsLastFor(es, k, i) && Assign(es)[k] == es[i].1;
    assert LastRowFor(rows, toUnicode, k, i) by {
      forall j | i < j < |rows|
        ensures KeyOf(rows[j], toUnicode) != k
      {
        assert es[j].0 != k;
      }
    }
  }

  /** A row that no later row shares a key with supplies its key's record;
      in particular, of two rows with the same `mg_id` the later one wins. */
  lemma UidsAt(rows: seq<MgIdentity>, source: string, toUnicode: Value -> string, i: int)
    requires 0 <= i < |rows| && LastRowFor(rows, toUnicode, KeyOf(rows[i], toUnicode), i)
    ensures var k := KeyOf(rows[i], toUnicode);
      k in Uids(rows, source, toUnicode) && Uids(rows, source, toUnicode)[k] == UidOf(rows[i], k, source)
  {
    var es := Entries(rows, source, toUnicode);
    assert IsLastFor(es, es[i].0, i) by {
      forall j | i < j < |es|
        ensures es[j].0 != es[i].0
      {
        assert !(i < j < |rows| && KeyOf(rows[j], toUnicode) == KeyOf(rows[i], toUnicode));
      }
    }
    AssignAt(es, i);
  }

  /** The written export: the source label, the clock reading, an empty
      blacklist and no organizations, and under `uidentities` exactly the keys
      of the rows, each with its record. */
  lemma ToJsonEnvelope(rows: seq<MgIdentity>, source: string, now: DateTime, toUnicode: Value -> string)
    requires EncodeSnapshot(SnapshotOf(rows, source, now, toUnicode), NoDefault).Success?
    ensures var j := EncodeSnapshot(SnapshotOf(rows, source, now, toUnicode), NoDefault).value;
      && Field(j, "source") == Some(JString(source))
      && Field(j, "time") == Some(JString(StrDateTime(now)))
      && Field(j, "blacklist") == Some(JArray([]))
      && Field(j, "organizations") == Some(JObject([]))
      && Field(j, "uidentities").Some?
    ensures var j := EncodeSnapshot(SnapshotOf(rows, source, now, toUnicode), NoDefault).value;
      forall k :: Field(Field(j, "uidentities").value, k).Some? <==>
                  exists i | 0 <= i < |rows| :: KeyOf(rows[i], toUnicode) == k
  {
    var s := SnapshotOf(rows, source, now, toUnicode);
    EncodeSnapshotReadBack(s, NoDefault);
    assert EncodeOrganizations(s, NoDefault).value == JObject([]) by {
      assert SortedKeys({}) == [];
    }
    UidsKeys(rows, source, toUnicode);
  }

  /** The row's own fields, those `to_json` does not override, can all be
      written without a `default` hook. */
  predicate Writable(row: MgIdentity)
  {
    forall f | f in row.asDict && f != "id" && f != "uuid" && f != "source" :: Native(row.asDict[f])
  }

  /** A record is written exactly when its row is writable. */
  lemma UidOfWritable(row: MgIdentity, k: string, source: string)
    ensures EncodeUid(UidOf(row, k, source), NoDefault).Success? <==> Writable(row)
  {
    var x := IdentityOf(row, k, source);
    UidOfEncodes(row, k, source);
    EncodeDictNoDefault(x);
    IdentityOfNative(row, k, source);
  }

  lemma UidOfEncodes(row: MgIdentity, k: string, source: string)
    ensures EncodeUid(UidOf(row, k, source), NoDefault).Success? <==>
            EncodeDict(IdentityOf(row, k, source), NoDefault).Success?
  {
    var x := IdentityOf(row, k, source);
    assert EncodeList([x], d => EncodeDict(d, NoDefault)).Success? <==> EncodeDict(x, NoDefault).Success?;
  }

  lemma IdentityOfNative(row: MgIdentity, k: string, source: string)
    ensures var x := IdentityOf(row, k, source);
      (forall f | f in x :: Native(x[f])) <==> Writable(row)
  {
    var x := IdentityOf(row, k, source);
    IdentityOfFields(row, k, source);
    if Writable(row) {
      forall f | f in x
        ensures Native(x[f])
      {
      }
    }
    if forall f | f in x :: Native(x[f]) {
      forall f | f in row.asDict && f != "id" && f != "uuid" && f != "source"
        ensures Native(row.asDict[f])
      {
        assert x[f] == row.asDict[f];
      }
    }
  }

  /** `json.dumps` is called without a `default` hook, so the export raises
      `TypeError` exactly when the row that supplies some key holds a field
      that is not `None`, a boolean, an integer or a string (a datetime, say). */
  lemma ToJsonSucceeds(rows: seq<MgIdentity>, source: string, now: DateTime, toUnicode: Value -> string)
    ensures EncodeSnapshot(SnapshotOf(rows, source, now, toUnicode), NoDefault).Success? <==>
            forall i | 0 <= i < |rows| && LastRowFor(rows, toUnicode, KeyOf(rows[i], toUnicode), i) :: Writable(rows[i])
  {
    var s := SnapshotOf(rows, source, now, toUnicode);
    var uids := s.uidentities;
    assert EncodeBlacklist(s, NoDefault).Success?;
    EncodeMapSucceeds(s.organizations, d => EncodeDict(d, NoDefault));
    EncodeMapSucceeds(uids, u => EncodeUid(u, NoDefault));
    if EncodeSnapshot(s, NoDefault).Success? {
      forall i | 0 <= i < |rows| && LastRowFor(rows, toUnicode, KeyOf(rows[i], toUnicode), i)
        ensures Writable(rows[i])
      {
        var k := KeyOf(rows[i], toUnicode);
        UidsAt(rows, source, toUnicode, i);
        UidOfWritable(rows[i], k, source);
      }
    } else {
      var k :| k in uids && !EncodeUid(uids[k], NoDefault).Success?;
      UidsLastRowWins(rows, source, toUnicode, k);
      var i :| LastRowFor(rows, toUnicode, k, i) && uids[k] == UidOf(rows[i], k, source);
      UidOfWritable(rows[i], k, source);
    }
  }

  /** Keys are written in sorted order at every level of the export. */
  lemma ToJsonSorted(rows: seq<MgIdentity>, source: string, now: DateTime, toUnicode: Value -> string)
    ensures var r := EncodeSnapshot(SnapshotOf(rows, source, now, toUnicode), NoDefault);
      r.Success? ==> KeysSorted(r.value)
  {
    EncodeSnapshotSorted(SnapshotOf(rows, source, now, toUnicode), NoDefault);
  }
}
