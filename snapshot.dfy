/** The Sorting Hat export both exporters produce: an envelope holding the
    generation time, the source label, a blacklist, the organizations and the
    unique identities keyed by uuid, written with `sort_keys=True`. */
module Snapshot {
  import opened Wrappers
  import opened TextOrder
  import opened JsonOutput

  /** One unique identity: `{'uuid', 'profile', 'enrollments', 'identities'}`. */
  datatype UidRecord = UidRecord(uuid: string, profile: Option<Dict>,
                                 enrollments: seq<Dict>, identities: seq<Dict>)

  /** The exported object: `{'time', 'source', 'blacklist', 'organizations', 'uidentities'}`. */
  datatype Snapshot = Snapshot(time: string, source: string, blacklist: seq<Value>,
                               organizations: map<string, Dict>,
                               uidentities: map<string, UidRecord>)

  function EncodeProfile(p: Option<Dict>, default: Value -> Result<Json, EncodeError>): Result<Json, EncodeError>
  {
    match p
    case None => Success(JNull)
    case Some(d) => EncodeDict(d, default)
  }

  /** A unique identity, its keys written in sorted order
      (enrollments, identities, profile, uuid). */
  function EncodeUid(u: UidRecord, default: Value -> Result<Json, EncodeError>): Result<Json, EncodeError>
  {
    match EncodeList(u.enrollments, d => EncodeDict(d, default))
    case Failure(e) => Failure(e)
    case Success(enrollments) =>
      match EncodeList(u.identities, d => EncodeDict(d, default))
      case Failure(e) => Failure(e)
      case Success(identities) =>
        match EncodeProfile(u.profile, default)
        case Failure(e) => Failure(e)
        case Success(profile) =>
          Success(JObject([Member("enrollments", enrollments), Member("identities", identities),
                           Member("profile", profile), Member("uuid", JString(u.uuid))]))
  }

  function EncodeBlacklist(s: Snapshot, default: Value -> Result<Json, EncodeError>): Result<Json, EncodeError>
  {
    EncodeList(s.blacklist, v => EncodeValue(v, default))
  }

  function EncodeOrganizations(s: Snapshot, default: Value -> Result<Json, EncodeError>): Result<Json, EncodeError>
  {
    EncodeMap(s.organizations, d => EncodeDict(d, default))
  }

  function EncodeUidentities(s: Snapshot, default: Value -> Result<Json, EncodeError>): Result<Json, EncodeError>
  {
    EncodeMap(s.uidentities, u => EncodeUid(u, default))
  }

  /** The members of the export, keys in sorted order. */
  function SnapshotMembers(blacklist: Json, organizations: Json, source: string, time: string,
                           uidentities: Json): seq<Member>
  {
    [Member("blacklist", blacklist), Member("organizations", organizations),
     Member("source", JString(source)), Member("time", JString(time)),
     Member("uidentities", uidentities)]
  }

  /** The whole export, its keys written in sorted order
      (blacklist, organizations, source, time, uidentities). */
  function EncodeSnapshot(s: Snapshot, default: Value -> Result<Json, EncodeError>): (r: Result<Json, EncodeError>)
    ensures r.Success? <==> (EncodeBlacklist(s, default).Success? && EncodeOrganizations(s, default).Success?
                             && EncodeUidentities(s, default).Success?)
    ensures r.Success? ==> r.value == JObject(SnapshotMembers(
              EncodeBlacklist(s, default).value, EncodeOrganizations(s, default).value,
              s.source, s.time, EncodeUidentities(s, default).value))
  {
    match EncodeBlacklist(s, default)
    case Failure(e) => Failure(e)
    case Success(blacklist) =>
      match EncodeOrganizations(s, default)
      case Failure(e) => Failure(e)
      case Success(organizations) =>
        match EncodeUidentities(s, default)
        case Failure(e) => Failure(e)
        case Success(uidentities) =>
          Success(JObject(SnapshotMembers(blacklist, organizations, s.source, s.time, uidentities)))
  }

  /** Keys that start with increasing characters are in increasing order. */
  lemma {:induction false} IncreasingByFirstChar(ks: seq<string>)
    requires forall i | 0 <= i < |ks| :: ks[i] != []
    requires forall i, j | 0 <= i < j < |ks| :: ks[i][0] < ks[j][0]
    ensures StrictlyIncreasing(ks)
  {
    forall i, j | 0 <= i < j < |ks|
      ensures Less(ks[i], ks[j])
    {
      assert ks[i][0] != ks[j][0];
    }
  }

  lemma EncodeDictsSorted(ds: seq<Dict>, default: Value -> Result<Json, EncodeError>)
    requires SortedHook(default)
    ensures EncodeList(ds, d => EncodeDict(d, default)).Success? ==>
              KeysSorted(EncodeList(ds, d => EncodeDict(d, default)).value)
  {
    forall i | 0 <= i < |ds|
      ensures EncodeDict(ds[i], default).Success? ==> KeysSorted(EncodeDict(ds[i], default).value)
    {
      EncodeDictSorted(ds[i], default);
    }
    EncodeListSorted(ds, d => EncodeDict(d, default));
  }

  /** The object a unique identity is written as has sorted keys when its parts do. */
  lemma UidObjectSorted(enrollments: Json, identities: Json, profile: Json, uuid: string)
    requires KeysSorted(enrollments) && KeysSorted(identities) && KeysSorted(profile)
    ensures KeysSorted(JObject([Member("enrollments", enrollments), Member("identities", identities),
                                Member("profile", profile), Member("uuid", JString(uuid))]))
  {
    var ms := [Member("enrollments", enrollments), Member("identities", identities),
               Member("profile", profile), Member("uuid", JString(uuid))];
    var ks := MemberKeys(ms);
    assert ks == ["enrollments", "identities", "profile", "uuid"];
    IncreasingByFirstChar(ks);
  }

  lemma EncodeUidSorted(u: UidRecord, default: Value -> Result<Json, EncodeError>)
    requires SortedHook(default)
    ensures EncodeUid(u, default).Success? ==> KeysSorted(EncodeUid(u, default).value)
  {
    var r := EncodeUid(u, default);
    if r.Success? {
      var enrollments := EncodeList(u.enrollments, d => EncodeDict(d, default));
      var identities := EncodeList(u.identities, d => EncodeDict(d, default));
      var profile := EncodeProfile(u.profile, default);
      assert KeysSorted(enrollments.value) by {
        EncodeDictsSorted(u.enrollments, default);
      }
      assert KeysSorted(identities.value) by {
        EncodeDictsSorted(u.identities, default);
      }
      assert KeysSorted(profile.value) by {
        if u.profile.Some? {
          EncodeDictSorted(u.profile.value, default);
        }
      }
      UidObjectSorted(enrollments.value, identities.value, profile.value, u.uuid);
    }
  }

  lemma BlacklistSorted(s: Snapshot, default: Value -> Result<Json, EncodeError>)
    requires SortedHook(default)
    ensures EncodeBlacklist(s, default).Success? ==> KeysSorted(EncodeBlacklist(s, default).value)
  {
    forall i | 0 <= i < |s.blacklist|
      ensures EncodeValue(s.blacklist[i], default).Success? ==> KeysSorted(EncodeValue(s.blacklist[i], default).value)
    {
      EncodeValueSorted(s.blacklist[i], default);
    }
    EncodeListSorted(s.blacklist, v => EncodeValue(v, default));
  }

  lemma OrganizationsSorted(s: Snapshot, default: Value -> Result<Json, EncodeError>)
    requires SortedHook(default)
    ensures EncodeOrganizations(s, default).Success? ==> KeysSorted(EncodeOrganizations(s, default).value)
  {
    forall k | k in s.organizations
      ensures EncodeDict(s.organizations[k], default).Success? ==> KeysSorted(EncodeDict(s.organizations[k], default).value)
    {
      EncodeDictSorted(s.organizations[k], default);
    }
    EncodeMapSorted(s.organizations, d => EncodeDict(d, default));
  }

  lemma UidentitiesSorted(s: Snapshot, default: Value -> Result<Json, EncodeError>)
    requires SortedHook(default)
    ensures EncodeUidentities(s, default).Success? ==> KeysSorted(EncodeUidentities(s, default).value)
  {
    forall k | k in s.uidentities
      ensures EncodeUid(s.uidentities[k], default).Success? ==> KeysSorted(EncodeUid(s.uidentities[k], default).value)
    {
      EncodeUidSorted(s.uidentities[k], default);
    }
    EncodeMapSorted(s.uidentities, u => EncodeUid(u, default));
  }

  lemma SnapshotKeysIncreasing(blacklist: Json, organizations: Json, source: string, time: string,
                               uidentities: Json)
    ensures StrictlyIncreasing(MemberKeys(SnapshotMembers(blacklist, organizations, source, time, uidentities)))
  {
    var ks := MemberKeys(SnapshotMembers(blacklist, organizations, source, time, uidentities));
    assert ks == ["blacklist", "organizations", "source", "time", "uidentities"];
    IncreasingByFirstChar(ks);
  }

  /** The object the export is written as has sorted keys when its parts do. */
  lemma SnapshotObjectSorted(blacklist: Json, organizations: Json, source: string, time: string,
                             uidentities: Json)
    requires KeysSorted(blacklist) && KeysSorted(organizations) && KeysSorted(uidentities)
    ensures KeysSorted(JObject(SnapshotMembers(blacklist, organizations, source, time, uidentities)))
  {
    SnapshotKeysIncreasing(blacklist, organizations, source, time, uidentities);
  }

  /** Keys are sorted at every level of the written export. */
  lemma EncodeSnapshotSorted(s: Snapshot, default: Value -> Result<Json, EncodeError>)
    requires SortedHook(default)
    ensures EncodeSnapshot(s, default).Success? ==> KeysSorted(EncodeSnapshot(s, default).value)
  {
    if EncodeSnapshot(s, default).Success? {
      BlacklistSorted(s, default);
      OrganizationsSorted(s, default);
      UidentitiesSorted(s, default);
      SnapshotObjectSorted(EncodeBlacklist(s, default).value, EncodeOrganizations(s, default).value,
                           s.source, s.time, EncodeUidentities(s, default).value);
    }
  }

  /** Reading the written export back recovers each part: the blacklist, the
      organizations, the source label, the time and,
      under `uidentities`, exactly the snapshot's uuids, each with its own record. */
  lemma EncodeSnapshotReadBack(s: Snapshot, default: Value -> Result<Json, EncodeError>)
    requires EncodeSnapshot(s, default).Success?
    ensures var j := EncodeSnapshot(s, default).value;
      && Field(j, "blacklist") == Some(EncodeBlacklist(s, default).value)
      && Field(j, "organizations") == Some(EncodeOrganizations(s, default).value)
      && Field(j, "source") == Some(JString(s.source))
      && Field(j, "time") == Some(JString(s.time))
      && Field(j, "uidentities") == Some(EncodeUidentities(s, default).value)
    ensures var u := EncodeUidentities(s, default).value;
      && (forall k :: Field(u, k).Some? <==> k in s.uidentities)
      && (forall k | k in s.uidentities :: EncodeUid(s.uidentities[k], default) == Success(Field(u, k).value))
  {
    var b, o, u := EncodeBlacklist(s, default).value, EncodeOrganizations(s, default).value,
                   EncodeUidentities(s, default).value;
    SnapshotFields(b, o, s.source, s.time, u);
    EncodeMapReadBack(s.uidentities, u => EncodeUid(u, default));
  }

  lemma SnapshotFields(blacklist: Json, organizations: Json, source: string, time: string,
                       uidentities: Json)
    ensures var j := JObject(SnapshotMembers(blacklist, organizations, source, time, uidentities));
      && Field(j, "blacklist") == Some(blacklist)
      && Field(j, "organizations") == Some(organizations)
      && Field(j, "source") == Some(JString(source))
      && Field(j, "time") == Some(JString(time))
      && Field(j, "uidentities") == Some(uidentities)
  {
    var top := SnapshotMembers(blacklist, organizations, source, time, uidentities);
    SnapshotKeysIncreasing(blacklist, organizations, source, time, uidentities);
    FieldInIncreasing(top, 0);
    FieldInIncreasing(top, 1);
    FieldInIncreasing(top, 2);
    FieldInIncreasing(top, 3);
    FieldInIncreasing(top, 4);
    assert top[0].key == "blacklist" && top[1].key == "organizations" && top[2].key == "source"
        && top[3].key == "time" && top[4].key == "uidentities";
  }

  /** Under `organizations`, the written export holds exactly the snapshot's
      organization names, each with its own encoded dict. */
  lemma OrganizationsReadBack(s: Snapshot, default: Value -> Result<Json, EncodeError>)
    requires EncodeOrganizations(s, default).Success?
    ensures var o := EncodeOrganizations(s, default).value;
      && (forall n :: Field(o, n).Some? <==> n in s.organizations)
      && (forall n | n in s.organizations :: EncodeDict(s.organizations[n], default) == Success(Field(o, n).value))
  {
    EncodeMapReadBack(s.organizations, d => EncodeDict(d, default));
  }
}
