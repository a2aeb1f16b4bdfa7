/** Exporting the identities of an Eclipse export as a Sorting Hat snapshot
    (`eclipse2sh`): unique identities keyed by uuid, each with its identities
    sorted by email and its enrollments converted to dicts, and the
    organizations collapsed to a map from name to an empty dict. */
module Eclipse2Sh {
  import opened Wrappers
  import opened TextOrder
  import opened DateTime
  import opened JsonOutput
  import opened KeyedMap
  import opened Snapshot

  /** What an identity's `to_dict()` returns: its `email`, always a string
      here, and its other fields. */
  datatype IdentityDict = IdentityDict(email: string, fields: Dict)

  /** What a unique identity's `to_dict()` returns. */
  datatype UidDict = UidDict(uuid: string, profile: Option<Dict>,
                             identities: seq<IdentityDict>, enrollments: seq<Dict>)

  /** An enrollment; `asDict` stands for what its `to_dict()` returns. */
  datatype Enrollment = Enrollment(asDict: Dict)

  /** A unique identity as the Eclipse parser produces it. */
  datatype UniqueIdentity = UniqueIdentity(uuid: string, asDict: UidDict, enrollments: seq<Enrollment>)

  datatype Organization = Organization(name: string)

  function AsDict(x: IdentityDict): Dict
  {
    x.fields["email" := Str(x.email)]
  }

  function IdentityDicts(xs: seq<IdentityDict>): seq<Dict>
  {
    seq(|xs|, i requires 0 <= i < |xs| => AsDict(xs[i]))
  }

  /** A unique identity dict as it is written. */
  function RecordOf(uid: UidDict): UidRecord
  {
    UidRecord(uid.uuid, uid.profile, uid.enrollments, IdentityDicts(uid.identities))
  }

  // ---------------------------------------------------------------------------
  // Sorting a unique identity's identities by their email

  predicate SortedByEmail(xs: seq<IdentityDict>)
  {
    forall i, j | 0 <= i < j < |xs| :: LessEq(xs[i].email, xs[j].email)
  }

  /** Puts `x` in front of the first entry whose email is not smaller. */
  function InsertByEmail(x: IdentityDict, s: seq<IdentityDict>): (r: seq<IdentityDict>)
    ensures multiset(r) == multiset(s) + multiset{x}
  {
    if s == [] || LessEq(x.email, s[0].email) then [x] + s
    else
      assert s == [s[0]] + s[1..];
      [s[0]] + InsertByEmail(x, s[1..])
  }

  /** The list `sort` leaves behind: the entries ordered by email, entries with
      equal emails kept in their original order. */
  function SortByEmail(xs: seq<IdentityDict>): (r: seq<IdentityDict>)
    ensures multiset(r) == multiset(xs)
  {
    if xs == [] then []
    else
      assert xs == [xs[0]] + xs[1..];
      InsertByEmail(xs[0], SortByEmail(xs[1..]))
  }

  lemma {:induction false} InsertByEmailSorted(x: IdentityDict, s: seq<IdentityDict>)
    requires SortedByEmail(s)
    ensures SortedByEmail(InsertByEmail(x, s))
  {
    var r := InsertByEmail(x, s);
    if s == [] || LessEq(x.email, s[0].email) {
      forall i, j | 0 <= i < j < |r|
        ensures LessEq(r[i].email, r[j].email)
      {
        if i == 0 && j > 1 {
          Transitive(x.email, s[0].email, s[j - 1].email);
        }
      }
    } else {
      var tail := InsertByEmail(x, s[1..]);
      InsertByEmailSorted(x, s[1..]);
      Total(x.email, s[0].email);
      forall y | y in tail
        ensures LessEq(s[0].email, y.email)
      {
        assert y in multiset(tail);
        if y != x {
          assert y in s[1..];
        }
      }
      forall i, j | 0 <= i < j < |r|
        ensures LessEq(r[i].email, r[j].email)
      {
        if i == 0 {
          assert r[j] == tail[j - 1] && r[j] in tail;
        } else {
          assert r[i] == tail[i - 1] && r[j] == tail[j - 1];
        }
      }
    }
  }

  /** After sorting, emails are in ascending order. */
  lemma {:induction false} SortByEmailSorted(xs: seq<IdentityDict>)
    ensures SortedByEmail(SortByEmail(xs))
  {
    if xs != [] {
      SortByEmailSorted(xs[1..]);
      InsertByEmailSorted(xs[0], SortByEmail(xs[1..]));
    }
  }

  /** The entries whose email is `e`, in order. */
  function WithEmail(xs: seq<IdentityDict>, e: string): seq<IdentityDict>
  {
    if xs == [] then []
    else (if xs[0].email == e then [xs[0]] else []) + WithEmail(xs[1..], e)
  }

  lemma {:induction false} InsertByEmailStable(x: IdentityDict, s: seq<IdentityDict>, e: string)
    ensures WithEmail(InsertByEmail(x, s), e) == WithEmail([x] + s, e)
  {
    if s == [] || LessEq(x.email, s[0].email) {
    } else {
      // s[0] goes first; its email differs from x's, so the two cannot both be kept
      var tail := InsertByEmail(x, s[1..]);
      var rest := WithEmail(s[1..], e);
      var keepX := if x.email == e then [x] else [];
      var keepS0 := if s[0].email == e then [s[0]] else [];
      assert WithEmail(tail, e) == keepX + rest by {
        InsertByEmailStable(x, s[1..], e);
        assert ([x] + s[1..])[1..] == s[1..];
      }
      assert WithEmail([s[0]] + tail, e) == keepS0 + (keepX + rest) by {
        assert ([s[0]] + tail)[1..] == tail;
      }
      assert WithEmail([x] + s, e) == keepX + (keepS0 + rest) by {
        assert ([x] + s)[1..] == s;
      }
      assert keepS0 == [] || keepX == [] by {
        Reflexive(x.email);
      }
    }
  }

  /** Sorting is stable: the entries sharing an email keep their relative order. */
  lemma {:induction false} SortByEmailStable(xs: seq<IdentityDict>, e: string)
    ensures WithEmail(SortByEmail(xs), e) == WithEmail(xs, e)
  {
    if xs != [] {
      SortByEmailStable(xs[1..], e);
      InsertByEmailStable(xs[0], SortByEmail(xs[1..]), e);
      assert ([xs[0]] + SortByEmail(xs[1..]))[1..] == SortByEmail(xs[1..]);
    }
  }

  // ---------------------------------------------------------------------------
  // to_json

  /** The dict of each enrollment, in order. */
  function EnrollmentDicts(es: seq<Enrollment>): seq<Dict>
  {
    seq(|es|, i requires 0 <= i < |es| => es[i].asDict)
  }

  /** The record written for a unique identity: its dict, identities sorted by
      email and enrollments replaced by the converted enrollments. */
  function Converted(u: UniqueIdentity): UidRecord
  {
    RecordOf(u.asDict.(identities := SortByEmail(u.asDict.identities),
                       enrollments := EnrollmentDicts(u.enrollments)))
  }

  /** The assignments `uids[uuid] = uid`, one per unique identity, in order. */
  function Entries(us: seq<UniqueIdentity>): seq<(string, UidRecord)>
  {
    seq(|us|, i requires 0 <= i < |us| => (us[i].uuid, Converted(us[i])))
  }

  function Uids(us: seq<UniqueIdentity>): map<string, UidRecord>
  {
    Assign(Entries(us))
  }

  function Names(orgs: seq<Organization>): set<string>
  {
    set i | 0 <= i < |orgs| :: orgs[i].name
  }

  /** Every organization name mapped to an empty dict. */
  function OrganizationsMap(orgs: seq<Organization>): map<string, Dict>
  {
    map n | n in Names(orgs) :: map[]
  }

  /** The object `to_json` writes, with the clock reading `now`. */
  function SnapshotOf(us: seq<UniqueIdentity>, orgs: seq<Organization>, source: string,
                      now: DateTime): Snapshot
  {
    Snapshot(StrDateTime(now), source, [], OrganizationsMap(orgs), Uids(us))
  }

  /** `json_encoder`: a datetime is written as its ISO string; anything else
      goes to `json.JSONEncoder.default`, which raises `TypeError`. */
  function JsonEncoder(v: Value): Result<Json, EncodeError>
  {
    if v.Time? then Success(JString(IsoFormat(v.t, 'T')))
    else Failure(TypeError(TypeName(v)))
  }

  /** `to_json(uidentities, organizations, source)`: `datetime.datetime.now()`
      is the parameter `now`, and the result is the written tree or the
      `TypeError` that `json.dumps` raises. */
  method ToJson(uidentities: seq<UniqueIdentity>, organizations: seq<Organization>, source: string,
                now: DateTime) returns (out: Result<Json, EncodeError>)
    ensures out == EncodeSnapshot(SnapshotOf(uidentities, organizations, source, now), JsonEncoder)
  {
    var uids: map<string, UidRecord> := map[];
    for i := 0 to |uidentities|
      invariant uids == Assign(Entries(uidentities[..i]))
    {
      var uidentity := uidentities[i];
      var uuid := uidentity.uuid;

      var uid := uidentity.asDict;
      uid := uid.(identities := SortByEmail(uid.identities));

      var enrollments := EnrollmentDicts(uidentity.enrollments);
      uid := uid.(enrollments := enrollments);

      uids := uids[uuid := RecordOf(uid)];
      EntriesSnoc(uidentities, i);
    }
    assert uidentities[..|uidentities|] == uidentities;

    var orgs := OrganizationsMap(organizations);
    var obj := Snapshot(StrDateTime(now), source, [], orgs, uids);
    out := EncodeSnapshot(obj, JsonEncoder);
  }

  lemma EntriesSnoc(us: seq<UniqueIdentity>, i: nat)
    requires i < |us|
    ensures var es := Entries(us[..i + 1]);
      es[..i] == Entries(us[..i]) && es[i] == (us[i].uuid, Converted(us[i]))
  {
  }

  // ---------------------------------------------------------------------------
  // Properties

  /** The encoder succeeds on datetimes and on nothing else, and a datetime
      it writes reads back as the same datetime. */
  lemma JsonEncoderTimes(v: Value)
    ensures JsonEncoder(v).Success? <==> v.Time?
    ensures v.Time? && Valid(v.t) ==>
              JsonEncoder(v).value.JString? && ParseIsoFormat(JsonEncoder(v).value.s, 'T') == Some(v.t)
  {
    if v.Time? && Valid(v.t) {
      IsoFormatRoundTrip(v.t, 'T');
    }
  }

  /** The uuids written are exactly the uuids of the unique identities. */
  lemma UidsKeys(us: seq<UniqueIdentity>)
    ensures Uids(us).Keys == set i | 0 <= i < |us| :: us[i].uuid
  {
    var es := Entries(us);
    assert (set i | 0 <= i < |es| :: es[i].0) == set i | 0 <= i < |us| :: us[i].uuid by {
      forall i | 0 <= i < |us|
        ensures es[i].0 == us[i].uuid
      {
      }
    }
  }

  /** `us[i]` is the last unique identity with uuid `k`. */
  predicate LastFor(us: seq<UniqueIdentity>, k: string, i: int)
  {
    0 <= i < |us| && us[i].uuid == k && forall j | i < j < |us| :: us[j].uuid != k
  }

  /** Every uuid holds the record of the last unique identity with that uuid. */
  lemma UidsLastWins(us: seq<UniqueIdentity>, k: string)
    requires k in Uids(us)
    ensures exists i :: LastFor(us, k, i) && Uids(us)[k] == Converted(us[i])
  {
    var es := Entries(us);
    AssignLastWins(es, k);
    var i :| IsLastFor(es, k, i) && Assign(es)[k] == es[i].1;
    assert LastFor(us, k, i) by {
      forall j | i < j < |us|
        ensures us[j].uuid != k
      {
        assert es[j].0 != k;
      }
    }
  }

  /** A unique identity that no later one shares its uuid with supplies the
      record of that uuid. */
  lemma UidsAt(us: seq<UniqueIdentity>, i: int)
    requires 0 <= i < |us| && LastFor(us, us[i].uuid, i)
    ensures us[i].uuid in Uids(us) && Uids(us)[us[i].uuid] == Converted(us[i])
  {
    var es := Entries(us);
    assert IsLastFor(es, es[i].0, i) by {
      forall j | i < j < |es|
        ensures es[j].0 != es[i].0
      {
        assert !(i < j < |us| && us[j].uuid == us[i].uuid);
      }
    }
    AssignAt(es, i);
  }

  /** A written record: its identities are the unique identity's identities,
      ascending by email, with equal emails in their original order; its
      enrollments are the enrollments' dicts, one for one and in order; uuid
      and profile come from the unique identity's dict. */
  lemma ConvertedRecord(u: UniqueIdentity)
    ensures var r := Converted(u); var ids := SortByEmail(u.asDict.identities);
      && r.uuid == u.asDict.uuid && r.profile == u.asDict.profile
      && r.identities == IdentityDicts(ids)
      && SortedByEmail(ids)
      && multiset(ids) == multiset(u.asDict.identities)
      && (forall e :: WithEmail(ids, e) == WithEmail(u.asDict.identities, e))
      && |r.enrollments| == |u.enrollments|
      && (forall i | 0 <= i < |u.enrollments| :: r.enrollments[i] == u.enrollments[i].asDict)
  {
    SortByEmailSorted(u.asDict.identities);
    forall e
      ensures WithEmail(SortByEmail(u.asDict.identities), e) == WithEmail(u.asDict.identities, e)
    {
      SortByEmailStable(u.asDict.identities, e);
    }
  }

  /** One key per distinct organization name, each holding an empty dict;
      duplicate names collapse, so there are at most as many keys as
      organizations. */
  lemma OrganizationsMapShape(orgs: seq<Organization>)
    ensures OrganizationsMap(orgs).Keys == set i | 0 <= i < |orgs| :: orgs[i].name
    ensures forall n | n in OrganizationsMap(orgs) :: OrganizationsMap(orgs)[n] == map[]
    ensures |OrganizationsMap(orgs).Keys| <= |orgs|
  {
    NamesBound(orgs);
  }

  lemma {:induction false} NamesBound(orgs: seq<Organization>)
    ensures |Names(orgs)| <= |orgs|
  {
    if orgs != [] {
      var init := orgs[..|orgs| - 1];
      NamesBound(init);
      assert Names(orgs) == Names(init) + {orgs[|orgs| - 1].name} by {
        forall n | n in Names(orgs)
          ensures n in Names(init) + {orgs[|orgs| - 1].name}
        {
          var i :| 0 <= i < |orgs| && orgs[i].name == n;
          if i < |orgs| - 1 {
            assert init[i] == orgs[i];
          }
        }
        forall n | n in Names(init)
          ensures n in Names(orgs)
        {
          var i :| 0 <= i < |init| && init[i].name == n;
          assert orgs[i] == init[i];
        }
      }
    }
  }

  /** The encoder keeps keys sorted: it writes only strings. */
  lemma JsonEncoderSorted()
    ensures SortedHook(JsonEncoder)
  {
  }

  /** The written export: the source label, the clock reading, an empty
      blacklist, and under `uidentities` exactly the uuids of the unique
      identities. */
  lemma ToJsonEnvelope(us: seq<UniqueIdentity>, orgs: seq<Organization>, source: string, now: DateTime)
    requires EncodeSnapshot(SnapshotOf(us, orgs, source, now), JsonEncoder).Success?
    ensures var j := EncodeSnapshot(SnapshotOf(us, orgs, source, now), JsonEncoder).value;
      && Field(j, "source") == Some(JString(source))
      && Field(j, "time") == Some(JString(StrDateTime(now)))
      && Field(j, "blacklist") == Some(JArray([]))
      && Field(j, "uidentities").Some?
    ensures var j := EncodeSnapshot(SnapshotOf(us, orgs, source, now), JsonEncoder).value;
      forall k :: Field(Field(j, "uidentities").value, k).Some? <==>
                  exists i | 0 <= i < |us| :: us[i].uuid == k
  {
    EncodeSnapshotReadBack(SnapshotOf(us, orgs, source, now), JsonEncoder);
    UidsKeys(us);
  }

  /** Under `organizations`, the written export holds one member per distinct
      organization name, each an empty object. */
  lemma ToJsonOrganizations(us: seq<UniqueIdentity>, orgs: seq<Organization>, source: string, now: DateTime)
    requires EncodeSnapshot(SnapshotOf(us, orgs, source, now), JsonEncoder).Success?
    ensures var j := EncodeSnapshot(SnapshotOf(us, orgs, source, now), JsonEncoder).value;
      Field(j, "organizations").Some?
    ensures var o := Field(EncodeSnapshot(SnapshotOf(us, orgs, source, now), JsonEncoder).value, "organizations").value;
      && (forall n :: Field(o, n).Some? <==> exists i | 0 <= i < |orgs| :: orgs[i].name == n)
      && (forall n | Field(o, n).Some? :: Field(o, n).value == JObject([]))
  {
    var s := SnapshotOf(us, orgs, source, now);
    EncodeSnapshotReadBack(s, JsonEncoder);
    OrganizationsReadBack(s, JsonEncoder);
    OrganizationsMapShape(orgs);
    assert EncodeDict(map[], JsonEncoder) == Success(JObject([])) by {
      assert SortedKeys({}) == [];
    }
  }

  /** Keys are written in sorted order at every level of the export. */
  lemma ToJsonSorted(us: seq<UniqueIdentity>, orgs: seq<Organization>, source: string, now: DateTime)
    ensures var r := EncodeSnapshot(SnapshotOf(us, orgs, source, now), JsonEncoder);
      r.Success? ==> KeysSorted(r.value)
  {
    JsonEncoderSorted();
    EncodeSnapshotSorted(SnapshotOf(us, orgs, source, now), JsonEncoder);
  }
}
