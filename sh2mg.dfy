/** Linking Sorting Hat unique identities to Metrics Grimoire identities
    (`sh2mg`): read the Sorting Hat identities of one source, derive the
    fingerprint of every Metrics Grimoire row, join the two on the fingerprint
    and load the resulting (uuid, people id) pairs into `people_uidentities`. */
module Sh2Mg {
  import opened Wrappers
  import opened JsonOutput
  import opened MgModel

  /** The named pair the linker works with: an identifier and a uuid. */
  datatype Identity = Identity(id: string, uuid: string)

  /** An identity of a parsed Sorting Hat export, with the fields the linker reads:
      its own id (a fingerprint), the uuid of its unique identity, its source. */
  datatype ShIdentity = ShIdentity(id: string, uuid: string, source: string)

  /** A unique identity of a parsed Sorting Hat export. */
  datatype ShUniqueIdentity = ShUniqueIdentity(uuid: string, identities: seq<ShIdentity>)

  /** One row of `people_uidentities`: `{'uuid': ..., 'people_id': ...}`. */
  datatype Match = Match(uuid: string, peopleId: string)

  /** `utils.uuid(source, email, name, username)`; its code is not part of this
      model, so it is a parameter wherever it is used. */
  type Fingerprint = (string, Option<string>, Option<string>, Option<string>) -> string

  // ---------------------------------------------------------------------------
  // retrieve_sh_identities

  /** The `(id, uuid)` pairs of the identities of `source`, in order. */
  function Selected(ids: seq<ShIdentity>, source: string): seq<Identity>
    decreases |ids|
  {
    if ids == [] then []
    else
      var last := ids[|ids| - 1];
      Selected(ids[..|ids| - 1], source)
      + (if last.source == source then [Identity(last.id, last.uuid)] else [])
  }

  /** The `(id, uuid)` pairs of the identities of `source`, unique identity by
      unique identity. */
  function ShIdentities(uids: seq<ShUniqueIdentity>, source: string): seq<Identity>
    decreases |uids|
  {
    if uids == [] then []
    else ShIdentities(uids[..|uids| - 1], source) + Selected(uids[|uids| - 1].identities, source)
  }

  method RetrieveShIdentities(uids: seq<ShUniqueIdentity>, source: string) returns (identities: seq<Identity>)
    ensures identities == ShIdentities(uids, source)
  {
    identities := [];
    for i := 0 to |uids|
      invariant identities == ShIdentities(uids[..i], source)
    {
      var shIds := uids[i].identities;
      for j := 0 to |shIds|
        invariant identities == ShIdentities(uids[..i], source) + Selected(shIds[..j], source)
      {
        var shId := shIds[j];
        assert shIds[..j + 1][..j] == shIds[..j];
        if shId.source != source {
          continue;
        }
        identities := identities + [Identity(shId.id, shId.uuid)];
      }
      assert shIds[..|shIds|] == shIds;
      assert uids[..i + 1][..i] == uids[..i];
    }
    assert uids[..|uids|] == uids;
  }

  lemma {:induction false} SelectedAppend(a: seq<ShIdentity>, b: seq<ShIdentity>, source: string)
    ensures Selected(a + b, source) == Selected(a, source) + Selected(b, source)
    decreases |b|
  {
    if b != [] {
      var b' := b[..|b| - 1];
      assert (a + b)[..|a + b| - 1] == a + b';
      SelectedAppend(a, b', source);
    } else {
      assert a + b == a;
    }
  }

  /** An identity is selected exactly when it belongs to `source`. */
  lemma {:induction false} SelectedMembers(ids: seq<ShIdentity>, source: string)
    ensures forall x :: x in Selected(ids, source) <==>
              exists j | 0 <= j < |ids| :: ids[j].source == source && x == Identity(ids[j].id, ids[j].uuid)
    decreases |ids|
  {
    if ids != [] {
      var init := ids[..|ids| - 1];
      SelectedMembers(init, source);
      assert forall j | 0 <= j < |init| :: init[j] == ids[j];
    }
  }

  /** The result concatenates per unique identity: the pairs of `a` come first. */
  lemma {:induction false} ShIdentitiesAppend(a: seq<ShUniqueIdentity>, b: seq<ShUniqueIdentity>, source: string)
    ensures ShIdentities(a + b, source) == ShIdentities(a, source) + ShIdentities(b, source)
    decreases |b|
  {
    if b != [] {
      var b' := b[..|b| - 1];
      assert (a + b)[..|a + b| - 1] == a + b';
      ShIdentitiesAppend(a, b', source);
    } else {
      assert a + b == a;
    }
  }

  /** A single unique identity contributes its identities of `source`, in order. */
  lemma ShIdentitiesSingle(u: ShUniqueIdentity, source: string)
    ensures ShIdentities([u], source) == Selected(u.identities, source)
  {
    assert [u][..0] == [];
  }

  /** A pair is returned exactly when some unique identity holds an identity of
      `source` with that id and uuid; identities of other sources are skipped. */
  lemma {:induction false} ShIdentitiesMembers(uids: seq<ShUniqueIdentity>, source: string)
    ensures forall x :: x in ShIdentities(uids, source) <==>
              exists i, j | 0 <= i < |uids| && 0 <= j < |uids[i].identities| ::
                && uids[i].identities[j].source == source
                && x == Identity(uids[i].identities[j].id, uids[i].identities[j].uuid)
    decreases |uids|
  {
    if uids != [] {
      var init := uids[..|uids| - 1];
      var last := uids[|uids| - 1];
      ShIdentitiesMembers(init, source);
      SelectedMembers(last.identities, source);
      assert forall i | 0 <= i < |init| :: init[i] == uids[i];
      forall x | x in ShIdentities(uids, source)
        ensures exists i, j | 0 <= i < |uids| && 0 <= j < |uids[i].identities| ::
                  && uids[i].identities[j].source == source
                  && x == Identity(uids[i].identities[j].id, uids[i].identities[j].uuid)
      {
        if x in Selected(last.identities, source) {
          var j :| 0 <= j < |last.identities| && last.identities[j].source == source
                   && x == Identity(last.identities[j].id, last.identities[j].uuid);
          assert uids[|uids| - 1] == last;
        } else {
          assert x in ShIdentities(init, source);
          var i, j :| 0 <= i < |init| && 0 <= j < |init[i].identities|
                      && init[i].identities[j].source == source
                      && x == Identity(init[i].identities[j].id, init[i].identities[j].uuid);
          assert init[i] == uids[i];
        }
      }
      forall x, i, j | 0 <= i < |uids| && 0 <= j < |uids[i].identities|
                       && uids[i].identities[j].source == source
                       && x == Identity(uids[i].identities[j].id, uids[i].identities[j].uuid)
        ensures x in ShIdentities(uids, source)
      {
        if i == |uids| - 1 {
          assert x in Selected(last.identities, source);
        } else {
          assert init[i] == uids[i];
        }
      }
    }
  }

  // ---------------------------------------------------------------------------
  // retrieve_mg_identities (the row mapping; the query itself is not modelled)

  method RetrieveMgIdentities(rows: seq<MgIdentity>, source: string, uuid: Fingerprint,
                              toUnicode: Value -> string) returns (identities: seq<Identity>)
    ensures |identities| == |rows|
    ensures forall k | 0 <= k < |rows| ::
              identities[k] == Identity(toUnicode(rows[k].mgId),
                                        uuid(source, rows[k].email, rows[k].name, rows[k].username))
  {
    identities := [];
    for i := 0 to |rows|
      invariant |identities| == i
      invariant forall k | 0 <= k < i ::
                  identities[k] == Identity(toUnicode(rows[k].mgId),
                                            uuid(source, rows[k].email, rows[k].name, rows[k].username))
    {
      var mg := rows[i];
      var u := uuid(source, mg.email, mg.name, mg.username);
      var identity := Identity(toUnicode(mg.mgId), u);
      identities := identities + [identity];
    }
  }

  // ---------------------------------------------------------------------------
  // find_matches

  /** The matches of one Sorting Hat identity against `mg[j..]`. */
  function RowMatches(sh: Identity, mg: seq<Identity>, j: nat): seq<Match>
    requires j <= |mg|
    decreases |mg| - j
  {
    if j == |mg| then []
    else (if sh.id == mg[j].uuid then [Match(sh.uuid, mg[j].id)] else []) + RowMatches(sh, mg, j + 1)
  }

  /** The matches of `sh[i..]` against `mg`, Sorting Hat identity by identity. */
  function MatchesFrom(sh: seq<Identity>, mg: seq<Identity>, i: nat): seq<Match>
    requires i <= |sh|
    decreases |sh| - i
  {
    if i == |sh| then [] else RowMatches(sh[i], mg, 0) + MatchesFrom(sh, mg, i + 1)
  }

  /** `find_matches`: every pair with `sh.id == mg.uuid`, Sorting Hat identities
      in the outer loop, Metrics Grimoire identities in the inner one. */
  function FindMatches(sh: seq<Identity>, mg: seq<Identity>): seq<Match>
  {
    MatchesFrom(sh, mg, 0)
  }

  /** `sh[i]` and `mg[j]` carry the same fingerprint. */
  predicate Joins(sh: seq<Identity>, mg: seq<Identity>, i: int, j: int)
  {
    0 <= i < |sh| && 0 <= j < |mg| && sh[i].id == mg[j].uuid
  }

  predicate PairLess(p: (int, int), q: (int, int))
  {
    p.0 < q.0 || (p.0 == q.0 && p.1 < q.1)
  }

  predicate PairsIncreasing(ps: seq<(int, int)>)
  {
    forall a, b | 0 <= a < b < |ps| :: PairLess(ps[a], ps[b])
  }

  /** The joining index pairs `(i, j')` with `j <= j'`, in increasing order. */
  function RowPairs(sh: seq<Identity>, mg: seq<Identity>, i: nat, j: nat): (ps: seq<(int, int)>)
    requires i < |sh| && j <= |mg|
    ensures forall p | p in ps :: p.0 == i && j <= p.1 && Joins(sh, mg, p.0, p.1)
    ensures forall j' | j <= j' < |mg| && Joins(sh, mg, i, j') :: (i, j') in ps
    ensures PairsIncreasing(ps)
    decreases |mg| - j
  {
    if j == |mg| then []
    else (if sh[i].id == mg[j].uuid then [(i as int, j as int)] else []) + RowPairs(sh, mg, i, j + 1)
  }

  /** The joining index pairs `(i', j)` with `i <= i'`, in increasing order. */
  function PairsFrom(sh: seq<Identity>, mg: seq<Identity>, i: nat): (ps: seq<(int, int)>)
    requires i <= |sh|
    ensures forall p | p in ps :: i <= p.0 && Joins(sh, mg, p.0, p.1)
    ensures forall i', j | i <= i' && Joins(sh, mg, i', j) :: (i', j) in ps
    ensures PairsIncreasing(ps)
    decreases |sh| - i
  {
    if i == |sh| then []
    else
      var row := RowPairs(sh, mg, i, 0);
      var rest := PairsFrom(sh, mg, i + 1);
      assert forall a | 0 <= a < |row| :: row[a] in row;
      assert forall b | 0 <= b < |rest| :: rest[b] in rest;
      row + rest
  }

  /** All joining index pairs, in the order `find_matches` visits them. */
  function JoinPairs(sh: seq<Identity>, mg: seq<Identity>): seq<(int, int)>
  {
    PairsFrom(sh, mg, 0)
  }

  lemma {:induction false} RowMatchesByPairs(sh: seq<Identity>, mg: seq<Identity>, i: nat, j: nat)
    requires i < |sh| && j <= |mg|
    ensures var ms := RowMatches(sh[i], mg, j); var ps := RowPairs(sh, mg, i, j);
      && |ms| == |ps|
      && forall k | 0 <= k < |ms| :: ms[k] == Match(sh[ps[k].0].uuid, mg[ps[k].1].id)
    decreases |mg| - j
  {
    if j < |mg| {
      RowMatchesByPairs(sh, mg, i, j + 1);
      var rest, restPairs := RowMatches(sh[i], mg, j + 1), RowPairs(sh, mg, i, j + 1);
      if sh[i].id == mg[j].uuid {
        assert RowMatches(sh[i], mg, j) == [Match(sh[i].uuid, mg[j].id)] + rest;
        assert RowPairs(sh, mg, i, j) == [(i as int, j as int)] + restPairs;
      } else {
        assert RowMatches(sh[i], mg, j) == rest;
        assert RowPairs(sh, mg, i, j) == restPairs;
      }
    }
  }

  lemma {:induction false} MatchesFromByPairs(sh: seq<Identity>, mg: seq<Identity>, i: nat)
    requires i <= |sh|
    ensures var ms := MatchesFrom(sh, mg, i); var ps := PairsFrom(sh, mg, i);
      && |ms| == |ps|
      && forall k | 0 <= k < |ms| :: ms[k] == Match(sh[ps[k].0].uuid, mg[ps[k].1].id)
    decreases |sh| - i
  {
    if i < |sh| {
      var row, rowPairs := RowMatches(sh[i], mg, 0), RowPairs(sh, mg, i, 0);
      var rest, restPairs := MatchesFrom(sh, mg, i + 1), PairsFrom(sh, mg, i + 1);
      RowMatchesByPairs(sh, mg, i, 0);
      MatchesFromByPairs(sh, mg, i + 1);
      assert MatchesFrom(sh, mg, i) == row + rest;
      assert PairsFrom(sh, mg, i) == rowPairs + restPairs;
      var ms, ps := row + rest, rowPairs + restPairs;
      forall k | 0 <= k < |ms|
        ensures ms[k] == Match(sh[ps[k].0].uuid, mg[ps[k].1].id)
      {
        if k >= |row| {
          assert ms[k] == rest[k - |row|];
          assert ps[k] == restPairs[k - |row|];
        }
      }
    }
  }

  /** `find_matches` emits one entry per joining pair, in the pairs' order:
      the k-th entry is `{'uuid': sh.uuid, 'people_id': mg.id}` of the k-th pair. */
  lemma FindMatchesByPairs(sh: seq<Identity>, mg: seq<Identity>)
    ensures var ms := FindMatches(sh, mg); var ps := JoinPairs(sh, mg);
      && |ms| == |ps|
      && (forall k | 0 <= k < |ms| :: ms[k] == Match(sh[ps[k].0].uuid, mg[ps[k].1].id))
      && (forall p :: p in ps <==> Joins(sh, mg, p.0, p.1))
      && PairsIncreasing(ps)
  {
    MatchesFromByPairs(sh, mg, 0);
  }

  /** Completeness and soundness: an entry is emitted exactly for the pairs
      whose fingerprints agree. */
  lemma FindMatchesMembers(sh: seq<Identity>, mg: seq<Identity>)
    ensures forall m :: m in FindMatches(sh, mg) <==>
              exists i, j | Joins(sh, mg, i, j) :: m == Match(sh[i].uuid, mg[j].id)
  {
    FindMatchesByPairs(sh, mg);
    var ms, ps := FindMatches(sh, mg), JoinPairs(sh, mg);
    forall m | m in ms
      ensures exists i, j | Joins(sh, mg, i, j) :: m == Match(sh[i].uuid, mg[j].id)
    {
      var k :| 0 <= k < |ms| && ms[k] == m;
      assert ps[k] in ps;
    }
    forall m, i, j | Joins(sh, mg, i, j) && m == Match(sh[i].uuid, mg[j].id)
      ensures m in ms
    {
      assert (i, j) in ps;
      var k :| 0 <= k < |ps| && ps[k] == (i, j);
      assert ms[k] == m;
    }
  }

  /** No deduplication: each joining pair has an entry of its own, so a Metrics
      Grimoire identity matched by two Sorting Hat identities (or the other
      way round) appears twice. */
  lemma FindMatchesKeepsDuplicates(sh: seq<Identity>, mg: seq<Identity>, i1: int, j1: int, i2: int, j2: int)
    requires Joins(sh, mg, i1, j1) && Joins(sh, mg, i2, j2) && (i1, j1) != (i2, j2)
    ensures exists k1, k2 | 0 <= k1 < |FindMatches(sh, mg)| && 0 <= k2 < |FindMatches(sh, mg)| ::
              && k1 != k2
              && FindMatches(sh, mg)[k1] == Match(sh[i1].uuid, mg[j1].id)
              && FindMatches(sh, mg)[k2] == Match(sh[i2].uuid, mg[j2].id)
  {
    FindMatchesByPairs(sh, mg);
    var ps := JoinPairs(sh, mg);
    assert (i1, j1) in ps && (i2, j2) in ps;
    var k1 :| 0 <= k1 < |ps| && ps[k1] == (i1, j1);
    var k2 :| 0 <= k2 < |ps| && ps[k2] == (i2, j2);
  }

  /** The set of joining index pairs. */
  function JoinSet(sh: seq<Identity>, mg: seq<Identity>): set<(int, int)>
  {
    set i, j | 0 <= i < |sh| && 0 <= j < |mg| && sh[i].id == mg[j].uuid :: (i, j)
  }

  lemma {:induction false} DistinctCard(ps: seq<(int, int)>)
    requires PairsIncreasing(ps)
    ensures |set p | p in ps| == |ps|
    decreases |ps|
  {
    if ps != [] {
      var tail := ps[1..];
      DistinctCard(tail);
      assert ps[0] !in tail by {
        forall b | 0 <= b < |tail|
          ensures tail[b] != ps[0]
        {
          assert PairLess(ps[0], ps[b + 1]);
        }
      }
      assert (set p | p in ps) == {ps[0]} + (set p | p in tail);
    }
  }

  /** The number of entries is the number of joining pairs. */
  lemma FindMatchesCount(sh: seq<Identity>, mg: seq<Identity>)
    ensures |FindMatches(sh, mg)| == |JoinSet(sh, mg)|
  {
    FindMatchesByPairs(sh, mg);
    var ps := JoinPairs(sh, mg);
    DistinctCard(ps);
    assert (set p | p in ps) == JoinSet(sh, mg);
  }

  // ---------------------------------------------------------------------------
  // load_mapping

  /** Rows are written in inserts of this many. */
  const BatchSize: nat := 50

  /** The batches `load_mapping` flushes: full batches of `BatchSize`, then
      the remainder if there is one. */
  function Batches(ms: seq<Match>): seq<seq<Match>>
    decreases |ms|
  {
    if ms == [] then []
    else if |ms| <= BatchSize then [ms]
    else [ms[..BatchSize]] + Batches(ms[BatchSize..])
  }

  function Flatten(bs: seq<seq<Match>>): seq<Match>
  {
    if bs == [] then [] else bs[0] + Flatten(bs[1..])
  }

  /** There are ceil(n / 50) batches (none for an empty mapping); the k-th holds
      the mapping's rows 50k up to 50k + 50, or up to the end for the last one. */
  lemma {:induction false} BatchesShape(ms: seq<Match>)
    ensures |Batches(ms)| == (|ms| + BatchSize - 1) / BatchSize
    ensures forall k | 0 <= k < |Batches(ms)| ::
              && k * BatchSize < |ms|
              && Batches(ms)[k] == ms[k * BatchSize .. if (k + 1) * BatchSize <= |ms| then (k + 1) * BatchSize else |ms|]
    decreases |ms|
  {
    if |ms| > BatchSize {
      var rest := ms[BatchSize..];
      BatchesShape(rest);
      forall k | 1 <= k < |Batches(ms)|
        ensures k * BatchSize < |ms|
        ensures Batches(ms)[k] == ms[k * BatchSize .. if (k + 1) * BatchSize <= |ms| then (k + 1) * BatchSize else |ms|]
      {
        var lo := (k - 1) * BatchSize;
        var hi := if k * BatchSize <= |rest| then k * BatchSize else |rest|;
        assert Batches(ms)[k] == Batches(rest)[k - 1] == rest[lo .. hi];
        assert lo + BatchSize == k * BatchSize;
        assert hi + BatchSize == if (k + 1) * BatchSize <= |ms| then (k + 1) * BatchSize else |ms|;
        SliceShift(ms, BatchSize, lo, hi);
      }
    }
  }

  lemma SliceShift(ms: seq<Match>, d: nat, lo: nat, hi: nat)
    requires d <= |ms| && lo <= hi <= |ms| - d
    ensures ms[d..][lo .. hi] == ms[lo + d .. hi + d]
  {
    var a, b := ms[d..][lo .. hi], ms[lo + d .. hi + d];
    assert |a| == |b|;
    forall i | 0 <= i < |a|
      ensures a[i] == b[i]
    {
      assert a[i] == ms[d + lo + i];
    }
  }

  /** Every batch but the last holds exactly 50 rows; the last holds 1 to 50. */
  lemma BatchSizes(ms: seq<Match>)
    ensures forall k | 0 <= k < |Batches(ms)| - 1 :: |Batches(ms)[k]| == BatchSize
    ensures Batches(ms) != [] ==> 0 < |Batches(ms)[|Batches(ms)| - 1]| <= BatchSize
  {
    BatchesShape(ms);
  }

  /** Writing the batches one after another writes the mapping, in order. */
  lemma {:induction false} BatchesFlatten(ms: seq<Match>)
    ensures Flatten(Batches(ms)) == ms
    decreases |ms|
  {
    if |ms| > BatchSize {
      BatchesFlatten(ms[BatchSize..]);
      assert Batches(ms)[1..] == Batches(ms[BatchSize..]);
    } else if ms != [] {
      assert Flatten([ms]) == ms + Flatten([]);
    }
  }

  /** Statements sent to the database, as far as this model tracks them. */
  datatype Statement = DropTable | CreateTable | InsertRows(rows: seq<Match>)

  function Inserts(bs: seq<seq<Match>>): (r: seq<Statement>)
    ensures |r| == |bs|
    ensures forall k | 0 <= k < |bs| :: r[k] == InsertRows(bs[k])
  {
    seq(|bs|, k requires 0 <= k < |bs| => InsertRows(bs[k]))
  }

  /** The statements `load_mapping` sends before the inserts: drop the table
      when it exists, then create it. */
  function Prelude(existed: bool): (r: seq<Statement>)
    ensures |r| == (if existed then 2 else 1) && r[|r| - 1] == CreateTable
    ensures existed ==> r[0] == DropTable
  {
    (if existed then [DropTable] else []) + [CreateTable]
  }

  /** What `load_mapping` sends: the prelude, then one insert per batch. */
  function Plan(existed: bool, mapping: seq<Match>): seq<Statement>
  {
    Prelude(existed) + Inserts(Batches(mapping))
  }

  /** Kinds of error the database driver raises (`e.orig`). */
  datatype DriverErrorKind = OperationalError | ProgrammingError | OtherDriverError

  /** A driver error whose `args` are `(code, message)`. */
  datatype DriverError = DriverError(kind: DriverErrorKind, code: int, message: string)

  /** The statement at position `at` of the database's statement log fails with `error`. */
  datatype Fault = Fault(at: nat, error: DriverError)

  /** What `load_mapping` raises. */
  datatype LoadError =
    | DatabaseError(code: int, error: string)   // sortinghat.exceptions.DatabaseError
    | Unhandled(cause: DriverError)             // any other driver error, propagated as it is

  /** What `load_mapping` raises for a driver error: an operational or
      programming error becomes a `DatabaseError` carrying the driver's code
      and message; any other error is not caught. */
  function Raised(e: DriverError): (r: LoadError)
    ensures r.DatabaseError? <==> e.kind == OperationalError || e.kind == ProgrammingError
    ensures r.DatabaseError? ==> r.code == e.code && r.error == e.message
    ensures r.Unhandled? ==> r.cause == e
  {
    if e.kind == OperationalError || e.kind == ProgrammingError then DatabaseError(e.code, e.message)
    else Unhandled(e)
  }

  /** The database holding `people_uidentities`, reduced to what `load_mapping`
      does to it: whether the table exists, its rows, and the log of statements
      it has carried out. Storage failures come from `fault`. */
  class Database {
    var tableExists: bool
    var rows: seq<Match>
    var log: seq<Statement>
    const fault: Option<Fault>

    constructor (tableExists: bool, rows: seq<Match>, fault: Option<Fault>)
      ensures this.tableExists == tableExists && this.rows == rows && this.fault == fault
      ensures log == []
    {
      this.tableExists := tableExists;
      this.rows := rows;
      this.fault := fault;
      log := [];
    }

    /** The error the next statement fails with, if any. */
    function NextFailure(): Option<DriverError>
      reads this
    {
      if fault.Some? && fault.value.at == |log| then Some(fault.value.error) else None
    }

    /** Carries out one statement, or fails and changes nothing. */
    method Execute(st: Statement) returns (err: Option<DriverError>)
      modifies this
      ensures err.Some? <==> fault.Some? && fault.value.at == |old(log)|
      ensures err.Some? ==> err.value == fault.value.error
      ensures err.Some? ==> tableExists == old(tableExists) && rows == old(rows) && log == old(log)
      ensures err.None? ==> log == old(log) + [st]
      ensures err.None? && st.DropTable? ==> !tableExists && rows == []
      ensures err.None? && st.CreateTable? ==> tableExists && rows == []
      ensures err.None? && st.InsertRows? ==> tableExists == old(tableExists) && rows == old(rows) + st.rows
    {
      err := NextFailure();
      if err.Some? {
        return;
      }
      match st {
        case DropTable =>
          tableExists, rows := false, [];
        case CreateTable =>
          tableExists, rows := true, [];
        case InsertRows(batch) =>
          rows := rows + batch;
      }
      log := log + [st];
    }
  }

  /** The fault hits one of `count` statements starting at log position `start`. */
  predicate FaultWithin(fault: Option<Fault>, start: nat, count: nat)
  {
    fault.Some? && start <= fault.value.at < start + count
  }

  /** The statement after the drop and create steps that writes batch `k`. */
  lemma PlanAt(existed: bool, mapping: seq<Match>, k: nat)
    requires k < |Batches(mapping)|
    ensures var h := if existed then 2 else 1;
      && |Plan(existed, mapping)| == h + |Batches(mapping)|
      && Plan(existed, mapping)[h + k] == InsertRows(Batches(mapping)[k])
  {
  }

  /** Between two flushes, the counter reaches a multiple of 50 exactly when
      the buffer is full. */
  lemma FlushPoint(full: nat, n: nat)
    requires full * BatchSize < n <= full * BatchSize + BatchSize
    ensures n % BatchSize == 0 <==> n == (full + 1) * BatchSize
  {
    var d := n - full * BatchSize;
    assert n == full * BatchSize + d;
    if d < BatchSize {
      assert n / BatchSize == full;
    }
  }

  lemma FullBatch(ms: seq<Match>, k: nat)
    requires (k + 1) * BatchSize <= |ms|
    ensures k < |Batches(ms)| && Batches(ms)[k] == ms[k * BatchSize .. (k + 1) * BatchSize]
  {
    BatchesShape(ms);
  }

  lemma LastBatch(ms: seq<Match>, k: nat)
    requires k * BatchSize < |ms| < (k + 1) * BatchSize
    ensures |Batches(ms)| == k + 1 && Batches(ms)[k] == ms[k * BatchSize ..]
  {
    BatchesShape(ms);
  }

  lemma NoPartialBatch(ms: seq<Match>, k: nat)
    requires |ms| == k * BatchSize
    ensures |Batches(ms)| == k
  {
    BatchesShape(ms);
  }

  /** Flushes the buffer once it holds the full batch `full` of the mapping. */
  method InsertFullBatch(db: Database, mapping: seq<Match>, ghost start: seq<Statement>, ghost full: nat,
                         data: seq<Match>) returns (err: Option<DriverError>)
    requires (full + 1) * BatchSize <= |mapping|
    requires data == mapping[full * BatchSize .. (full + 1) * BatchSize]
    requires full <= |Inserts(Batches(mapping))|
    requires db.log == start + Inserts(Batches(mapping))[..full]
    requires db.tableExists && db.rows == mapping[..full * BatchSize]
    requires !FaultWithin(db.fault, |start|, full)
    modifies db
    ensures full < |Inserts(Batches(mapping))|
    ensures err.None? ==> && db.log == start + Inserts(Batches(mapping))[..full + 1]
                          && db.tableExists && db.rows == mapping[..(full + 1) * BatchSize]
                          && !FaultWithin(db.fault, |start|, full + 1)
    ensures err.Some? ==> && db.fault.Some? && err.value == db.fault.value.error
                          && db.fault.value.at == |start| + full && db.log == old(db.log)
                          && db.tableExists && db.rows == mapping[..full * BatchSize]
  {
    ghost var inserts := Inserts(Batches(mapping));
    assert full < |inserts| && inserts[full] == InsertRows(data) by {
      FullBatch(mapping, full);
    }
    err := db.Execute(InsertRows(data));
    if err.None? {
      assert db.log == start + inserts[..full + 1] by {
        assert inserts[..full + 1] == inserts[..full] + [InsertRows(data)];
      }
      assert db.rows == mapping[..(full + 1) * BatchSize] by {
        assert mapping[..(full + 1) * BatchSize] == mapping[..full * BatchSize] + data;
      }
    }
  }

  /** The loop of `load_mapping`: buffer the rows, counting them, and insert
      the buffer each time the count reaches a multiple of 50. Stops at the
      first failing insert; otherwise returns the rows left in the buffer and
      (as `full`) the number of batches written. */
  method InsertFullBatches(db: Database, mapping: seq<Match>)
    returns (n: nat, data: seq<Match>, ghost full: nat, err: Option<DriverError>)
    requires db.tableExists && db.rows == []
    modifies db
    ensures full <= |Inserts(Batches(mapping))| && full * BatchSize <= |mapping|
    ensures db.log == old(db.log) + Inserts(Batches(mapping))[..full]
    ensures !FaultWithin(db.fault, |old(db.log)|, full)
    ensures db.tableExists && db.rows == mapping[..full * BatchSize]
    ensures err.None? ==> && n == |mapping| && |mapping| - full * BatchSize < BatchSize
                          && data == mapping[full * BatchSize ..]
    ensures err.Some? ==> && db.fault.Some? && err.value == db.fault.value.error
                          && db.fault.value.at == |old(db.log)| + full
                          && full < |Inserts(Batches(mapping))|
  {
    ghost var start := |db.log|;
    ghost var inserts := Inserts(Batches(mapping));
    n := 0;
    data := [];
    full := 0;
    ghost var base := 0;   // rows flushed so far
    while n < |mapping|
      invariant base == full * BatchSize
      invariant 0 <= base <= n <= |mapping| && n - base < BatchSize
      invariant full <= |inserts|
      invariant data == mapping[base .. n]
      invariant db.log == old(db.log) + inserts[..full]
      invariant db.tableExists && db.rows == mapping[..base]
      invariant !FaultWithin(db.fault, start, full)
    {
      data := data + [mapping[n]];
      n := n + 1;
      assert n % BatchSize == 0 <==> n == base + BatchSize by {
        FlushPoint(full, n);
      }
      if n % BatchSize == 0 {
        err := InsertFullBatch(db, mapping, old(db.log), full, data);
        if err.Some? {
          return;
        }
        data := [];
        full := full + 1;
        base := n;
      }
    }
    err := None;
  }

  /** The loop of `load_mapping` and its final flush, which inserts the rows
      left in the buffer if there are any. */
  method InsertBatches(db: Database, mapping: seq<Match>) returns (n: nat, err: Option<DriverError>)
    requires db.tableExists && db.rows == []
    modifies db
    ensures var inserts := Inserts(Batches(mapping));
      err.None? <==> !FaultWithin(db.fault, |old(db.log)|, |inserts|)
    ensures err.None? ==> && n == |mapping|
                          && db.log == old(db.log) + Inserts(Batches(mapping))
                          && db.tableExists && db.rows == mapping
    ensures err.Some? ==> && db.fault.Some? && err.value == db.fault.value.error
                          && |old(db.log)| <= db.fault.value.at
                          && db.log == old(db.log) + Inserts(Batches(mapping))[..db.fault.value.at - |old(db.log)|]
    ensures err.Some? ==> var x := db.fault.value.at - |old(db.log)|;
              && db.tableExists && x * BatchSize <= |mapping| && db.rows == mapping[..x * BatchSize]
  {
    ghost var inserts := Inserts(Batches(mapping));
    var data;
    ghost var full;
    n, data, full, err := InsertFullBatches(db, mapping);
    if err.Some? {
      return;
    }
    ghost var base := full * BatchSize;
    if data != [] {
      assert full + 1 == |inserts| && inserts[full] == InsertRows(data) by {
        LastBatch(mapping, full);
      }
      ghost var mid := db.log;
      err := db.Execute(InsertRows(data));
      if err.Some? {
        return;
      }
      assert db.log == old(db.log) + inserts by {
        assert inserts == inserts[..full] + [InsertRows(data)];
      }
      assert db.rows == mapping by {
        assert mapping == mapping[..base] + data;
      }
    } else {
      assert full == |inserts| by {
        NoPartialBatch(mapping, full);
      }
      assert inserts[..full] == inserts;
      assert mapping[..base] == mapping;
    }
  }

  /** `load_mapping`: replace the table's contents by `mapping`, 50 rows per
      insert, and return how many rows were read; a storage failure stops it,
      leaves the statements before it in place, and is raised. */
  method LoadMapping(db: Database, mapping: seq<Match>) returns (r: Result<nat, LoadError>)
    modifies db
    ensures var plan := Plan(old(db.tableExists), mapping);
      r.Success? <==> !FaultWithin(db.fault, |old(db.log)|, |plan|)
    ensures r.Success? ==> && r.value == |mapping|
                           && db.log == old(db.log) + Plan(old(db.tableExists), mapping)
                           && db.tableExists && db.rows == mapping
    ensures r.Failure? ==> && db.fault.Some?
                           && r.error == Raised(db.fault.value.error)
                           && |old(db.log)| <= db.fault.value.at
                           && db.log == old(db.log) + Plan(old(db.tableExists), mapping)[..db.fault.value.at - |old(db.log)|]
    ensures r.Failure? ==>
              var x := db.fault.value.at - |old(db.log)|;
              var h := |Prelude(old(db.tableExists))|;
              && (x == 0 ==> db.tableExists == old(db.tableExists) && db.rows == old(db.rows))
              && (0 < x < h ==> !db.tableExists && db.rows == [])
              && (h <= x ==> db.tableExists && (x - h) * BatchSize <= |mapping|
                             && db.rows == mapping[..(x - h) * BatchSize])
  {
    ghost var existed := db.tableExists;
    ghost var prelude := Prelude(existed);
    ghost var inserts := Inserts(Batches(mapping));

    var err := Prepare(db);
    if err.Some? {
      assert db.log == old(db.log) + Plan(existed, mapping)[..db.fault.value.at - |old(db.log)|] by {
        PrefixWithin(prelude, inserts, db.fault.value.at - |old(db.log)|);
      }
      return Failure(Raised(err.value));
    }
    ghost var mid := db.log;

    var n;
    n, err := InsertBatches(db, mapping);
    if err.Some? {
      ghost var x := db.fault.value.at - |mid|;
      assert db.log == mid + inserts[..x];
      assert Plan(existed, mapping)[..|prelude| + x] == prelude + inserts[..x] by {
        PrefixSlice(prelude, inserts, x);
      }
      assert db.log == old(db.log) + (prelude + inserts[..x]) by {
        AppendAssoc(old(db.log), prelude, inserts[..x]);
      }
      return Failure(Raised(err.value));
    }
    assert db.log == old(db.log) + Plan(existed, mapping) by {
      AppendAssoc(old(db.log), prelude, inserts);
    }
    return Success(n);
  }

  /** The first two steps of `load_mapping`: drop the table when it exists
      (removing the data of previous mappings), then create it empty. */
  method Prepare(db: Database) returns (err: Option<DriverError>)
    modifies db
    ensures var prelude := Prelude(old(db.tableExists));
      err.None? <==> !FaultWithin(db.fault, |old(db.log)|, |prelude|)
    ensures err.None? ==> && db.log == old(db.log) + Prelude(old(db.tableExists))
                          && db.tableExists && db.rows == []
    ensures err.Some? ==> && db.fault.Some? && err.value == db.fault.value.error
                          && |old(db.log)| <= db.fault.value.at
                          && db.log == old(db.log) + Prelude(old(db.tableExists))[..db.fault.value.at - |old(db.log)|]
    ensures err.Some? && db.fault.value.at == |old(db.log)| ==>
              db.tableExists == old(db.tableExists) && db.rows == old(db.rows)
    ensures err.Some? && db.fault.value.at > |old(db.log)| ==> !db.tableExists && db.rows == []
  {
    ghost var prelude := Prelude(db.tableExists);
    if db.tableExists {
      err := db.Execute(DropTable);
      if err.Some? {
        assert prelude[..0] == [];
        return;
      }
    }
    err := db.Execute(CreateTable);
    if err.Some? {
      assert db.log == old(db.log) + prelude[..|prelude| - 1];
      return;
    }
    assert db.log == old(db.log) + prelude;
  }

  lemma AppendAssoc<T>(a: seq<T>, b: seq<T>, c: seq<T>)
    ensures (a + b) + c == a + (b + c)
  {
  }

  lemma PrefixWithin<T>(a: seq<T>, b: seq<T>, x: nat)
    requires x <= |a|
    ensures (a + b)[..x] == a[..x]
  {
  }

  lemma PrefixSlice<T>(a: seq<T>, b: seq<T>, x: nat)
    requires x <= |b|
    ensures (a + b)[..|a| + x] == a + b[..x]
  {
  }
}
