# Sorting Hat bridge scripts, modelled in Dafny

This project models the identity-linking and export logic of three
Sorting Hat bridge scripts and proves what they promise.

- **`sh2mg`** links Sorting Hat unique identities to the identities of a Metrics
  Grimoire database. It does this in four steps:
  - it reads the Sorting Hat identities of one source as `(id, uuid)` pairs;
  - it derives an `(mg_id, fingerprint)` pair from every Metrics Grimoire row;
  - it joins the two lists on the fingerprint;
  - it loads the resulting `(uuid, people_id)` rows into the table
    `people_uidentities`. The table is dropped and recreated first, and the
    rows go in inserts of 50.
- **`mg2sh`** exports a Metrics Grimoire identities table as a Sorting Hat
  snapshot. Every row becomes a unique identity of its own, keyed by its `mg_id`.
- **`eclipse2sh`** exports the unique identities and organizations of an Eclipse
  export as a Sorting Hat snapshot. Each unique identity's identities are sorted
  by email, its enrollments are converted one for one, and the organizations
  collapse to a map from name to an empty dict.

Modules, one per file:

| file | module | what it holds |
|---|---|---|
| `wrappers.dfy` | `Wrappers` | `Option`, `Result` |
| `text_order.dfy` | `TextOrder` | Python's `str` order and the key order of `sort_keys=True` |
| `date_time.dfy` | `DateTime` | naive datetimes, `isoformat`/`str` and a parser that inverts them |
| `json_output.dfy` | `JsonOutput` | what `json.dumps(..., default=..., sort_keys=True)` writes, as a tree |
| `keyed_map.dfy` | `KeyedMap` | a dict filled by `d[k] = v` in a loop, where the last write wins |
| `snapshot.dfy` | `Snapshot` | the export envelope shared by both exporters, and how it is written |
| `mg_model.dfy` | `MgModel` | a Metrics Grimoire identity row |
| `sh2mg.dfy` | `Sh2Mg` | `retrieve_sh_identities`, the row mapping of `retrieve_mg_identities`, `find_matches`, `load_mapping` |
| `mg2sh.dfy` | `Mg2Sh` | `to_json` |
| `eclipse2sh.dfy` | `Eclipse2Sh` | `to_json`, `json_encoder` |

Code that works by changing state is modelled as methods with loops:
- the two `retrieve_*` loops;
- the two `to_json` loops that fill `uids`;
- `load_mapping`'s counter and buffer.

Each of these methods states its result or new state in its `ensures`: most
of them as a specification function of the inputs, `RetrieveMgIdentities` row
by row. `find_matches`, the comprehensions and `json_encoder` are functions.

The database behind `load_mapping` is the class `Sh2Mg.Database`. It records
whether the table exists, the table's rows, and the log of statements it has
carried out. It can be given a fault: the statement at a given log position
fails with a given driver error.

The output of `json.dumps` is modelled as a JSON tree (`JsonOutput.Json`).
An object lists its members in the order they are written, so "keys sorted at
every level" is a property of the tree.

Only `OperationalError` and `ProgrammingError` become `DatabaseError`, with
the driver's code and message (`sortinghat/bin/sh2mg.py:225-226`); any other
driver error propagates out of `load_mapping` unchanged. `Sh2Mg.Raised` models
both outcomes.

## Model

| member | source | states |
|---|---|---|
| Sh2Mg.RetrieveShIdentities | sortinghat/bin/sh2mg.py:130-142 | The loop returns the `(id, uuid)` pairs of the identities of the requested source, unique identity by unique identity and identity by identity, and nothing else |
| Sh2Mg.ShIdentitiesMembers | sortinghat/bin/sh2mg.py:132-142 | A pair is in the result if and only if some unique identity holds an identity of the requested source with that id and uuid; identities of other sources are skipped |
| Sh2Mg.ShIdentitiesAppend | sortinghat/bin/sh2mg.py:132-142 | Nested input order: the pairs taken from earlier unique identities come before those taken from later ones |
| Sh2Mg.ShIdentitiesSingle | sortinghat/bin/sh2mg.py:133-140 | One unique identity contributes its own identities of the source, in their order |
| Sh2Mg.SelectedAppend | sortinghat/bin/sh2mg.py:135-140 | Filtering a list of identities by source distributes over concatenation, so order is kept |
| Sh2Mg.SelectedMembers | sortinghat/bin/sh2mg.py:135-140 | An identity's pair is kept if and only if its source is the requested one |
| Sh2Mg.RetrieveMgIdentities | sortinghat/bin/sh2mg.py:165-172 | One `Identity` per row, in row order: `id` is `to_unicode(mg_id)`, `uuid` is `utils.uuid(source, email, name, username)` |
| Sh2Mg.RowPairs | sortinghat/bin/sh2mg.py:181-184 | The inner loop's joining index pairs for one Sorting Hat identity: all of them, only joining ones, in increasing order |
| Sh2Mg.PairsFrom | sortinghat/bin/sh2mg.py:180-184 | Every joining `(sh, mg)` index pair, and only joining ones, in increasing (Sorting Hat outer, Metrics Grimoire inner) order |
| Sh2Mg.RowMatchesByPairs | sortinghat/bin/sh2mg.py:181-184 | The inner loop yields exactly one entry `{'uuid': sh.uuid, 'people_id': mg.id}` per joining pair of that row, in order |
| Sh2Mg.MatchesFromByPairs | sortinghat/bin/sh2mg.py:180-184 | Both loops together yield one entry per joining pair, in the pairs' order |
| Sh2Mg.FindMatches | sortinghat/bin/sh2mg.py:175-184 | The joined list; what it holds is stated by `FindMatchesByPairs`, `FindMatchesMembers`, `FindMatchesKeepsDuplicates` and `FindMatchesCount` below |
| Sh2Mg.FindMatchesByPairs | sortinghat/bin/sh2mg.py:175-184 | `find_matches` yields, entry for entry, `{'uuid': sh.uuid, 'people_id': mg.id}` for the joining pairs, which are exactly the pairs with `sh.id == mg.uuid`, ordered Sorting Hat outer and Metrics Grimoire inner |
| Sh2Mg.FindMatchesMembers | sortinghat/bin/sh2mg.py:180-184 | An entry is emitted if and only if it comes from a pair with `sh.id == mg.uuid` |
| Sh2Mg.FindMatchesKeepsDuplicates | sortinghat/bin/sh2mg.py:178-184 | No deduplication: two different joining pairs yield two different entries, even when they share a side |
| Sh2Mg.FindMatchesCount | sortinghat/bin/sh2mg.py:175-184 | The number of entries equals the number of pairs with `sh.id == mg.uuid` |
| Sh2Mg.Batches | sortinghat/bin/sh2mg.py:214-224 | The inserts the loop and the final flush issue; their shape is stated by `BatchesShape`, `BatchSizes` and `BatchesFlatten` below |
| Sh2Mg.BatchesShape | sortinghat/bin/sh2mg.py:214-224 | There are ceil(n / 50) inserts, none for an empty mapping; insert k holds rows 50k to 50k+50 of the mapping, or up to its end |
| Sh2Mg.BatchSizes | sortinghat/bin/sh2mg.py:214-224 | Every insert but the last holds exactly 50 rows, and the last holds 1 to 50 |
| Sh2Mg.BatchesFlatten | sortinghat/bin/sh2mg.py:214-224 | The inserts, concatenated, are the mapping in order |
| Sh2Mg.Plan | sortinghat/bin/sh2mg.py:205-224 | The statements `load_mapping` issues in order; `PlanAt` and the contract of `LoadMapping` state what they are |
| Sh2Mg.PlanAt | sortinghat/bin/sh2mg.py:205-224 | After the drop and create statements, statement k is the insert of batch k |
| Sh2Mg.Prelude | sortinghat/bin/sh2mg.py:205-207 | Before any insert the table is dropped, only if it exists (`checkfirst=True`), and then created |
| Sh2Mg.Raised | sortinghat/bin/sh2mg.py:225-226 | `OperationalError` and `ProgrammingError` become `DatabaseError(code=args[0], error=args[1])`; any other driver error propagates unchanged |
| Sh2Mg.Database.Execute | sortinghat/bin/sh2mg.py:206-224 | A statement fails exactly when the fault is set for its log position, and then changes nothing. Otherwise it is logged: drop leaves no table; create leaves an empty table; insert appends its rows |
| Sh2Mg.Prepare | sortinghat/bin/sh2mg.py:205-207 | On success the log grows by the prelude and the table exists and is empty, so earlier contents are replaced. On a fault the statements before it are in the log and the driver error is returned; a failing first statement leaves the table as it was, and a failing create after the drop leaves no table and no rows |
| Sh2Mg.FlushPoint | sortinghat/bin/sh2mg.py:216-218 | Between two flushes, `n % 50 == 0` holds exactly when the buffer holds 50 rows |
| Sh2Mg.FullBatch | sortinghat/bin/sh2mg.py:218-220 | A full buffer is the next batch of the mapping |
| Sh2Mg.LastBatch | sortinghat/bin/sh2mg.py:222-224 | A non-empty buffer left after the loop is the last batch |
| Sh2Mg.NoPartialBatch | sortinghat/bin/sh2mg.py:222-224 | An empty buffer after the loop means no batch is left |
| Sh2Mg.InsertFullBatch | sortinghat/bin/sh2mg.py:218-220 | Flushing a full buffer logs the next insert and appends its 50 rows, or returns the fault's driver error for that position and leaves the table holding the batches written so far |
| Sh2Mg.InsertFullBatches | sortinghat/bin/sh2mg.py:211-220 | The loop counts every row, flushes full batches in order, and leaves the remaining fewer than 50 rows in the buffer; it stops at the first failing insert. Either way the table exists and holds exactly the batches written |
| Sh2Mg.InsertBatches | sortinghat/bin/sh2mg.py:211-224 | The loop and the final flush write all batches in order and count every row; the table ends up holding the mapping. A fault on insert k stops it after the statements before it, with the table holding the first k batches |
| Sh2Mg.LoadMapping | sortinghat/bin/sh2mg.py:187-228 | On success it returns `n` equal to the mapping's length, the log grows by drop-if-present, create and the inserts, and the table holds exactly the mapping. It fails exactly when a fault falls on one of those statements; it then raises `Raised(error)`, returns no count, and keeps the statements before the fault. A failing first statement leaves the table as it was; a failing create after the drop leaves no table and no rows; a failing insert k leaves the table holding the first k batches |
| Mg2Sh.ToJson | sortinghat/bin/mg2sh.py:133-162 | The loop builds the snapshot whose `uidentities` is the keyed fill over the rows; the result is that snapshot written with sorted keys, or the encoder's `TypeError` |
| Mg2Sh.IdentityOf | sortinghat/bin/mg2sh.py:144-147 | A row's identity dict; `IdentityOfFields` and `IdentityOfNative` state its fields and when it can be written |
| Mg2Sh.UidOf | sortinghat/bin/mg2sh.py:149-152 | A row's unique identity record; `UidsLastRowWins` states its fields and `UidOfWritable` when it can be written |
| Mg2Sh.IdentityOfFields | sortinghat/bin/mg2sh.py:144-147 | The written identity has the row's fields, with `id` and `uuid` set to the key and `source` to the argument, whatever `to_dict()` held under those names |
| Mg2Sh.UidsKeys | sortinghat/bin/mg2sh.py:141-154 | The keys of `uidentities` are exactly `to_unicode(mg_id)` over the rows |
| Mg2Sh.UidsLastRowWins | sortinghat/bin/mg2sh.py:149-154 | Each key holds the record of the last row with that `mg_id`: `uuid` equal to the key, profile `None`, no enrollments, exactly one identity |
| Mg2Sh.UidsAt | sortinghat/bin/mg2sh.py:154 | A row that no later row shares its `mg_id` with supplies its key's record, so of two rows with the same `mg_id` the later one replaces the earlier |
| Mg2Sh.ToJsonEnvelope | sortinghat/bin/mg2sh.py:156-162 | The written export has `source` equal to the argument, `time` equal to `str(now)`, an empty blacklist, no organizations, and under `uidentities` exactly the rows' keys |
| Mg2Sh.ToJsonSucceeds | sortinghat/bin/mg2sh.py:141-162 | `json.dumps` is called without a `default` hook, so the export succeeds if and only if every row that supplies a key has only `None`, boolean, integer or string values in the fields `to_json` does not override; otherwise it raises `TypeError` |
| Mg2Sh.UidOfWritable | sortinghat/bin/mg2sh.py:144-154 | A row's record can be written if and only if the row's own fields are all natively writable |
| Mg2Sh.IdentityOfNative | sortinghat/bin/mg2sh.py:144-147 | The written identity's values are all natively writable if and only if the row's fields other than `id`, `uuid` and `source` are |
| Mg2Sh.ToJsonSorted | sortinghat/bin/mg2sh.py:162 | Keys are written sorted at every level of the export |
| Eclipse2Sh.ToJson | sortinghat/misc/eclipse2sh.py:80-106 | The loop builds the snapshot whose `uidentities` is the keyed fill of the converted unique identities, and whose `organizations` is the name map; the result is that snapshot written with `json_encoder` and sorted keys |
| Eclipse2Sh.InsertByEmail | sortinghat/misc/eclipse2sh.py:89 | Inserting an identity dict adds exactly that element: the multiset grows by it |
| Eclipse2Sh.SortByEmail | sortinghat/misc/eclipse2sh.py:89 | Sorting by email is a permutation of the identity list |
| Eclipse2Sh.InsertByEmailSorted | sortinghat/misc/eclipse2sh.py:89 | Inserting into a list sorted by email keeps it sorted |
| Eclipse2Sh.SortByEmailSorted | sortinghat/misc/eclipse2sh.py:89 | The identities end up in ascending email order |
| Eclipse2Sh.InsertByEmailStable | sortinghat/misc/eclipse2sh.py:89 | Inserting keeps the relative order of identities with the same email, the new one going before those already there with its email |
| Eclipse2Sh.SortByEmailStable | sortinghat/misc/eclipse2sh.py:89 | The sort is stable: identities with equal emails keep their original relative order |
| Eclipse2Sh.Converted | sortinghat/misc/eclipse2sh.py:86-93 | A unique identity's converted record; `ConvertedRecord` states its fields |
| Eclipse2Sh.EnrollmentDicts | sortinghat/misc/eclipse2sh.py:91-92 | Each enrollment's dict, in order; `ConvertedRecord` states its length and elements |
| Eclipse2Sh.ConvertedRecord | sortinghat/misc/eclipse2sh.py:86-93 | A record has the dict's uuid and profile. Its identities are the originals, sorted by email, a stable permutation. Its enrollments are each enrollment's `to_dict()`, with the same length and order |
| Eclipse2Sh.UidsKeys | sortinghat/misc/eclipse2sh.py:85-95 | The keys of `uidentities` are exactly the unique identities' uuids |
| Eclipse2Sh.UidsLastWins | sortinghat/misc/eclipse2sh.py:95 | Each uuid holds the converted record of the last unique identity with that uuid |
| Eclipse2Sh.UidsAt | sortinghat/misc/eclipse2sh.py:95 | A unique identity that no later one shares its uuid with supplies that uuid's record |
| Eclipse2Sh.OrganizationsMap | sortinghat/misc/eclipse2sh.py:97 | The name map; `OrganizationsMapShape` states its keys and values |
| Eclipse2Sh.OrganizationsMapShape | sortinghat/misc/eclipse2sh.py:97 | The keys of `orgs` are exactly the organization names, each mapped to an empty dict, with duplicate names collapsed, so there are at most as many keys as organizations |
| Eclipse2Sh.NamesBound | sortinghat/misc/eclipse2sh.py:97 | There are no more distinct names than organizations |
| Eclipse2Sh.JsonEncoder | sortinghat/misc/eclipse2sh.py:109-115 | The `default` hook; `JsonEncoderTimes` and `JsonEncoderSorted` state what it writes and when it fails |
| Eclipse2Sh.JsonEncoderTimes | sortinghat/misc/eclipse2sh.py:109-115 | The encoder succeeds if and only if given a datetime; anything else raises `TypeError`; the string it writes for a datetime parses back to that datetime |
| Eclipse2Sh.JsonEncoderSorted | sortinghat/misc/eclipse2sh.py:105-115 | What the encoder writes cannot unsort keys |
| Eclipse2Sh.ToJsonEnvelope | sortinghat/misc/eclipse2sh.py:99-106 | The written export has `source` equal to the argument, `time` equal to `str(now)`, an empty blacklist, and under `uidentities` exactly the uuids of the input |
| Eclipse2Sh.ToJsonOrganizations | sortinghat/misc/eclipse2sh.py:97-106 | Under `organizations` there is exactly one member per distinct organization name, each an empty object |
| Eclipse2Sh.ToJsonSorted | sortinghat/misc/eclipse2sh.py:105-106 | Keys are written sorted at every level of the export |
| KeyedMap.Assign | sortinghat/bin/mg2sh.py:154 | The dict filled by the loop's assignments has exactly the assigned keys |
| KeyedMap.AssignLastWins | sortinghat/misc/eclipse2sh.py:95 | Each key holds the value of the last assignment to it |
| KeyedMap.AssignAt | sortinghat/bin/mg2sh.py:154 | An assignment that no later one overwrites is the value its key holds |
| TextOrder.SortedKeys | sortinghat/bin/mg2sh.py:162 | `sort_keys=True` writes a dict's keys in strictly increasing Python string order, each key once |
| TextOrder.Least | sortinghat/bin/mg2sh.py:162 | The key written first is the least key of the dict |
| TextOrder.LeastExists | sortinghat/bin/mg2sh.py:162 | Every non-empty dict has a least key |
| TextOrder.Transitive | sortinghat/bin/mg2sh.py:162 | Python's string order is transitive |
| TextOrder.Total | sortinghat/bin/mg2sh.py:162 | Any two keys are comparable |
| TextOrder.Antisymmetric | sortinghat/bin/mg2sh.py:162 | Two keys each at most the other are equal |
| TextOrder.Reflexive | sortinghat/bin/mg2sh.py:162 | Every key is at most itself |
| DateTime.IsoFormat | sortinghat/misc/eclipse2sh.py:112-113 | `isoformat` writes 19 characters, or 26 when there are microseconds |
| DateTime.StrDateTime | sortinghat/bin/mg2sh.py:156 | `str(datetime.now())` has one of the two `isoformat` lengths |
| DateTime.ParseIsoFormat | sortinghat/misc/eclipse2sh.py:112-113 | Reading back the ISO form yields only valid datetimes |
| DateTime.IsoFormatRoundTrip | sortinghat/misc/eclipse2sh.py:112-113 | Reading back what `isoformat` wrote gives the same datetime |
| JsonOutput.NoDefault | sortinghat/bin/mg2sh.py:162 | The behaviour of `json.dumps` without a `default` hook; `EncodeDictNoDefault` states what it lets through |
| JsonOutput.EncodeValue | sortinghat/bin/mg2sh.py:162 | How one value is written; `EncodeDictNoDefault`, `EncodeValueSorted` and `EncodeMapReadBack` state its properties |
| JsonOutput.EncodeDictNoDefault | sortinghat/bin/mg2sh.py:162 | Without a `default` hook a flat dict is written if and only if all its values are `None`, booleans, integers or strings |
| JsonOutput.EncodeEntries | sortinghat/bin/mg2sh.py:162 | The entries are written under the given keys in order; it fails at the first value that cannot be written, and succeeds if and only if every value can be |
| JsonOutput.EncodeMap | sortinghat/bin/mg2sh.py:162 | A dict is written as an object whose keys are the dict's keys in sorted order, each with its own value's encoding |
| JsonOutput.EncodeMapSucceeds | sortinghat/bin/mg2sh.py:162 | A dict is written if and only if every one of its values can be |
| JsonOutput.EncodeList | sortinghat/bin/mg2sh.py:156-162 | A list is written element for element and succeeds if and only if every element can be written |
| JsonOutput.Field | sortinghat/bin/mg2sh.py:162 | Looking a key up in a written object finds a member with that key, or reports that there is none |
| JsonOutput.FieldIn | sortinghat/bin/mg2sh.py:162 | Lookup in a member list finds a member with that key, or there is none |
| JsonOutput.FieldInIncreasing | sortinghat/bin/mg2sh.py:162 | In an object with increasing keys, looking up a member's key finds that member's value |
| JsonOutput.EncodeMapReadBack | sortinghat/bin/mg2sh.py:162 | Reading a written dict back finds exactly the dict's keys, each with its own value's encoding |
| JsonOutput.EncodeValueSorted | sortinghat/misc/eclipse2sh.py:105-106 | A value written through a hook that keeps keys sorted has sorted keys |
| JsonOutput.EncodeMapSorted | sortinghat/bin/mg2sh.py:162 | A written dict has sorted keys at every level when its written values do |
| JsonOutput.EncodeListSorted | sortinghat/bin/mg2sh.py:162 | A written list has sorted keys at every level when its written elements do |
| JsonOutput.EncodeDictSorted | sortinghat/bin/mg2sh.py:162 | A written flat dict has sorted keys at every level |
| Snapshot.EncodeSnapshot | sortinghat/bin/mg2sh.py:156-162 | The export is written exactly when its blacklist, organizations and uidentities can be; it is then the object with keys `blacklist`, `organizations`, `source`, `time`, `uidentities`, in that order |
| Snapshot.EncodeUidSorted | sortinghat/bin/mg2sh.py:149-162 | A written unique identity (`enrollments`, `identities`, `profile`, `uuid`) has sorted keys at every level |
| Snapshot.SnapshotObjectSorted | sortinghat/bin/mg2sh.py:156-162 | The envelope's five keys are in sorted order |
| Snapshot.EncodeSnapshotSorted | sortinghat/misc/eclipse2sh.py:99-106 | With a hook that keeps keys sorted, the written export has sorted keys at every level |
| Snapshot.EncodeSnapshotReadBack | sortinghat/bin/mg2sh.py:156-162 | Reading the written export back gives each part of the envelope, and under `uidentities` exactly the snapshot's uuids, each with its own record |
| Snapshot.OrganizationsReadBack | sortinghat/misc/eclipse2sh.py:97-106 | Under `organizations` the written export holds exactly the organization names, each with its own written dict |

## Left out

- Command-line and configuration handling is not modelled: `main`, `parse_args`, the `__main__` exit handlers, and the whole of `sortinghat/bin/sortinghat.py` and `sortinghat/cmd/__init__.py`. It is argument parsing and process exit codes.
- Database access is not modelled: creating engines and sessions, reflecting tables, the queries of `retrieve_mg_identities` and `fetch_identities`, and `engine.connect()`. `retrieve_mg_identities` is modelled from the fetched rows on. The `irclog`/`wiki_pages_revs` filters depend on SQL `GROUP BY` semantics.
- Parsing is not modelled: `SortingHatParser` and `EclipseParser` are not part of this model. `Sh2Mg.RetrieveShIdentities` and `Eclipse2Sh.ToJson` take the parsed unique identities as input.
- `utils.uuid` and `to_unicode` are not part of this model. They are parameters (`Sh2Mg.Fingerprint`, `toUnicode`), so every property holds whatever they compute.
- The model classes' `to_dict()` methods are not part of this model. Their results are data carried on the input records (`asDict`).
- `datetime.datetime.now()` is the parameter `now`, since the model has no clock.
- The bytes `json.dumps` produces are not modelled: indentation, escaping and number formatting. The output is the JSON tree with its members in written order.
- `JsonOutput.Value` has no list or dict case: every `to_dict()` value is taken to be a flat dict of scalars and datetimes. Nested values would have their keys sorted too and could make encoding fail.
- Time zones and floating point values are not modelled: datetimes are naive and values hold no floats.
- Emails that are `None` in the Eclipse sort are not modelled. Emails are strings, since Python cannot order `None` against a string.
- `Eclipse2Sh.SortByEmail`: the in-place Timsort of `list.sort` is modelled by its result, computed with a functional stable insertion sort. It is proved sorted, a permutation and stable, which fixes the result uniquely.
- `Eclipse2Sh.JsonEncoder`: the `TypeError` that the unbound `json.JSONEncoder.default(obj)` call raises is modelled by its type name, not its message text.
- The `warnings.filterwarnings` call in `load_mapping` is left out; it only silences MySQL warnings.
- `Sh2Mg.Database.Execute`: storage failures come from an injected fault, not from the table's unique constraint on `people_id`. An insert that violates it fails with a driver error of the kind `OtherDriverError`, which `Sh2Mg.Raised` propagates unchanged.
- `Sh2Mg.Database.Execute`: a failing insert changes nothing, so a MyISAM table keeping part of a failed multi-row insert is not modelled.
- `Sh2Mg.LoadMapping`: the table's columns, types, index and engine options are not modelled; a row is a `(uuid, people_id)` pair.
