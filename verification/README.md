# pgsql2osm, modelled in Dafny

pgsql2osm builds an OpenStreetMap XML extract from a PostgreSQL database
imported by osm2pgsql. It works in two stages.

1. It collects element ids in an id accumulator:
   - the nodes, ways and relations inside a boundary;
   - the children of those relations and ways;
   - the parents of the nodes inside the boundary, found with an adaptive,
     timeout-driven chunked query.
2. It reads each accumulated id back from several tables, one table after
   another. It writes every element once, and asks an external flat-nodes
   helper for the coordinates of nodes that no table holds.

This project models that logic as pure Dafny functions over immutable data:

- Each database table is a map from id to rows.
- Each Python dict is an ordered association list of `(key, value)` pairs.
- Each Python set being iterated is a listing supplied by the caller (an
  "order" oracle).
- The database's answers to the adaptive query are a script of answers,
  consumed one per attempt.

The modules follow the program:

| module | models |
|---|---|
| `IdStore` | the id accumulator: `add`, `clear`, `all_subtract` |
| `Controller` | the adaptive chunk-size controller of `g_adaptive_parent_multiquery` |
| `Closure` | the id-collection phases: `all_nwr_within`, `rels_children_nwr`, `ways_children_n`, `nodes_parent_wr`, and their sequence in `stream_osm_xml` |
| `Members` | the two relation-member encodings: legacy text pairs and jsonb objects |
| `Tags` | dict lookup, merge (`{**a, **b}`), `split_tags_out`, the tag-emitting loop, and the row-to-dict conversion of `g_from_cursor` |
| `Elements` | `way_to_xml`, `node_to_xml`, `rel_to_xml` |
| `QueryText` | `g_query_ids` statement text and chunking; `get_columns_of_types` |
| `Fallback` | the request and response text exchanged with the coordinate helper |
| `Regions` | `regions_lookup` over the CSV text |
| `Settings` | table autodetection, the middle-schema check, `make_bounds_constr`, `ModuleSettings` |
| `Serializer` | `create_nodes`, `create_ways`, `create_relations`, `g_batches`, `g_negate`, the write phase |
| `Legacy` | the older single-file `pgsql2osm.py`, where it differs from the package |

Two supporting modules hold shared vocabulary:

- `Wrappers` holds `Result` and `Option`.
- `Text` holds decimal text, `split`, `join`, `find`, `strip` and `upper`.

## Model

| member | source | states |
|---|---|---|
| IdStore.Add | pgsql2osm/pgsql2osm.py:143-145 | adding an id fails exactly when the id is not positive; on success the set gains exactly that id and every other set is unchanged |
| IdStore.Clear | pgsql2osm/pgsql2osm.py:152-154 | the named set becomes empty, every other set is unchanged, and the store stays valid |
| IdStore.AddAll | pgsql2osm/pgsql2osm.py:143-145 | adding a sequence of ids succeeds iff every id is positive; the failure names the first non-positive id; on success the set gains exactly the listed ids |
| IdStore.AllSubtract | pgsql2osm/pgsql2osm.py:158-163 | the result holds exactly the ids in the first set that are not in the second |
| Controller.OnSuccess | pgsql2osm/pgsql2osm.py:84-105 | an answered chunk adds its size to the processed total and keeps the controller invariant; the chunk size grows by one exactly when the unchanged-size counter passed its threshold and the size is not near the running average |
| Controller.OnCancel | pgsql2osm/pgsql2osm.py:106-134 | a cancelled chunk leaves the total unchanged and shrinks the size, never below 1; inside the cliff window the run becomes stable; the timeout is lifted exactly when the run is in the cliff window with chunk size 1, and a warning is recorded then |
| Controller.Drive | pgsql2osm/pgsql2osm.py:67-136 | the processed total never decreases and never passes the number of ids; the loop finishes exactly when every id was processed, and then the timeout is set to two hours; a stable run stays stable |
| Controller.DriveChunks | pgsql2osm/pgsql2osm.py:67-105 | the chunks handed out, joined, are exactly the ids between the starting total and the final total, in list order |
| Controller.DriveCounts | pgsql2osm/pgsql2osm.py:67-105 | every answered chunk is non-empty and its count is its length |
| Controller.RunOver | pgsql2osm/pgsql2osm.py:52-136 | from the initial state, a finished run hands out every id exactly once, in list order; an unfinished run hands out a strict prefix; the older copy in pgsql2osm.py:184-283 has the same logic |
| Controller.ParentMultiquery | pgsql2osm/pgsql2osm.py:66-67 | the queried ids are distinct and drawn from the accumulated set; a finished run queries each id of the set exactly once |
| Controller.AnsweredScriptFinishes | pgsql2osm/pgsql2osm.py:67-105 | if the database answers every attempt, the loop finishes |
| Controller.CancelRetriesSameIds | pgsql2osm/pgsql2osm.py:106-134 | a cancelled attempt does not advance through the ids: the same position is retried with a strictly smaller chunk when the chunk had more than one id |
| Closure.AddSigned | pgsql2osm/pgsql2osm.py:192-197 | signed polygon ids go to ways when positive and, negated, to relations when negative; an id of 0 is refused |
| Closure.Within | pgsql2osm/pgsql2osm.py:178-211 | the first phase adds exactly the point ids to nodes, and the signed polygon and line ids to ways and relations; it fails iff some id cannot be added |
| Closure.Snapshot | pgsql2osm/pgsql2osm.py:411-412 | `nodes_within` gains exactly the current nodes |
| Closure.SnapshotEqualsNodes | pgsql2osm/pgsql2osm.py:409-412 | right after the first phase, `nodes_within` equals the set of nodes inside the bounds |
| Closure.ApplyChildren | pgsql2osm/pgsql2osm.py:316-366 | node and way children are added to their sets; relation children go to the buffer |
| Closure.ApplyChildrenSucceeds | pgsql2osm/pgsql2osm.py:324-357 | applying a relation's children succeeds iff every member decodes and every node or way child is positive |
| Closure.RelsChildren | pgsql2osm/pgsql2osm.py:292-367 | without relations, one pass adds the node and way children of every scanned relation; with relations, a second pass runs over the relations plus their relation children; the older copy in pgsql2osm.py:386-454 has the same passes |
| Closure.RelsChildrenSucceeds | pgsql2osm/pgsql2osm.py:316-366 | the children phase succeeds iff every scanned member decodes and every added id is positive |
| Closure.WaysChildren | pgsql2osm/pgsql2osm.py:369-385 | nodes gain exactly the nodes of the accumulated ways; the phase succeeds iff all of those are positive |
| Closure.ExpandWaysSucceeds | pgsql2osm/pgsql2osm.py:369-385 | expanding a listing of ways succeeds iff every node id they list is positive |
| Closure.FaithfulBatches | pgsql2osm/pgsql2osm.py:248-259 | when each batch reports the true parents of its node chunk, the ways and relations collected equal the parents of every node queried |
| Closure.NodesParentWr | pgsql2osm/pgsql2osm.py:214-260 | the parent phase never changes nodes; it only grows ways and relations; a finished, faithful run adds exactly the parent ways and relations of `nodes_within` |
| Closure.Extract | pgsql2osm/pgsql2osm.py:388-426 | after all phases, nodes are the nodes inside the bounds, plus the multipolygon children's nodes, plus the nodes of the child ways; a finished, faithful parent query adds exactly the parents of the nodes inside the bounds |
| Members.ClassifyToken | pgsql2osm/pgsql2osm.py:341-357 | a member token is accepted iff its first letter is n, w or r and the rest is an integer; an empty token is an IndexError |
| Members.LegacyChildren | pgsql2osm/pgsql2osm.py:341-357 | only the even-indexed entries of the text array are classified, one child each |
| Members.ClassifyJsonb | pgsql2osm/pgsql2osm.py:324-339 | a jsonb member is accepted iff its type is N, W or R; the child keeps the member's ref; other types are a ValueError |
| Members.DecodeLegacy | pgsql2osm/pgsql2osm.py:461-471 | the text array decodes pairwise into (type, ref, role); decoding fails iff some pair has an empty or unknown type token |
| Members.DecodeJsonb | pgsql2osm/pgsql2osm.py:457-460 | jsonb members decode one to one, with the ref as decimal text; decoding fails, with a KeyError, iff some type is unknown |
| Members.DecodeEncodeLegacy | pgsql2osm/pgsql2osm.py:461-471 | decoding the text encoding of a member list gives back the list's XML members |
| Members.DecodeEncodeJsonb | pgsql2osm/pgsql2osm.py:457-460 | decoding the jsonb encoding of a member list gives back the list's XML members |
| Members.ClassifyAgreesWithDecode | pgsql2osm/pgsql2osm.py:341-357 | the children phase and `rel_to_xml` read the same kind and id from a member token |
| Tags.Put | pgsql2osm/pgsql2osm.py:525 | setting a key changes that key only |
| Tags.Merge | pgsql2osm/pgsql2osm.py:525 | in `{**a, **b}` each key takes b's value when b has it, and a's otherwise |
| Tags.SplitTagsOut | pgsql2osm/pgsql2osm.py:743-755 | the attributes are exactly the row's entries with the listed keys, and the column tags are exactly the others |
| Tags.SplitThenMerge | pgsql2osm/pgsql2osm.py:743-755 | merging the two halves of the split gives back the row |
| Tags.EmitTags | pgsql2osm/pgsql2osm.py:646-651 | each key is emitted once, with the value from `tags` when present and from the column tags otherwise |
| Tags.EmitIsReverseMerge | pgsql2osm/pgsql2osm.py:646-651 | the emitting loop equals merging the tags over the column tags |
| Tags.RelTagsDropColumnTags | pgsql2osm/pgsql2osm.py:472-478 | the relation tag loop as written never emits a column tag that `tags` lacks, though the corrected loop does |
| Tags.RowDictDropsNulls | pgsql2osm/dbutils.py:59 | a row dict holds a column iff its value is not NULL, and the last such column of a name wins |
| Elements.CollapseTags | pgsql2osm/pgsql2osm.py:680-681 | popping `json_tags` and `json_tags2` succeeds iff both are objects; the row loses exactly those two keys; each tag is taken from `json_tags2` first, then `json_tags` |
| Elements.WayToXml | pgsql2osm/pgsql2osm.py:637-652 | a way is built iff the row has an id and any `nodes` is an id array; its id and node refs come from the row, never from the tags; the tags are `tags` over the column tags |
| Elements.NodeToXml | pgsql2osm/pgsql2osm.py:731-741 | a node is built iff the row has an id; its attributes are exactly id, lat and lon; the other columns become tags, below `tags` |
| Elements.RelToXml | pgsql2osm/pgsql2osm.py:452-479 | a relation is built iff its members decode in the detected dialect; its id comes from the row; the tags are `tags` over the column tags |
| Elements.RelToXmlAsWritten | pgsql2osm/pgsql2osm.py:472-478 | the relation as written emits `tags` only |
| Elements.RelToXmlDropsColumnTag | pgsql2osm/pgsql2osm.py:473-474 | a column tag absent from `tags` is lost by the code as written and kept by the corrected loop; the members are the same in both |
| Elements.RelationMembersRoundTrip | pgsql2osm/pgsql2osm.py:456-471 | a relation stored in either encoding is written with its own member list |
| QueryText.Chunks | pgsql2osm/dbutils.py:83-93 | chunks are non-empty and at most `step` long, and all but the last are exactly `step` long |
| QueryText.ChunksCover | pgsql2osm/dbutils.py:83-93 | concatenating the chunks gives back the id list |
| QueryText.Prepare | pgsql2osm/dbutils.py:75-80 | a query with WHERE is joined with AND; otherwise ` WHERE` is appended and nothing joins |
| QueryText.Statement | pgsql2osm/dbutils.py:94-96 | each statement is the prepared head followed by the id list and `);` |
| QueryText.StatementRoundTrip | pgsql2osm/dbutils.py:94-96 | the ids can be read back from a statement exactly |
| QueryText.StatementsCoverIds | pgsql2osm/dbutils.py:83-96 | the statements together carry every id once, in order |
| QueryText.ChunkingKeepsRows | pgsql2osm/dbutils.py:83-102 | querying chunk by chunk yields the same rows as one query for all ids |
| QueryText.SchemaAndTable | pgsql2osm/dbutils.py:107 | the name splits iff, after the quotes are stripped, it has exactly one dot; the two halves rebuild it |
| QueryText.ColumnRef | pgsql2osm/dbutils.py:121 | a column is qualified by its table, and quoted iff it has a colon after position 0 |
| QueryText.ColumnRefInjective | pgsql2osm/dbutils.py:121 | distinct columns give distinct references |
| QueryText.ColumnsOfTypes | pgsql2osm/dbutils.py:104-121 | the j-th reference is the table-qualified reference of the j-th catalogue column of a wanted type other than `osm_id`, and there are no others; an ill-formed table name is an error |
| Fallback.Request | pgsql2osm/dbutils.py:38-42 | the request ends in a newline |
| Fallback.RequestRoundTrip | pgsql2osm/dbutils.py:37-42 | the helper's reader, which stops at end of file, recovers every requested id |
| Fallback.ParseLine | pgsql2osm/dbutils.py:46-48 | a reply line is accepted iff it has exactly three `;` fields, and lon;lat;id becomes (id, lat, lon) |
| Fallback.ResponseRoundTrip | pgsql2osm/dbutils.py:44-48 | parsing the helper's printed replies gives them back in order, with lat and lon swapped |
| Regions.Normalize | pgsql2osm/dbutils.py:12 | the code keeps its length and has no underscore or lower-case letter |
| Regions.NormalizeIdempotent | pgsql2osm/dbutils.py:12 | normalising twice is normalising once |
| Regions.NormalizeSpellings | pgsql2osm/dbutils.py:12 | `de_by`, `De_By` and `DE-BY` all normalise to `DE-BY` |
| Regions.IsoColumns | pgsql2osm/dbutils.py:16-19 | the searched columns are exactly the headers containing `iso`, in order |
| Regions.Lookup | pgsql2osm/dbutils.py:11-27 | the result is the name and osm_id of a row whose iso cell equals the code, and of the first such row; no such row is a not-found error; the older copy in pgsql2osm.py:17-33 has the same logic |
| Regions.FirstMatchDecides | pgsql2osm/dbutils.py:20-25 | the first matching row decides the answer |
| Settings.DetectRows | pgsql2osm/settings.py:52-69 | each detected ending maps to the biggest matching catalog table, with the later one winning a tie, qualified by its schema; an ending no table has is absent |
| Settings.DetectPicksBiggest | pgsql2osm/settings.py:64-66 | the table kept for an ending is at least as big as every other table with that ending, and every later one is strictly smaller |
| Settings.EndingKinds | pgsql2osm/settings.py:57 | geometry tables are matched only against geometry endings, and plain tables only against plain endings |
| Settings.CheckTables | pgsql2osm/settings.py:73-74 | the check passes iff all five endings were detected |
| Settings.Dialect | pgsql2osm/settings.py:76-84 | the jsonb dialect holds iff there are two jsonb columns and no text-array columns; the legacy dialect iff there are two text-array columns; anything else is an assertion failure |
| Settings.RelationConstraint | pgsql2osm/settings.py:120-126 | a relation boundary selects the polygon row `-id`, and fails when the SRIDs differ |
| Settings.BaseConstraint | pgsql2osm/settings.py:104-126 | precedence is GeoJSON, then relation id, then iso code; a failed region lookup is the error |
| Settings.MakeBoundsConstr | pgsql2osm/settings.py:90-146 | the box is ANDed with any other bound, or stands alone; no bound at all is the `exit(1)` error; the table name is returned |
| Settings.MakeBoundsConstrAsWritten | pgsql2osm/settings.py:112-117 | as written, the first ISO lookup that finds a row sets `has_suggested_out_filename` and raises NameError, and a missing bound raises NameError instead of exiting; otherwise it agrees with the intended function |
| Settings.IsoFirstCallFails | pgsql2osm/settings.py:112-117 | the first call, for the point table, fails with NameError whenever the ISO code is found |
| Settings.IsoBuildsConstraint | pgsql2osm/settings.py:112-126 | with an ISO code found, a numeric id and matching SRIDs, the intended function builds the constraint on the polygon row `-id` |
| Settings.ModuleSettings | pgsql2osm/settings.py:184-197 | the settings hold exactly the known keys, each given value or else its default |
| Settings.ModuleSettingsFixpoint | pgsql2osm/settings.py:184-197 | feeding the settings back in as keyword arguments gives the same settings |
| Serializer.Query | pgsql2osm/dbutils.py:66-102 | the rows are those of the listed ids, in order, as NULL-free dicts |
| Serializer.Build | pgsql2osm/pgsql2osm.py:676-682 | each builder yields an element of its kind whose id is the row's id; a point row builds iff its tag column is an object and it has `id`, `lat` and `lon`, and the node's `id` attribute is `str` of the row's id |
| Serializer.BuildNode | pgsql2osm/pgsql2osm.py:777-783 | a point row becomes a node iff its tag column is an object and it has `id`, `lat` and `lon`; the node's `id`, `lat` and `lon` attributes are the row's |
| Serializer.JoinedTags | pgsql2osm/pgsql2osm.py:680-682 | a joined way row's tags are `json_tags2`, then `json_tags`, then the other columns; for a relation this holds with the corrected tag loop of the first Findings row |
| Serializer.JoinedRelTagsAsWritten | pgsql2osm/pgsql2osm.py:473-474 | with `rel_to_xml` as written, a joined relation row's tags are `json_tags2`, then `json_tags`, and never another column |
| Serializer.ScanRows | pgsql2osm/pgsql2osm.py:676-684 | the loop writes each row id not already done exactly once, and records it |
| Serializer.ScanRowsBuilds | pgsql2osm/pgsql2osm.py:676-684 | each written element is the one built from the first row with its id |
| Serializer.GBatches | pgsql2osm/pgsql2osm.py:802-814 | batches are non-empty and at most the batch size; all but the last are full; together they hold the input; distinct input is cut into consecutive runs; the older copy in pgsql2osm.py:770-782 has the same logic |
| Serializer.NegateInvolution | pgsql2osm/pgsql2osm.py:727-729 | negating twice is the identity, and the negated set is the set of negations |
| Serializer.RunSources | pgsql2osm/pgsql2osm.py:654-725 | reading the tables in turn writes distinct positive ids, none already done |
| Serializer.RunSourcesFinds | pgsql2osm/pgsql2osm.py:654-725 | the ids written are exactly the wanted ids, less those already done, that some table holds |
| Serializer.CreateKind | pgsql2osm/pgsql2osm.py:654-725 | elements are of one kind with distinct ids; `done_ids` records exactly them; the kind's set is cleared and nothing else changes |
| Serializer.CreateKindFinds | pgsql2osm/pgsql2osm.py:654-725 | `create_*` writes exactly the accumulated ids that some table holds |
| Serializer.WaysFound | pgsql2osm/pgsql2osm.py:654-725 | `create_ways` writes exactly the accumulated ways found in the polygon, line or ways table |
| Serializer.RelationsFound | pgsql2osm/pgsql2osm.py:481-635 | `create_relations` writes exactly the accumulated relations found, negated, in the polygon or line table, or in the rels table |
| Serializer.CreateNodes | pgsql2osm/pgsql2osm.py:757-800 | nodes are written once each; `done_ids` records them and the node set is cleared |
| Serializer.NodesFound | pgsql2osm/pgsql2osm.py:757-800 | `create_nodes` writes exactly the accumulated nodes found in the point table or known to the helper |
| Serializer.BatchExchange | pgsql2osm/pgsql2osm.py:790-799 | one batch's exchange with a faithful helper returns exactly the batch's ids that the helper knows |
| Serializer.FallbackFinds | pgsql2osm/pgsql2osm.py:790-799 | the helper loop writes exactly the remaining ids the helper knows, less those already done |
| Serializer.WriteOut | pgsql2osm/pgsql2osm.py:445-449 | after the write phase the node, way and relation sets are empty, and `nodes_within` is unchanged |
| Legacy.Slices | pgsql2osm.py:698-701 | the older code's slicing fails iff the step is 0, and yields nothing for a negative step |
| Legacy.SlicesAreChunks | pgsql2osm.py:698-701 | for a positive step the slices are the package's chunks and cover the ids |
| Legacy.LegacyStatementRoundTrip | pgsql2osm.py:694-701 | the ids can be read back from an older statement |
| Legacy.LegacyOmitsAnd | pgsql2osm.py:694-701 | on a query with WHERE the older statement has no AND, and the package's does |
| Legacy.LegacyMerge | pgsql2osm.py:616-623 | without `json_tags` the row is unchanged; a non-object tag column is a TypeError |
| Legacy.LegacyMergePrecedence | pgsql2osm.py:525-532 | in the merged row each key comes from `json_tags2`, then `json_tags`, then the row |
| Legacy.LegacyWayOf | pgsql2osm.py:624-632 | the way takes the merged row's id and node refs, and every other key as a tag |
| Legacy.LegacyWayToXml | pgsql2osm.py:615-633 | the older way is built from the merged row |
| Legacy.LegacyWayIdFromTag | pgsql2osm.py:616-624 | a tag named `id` replaces the way's id |
| Legacy.LegacyKeepsTagColumn | pgsql2osm.py:617-623 | without `json_tags`, the `json_tags2` column is emitted as a tag |
| Legacy.LegacyTextMembers | pgsql2osm.py:539-549 | the older text decoding stops silently at an unknown type letter |
| Legacy.LegacyJsonbMembers | pgsql2osm.py:534-538 | the older jsonb decoding stops at an unknown type |
| Legacy.LegacyTextAgrees | pgsql2osm.py:539-549 | where the package decodes a text array, the older code decodes it the same way |
| Legacy.LegacyJsonbAgrees | pgsql2osm.py:534-538 | where the package decodes jsonb members, the older code decodes them the same way |
| Legacy.LegacyMembersRoundTrip | pgsql2osm.py:533-549 | both older decodings give back an encoded member list |
| Legacy.LegacyMembers | pgsql2osm.py:533-549 | a members value of the wrong form for the dialect is a TypeError |
| Legacy.LegacyRelOf | pgsql2osm.py:533-554 | the older relation takes its members, when given, and every other key as a tag |
| Legacy.LegacyRelToXml | pgsql2osm.py:523-555 | the older relation's id is read before the merge |
| Legacy.LegacyBuild | pgsql2osm.py:584-594 | the id the older loop records is the merged row's `id` |
| Legacy.Collect | pgsql2osm.py:650-654 | the loop succeeds iff every row builds, and yields each row's element in order |
| Legacy.Emit | pgsql2osm.py:650-654 | every row of a table is written, with no check against ids already done |
| Legacy.LegacyCreate | pgsql2osm.py:635-672 | the older `create_ways` writes at least one element per first-table row |
| Legacy.LegacyWritesTwice | pgsql2osm.py:584-594 | two first-table rows for one id make the element written twice |
| Legacy.LegacyRequestDropsLast | pgsql2osm.py:116 | the helper never looks up the last id of an older request |
| Legacy.LegacyBatchLosesLast | pgsql2osm.py:108-122 | an older batch exchange returns the batch's ids that the helper knows, except the id listed last |

## Left out

- The logger (`pgsql2osm/log.py`), progress percentages, debug elements and timing are left out; they change no output ids.
- The command-line parsing in `pgsql2osm/cli.py` and the package `__init__.py` are left out; they only build the settings.
- `get_lonlat.cpp` is not part of this model beyond its input reader. Its reader is modelled as `Fallback.ReaderIds`: it reads a token and stops at end of file. The helper itself is the oracle `helper: string -> string`.
- SQL execution, psycopg2 cursors and `statement_timeout` commands are left out. Each table is a map from id to rows, and the timeout is a field of the controller state.
- The asyncio plumbing, `chain`, the subprocess pipes and the lxml XML writer are left out. Elements are returned as a sequence in write order.
- Reading `regions.csv` and the GeoJSON file is left out; their contents are passed in as strings.
- Floating point is left out: `round(x, 10)` of coordinates, `str()` of floats, and `float()` parsing of the box. The box is an opaque token.
- The running average of accepted chunk sizes is a `real`, not a float.
- `ways_parent_r` is left out: it is never called, because its call is commented out.
- `Settings.test`, which probes the helper with two fixed ids, is left out; it only checks that files exist.
- Python `int()` is modelled as an optional sign followed by ASCII digits. Surrounding whitespace and underscores are not accepted.
- `str.upper` and `strip` are modelled on ASCII only.
- The iteration order of Python sets is an oracle (`order`) that lists each set's elements once. No particular order is assumed.
- Exceptions are modelled as `Failure`. Elements written before an exception are not modelled.
- The older `all_nwr_within`, `nodes_parent_wr`, `ways_children_n` and `create_nodes` (pgsql2osm.py) are not modelled, except for the fallback request (`Legacy.LegacyRequest`). They differ from the package in these ways:
  - The older `all_nwr_within` selects polygon rows with the bounding-box operator `way&&` rather than `ST_Intersects` (pgsql2osm.py:130, 142, 150, 162), so it may collect rows outside the area.
  - The older `all_nwr_within` uses a box only when no other bound is given (pgsql2osm.py:140); the package ANDs the box with the other bound.
  - The older `all_nwr_within` adds ids to plain sets, without the package's positivity assert (pgsql2osm.py:157-180).
  - The older `stream_osm_xml` sets `with_parents=False` and so skips `nodes_parent_wr` (pgsql2osm.py:484-495); the package runs the parents phase.
  - The older `create_nodes` writes every helper reply without a done check (pgsql2osm.py:759-764).
- The older `rels_children_nwr` adds ids without the package's positivity check. Its `RelsChildren` row covers it on success only.
- The older `create_ways` and `create_relations` are modelled by `Legacy.LegacyCreate` over any row builder. The table-specific queries are left out.
- The older `get_columns_of_types` (pgsql2osm.py:709-722) is not modelled: it differs only in not splitting the schema from the table name.
- Legacy.LegacyWayOf: a `nodes` value that is not an id array is a TypeError here, whereas Python would iterate over any iterable.
- Legacy.LegacyMembers: a members value of the wrong form is a TypeError here, whereas Python would fail later, or iterate it differently.
- Legacy.LegacyCreate: it states only a bound on the number of elements written. What it writes exactly is shown by `Legacy.LegacyWritesTwice`.
- Legacy.LegacyMerge: its contract covers the error cases and the no-tags case. The tag precedence is stated by `Legacy.LegacyMergePrecedence`. A tag column that is not an object is reported as a TypeError, where Python raises AttributeError on `.items()`.
- Serializer.Build: relations are built with the corrected tag loop of the first Findings row (`Elements.RelToXml`). So a relation's column tags that are absent from its tag columns are written here, which `rel_to_xml` as written never does; `Serializer.JoinedRelTagsAsWritten` states the as-written tags.
- Settings.MakeBoundsConstr: it is the intended function of the second Findings row. It does not model the NameError of `l.log` or the `has_suggested_out_filename` flag; `Settings.MakeBoundsConstrAsWritten` does.
- Legacy.LegacyBuild: it states agreement with the per-kind builders, not a separate property.

## Findings

| source | as written | input that shows it | evidently intended | confidence | as-written member | corrected member |
|---|---|---|---|---|---|---|
| pgsql2osm/pgsql2osm.py:473-474 | `for t in (tags,col_tags)` iterates `tags.items()` both times, so a column tag of a relation is never emitted | a relation row with column `name` set and `json_tags` without `name` | emit `tags` first, then the column tags not already emitted, as `way_to_xml` does | high; not executed | Elements.RelToXmlAsWritten | Elements.RelToXml |
| pgsql2osm.py:616-624 | the tags are merged into the row before the id is read, so a tag named `id` replaces the way id | way 513097887, whose tags hold `id=1nh5Cbt9_EsnMhdH5T3hnPXQguY=` | the way keeps its own id; the package keeps tags and row apart | high; not executed | Legacy.LegacyWayIdFromTag | Elements.WayToXml |
| pgsql2osm.py:584-594 | the first-table loop has no done check, so two rows for one id write the element twice | a relation stored as two rows of the polygon table under one id | each element is written once, as the package's `done_ids` check ensures | medium; not executed | Legacy.LegacyWritesTwice | Serializer.RunSources |
| pgsql2osm.py:116 | the request is `' '.join(...)` with nothing after the last id, and the helper stops when reading reaches end of file | a batch `{42}`: the helper reads 42, hits end of file and prints nothing | end the request with a separator, as the package does | high; not executed | Legacy.LegacyRequestDropsLast | Fallback.RequestRoundTrip |
| pgsql2osm.py:694-699 | the docstring promises `AND id IN (...)`, but the code only adds `WHERE` when it is missing and never adds AND | the query `SELECT * FROM t WHERE x=1` gives `... WHERE x=1 id IN (1);` | join with AND when the query already has WHERE, as the package does | high; not executed | Legacy.LegacyOmitsAnd | QueryText.Prepare |
| pgsql2osm/settings.py:112-117, 142-145 | the ISO branch and the no-boundary branch log through `l`, a name settings.py never defines (only `log.l` is imported) | `--iso DE-BY` with `DE-BY` in `regions.csv`: `has_suggested_out_filename` starts False, so the first call raises NameError; with no bound at all, NameError is raised before `exit(1)` | log through `log.l`, so the ISO bound builds its constraint and a missing bound exits with the message | high; not executed | Settings.MakeBoundsConstrAsWritten | Settings.MakeBoundsConstr |
| pgsql2osm.py:617-623 | when a row has no `json_tags`, the `json_tags2` column is never popped and is emitted as a tag | a joined row with NULL polygon tags | the `json_tags2` column is never a tag | low; not executed | Legacy.LegacyKeepsTagColumn | Serializer.JoinedTags |
