# lldap group repository, modelled in Dafny

This project models the SQL group repository of lldap, a lightweight LDAP
directory server. The repository stores groups in three tables:
`groups`, `memberships` and `group_attributes`. It serves five operations:

- listing groups under a filter (`list_groups`);
- reading one group (`get_group_details`);
- creating, updating and deleting a group.

The project also models the public attribute schema (`PublicSchema`). That
schema is the administrator's schema with the built-in attributes added.
`list_groups` and `get_group_details` decode stored attribute values
against it.

The model is organised as follows:

- `wrappers.dfy`: `Option` and `Result`.
- `strings.dfy`: ASCII lowercase, and the lexicographic order by code point
  that Rust's `String::cmp` uses. The database is assumed to order
  attribute names the same way.
- `sorting.dfy`: order-preserving selection (`Filter`), and the stable
  in-place insertion sort used for both sorts in the core.
- `schema.dfy`: `server/src/domain/schema.rs`. This covers the extractors and
  the conversion of a `Schema` into a `PublicSchema`.
- `domain.dfy`: attribute values, the error kinds, and the codec types.
- `group_tables.dfy`: the three tables as sequences kept in primary-key
  order. It holds the database guarantees (`Valid`) and the row-level
  effect of `INSERT`, `INSERT ... ON CONFLICT DO UPDATE` and `DELETE`.
- `group_filter.dfy`: `get_group_filter_expr` and `attribute_condition`.
  - A filter compiles to a relational condition (`Compile`).
  - `Eval` evaluates a condition over a database state.
  - `Matches` states what each filter is meant to select.
  - `CompileCorrect` proves that `Eval` and `Matches` agree.
- `group_listing.dfy`: `list_groups` and `get_group_details`.
  - `ListGroups` runs the two queries.
  - It then runs the single-pass merge of attribute rows into groups, as an
    in-place loop over an array of groups.
  - Finally it sorts by display name.
  - It is proved against `ListedGroups`, the per-group reference
    definition of the result.
- `group_backend.dfy`: the class `SqlBackendHandler`. Its fields are the
  three tables and the id counter. Its methods are `CreateGroup`,
  `UpdateGroup` and `DeleteGroup`.
  - Each method is proved equal to an outcome function giving the result
    and the new state.
  - Each method keeps `Valid`.
  - A failure in a transaction restores the snapshot taken at its start.

## Model

All paths below are relative to the repository root.

| member | source | states |
|---|---|---|
| Strings.Lower | crates/sql-backend-handler/src/sql_group_backend_handler.rs:203 | the lowercase name has the same length and is the character-wise lowercase of the input |
| Strings.LowerIdempotent | crates/sql-backend-handler/src/sql_group_backend_handler.rs:79-84 | lowercasing the already lowercase column again changes nothing |
| Strings.LexLeTotal | crates/sql-backend-handler/src/sql_group_backend_handler.rs:154 | any two display names are comparable |
| Strings.LexLeTransitive | crates/sql-backend-handler/src/sql_group_backend_handler.rs:154 | the name order is transitive |
| Strings.LexLeAntisymmetric | crates/sql-backend-handler/src/sql_group_backend_handler.rs:154 | names that are ordered both ways are equal |
| Strings.LexTrichotomy | crates/sql-backend-handler/src/sql_group_backend_handler.rs:136-137 | two attribute names are equal or strictly ordered one way |
| Sorting.Filter | crates/sql-backend-handler/src/sql_group_backend_handler.rs:108-113 | a selection keeps exactly the elements satisfying the condition, and is no longer than the table |
| Sorting.FilterPairwise | crates/sql-backend-handler/src/sql_group_backend_handler.rs:136-137 | a selection of an ordered table is still ordered |
| Sorting.FilterDrops | crates/sql-backend-handler/src/sql_group_backend_handler.rs:250-253 | a deletion that removes a row leaves fewer rows, so `rows_affected` is non-zero |
| Sorting.SortBy | crates/sql-backend-handler/src/sql_group_backend_handler.rs:154 | after the sort the array is ordered by the key, is a permutation of what it held, and keeps elements of equal key in their original order (stable, as `sort_by` is) |
| Sorting.InsertAt | crates/sql-backend-handler/src/sql_group_backend_handler.rs:154 | one insertion pass extends the sorted prefix by one, permutes the array and keeps the order among equal keys |
| Sorting.SwapStable | crates/sql-backend-handler/src/sql_group_backend_handler.rs:154 | exchanging two neighbours of different keys keeps the order among equal keys |
| Sorting.SortedStableUnique | crates/sql-backend-handler/src/sql_group_backend_handler.rs:154 | two sequences sorted by a key that keep the same order among equal keys are equal, so a stable sort has one result |
| Sorting.SortedPermutationUnique | crates/sql-backend-handler/src/sql_group_backend_handler.rs:154 | two sorted permutations of one sequence with distinct keys are equal |
| Schema.ExtractorsSelectTheirList | server/src/domain/schema.rs:10-34 | `get_schema` gives back the wrapped schema; the user extractor yields its user list and the group extractor its group list |
| Schema.FindAttribute | crates/sql-backend-handler/src/sql_group_backend_handler.rs:219-222 | None exactly when no attribute has the name; otherwise an attribute of the list with that name |
| Schema.GetAttributeType | crates/sql-backend-handler/src/sql_group_backend_handler.rs:282-285 | None exactly when the list does not declare the name; otherwise the type and list flag of a declared attribute of that name |
| Schema.FromSchema | server/src/domain/schema.rs:36-133 | each list of the public schema is sorted by name, is a permutation of the administrator's list followed by the built-ins of its kind, and keeps that order among equal names |
| Schema.MergeKeepsEverything | server/src/domain/schema.rs:36-133 | the merged list grows by exactly the built-ins and holds an attribute iff the administrator's list or the built-ins do |
| Schema.MergedUserBuiltins | server/src/domain/schema.rs:38-88 | the public user list has five more entries and holds hardcoded `user_id`, `creation_date`, `mail`, `uuid`, `display_name` |
| Schema.MergedGroupBuiltins | server/src/domain/schema.rs:89-130 | the public group list has four more entries and holds hardcoded `group_id`, `creation_date`, `uuid`, `display_name`, with the exact `group_id` and `creation_date` schemas |
| Schema.BuiltinFlags | server/src/domain/schema.rs:38-126 | built-ins are hardcoded; read-only exactly for the identifying ones; editable exactly for `mail` and `display_name` |
| Schema.MergeIsDetermined | server/src/domain/schema.rs:127-130 | the conversion has only one possible output, also when a stored name equals a built-in's |
| Schema.MergedNameOrder | server/src/domain/schema.rs:85-130 | among attributes of one name, the stored ones come first in their order, then the built-ins |
| GroupFilter.Add | crates/sql-backend-handler/src/sql_group_backend_handler.rs:55 | adding to an `all`/`any` condition keeps its kind |
| GroupFilter.FoldAdd | crates/sql-backend-handler/src/sql_group_backend_handler.rs:53-55 | the fold keeps the kind and appends the compiled children in order |
| GroupFilter.EmptyListsCompileToIdentities | crates/sql-backend-handler/src/sql_group_backend_handler.rs:50-51 | an empty `And` compiles to true and an empty `Or` to false |
| GroupFilter.NonEmptyListsCompileToFold | crates/sql-backend-handler/src/sql_group_backend_handler.rs:52-62 | a non-empty list compiles to one `all`/`any` whose i-th condition is the compiled i-th filter |
| GroupFilter.CompileCorrect | crates/sql-backend-handler/src/sql_group_backend_handler.rs:39-88 | for every filter and group row, the compiled condition holds iff the filter is meant to select the group |
| GroupFilter.ConjunctionCorrect | crates/sql-backend-handler/src/sql_group_backend_handler.rs:61 | `And` selects iff every part selects, when each part compiles correctly |
| GroupFilter.DisjunctionCorrect | crates/sql-backend-handler/src/sql_group_backend_handler.rs:62 | `Or` selects iff some part selects, when each part compiles correctly |
| GroupFilter.LeafCorrect | crates/sql-backend-handler/src/sql_group_backend_handler.rs:22-37 | the constants and the name, id, uuid, membership, attribute-equality and attribute-presence filters hold iff their intended condition holds |
| GroupFilter.DisplayNameIgnoresCase | crates/sql-backend-handler/src/sql_group_backend_handler.rs:403-413 | "eMpTy gRoup" selects "Empty Group" and "Best Group" does not |
| GroupTables.FindGroup | crates/sql-backend-handler/src/sql_group_backend_handler.rs:163-167 | None iff no row has the id; otherwise a stored row with that id |
| GroupTables.FindGroupIsUnique | crates/sql-backend-handler/src/sql_group_backend_handler.rs:163-167 | in an id-ordered table the id finds the one row that has it |
| GroupTables.UsersOf | crates/sql-backend-handler/src/sql_group_backend_handler.rs:116-117 | a user is listed iff a membership row links them to the group |
| GroupTables.UsersOfDistinct | crates/sql-backend-handler/src/sql_group_backend_handler.rs:116-117 | with no membership row stored twice, no user is listed twice for a group |
| GroupTables.Lookup | crates/sql-backend-handler/src/sql_group_backend_handler.rs:22-37 | None iff no row has the key; otherwise a stored row under that key holds the value |
| GroupTables.LookupMember | crates/sql-backend-handler/src/sql_group_backend_handler.rs:168-172 | in a key-ordered table a stored row is the one its key finds |
| GroupTables.KeyLtTransitive | crates/sql-backend-handler/src/sql_group_backend_handler.rs:136-137 | the (group id, name) order is transitive |
| GroupTables.UpsertMembers | crates/sql-backend-handler/src/sql_group_backend_handler.rs:319-331 | after an upsert the table holds the new row plus the old rows of other keys |
| GroupTables.UpsertOrdered | crates/sql-backend-handler/src/sql_group_backend_handler.rs:319-331 | an upsert keeps the table in key order |
| GroupTables.UpsertLookup | crates/sql-backend-handler/src/sql_group_backend_handler.rs:319-331 | after an upsert the row's key reads its value and every other key reads as before |
| GroupTables.UpsertManyOrdered | crates/sql-backend-handler/src/sql_group_backend_handler.rs:319-331 | a multi-row upsert keeps the table in key order |
| GroupTables.UpsertManyLookup | crates/sql-backend-handler/src/sql_group_backend_handler.rs:319-331 | after a multi-row upsert a key reads the last new value for it, else its old value |
| GroupTables.InsertManySucceeds | crates/sql-backend-handler/src/sql_group_backend_handler.rs:237-241 | a multi-row insert succeeds iff no new key is stored and the new keys are distinct; then it stores exactly old plus new rows |
| GroupTables.DeleteNamesLookup | crates/sql-backend-handler/src/sql_group_backend_handler.rs:312-318 | after the deletion the group's listed names read nothing, every other key reads as before, and the order is kept |
| GroupListing.DecodeRows | crates/sql-backend-handler/src/sql_group_backend_handler.rs:174-183 | succeeds iff every row decodes, then keeps names and order; else the first failing row's error |
| GroupListing.ListConditionCorrect | crates/sql-backend-handler/src/sql_group_backend_handler.rs:94-107 | on a valid state the shared condition selects a group iff there is no filter or the filter matches it |
| GroupListing.AttachAttributes | crates/sql-backend-handler/src/sql_group_backend_handler.rs:142-153 | succeeds iff every group's own rows decode; each group then carries its decoded rows; else the first failing group's error |
| GroupListing.TakenRun | crates/sql-backend-handler/src/sql_group_backend_handler.rs:143-144 | the run taken at the cursor is all of the group's rows, and the cursor moves past them |
| GroupListing.TakeRun | crates/sql-backend-handler/src/sql_group_backend_handler.rs:143-144 | takes the maximal run of rows owned by the group from the cursor on |
| GroupListing.MergeAttributes | crates/sql-backend-handler/src/sql_group_backend_handler.rs:140-153 | the single-pass merge leaves the array exactly as the per-group reference definition, or returns its first error |
| GroupListing.AttachFirstError | crates/sql-backend-handler/src/sql_group_backend_handler.rs:152 | the first group that fails to decode fails the whole merge with its error |
| GroupListing.QueriesSelectIntended | crates/sql-backend-handler/src/sql_group_backend_handler.rs:108-113 | on a valid state the first query returns, in id order, exactly the groups the filter is meant to list |
| GroupListing.QueriedRows | crates/sql-backend-handler/src/sql_group_backend_handler.rs:126-139 | the second query returns key-ordered rows of selected groups only, and all rows of each selected group |
| GroupListing.QueriesFeedMerge | crates/sql-backend-handler/src/sql_group_backend_handler.rs:108-139 | the two queries meet the merge's preconditions, and merging them gives the intended listing |
| GroupListing.ListGroups | crates/sql-backend-handler/src/sql_group_backend_handler.rs:93-156 | on success the result is sorted by display name, is a permutation of the intended groups with their members and attributes, and keeps groups of equal name in id order; otherwise the intended error |
| GroupListing.MergeAndSort | crates/sql-backend-handler/src/sql_group_backend_handler.rs:140-155 | merge then sort: sorted, a stable permutation of the per-group result, or its error |
| GroupListing.GetGroupDetails | crates/sql-backend-handler/src/sql_group_backend_handler.rs:162-185 | a missing id gives `EntityNotFound`; an existing one succeeds iff its rows decode, with the stored name, date and uuid |
| GroupListing.NoFilterListsEveryGroup | crates/sql-backend-handler/src/sql_group_backend_handler.rs:107 | with no filter every group is selected |
| GroupListing.ListedAgreesWithDetails | crates/sql-backend-handler/src/sql_group_backend_handler.rs:114-123 | each listed group equals its details, and lists exactly its members, each once |
| GroupListing.DetailsListStoredAttributes | crates/sql-backend-handler/src/sql_group_backend_handler.rs:168-183 | the details list each stored row of the group decoded, in strictly ascending name order, and nothing else |
| GroupListing.ListingIsDetermined | crates/sql-backend-handler/src/sql_group_backend_handler.rs:154 | on a valid state any two sorted permutations of the listing are equal |
| GroupListing.FixtureSimpleFilter | crates/sql-backend-handler/src/sql_group_backend_handler.rs:387-400 | on the fixture, `Or(DisplayName "Empty Group", Member bob)` selects Best Group and Empty Group |
| GroupListing.FixtureListedInIdOrder | crates/sql-backend-handler/src/sql_group_backend_handler.rs:108-113 | on the fixture the unfiltered listing succeeds, in id order |
| GroupListing.FixtureNamesSorted | crates/sql-backend-handler/src/sql_group_backend_handler.rs:154 | sorting the fixture's three groups leaves Best, Empty, Worst |
| GroupListing.FixtureListingOrder | crates/sql-backend-handler/src/sql_group_backend_handler.rs:374-385 | the unfiltered fixture listing comes out as Best, Empty, Worst |
| GroupBackend.FirstUnknown | crates/sql-backend-handler/src/sql_group_backend_handler.rs:218-236 | None iff the schema declares every name; else the first undeclared name |
| GroupBackend.CheckedRows | crates/sql-backend-handler/src/sql_group_backend_handler.rs:281-298 | reports the first undeclared name, or else the group's rows for the attributes in order |
| GroupBackend.CheckedNames | crates/sql-backend-handler/src/sql_group_backend_handler.rs:299-311 | reports the first undeclared name, or else all names to remove |
| GroupBackend.SqlBackendHandler.Rollback | crates/sql-backend-handler/src/sql_group_backend_handler.rs:211-213 | the tables return to the transaction's snapshot |
| GroupBackend.SqlBackendHandler.CreateGroup | crates/sql-backend-handler/src/sql_group_backend_handler.rs:200-246 | the result and new state are `CreateGroupOutcome`, and the tables stay valid |
| GroupBackend.SqlBackendHandler.UpdateGroup | crates/sql-backend-handler/src/sql_group_backend_handler.rs:263-333 | the result and new state are `UpdateGroupOutcome`, and the tables stay valid |
| GroupBackend.SqlBackendHandler.WriteAttributes | crates/sql-backend-handler/src/sql_group_backend_handler.rs:312-331 | the attribute table becomes the deletion followed by the upsert; nothing else changes |
| GroupBackend.SqlBackendHandler.DeleteGroup | crates/sql-backend-handler/src/sql_group_backend_handler.rs:249-259 | the result and new state are `DeleteGroupOutcome`, and the tables stay valid |
| GroupBackend.UpsertManyMembers | crates/sql-backend-handler/src/sql_group_backend_handler.rs:319-331 | an upsert invents no row |
| GroupBackend.CreatePreservesValid | crates/sql-backend-handler/src/sql_group_backend_handler.rs:200-246 | every create outcome keeps the database guarantees |
| GroupBackend.AppendedGroupsValid | crates/sql-backend-handler/src/sql_group_backend_handler.rs:204-216 | a non-clashing row under the next id keeps ids ordered and names and uuids unique |
| GroupBackend.CreateOkShape | crates/sql-backend-handler/src/sql_group_backend_handler.rs:211-245 | a successful create passed the unique check and the insert, and wrote the new row and rows under the next id |
| GroupBackend.FreshRowsOnly | crates/sql-backend-handler/src/sql_group_backend_handler.rs:237-241 | the rows stored under the fresh id are exactly the inserted ones |
| GroupBackend.EncodedRowsDecode | crates/sql-backend-handler/src/sql_group_backend_handler.rs:224-228 | given a round-tripping codec, each stored encoding decodes to a requested attribute |
| GroupBackend.DecodedAreRequested | crates/sql-backend-handler/src/sql_group_backend_handler.rs:174-183 | decoded details drawn from exactly the encodings are exactly the requested attributes |
| GroupBackend.DetailsDecodeStored | crates/sql-backend-handler/src/sql_group_backend_handler.rs:168-183 | such a group's details succeed, list exactly the attributes, in ascending name order |
| GroupBackend.CreateThenGet | crates/sql-backend-handler/src/sql_group_backend_handler.rs:551-593 | after a create, the details of the new id carry the name, date, uuid and exactly the requested attributes in name order |
| GroupBackend.CreateDuplicateNameFails | crates/sql-backend-handler/src/sql_group_backend_handler.rs:640-659 | after creating "New Group", creating "neW group" fails on the unique constraint and changes nothing |
| GroupBackend.CreateUnknownNameAborts | crates/sql-backend-handler/src/sql_group_backend_handler.rs:218-236 | when the group row can be written, the first attribute name the group schema does not declare aborts the create with that name, and nothing changes |
| GroupBackend.FailedCreateChangesNothing | crates/sql-backend-handler/src/sql_group_backend_handler.rs:211-245 | every failed create leaves the database as it was (one transaction) |
| GroupBackend.UpdateUnknownNameAborts | crates/sql-backend-handler/src/sql_group_backend_handler.rs:281-298 | for an existing group with a non-clashing rename, the first undeclared inserted attribute name aborts the update with that name, and nothing changes |
| GroupBackend.UpdateUnknownDeletedNameAborts | crates/sql-backend-handler/src/sql_group_backend_handler.rs:299-311 | once every inserted name is declared, the first undeclared name to delete aborts the update with that name, and nothing changes |
| GroupBackend.FailedUpdateChangesNothing | crates/sql-backend-handler/src/sql_group_backend_handler.rs:188-197 | every failed update leaves the database as it was (one transaction) |
| GroupBackend.UpdateOkShape | crates/sql-backend-handler/src/sql_group_backend_handler.rs:263-333 | a successful update found the group, passed the unique check, and wrote the renamed row and the new attributes |
| GroupBackend.ReplacedGroupsValid | crates/sql-backend-handler/src/sql_group_backend_handler.rs:271-277 | replacing a row by a non-clashing renamed copy keeps ids ordered and names and uuids unique |
| GroupBackend.UpdatePreservesValid | crates/sql-backend-handler/src/sql_group_backend_handler.rs:263-333 | every update outcome keeps the database guarantees |
| GroupBackend.UpdateLookup | crates/sql-backend-handler/src/sql_group_backend_handler.rs:312-331 | after an update each key of the group reads the last inserted value, else nothing if deleted, else its old value; other groups are untouched |
| GroupBackend.UpdateRenames | crates/sql-backend-handler/src/sql_group_backend_handler.rs:267-277 | after an update the group's row has the new name in both columns (or is kept); other rows stay |
| GroupBackend.ReplaceFinds | crates/sql-backend-handler/src/sql_group_backend_handler.rs:271-277 | after a replacement the id finds the new row and other rows stay |
| GroupBackend.NoLastForOtherGroup | crates/sql-backend-handler/src/sql_group_backend_handler.rs:287-291 | rows built for one group hold nothing for another |
| GroupBackend.KeptUnique | crates/sql-backend-handler/src/sql_group_backend_handler.rs:250-252 | rows kept by a deletion keep unique names and uuids |
| GroupBackend.DeletePreservesValid | crates/sql-backend-handler/src/sql_group_backend_handler.rs:249-259 | every delete outcome keeps the database guarantees |
| GroupBackend.DeleteMissingChangesNothing | crates/sql-backend-handler/src/sql_group_backend_handler.rs:253-257 | deleting a missing id gives `EntityNotFound` and changes nothing |
| GroupBackend.DeleteExistingRemovesOnlyIt | crates/sql-backend-handler/src/sql_group_backend_handler.rs:533-549 | deleting an existing group succeeds, leaves no row referring to it, and keeps every row of other groups |

## Left out

- SQL text, the ORM, async execution and connection pooling are not modelled. Queries are modelled by what they select, in the order their `ORDER BY` gives.
- `list_groups` runs its two queries and its schema read outside a transaction, as the source's own TODO notes. The model reads one state for all three, so it does not capture a write landing between them.
- The clock (`Utc::now`) and uuid generation (`Uuid::from_name_and_date`) are inputs `now` and `uuid` to `CreateGroup`.
- The attribute codec (`value.into()` and `deserialize_attribute`) and SQL `LIKE` against `SubStringFilter::to_sql_filter` are function parameters. Their code is not part of this model.
- `get_schema` and `get_schema_with_transaction` are not part of this model. Their results are parameters: a `PublicSchema` for reads, a stored `Schema` for writes.
- Strings.Lower: lowercases ASCII letters only. Rust's `to_lowercase` is full Unicode.
- Group ids and timestamps are unbounded integers. The database's 32-bit id column and its overflow are not modelled.
- The users of a group come in table order of `memberships`. The ORM's order of related rows is not modelled.
- The database's constraints are assumed and carried in `Valid`:
  - primary keys, including the (user_id, group_id) key of `memberships`, so no membership row is stored twice;
  - the unique lowercase display name and the unique uuid;
  - the foreign keys with cascade delete.
- GroupBackend.SqlBackendHandler.UpdateGroup: an update of a missing id is modelled as `DatabaseError(RecordNotUpdated)`, the error the ORM raises when no row is updated. That code is not part of this model.
- GroupBackend.SqlBackendHandler.CreateGroup: a failed create rolls back the id counter with everything else. A database sequence would keep the consumed id.
- GroupTables.UpsertMany: several rows for one key in one upsert are applied in order, so the last one wins. Some databases refuse such a statement.
- The database is assumed to order attribute names by code point, as under a binary ("C") collation. Under a locale or case-insensitive collation, the order of `order_by_asc(AttributeName)` differs, and so would the attribute order of `GroupListing.DetailsListStoredAttributes` and of the rows the merge in `GroupListing.ListGroups` consumes.
- Storage failures other than a unique-constraint violation and an update that touches no row are not modelled. In the source, any query or the schema read can fail with a database error: connection loss, timeouts and the like. In the model no read fails, and a write fails only in the ways `DbError` lists.
- Error messages are reduced to the group id or attribute name they carry.
- Logging and tracing (`#[instrument]`) are left out.
- GroupBackend.CreateThenGet: states the attributes by membership and name order, not as one exact sequence. Repeated names in a request would make the insert fail.
