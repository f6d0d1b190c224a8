/**
 * The write side of the SQL group repository: `create_group`,
 * `update_group` (with `update_group_with_transaction`) and
 * `delete_group`. Each operation is a method of the handler, which owns
 * the three tables, and is specified by an outcome function giving the
 * result and the new state; the lemmas state what each outcome promises.
 */
module GroupBackend {
  import opened Wrappers
  import opened Strings
  import opened Sorting
  import opened Schema
  import opened Domain
  import opened GroupTables
  import opened GroupListing

  datatype CreateGroupRequest = CreateGroupRequest(displayName: string, attributes: seq<Attribute>)

  datatype UpdateGroupRequest = UpdateGroupRequest(
    groupId: GroupId,
    displayName: Option<string>,
    deleteAttributes: seq<AttributeName>,
    insertAttributes: seq<Attribute>)

  function Names(attributes: seq<Attribute>): seq<AttributeName> {
    seq(|attributes|, i requires 0 <= i < |attributes| => attributes[i].name)
  }

  /** The first name the schema list does not declare, if any. */
  function FirstUnknown(list: AttributeList, names: seq<AttributeName>): (r: Option<AttributeName>)
    ensures r.None? <==> forall i :: 0 <= i < |names| ==> GetAttributeType(list, names[i]).Some?
    ensures r.Some? ==> exists k :: (0 <= k < |names| && names[k] == r.value && GetAttributeType(list, names[k]).None?
      && forall j :: 0 <= j < k ==> GetAttributeType(list, names[j]).Some?)
  {
    if names == [] then None
    else if GetAttributeType(list, names[0]).None? then Some(names[0])
    else
      var r := FirstUnknown(list, names[1..]);
      assert forall j :: 1 <= j < |names| ==> names[j] == names[1..][j - 1];
      r
  }

  lemma FirstUnknownAt(list: AttributeList, names: seq<AttributeName>, i: int)
    requires 0 <= i < |names|
    requires forall j :: 0 <= j < i ==> GetAttributeType(list, names[j]).Some?
    requires GetAttributeType(list, names[i]).None?
    ensures FirstUnknown(list, names) == Some(names[i])
  {
    var k :| 0 <= k < |names| && names[k] == FirstUnknown(list, names).value && GetAttributeType(list, names[k]).None?
      && forall j :: 0 <= j < k ==> GetAttributeType(list, names[j]).Some?;
    assert k == i;
  }

  /** The `group_attributes` rows that store `attributes` for the group `id`. */
  function RowsFor(id: GroupId, attributes: seq<Attribute>, serialize: Serializer): seq<AttributeRow> {
    seq(|attributes|, i requires 0 <= i < |attributes| => AttributeRow(id, attributes[i].name, serialize(attributes[i].value)))
  }

  /**
   * Writing `row` would break a unique constraint of `groups`: another
   * group has its lowercase display name or its uuid.
   */
  predicate Clashes(groups: seq<GroupRow>, row: GroupRow) {
    exists i :: 0 <= i < |groups| && groups[i].groupId != row.groupId
      && (groups[i].lowercaseDisplayName == row.lowercaseDisplayName || groups[i].uuid == row.uuid)
  }

  /** The row `update_group` writes: a new display name sets both name columns. */
  function Renamed(g: GroupRow, displayName: Option<string>): GroupRow {
    match displayName
    case None => g
    case Some(name) => g.(displayName := name, lowercaseDisplayName := Lower(name))
  }

  function ReplaceGroup(groups: seq<GroupRow>, row: GroupRow): seq<GroupRow> {
    seq(|groups|, i requires 0 <= i < |groups| => if groups[i].groupId == row.groupId then row else groups[i])
  }

  function NotGroup(id: GroupId): GroupRow -> bool {
    (g: GroupRow) => g.groupId != id
  }

  function NotMemberOf(id: GroupId): Membership -> bool {
    (m: Membership) => m.groupId != id
  }

  function NotOwnedBy(id: GroupId): AttributeRow -> bool {
    (x: AttributeRow) => x.groupId != id
  }

  /**
   * `create_group`: the result and the new state. The group row is
   * inserted first (a taken lowercase name or uuid fails it); then every
   * attribute name must be declared by the stored group schema (the first
   * that is not is reported); then the attribute rows are inserted
   * together. Any failure rolls the whole transaction back.
   */
  function CreateGroupOutcome(db: Db, schema: Schema, request: CreateGroupRequest, now: int, uuid: Uuid,
                              serialize: Serializer): (Result<GroupId, DomainError>, Db) {
    var row := GroupRow(db.nextGroupId, request.displayName, Lower(request.displayName), now, uuid);
    if Clashes(db.groups, row) then (Err(DatabaseError(UniqueViolation)), db)
    else match FirstUnknown(schema.groupAttributes, Names(request.attributes))
      case Some(name) => (Err(InternalError(name)), db)
      case None =>
        match InsertMany(db.attributes, RowsFor(row.groupId, request.attributes, serialize))
        case None => (Err(DatabaseError(UniqueViolation)), db)
        case Some(attributes) => (Ok(row.groupId), Db(db.groups + [row], db.memberships, attributes, db.nextGroupId + 1))
  }

  /**
   * `update_group`: the result and the new state. The group row is
   * updated first (a missing id or a taken lowercase name fails it); then
   * every inserted and every deleted name must be declared by the stored
   * group schema; then the deletions and the upserts are applied, in that
   * order. Any failure rolls the whole transaction back.
   */
  function UpdateGroupOutcome(db: Db, schema: Schema, request: UpdateGroupRequest, serialize: Serializer): (Result<(), DomainError>, Db) {
    var id := request.groupId;
    match FindGroup(db.groups, id)
    case None => (Err(DatabaseError(RecordNotUpdated)), db)
    case Some(g) =>
      var updated := Renamed(g, request.displayName);
      if Clashes(db.groups, updated) then (Err(DatabaseError(UniqueViolation)), db)
      else match FirstUnknown(schema.groupAttributes, Names(request.insertAttributes))
        case Some(name) => (Err(InternalError(name)), db)
        case None =>
          match FirstUnknown(schema.groupAttributes, request.deleteAttributes)
          case Some(name) => (Err(InternalError(name)), db)
          case None =>
            var attributes := UpsertMany(DeleteNames(db.attributes, id, request.deleteAttributes),
                                         RowsFor(id, request.insertAttributes, serialize));
            (Ok(()), Db(ReplaceGroup(db.groups, updated), db.memberships, attributes, db.nextGroupId))
  }

  /**
   * `delete_group`: the group row goes, and with it (by the foreign keys'
   * cascade) its memberships and attribute rows; no row deleted means the
   * group did not exist.
   */
  function DeleteGroupOutcome(db: Db, id: GroupId): (Result<(), DomainError>, Db) {
    var remaining := Filter(db.groups, NotGroup(id));
    var after := Db(remaining, Filter(db.memberships, NotMemberOf(id)), Filter(db.attributes, NotOwnedBy(id)), db.nextGroupId);
    if |db.groups| - |remaining| == 0 then (Err(EntityNotFound(id)), after) else (Ok(()), after)
  }

  /**
   * The loop of `create_group` and `update_group_with_transaction` over the
   * requested attributes: each name must be declared by the group schema
   * and becomes a row of the group; the first undeclared name stops it.
   */
  method CheckedRows(list: AttributeList, id: GroupId, attributes: seq<Attribute>, serialize: Serializer)
    returns (rows: seq<AttributeRow>, unknown: Option<AttributeName>)
    ensures unknown == FirstUnknown(list, Names(attributes))
    ensures unknown.None? ==> rows == RowsFor(id, attributes, serialize)
  {
    var names := Names(attributes);
    rows := [];
    for i := 0 to |attributes|
      invariant rows == RowsFor(id, attributes[..i], serialize)
      invariant forall j :: 0 <= j < i ==> GetAttributeType(list, names[j]).Some?
    {
      var attribute := attributes[i];
      if GetAttributeType(list, attribute.name).None? {
        FirstUnknownAt(list, names, i);
        return rows, Some(attribute.name);
      }
      assert attributes[..i + 1] == attributes[..i] + [attribute];
      rows := rows + [AttributeRow(id, attribute.name, serialize(attribute.value))];
    }
    assert attributes[..|attributes|] == attributes;
    unknown := None;
  }

  /**
   * The loop of `update_group_with_transaction` over the names to delete:
   * each must be declared by the group schema; the first that is not
   * stops it.
   */
  method CheckedNames(list: AttributeList, names: seq<AttributeName>)
    returns (checked: seq<AttributeName>, unknown: Option<AttributeName>)
    ensures unknown == FirstUnknown(list, names)
    ensures unknown.None? ==> checked == names
  {
    checked := [];
    for i := 0 to |names|
      invariant checked == names[..i]
      invariant forall j :: 0 <= j < i ==> GetAttributeType(list, names[j]).Some?
    {
      if GetAttributeType(list, names[i]).None? {
        FirstUnknownAt(list, names, i);
        return checked, Some(names[i]);
      }
      checked := checked + [names[i]];
    }
    unknown := None;
  }

  class SqlBackendHandler {
    var groups: seq<GroupRow>
    var memberships: seq<Membership>
    var attributes: seq<AttributeRow>
    var nextGroupId: GroupId

    function State(): Db
      reads this
    {
      Db(groups, memberships, attributes, nextGroupId)
    }

    constructor (db: Db)
      ensures State() == db
    {
      groups := db.groups;
      memberships := db.memberships;
      attributes := db.attributes;
      nextGroupId := db.nextGroupId;
    }

    /** Transaction rollback: the tables return to the snapshot taken at its start. */
    method Rollback(snapshot: Db)
      modifies this
      ensures State() == snapshot
    {
      groups := snapshot.groups;
      memberships := snapshot.memberships;
      attributes := snapshot.attributes;
      nextGroupId := snapshot.nextGroupId;
    }

    method CreateGroup(schema: Schema, request: CreateGroupRequest, now: int, uuid: Uuid, serialize: Serializer)
      returns (r: Result<GroupId, DomainError>)
      requires Valid(State())
      modifies this
      ensures (r, State()) == CreateGroupOutcome(old(State()), schema, request, now, uuid, serialize)
      ensures Valid(State())
    {
      var snapshot := State();
      var row := GroupRow(nextGroupId, request.displayName, Lower(request.displayName), now, uuid);
      if Clashes(groups, row) {
        return Err(DatabaseError(UniqueViolation));
      }
      groups := groups + [row];
      nextGroupId := nextGroupId + 1;
      var groupId := row.groupId;
      var newRows, unknown := CheckedRows(schema.groupAttributes, groupId, request.attributes, serialize);
      if unknown.Some? {
        Rollback(snapshot);
        return Err(InternalError(unknown.value));
      }
      if newRows != [] {
        var inserted := InsertMany(attributes, newRows);
        if inserted.None? {
          Rollback(snapshot);
          return Err(DatabaseError(UniqueViolation));
        }
        attributes := inserted.value;
      }
      CreatePreservesValid(snapshot, schema, request, now, uuid, serialize);
      r := Ok(groupId);
    }

    method UpdateGroup(schema: Schema, request: UpdateGroupRequest, serialize: Serializer)
      returns (r: Result<(), DomainError>)
      requires Valid(State())
      modifies this
      ensures (r, State()) == UpdateGroupOutcome(old(State()), schema, request, serialize)
      ensures Valid(State())
    {
      var snapshot := State();
      var id := request.groupId;
      var found := FindGroup(groups, id);
      if found.None? {
        return Err(DatabaseError(RecordNotUpdated));
      }
      var updated := Renamed(found.value, request.displayName);
      if Clashes(groups, updated) {
        return Err(DatabaseError(UniqueViolation));
      }
      groups := ReplaceGroup(groups, updated);
      var upserts, unknownInsert := CheckedRows(schema.groupAttributes, id, request.insertAttributes, serialize);
      if unknownInsert.Some? {
        Rollback(snapshot);
        return Err(InternalError(unknownInsert.value));
      }
      var removals, unknownDelete := CheckedNames(schema.groupAttributes, request.deleteAttributes);
      if unknownDelete.Some? {
        Rollback(snapshot);
        return Err(InternalError(unknownDelete.value));
      }
      WriteAttributes(id, removals, upserts);
      UpdatePreservesValid(snapshot, schema, request, serialize);
      r := Ok(());
    }

    /**
     * The two writes at the end of `update_group_with_transaction`: the
     * deletion of the named attributes, then the upsert of the new rows;
     * each is skipped when it has nothing to do.
     */
    method WriteAttributes(id: GroupId, removals: seq<AttributeName>, upserts: seq<AttributeRow>)
      modifies this
      ensures State() == old(State()).(attributes := UpsertMany(DeleteNames(old(attributes), id, removals), upserts))
    {
      if removals != [] {
        attributes := DeleteNames(attributes, id, removals);
      } else {
        DeleteNothing(attributes, id);
      }
      if upserts != [] {
        attributes := UpsertMany(attributes, upserts);
      }
    }

    method DeleteGroup(id: GroupId) returns (r: Result<(), DomainError>)
      requires Valid(State())
      modifies this
      ensures (r, State()) == DeleteGroupOutcome(old(State()), id)
      ensures Valid(State())
    {
      DeletePreservesValid(State(), id);
      var before := |groups|;
      groups := Filter(groups, NotGroup(id));
      memberships := Filter(memberships, NotMemberOf(id));
      attributes := Filter(attributes, NotOwnedBy(id));
      var rowsAffected := before - |groups|;
      if rowsAffected == 0 {
        return Err(EntityNotFound(id));
      }
      r := Ok(());
    }
  }

  lemma DeleteNothing(rows: seq<AttributeRow>, id: GroupId)
    ensures DeleteNames(rows, id, []) == rows
  {
    FilterAllOrNone(rows, Survives(id, []));
  }

  lemma {:induction false} UpsertManyMembers(rows: seq<AttributeRow>, news: seq<AttributeRow>)
    requires RowsOrdered(rows)
    ensures forall x :: x in UpsertMany(rows, news) ==> x in rows || x in news
    decreases |news|
  {
    if news != [] {
      UpsertMembers(rows, news[0]);
      UpsertOrdered(rows, news[0]);
      UpsertManyMembers(Upsert(rows, news[0]), news[1..]);
    }
  }

  /** A successful create keeps every guarantee of the tables. */
  lemma CreatePreservesValid(db: Db, schema: Schema, request: CreateGroupRequest, now: int, uuid: Uuid, serialize: Serializer)
    requires Valid(db)
    ensures Valid(CreateGroupOutcome(db, schema, request, now, uuid, serialize).1)
  {
    var (r, db') := CreateGroupOutcome(db, schema, request, now, uuid, serialize);
    if r.Ok? {
      CreateOkShape(db, schema, request, now, uuid, serialize);
      var row := GroupRow(db.nextGroupId, request.displayName, Lower(request.displayName), now, uuid);
      var news := RowsFor(row.groupId, request.attributes, serialize);
      AppendedGroupsValid(db.groups, row, db.nextGroupId);
      InsertManySucceeds(db.attributes, news);
      UpsertManyOrdered(db.attributes, news);
      forall x | x in db'.attributes ensures HasGroup(db'.groups, x.groupId) {
        if x !in db.attributes {
          var k :| 0 <= k < |news| && news[k] == x;
        }
        HasGroupAppended(db.groups, row, x.groupId);
      }
      forall m | m in db'.memberships ensures HasGroup(db'.groups, m.groupId) {
        HasGroupAppended(db.groups, row, m.groupId);
      }
    }
  }

  lemma HasGroupAppended(groups: seq<GroupRow>, row: GroupRow, gid: GroupId)
    requires HasGroup(groups, gid) || gid == row.groupId
    ensures HasGroup(groups + [row], gid)
  {
    if gid == row.groupId {
      assert (groups + [row])[|groups|] == row;
    } else {
      var i :| 0 <= i < |groups| && groups[i].groupId == gid;
      assert (groups + [row])[i] == groups[i];
    }
  }

  /** Appending a row under the next id that clashes with no stored row keeps the `groups` guarantees. */
  lemma AppendedGroupsValid(groups: seq<GroupRow>, row: GroupRow, next: GroupId)
    requires GroupsOrdered(groups) && UniqueColumns(groups)
    requires forall h :: h in groups ==> h.lowercaseDisplayName == Lower(h.displayName) && h.groupId < next
    requires row.groupId == next && row.lowercaseDisplayName == Lower(row.displayName)
    requires !Clashes(groups, row)
    ensures var appended := groups + [row];
      && GroupsOrdered(appended) && UniqueColumns(appended)
      && forall h :: h in appended ==> h.lowercaseDisplayName == Lower(h.displayName) && h.groupId < next + 1
  {
    var appended := groups + [row];
    forall i, j | 0 <= i < j < |appended| ensures IdLt(appended[i], appended[j]) {
      assert appended[i] in groups;
    }
    forall i, j | 0 <= i < |appended| && 0 <= j < |appended| && i != j
      ensures appended[i].lowercaseDisplayName != appended[j].lowercaseDisplayName && appended[i].uuid != appended[j].uuid
    {
      if i < |groups| && j < |groups| {
        assert appended[i] == groups[i] && appended[j] == groups[j];
      } else if i < |groups| {
        assert groups[i] in groups;
      } else {
        assert groups[j] in groups;
      }
    }
  }

  /** What a successful create did: the rows it inserted and the state it wrote. */
  lemma CreateOkShape(db: Db, schema: Schema, request: CreateGroupRequest, now: int, uuid: Uuid, serialize: Serializer)
    requires CreateGroupOutcome(db, schema, request, now, uuid, serialize).0.Ok?
    ensures var news := RowsFor(db.nextGroupId, request.attributes, serialize);
      && !Clashes(db.groups, GroupRow(db.nextGroupId, request.displayName, Lower(request.displayName), now, uuid))
      && InsertMany(db.attributes, news).Some?
      && CreateGroupOutcome(db, schema, request, now, uuid, serialize) == (Ok(db.nextGroupId), Db(
        db.groups + [GroupRow(db.nextGroupId, request.displayName, Lower(request.displayName), now, uuid)],
        db.memberships, InsertMany(db.attributes, news).value, db.nextGroupId + 1))
  {
  }

  /** The attribute rows stored under a fresh id are exactly the ones inserted with it. */
  lemma FreshRowsOnly(db: Db, news: seq<AttributeRow>)
    requires Valid(db) && InsertMany(db.attributes, news).Some?
    requires forall x :: x in news ==> x.groupId == db.nextGroupId
    ensures forall x :: x in InsertMany(db.attributes, news).value && x.groupId == db.nextGroupId <==> x in news
  {
    InsertManySucceeds(db.attributes, news);
    forall x | x in db.attributes ensures x.groupId != db.nextGroupId {
      var i :| 0 <= i < |db.groups| && db.groups[i].groupId == x.groupId;
      assert db.groups[i] in db.groups;
    }
  }

  /** Rows that are exactly the encodings of `attributes` all decode, given a codec that round-trips. */
  lemma EncodedRowsDecode(stored: seq<AttributeRow>, id: GroupId, attributes: seq<Attribute>, list: AttributeList,
                          serialize: Serializer, deserialize: Deserializer)
    requires forall x :: x in stored && x.groupId == id <==> x in RowsFor(id, attributes, serialize)
    requires forall a :: a in attributes ==> deserialize(a.name, serialize(a.value), list) == Ok(a.value)
    ensures forall x :: x in stored && x.groupId == id ==>
      Decode(x, list, deserialize).Ok? && Attribute(x.attributeName, Decode(x, list, deserialize).value) in attributes
  {
    var news := RowsFor(id, attributes, serialize);
    forall x | x in stored && x.groupId == id
      ensures Decode(x, list, deserialize).Ok? && Attribute(x.attributeName, Decode(x, list, deserialize).value) in attributes
    {
      var k :| 0 <= k < |news| && news[k] == x;
      assert attributes[k] in attributes;
    }
  }

  /** Decoded details drawn from exactly the encodings of `attributes` are exactly `attributes`. */
  lemma DecodedAreRequested(stored: seq<AttributeRow>, id: GroupId, attributes: seq<Attribute>, details: seq<Attribute>,
                            list: AttributeList, serialize: Serializer, deserialize: Deserializer)
    requires forall x :: x in stored && x.groupId == id <==> x in RowsFor(id, attributes, serialize)
    requires forall a :: a in attributes ==> deserialize(a.name, serialize(a.value), list) == Ok(a.value)
    requires forall x :: x in stored && x.groupId == id ==>
      Decode(x, list, deserialize).Ok? && Attribute(x.attributeName, Decode(x, list, deserialize).value) in details
    requires forall a :: a in details ==> exists x :: (x in stored && x.groupId == id
      && x.attributeName == a.name && Decode(x, list, deserialize) == Ok(a.value))
    ensures forall a :: a in details <==> a in attributes
  {
    var news := RowsFor(id, attributes, serialize);
    forall a ensures a in details <==> a in attributes {
      if a in details {
        var x :| x in stored && x.groupId == id && x.attributeName == a.name && Decode(x, list, deserialize) == Ok(a.value);
        var k :| 0 <= k < |news| && news[k] == x;
        assert attributes[k] in attributes;
      }
      if a in attributes {
        var k :| 0 <= k < |attributes| && attributes[k] == a;
        assert news[k] in news;
      }
    }
  }

  /**
   * When a group's stored rows are exactly the encodings of `attributes`
   * and decoding undoes encoding, its details list exactly `attributes`,
   * in ascending name order.
   */
  lemma DetailsDecodeStored(db: Db, id: GroupId, attributes: seq<Attribute>, public: PublicSchema,
                            serialize: Serializer, deserialize: Deserializer)
    requires Valid(db) && HasGroup(db.groups, id)
    requires forall x :: x in db.attributes && x.groupId == id <==> x in RowsFor(id, attributes, serialize)
    requires forall a :: a in attributes ==>
      deserialize(a.name, serialize(a.value), GroupAttributes(public)) == Ok(a.value)
    ensures GetGroupDetails(db, id, public, deserialize).Ok?
    ensures var details := GetGroupDetails(db, id, public, deserialize).value;
      && (forall i, j :: 0 <= i < j < |details.attributes| ==> LexLt(details.attributes[i].name, details.attributes[j].name))
      && (forall a :: a in details.attributes <==> a in attributes)
  {
    var list := GroupAttributes(public);
    EncodedRowsDecode(db.attributes, id, attributes, list, serialize, deserialize);
    DetailsListStoredAttributes(db, id, public, deserialize);
    var details := GetGroupDetails(db, id, public, deserialize).value;
    DecodedAreRequested(db.attributes, id, attributes, details.attributes, list, serialize, deserialize);
  }

  /**
   * A successful create stores a new group under the next id, named as
   * requested, whose details list exactly the requested attributes in
   * ascending name order, given a codec that decodes what it encodes.
   */
  lemma CreateThenGet(db: Db, schema: Schema, public: PublicSchema, request: CreateGroupRequest, now: int, uuid: Uuid,
                      serialize: Serializer, deserialize: Deserializer)
    requires Valid(db)
    requires forall a :: a in request.attributes ==>
      deserialize(a.name, serialize(a.value), GroupAttributes(public)) == Ok(a.value)
    requires CreateGroupOutcome(db, schema, request, now, uuid, serialize).0.Ok?
    ensures var (r, db') := CreateGroupOutcome(db, schema, request, now, uuid, serialize);
      && r.value == db.nextGroupId && !HasGroup(db.groups, r.value)
      && GetGroupDetails(db', r.value, public, deserialize).Ok?
      && var details := GetGroupDetails(db', r.value, public, deserialize).value;
      && details.displayName == request.displayName && details.creationDate == now && details.uuid == uuid
      && (forall i, j :: 0 <= i < j < |details.attributes| ==> LexLt(details.attributes[i].name, details.attributes[j].name))
      && (forall a :: a in details.attributes <==> a in request.attributes)
  {
    var id := db.nextGroupId;
    var db' := CreateGroupOutcome(db, schema, request, now, uuid, serialize).1;
    var row := GroupRow(id, request.displayName, Lower(request.displayName), now, uuid);
    var news := RowsFor(id, request.attributes, serialize);
    CreateOkShape(db, schema, request, now, uuid, serialize);
    CreatePreservesValid(db, schema, request, now, uuid, serialize);
    FreshRowsOnly(db, news);
    assert !HasGroup(db.groups, id) by {
      forall i | 0 <= i < |db.groups| ensures db.groups[i].groupId != id {
        assert db.groups[i] in db.groups;
      }
    }
    assert db'.groups[|db.groups|] == row;
    DetailsDecodeStored(db', id, request.attributes, public, serialize, deserialize);
  }

  /**
   * Creating a group whose name differs from an existing one only in
   * case fails on the unique constraint and changes nothing.
   */
  lemma CreateDuplicateNameFails(db: Db, schema: Schema, first: CreateGroupRequest, second: CreateGroupRequest,
                                 now1: int, uuid1: Uuid, now2: int, uuid2: Uuid, serialize: Serializer)
    requires Valid(db)
    requires first.displayName == "New Group" && second.displayName == "neW group"
    requires CreateGroupOutcome(db, schema, first, now1, uuid1, serialize).0.Ok?
    ensures var db' := CreateGroupOutcome(db, schema, first, now1, uuid1, serialize).1;
      CreateGroupOutcome(db', schema, second, now2, uuid2, serialize) == (Err(DatabaseError(UniqueViolation)), db')
  {
    var db' := CreateGroupOutcome(db, schema, first, now1, uuid1, serialize).1;
    assert Lower("New Group") == "new group" == Lower("neW group");
    CreatePreservesValid(db, schema, first, now1, uuid1, serialize);
    var n := |db.groups|;
    assert db'.groups[n].lowercaseDisplayName == "new group";
    assert db'.groups[n].groupId < db'.nextGroupId;
  }

  /**
   * Creating a group whose row can be written but whose `i`-th attribute
   * is the first one the group schema does not declare aborts with that
   * name, and the rollback leaves the database as it was.
   */
  lemma CreateUnknownNameAborts(db: Db, schema: Schema, request: CreateGroupRequest, now: int, uuid: Uuid,
                                serialize: Serializer, i: int)
    requires !Clashes(db.groups, GroupRow(db.nextGroupId, request.displayName, Lower(request.displayName), now, uuid))
    requires 0 <= i < |request.attributes|
    requires forall j :: 0 <= j < i ==> GetAttributeType(schema.groupAttributes, request.attributes[j].name).Some?
    requires GetAttributeType(schema.groupAttributes, request.attributes[i].name).None?
    ensures CreateGroupOutcome(db, schema, request, now, uuid, serialize) == (Err(InternalError(request.attributes[i].name)), db)
  {
    FirstUnknownAt(schema.groupAttributes, Names(request.attributes), i);
  }

  /** A failed `create_group` is rolled back whole: the database is unchanged. */
  lemma FailedCreateChangesNothing(db: Db, schema: Schema, request: CreateGroupRequest, now: int, uuid: Uuid, serialize: Serializer)
    ensures var outcome := CreateGroupOutcome(db, schema, request, now, uuid, serialize);
      outcome.0.Err? ==> outcome.1 == db
  {
  }

  /**
   * Updating an existing group, with a rename that clashes with no other
   * group, whose `i`-th inserted attribute is the first one the group
   * schema does not declare aborts with that name and changes nothing.
   */
  lemma UpdateUnknownNameAborts(db: Db, schema: Schema, request: UpdateGroupRequest, serialize: Serializer, i: int)
    requires FindGroup(db.groups, request.groupId).Some?
    requires !Clashes(db.groups, Renamed(FindGroup(db.groups, request.groupId).value, request.displayName))
    requires 0 <= i < |request.insertAttributes|
    requires forall j :: 0 <= j < i ==> GetAttributeType(schema.groupAttributes, request.insertAttributes[j].name).Some?
    requires GetAttributeType(schema.groupAttributes, request.insertAttributes[i].name).None?
    ensures UpdateGroupOutcome(db, schema, request, serialize) == (Err(InternalError(request.insertAttributes[i].name)), db)
  {
    FirstUnknownAt(schema.groupAttributes, Names(request.insertAttributes), i);
  }

  /**
   * The same for the names to delete, once every inserted name is
   * declared: the first undeclared one aborts the update unchanged.
   */
  lemma UpdateUnknownDeletedNameAborts(db: Db, schema: Schema, request: UpdateGroupRequest, serialize: Serializer, i: int)
    requires FindGroup(db.groups, request.groupId).Some?
    requires !Clashes(db.groups, Renamed(FindGroup(db.groups, request.groupId).value, request.displayName))
    requires forall j :: 0 <= j < |request.insertAttributes| ==>
      GetAttributeType(schema.groupAttributes, request.insertAttributes[j].name).Some?
    requires 0 <= i < |request.deleteAttributes|
    requires forall j :: 0 <= j < i ==> GetAttributeType(schema.groupAttributes, request.deleteAttributes[j]).Some?
    requires GetAttributeType(schema.groupAttributes, request.deleteAttributes[i]).None?
    ensures UpdateGroupOutcome(db, schema, request, serialize) == (Err(InternalError(request.deleteAttributes[i])), db)
  {
    var names := Names(request.insertAttributes);
    assert forall j :: 0 <= j < |names| ==> names[j] == request.insertAttributes[j].name;
    FirstUnknownAt(schema.groupAttributes, request.deleteAttributes, i);
  }

  /** A failed `update_group` is rolled back whole: the database is unchanged. */
  lemma FailedUpdateChangesNothing(db: Db, schema: Schema, request: UpdateGroupRequest, serialize: Serializer)
    ensures var outcome := UpdateGroupOutcome(db, schema, request, serialize);
      outcome.0.Err? ==> outcome.1 == db
  {
  }

  /** What a successful update did: the checks it passed and the state it wrote. */
  lemma UpdateOkShape(db: Db, schema: Schema, request: UpdateGroupRequest, serialize: Serializer)
    requires UpdateGroupOutcome(db, schema, request, serialize).0.Ok?
    ensures FindGroup(db.groups, request.groupId).Some?
    ensures var updated := Renamed(FindGroup(db.groups, request.groupId).value, request.displayName);
      && !Clashes(db.groups, updated)
      && UpdateGroupOutcome(db, schema, request, serialize).1 == Db(
        ReplaceGroup(db.groups, updated), db.memberships,
        UpsertMany(DeleteNames(db.attributes, request.groupId, request.deleteAttributes),
                   RowsFor(request.groupId, request.insertAttributes, serialize)),
        db.nextGroupId)
  {
  }

  lemma HasGroupReplaced(groups: seq<GroupRow>, updated: GroupRow, gid: GroupId)
    requires HasGroup(groups, gid)
    ensures HasGroup(ReplaceGroup(groups, updated), gid)
  {
    var i :| 0 <= i < |groups| && groups[i].groupId == gid;
    assert ReplaceGroup(groups, updated)[i].groupId == gid;
  }

  /** Replacing a row by a renamed copy that clashes with no other row keeps the `groups` guarantees. */
  lemma ReplacedGroupsValid(groups: seq<GroupRow>, g: GroupRow, updated: GroupRow, next: GroupId)
    requires GroupsOrdered(groups) && UniqueColumns(groups) && g in groups
    requires forall h :: h in groups ==> h.lowercaseDisplayName == Lower(h.displayName) && h.groupId < next
    requires updated.groupId == g.groupId && updated.uuid == g.uuid
    requires updated.lowercaseDisplayName == Lower(updated.displayName)
    requires !Clashes(groups, updated)
    ensures var replaced := ReplaceGroup(groups, updated);
      && GroupsOrdered(replaced) && UniqueColumns(replaced)
      && forall h :: h in replaced ==> h.lowercaseDisplayName == Lower(h.displayName) && h.groupId < next
  {
    var replaced := ReplaceGroup(groups, updated);
    assert forall i :: 0 <= i < |groups| ==> replaced[i].groupId == groups[i].groupId;
    forall h | h in replaced ensures h.lowercaseDisplayName == Lower(h.displayName) && h.groupId < next {
      var i :| 0 <= i < |replaced| && replaced[i] == h;
      assert groups[i] in groups;
    }
    forall i, j | 0 <= i < |replaced| && 0 <= j < |replaced| && i != j
      ensures replaced[i].lowercaseDisplayName != replaced[j].lowercaseDisplayName && replaced[i].uuid != replaced[j].uuid
    {
      assert groups[i].groupId != groups[j].groupId by {
        if i < j {
          assert IdLt(groups[i], groups[j]);
        } else {
          assert IdLt(groups[j], groups[i]);
        }
      }
      var k :| 0 <= k < |groups| && groups[k] == g;
    }
    assert GroupsOrdered(replaced) by {
      forall i, j | 0 <= i < j < |replaced| ensures IdLt(replaced[i], replaced[j]) {
        assert IdLt(groups[i], groups[j]);
      }
    }
  }

  /** A successful update keeps every guarantee of the tables. */
  lemma UpdatePreservesValid(db: Db, schema: Schema, request: UpdateGroupRequest, serialize: Serializer)
    requires Valid(db)
    ensures Valid(UpdateGroupOutcome(db, schema, request, serialize).1)
  {
    var (r, db') := UpdateGroupOutcome(db, schema, request, serialize);
    if r.Ok? {
      UpdateOkShape(db, schema, request, serialize);
      var id := request.groupId;
      var g := FindGroup(db.groups, id).value;
      var updated := Renamed(g, request.displayName);
      ReplacedGroupsValid(db.groups, g, updated, db.nextGroupId);
      var news := RowsFor(id, request.insertAttributes, serialize);
      var kept := DeleteNames(db.attributes, id, request.deleteAttributes);
      DeleteNamesLookup(db.attributes, id, request.deleteAttributes, id, "");
      UpsertManyOrdered(kept, news);
      UpsertManyMembers(kept, news);
      assert HasGroup(db.groups, id);
      forall x | x in db'.attributes ensures HasGroup(db'.groups, x.groupId) {
        if x !in kept {
          var k :| 0 <= k < |news| && news[k] == x;
        }
        HasGroupReplaced(db.groups, updated, x.groupId);
      }
      forall m | m in db'.memberships ensures HasGroup(db'.groups, m.groupId) {
        HasGroupReplaced(db.groups, updated, m.groupId);
      }
    }
  }

  /**
   * After a successful update every stored attribute of the group reads as
   * follows: the last inserted value for its name if any, else nothing if
   * its name was deleted, else what was stored before. Other groups'
   * attributes are untouched.
   */
  lemma UpdateLookup(db: Db, schema: Schema, request: UpdateGroupRequest, serialize: Serializer, gid: GroupId, name: AttributeName)
    requires Valid(db)
    requires UpdateGroupOutcome(db, schema, request, serialize).0.Ok?
    ensures Lookup(UpdateGroupOutcome(db, schema, request, serialize).1.attributes, gid, name) ==
      if gid != request.groupId then Lookup(db.attributes, gid, name)
      else match LastFor(RowsFor(gid, request.insertAttributes, serialize), gid, name)
        case Some(v) => Some(v)
        case None => if name in request.deleteAttributes then None else Lookup(db.attributes, gid, name)
  {
    UpdateOkShape(db, schema, request, serialize);
    var id := request.groupId;
    var news := RowsFor(id, request.insertAttributes, serialize);
    var kept := DeleteNames(db.attributes, id, request.deleteAttributes);
    DeleteNamesLookup(db.attributes, id, request.deleteAttributes, gid, name);
    UpsertManyLookup(kept, news, gid, name);
    if gid != id {
      NoLastForOtherGroup(news, id, request.insertAttributes, serialize, gid, name);
    }
  }

  /**
   * After a successful update the group's row carries the new display
   * name in both name columns, or keeps the old one when none was given;
   * every other group's row is unchanged.
   */
  lemma UpdateRenames(db: Db, schema: Schema, request: UpdateGroupRequest, serialize: Serializer)
    requires Valid(db)
    requires UpdateGroupOutcome(db, schema, request, serialize).0.Ok?
    ensures FindGroup(db.groups, request.groupId).Some?
    ensures var before := FindGroup(db.groups, request.groupId).value;
      var db' := UpdateGroupOutcome(db, schema, request, serialize).1;
      && FindGroup(db'.groups, request.groupId) == Some(
        match request.displayName
        case None => before
        case Some(n) => before.(displayName := n, lowercaseDisplayName := Lower(n)))
      && forall h :: h in db.groups && h.groupId != request.groupId ==> h in db'.groups
  {
    UpdateOkShape(db, schema, request, serialize);
    var g := FindGroup(db.groups, request.groupId).value;
    ReplaceFinds(db.groups, g, Renamed(g, request.displayName));
  }

  /** After the replacement the id finds the new row, and every other row is still there. */
  lemma ReplaceFinds(groups: seq<GroupRow>, g: GroupRow, updated: GroupRow)
    requires GroupsOrdered(groups) && g in groups && updated.groupId == g.groupId
    ensures FindGroup(ReplaceGroup(groups, updated), g.groupId) == Some(updated)
    ensures forall h :: h in groups && h.groupId != g.groupId ==> h in ReplaceGroup(groups, updated)
  {
    var replaced := ReplaceGroup(groups, updated);
    var i :| 0 <= i < |groups| && groups[i] == g;
    assert replaced[i] == updated;
    assert GroupsOrdered(replaced) by {
      forall a, b | 0 <= a < b < |replaced| ensures IdLt(replaced[a], replaced[b]) {
        assert IdLt(groups[a], groups[b]);
      }
    }
    FindGroupIsUnique(replaced, updated);
    forall h | h in groups && h.groupId != g.groupId ensures h in replaced {
      var k :| 0 <= k < |groups| && groups[k] == h;
      assert replaced[k] == h;
    }
  }

  lemma {:induction false} NoLastForOtherGroup(news: seq<AttributeRow>, id: GroupId, attributes: seq<Attribute>,
                                               serialize: Serializer, gid: GroupId, name: AttributeName)
    requires news == RowsFor(id, attributes, serialize) && gid != id
    ensures LastFor(news, gid, name).None?
    decreases |news|
  {
    if news != [] {
      assert news[1..] == RowsFor(id, attributes[1..], serialize);
      NoLastForOtherGroup(news[1..], id, attributes[1..], serialize, gid, name);
    }
  }

  /** Rows kept from a table with unique columns, still in id order, keep them unique. */
  lemma KeptUnique(groups: seq<GroupRow>, kept: seq<GroupRow>)
    requires UniqueColumns(groups) && GroupsOrdered(kept)
    requires forall g :: g in kept ==> g in groups
    ensures UniqueColumns(kept)
  {
    forall i, j | 0 <= i < |kept| && 0 <= j < |kept| && i != j
      ensures kept[i].lowercaseDisplayName != kept[j].lowercaseDisplayName && kept[i].uuid != kept[j].uuid
    {
      assert kept[i] != kept[j] by {
        if i < j {
          assert IdLt(kept[i], kept[j]);
        } else {
          assert IdLt(kept[j], kept[i]);
        }
      }
      assert kept[i] in groups && kept[j] in groups;
      var a :| 0 <= a < |groups| && groups[a] == kept[i];
      var b :| 0 <= b < |groups| && groups[b] == kept[j];
    }
  }

  lemma HasGroupKept(groups: seq<GroupRow>, id: GroupId, gid: GroupId)
    requires HasGroup(groups, gid) && gid != id
    ensures HasGroup(Filter(groups, NotGroup(id)), gid)
  {
    var kept := Filter(groups, NotGroup(id));
    var i :| 0 <= i < |groups| && groups[i].groupId == gid;
    assert groups[i] in kept;
    var k :| 0 <= k < |kept| && kept[k] == groups[i];
  }

  /** Deleting a group and its dependent rows keeps every guarantee of the tables. */
  lemma DeletePreservesValid(db: Db, id: GroupId)
    requires Valid(db)
    ensures Valid(DeleteGroupOutcome(db, id).1)
  {
    var db' := DeleteGroupOutcome(db, id).1;
    var kept := Filter(db.groups, NotGroup(id));
    FilterPairwise(db.groups, NotGroup(id), IdLt);
    FilterPairwise(db.attributes, NotOwnedBy(id), KeyLt);
    FilterPairwise(db.memberships, NotMemberOf(id), MembershipsDiffer);
    KeptUnique(db.groups, kept);
    forall x | x in db'.attributes ensures HasGroup(kept, x.groupId) {
      HasGroupKept(db.groups, id, x.groupId);
    }
    forall m | m in db'.memberships ensures HasGroup(kept, m.groupId) {
      HasGroupKept(db.groups, id, m.groupId);
    }
  }

  /** Deleting a missing group reports it and, on a valid state, changes nothing. */
  lemma DeleteMissingChangesNothing(db: Db, id: GroupId)
    requires Valid(db) && !HasGroup(db.groups, id)
    ensures DeleteGroupOutcome(db, id) == (Err(EntityNotFound(id)), db)
  {
    assert forall g :: g in db.groups ==> NotGroup(id)(g) by {
      forall g | g in db.groups ensures NotGroup(id)(g) {
        var i :| 0 <= i < |db.groups| && db.groups[i] == g;
      }
    }
    FilterAllOrNone(db.groups, NotGroup(id));
    FilterAllOrNone(db.memberships, NotMemberOf(id));
    FilterAllOrNone(db.attributes, NotOwnedBy(id));
  }

  /**
   * Deleting an existing group succeeds; afterwards no row of any table
   * refers to it and every row of every other group is still there.
   */
  lemma DeleteExistingRemovesOnlyIt(db: Db, id: GroupId)
    requires Valid(db) && HasGroup(db.groups, id)
    ensures var (r, db') := DeleteGroupOutcome(db, id);
      && r == Ok(())
      && !HasGroup(db'.groups, id)
      && (forall x :: x in db'.attributes ==> x.groupId != id)
      && (forall m :: m in db'.memberships ==> m.groupId != id)
      && (forall g :: g in db.groups && g.groupId != id ==> g in db'.groups)
      && (forall x :: x in db.attributes && x.groupId != id ==> x in db'.attributes)
      && (forall m :: m in db.memberships && m.groupId != id ==> m in db'.memberships)
  {
    var i :| 0 <= i < |db.groups| && db.groups[i].groupId == id;
    var remaining := Filter(db.groups, NotGroup(id));
    FilterDrops(db.groups, NotGroup(id), i);
    forall k | 0 <= k < |remaining| ensures remaining[k].groupId != id {
      assert remaining[k] in remaining;
    }
  }
}
