/**
 * The read side of the SQL group repository. `list_groups` runs two
 * queries under one condition (the groups with their members, then the
 * attribute rows of the same groups), hands each group its block of
 * attribute rows in a single pass over the second result, and sorts the
 * groups by display name. `get_group_details` reads one group and its
 * attribute rows.
 */
module GroupListing {
  import opened Wrappers
  import opened Strings
  import opened Sorting
  import opened Schema
  import opened Domain
  import opened GroupTables
  import opened GroupFilter

  /** A group as listed: its row, its members and its decoded attributes. */
  datatype Group = Group(
    id: GroupId,
    displayName: string,
    creationDate: int,
    uuid: Uuid,
    users: seq<UserId>,
    attributes: seq<Attribute>)

  /** A group as returned by `get_group_details`: its row and its decoded attributes. */
  datatype GroupDetails = GroupDetails(
    groupId: GroupId,
    displayName: string,
    creationDate: int,
    uuid: Uuid,
    attributes: seq<Attribute>)

  function DisplayNameOf(g: Group): string {
    g.displayName
  }

  function Decode(row: AttributeRow, list: AttributeList, deserialize: Deserializer): Result<AttributeValue, DomainError> {
    deserialize(row.attributeName, row.value, list)
  }

  /**
   * Decodes every row, keeping names and order; the first row that does
   * not decode decides the error.
   */
  function DecodeRows(rows: seq<AttributeRow>, list: AttributeList, deserialize: Deserializer): (r: Result<seq<Attribute>, DomainError>)
    ensures r.Ok? <==> forall i :: 0 <= i < |rows| ==> Decode(rows[i], list, deserialize).Ok?
    ensures r.Ok? ==> |r.value| == |rows| && forall i :: 0 <= i < |rows| ==>
      r.value[i] == Attribute(rows[i].attributeName, Decode(rows[i], list, deserialize).value)
    ensures r.Err? ==> exists k :: (0 <= k < |rows| && Decode(rows[k], list, deserialize) == Err(r.error)
      && forall j :: 0 <= j < k ==> Decode(rows[j], list, deserialize).Ok?)
  {
    if rows == [] then Ok([])
    else match Decode(rows[0], list, deserialize)
      case Err(e) => Err(e)
      case Ok(v) =>
        match DecodeRows(rows[1..], list, deserialize)
        case Err(e) =>
          assert forall j :: 1 <= j < |rows| ==> rows[j] == rows[1..][j - 1];
          Err(e)
        case Ok(rest) => Ok([Attribute(rows[0].attributeName, v)] + rest)
  }

  /** The condition both queries of `list_groups` share. */
  function ListCondition(serialize: Serializer, filter: Option<GroupRequestFilter>): Cond {
    match filter
    case None => Constant(true)
    case Some(f) => InSubquery(GroupIdColumn, GroupIds(Compile(serialize, f)))
  }

  function Satisfies(db: Db, like: LikeMatcher, cond: Cond): GroupRow -> bool {
    (g: GroupRow) => Eval(db, like, g, cond)
  }

  function InSelection(db: Db, like: LikeMatcher, cond: Cond): AttributeRow -> bool {
    (x: AttributeRow) => SubqueryContains(db, like, GroupIds(cond), IntValue(x.groupId))
  }

  /** First query: the rows of `groups` satisfying `cond`, in id order. */
  function GroupsWhere(db: Db, like: LikeMatcher, cond: Cond): seq<GroupRow> {
    Filter(db.groups, Satisfies(db, like, cond))
  }

  /** Second query: the attribute rows of the same groups, in (group id, name) order. */
  function AttributesWhere(db: Db, like: LikeMatcher, cond: Cond): seq<AttributeRow> {
    Filter(db.attributes, InSelection(db, like, cond))
  }

  /** Whether a group is one the filter is meant to list. */
  function Intended(db: Db, like: LikeMatcher, serialize: Serializer, filter: Option<GroupRequestFilter>): GroupRow -> bool {
    (g: GroupRow) => filter.None? || Matches(db, like, serialize, g, filter.value)
  }

  /** The groups the filter is meant to list, in id order. */
  function SelectedGroups(db: Db, like: LikeMatcher, serialize: Serializer, filter: Option<GroupRequestFilter>): seq<GroupRow> {
    Filter(db.groups, Intended(db, like, serialize, filter))
  }

  /**
   * On a valid state the shared condition selects a group row exactly when
   * the filter is meant to: the sub-query on group ids finds the row itself,
   * because ids are unique.
   */
  lemma ListConditionCorrect(db: Db, like: LikeMatcher, serialize: Serializer, filter: Option<GroupRequestFilter>, g: GroupRow)
    requires Valid(db) && g in db.groups
    ensures Eval(db, like, g, ListCondition(serialize, filter)) == Intended(db, like, serialize, filter)(g)
  {
    if filter.Some? {
      var c := Compile(serialize, filter.value);
      CompileCorrect(db, like, serialize, g, filter.value);
      assert Eval(db, like, g, ListCondition(serialize, filter)) == SubqueryContains(db, like, GroupIds(c), IntValue(g.groupId));
      var k :| 0 <= k < |db.groups| && db.groups[k] == g;
      if Eval(db, like, g, ListCondition(serialize, filter)) {
        var i :| 0 <= i < |db.groups| && Eval(db, like, db.groups[i], c) && IntValue(g.groupId) == IntValue(db.groups[i].groupId);
        assert !IdLt(db.groups[i], db.groups[k]) && !IdLt(db.groups[k], db.groups[i]);
        assert i == k;
      }
    }
  }

  /** A listed group before its attributes are attached. */
  function Listed(db: Db, g: GroupRow): Group {
    Group(g.groupId, g.displayName, g.creationDate, g.uuid, UsersOf(db.memberships, g.groupId), [])
  }

  function InitialGroups(db: Db, selected: seq<GroupRow>): seq<Group> {
    seq(|selected|, i requires 0 <= i < |selected| => Listed(db, selected[i]))
  }

  /** One group with the decoded attribute rows it owns in `rows`. */
  function Attached(g: Group, rows: seq<AttributeRow>, list: AttributeList, deserialize: Deserializer): Result<Group, DomainError> {
    match DecodeRows(RowsOf(rows, g.id), list, deserialize)
    case Err(e) => Err(e)
    case Ok(attributes) => Ok(g.(attributes := attributes))
  }

  /**
   * Every group with its own attribute rows, each looked up separately;
   * the first group whose rows do not decode decides the error.
   */
  function AttachAttributes(gs: seq<Group>, rows: seq<AttributeRow>, list: AttributeList, deserialize: Deserializer): (r: Result<seq<Group>, DomainError>)
    ensures r.Ok? <==> forall i :: 0 <= i < |gs| ==> Attached(gs[i], rows, list, deserialize).Ok?
    ensures r.Ok? ==> |r.value| == |gs| && forall i :: 0 <= i < |gs| ==> Attached(gs[i], rows, list, deserialize) == Ok(r.value[i])
    ensures r.Err? ==> exists k :: (0 <= k < |gs| && Attached(gs[k], rows, list, deserialize) == Err(r.error)
      && forall j :: 0 <= j < k ==> Attached(gs[j], rows, list, deserialize).Ok?)
  {
    if gs == [] then Ok([])
    else
      assert forall j :: 1 <= j < |gs| ==> gs[j] == gs[1..][j - 1];
      match Attached(gs[0], rows, list, deserialize)
      case Err(e) => Err(e)
      case Ok(g) =>
        match AttachAttributes(gs[1..], rows, list, deserialize)
        case Err(e) => Err(e)
        case Ok(rest) => Ok([g] + rest)
  }

  /** What `list_groups` is meant to return, before the sort by display name. */
  function ListedGroups(db: Db, like: LikeMatcher, serialize: Serializer, filter: Option<GroupRequestFilter>,
                        schema: PublicSchema, deserialize: Deserializer): Result<seq<Group>, DomainError> {
    AttachAttributes(InitialGroups(db, SelectedGroups(db, like, serialize, filter)), db.attributes,
      GroupAttributes(schema), deserialize)
  }

  ghost predicate IdsAscending(gs: seq<Group>) {
    forall i, j :: 0 <= i < j < |gs| ==> gs[i].id < gs[j].id
  }

  /** Every row is owned by one of the groups. */
  ghost predicate RowsBelongTo(rows: seq<AttributeRow>, gs: seq<Group>) {
    forall x :: x in rows ==> exists j :: 0 <= j < |gs| && gs[j].id == x.groupId
  }

  /** Before the merge starts, no row belongs before the first group. */
  lemma MergeStart(gs: seq<Group>, rows: seq<AttributeRow>)
    requires IdsAscending(gs) && RowsBelongTo(rows, gs)
    ensures CursorAt(gs, rows, 0, 0)
  {
    forall x | x in rows ensures 0 < |gs| && gs[0].id <= x.groupId {
      var j :| 0 <= j < |gs| && gs[j].id == x.groupId;
      if j > 0 {
        assert gs[0].id < gs[j].id;
      }
    }
    forall m | 0 <= m < |rows| ensures 0 < |gs| && gs[0].id <= rows[m].groupId {
      assert rows[m] in rows;
    }
  }

  /** The cursor `k` stands at the first row not owned by a group before `gs[i]`. */
  ghost predicate CursorAt(gs: seq<Group>, rows: seq<AttributeRow>, i: int, k: int) {
    && 0 <= i <= |gs| && 0 <= k <= |rows|
    && forall m :: 0 <= m < |rows| ==> (m < k <==> (i < |gs| ==> rows[m].groupId < gs[i].id))
  }

  /** The groups before `i` carry their decoded rows; the others are as they were. */
  ghost predicate MergedUpTo(initial: seq<Group>, current: seq<Group>, rows: seq<AttributeRow>, list: AttributeList,
                             deserialize: Deserializer, i: int) {
    && |current| == |initial| && 0 <= i <= |initial|
    && (forall j :: i <= j < |initial| ==> current[j] == initial[j])
    && (forall j :: 0 <= j < i ==> Attached(initial[j], rows, list, deserialize) == Ok(current[j]))
  }

  lemma MergeStep(initial: seq<Group>, current: seq<Group>, rows: seq<AttributeRow>, list: AttributeList,
                  deserialize: Deserializer, i: int, decoded: seq<Attribute>)
    requires MergedUpTo(initial, current, rows, list, deserialize, i) && i < |initial|
    requires DecodeRows(RowsOf(rows, initial[i].id), list, deserialize) == Ok(decoded)
    ensures MergedUpTo(initial, current[i := current[i].(attributes := decoded)], rows, list, deserialize, i + 1)
  {
  }

  lemma AscendingIndex(gs: seq<Group>, a: int, b: int)
    requires IdsAscending(gs) && 0 <= a < |gs| && 0 <= b < |gs| && gs[a].id < gs[b].id
    ensures a < b
  {
  }

  /**
   * One step of the merge: when the rows before `k0` belong to groups
   * before `gs[i]` and the rows in `[k0, k)` are the run owned by `gs[i]`,
   * that run is all of `gs[i]`'s rows and the rows before `k` belong to
   * groups before `gs[i + 1]`.
   */
  lemma TakenRun(gs: seq<Group>, rows: seq<AttributeRow>, i: int, k0: int, k: int)
    requires IdsAscending(gs) && RowsOrdered(rows) && RowsBelongTo(rows, gs)
    requires 0 <= i < |gs| && k0 <= k <= |rows| && CursorAt(gs, rows, i, k0)
    requires forall m :: k0 <= m < k ==> rows[m].groupId == gs[i].id
    requires k == |rows| || rows[k].groupId != gs[i].id
    ensures RowsOf(rows, gs[i].id) == rows[k0..k]
    ensures CursorAt(gs, rows, i + 1, k)
  {
    forall m | k <= m < |rows| ensures gs[i].id < rows[m].groupId {
      if m > k {
        assert KeyLt(rows[k], rows[m]);
      }
    }
    forall m | 0 <= m < |rows| ensures m < k <==> (i + 1 < |gs| ==> rows[m].groupId < gs[i + 1].id) {
      if m < k {
        if i + 1 < |gs| {
          assert gs[i].id < gs[i + 1].id;
        }
      } else {
        assert rows[m] in rows;
        var j :| 0 <= j < |gs| && gs[j].id == rows[m].groupId;
        AscendingIndex(gs, i, j);
        if j > i + 1 {
          assert gs[i + 1].id < gs[j].id;
        }
      }
    }
    FilterBlock(rows, OwnedBy(gs[i].id), k0, k);
  }

  /**
   * The inner loop of the merge: from `k0` on, take the rows owned by
   * `id` until the first row that is not.
   */
  method TakeRun(rows: seq<AttributeRow>, k0: int, id: GroupId) returns (taken: seq<AttributeRow>, k: int)
    requires 0 <= k0 <= |rows|
    ensures k0 <= k <= |rows| && taken == rows[k0..k]
    ensures forall m :: k0 <= m < k ==> rows[m].groupId == id
    ensures k == |rows| || rows[k].groupId != id
  {
    k := k0;
    taken := [];
    while k < |rows| && rows[k].groupId == id
      invariant k0 <= k <= |rows|
      invariant taken == rows[k0..k]
      invariant forall m :: k0 <= m < k ==> rows[m].groupId == id
    {
      taken := taken + [rows[k]];
      k := k + 1;
    }
  }

  /**
   * The merge loop of `list_groups`: a single pass over the attribute rows, ordered by group
   * id, hands each group (ordered by id) the run of rows it owns. It does
   * what looking up each group's rows separately does.
   */
  method MergeAttributes(groups: array<Group>, rows: seq<AttributeRow>, list: AttributeList, deserialize: Deserializer)
    returns (r: Result<(), DomainError>)
    requires IdsAscending(groups[..]) && RowsOrdered(rows) && RowsBelongTo(rows, groups[..])
    modifies groups
    ensures var expected := AttachAttributes(old(groups[..]), rows, list, deserialize);
      if expected.Ok? then r.Ok? && groups[..] == expected.value else r == Err(expected.error)
  {
    ghost var initial := groups[..];
    MergeStart(initial, rows);
    var k := 0;
    var i := 0;
    while i < groups.Length
      invariant MergedUpTo(initial, groups[..], rows, list, deserialize, i)
      invariant CursorAt(initial, rows, i, k)
    {
      var k0 := k;
      var taken;
      taken, k := TakeRun(rows, k0, groups[i].id);
      TakenRun(initial, rows, i, k0, k);
      var decoded := DecodeRows(taken, list, deserialize);
      if decoded.Err? {
        AttachFirstError(initial, rows, list, deserialize, i, decoded.error);
        return Err(decoded.error);
      }
      ghost var before := groups[..];
      groups[i] := groups[i].(attributes := decoded.value);
      assert groups[..] == before[i := before[i].(attributes := decoded.value)];
      MergeStep(initial, before, rows, list, deserialize, i, decoded.value);
      i := i + 1;
    }
    AttachAllOk(initial, groups[..], rows, list, deserialize);
    r := Ok(());
  }

  lemma AttachAllOk(gs: seq<Group>, done: seq<Group>, rows: seq<AttributeRow>, list: AttributeList, deserialize: Deserializer)
    requires |done| == |gs|
    requires forall j :: 0 <= j < |gs| ==> Attached(gs[j], rows, list, deserialize) == Ok(done[j])
    ensures AttachAttributes(gs, rows, list, deserialize) == Ok(done)
  {
    var r := AttachAttributes(gs, rows, list, deserialize);
    assert r.value == done;
  }

  lemma AttachFirstError(gs: seq<Group>, rows: seq<AttributeRow>, list: AttributeList, deserialize: Deserializer, i: int, e: DomainError)
    requires 0 <= i < |gs|
    requires forall j :: 0 <= j < i ==> Attached(gs[j], rows, list, deserialize).Ok?
    requires Attached(gs[i], rows, list, deserialize) == Err(e)
    ensures AttachAttributes(gs, rows, list, deserialize) == Err(e)
  {
  }

  lemma {:induction false} AttachCongruent(gs: seq<Group>, rows1: seq<AttributeRow>, rows2: seq<AttributeRow>,
                                           list: AttributeList, deserialize: Deserializer)
    requires forall j :: 0 <= j < |gs| ==> RowsOf(rows1, gs[j].id) == RowsOf(rows2, gs[j].id)
    ensures AttachAttributes(gs, rows1, list, deserialize) == AttachAttributes(gs, rows2, list, deserialize)
  {
    if gs != [] {
      assert Attached(gs[0], rows1, list, deserialize) == Attached(gs[0], rows2, list, deserialize);
      AttachCongruent(gs[1..], rows1, rows2, list, deserialize);
    }
  }

  /** On a valid state the first query returns the groups the filter is meant to list. */
  lemma QueriesSelectIntended(db: Db, like: LikeMatcher, serialize: Serializer, filter: Option<GroupRequestFilter>)
    requires Valid(db)
    ensures GroupsWhere(db, like, ListCondition(serialize, filter)) == SelectedGroups(db, like, serialize, filter)
    ensures GroupsOrdered(GroupsWhere(db, like, ListCondition(serialize, filter)))
  {
    var cond := ListCondition(serialize, filter);
    forall g | g in db.groups ensures Satisfies(db, like, cond)(g) == Intended(db, like, serialize, filter)(g) {
      ListConditionCorrect(db, like, serialize, filter, g);
    }
    FilterCongruent(db.groups, Satisfies(db, like, cond), Intended(db, like, serialize, filter));
    FilterPairwise(db.groups, Satisfies(db, like, cond), IdLt);
  }

  /**
   * The second query returns, in key order, rows owned by groups the first
   * query returns, and for each of those groups all of its rows.
   */
  lemma QueriedRows(db: Db, like: LikeMatcher, cond: Cond)
    requires RowsOrdered(db.attributes)
    ensures RowsOrdered(AttributesWhere(db, like, cond))
    ensures forall x :: x in AttributesWhere(db, like, cond) ==>
      exists j :: 0 <= j < |GroupsWhere(db, like, cond)| && GroupsWhere(db, like, cond)[j].groupId == x.groupId
    ensures forall g :: g in GroupsWhere(db, like, cond) ==>
      RowsOf(AttributesWhere(db, like, cond), g.groupId) == RowsOf(db.attributes, g.groupId)
  {
    var selected := GroupsWhere(db, like, cond);
    var rows := AttributesWhere(db, like, cond);
    FilterPairwise(db.attributes, InSelection(db, like, cond), KeyLt);
    forall x | x in rows ensures exists j :: 0 <= j < |selected| && selected[j].groupId == x.groupId {
      var i :| 0 <= i < |db.groups| && Eval(db, like, db.groups[i], cond) && IntValue(x.groupId) == IntValue(db.groups[i].groupId);
      assert db.groups[i] in selected;
      var j :| 0 <= j < |selected| && selected[j] == db.groups[i];
    }
    forall g | g in selected ensures RowsOf(rows, g.groupId) == RowsOf(db.attributes, g.groupId) {
      var n :| 0 <= n < |db.groups| && db.groups[n] == g;
      forall x | x in db.attributes && OwnedBy(g.groupId)(x) ensures InSelection(db, like, cond)(x) {
        assert Eval(db, like, db.groups[n], cond) && IntValue(x.groupId) == IntValue(db.groups[n].groupId);
      }
      FilterNested(db.attributes, InSelection(db, like, cond), OwnedBy(g.groupId));
    }
  }

  lemma InitialOwnsRows(db: Db, selected: seq<GroupRow>, rows: seq<AttributeRow>)
    requires forall x :: x in rows ==> exists j :: 0 <= j < |selected| && selected[j].groupId == x.groupId
    ensures RowsBelongTo(rows, InitialGroups(db, selected))
  {
    var initial := InitialGroups(db, selected);
    forall x | x in rows ensures exists j :: 0 <= j < |initial| && initial[j].id == x.groupId {
      var j :| 0 <= j < |selected| && selected[j].groupId == x.groupId;
      assert initial[j].id == x.groupId;
    }
  }

  lemma InitialIdsAscending(db: Db, selected: seq<GroupRow>)
    requires GroupsOrdered(selected)
    ensures IdsAscending(InitialGroups(db, selected))
  {
    var initial := InitialGroups(db, selected);
    forall i, j | 0 <= i < j < |initial| ensures initial[i].id < initial[j].id {
      assert IdLt(selected[i], selected[j]);
    }
  }

  /**
   * `list_groups`: the groups the filter selects, each with its members and
   * its decoded attributes, stably sorted by display name (groups of equal
   * name stay in id order); the first attribute
   * that does not decode fails the whole listing.
   */
  method ListGroups(db: Db, filter: Option<GroupRequestFilter>, schema: PublicSchema,
                    like: LikeMatcher, serialize: Serializer, deserialize: Deserializer)
    returns (r: Result<seq<Group>, DomainError>)
    requires Valid(db)
    ensures var expected := ListedGroups(db, like, serialize, filter, schema, deserialize);
      if expected.Ok? then
        && r.Ok? && SortedBy(r.value, DisplayNameOf) && multiset(r.value) == multiset(expected.value)
        && StableFor(r.value, expected.value, DisplayNameOf)
      else r == expected
  {
    var cond := ListCondition(serialize, filter);
    var selected := GroupsWhere(db, like, cond);
    var rows := AttributesWhere(db, like, cond);
    var initial := InitialGroups(db, selected);
    QueriesFeedMerge(db, like, serialize, filter, schema, deserialize);
    r := MergeAndSort(initial, rows, GroupAttributes(schema), deserialize);
  }

  /**
   * The two queries of `list_groups` give the merge what it needs, and
   * merging their results is what the listing is meant to return.
   */
  lemma QueriesFeedMerge(db: Db, like: LikeMatcher, serialize: Serializer, filter: Option<GroupRequestFilter>,
                         schema: PublicSchema, deserialize: Deserializer)
    requires Valid(db)
    ensures var cond := ListCondition(serialize, filter);
      var initial := InitialGroups(db, GroupsWhere(db, like, cond));
      var rows := AttributesWhere(db, like, cond);
      && IdsAscending(initial) && RowsOrdered(rows) && RowsBelongTo(rows, initial)
      && AttachAttributes(initial, rows, GroupAttributes(schema), deserialize)
         == ListedGroups(db, like, serialize, filter, schema, deserialize)
  {
    var cond := ListCondition(serialize, filter);
    var selected := GroupsWhere(db, like, cond);
    var rows := AttributesWhere(db, like, cond);
    QueriesSelectIntended(db, like, serialize, filter);
    QueriedRows(db, like, cond);
    var initial := InitialGroups(db, selected);
    InitialIdsAscending(db, selected);
    InitialOwnsRows(db, selected, rows);
    AttachCongruent(initial, rows, db.attributes, GroupAttributes(schema), deserialize);
  }

  /**
   * The second half of `list_groups`: the selected groups, in id order,
   * receive their attribute rows in one pass and are then sorted by
   * display name.
   */
  method MergeAndSort(initial: seq<Group>, rows: seq<AttributeRow>, list: AttributeList, deserialize: Deserializer)
    returns (r: Result<seq<Group>, DomainError>)
    requires IdsAscending(initial) && RowsOrdered(rows) && RowsBelongTo(rows, initial)
    ensures var expected := AttachAttributes(initial, rows, list, deserialize);
      if expected.Ok? then
        && r.Ok? && SortedBy(r.value, DisplayNameOf) && multiset(r.value) == multiset(expected.value)
        && StableFor(r.value, expected.value, DisplayNameOf)
      else r == expected
  {
    var groups := new Group[|initial|](i requires 0 <= i < |initial| => initial[i]);
    assert groups[..] == initial;
    var merged := MergeAttributes(groups, rows, list, deserialize);
    if merged.Err? {
      return Err(merged.error);
    }
    SortBy(groups, DisplayNameOf);
    r := Ok(groups[..]);
  }

  /** `get_group_details`: one group's row and its decoded attributes, in name order. */
  function GetGroupDetails(db: Db, id: GroupId, schema: PublicSchema, deserialize: Deserializer): (r: Result<GroupDetails, DomainError>)
    ensures !HasGroup(db.groups, id) ==> r == Err(EntityNotFound(id))
    ensures HasGroup(db.groups, id) ==>
      (r.Ok? <==> forall x :: x in db.attributes && x.groupId == id ==> Decode(x, GroupAttributes(schema), deserialize).Ok?)
    ensures r.Ok? ==> r.value.groupId == id && exists g :: (g in db.groups && g.groupId == id
      && r.value.displayName == g.displayName && r.value.creationDate == g.creationDate && r.value.uuid == g.uuid)
  {
    match FindGroup(db.groups, id)
    case None => Err(EntityNotFound(id))
    case Some(g) =>
      var rows := RowsOf(db.attributes, id);
      assert forall x :: x in rows <==> x in db.attributes && x.groupId == id;
      match DecodeRows(rows, GroupAttributes(schema), deserialize)
      case Err(e) => Err(e)
      case Ok(attributes) => Ok(GroupDetails(id, g.displayName, g.creationDate, g.uuid, attributes))
  }

  /** Without a filter every group is listed. */
  lemma NoFilterListsEveryGroup(db: Db, like: LikeMatcher, serialize: Serializer)
    ensures SelectedGroups(db, like, serialize, None) == db.groups
  {
    FilterAllOrNone(db.groups, Intended(db, like, serialize, None));
  }

  /**
   * Listing and reading one group agree: a listed group carries exactly
   * what `get_group_details` returns for its id, and its members, each
   * once.
   */
  lemma ListedAgreesWithDetails(db: Db, like: LikeMatcher, serialize: Serializer, filter: Option<GroupRequestFilter>,
                                schema: PublicSchema, deserialize: Deserializer, i: int)
    requires Valid(db)
    requires ListedGroups(db, like, serialize, filter, schema, deserialize).Ok?
    requires 0 <= i < |ListedGroups(db, like, serialize, filter, schema, deserialize).value|
    ensures var g := ListedGroups(db, like, serialize, filter, schema, deserialize).value[i];
      && GetGroupDetails(db, g.id, schema, deserialize) == Ok(GroupDetails(g.id, g.displayName, g.creationDate, g.uuid, g.attributes))
      && (forall u :: u in g.users <==> Membership(g.id, u) in db.memberships)
      && NoRepeats(g.users)
  {
    var selected := SelectedGroups(db, like, serialize, filter);
    var initial := InitialGroups(db, selected);
    var g := ListedGroups(db, like, serialize, filter, schema, deserialize).value[i];
    assert Attached(initial[i], db.attributes, GroupAttributes(schema), deserialize) == Ok(g);
    assert selected[i] in db.groups;
    FindGroupIsUnique(db.groups, selected[i]);
    assert g.users == UsersOf(db.memberships, g.id);
    UsersOfDistinct(db.memberships, g.id);
  }

  /**
   * The details of a group list each of its stored attribute rows once,
   * decoded, in strictly ascending name order, and nothing else.
   */
  lemma DetailsListStoredAttributes(db: Db, id: GroupId, schema: PublicSchema, deserialize: Deserializer)
    requires Valid(db) && GetGroupDetails(db, id, schema, deserialize).Ok?
    ensures var attributes := GetGroupDetails(db, id, schema, deserialize).value.attributes;
      && (forall i, j :: 0 <= i < j < |attributes| ==> LexLt(attributes[i].name, attributes[j].name))
      && (forall x :: x in db.attributes && x.groupId == id ==>
            Decode(x, GroupAttributes(schema), deserialize).Ok?
            && Attribute(x.attributeName, Decode(x, GroupAttributes(schema), deserialize).value) in attributes)
      && (forall a :: a in attributes ==> exists x :: (x in db.attributes && x.groupId == id
            && x.attributeName == a.name && Decode(x, GroupAttributes(schema), deserialize) == Ok(a.value)))
  {
    var attributes := GetGroupDetails(db, id, schema, deserialize).value.attributes;
    var rows := RowsOf(db.attributes, id);
    var list := GroupAttributes(schema);
    FilterPairwise(db.attributes, OwnedBy(id), KeyLt);
    forall i, j | 0 <= i < j < |attributes| ensures LexLt(attributes[i].name, attributes[j].name) {
      assert KeyLt(rows[i], rows[j]);
      assert rows[i] in rows && rows[j] in rows;
    }
    forall x | x in db.attributes && x.groupId == id
      ensures Decode(x, list, deserialize).Ok? && Attribute(x.attributeName, Decode(x, list, deserialize).value) in attributes
    {
      assert x in rows;
      var k :| 0 <= k < |rows| && rows[k] == x;
      assert attributes[k] == Attribute(x.attributeName, Decode(x, list, deserialize).value);
    }
    forall a | a in attributes ensures exists x :: (x in db.attributes && x.groupId == id
      && x.attributeName == a.name && Decode(x, list, deserialize) == Ok(a.value))
    {
      var k :| 0 <= k < |attributes| && attributes[k] == a;
      assert rows[k] in rows;
    }
  }

  predicate NamesDiffer(a: GroupRow, b: GroupRow) {
    a.displayName != b.displayName
  }

  /**
   * On a valid state display names are distinct, so the sort leaves no
   * choice: every sorted rearrangement of the listed groups is the same.
   */
  lemma ListingIsDetermined(db: Db, like: LikeMatcher, serialize: Serializer, filter: Option<GroupRequestFilter>,
                            schema: PublicSchema, deserialize: Deserializer, r1: seq<Group>, r2: seq<Group>)
    requires Valid(db)
    requires ListedGroups(db, like, serialize, filter, schema, deserialize).Ok?
    requires SortedBy(r1, DisplayNameOf)
    requires multiset(r1) == multiset(ListedGroups(db, like, serialize, filter, schema, deserialize).value)
    requires SortedBy(r2, DisplayNameOf)
    requires multiset(r2) == multiset(ListedGroups(db, like, serialize, filter, schema, deserialize).value)
    ensures r1 == r2
  {
    var gs := ListedGroups(db, like, serialize, filter, schema, deserialize).value;
    var selected := SelectedGroups(db, like, serialize, filter);
    var initial := InitialGroups(db, selected);
    assert Pairwise(db.groups, NamesDiffer) by {
      forall i, j | 0 <= i < j < |db.groups| ensures NamesDiffer(db.groups[i], db.groups[j]) {
        assert db.groups[i] in db.groups && db.groups[j] in db.groups;
      }
    }
    FilterPairwise(db.groups, Intended(db, like, serialize, filter), NamesDiffer);
    assert DistinctKeys(gs, DisplayNameOf) by {
      forall i, j | 0 <= i < |gs| && 0 <= j < |gs| && i != j ensures DisplayNameOf(gs[i]) != DisplayNameOf(gs[j]) {
        assert Attached(initial[i], db.attributes, GroupAttributes(schema), deserialize) == Ok(gs[i]);
        assert Attached(initial[j], db.attributes, GroupAttributes(schema), deserialize) == Ok(gs[j]);
        if i < j {
          assert NamesDiffer(selected[i], selected[j]);
        } else {
          assert NamesDiffer(selected[j], selected[i]);
        }
      }
    }
    assert DistinctKeys(r1, DisplayNameOf) by {
      forall i, j | 0 <= i < |r1| && 0 <= j < |r1| && i != j ensures DisplayNameOf(r1[i]) != DisplayNameOf(r1[j]) {
        DistinctInPermutation(r1, gs, DisplayNameOf, i, j);
      }
    }
    SortedPermutationUnique(r1, r2, DisplayNameOf);
  }

  /** A state shaped like the repository's test fixture: bob belongs to "Best Group" only. */
  function Fixture(): Db {
    Db([GroupRow(1, "Best Group", "best group", 0, "uuid-1"),
        GroupRow(2, "Worst Group", "worst group", 0, "uuid-2"),
        GroupRow(3, "Empty Group", "empty group", 0, "uuid-3")],
       [Membership(1, "bob"), Membership(1, "patrick"), Membership(2, "patrick"), Membership(2, "John")],
       [],
       4)
  }

  lemma MatchesEither(db: Db, like: LikeMatcher, serialize: Serializer, g: GroupRow, a: GroupRequestFilter, b: GroupRequestFilter)
    ensures Matches(db, like, serialize, g, Or([a, b])) ==
      (Matches(db, like, serialize, g, a) || Matches(db, like, serialize, g, b))
  {
    assert [a, b][0] == a && [a, b][1] == b;
  }

  lemma FixtureBobInBest(like: LikeMatcher, serialize: Serializer)
    ensures Matches(Fixture(), like, serialize, Fixture().groups[0], Member("bob"))
  {
    assert Fixture().memberships[0] == Membership(1, "bob");
  }

  lemma FixtureWorstUnmatched(like: LikeMatcher, serialize: Serializer)
    ensures !Matches(Fixture(), like, serialize, Fixture().groups[1], DisplayName("Empty Group"))
    ensures !Matches(Fixture(), like, serialize, Fixture().groups[1], Member("bob"))
  {
    assert Lower("Worst Group")[0] == 'w' && Lower("Empty Group")[0] == 'e';
  }

  lemma FilterThree<T(!new)>(s: seq<T>, p: T -> bool)
    requires |s| == 3 && p(s[0]) && !p(s[1]) && p(s[2])
    ensures Filter(s, p) == [s[0], s[2]]
  {
    assert s[1..][0] == s[1] && s[1..][1..] == [s[2]];
    assert Filter([s[2]], p) == [s[2]];
  }

  /** On the fixture, "display name is Empty Group or bob is a member" selects Best Group and Empty Group. */
  lemma FixtureSimpleFilter(like: LikeMatcher, serialize: Serializer)
    ensures SelectedGroups(Fixture(), like, serialize, Some(Or([DisplayName("Empty Group"), Member("bob")])))
      == [Fixture().groups[0], Fixture().groups[2]]
  {
    var db := Fixture();
    var a, b := DisplayName("Empty Group"), Member("bob");
    MatchesEither(db, like, serialize, db.groups[0], a, b);
    MatchesEither(db, like, serialize, db.groups[1], a, b);
    MatchesEither(db, like, serialize, db.groups[2], a, b);
    FixtureBobInBest(like, serialize);
    FixtureWorstUnmatched(like, serialize);
    FilterThree(db.groups, Intended(db, like, serialize, Some(Or([a, b]))));
  }

  lemma SortedThree<T>(t: seq<T>, key: T -> string)
    requires |t| == 3
    requires LexLe(key(t[0]), key(t[1])) && LexLe(key(t[1]), key(t[2])) && LexLe(key(t[0]), key(t[2]))
    ensures SortedBy(t, key)
  {
  }

  lemma SwapLastTwo<T>(s: seq<T>)
    requires |s| == 3
    ensures multiset([s[0], s[2], s[1]]) == multiset(s)
  {
    assert s == [s[0], s[1], s[2]];
  }

  lemma DistinctThree<T>(t: seq<T>, key: T -> string)
    requires |t| == 3 && key(t[0]) != key(t[1]) && key(t[1]) != key(t[2]) && key(t[0]) != key(t[2])
    ensures DistinctKeys(t, key)
  {
  }

  lemma FixtureNamesAscending()
    ensures LexLe("Best Group", "Empty Group") && LexLe("Empty Group", "Worst Group") && LexLe("Best Group", "Worst Group")
    ensures "Best Group" != "Empty Group" && "Empty Group" != "Worst Group" && "Best Group" != "Worst Group"
  {
    assert "Best Group"[0] == 'B' && "Empty Group"[0] == 'E' && "Worst Group"[0] == 'W';
  }

  /** The fixture stores no attribute rows, so its unfiltered listing succeeds, in id order. */
  lemma FixtureListedInIdOrder(like: LikeMatcher, serialize: Serializer, schema: PublicSchema, deserialize: Deserializer)
    ensures ListedGroups(Fixture(), like, serialize, None, schema, deserialize).Ok?
    ensures var gs := ListedGroups(Fixture(), like, serialize, None, schema, deserialize).value;
      |gs| == 3 && gs[0].displayName == "Best Group" && gs[1].displayName == "Worst Group" && gs[2].displayName == "Empty Group"
  {
    var db := Fixture();
    NoFilterListsEveryGroup(db, like, serialize);
    var list := GroupAttributes(schema);
    var initial := InitialGroups(db, db.groups);
    forall i | 0 <= i < 3 ensures Attached(initial[i], db.attributes, list, deserialize) == Ok(initial[i]) {
      assert RowsOf(db.attributes, initial[i].id) == [];
    }
    var gs := ListedGroups(db, like, serialize, None, schema, deserialize).value;
    forall i | 0 <= i < 3 ensures gs[i].displayName == db.groups[i].displayName {
      assert Attached(initial[i], db.attributes, list, deserialize) == Ok(gs[i]);
    }
  }

  /** Sorting the fixture's three groups by display name leaves one possible order. */
  lemma FixtureNamesSorted(gs: seq<Group>, r: seq<Group>)
    requires |gs| == 3
    requires gs[0].displayName == "Best Group" && gs[1].displayName == "Worst Group" && gs[2].displayName == "Empty Group"
    requires SortedBy(r, DisplayNameOf) && multiset(r) == multiset(gs)
    ensures |r| == 3 && r[0].displayName == "Best Group" && r[1].displayName == "Empty Group" && r[2].displayName == "Worst Group"
  {
    var t := [gs[0], gs[2], gs[1]];
    SwapLastTwo(gs);
    FixtureNamesAscending();
    SortedThree(t, DisplayNameOf);
    DistinctThree(t, DisplayNameOf);
    SortedPermutationUnique(t, r, DisplayNameOf);
  }

  /** On the fixture an unfiltered listing comes out as Best, Empty, Worst. */
  lemma FixtureListingOrder(like: LikeMatcher, serialize: Serializer, schema: PublicSchema, deserialize: Deserializer, r: seq<Group>)
    requires SortedBy(r, DisplayNameOf)
    requires multiset(r) == multiset(ListedGroups(Fixture(), like, serialize, None, schema, deserialize).value)
    ensures |r| == 3 && r[0].displayName == "Best Group" && r[1].displayName == "Empty Group" && r[2].displayName == "Worst Group"
  {
    FixtureListedInIdOrder(like, serialize, schema, deserialize);
    FixtureNamesSorted(ListedGroups(Fixture(), like, serialize, None, schema, deserialize).value, r);
  }

}
