/**
 * The three tables the group repository works on, as values: `groups`,
 * `memberships` and `group_attributes`. Each table is kept in the order of
 * its primary key, so a query with `ORDER BY` on that key reads the table
 * in stored order. Attribute names are assumed to be ordered by code
 * point, as under a binary collation. The row operations here are what the repository's
 * `INSERT`, `INSERT ... ON CONFLICT DO UPDATE` and `DELETE` statements do
 * to a table.
 */
module GroupTables {
  import opened Wrappers
  import opened Strings
  import opened Sorting
  import opened Schema
  import opened Domain

  datatype GroupRow = GroupRow(
    groupId: GroupId,
    displayName: string,
    lowercaseDisplayName: string,
    creationDate: int,
    uuid: Uuid)

  datatype Membership = Membership(groupId: GroupId, userId: UserId)

  datatype AttributeRow = AttributeRow(groupId: GroupId, attributeName: AttributeName, value: Serialized)

  /** The database state; `nextGroupId` is the auto-increment counter of `groups`. */
  datatype Db = Db(
    groups: seq<GroupRow>,
    memberships: seq<Membership>,
    attributes: seq<AttributeRow>,
    nextGroupId: GroupId)

  predicate IdLt(a: GroupRow, b: GroupRow) {
    a.groupId < b.groupId
  }

  predicate SameKey(a: AttributeRow, b: AttributeRow) {
    a.groupId == b.groupId && a.attributeName == b.attributeName
  }

  /** The primary-key order of `group_attributes`: by group id, then by name. */
  predicate KeyLt(a: AttributeRow, b: AttributeRow) {
    a.groupId < b.groupId || (a.groupId == b.groupId && LexLt(a.attributeName, b.attributeName))
  }

  lemma KeyLtTransitive(a: AttributeRow, b: AttributeRow, c: AttributeRow)
    requires KeyLt(a, b) && KeyLt(b, c)
    ensures KeyLt(a, c)
  {
    if a.groupId == b.groupId == c.groupId {
      LexLtTransitive(a.attributeName, b.attributeName, c.attributeName);
    }
  }

  lemma KeyTrichotomy(a: AttributeRow, b: AttributeRow)
    ensures SameKey(a, b) || KeyLt(a, b) || KeyLt(b, a)
  {
    LexTrichotomy(a.attributeName, b.attributeName);
  }

  lemma KeyLtIrreflexive(a: AttributeRow, b: AttributeRow)
    requires KeyLt(a, b)
    ensures !SameKey(a, b) && !KeyLt(b, a)
  {
    if a.groupId == b.groupId && LexLt(b.attributeName, a.attributeName) {
      LexLeAntisymmetric(a.attributeName, b.attributeName);
    }
  }

  ghost predicate GroupsOrdered(groups: seq<GroupRow>) {
    Pairwise(groups, IdLt)
  }

  ghost predicate RowsOrdered(rows: seq<AttributeRow>) {
    Pairwise(rows, KeyLt)
  }

  predicate HasGroup(groups: seq<GroupRow>, id: GroupId) {
    exists i :: 0 <= i < |groups| && groups[i].groupId == id
  }

  /** The unique indexes of `groups`: no two rows share a lowercase name or a uuid. */
  ghost predicate UniqueColumns(groups: seq<GroupRow>) {
    forall i, j :: 0 <= i < |groups| && 0 <= j < |groups| && i != j ==>
      groups[i].lowercaseDisplayName != groups[j].lowercaseDisplayName && groups[i].uuid != groups[j].uuid
  }

  /** Two membership rows are different rows. */
  predicate MembershipsDiffer(a: Membership, b: Membership) {
    a != b
  }

  /**
   * What the database guarantees about its tables: primary-key order and
   * uniqueness, `lowercase_display_name` kept equal to the lowercase of
   * `display_name`, unique lowercase names and uuids, ids below the
   * auto-increment counter, no membership row stored twice (its key is
   * the whole row), and every membership and attribute row owned by an
   * existing group.
   */
  ghost predicate Valid(db: Db) {
    && GroupsOrdered(db.groups)
    && RowsOrdered(db.attributes)
    && (forall g :: g in db.groups ==> g.lowercaseDisplayName == Lower(g.displayName) && g.groupId < db.nextGroupId)
    && UniqueColumns(db.groups)
    && (forall r :: r in db.attributes ==> HasGroup(db.groups, r.groupId))
    && (forall m :: m in db.memberships ==> HasGroup(db.groups, m.groupId))
    && Pairwise(db.memberships, MembershipsDiffer)
  }

  /** `Group::find_by_id`: the row with the given primary key. */
  function FindGroup(groups: seq<GroupRow>, id: GroupId): (r: Option<GroupRow>)
    ensures r.None? <==> !HasGroup(groups, id)
    ensures r.Some? ==> r.value in groups && r.value.groupId == id
  {
    if groups == [] then None
    else if groups[0].groupId == id then Some(groups[0])
    else
      var r := FindGroup(groups[1..], id);
      assert HasGroup(groups, id) ==> groups[0].groupId == id || HasGroup(groups[1..], id) by {
        if HasGroup(groups, id) {
          var i :| 0 <= i < |groups| && groups[i].groupId == id;
          if i > 0 {
            assert groups[1..][i - 1] == groups[i];
          }
        }
      }
      r
  }

  /** In an ordered table the id determines the row. */
  lemma FindGroupIsUnique(groups: seq<GroupRow>, g: GroupRow)
    requires GroupsOrdered(groups) && g in groups
    ensures FindGroup(groups, g.groupId) == Some(g)
  {
    var r := FindGroup(groups, g.groupId).value;
    var i :| 0 <= i < |groups| && groups[i] == r;
    var j :| 0 <= j < |groups| && groups[j] == g;
  }

  /** The user ids of a group's membership rows, in table order. */
  function UsersOf(memberships: seq<Membership>, id: GroupId): (r: seq<UserId>)
    ensures forall u :: u in r <==> Membership(id, u) in memberships
  {
    if memberships == [] then []
    else
      (if memberships[0].groupId == id then [memberships[0].userId] else [])
        + UsersOf(memberships[1..], id)
  }

  /** No user appears twice. */
  ghost predicate NoRepeats(users: seq<UserId>) {
    forall i, j :: 0 <= i < j < |users| ==> users[i] != users[j]
  }

  /** With no membership row stored twice, a group lists each member once. */
  lemma {:induction false} UsersOfDistinct(memberships: seq<Membership>, id: GroupId)
    requires Pairwise(memberships, MembershipsDiffer)
    ensures NoRepeats(UsersOf(memberships, id))
  {
    if memberships != [] {
      var tail := memberships[1..];
      forall i, j | 0 <= i < j < |tail| ensures MembershipsDiffer(tail[i], tail[j]) {
        assert tail[i] == memberships[i + 1] && tail[j] == memberships[j + 1];
      }
      UsersOfDistinct(tail, id);
      if memberships[0].groupId == id {
        var u := memberships[0].userId;
        forall k | 0 <= k < |tail| ensures tail[k] != Membership(id, u) {
          assert tail[k] == memberships[k + 1];
        }
        var rest := UsersOf(tail, id);
        assert u !in rest;
        var users := UsersOf(memberships, id);
        assert users == [u] + rest;
        forall i, j | 0 <= i < j < |users| ensures users[i] != users[j] {
          if i == 0 {
            assert users[j] == rest[j - 1] && rest[j - 1] in rest;
          } else {
            assert users[i] == rest[i - 1] && users[j] == rest[j - 1];
          }
        }
      } else {
        assert UsersOf(memberships, id) == [] + UsersOf(tail, id);
      }
    }
  }

  /** The value stored under the key (group, name), if any. */
  function Lookup(rows: seq<AttributeRow>, id: GroupId, name: AttributeName): (r: Option<Serialized>)
    ensures r.None? <==> forall x :: x in rows ==> !(x.groupId == id && x.attributeName == name)
    ensures r.Some? ==> AttributeRow(id, name, r.value) in rows
  {
    if rows == [] then None
    else if rows[0].groupId == id && rows[0].attributeName == name then Some(rows[0].value)
    else Lookup(rows[1..], id, name)
  }

  /** In an ordered table a key is stored at most once, so membership decides the lookup. */
  lemma LookupMember(rows: seq<AttributeRow>, x: AttributeRow)
    requires RowsOrdered(rows) && x in rows
    ensures Lookup(rows, x.groupId, x.attributeName) == Some(x.value)
  {
    var v := Lookup(rows, x.groupId, x.attributeName).value;
    var y := AttributeRow(x.groupId, x.attributeName, v);
    var i :| 0 <= i < |rows| && rows[i] == x;
    var j :| 0 <= j < |rows| && rows[j] == y;
  }

  /** The attribute rows of one group; in an ordered table they are ordered by name. */
  function RowsOf(rows: seq<AttributeRow>, id: GroupId): seq<AttributeRow> {
    Filter(rows, OwnedBy(id))
  }

  function OwnedBy(id: GroupId): AttributeRow -> bool {
    (r: AttributeRow) => r.groupId == id
  }

  /**
   * Insert-or-overwrite of one row into an ordered table
   * (`INSERT ... ON CONFLICT (group_id, attribute_name) DO UPDATE SET value`).
   */
  function Upsert(rows: seq<AttributeRow>, row: AttributeRow): seq<AttributeRow> {
    if rows == [] then [row]
    else if KeyLt(row, rows[0]) then [row] + rows
    else if SameKey(row, rows[0]) then [row] + rows[1..]
    else [rows[0]] + Upsert(rows[1..], row)
  }

  lemma {:induction false} UpsertMembers(rows: seq<AttributeRow>, row: AttributeRow)
    requires RowsOrdered(rows)
    ensures forall x :: x in Upsert(rows, row) <==> x == row || (x in rows && !SameKey(x, row))
  {
    if rows != [] {
      if KeyLt(row, rows[0]) {
        forall x | x in rows ensures !SameKey(x, row) {
          var k :| 0 <= k < |rows| && rows[k] == x;
          if k > 0 {
            assert KeyLt(rows[0], rows[k]);
            KeyLtTransitive(row, rows[0], rows[k]);
          }
          KeyLtIrreflexive(row, x);
        }
      } else if SameKey(row, rows[0]) {
        forall x | x in rows[1..] ensures !SameKey(x, row) {
          var k :| 0 <= k < |rows[1..]| && rows[1..][k] == x;
          assert KeyLt(rows[0], rows[k + 1]);
          KeyLtIrreflexive(rows[0], x);
        }
      } else {
        TailOrdered(rows);
        UpsertMembers(rows[1..], row);
      }
    }
  }

  lemma TailOrdered(rows: seq<AttributeRow>)
    requires RowsOrdered(rows) && rows != []
    ensures RowsOrdered(rows[1..])
    ensures forall x :: x in rows[1..] ==> KeyLt(rows[0], x)
  {
    forall i, j | 0 <= i < j < |rows[1..]| ensures KeyLt(rows[1..][i], rows[1..][j]) {
      assert rows[1..][i] == rows[i + 1] && rows[1..][j] == rows[j + 1];
    }
    forall x | x in rows[1..] ensures KeyLt(rows[0], x) {
      var k :| 0 <= k < |rows[1..]| && rows[1..][k] == x;
      assert rows[1..][k] == rows[k + 1];
    }
  }

  lemma ConsOrdered(x: AttributeRow, rows: seq<AttributeRow>)
    requires RowsOrdered(rows)
    requires forall y :: y in rows ==> KeyLt(x, y)
    ensures RowsOrdered([x] + rows)
  {
    forall i, j | 0 <= i < j < |[x] + rows| ensures KeyLt(([x] + rows)[i], ([x] + rows)[j]) {
      if i == 0 {
        assert ([x] + rows)[j] == rows[j - 1];
      } else {
        assert ([x] + rows)[i] == rows[i - 1] && ([x] + rows)[j] == rows[j - 1];
      }
    }
  }

  lemma {:induction false} UpsertOrdered(rows: seq<AttributeRow>, row: AttributeRow)
    requires RowsOrdered(rows)
    ensures RowsOrdered(Upsert(rows, row))
  {
    if rows == [] {
    } else if KeyLt(row, rows[0]) {
      TailOrdered(rows);
      forall y | y in rows ensures KeyLt(row, y) {
        if y != rows[0] {
          KeyLtTransitive(row, rows[0], y);
        }
      }
      ConsOrdered(row, rows);
    } else if SameKey(row, rows[0]) {
      TailOrdered(rows);
      ConsOrdered(row, rows[1..]);
    } else {
      TailOrdered(rows);
      KeyTrichotomy(row, rows[0]);
      UpsertOrdered(rows[1..], row);
      UpsertMembers(rows[1..], row);
      ConsOrdered(rows[0], Upsert(rows[1..], row));
    }
  }

  /** After an upsert, the key of the new row holds its value and every other key is unchanged. */
  lemma UpsertLookup(rows: seq<AttributeRow>, row: AttributeRow, id: GroupId, name: AttributeName)
    requires RowsOrdered(rows)
    ensures Lookup(Upsert(rows, row), id, name) ==
      if row.groupId == id && row.attributeName == name then Some(row.value) else Lookup(rows, id, name)
  {
    UpsertMembers(rows, row);
    UpsertOrdered(rows, row);
    var after := Upsert(rows, row);
    if row.groupId == id && row.attributeName == name {
      LookupMember(after, row);
    } else {
      match Lookup(rows, id, name)
      case Some(v) =>
        LookupMember(after, AttributeRow(id, name, v));
      case None =>
    }
  }

  /** A multi-row upsert: the rows are applied in order, so the last one for a key wins. */
  function UpsertMany(rows: seq<AttributeRow>, news: seq<AttributeRow>): seq<AttributeRow>
    decreases |news|
  {
    if news == [] then rows else UpsertMany(Upsert(rows, news[0]), news[1..])
  }

  /** The value of the last row for a key among `news`. */
  function LastFor(news: seq<AttributeRow>, id: GroupId, name: AttributeName): Option<Serialized>
    decreases |news|
  {
    if news == [] then None
    else match LastFor(news[1..], id, name)
      case Some(v) => Some(v)
      case None =>
        if news[0].groupId == id && news[0].attributeName == name then Some(news[0].value) else None
  }

  lemma {:induction false} UpsertManyOrdered(rows: seq<AttributeRow>, news: seq<AttributeRow>)
    requires RowsOrdered(rows)
    ensures RowsOrdered(UpsertMany(rows, news))
    decreases |news|
  {
    if news != [] {
      UpsertOrdered(rows, news[0]);
      UpsertManyOrdered(Upsert(rows, news[0]), news[1..]);
    }
  }

  lemma {:induction false} UpsertManyLookup(rows: seq<AttributeRow>, news: seq<AttributeRow>, id: GroupId, name: AttributeName)
    requires RowsOrdered(rows)
    ensures Lookup(UpsertMany(rows, news), id, name) ==
      match LastFor(news, id, name)
      case Some(v) => Some(v)
      case None => Lookup(rows, id, name)
    decreases |news|
  {
    if news != [] {
      UpsertOrdered(rows, news[0]);
      UpsertLookup(rows, news[0], id, name);
      UpsertManyLookup(Upsert(rows, news[0]), news[1..], id, name);
    }
  }

  /** Plain `INSERT` of one row: refused when its key is already stored. */
  function InsertRow(rows: seq<AttributeRow>, row: AttributeRow): Option<seq<AttributeRow>> {
    if Lookup(rows, row.groupId, row.attributeName).Some? then None else Some(Upsert(rows, row))
  }

  /** `insert_many`: all rows or, on the first key conflict, none. */
  function InsertMany(rows: seq<AttributeRow>, news: seq<AttributeRow>): Option<seq<AttributeRow>>
    decreases |news|
  {
    if news == [] then Some(rows)
    else match InsertRow(rows, news[0])
      case None => None
      case Some(rows') => InsertMany(rows', news[1..])
  }

  /** No two rows share a key. */
  ghost predicate KeysDistinct(news: seq<AttributeRow>) {
    forall i, j :: 0 <= i < j < |news| ==> !SameKey(news[i], news[j])
  }

  /**
   * A multi-row insert succeeds exactly when no new key is already stored
   * and the new keys are distinct; it then stores exactly the new rows.
   */
  lemma KeysDistinctCons(news: seq<AttributeRow>)
    requires news != []
    ensures KeysDistinct(news) <==> KeysDistinct(news[1..]) && forall x :: x in news[1..] ==> !SameKey(news[0], x)
  {
    if KeysDistinct(news[1..]) && forall x :: x in news[1..] ==> !SameKey(news[0], x) {
      forall i, j | 0 <= i < j < |news| ensures !SameKey(news[i], news[j]) {
        if i == 0 {
          assert news[j] in news[1..];
        } else {
          assert news[i] == news[1..][i - 1] && news[j] == news[1..][j - 1];
        }
      }
    }
    if KeysDistinct(news) {
      forall i, j | 0 <= i < j < |news[1..]| ensures !SameKey(news[1..][i], news[1..][j]) {
        assert news[1..][i] == news[i + 1] && news[1..][j] == news[j + 1];
      }
    }
  }

  lemma {:induction false} InsertManySucceeds(rows: seq<AttributeRow>, news: seq<AttributeRow>)
    requires RowsOrdered(rows)
    ensures InsertMany(rows, news).Some? <==>
      (forall x :: x in news ==> Lookup(rows, x.groupId, x.attributeName).None?) && KeysDistinct(news)
    ensures InsertMany(rows, news).Some? ==>
      InsertMany(rows, news).value == UpsertMany(rows, news)
      && forall x :: x in InsertMany(rows, news).value <==> x in rows || x in news
    decreases |news|
  {
    if news != [] {
      var row := news[0];
      if Lookup(rows, row.groupId, row.attributeName).None? {
        var rows' := Upsert(rows, row);
        UpsertOrdered(rows, row);
        UpsertMembers(rows, row);
        InsertManySucceeds(rows', news[1..]);
        forall x | x in news[1..] ensures
          Lookup(rows', x.groupId, x.attributeName).None? <==>
          Lookup(rows, x.groupId, x.attributeName).None? && !SameKey(row, x)
        {
          UpsertLookup(rows, row, x.groupId, x.attributeName);
        }
        KeysDistinctCons(news);
        if InsertMany(rows, news).Some? {
          forall x | x in InsertMany(rows, news).value ensures x in rows || x in news {
          }
          forall x | x in rows || x in news ensures x in InsertMany(rows, news).value {
          }
        }
      }
    }
  }

  /** `DELETE FROM group_attributes WHERE group_id = id AND attribute_name IN names`. */
  function DeleteNames(rows: seq<AttributeRow>, id: GroupId, names: seq<AttributeName>): seq<AttributeRow> {
    Filter(rows, Survives(id, names))
  }

  function Survives(id: GroupId, names: seq<AttributeName>): AttributeRow -> bool {
    (r: AttributeRow) => !(r.groupId == id && r.attributeName in names)
  }

  lemma DeleteNamesLookup(rows: seq<AttributeRow>, id: GroupId, names: seq<AttributeName>, g: GroupId, n: AttributeName)
    requires RowsOrdered(rows)
    ensures RowsOrdered(DeleteNames(rows, id, names))
    ensures Lookup(DeleteNames(rows, id, names), g, n) ==
      if g == id && n in names then None else Lookup(rows, g, n)
  {
    FilterPairwise(rows, Survives(id, names), KeyLt);
    var after := DeleteNames(rows, id, names);
    if !(g == id && n in names) {
      match Lookup(rows, g, n)
      case Some(v) =>
        LookupMember(after, AttributeRow(g, n, v));
      case None =>
    }
  }
}
