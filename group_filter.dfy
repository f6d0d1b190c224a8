/**
 * The group filter compiler (`get_group_filter_expr` and
 * `attribute_condition`): a `GroupRequestFilter` tree becomes a `Cond`
 * tree, the condition a query on the `groups` table carries. `Eval` gives
 * a condition its meaning over a database state, `Matches` states what
 * each filter is meant to select, and `CompileCorrect` proves the two agree.
 */
module GroupFilter {
  import opened Wrappers
  import opened Strings
  import opened Schema
  import opened Domain
  import opened GroupTables

  /** A display-name pattern: an optional start, ordered middle parts, an optional end. */
  datatype SubStringFilter = SubStringFilter(initial: Option<string>, any: seq<string>, finalPart: Option<string>)

  /**
   * SQL `LIKE` of a lowercase text against the pattern that
   * `SubStringFilter::to_sql_filter` builds.
   */
  type LikeMatcher = (string, SubStringFilter) -> bool

  datatype GroupRequestFilter =
    | True
    | False
    | And(filters: seq<GroupRequestFilter>)
    | Or(filters: seq<GroupRequestFilter>)
    | Not(inner: GroupRequestFilter)
    | DisplayName(name: string)
    | GroupId(id: GroupId)
    | Uuid(uuid: Uuid)
    | Member(user: UserId)
    | DisplayNameSubString(substring: SubStringFilter)
    | AttributeEquality(attributeName: AttributeName, value: AttributeValue)
    | CustomAttributePresent(attributeName: AttributeName)

  /** The columns of `groups` a condition can test. */
  datatype Column = GroupIdColumn | UuidColumn | LowercaseDisplayNameColumn

  datatype SqlValue = IntValue(number: int) | TextValue(text: string)

  /** A sub-query selecting a set of group ids. */
  datatype Subquery =
    | MembershipGroupIds(userId: UserId)
      // SELECT group_id FROM memberships WHERE user_id = userId
    | AttributeGroupIds(attributeName: AttributeName, value: Option<Serialized>)
      // SELECT group_id FROM group_attributes WHERE attribute_name = .. AND (value = .. | TRUE)
    | GroupIds(condition: Cond)
      // SELECT group_id FROM groups WHERE condition

  /** A relational condition on one row of `groups`. */
  datatype Cond =
    | Constant(b: bool)
    | All(conditions: seq<Cond>)
    | Any(conditions: seq<Cond>)
    | Negation(inner: Cond)
    | Equals(column: Column, value: SqlValue)
    | LowerLike(column: Column, pattern: SubStringFilter)
    | InSubquery(column: Column, query: Subquery)

  function ColumnValue(g: GroupRow, column: Column): SqlValue {
    match column
    case GroupIdColumn => IntValue(g.groupId)
    case UuidColumn => TextValue(g.uuid)
    case LowercaseDisplayNameColumn => TextValue(g.lowercaseDisplayName)
  }

  /** Whether the row `g` of `db.groups` satisfies `c`. */
  function Eval(db: Db, like: LikeMatcher, g: GroupRow, c: Cond): bool
    decreases c
  {
    match c
    case Constant(b) => b
    case All(cs) => forall i :: 0 <= i < |cs| ==> Eval(db, like, g, cs[i])
    case Any(cs) => exists i :: 0 <= i < |cs| && Eval(db, like, g, cs[i])
    case Negation(inner) => !Eval(db, like, g, inner)
    case Equals(column, v) => ColumnValue(g, column) == v
    case LowerLike(column, pattern) =>
      (match ColumnValue(g, column)
       case TextValue(s) => like(Lower(s), pattern)
       case IntValue(_) => false)
    case InSubquery(column, query) => SubqueryContains(db, like, query, ColumnValue(g, column))
  }

  /** Whether the sub-query's result contains `v`. */
  function SubqueryContains(db: Db, like: LikeMatcher, q: Subquery, v: SqlValue): bool
    decreases q
  {
    match q
    case MembershipGroupIds(u) =>
      exists i :: 0 <= i < |db.memberships| && db.memberships[i].userId == u
        && v == IntValue(db.memberships[i].groupId)
    case AttributeGroupIds(name, value) =>
      exists i :: 0 <= i < |db.attributes| && db.attributes[i].attributeName == name
        && (value.None? || db.attributes[i].value == value.value)
        && v == IntValue(db.attributes[i].groupId)
    case GroupIds(condition) =>
      exists i :: 0 <= i < |db.groups| && Eval(db, like, db.groups[i], condition)
        && v == IntValue(db.groups[i].groupId)
  }

  /** `bool_to_expr`. */
  function BoolToExpr(b: bool): Cond {
    Constant(b)
  }

  /** `attribute_condition`: the group has a row for `name` (holding `value`, when given). */
  function AttributeCondition(name: AttributeName, value: Option<Serialized>): Cond {
    InSubquery(GroupIdColumn, AttributeGroupIds(name, value))
  }

  /** `Cond::add` on a condition built by `Cond::all()` or `Cond::any()`. */
  function Add(c: Cond, x: Cond): (r: Cond)
    requires c.All? || c.Any?
    ensures r.All? == c.All? && r.Any? == c.Any?
  {
    match c
    case All(cs) => All(cs + [x])
    case Any(cs) => Any(cs + [x])
  }

  /** `fold(condition, Cond::add)`. */
  function FoldAdd(c: Cond, xs: seq<Cond>): (r: Cond)
    requires c.All? || c.Any?
    ensures r.All? == c.All? && r.Any? == c.Any?
    ensures r.conditions == c.conditions + xs
    decreases |xs|
  {
    if xs == [] then c else FoldAdd(Add(c, xs[0]), xs[1..])
  }

  /** `get_repeated_filter` after its `map`: the default for an empty list, else the fold. */
  function RepeatedFilter(compiled: seq<Cond>, condition: Cond, defaultValue: bool): Cond
    requires condition == All([]) || condition == Any([])
  {
    if compiled == [] then BoolToExpr(defaultValue) else FoldAdd(condition, compiled)
  }

  /** `get_group_filter_expr`. */
  function Compile(serialize: Serializer, f: GroupRequestFilter): Cond
    decreases f
  {
    match f
    case True => BoolToExpr(true)
    case False => BoolToExpr(false)
    case And(fs) =>
      RepeatedFilter(seq(|fs|, i requires 0 <= i < |fs| => Compile(serialize, fs[i])), All([]), true)
    case Or(fs) =>
      RepeatedFilter(seq(|fs|, i requires 0 <= i < |fs| => Compile(serialize, fs[i])), Any([]), false)
    case Not(inner) => Negation(Compile(serialize, inner))
    case DisplayName(name) => Equals(LowercaseDisplayNameColumn, TextValue(Lower(name)))
    case GroupId(id) => Equals(GroupIdColumn, IntValue(id))
    case Uuid(uuid) => Equals(UuidColumn, TextValue(uuid))
    case Member(user) => InSubquery(GroupIdColumn, MembershipGroupIds(user))
    case DisplayNameSubString(pattern) => LowerLike(LowercaseDisplayNameColumn, pattern)
    case AttributeEquality(name, value) => AttributeCondition(name, Some(serialize(value)))
    case CustomAttributePresent(name) => AttributeCondition(name, None)
  }

  /**
   * What each filter is meant to select, stated on the group's own data
   * rather than on the stored lowercase column.
   */
  predicate Matches(db: Db, like: LikeMatcher, serialize: Serializer, g: GroupRow, f: GroupRequestFilter)
    decreases f
  {
    match f
    case True => true
    case False => false
    case And(fs) => forall i :: 0 <= i < |fs| ==> Matches(db, like, serialize, g, fs[i])
    case Or(fs) => exists i :: 0 <= i < |fs| && Matches(db, like, serialize, g, fs[i])
    case Not(inner) => !Matches(db, like, serialize, g, inner)
    case DisplayName(name) => Lower(g.displayName) == Lower(name)
    case GroupId(id) => g.groupId == id
    case Uuid(uuid) => g.uuid == uuid
    case Member(user) => Membership(g.groupId, user) in db.memberships
    case DisplayNameSubString(pattern) => like(Lower(g.displayName), pattern)
    case AttributeEquality(name, value) => AttributeRow(g.groupId, name, serialize(value)) in db.attributes
    case CustomAttributePresent(name) => Lookup(db.attributes, g.groupId, name).Some?
  }

  /** An empty conjunction compiles to true and an empty disjunction to false. */
  lemma EmptyListsCompileToIdentities(serialize: Serializer)
    ensures Compile(serialize, And([])) == Constant(true)
    ensures Compile(serialize, Or([])) == Constant(false)
  {
  }

  /** A non-empty list folds its compiled children into one `all` / `any` condition. */
  lemma NonEmptyListsCompileToFold(serialize: Serializer, fs: seq<GroupRequestFilter>)
    requires fs != []
    ensures Compile(serialize, And(fs)).All? && Compile(serialize, Or(fs)).Any?
    ensures |Compile(serialize, And(fs)).conditions| == |fs| == |Compile(serialize, Or(fs)).conditions|
    ensures forall i :: 0 <= i < |fs| ==>
      Compile(serialize, And(fs)).conditions[i] == Compile(serialize, fs[i]) == Compile(serialize, Or(fs)).conditions[i]
  {
  }

  /**
   * The compiled condition selects a group exactly when the filter is meant
   * to, for every filter and every group row that keeps its lowercase
   * display name up to date.
   */
  lemma {:induction false} CompileCorrect(db: Db, like: LikeMatcher, serialize: Serializer, g: GroupRow, f: GroupRequestFilter)
    requires g.lowercaseDisplayName == Lower(g.displayName)
    ensures Eval(db, like, g, Compile(serialize, f)) == Matches(db, like, serialize, g, f)
    decreases f
  {
    match f
    case And(fs) =>
      forall i | 0 <= i < |fs| {
        CompileCorrect(db, like, serialize, g, fs[i]);
      }
      ConjunctionCorrect(db, like, serialize, g, fs);
    case Or(fs) =>
      forall i | 0 <= i < |fs| {
        CompileCorrect(db, like, serialize, g, fs[i]);
      }
      DisjunctionCorrect(db, like, serialize, g, fs);
    case Not(inner) =>
      CompileCorrect(db, like, serialize, g, inner);
    case DisplayNameSubString(pattern) =>
      LowerIdempotent(g.displayName);
    case _ =>
      LeafCorrect(db, like, serialize, g, f);
  }

  /** A conjunction compiles correctly when each of its parts does. */
  lemma ConjunctionCorrect(db: Db, like: LikeMatcher, serialize: Serializer, g: GroupRow, fs: seq<GroupRequestFilter>)
    requires forall i :: 0 <= i < |fs| ==> Eval(db, like, g, Compile(serialize, fs[i])) == Matches(db, like, serialize, g, fs[i])
    ensures Eval(db, like, g, Compile(serialize, And(fs))) == Matches(db, like, serialize, g, And(fs))
  {
    if fs != [] {
      var cs := seq(|fs|, i requires 0 <= i < |fs| => Compile(serialize, fs[i]));
      assert Compile(serialize, And(fs)) == All(cs);
      forall i | 0 <= i < |cs| ensures Eval(db, like, g, cs[i]) == Matches(db, like, serialize, g, fs[i]) {
        assert cs[i] == Compile(serialize, fs[i]);
      }
    }
  }

  /** A disjunction compiles correctly when each of its parts does. */
  lemma DisjunctionCorrect(db: Db, like: LikeMatcher, serialize: Serializer, g: GroupRow, fs: seq<GroupRequestFilter>)
    requires forall i :: 0 <= i < |fs| ==> Eval(db, like, g, Compile(serialize, fs[i])) == Matches(db, like, serialize, g, fs[i])
    ensures Eval(db, like, g, Compile(serialize, Or(fs))) == Matches(db, like, serialize, g, Or(fs))
  {
    if fs != [] {
      var cs := seq(|fs|, i requires 0 <= i < |fs| => Compile(serialize, fs[i]));
      assert Compile(serialize, Or(fs)) == Any(cs);
      forall i | 0 <= i < |cs| ensures Eval(db, like, g, cs[i]) == Matches(db, like, serialize, g, fs[i]) {
        assert cs[i] == Compile(serialize, fs[i]);
      }
    }
  }

  /** The filters without sub-filters compile to conditions that hold exactly when they match. */
  lemma LeafCorrect(db: Db, like: LikeMatcher, serialize: Serializer, g: GroupRow, f: GroupRequestFilter)
    requires !f.And? && !f.Or? && !f.Not? && !f.DisplayNameSubString?
    requires g.lowercaseDisplayName == Lower(g.displayName)
    ensures Eval(db, like, g, Compile(serialize, f)) == Matches(db, like, serialize, g, f)
  {
    match f
    case Member(user) =>
      if Membership(g.groupId, user) in db.memberships {
        var i :| 0 <= i < |db.memberships| && db.memberships[i] == Membership(g.groupId, user);
      }
    case AttributeEquality(name, value) =>
      if AttributeRow(g.groupId, name, serialize(value)) in db.attributes {
        var i :| 0 <= i < |db.attributes| && db.attributes[i] == AttributeRow(g.groupId, name, serialize(value));
      }
    case CustomAttributePresent(name) =>
      if Lookup(db.attributes, g.groupId, name).Some? {
        var v := Lookup(db.attributes, g.groupId, name).value;
        var i :| 0 <= i < |db.attributes| && db.attributes[i] == AttributeRow(g.groupId, name, v);
      }
    case _ =>
  }

  /** Display-name equality ignores case: "eMpTy gRoup" selects "Empty Group". */
  lemma DisplayNameIgnoresCase(db: Db, like: LikeMatcher, serialize: Serializer, g: GroupRow)
    requires g.displayName == "Empty Group" && g.lowercaseDisplayName == Lower(g.displayName)
    ensures Eval(db, like, g, Compile(serialize, DisplayName("eMpTy gRoup")))
    ensures !Eval(db, like, g, Compile(serialize, DisplayName("Best Group")))
  {
    assert Lower("eMpTy gRoup") == "empty group";
    assert Lower("Empty Group") == "empty group";
    assert Lower("Best Group")[0] == 'b';
  }
}
