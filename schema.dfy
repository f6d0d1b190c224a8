/**
 * The attribute schema of users and groups, and the public view of it
 * that adds the built-in attributes every entry has (server/src/domain/schema.rs).
 */
module Schema {
  import opened Wrappers
  import opened Strings
  import opened Sorting

  type AttributeName = string

  datatype AttributeType = String | Integer | JpegPhoto | DateTime

  datatype AttributeSchema = AttributeSchema(
    name: AttributeName,
    attributeType: AttributeType,
    isList: bool,
    isVisible: bool,
    isEditable: bool,
    isHardcoded: bool,
    isReadonly: bool)

  datatype AttributeList = AttributeList(attributes: seq<AttributeSchema>)

  /** The schema as the administrator defined it, one list per entry kind. */
  datatype Schema = Schema(userAttributes: AttributeList, groupAttributes: AttributeList)

  /** The schema served to readers: administrator attributes plus built-ins, sorted. */
  datatype PublicSchema = PublicSchema(schema: Schema)

  function NameOf(a: AttributeSchema): AttributeName {
    a.name
  }

  function GetSchema(p: PublicSchema): Schema {
    p.schema
  }

  /** `SchemaUserAttributeExtractor::get_attributes`. */
  function UserAttributes(p: PublicSchema): AttributeList {
    GetSchema(p).userAttributes
  }

  /** `SchemaGroupAttributeExtractor::get_attributes`. */
  function GroupAttributes(p: PublicSchema): AttributeList {
    GetSchema(p).groupAttributes
  }

  lemma ExtractorsSelectTheirList(s: Schema)
    ensures GetSchema(PublicSchema(s)) == s
    ensures UserAttributes(PublicSchema(s)) == s.userAttributes
    ensures GroupAttributes(PublicSchema(s)) == s.groupAttributes
  {
  }

  /**
   * A built-in attribute: always visible, never a list, always hardcoded;
   * read-only exactly when it is not editable.
   */
  function Builtin(name: AttributeName, attributeType: AttributeType, editable: bool): AttributeSchema {
    AttributeSchema(name, attributeType, false, true, editable, true, !editable)
  }

  /** The built-in user attributes, in the order they are appended. */
  function UserBuiltins(): seq<AttributeSchema> {
    [ Builtin("user_id", String, false),
      Builtin("creation_date", DateTime, false),
      Builtin("mail", String, true),
      Builtin("uuid", String, false),
      Builtin("display_name", String, true) ]
  }

  /** The built-in group attributes, in the order they are appended. */
  function GroupBuiltins(): seq<AttributeSchema> {
    [ Builtin("group_id", Integer, false),
      Builtin("creation_date", DateTime, false),
      Builtin("uuid", String, false),
      Builtin("display_name", String, true) ]
  }

  /**
   * The first attribute of the list with the given name
   * (`AttributeList::get_attribute_schema`).
   */
  function FindAttribute(attributes: seq<AttributeSchema>, name: AttributeName): (r: Option<AttributeSchema>)
    ensures r.None? <==> forall a :: a in attributes ==> a.name != name
    ensures r.Some? ==> r.value in attributes && r.value.name == name
  {
    if attributes == [] then None
    else if attributes[0].name == name then Some(attributes[0])
    else FindAttribute(attributes[1..], name)
  }

  /**
   * `AttributeList::get_attribute_type`: the declared type and list flag of
   * a name, or None when the schema does not declare it.
   */
  function GetAttributeType(list: AttributeList, name: AttributeName): (r: Option<(AttributeType, bool)>)
    ensures r.None? <==> forall a :: a in list.attributes ==> a.name != name
    ensures r.Some? ==> exists a :: a in list.attributes && a.name == name && r.value == (a.attributeType, a.isList)
  {
    match FindAttribute(list.attributes, name)
    case None => None
    case Some(a) => Some((a.attributeType, a.isList))
  }

  /**
   * A list is the administrator's list merged with the built-ins: sorted by
   * name, a rearrangement of the administrator's list followed by the
   * built-ins, and attributes with the same name keep that order.
   */
  ghost predicate IsMergeOf(merged: AttributeList, admin: AttributeList, builtins: seq<AttributeSchema>) {
    && SortedBy(merged.attributes, NameOf)
    && multiset(merged.attributes) == multiset(admin.attributes + builtins)
    && StableFor(merged.attributes, admin.attributes + builtins, NameOf)
  }

  /**
   * `From<Schema> for PublicSchema`: each attribute list is extended with the
   * built-ins of its kind and then stably sorted by name, in place.
   */
  method FromSchema(schema: Schema) returns (p: PublicSchema)
    ensures IsMergeOf(UserAttributes(p), schema.userAttributes, UserBuiltins())
    ensures IsMergeOf(GroupAttributes(p), schema.groupAttributes, GroupBuiltins())
  {
    var users := schema.userAttributes.attributes + UserBuiltins();
    var userArray := new AttributeSchema[|users|](i requires 0 <= i < |users| => users[i]);
    assert userArray[..] == users;
    SortBy(userArray, NameOf);
    var groups := schema.groupAttributes.attributes + GroupBuiltins();
    var groupArray := new AttributeSchema[|groups|](i requires 0 <= i < |groups| => groups[i]);
    assert groupArray[..] == groups;
    SortBy(groupArray, NameOf);
    p := PublicSchema(Schema(AttributeList(userArray[..]), AttributeList(groupArray[..])));
  }

  /** Nothing is dropped or invented by the merge; the list grows by exactly the built-ins. */
  lemma MergeKeepsEverything(merged: AttributeList, admin: AttributeList, builtins: seq<AttributeSchema>)
    requires IsMergeOf(merged, admin, builtins)
    ensures |merged.attributes| == |admin.attributes| + |builtins|
    ensures forall a :: a in merged.attributes <==> a in admin.attributes || a in builtins
  {
    assert |multiset(merged.attributes)| == |multiset(admin.attributes + builtins)|;
    forall a ensures a in merged.attributes <==> a in admin.attributes || a in builtins {
      calc {
        a in merged.attributes;
        a in multiset(merged.attributes);
        a in multiset(admin.attributes + builtins);
        a in admin.attributes + builtins;
      }
    }
  }

  /** After conversion the user list holds the five hardcoded built-ins. */
  lemma MergedUserBuiltins(merged: AttributeList, admin: AttributeList)
    requires IsMergeOf(merged, admin, UserBuiltins())
    ensures |merged.attributes| == |admin.attributes| + 5
    ensures forall n :: n in ["user_id", "creation_date", "mail", "uuid", "display_name"] ==>
      exists a :: a in merged.attributes && a.name == n && a.isHardcoded
  {
    MergeKeepsEverything(merged, admin, UserBuiltins());
    forall n | n in ["user_id", "creation_date", "mail", "uuid", "display_name"]
      ensures exists a :: a in merged.attributes && a.name == n && a.isHardcoded
    {
      var i :| 0 <= i < 5 && ["user_id", "creation_date", "mail", "uuid", "display_name"][i] == n;
      assert UserBuiltins()[i] in UserBuiltins();
    }
  }

  /** After conversion the group list holds the four hardcoded built-ins. */
  lemma MergedGroupBuiltins(merged: AttributeList, admin: AttributeList)
    requires IsMergeOf(merged, admin, GroupBuiltins())
    ensures |merged.attributes| == |admin.attributes| + 4
    ensures Builtin("group_id", Integer, false) in merged.attributes
    ensures Builtin("creation_date", DateTime, false) in merged.attributes
    ensures forall n :: n in ["group_id", "creation_date", "uuid", "display_name"] ==>
      exists a :: a in merged.attributes && a.name == n && a.isHardcoded
  {
    MergeKeepsEverything(merged, admin, GroupBuiltins());
    forall n | n in ["group_id", "creation_date", "uuid", "display_name"]
      ensures exists a :: a in merged.attributes && a.name == n && a.isHardcoded
    {
      var i :| 0 <= i < 4 && ["group_id", "creation_date", "uuid", "display_name"][i] == n;
      assert GroupBuiltins()[i] in GroupBuiltins();
    }
  }

  /**
   * The identifying built-ins are read-only and the two editable ones are
   * not, for both entry kinds.
   */
  lemma BuiltinFlags()
    ensures forall a :: a in UserBuiltins() + GroupBuiltins() ==>
      a.isHardcoded && (a.isReadonly <==> a.name in ["user_id", "group_id", "creation_date", "uuid"])
    ensures forall a :: a in UserBuiltins() + GroupBuiltins() ==>
      (a.isEditable <==> a.name in ["mail", "display_name"])
  {
  }

  /**
   * The merged list has only one possible value: the conversion's output is
   * fully determined by its input, even when an administrator's attribute
   * has the name of a built-in.
   */
  lemma MergeIsDetermined(m1: AttributeList, m2: AttributeList, admin: AttributeList, builtins: seq<AttributeSchema>)
    requires IsMergeOf(m1, admin, builtins) && IsMergeOf(m2, admin, builtins)
    ensures m1 == m2
  {
    SortedStableUnique(m1.attributes, m2.attributes, NameOf);
  }

  /**
   * Among the attributes of one name, the merged list holds the
   * administrator's ones first, in their order, then the built-ins of that
   * name.
   */
  lemma MergedNameOrder(merged: AttributeList, admin: AttributeList, builtins: seq<AttributeSchema>, name: AttributeName)
    requires IsMergeOf(merged, admin, builtins)
    ensures Filter(merged.attributes, HasKey(NameOf, name))
      == Filter(admin.attributes, HasKey(NameOf, name)) + Filter(builtins, HasKey(NameOf, name))
  {
    FilterAppend(admin.attributes, builtins, HasKey(NameOf, name));
  }
}
