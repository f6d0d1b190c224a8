/**
 * Value types of the directory's domain that the group repository passes
 * around: identifiers, attribute values in decoded and stored form, and
 * the error kinds an operation can return.
 */
module Domain {
  import opened Wrappers
  import opened Schema

  type GroupId = int
  type UserId = string
  type Uuid = string

  /** An attribute value in its stored form. */
  type Serialized = seq<bv8>

  /** A decoded attribute value, one case per attribute type. */
  datatype AttributeValue =
    | StringValue(text: string)
    | IntegerValue(number: int)
    | JpegPhotoValue(bytes: seq<bv8>)
    | DateTimeValue(timestamp: int)
    | ListValue(items: seq<AttributeValue>)

  datatype Attribute = Attribute(name: AttributeName, value: AttributeValue)

  /** What the storage engine refuses, as reported through `DomainError::DatabaseError`. */
  datatype DbError = UniqueViolation | RecordNotUpdated

  datatype DomainError =
    | EntityNotFound(groupId: GroupId)
    | InternalError(attributeName: AttributeName)
    | DatabaseError(cause: DbError)

  /** `value.into()`: the stored form of a value. */
  type Serializer = AttributeValue -> Serialized

  /** `deserialize::deserialize_attribute`: decode a stored value against a schema list. */
  type Deserializer = (AttributeName, Serialized, AttributeList) -> Result<AttributeValue, DomainError>
}
