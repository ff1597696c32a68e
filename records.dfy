/**
 * The records the query runs over, the record type's fields, and the exceptions the query
 * throws. A record is a map from property name to its value; the record type is the set of its
 * property names together with the type-directed conversion `Convert.ChangeType` performs on a
 * filter value for each property.
 */
module Records {
  import opened Wrappers

  type Record = map<string, int>

  datatype Schema = Schema(
    fields: set<string>,
    /** `Convert.ChangeType(text, typeof(field))`: `None` when the conversion throws. */
    convert: (string, string) -> Option<int>)

  /** Every record of a homogeneous source has every property of its type. */
  predicate Conforms(schema: Schema, q: seq<Record>)
  {
    forall i :: 0 <= i < |q| ==> schema.fields <= q[i].Keys
  }

  /** The exceptions `GetPaginatedAsync` lets through to its caller. */
  datatype Error =
    | UnknownProperty(name: string)                    // ArgumentException from the property lookup
    | ConversionFailed(property: string, text: string) // FormatException / InvalidCastException
    | UnsupportedOperation(operation: string)          // ArgumentException from the operator switch
    | IndexOutOfRange                                  // order-by string with no token
    | CountOverflow                                    // OverflowException from Count()
}
