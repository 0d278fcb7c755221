/** The records the viewer loads: one per input line. */
module Model {
  import opened Wrappers
  import opened Json

  /**
   One line of the input: its exact text and, when the line parsed as JSON, the
   parsed value. A record is never changed once it is loaded.
   */
  datatype Record = Record(raw: string, value: Option<Value>)

  /** `record.value.as_ref().and_then(|f| f.as_object())`: the record's members when its value is an object. */
  function AsObject(record: Record): (r: Option<seq<Member>>)
    ensures r.Some? <==> record.value.Some? && record.value.value.Object?
    ensures r.Some? ==> r.value == record.value.value.members
  {
    match record.value
    case Some(Object(members)) => Some(members)
    case _ => None
  }

  /** The members of an object record in the object's own order; none for any other record. */
  function Members(record: Record): seq<Member> {
    AsObject(record).GetOr([])
  }
}
