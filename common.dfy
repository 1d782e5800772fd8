/** Vocabulary shared by every service of the backend model: identifiers,
    optional values, the values a collaborator can throw, and the failures a
    service call ends with. */
module Common {

  /** Row identifiers. The store assigns them; the model numbers rows from a counter. */
  type Id = nat

  /** One byte of the random source. */
  type Byte = x: int | 0 <= x < 256

  datatype Option<+T> = None | Some(value: T)

  /** The `code` property of a thrown object: missing, a string, or some other value. */
  datatype CodeProperty = Absent | Text(s: string) | NonText

  /** A value thrown by a collaborator (the store, the signer). JavaScript may
      throw anything: a primitive, `null`, or an object that may carry `code`. */
  datatype Thrown =
    | Primitive(text: string)
    | NullValue
    | ObjectValue(code: CodeProperty, message: string)

  /** How a service call fails. */
  datatype Failure =
    | HttpError(status: int, message: string)  // an http-errors error: status and message
    | PlainError(message: string)              // a bare `new Error(message)`
    | Rethrown(thrown: Thrown)                 // a collaborator's error, propagated unchanged

  datatype Result<+T> = Ok(value: T) | Err(failure: Failure)

  /** The store's error code for a violated unique constraint. */
  const UniqueConstraintCode: string := "P2002"

  /** What the store throws when an insert or update would break a unique constraint. */
  const UniqueViolation: Thrown := ObjectValue(Text(UniqueConstraintCode), "Unique constraint failed")

  /** What the store throws when `update` or `delete` finds no row. */
  const RecordNotFound: Thrown := ObjectValue(Text("P2025"), "Record to update or delete does not exist")

  /** Seven days in milliseconds: the lifetime of invitations and refresh tokens. */
  const SevenDaysMs: int := 7 * 24 * 60 * 60 * 1000

  /** `isUniqueConstraintError`: an object (not null) whose `code` property is the string "P2002". */
  predicate IsUniqueConstraintError(error: Thrown) {
    match error
    case ObjectValue(code, _) => code == Text(UniqueConstraintCode)
    case _ => false
  }

  lemma UniqueConstraintErrorShape(error: Thrown)
    ensures IsUniqueConstraintError(UniqueViolation)
    ensures error.ObjectValue? && error.code != Text("P2002") ==> !IsUniqueConstraintError(error)
    ensures error.Primitive? || error.NullValue? ==> !IsUniqueConstraintError(error)
    ensures error.ObjectValue? && error.code.Absent? ==> !IsUniqueConstraintError(error)
  {
  }

  /** The keys of `m` whose value satisfies `keep`, each once, in no particular
      order: the rows a `findMany` query returns. */
  method MatchingKeys<V>(m: map<Id, V>, keep: V -> bool) returns (ks: seq<Id>)
    ensures forall k :: k in ks <==> k in m && keep(m[k])
    ensures forall i, j :: 0 <= i < j < |ks| ==> ks[i] != ks[j]
  {
    ks := [];
    var rest := m.Keys;
    while rest != {}
      invariant rest <= m.Keys
      invariant forall k :: k in ks <==> k in m && k !in rest && keep(m[k])
      invariant forall i, j :: 0 <= i < j < |ks| ==> ks[i] != ks[j]
      decreases rest
    {
      var k :| k in rest;
      if keep(m[k]) {
        ks := ks + [k];
      }
      rest := rest - {k};
    }
  }
}
