/** Option, Result and the ways a generation run can fail. */
module Results {

  datatype Option<+T> = None | Some(value: T)

  /** Every exception the generator lets escape, by cause. */
  datatype Error =
    | VersionMismatch       // the two protocol documents disagree on major/minor
    | UnresolvedReference   // a "$ref" names a key the type registry does not hold
    | MalformedReference    // a "$ref" made only of dots: splitting it yields no pieces
    | CyclicReference       // a "$ref" chain comes back to a key it already followed
    | MissingItems          // an ARRAY without "items"
    | MissingNamingContext  // an anonymous inline enum whose parent has no id
    | UnknownKind           // a kind that matched none of the seven kinds
    | MissingDomain         // a named shape that no domain owns (a property or items spec with an id)
    | MissingPropertyName   // an object property without a name

  datatype Result<+T> = Ok(value: T) | Err(error: Error)
}
