/**
 * A job record as the app reads it from the listing endpoint. Only the
 * fields the core looks at are kept: the identifier, the title and company,
 * the `primary_details` block, and the free-text `content`.
 */
module Jobs {
  import opened Wrappers

  /**
   * A job identifier is a number or a string. The store compares ids with
   * `===`, so `Num(1)` and `Str("1")` are different identifiers.
   */
  datatype JobId = Num(n: int) | Str(s: string)

  /** JavaScript truthiness of an identifier: `0` and `""` are falsy. */
  predicate IsTruthy(id: JobId) {
    match id
    case Num(n) => n != 0
    case Str(s) => s != ""
  }

  /** `primary_details`: each entry may be missing. */
  datatype Details = Details(place: Option<string>, salary: Option<string>, experience: Option<string>)

  /**
   * A job record; a missing field (`undefined`) is `None`. The detail page
   * passes `content` to `formatDescription` as its text.
   */
  datatype Job = Job(
    id: Option<JobId>,
    title: Option<string>,
    companyName: Option<string>,
    primaryDetails: Option<Details>,
    content: Option<string>)
}
