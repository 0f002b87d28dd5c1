/** The stored record of an event, as the event schema declares it. */
module EventModel {

  datatype Option<T> = None | Some(value: T)

  /** Identities are opaque object ids; only equality on them matters. */
  type UserId = nat
  type EventId = nat

  /** A date as milliseconds since the epoch. */
  type Millis = int

  /** The values the schema's enumeration admits for `category`. */
  const Categories: seq<string> :=
    ["Technology", "Business", "Arts", "Sports", "Music", "Education", "Health", "Food", "Other"]

  /** The schema's default category. */
  const DefaultCategory: string := "Other"

  /**
   * One event document. `imageUrl` is the only optional field;
   * `attendees` is the roster, a list of user ids.
   * The timestamps the schema adds are not modelled.
   */
  datatype Event = Event(
    title: string,
    description: string,
    dateTime: Millis,
    location: string,
    capacity: int,
    imageUrl: Option<string>,
    category: string,
    createdBy: UserId,
    attendees: seq<UserId>)

  predicate IsCategory(s: string) {
    s in Categories
  }

  /** JavaScript's `s || fallback` for a string `s`: the empty string is falsy. */
  function OrElse(s: string, fallback: string): string {
    if s != "" then s else fallback
  }

  /**
   * What the schema's validators demand of a document when it is created:
   * the required strings are non-empty and the category is one of the
   * enumeration, which holds no empty string. Capacity has no lower bound and `createdBy`, `dateTime`
   * and `capacity` are present by construction of the datatype.
   */
  predicate SchemaValid(e: Event): (valid: bool)
    ensures valid ==> e.category != ""
  {
    && e.title != ""
    && e.description != ""
    && e.location != ""
    && IsCategory(e.category)
  }

  /** A request's category after the default is applied. */
  function CategoryOrDefault(requested: string): (c: string)
    ensures c != ""
    ensures requested == "" ==> c == DefaultCategory
    ensures IsCategory(requested) ==> c == requested
  {
    OrElse(requested, DefaultCategory)
  }

  lemma DefaultIsCategory()
    ensures IsCategory(DefaultCategory) && |Categories| == 9
  {
  }
}
