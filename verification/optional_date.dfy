/** `OptionalDate` of src/tmdb/optional_date.rs: the catalogue service writes
    a missing date as the empty string, so the wire form of "no date" is "" and
    the wire form of a date is its ISO text. Inside the core it is a plain
    optional date. */
module OptionalDates {
  import opened Wrappers
  import opened Errors
  import opened Dates
  import Text

  type OptionalDate = Option<Date>

  /** The serde visitor: "" is no date, any other string must be an ISO date. */
  function Deserialize(s: string): (r: Result<OptionalDate, Error>)
    ensures s == "" ==> r == Ok(None)
    ensures s != "" ==> (r.Ok? <==> ParseIso(s).Some?)
    ensures s != "" && r.Ok? ==> r.value == ParseIso(s)
    ensures s != "" && r.Err? ==> r.error == InvalidDate(s)
  {
    if s == "" then Ok(None)
    else match ParseIso(s)
      case Some(d) => Ok(Some(d))
      case None => Err(InvalidDate(s))
  }

  /** The serde serializer: "" for no date, otherwise the ISO text. */
  function Serialize(od: OptionalDate): (s: string)
    ensures s == "" <==> od.None?
  {
    match od
    case None => ""
    case Some(d) => FormatIso(d)
  }

  /** `Display`: "<no date>" for no date, otherwise the ISO text, which
      ends in a digit and so never reads as "<no date>". */
  function Display(od: OptionalDate): (s: string)
    ensures od.Some? ==> s == Serialize(od)
    ensures od.None? ==> s == "<no date>"
    ensures s == "<no date>" <==> od.None?
    ensures s != ""
  {
    match od
    case None => "<no date>"
    case Some(d) =>
      Text.FormatIntEndsInDigit(d.day, 2, false);
      FormatIso(d)
  }

  /** Every optional date survives a serialize/deserialize round trip. */
  lemma RoundTrip(od: OptionalDate)
    ensures Deserialize(Serialize(od)) == Ok(od)
  {
    if od.Some? {
      ParseFormatIso(od.value);
    }
  }

  /** A well-formed ISO date string deserializes to that date. */
  lemma DeserializeIso(d: Date)
    ensures Deserialize(FormatIso(d)) == Ok(Some(d))
  {
    RoundTrip(Some(d));
  }

  /** The ordering `Option<NaiveDate>` derives: no date is below every date,
      dates are ordered chronologically. */
  predicate AtMost(a: OptionalDate, b: OptionalDate) {
    match (a, b)
    case (None, _) => true
    case (Some(_), None) => false
    case (Some(x), Some(y)) => x == y || Before(x, y)
  }

  /** `AtMost` is a total order, so "the maximum by first air date" is well
      defined up to ties between equal dates. */
  lemma AtMostIsTotalOrder()
    ensures forall a :: AtMost(a, a)
    ensures forall a, b :: AtMost(a, b) && AtMost(b, a) ==> a == b
    ensures forall a, b, c :: AtMost(a, b) && AtMost(b, c) ==> AtMost(a, c)
    ensures forall a, b :: AtMost(a, b) || AtMost(b, a)
  {
  }
}
