/** The few Java language facts the registry depends on. */
module JavaLang {
  import opened Wrappers

  /** A `java.lang.String` reference: `None` is `null`. */
  type JString = Option<string>

  /** How string concatenation (`"..." + s`) renders a reference: `null` prints as "null". */
  function Str(s: JString): (r: string)
    ensures s.None? ==> r == "null"
    ensures s.Some? ==> r == s.value
  {
    match s
    case None => "null"
    case Some(v) => v
  }
}
