/** The `java.time` parsing and formatting the plugins use, kept abstract:
    the calendar arithmetic behind them is not modelled. An instant is its
    count of milliseconds since the epoch. */
module JavaTime {
  import opened Wrappers
  import opened JStrings

  datatype TimeFormats = TimeFormats(
    /** `ZonedDateTime.parse(text, GIT_LOG_FORMAT).toInstant()`, `None` where
        Java throws `DateTimeParseException`. */
    parseGitDate: JString -> Option<int>,
    /** `Instant.parse(text)`. */
    parseInstant: JString -> Option<int>,
    /** `toIsoFormat`: the instant as `ISO_INSTANT` prints it. */
    formatIso: int -> JString)

  /** `toIsoFormat(fromGitLogFormat(text))`, `None` where the parse throws. */
  function GitDateToIso(t: TimeFormats, text: JString): (r: Option<JString>)
    ensures r.Some? <==> t.parseGitDate(text).Some?
    ensures r.Some? ==> r.value == t.formatIso(t.parseGitDate(text).value)
  {
    match t.parseGitDate(text)
    case None => None
    case Some(millis) => Some(t.formatIso(millis))
  }

  /** Java's `long` division, which truncates toward zero (Dafny's `/`
      rounds toward negative infinity for a positive divisor). */
  function JavaDiv(a: int, b: int): (r: int)
    requires b > 0
    ensures a >= 0 ==> 0 <= r && r * b <= a < r * b + b
    ensures a < 0 ==> r <= 0 && r * b - b < a <= r * b
  {
    if a >= 0 then a / b else -((-a) / b)
  }

  /** Truncation sends negative instants up, not down: -1 ms is second 0. */
  lemma JavaDivNegative()
    ensures JavaDiv(-1, 1000) == 0 && -1 / 1000 == -1
    ensures JavaDiv(-1500, 1000) == -1
  {
  }
}
