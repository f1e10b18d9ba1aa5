/**
 * `date_from_env`, and the inclusive date test the fetches apply to provider rows (the
 * run's window itself is `Pipeline.Window`). `datetime.strptime` is not modelled: it is
 * a parameter that either accepts a string in a format, giving a day, or rejects it.
 */
module Dates {
  import opened Wrappers
  import opened Rows

  /** The two formats tried, in this order: `"%Y-%m-%d"` then `"%Y/%m/%d"`. */
  datatype DateFormat = DashYmd | SlashYmd

  /** Why a run stops before fetching anything (a `ValueError` raised in `main`). */
  datatype ConfigError = BadDate(variable: string, text: string) | StartAfterEnd

  /**
   * `date_from_env(var_name, default)` given the variable's value. Unset or empty gives the
   * default; otherwise the first format that parses wins; if neither does, the variable's
   * name and text are reported.
   */
  function DateFromEnv(name: string, value: Option<string>, default: Day,
                       parse: (string, DateFormat) -> Option<Day>): (r: Result<Day, ConfigError>)
    ensures value.None? || value == Some("") ==> r == Success(default)
    ensures value.Some? && value.value != "" ==>
              (r.Success? <==> parse(value.value, DashYmd).Some? || parse(value.value, SlashYmd).Some?)
    ensures value.Some? && value.value != "" && parse(value.value, DashYmd).Some? ==>
              r == Success(parse(value.value, DashYmd).value)
    ensures value.Some? && value.value != "" && parse(value.value, DashYmd).None?
            && parse(value.value, SlashYmd).Some? ==>
              r == Success(parse(value.value, SlashYmd).value)
    ensures r.Failure? ==> value.Some? && r.error == BadDate(name, value.value)
  {
    match value
    case None => Success(default)
    case Some(text) =>
      if text == "" then Success(default)
      else
        match parse(text, DashYmd)
        case Some(d) => Success(d)
        case None =>
          match parse(text, SlashYmd)
          case Some(d) => Success(d)
          case None => Failure(BadDate(name, text))
  }

  /** The inclusive window test `start <= date <= end` applied to provider rows. */
  predicate InWindow(date: Day, start: Day, end: Day)
  {
    start <= date <= end
  }
}
