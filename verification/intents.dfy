/** The slice of Android's activity-result transport the app relies on: an
    `Intent` is reduced to its extras bundle, and a finished activity hands
    back a result code and an optional `Intent`. */
module Intents {
  import opened Wrappers

  /** `Activity.RESULT_OK` and `Activity.RESULT_CANCELED`. */
  const RESULT_OK: int := -1
  const RESULT_CANCELED: int := 0

  /** A bundle entry is stored with its type; a typed getter ignores entries
      of the other type. */
  datatype Extra = StringExtra(text: string) | IntExtra(number: int)

  datatype Intent = Intent(extras: map<string, Extra>)

  /** What `setResult(code, data)` followed by `finish()` delivers to the caller. */
  datatype ActivityResult = ActivityResult(resultCode: int, data: Option<Intent>)

  /** `data?.getStringExtra(key)`: null when there is no intent, no entry, or
      an entry that is not a string. */
  function GetStringExtra(data: Option<Intent>, key: string): Option<string> {
    match data
    case None => None
    case Some(intent) =>
      if key in intent.extras && intent.extras[key].StringExtra?
      then Some(intent.extras[key].text)
      else None
  }

  /** `data?.getIntExtra(key, default)`: null when there is no intent, the
      default when there is no integer entry under `key`. */
  function GetIntExtra(data: Option<Intent>, key: string, default: int): Option<int> {
    match data
    case None => None
    case Some(intent) =>
      if key in intent.extras && intent.extras[key].IntExtra?
      then Some(intent.extras[key].number)
      else Some(default)
  }
}
