/** Shared value types: optional values, results with an error value, and the
    process-wide settings the i18n helpers and the views read. */
module Common {

  datatype Option<T> = None | Some(value: T)

  /** The outcome of an operation that can raise: Success carries the value,
      Failure carries what the exception would have reported. */
  datatype Result<T, E> = Success(value: T) | Failure(error: E)

  /** The Django settings consulted by the modelled code. */
  datatype Settings = Settings(
    languageCode: string,                 // LANGUAGE_CODE, the site default language
    translationThreshold: int,            // TRANSLATION_THRESHOLD, a percentage
    languagesMostlyTranslated: seq<string>, // LANGUAGES_MOSTLY_TRANSLATED
    officialGitBranch: string             // OFFICIAL_GIT_BRANCH
  )
}
