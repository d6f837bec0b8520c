/** The error conditions the core can report. In the source these are
    `anyhow::Error` values whose message text is free-form; the model keeps
    only which condition occurred and the key it concerns. */
module Errors {

  datatype Error =
    /** A string that names no variant of an enumeration (serde or SQL decoding). */
    | UnknownVariant(text: string)
    /** A SQL column that does not hold text where text was expected. */
    | InvalidSqlType
    /** A JSON value that is not a string where a string was expected. */
    | InvalidJsonType
    /** A non-empty date string that is not a date. */
    | InvalidDate(text: string)
    /** A path without a usable file extension. */
    | NoExtension(path: string)
    /** A path whose extension has no known MIME type. */
    | UnknownExtension(path: string, ext: string)
    /** A string the MIME validator refuses. */
    | InvalidMimeType(text: string)
    /** A poster row that is missing for a series. */
    | PosterNotFound(posterId: int, seriesId: int)
    /** `update <id>` for an id that is not tracked. */
    | SeriesNotTracked(seriesId: int)
    /** A string that does not parse as an e-mail address. */
    | InvalidAddress(text: string)
    /** A failure reported by a collaborator (HTTP client, database, mail
        transport); the model does not look inside it. */
    | Collaborator(what: string)
    /** A Rust panic (an `unwrap` on `None`, a failed `assert_eq!`), which
        ends the whole run. */
    | Panic(what: string)
}
