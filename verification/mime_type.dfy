/** `MimeType` of src/tmdb/mime_type.rs: a validated MIME string, and the
    poster-path extension table that picks one. Whether a string is an
    acceptable Content-Type is decided by the mail library's parser, which is
    not part of this model: every operation that validates takes that
    decision as the parameter `valid`. */
module MimeTypes {
  import opened Wrappers
  import opened Errors
  import opened Encodings
  import Paths

  datatype MimeType = MimeType(text: string)

  /** The known poster extensions; lower case only. */
  function FileExtToMimeType(ext: string): (r: Option<string>)
    ensures r.Some? <==> ext == "jpg" || ext == "jpeg" || ext == "png"
    ensures r == Some("image/jpeg") <==> ext == "jpg" || ext == "jpeg"
    ensures r == Some("image/png") <==> ext == "png"
  {
    if ext == "jpg" || ext == "jpeg" then Some("image/jpeg")
    else if ext == "png" then Some("image/png")
    else None
  }

  /** `MimeType::new` and `TryFrom<&str>`: accept a string the validator
      accepts and keep it verbatim. */
  function NewMimeType(value: string, valid: string -> bool): (r: Result<MimeType, Error>)
    ensures r.Ok? <==> valid(value)
    ensures r.Ok? ==> AsStr(r.value) == value
    ensures r.Err? ==> r.error == InvalidMimeType(value)
  {
    if valid(value) then Ok(MimeType(value)) else Err(InvalidMimeType(value))
  }

  function AsStr(m: MimeType): string {
    m.text
  }

  /** `TryFrom<&Path>` / `identify_from_ext`: the MIME type named by the
      path's extension. */
  function MimeTypeOfPath(path: string, valid: string -> bool): (r: Result<MimeType, Error>)
    ensures Paths.Extension(path).None? ==> r == Err(NoExtension(path))
    ensures Paths.Extension(path).Some? && FileExtToMimeType(Paths.Extension(path).value).None?
      ==> r == Err(UnknownExtension(path, Paths.Extension(path).value))
    ensures r.Ok? ==>
              && Paths.Extension(path).Some?
              && FileExtToMimeType(Paths.Extension(path).value) == Some(AsStr(r.value))
  {
    match Paths.Extension(path)
    case None => Err(NoExtension(path))
    case Some(ext) =>
      match FileExtToMimeType(ext)
      case None => Err(UnknownExtension(path, ext))
      case Some(mime) => NewMimeType(mime, valid)
  }

  /** For a known extension the result is the mapped MIME string whenever the
      validator accepts it. */
  lemma MimeTypeOfPathKnown(path: string, valid: string -> bool)
    requires Paths.Extension(path).Some?
    requires FileExtToMimeType(Paths.Extension(path).value).Some?
    requires valid(FileExtToMimeType(Paths.Extension(path).value).value)
    ensures MimeTypeOfPath(path, valid) == Ok(MimeType(FileExtToMimeType(Paths.Extension(path).value).value))
  {
  }

  function MimeTypeToSql(m: MimeType): SqlValue {
    SqlText(m.text)
  }

  /** `FromSql`: a text column, validated like `new`. */
  function MimeTypeFromSql(v: SqlValue, valid: string -> bool): (r: Result<MimeType, Error>)
    ensures !v.SqlText? ==> r == Err(InvalidSqlType)
    ensures v.SqlText? ==> (r.Ok? <==> valid(v.text))
  {
    match v
    case SqlText(text) => NewMimeType(text, valid)
    case _ => Err(InvalidSqlType)
  }

  /** A stored MIME type that the validator accepts reads back unchanged. */
  lemma MimeTypeSqlRoundTrip(m: MimeType, valid: string -> bool)
    requires valid(m.text)
    ensures MimeTypeFromSql(MimeTypeToSql(m), valid) == Ok(m)
  {
  }
}
