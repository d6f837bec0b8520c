/** The external value shapes the codecs read and write: a SQLite column value
    (rusqlite's `ValueRef`) and a JSON value as serde presents it to a
    `deserialize_str` visitor. Only the distinction "text or not text"
    matters to the core. */
module Encodings {

  newtype byte = x: int | 0 <= x < 256

  datatype SqlValue =
    | SqlNull
    | SqlInteger(int)
    | SqlText(text: string)
    | SqlBlob(seq<byte>)

  datatype JsonValue =
    | JsonNull
    | JsonBool(bool)
    | JsonNumber(int)
    | JsonString(text: string)

}
