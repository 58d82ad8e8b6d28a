/** The three image formats a photo record may carry (the `file_format`
    column of backend/database.py). */
module Formats {

  datatype Format = PNG | JPEG | HEIC

  /** The upper-case name stored in the metadata record. */
  function Name(f: Format): string {
    match f
    case PNG => "PNG"
    case JPEG => "JPEG"
    case HEIC => "HEIC"
  }
}
