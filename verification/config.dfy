/** The configuration constants of the backend that the ingestion core reads
    (backend/config.py). */
module Config {

  /** Lower-case extensions, without the dot, that an upload may carry. */
  const AllowedExtensions: set<string> := {"png", "jpg", "jpeg", "heic", "heif"}

  /** Widest compressed rendition, in pixels. */
  const MaxWidth: nat := 1920

  const JpegQuality: nat := 85

  const PngCompressLevel: nat := 6

  const OriginalsFolder: string := "uploads/originals"

  const CompressedFolder: string := "uploads/compressed"
}
