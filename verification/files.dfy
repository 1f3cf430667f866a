/** The browser `File` values the upload components pass around. */
module Files {

  /** A selected file: its display name, byte size and declared MIME type (`File.type`). */
  datatype File = File(name: string, size: nat, mimeType: string)
}
