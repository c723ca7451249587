/** The values the upload pipeline moves around. */
module Files {

  /** One `archive.file(source, { name })` call: the file to read and its name inside the zip. */
  datatype Entry = Entry(source: string, name: string)

  /**
   * The content of a file in the workspace. Uploaded and encoded bytes are
   * opaque; the zip file records the entries it was given, its zlib level and
   * whether the archiver finished writing it.
   */
  datatype Content =
    | Bytes(id: nat)
    | ZipFile(entries: seq<Entry>, level: nat, complete: bool)

  /** A file part as multer hands it over: its temporary path, the client's file name and its bytes. */
  datatype UploadedFile = UploadedFile(path: string, originalName: string, content: Content)
}
