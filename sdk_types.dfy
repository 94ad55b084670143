/** Values shared by the SDK selection workflow: the rows the table shows,
    the outcome of a download and the errors the dialog reports. */
module SdkTypes {

  /** An optional value; `None` stands for Java's `null` and for an empty
      `scala.Option`. */
  datatype Option<T> = None | Some(value: T)

  /** One row of the SDK table: where the SDK comes from ("Ivy" for a
      downloaded one), its version, and an opaque descriptor that the rest
      of the IDE uses to build the library. Column 0 shows `source`,
      column 1 shows `version`. */
  datatype SdkChoice<D> = SdkChoice(source: string, version: string, sdk: D)

  /** The terminal outcome of one download run under the progress
      context: success, or a failure carrying the exception's message. */
  datatype Outcome = Success | Failure(message: string)

  /** The error dialogs the workflow can show, as values. */
  datatype ErrorReport =
    | NoVersionsAvailable
    | DownloadFailed(version: string, message: string)

  /** The source tag of a row that a download produced. */
  const IVY: string := "Ivy"
}
