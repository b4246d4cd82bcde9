/**
 * The record shape shared by the store and the pages (src/types/index.ts).
 * Timestamps are milliseconds since the epoch; the source keeps them as
 * ISO-8601 strings and only ever compares their millisecond values.
 */
module Types {

  datatype Option<+T> = None | Some(value: T)

  /** One uploaded lab report. `fileData` is the data URL produced by the
      browser's file reader, kept as an opaque string. */
  datatype Report = Report(
    id: string,
    accessCode: string,
    patientName: string,
    reportType: string,
    reportDate: string,
    remarks: string,
    fileName: string,
    fileData: string,
    uploadDate: int,
    expiresAt: int)

  /** The lifetime of an access code: 48 hours, in milliseconds. */
  const ExpiryWindowMs: int := 48 * 60 * 60 * 1000
}
