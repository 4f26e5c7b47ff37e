/** The JSON replies the handlers send, with their HTTP status codes. */
module Replies {

  datatype Reply =
    | Loaded(table: string)
    | InvalidFormat
    | RecordLimit
    | UnknownTable(table: string)
    | CommitFailed(detail: string)
    | NoData(table: string)
    | BackupCreated(table: string)
    | BackupMissing(table: string)
    | Restored(table: string)
    | Failed(detail: string)
    | InternalError
  {
    function Status(): nat
    {
      match this
      case Loaded(_) => 200
      case BackupCreated(_) => 200
      case Restored(_) => 200
      case InvalidFormat => 400
      case RecordLimit => 400
      case UnknownTable(_) => 400
      case NoData(_) => 404
      case BackupMissing(_) => 404
      case CommitFailed(_) => 500
      case Failed(_) => 500
      case InternalError => 500
    }

    /** The reply's JSON key: `message` on success, `error` otherwise. */
    function Key(): string
    {
      if Status() == 200 then "message" else "error"
    }

    function Text(): string
    {
      match this
      case Loaded(t) => "Data successfully loaded into " + t
      case InvalidFormat => "Invalid data format. Expected a list or a single dictionary."
      case RecordLimit => "Record limit exceeded. Maximum allowed is 1000 records."
      case UnknownTable(t) => "Unknown table: " + t
      case CommitFailed(e) => "Failed to commit transaction: " + e
      case NoData(t) => "No data found in table " + t
      case BackupCreated(t) => "Backup for table " + t + " created successfully in Avro format."
      case BackupMissing(t) => "Backup file for table " + t + " not found"
      case Restored(t) => "Data successfully restored into " + t
      case Failed(e) => "An error occurred: " + e
      case InternalError => "Internal Server Error"
    }
  }
}
