/** Progress and error messages sent from the encoder to its user interface. */
module Report {
  import opened Util

  datatype ReportType =
    | RetrievingFiles
    | FileRetrievalTime
    | FileVerbose
    | ProcessStarted
    | EncodingProgress
    | PipelineError
    /** Sent once per directory entry while files are retrieved (used by file_retrieval.cpp). */
    | RetrievingFilesProgress

  datatype Report = Report(kind: ReportType, text: string, amount: SizeT)
  {
    /** The getters return what was stored. */
    function Type(): ReportType { kind }
    function Data(): string { text }
    function Value(): SizeT { amount }
  }

  /** report(type) */
  function OfType(t: ReportType): (r: Report)
    ensures r.Type() == t && r.Data() == [] && r.Value() == 0
  {
    Report(t, [], 0)
  }

  /** report(type, data) */
  function WithData(t: ReportType, data: string): (r: Report)
    ensures r.Type() == t && r.Data() == data && r.Value() == 0
  {
    Report(t, data, 0)
  }

  /** report(type, value) */
  function WithValue(t: ReportType, value: SizeT): (r: Report)
    ensures r.Type() == t && r.Data() == [] && r.Value() == value
  {
    Report(t, [], value)
  }
}
