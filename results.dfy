/** The result values of download_result.py: the outcome of one download, which is exactly one
    of a success or a failure, and the outcome of previewing one request. */
module Results {
  import opened Wrappers

  /** `DownloadResultType`, the union of `DownloadSuccess` and `DownloadFailure`. Both carry the
      request's URL and filename; a success adds where the file was written, a failure why it
      failed. */
  datatype DownloadResult =
    | DownloadSuccess(url: string, filename: string, filePath: string)
    | DownloadFailure(url: string, filename: string, error: string)
  {
    /** The `status` tag each variant fixes. */
    function Status(): (s: string)
      ensures s == "success" || s == "failed"
      ensures s == "success" <==> DownloadSuccess?
    {
      if DownloadSuccess? then "success" else "failed"
    }

    /** What `__post_init__` insists on: a success names a file path, a failure an error. */
    predicate WellFormed() {
      match this
      case DownloadSuccess(_, _, filePath) => filePath != []
      case DownloadFailure(_, _, error) => error != []
    }
  }

  const MissingFilePath: string := "file_path must be provided for DownloadSuccess"
  const MissingError: string := "error must be provided for DownloadFailure"

  /** `DownloadSuccess(...)`: the construction fails with `ValueError` on an empty file path. */
  function NewDownloadSuccess(url: string, filename: string, filePath: string): (r: Result<DownloadResult, string>)
    ensures r.Ok? <==> filePath != []
    ensures r.Ok? ==> r.value.DownloadSuccess? && r.value.WellFormed() && r.value.Status() == "success"
    ensures r.Ok? ==> r.value.url == url && r.value.filename == filename && r.value.filePath == filePath
    ensures r.Err? ==> r.error == MissingFilePath
  {
    if filePath == [] then Err(MissingFilePath) else Ok(DownloadSuccess(url, filename, filePath))
  }

  /** `DownloadFailure(...)`: the construction fails with `ValueError` on an empty error text. */
  function NewDownloadFailure(url: string, filename: string, error: string): (r: Result<DownloadResult, string>)
    ensures r.Ok? <==> error != []
    ensures r.Ok? ==> r.value.DownloadFailure? && r.value.WellFormed() && r.value.Status() == "failed"
    ensures r.Ok? ==> r.value.url == url && r.value.filename == filename && r.value.error == error
    ensures r.Err? ==> r.error == MissingError
  {
    if error == [] then Err(MissingError) else Ok(DownloadFailure(url, filename, error))
  }

  /** Every result the two checked constructors can build is well formed, and every well-formed
      result is one they build. */
  lemma WellFormedIsConstructible(d: DownloadResult)
    ensures d.WellFormed() <==>
      (d.DownloadSuccess? && NewDownloadSuccess(d.url, d.filename, d.filePath) == Ok(d)) ||
      (d.DownloadFailure? && NewDownloadFailure(d.url, d.filename, d.error) == Ok(d))
  {
  }

  /** The `status` of a preview. */
  datatype PreviewStatus = Valid | Invalid {
    function Tag(): (s: string)
      ensures s == "valid" || s == "invalid"
      ensures s == "valid" <==> this == Valid
    {
      if Valid? then "valid" else "invalid"
    }
  }

  /** `PreviewResult`; `reason` is `None` unless it is given. */
  datatype PreviewResult = PreviewResult(
    url: string,
    filename: string,
    status: PreviewStatus,
    reason: Option<string> := None)

  /** A preview built without a reason has none. */
  lemma PreviewReasonDefaultsToNone(url: string, filename: string, status: PreviewStatus)
    ensures PreviewResult(url, filename, status).reason == None
  {
  }
}
