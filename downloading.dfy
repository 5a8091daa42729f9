/** `Downloader` of downloader.py: validation of its settings, the dry-run preview, and the
    outcome of each download once the HTTP exchange and the file write are given as values. */
module Downloading {
  import opened Wrappers
  import opened Text
  import opened Config
  import opened Errors
  import opened Results
  import opened Requests
  import opened Uri

  /** The `timeout` argument: a recipe name or a number of seconds. */
  datatype TimeoutArg = RecipeName(name: string) | Seconds(seconds: int)

  /** `', '.join(names)`. */
  function JoinNames(names: seq<string>): (s: string)
    ensures forall i :: 0 <= i < |names| ==> IsInfix(names[i], s)
  {
    if names == [] then []
    else if |names| == 1 then
      InfixOfConcat([], names[0], []);
      assert [] + names[0] + [] == names[0];
      names[0]
    else
      var rest := JoinNames(names[1..]);
      InfixOfThree(names[0], ", ", rest);
      assert forall i :: 1 <= i < |names| ==> IsInfix(names[i], rest) by {
        assert forall i :: 1 <= i < |names| ==> names[i] == names[1..][i - 1];
      }
      forall i | 1 <= i < |names|
        ensures IsInfix(names[i], names[0] + ", " + rest)
      {
        InfixExtendLeft(names[i], names[0] + ", ", rest);
      }
      names[0] + ", " + rest
  }

  const InvalidRecipePrefix: string := "Invalid timeout recipe: "

  /** The error for an unknown recipe name: it opens with `Invalid timeout recipe: `, names the
      rejected name and lists the names that are available. */
  function InvalidRecipeMessage(name: string): (m: string)
    ensures |m| >= |InvalidRecipePrefix| && m[..|InvalidRecipePrefix|] == InvalidRecipePrefix
    ensures IsInfix(name, m) && forall i :: 0 <= i < |RecipeNames()| ==> IsInfix(RecipeNames()[i], m)
  {
    var available := JoinNames(RecipeNames());
    var sep := ". Available recipes: ";
    InfixOfFour(InvalidRecipePrefix, name, sep, available);
    forall i | 0 <= i < |RecipeNames()|
      ensures IsInfix(RecipeNames()[i], InvalidRecipePrefix + name + sep + available)
    {
      InfixExtendLeft(RecipeNames()[i], InvalidRecipePrefix + name + sep, available);
    }
    Associative(InvalidRecipePrefix, name, sep);
    Associative(InvalidRecipePrefix, name + sep, available);
    DropPrefix(InvalidRecipePrefix, name + sep + available);
    InvalidRecipePrefix + name + sep + available
  }

  const MustBePositive: string := " must be a positive integer"

  /** The error for a setting that must be a positive integer: it says `<setting> must be a
      positive integer` and names the value given. */
  function NotPositiveMessage(setting: string, value: int): (m: string)
    ensures IsInfix(setting + MustBePositive, m) && IsInfix(IntToString(value), m)
  {
    InfixOfThree(setting + MustBePositive, ", got ", IntToString(value));
    setting + MustBePositive + ", got " + IntToString(value)
  }

  /** The timeout in seconds an argument stands for: a recipe name is looked up in the recipe
      table, a number must be positive. */
  function ResolveTimeout(t: TimeoutArg): (r: Result<int, string>)
    ensures r.Ok? ==> r.value > 0
    ensures t.RecipeName? ==> (r.Ok? <==> t.name in RecipeNames())
    ensures t.RecipeName? && r.Ok? ==> LookupRecipe(t.name) == Some(DownloadConfig(r.value, LookupRecipe(t.name).value.description))
    ensures t.RecipeName? && r.Err? ==> r.error == InvalidRecipeMessage(t.name)
    ensures t.Seconds? ==> (r.Ok? <==> t.seconds > 0)
    ensures t.Seconds? && r.Ok? ==> r.value == t.seconds
    ensures t.Seconds? && r.Err? ==>
      IsInfix("timeout" + MustBePositive, r.error) && IsInfix(IntToString(t.seconds), r.error)
  {
    match t
    case RecipeName(name) =>
      (match LookupRecipe(name)
       case Some(config) => Ok(config.timeout)
       case None => Err(InvalidRecipeMessage(name)))
    case Seconds(n) =>
      if n <= 0 then Err(NotPositiveMessage("timeout", n)) else Ok(n)
  }

  /** `max_concurrent` must be positive and is kept as given. */
  function ValidateMaxConcurrent(m: int): (r: Result<int, string>)
    ensures r.Ok? <==> m > 0
    ensures r.Ok? ==> r.value == m
    ensures r.Err? ==>
      IsInfix("max_concurrent" + MustBePositive, r.error) && IsInfix(IntToString(m), r.error)
  {
    if m <= 0 then Err(NotPositiveMessage("max_concurrent", m)) else Ok(m)
  }

  /** Each recipe name resolves to the timeout of its table entry. */
  lemma RecipeTimeouts()
    ensures ResolveTimeout(RecipeName("FOR_LARGE_FILES")) == Ok(300)
    ensures ResolveTimeout(RecipeName("BALANCED")) == Ok(60)
    ensures ResolveTimeout(RecipeName("FOR_SMALL_FILES")) == Ok(15)
  {
    RecipeTable();
  }

  /** The reason a preview is invalid. */
  const PathSeparatorReason: string := "Filename cannot contain path separators"

  /** The check `download_dry` applies. A non-empty filename that passes it, and is not `.`, is
      its own path name: a single path segment. That segment may still be `..`. */
  predicate HasPathSeparator(filename: string)
    ensures !HasPathSeparator(filename) && filename != "" && filename != "." ==> PathName(filename) == filename
  {
    '/' in filename || '\\' in filename
  }

  /** The preview of one request: invalid exactly when its filename holds a path separator. */
  function Preview(request: DownloadRequest): (p: PreviewResult)
    ensures p.url == request.url && p.filename == request.filename
    ensures p.status == Invalid <==> HasPathSeparator(request.filename)
    ensures p.status == Invalid ==> p.reason == Some(PathSeparatorReason)
    ensures p.status == Valid ==> p.reason == None
  {
    if HasPathSeparator(request.filename) then
      PreviewResult(request.url, request.filename, Invalid, Some(PathSeparatorReason))
    else
      PreviewResult(request.url, request.filename, Valid)
  }

  /** The check looks only for separators, so `..`, which names the parent of the output
      directory, passes the dry run as a valid filename. */
  lemma DryRunAcceptsParentDirectory(url: string)
    ensures !HasPathSeparator("..") && PathName("..") == ".."
    ensures Preview(DownloadRequest(url, "..")).status == Valid
    ensures Preview(DownloadRequest(url, "..")).reason == None
  {
  }

  /** What the transfer raised, named by the handler in `_download_single` that catches it. */
  datatype Raised =
    | TimeoutRaised
    | ClientErrorRaised(message: string)
    | IOErrorRaised(message: string)
    | OtherRaised(message: string)

  /** How the GET request ended: a response with a status code, or an exception. */
  datatype Response = Responded(status: int) | RequestRaised(raised: Raised)

  /** How reading the body and writing the file ended, when it is attempted. */
  datatype Transfer = Written | TransferRaised(raised: Raised)

  /** Everything the network and the file system contribute to one download. */
  datatype Exchange = Exchange(response: Response, transfer: Transfer)

  /** `out_dir / filename`, read as the two joined by a `/`. */
  function JoinPath(dir: string, filename: string): (p: string)
    ensures |p| > |dir| && p[..|dir|] == dir && p[|dir| + 1..] == filename
  {
    var p := dir + "/" + filename;
    assert p == dir + ("/" + filename);
    p
  }

  /** The text of a failure caught by one of the handlers. */
  function FailureText(request: DownloadRequest, timeout: int, raised: Raised): (m: string)
    ensures |m| > 0
    ensures raised.TimeoutRaised? ==> m == DownloadTimeoutError(request.url, timeout).Message()
    ensures raised.ClientErrorRaised? ==> m == NetworkError(request.url, raised.message).Message()
    ensures raised.IOErrorRaised? ==> m == FileWriteError(request.filename, raised.message).Message()
    ensures raised.OtherRaised? ==> m == "Unexpected error: " + raised.message && IsInfix(raised.message, m)
  {
    match raised
    case TimeoutRaised => DownloadTimeoutError(request.url, timeout).Message()
    case ClientErrorRaised(message) => NetworkError(request.url, message).Message()
    case IOErrorRaised(message) => FileWriteError(request.filename, message).Message()
    case OtherRaised(message) =>
      InfixOfConcat("Unexpected error: ", message, []);
      assert "Unexpected error: " + message + [] == "Unexpected error: " + message;
      "Unexpected error: " + message
  }

  class Downloader {
    var outDir: string
    var timeout: int
    var maxConcurrent: int

    /** The settings `__init__` leaves behind once its checks have passed. */
    predicate Valid()
      reads this
    {
      timeout > 0 && maxConcurrent > 0
    }

    constructor (outDir: string, timeout: int, maxConcurrent: int)
      requires timeout > 0 && maxConcurrent > 0
      ensures this.outDir == outDir && this.timeout == timeout && this.maxConcurrent == maxConcurrent
      ensures Valid()
    {
      this.outDir := outDir;
      this.timeout := timeout;
      this.maxConcurrent := maxConcurrent;
    }

    /** `Downloader(out_dir, timeout="BALANCED", max_concurrent=5)`: the timeout is resolved
        and checked first, then `max_concurrent`; the first failing check is the error. */
    static method Create(outDir: string, timeout: TimeoutArg := RecipeName("BALANCED"), maxConcurrent: int := 5)
      returns (r: Result<Downloader, string>)
      ensures r.Ok? <==> ResolveTimeout(timeout).Ok? && ValidateMaxConcurrent(maxConcurrent).Ok?
      ensures r.Ok? ==> (fresh(r.value) && r.value.Valid() && r.value.outDir == outDir
        && r.value.timeout == ResolveTimeout(timeout).value && r.value.maxConcurrent == maxConcurrent)
      ensures r.Err? && ResolveTimeout(timeout).Err? ==> r.error == ResolveTimeout(timeout).error
      ensures r.Err? && ResolveTimeout(timeout).Ok? ==> r.error == ValidateMaxConcurrent(maxConcurrent).error
    {
      var seconds := ResolveTimeout(timeout);
      if seconds.Err? {
        return Err(seconds.error);
      }
      var limit := ValidateMaxConcurrent(maxConcurrent);
      if limit.Err? {
        return Err(limit.error);
      }
      var d := new Downloader(outDir, seconds.value, limit.value);
      r := Ok(d);
    }

    /** `download_dry`: one preview per request, in request order. */
    method DownloadDry(requests: seq<DownloadRequest>) returns (previews: seq<PreviewResult>)
      ensures |previews| == |requests|
      ensures forall i :: 0 <= i < |requests| ==> previews[i] == Preview(requests[i])
    {
      previews := [];
      for k := 0 to |requests|
        invariant |previews| == k
        invariant forall i :: 0 <= i < k ==> previews[i] == Preview(requests[i])
      {
        var request := requests[k];
        if '/' in request.filename || '\\' in request.filename {
          previews := previews + [PreviewResult(request.url, request.filename, Invalid, Some(PathSeparatorReason))];
        } else {
          previews := previews + [PreviewResult(request.url, request.filename, PreviewStatus.Valid)];
        }
      }
    }

    /** `_download_single`: status 200 followed by a completed write is the only success; any
        other status is an `HTTPError` failure and nothing is written; an exception becomes the
        failure its handler builds. */
    function DownloadSingle(request: DownloadRequest, exchange: Exchange): (r: DownloadResult)
      reads this
      ensures r.WellFormed() && r.url == request.url && r.filename == request.filename
      ensures r.DownloadSuccess? <==> exchange == Exchange(Responded(200), Written)
      ensures r.DownloadSuccess? ==> r.filePath == JoinPath(outDir, request.filename)
      ensures exchange.response.Responded? && exchange.response.status != 200 ==>
        r.error == HTTPError(request.url, exchange.response.status).Message()
      ensures exchange.response.RequestRaised? ==>
        r.error == FailureText(request, timeout, exchange.response.raised)
      ensures exchange.response == Responded(200) && exchange.transfer.TransferRaised? ==>
        r.error == FailureText(request, timeout, exchange.transfer.raised)
    {
      match exchange.response
      case RequestRaised(raised) =>
        DownloadFailure(request.url, request.filename, FailureText(request, timeout, raised))
      case Responded(status) =>
        if status != 200 then
          DownloadFailure(request.url, request.filename, HTTPError(request.url, status).Message())
        else
          match exchange.transfer
          case Written =>
            DownloadSuccess(request.url, request.filename, JoinPath(outDir, request.filename))
          case TransferRaised(raised) =>
            DownloadFailure(request.url, request.filename, FailureText(request, timeout, raised))
    }

    /** `download`: one result per request, in request order, as `asyncio.gather` returns them. */
    function Download(requests: seq<DownloadRequest>, exchanges: seq<Exchange>): (results: seq<DownloadResult>)
      reads this
      requires |exchanges| == |requests|
      ensures |results| == |requests|
      ensures forall i :: 0 <= i < |requests| ==> results[i] == DownloadSingle(requests[i], exchanges[i])
    {
      if requests == [] then []
      else [DownloadSingle(requests[0], exchanges[0])] + Download(requests[1..], exchanges[1..])
    }
  }

  /** A non-200 status is reported as an `HTTPError` whose text gives back the status and the
      URL, and the write outcome plays no part. */
  lemma HttpFailureReportsStatus(d: Downloader, request: DownloadRequest, status: int, transfer: Transfer)
    requires status != 200
    ensures d.DownloadSingle(request, Exchange(Responded(status), transfer)).DownloadFailure?
    ensures ParseHttpErrorMessage(d.DownloadSingle(request, Exchange(Responded(status), transfer)).error)
      == Some((status, request.url))
    ensures d.DownloadSingle(request, Exchange(Responded(status), transfer))
      == d.DownloadSingle(request, Exchange(Responded(status), Written))
  {
    HttpErrorMessageRoundTrip(request.url, status);
  }

  /** A failure's text reads as an `HTTPError` exactly when the server answered with a status
      other than 200. */
  lemma OnlyStatusFailuresReadAsHttp(d: Downloader, request: DownloadRequest, exchange: Exchange)
    ensures var r := d.DownloadSingle(request, exchange);
      r.DownloadFailure? ==>
      (ParseHttpErrorMessage(r.error).Some? <==> exchange.response.Responded? && exchange.response.status != 200)
  {
    var r := d.DownloadSingle(request, exchange);
    if r.DownloadFailure? {
      var raised :=
        if exchange.response.RequestRaised? then exchange.response.raised
        else if exchange.transfer.TransferRaised? then exchange.transfer.raised
        else TimeoutRaised;
      match exchange.response
      case Responded(status) =>
        if status != 200 {
          OnlyHttpErrorsParseAsHttp(HTTPError(request.url, status));
        } else {
          FailureIsNotHttp(request, d.timeout, raised);
        }
      case RequestRaised(_) =>
        FailureIsNotHttp(request, d.timeout, raised);
    }
  }

  /** No handler's failure text reads as an `HTTPError` message. */
  lemma FailureIsNotHttp(request: DownloadRequest, timeout: int, raised: Raised)
    ensures ParseHttpErrorMessage(FailureText(request, timeout, raised)).None?
  {
    match raised
    case TimeoutRaised => OnlyHttpErrorsParseAsHttp(DownloadTimeoutError(request.url, timeout));
    case ClientErrorRaised(m) => OnlyHttpErrorsParseAsHttp(NetworkError(request.url, m));
    case IOErrorRaised(m) => OnlyHttpErrorsParseAsHttp(FileWriteError(request.filename, m));
    case OtherRaised(m) => NotHttpWhenHeadDiffers("Unexpected error: ", m);
  }

  /** A timeout, whether on the request or on the transfer, names the URL and the downloader's
      timeout in seconds. */
  lemma TimeoutFailureNamesTimeout(d: Downloader, request: DownloadRequest, exchange: Exchange)
    requires exchange.response == RequestRaised(TimeoutRaised)
      || exchange == Exchange(Responded(200), TransferRaised(TimeoutRaised))
    ensures var r := d.DownloadSingle(request, exchange);
      r.DownloadFailure? && IsInfix(request.url, r.error) && IsInfix(IntToString(d.timeout), r.error)
  {
  }

  function CountSuccesses(results: seq<DownloadResult>): (n: nat)
    ensures n <= |results|
  {
    if results == [] then 0
    else (if results[0].DownloadSuccess? then 1 else 0) + CountSuccesses(results[1..])
  }

  function CountCompleted(exchanges: seq<Exchange>): (n: nat)
    ensures n <= |exchanges|
  {
    if exchanges == [] then 0
    else (if exchanges[0] == Exchange(Responded(200), Written) then 1 else 0) + CountCompleted(exchanges[1..])
  }

  /** As many downloads succeed as there are exchanges that answered 200 and were written. */
  lemma {:induction false} SuccessesAreCompletedExchanges(d: Downloader, requests: seq<DownloadRequest>, exchanges: seq<Exchange>)
    requires |exchanges| == |requests|
    ensures CountSuccesses(d.Download(requests, exchanges)) == CountCompleted(exchanges)
    decreases |requests|
  {
    if requests != [] {
      var results := d.Download(requests, exchanges);
      assert results[1..] == d.Download(requests[1..], exchanges[1..]);
      SuccessesAreCompletedExchanges(d, requests[1..], exchanges[1..]);
    }
  }

  /** Downloading no requests yields no results. */
  lemma EmptyDownload(d: Downloader)
    ensures d.Download([], []) == []
  {
  }
}
