/** The exception hierarchy of errors.py as two sum types, one per base class, and the
    message each transfer error's constructor builds. */
module Errors {
  import opened Wrappers
  import opened Text

  /** `FilenameExtractionError` and its two subclasses; each carries the URL it was raised for. */
  datatype FilenameExtractionError =
    | NoPathInURLError(url: string)
    | DirectoryPathError(url: string)
  {
    /** The message `DownloadRequest` raises each kind with: the reason, then the URL. */
    function Message(): (m: string)
      ensures |m| > |url| && m[|m| - |url|..] == url
    {
      var reason := if NoPathInURLError? then "no path information" else "path points to a directory";
      var m := "Cannot extract filename from URL: " + reason + ". URL: " + url;
      assert m == ("Cannot extract filename from URL: " + reason + ". URL: ") + url;
      m
    }
  }

  /** `DownloadError` and its four subclasses with the attributes their constructors store;
      `originalError` is `str(original_error)`. */
  datatype DownloadError =
    | HTTPError(url: string, statusCode: int)
    | DownloadTimeoutError(url: string, timeout: int)
    | NetworkError(url: string, originalError: string)
    | FileWriteError(filename: string, originalError: string)
  {
    /** `str(error)`: the message each subclass passes to `Exception.__init__`. */
    function Message(): (m: string)
      ensures |m| > 0
    {
      match this
      case HTTPError(url, code) => HttpErrorMessage(url, code)
      case DownloadTimeoutError(url, timeout) => TimeoutErrorMessage(url, timeout)
      case NetworkError(url, original) => NetworkErrorMessage(url, original)
      case FileWriteError(filename, original) => FileWriteErrorMessage(filename, original)
    }
  }

  const HttpPrefix: string := "HTTP "
  const HttpInfix: string := " error while downloading from "

  /** `HTTPError.__init__`: names the status code and the URL. */
  function HttpErrorMessage(url: string, code: int): (m: string)
    ensures |m| > 0 && IsInfix(url, m) && IsInfix(IntToString(code), m)
  {
    InfixOfFour(HttpPrefix, IntToString(code), HttpInfix, url);
    HttpPrefix + IntToString(code) + HttpInfix + url
  }

  /** `DownloadTimeoutError.__init__`: names the URL and the timeout in seconds. */
  function TimeoutErrorMessage(url: string, timeout: int): (m: string)
    ensures |m| > 0 && IsInfix(url, m) && IsInfix(IntToString(timeout), m)
  {
    InfixOfFive("Download from ", url, " timed out after ", IntToString(timeout), " seconds");
    "Download from " + url + " timed out after " + IntToString(timeout) + " seconds"
  }

  /** `NetworkError.__init__`: names the URL and the text of the original exception. */
  function NetworkErrorMessage(url: string, original: string): (m: string)
    ensures |m| > 0 && IsInfix(url, m) && IsInfix(original, m)
  {
    InfixOfFour("Network error downloading from ", url, ": ", original);
    "Network error downloading from " + url + ": " + original
  }

  /** `FileWriteError.__init__`: names the file and the text of the original exception. */
  function FileWriteErrorMessage(filename: string, original: string): (m: string)
    ensures |m| > 0 && IsInfix(filename, m) && IsInfix(original, m)
  {
    InfixOfFour("Failed to write file ", filename, ": ", original);
    "Failed to write file " + filename + ": " + original
  }

  /** Reads an `HTTPError` message back into its status code and URL; `None` for any text
      that is not such a message. */
  function ParseHttpErrorMessage(m: string): Option<(int, string)> {
    if |m| < |HttpPrefix| || m[..|HttpPrefix|] != HttpPrefix then None
    else
      var rest := m[|HttpPrefix|..];
      var i := IndexOf(rest, ' ');
      var code, tail := rest[..i], rest[i..];
      if !IsIntString(code) || |tail| < |HttpInfix| || tail[..|HttpInfix|] != HttpInfix then None
      else Some((ParseInt(code), tail[|HttpInfix|..]))
  }

  /** An `HTTPError` message determines the status code and the URL it was built from. */
  lemma HttpErrorMessageRoundTrip(url: string, code: int)
    ensures ParseHttpErrorMessage(HTTPError(url, code).Message()) == Some((code, url))
  {
    var c := IntToString(code);
    var m := HttpErrorMessage(url, code);
    Associative(HttpPrefix, c + HttpInfix, url);
    Associative(HttpPrefix, c, HttpInfix);
    Associative(c, HttpInfix, url);
    assert m == HttpPrefix + (c + (HttpInfix + url));
    DropPrefix(HttpPrefix, c + (HttpInfix + url));
    var rest := m[|HttpPrefix|..];
    IndexOfPrefix(c, HttpInfix + url, ' ');
    assert (HttpInfix + url)[0] == ' ';
    assert IndexOf(rest, ' ') == |c|;
    DropPrefix(c, HttpInfix + url);
    DropPrefix(HttpInfix, url);
    IntToStringRoundTrip(code);
  }

  /** A text whose first character is not the one `HttpPrefix` starts with is no `HTTPError` message. */
  lemma NotHttpWhenHeadDiffers(head: string, tail: string)
    requires |head| > 0 && head[0] != 'H'
    ensures ParseHttpErrorMessage(head + tail).None?
  {
    assert (head + tail)[0] == head[0];
  }

  /** The other three transfer errors never read as an `HTTPError` message, so a failure's
      text tells an HTTP status failure apart from every other kind. */
  lemma OnlyHttpErrorsParseAsHttp(e: DownloadError)
    ensures ParseHttpErrorMessage(e.Message()).Some? <==> e.HTTPError?
  {
    match e
    case HTTPError(url, code) =>
      HttpErrorMessageRoundTrip(url, code);
    case DownloadTimeoutError(url, timeout) =>
      var t := IntToString(timeout);
      Associative("Download from " + url + " timed out after ", t, " seconds");
      Associative("Download from " + url, " timed out after ", t + " seconds");
      Associative("Download from ", url, " timed out after " + (t + " seconds"));
      NotHttpWhenHeadDiffers("Download from ", url + (" timed out after " + (t + " seconds")));
    case NetworkError(url, original) =>
      Associative("Network error downloading from " + url, ": ", original);
      Associative("Network error downloading from ", url, ": " + original);
      NotHttpWhenHeadDiffers("Network error downloading from ", url + (": " + original));
    case FileWriteError(filename, original) =>
      Associative("Failed to write file " + filename, ": ", original);
      Associative("Failed to write file ", filename, ": " + original);
      NotHttpWhenHeadDiffers("Failed to write file ", filename + (": " + original));
  }
}
