/** `DownloadRequest` of download_request.py: a URL and the name to save it under, where a
    missing name is taken from the last segment of the URL's path and percent-decoded. */
module Requests {
  import opened Wrappers
  import opened Uri
  import opened Errors

  /** A request once `__post_init__` has run: the filename is always set. */
  datatype DownloadRequest = DownloadRequest(url: string, filename: string)

  /** The path component of `urlparse(url)`. */
  function UrlPath(url: string): (path: string)
    ensures '?' !in path && '#' !in path
  {
    SplitUrl(url).path
  }

  predicate EndsWithSlash(path: string) {
    path != [] && path[|path| - 1] == '/'
  }

  /** `_can_extract_filename`: the path is non-empty, does not end in `/`, and has a name. */
  predicate CanExtractFilename(url: string)
    ensures CanExtractFilename(url) ==>
      var name := PathName(UrlPath(url)); name != [] && '/' !in name && name != "."
  {
    var path := UrlPath(url);
    path != [] && !EndsWithSlash(path) && PathName(path) != []
  }

  /** `_extract_filename_from_url` as written: when extraction is impossible only the empty path
      and the trailing `/` raise, and any other such path falls through to decoding an empty
      name. */
  function ExtractFilenameAsWritten(url: string): (r: Result<string, FilenameExtractionError>)
    ensures r.Err? <==> UrlPath(url) == [] || EndsWithSlash(UrlPath(url))
    ensures r.Err? ==> r.error.url == url && (r.error.NoPathInURLError? <==> UrlPath(url) == [])
    ensures CanExtractFilename(url) ==> r.Ok? && r.value == PercentDecode(PathName(UrlPath(url))) && r.value != []
    ensures r.Ok? && !CanExtractFilename(url) ==> r.value == []
  {
    var path := UrlPath(url);
    if !CanExtractFilename(url) && path == [] then Err(NoPathInURLError(url))
    else if !CanExtractFilename(url) && EndsWithSlash(path) then Err(DirectoryPathError(url))
    else Ok(PercentDecode(PathName(path)))
  }

  /** Filename extraction as its documentation states it: a name comes back exactly when
      `_can_extract_filename` holds, and a path with no name is reported as a directory. */
  function ExtractFilename(url: string): (r: Result<string, FilenameExtractionError>)
    ensures r.Ok? <==> CanExtractFilename(url)
    ensures r.Ok? ==> r.value == PercentDecode(PathName(UrlPath(url))) && r.value != []
    ensures r.Err? ==> r.error.url == url && (r.error.NoPathInURLError? <==> UrlPath(url) == [])
  {
    var path := UrlPath(url);
    if path == [] then Err(NoPathInURLError(url))
    else if EndsWithSlash(path) || PathName(path) == [] then Err(DirectoryPathError(url))
    else Ok(PercentDecode(PathName(path)))
  }

  /** The two extractions differ only on a path that is non-empty, has no trailing `/` and
      still has no name; there the code as written yields the empty filename. */
  lemma AsWrittenDiffersOnlyOnNamelessPaths(url: string)
    ensures ExtractFilenameAsWritten(url) != ExtractFilename(url) <==>
      UrlPath(url) != [] && !EndsWithSlash(UrlPath(url)) && PathName(UrlPath(url)) == []
    ensures ExtractFilenameAsWritten(url) != ExtractFilename(url) ==>
      ExtractFilenameAsWritten(url) == Ok([]) && ExtractFilename(url) == Err(DirectoryPathError(url))
  {
  }

  /** `DownloadRequest(url, filename)`: a given filename is kept as it is, and only a missing one
      is extracted from the URL as `_extract_filename_from_url` does it, which raises only for an
      empty path or a trailing `/`. */
  function NewDownloadRequest(url: string, filename: Option<string>): (r: Result<DownloadRequest, FilenameExtractionError>)
    ensures filename.Some? ==> r == Ok(DownloadRequest(url, filename.value))
    ensures filename.None? ==> (r.Ok? <==> UrlPath(url) != [] && !EndsWithSlash(UrlPath(url)))
    ensures filename.None? && r.Ok? ==>
      r.value.url == url && r.value.filename == PercentDecode(PathName(UrlPath(url)))
    ensures filename.None? && CanExtractFilename(url) ==> r.Ok? && r.value.filename != []
    ensures r.Err? ==> r.error.url == url && (r.error.NoPathInURLError? <==> UrlPath(url) == [])
  {
    match filename
    case Some(name) => Ok(DownloadRequest(url, name))
    case None =>
      match ExtractFilenameAsWritten(url)
      case Ok(name) => Ok(DownloadRequest(url, name))
      case Err(e) => Err(e)
  }

  /** `DownloadRequest(url, filename)` built on the corrected extraction: a request made without
      a filename always gets a non-empty one, and every URL without a name raises. */
  function NewDownloadRequestCorrected(url: string, filename: Option<string>): (r: Result<DownloadRequest, FilenameExtractionError>)
    ensures filename.Some? ==> r == Ok(DownloadRequest(url, filename.value))
    ensures filename.None? ==> (r.Ok? <==> CanExtractFilename(url))
    ensures filename.None? && r.Ok? ==>
      r.value.url == url && r.value.filename == PercentDecode(PathName(UrlPath(url))) && r.value.filename != []
    ensures r.Err? ==> r.error.url == url && (r.error.NoPathInURLError? <==> UrlPath(url) == [])
  {
    match filename
    case Some(name) => Ok(DownloadRequest(url, name))
    case None =>
      match ExtractFilename(url)
      case Ok(name) => Ok(DownloadRequest(url, name))
      case Err(e) => Err(e)
  }

  /** A query or a fragment appended to a URL changes neither whether a name can be extracted
      nor which name it is, nor the kind of error raised. */
  lemma FilenameIgnoresQueryAndFragment(base: string, suffix: string)
    requires '?' !in base && '#' !in base
    requires suffix != [] && (suffix[0] == '?' || suffix[0] == '#')
    ensures CanExtractFilename(base + suffix) <==> CanExtractFilename(base)
    ensures ExtractFilename(base + suffix).Ok? ==> ExtractFilename(base + suffix) == ExtractFilename(base)
    ensures ExtractFilename(base + suffix).Err? ==>
      ExtractFilename(base + suffix).error.NoPathInURLError? == ExtractFilename(base).error.NoPathInURLError?
  {
    QueryAndFragmentIgnored(base, suffix);
  }

  lemma NoQueryOrFragmentMark(scheme: string, host: string, path: string)
    requires IsScheme(scheme)
    requires '?' !in host && '#' !in host && '?' !in path && '#' !in path
    ensures '?' !in scheme + "://" + host + path && '#' !in scheme + "://" + host + path
  {
    assert forall i :: 0 <= i < |scheme| ==> scheme[i] != '?' && scheme[i] != '#';
  }

  /** In `scheme://host/dir/segment` the filename is the decoded segment. */
  lemma FilenameOfHierarchicalPath(scheme: string, host: string, dir: string, segment: string)
    requires IsScheme(scheme)
    requires '/' !in host && '?' !in host && '#' !in host
    requires dir == [] || dir[0] == '/'
    requires '?' !in dir && '#' !in dir && '?' !in segment && '#' !in segment
    requires '/' !in segment && segment != "" && segment != "."
    ensures ExtractFilename(scheme + "://" + host + (dir + "/" + segment)) == Ok(PercentDecode(segment))
  {
    var path := dir + "/" + segment;
    assert path[0] == '/';
    assert path[|path| - 1] == segment[|segment| - 1];
    assert segment[|segment| - 1] in segment;
    SplitHierarchical(scheme, host, path);
    PathNameIsLastSegment(dir, segment);
  }

  /** In `scheme://host/dir/segment?query#fragment` the filename is the decoded segment: the
      query and the fragment never contribute to it. */
  lemma FilenameIsLastSegment(scheme: string, host: string, dir: string, segment: string, suffix: string)
    requires IsScheme(scheme)
    requires '/' !in host && '?' !in host && '#' !in host
    requires dir == [] || dir[0] == '/'
    requires '?' !in dir && '#' !in dir && '?' !in segment && '#' !in segment
    requires '/' !in segment && segment != "" && segment != "."
    requires suffix == [] || suffix[0] == '?' || suffix[0] == '#'
    ensures ExtractFilename(scheme + "://" + host + (dir + "/" + segment) + suffix) == Ok(PercentDecode(segment))
    ensures var url := scheme + "://" + host + (dir + "/" + segment) + suffix;
      NewDownloadRequest(url, None) == Ok(DownloadRequest(url, PercentDecode(segment)))
  {
    var base := scheme + "://" + host + (dir + "/" + segment);
    FilenameOfHierarchicalPath(scheme, host, dir, segment);
    if suffix != [] {
      NoQueryOrFragmentMark(scheme, host, dir + "/" + segment);
      FilenameIgnoresQueryAndFragment(base, suffix);
    } else {
      assert base + suffix == base;
    }
    AsWrittenDiffersOnlyOnNamelessPaths(base + suffix);
  }

  /** `scheme://host` has an empty path and raises `NoPathInURLError`. */
  lemma NoPathWithoutSlash(scheme: string, host: string)
    requires IsScheme(scheme)
    requires '/' !in host && '?' !in host && '#' !in host
    ensures ExtractFilename(scheme + "://" + host) == Err(NoPathInURLError(scheme + "://" + host))
    ensures NewDownloadRequest(scheme + "://" + host, None) == Err(NoPathInURLError(scheme + "://" + host))
  {
    SplitHierarchical(scheme, host, []);
    assert scheme + "://" + host + [] == scheme + "://" + host;
    AsWrittenDiffersOnlyOnNamelessPaths(scheme + "://" + host);
  }

  /** `scheme://host/dir/`, the root `/` included, raises `DirectoryPathError`. */
  lemma DirectoryWhenPathEndsWithSlash(scheme: string, host: string, dir: string)
    requires IsScheme(scheme)
    requires '/' !in host && '?' !in host && '#' !in host
    requires dir == [] || dir[0] == '/'
    requires '?' !in dir && '#' !in dir
    ensures ExtractFilename(scheme + "://" + host + (dir + "/")) == Err(DirectoryPathError(scheme + "://" + host + (dir + "/")))
    ensures NewDownloadRequest(scheme + "://" + host + (dir + "/"), None) ==
      Err(DirectoryPathError(scheme + "://" + host + (dir + "/")))
  {
    SplitHierarchical(scheme, host, dir + "/");
    AsWrittenDiffersOnlyOnNamelessPaths(scheme + "://" + host + (dir + "/"));
  }

  /** `https://example.com/.` has a non-empty path without a trailing `/` whose name is empty:
      the code as written returns the empty filename, where a `DirectoryPathError` is meant. */
  lemma RootDotFallsThrough()
    ensures ExtractFilenameAsWritten("https" + "://" + "example.com" + "/.") == Ok("")
    ensures ExtractFilename("https" + "://" + "example.com" + "/.") ==
      Err(DirectoryPathError("https" + "://" + "example.com" + "/."))
    ensures NewDownloadRequest("https" + "://" + "example.com" + "/.", None) ==
      Ok(DownloadRequest("https" + "://" + "example.com" + "/.", ""))
    ensures NewDownloadRequestCorrected("https" + "://" + "example.com" + "/.", None) ==
      Err(DirectoryPathError("https" + "://" + "example.com" + "/."))
  {
    SplitHierarchical("https", "example.com", "/.");
    RootDotHasNoName();
  }

}
