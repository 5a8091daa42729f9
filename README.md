# parallel_download in Dafny

A model of the decision logic of `parallel_download`, a small Python library that downloads a
list of URLs into a directory:

- **Filename resolution.** A `DownloadRequest` without a filename takes one from its URL. The
  URL is split into the components of section 3 of RFC 3986. The last name of the path is
  taken as `PurePosixPath.name` computes it. That name is then percent-decoded as in section
  2.1 of RFC 3986. An empty path and a path ending in `/` are the two `FilenameExtractionError` outcomes. Any other
  path without a name yields the empty filename; see "## Findings".
- **Settings validation.** The `Downloader` settings are checked. A timeout recipe name is
  looked up in the three-entry recipe table; an integer timeout and `max_concurrent` must be
  positive.
- **Dry-run preview.** Each request is marked valid or invalid, depending on whether its
  filename contains a path separator.
- **Outcome of each download.** The HTTP exchange and the file write are given as values. The
  model maps them to a `DownloadSuccess` or a `DownloadFailure` carrying the error message
  built by the error classes. `download` is the order-preserving map of that over the
  requests.

Modules, one per file:

- `Wrappers`: `Option` and `Result`.
- `Text`: substring containment and the decimal rendering of an `int`.
- `Config`: the recipe table.
- `Errors`: the exception classes and their messages.
- `Results`: the result values.
- `Uri`: URL splitting, path names and percent-coding.
- `Requests`: `DownloadRequest`.
- `Downloading`: the `Downloader` class.

## Model

| member | source | states |
|---|---|---|
| Config.Lookup | src/parallel_download/config.py:18-33 | a name has an entry exactly when some table row carries it, and the entry returned is that row's |
| Config.RecipeNames | src/parallel_download/config.py:18-33 | the keys of the table, one per row, in table order |
| Config.LookupRecipe | src/parallel_download/config.py:18-33 | a recipe is found exactly for the table's keys, and every recipe timeout is positive |
| Config.RecipeNamesInOrder | src/parallel_download/config.py:6-33 | the keys are the three `TimeoutRecipe` literals in declaration order |
| Config.RecipeTable | src/parallel_download/config.py:19-29 | FOR_LARGE_FILES is 300 s, BALANCED 60 s, FOR_SMALL_FILES 15 s |
| Config.RecipeNamesAreTheLiterals | src/parallel_download/config.py:6-33 | a name is in the table exactly when it is one of the `TimeoutRecipe` literals |
| Text.IntToString | src/parallel_download/errors.py:61 | `str(int)` as the f-strings render it: a `-` exactly for a negative value, then decimal digits without a leading zero, and no space |
| Text.IntToStringRoundTrip | src/parallel_download/errors.py:61 | the decimal rendering of an int used in messages reads back as the same int |
| Errors.FilenameExtractionError.Message | src/parallel_download/download_request.py:68-75 | each extraction error's message is non-empty and ends with the URL |
| Errors.DownloadError.Message | src/parallel_download/errors.py:46-115 | every transfer error has a non-empty message |
| Errors.HttpErrorMessage | src/parallel_download/errors.py:58-61 | the `HTTPError` message contains the status code and the URL |
| Errors.TimeoutErrorMessage | src/parallel_download/errors.py:76-79 | the `DownloadTimeoutError` message contains the URL and the timeout in seconds |
| Errors.NetworkErrorMessage | src/parallel_download/errors.py:94-97 | the `NetworkError` message contains the URL and the original error text |
| Errors.FileWriteErrorMessage | src/parallel_download/errors.py:112-115 | the `FileWriteError` message contains the filename and the original error text |
| Errors.HttpErrorMessageRoundTrip | src/parallel_download/errors.py:58-61 | an `HTTPError` message determines the status code and the URL it was built from |
| Errors.OnlyHttpErrorsParseAsHttp | src/parallel_download/errors.py:46-115 | a message reads as an `HTTPError` message exactly when it comes from an `HTTPError` |
| Results.DownloadResult.Status | src/parallel_download/download_result.py:42-68 | the status is "success" exactly for `DownloadSuccess`, else "failed" |
| Results.NewDownloadSuccess | src/parallel_download/download_result.py:25-48 | construction succeeds exactly when the file path is non-empty, keeps every field, and otherwise fails with the `ValueError` text |
| Results.NewDownloadFailure | src/parallel_download/download_result.py:51-74 | construction succeeds exactly when the error is non-empty, keeps every field, and otherwise fails with the `ValueError` text |
| Results.WellFormedIsConstructible | src/parallel_download/download_result.py:45-104 | a result is well formed exactly when the checked constructor of its variant builds it |
| Results.PreviewStatus.Tag | src/parallel_download/download_result.py:99 | the tag is "valid" exactly for `Valid`, else "invalid" |
| Results.PreviewReasonDefaultsToNone | src/parallel_download/download_result.py:100 | a preview built without a reason has none |
| Uri.SplitScheme | src/parallel_download/download_request.py:31 | a scheme is taken off only if it is one, and scheme, `:` and rest rebuild the input |
| Uri.SplitAuthority | src/parallel_download/download_request.py:31 | the authority holds no `/`, the rest is empty or starts with `/`, and the pieces rebuild the input |
| Uri.SplitUrl | src/parallel_download/download_request.py:31-32 | the path holds no `?` or `#`; a scheme is a scheme; an authority holds no `/` and is followed by an empty path or one starting with `/` |
| Uri.RecomposeSplitUrl | src/parallel_download/download_request.py:31-32 | recomposing the split components gives the URL back (section 5.3 of RFC 3986) |
| Uri.QueryAndFragmentIgnored | src/parallel_download/download_request.py:31-32 | appending a query or fragment leaves scheme, authority and path unchanged |
| Uri.SchemeSplitAt | src/parallel_download/download_request.py:31 | text that starts with a scheme and `:` splits there |
| Uri.AuthoritySplitAt | src/parallel_download/download_request.py:31 | `//host/path` splits into the host and the path |
| Uri.SplitHierarchical | src/parallel_download/download_request.py:31-32 | `scheme://host/path` splits into exactly those components, with no query and no fragment |
| Uri.SplitLast | src/parallel_download/download_request.py:39 | a split exists exactly when the separator occurs, and it is at the last occurrence |
| Uri.SplitLastAt | src/parallel_download/download_request.py:39 | the split is the one whose right part holds no separator |
| Uri.PathName | src/parallel_download/download_request.py:39 | a non-empty name contains no `/` and is not `.` |
| Uri.PathNameIsLastSegment | src/parallel_download/download_request.py:39 | the name of a path is its last segment when that segment is a real name |
| Uri.RootDotHasNoName | src/parallel_download/download_request.py:39-43 | `/.` has an empty name |
| Uri.PercentDecode | src/parallel_download/download_request.py:80 | decoding never lengthens a text, keeps a non-empty text non-empty, and leaves text without `%` unchanged |
| Uri.DecodeEncode | src/parallel_download/download_request.py:80 | decoding an encoded octet string gives it back |
| Uri.DecodePlainPrefix | src/parallel_download/download_request.py:80 | text without `%` passes through decoding whatever follows it |
| Uri.DecodeEscapeBetween | src/parallel_download/download_request.py:80 | an escape such as `%20` between plain text decodes to its octet in place (`my%20document.pdf` gives `my document.pdf`) |
| Requests.UrlPath | src/parallel_download/download_request.py:31-32 | the path of `urlparse(url)` never holds a `?` or `#` |
| Requests.CanExtractFilename | src/parallel_download/download_request.py:22-45 | when extraction is possible, the path's name is non-empty, holds no `/` and is not `.` |
| Requests.ExtractFilenameAsWritten | src/parallel_download/download_request.py:47-82 | raises exactly for an empty path or a trailing `/`, which error names the URL; when extraction is possible it returns the decoded last name, otherwise the empty name |
| Requests.ExtractFilename | src/parallel_download/download_request.py:47-82 | returns a name exactly when `_can_extract_filename` holds, that name is the decoded last name and non-empty, and `NoPathInURLError` is raised exactly for the empty path |
| Requests.AsWrittenDiffersOnlyOnNamelessPaths | src/parallel_download/download_request.py:63-82 | the two extractions differ exactly on non-empty, slash-free-ended paths with no name, where the code as written returns "" |
| Requests.NewDownloadRequest | src/parallel_download/download_request.py:12-20 | a given filename is kept unchanged; a missing one is the decoded last name, and construction fails exactly for an empty path or a trailing `/`; the filename is non-empty whenever `_can_extract_filename` holds |
| Requests.NewDownloadRequestCorrected | src/parallel_download/download_request.py:12-20 | the constructor on the corrected extraction: a given filename is kept; a missing one is extracted and non-empty, and construction fails exactly when `_can_extract_filename` does not hold |
| Requests.FilenameIgnoresQueryAndFragment | src/parallel_download/download_request.py:78-79 | a query or fragment changes neither the outcome nor the name nor the error kind |
| Requests.FilenameOfHierarchicalPath | src/parallel_download/download_request.py:78-80 | the filename of `scheme://host/dir/segment` is the decoded segment |
| Requests.FilenameIsLastSegment | src/parallel_download/download_request.py:78-80 | the filename of `scheme://host/dir/segment?query#fragment` is the decoded segment, and `DownloadRequest(url)` stores it |
| Requests.NoPathWithoutSlash | src/parallel_download/download_request.py:68-71 | `scheme://host` raises `NoPathInURLError`, from the extraction and from `DownloadRequest(url)` |
| Requests.DirectoryWhenPathEndsWithSlash | src/parallel_download/download_request.py:72-75 | `scheme://host/dir/`, the root `/` included, raises `DirectoryPathError`, from the extraction and from `DownloadRequest(url)` |
| Requests.RootDotFallsThrough | src/parallel_download/download_request.py:63-82 | for `https://example.com/.` the code as written returns "" and builds a request with filename "", while the corrected extraction and constructor raise `DirectoryPathError` |
| Downloading.JoinNames | src/parallel_download/downloader.py:62 | every joined name occurs in the joined text |
| Downloading.InvalidRecipeMessage | src/parallel_download/downloader.py:60-63 | the message opens with `Invalid timeout recipe: `, and names the rejected name and every available recipe |
| Downloading.NotPositiveMessage | src/parallel_download/downloader.py:67 | the message contains `<setting> must be a positive integer` and the rejected value |
| Downloading.ResolveTimeout | src/parallel_download/downloader.py:58-68 | a recipe name resolves exactly when it is in the table, to its table timeout; an unknown name gets the invalid-recipe message; an integer is accepted exactly when positive and kept, and otherwise the message contains `timeout must be a positive integer` and the value; every resolved timeout is positive |
| Downloading.ValidateMaxConcurrent | src/parallel_download/downloader.py:70-75 | accepted exactly when positive and then kept; otherwise the message contains `max_concurrent must be a positive integer` and the value |
| Downloading.RecipeTimeouts | src/parallel_download/downloader.py:58-64 | FOR_LARGE_FILES resolves to 300, BALANCED to 60, FOR_SMALL_FILES to 15 |
| Downloading.HasPathSeparator | src/parallel_download/downloader.py:153 | a filename that passes the check, is non-empty and is not `.` is its own path name, a single path segment (which may be `..`) |
| Downloading.DryRunAcceptsParentDirectory | src/parallel_download/downloader.py:153-173 | the filename `..` holds no separator, so its preview is valid with no reason, although it names the output directory's parent |
| Downloading.Preview | src/parallel_download/downloader.py:153-173 | URL and filename are copied; invalid exactly when the filename holds `/` or `\`, with the separator reason, otherwise valid with no reason |
| Downloading.JoinPath | src/parallel_download/downloader.py:204 | the file path starts with the output directory and ends with the filename |
| Downloading.FailureText | src/parallel_download/downloader.py:221-247 | each handler's failure text is non-empty and is the message of its own error class, or `Unexpected error: ` followed by the exception's text |
| Downloading.Downloader.constructor | src/parallel_download/downloader.py:55-75 | stores the three settings |
| Downloading.Downloader.Create | src/parallel_download/downloader.py:25-77 | succeeds exactly when both checks pass, storing the resolved timeout; otherwise the timeout error comes first, then the `max_concurrent` error |
| Downloading.Downloader.DownloadDry | src/parallel_download/downloader.py:146-175 | one preview per request, in request order, each the request's preview |
| Downloading.Downloader.DownloadSingle | src/parallel_download/downloader.py:200-247 | the result is well formed and carries the request's URL and filename; it is a success exactly for status 200 with a completed write, at `out_dir/filename`; a non-200 status fails with the `HTTPError` message, and an exception on the request or on the transfer fails with its handler's text |
| Downloading.Downloader.Download | src/parallel_download/downloader.py:96-110 | one result per request, in request order, each that request's outcome |
| Downloading.HttpFailureReportsStatus | src/parallel_download/downloader.py:214-220 | a non-200 status fails with a message that gives back the status and the URL, whatever the write would have done |
| Downloading.OnlyStatusFailuresReadAsHttp | src/parallel_download/downloader.py:200-247 | a failure's message reads as an `HTTPError` exactly when the server answered with a status other than 200 |
| Downloading.FailureIsNotHttp | src/parallel_download/downloader.py:221-247 | no exception handler produces text that reads as an `HTTPError` |
| Downloading.TimeoutFailureNamesTimeout | src/parallel_download/downloader.py:221-227 | a timeout fails with a message naming the URL and the downloader's timeout |
| Downloading.SuccessesAreCompletedExchanges | src/parallel_download/downloader.py:96-110 | the number of successes equals the number of exchanges answered with 200 and written |
| Downloading.EmptyDownload | src/parallel_download/downloader.py:96-110 | no requests give no results |

## Left out

- The network and the file system: the aiohttp session, `response.read`, and the aiofiles write. A `Downloading.Exchange` value says how each ended.
- The output-directory creation (`ensure_directory`) is not part of this model.
- Concurrency: the semaphore that bounds in-flight downloads to `max_concurrent` is not modelled, and neither is the interleaving of `asyncio.gather`. `download` is modelled as the sequential map whose results `gather` returns in request order.
- Exceptions `_download_single` does not catch (`BaseException` such as cancellation) are not modelled.
- Arguments of the wrong Python type are not modelled. This covers a non-string, non-int `timeout` and a `bool` passed as an `int`.
- Downloading.JoinPath: models `out_dir / filename` as the two joined by `/`. It does not model pathlib's rules, under which an absolute filename replaces the directory and `.` and repeated `/` are normalised.
- Uri.SplitUrl: models `urlparse` on RFC 3986 components. It does not model:
  - the `;params` split of the last path segment;
  - lower-casing of the scheme;
  - the removal of whitespace and control characters;
  - the `ValueError` that `urlsplit` raises for an invalid network location, such as an
    unbalanced `[` or `]` (as in `http://[::1/a.txt`), a malformed bracketed host, or NFKC
    normalisation that introduces a separator. The model splits such URLs like any other, so
    `DownloadRequest` raises only the two `FilenameExtractionError` outcomes.
- Uri.PercentDecode: maps each `%XX` escape to the character with that code. `unquote` instead decodes runs of escapes as UTF-8 and replaces invalid sequences with U+FFFD; the two agree on ASCII.
- Uri.PathName: models POSIX paths only. A Windows `Path` would also split on `\`.
- The `status` field of the result classes is fixed by the variant. Passing a different status explicitly to the constructor is not modelled.
- Config.DownloadConfig: the descriptions are kept as stored strings. Nothing is proved about their text.

## Findings

| source | as written | input that shows it | evidently intended | confidence | as-written member | corrected member |
|---|---|---|---|---|---|---|
| src/parallel_download/download_request.py:63-82 | when `_can_extract_filename` is false but the path is non-empty and has no trailing `/`, no error is raised and the empty name is decoded and returned | `https://example.com/.` (path `/.`, whose `Path.name` is empty) | every URL from which no filename can be extracted raises a `FilenameExtractionError`; a nameless path is a directory | medium, not executed | Requests.ExtractFilenameAsWritten | Requests.ExtractFilename |
| src/parallel_download/download_request.py:17-20 | `__post_init__` stores whatever the extraction returns, so a request can be built with the empty filename | `DownloadRequest("https://example.com/.")` | a request made without a filename always has a non-empty one | medium, not executed | Requests.NewDownloadRequest | Requests.NewDownloadRequestCorrected |
