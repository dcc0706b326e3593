# http_client_conc in Dafny

This project models the sequential logic of `http_client_conc.py`. That
script is a small command-line HTTP/1.1 downloader. The model covers:

- `parse_url`, which turns the fields that `urllib.parse.urlparse` extracted
  into the (hostname, path, port, scheme) to connect to (module `Url`);
- the GET request that `download_file` builds by repeated appends
  (RFC 9112 sections 2.1, 3 and 9.6; RFC 9110 section 7.2), and the gate
  that the received bytes pass through (module `Http`):
  - split at the first CRLF CRLF (RFC 9112 section 2.1);
  - a status line starting with `HTTP/1.` (RFC 9112 section 4);
  - a status code, parsed with `int()`, equal to 200;
- `download_file` as a whole (module `Fetch`):
  - the recv loop;
  - the outcome rules: every failure is `(False, 0, 0)` and a success
    reports the body length;
  - the `index.html` file-name fallback;
- `download_sequential` and `read_urls_from_file` as loops (module
  `Dispatch`):
  - one result per URL, in order;
  - the `file_<i>.html` fallback;
  - the URL-list line filter.

The Python builtins these rely on are stated in `PyText`:
- `str.strip`, `str.find`, the first piece of `str.split` with a separator,
  all the pieces of `str.split()` without one, and `int()` on a string;
- the decimal rendering of an int;
- the POSIX `os.path.basename` and `os.path.join`.

The network, the file system, `urlparse` and the clock are parameters of
the model:
- a network is a function from (host, port, request) to the chunks that
  recv returns, or None when the socket raises;
- a store is a function from (path, body) to whether the write succeeded;
- the elapsed time is a given number.

Behaviour of the code that the model keeps and proves:
- An empty scheme gets port 443 while the returned scheme becomes `http`.
  `Url.ParseUrl` proves this.
- Port 0 counts as no port.
- A port that is not all digits, or lies above 65535, makes reading
  `parsed.port` raise, so the download fails. `Url.ParseUrl` proves this.
- `int()` accepts `+200`, `0200` and `2_00` as the status code.
  `PyText.ParseSigned` proves the signed case.
- The query ends up in the name of a file saved by `download_file`.
  `Fetch.QueryInFilename` proves this.
- The test `filename == '/'` after `os.path.basename` never fires, because
  a basename holds no `/`.
- Splitting `H + CRLF CRLF + B` gives back exactly `(H, B)` under a precise
  condition. It is not enough that `H` holds no CRLF CRLF: `H` must also
  not end in CRLF, or the split comes early. `Http.SplitRoundTrip` proves
  this in both directions.

## Model

| member | source | states |
|---|---|---|
| Url.ParseUrl | http_client_conc.py:46-62 | An `InvalidUrl` error exactly when the hostname is missing or empty. Otherwise an `InvalidPort` error exactly when urlparse's port is not all digits or exceeds 65535. The port of a target is always in 1-65535. The path is never empty. It starts with the given path, or with `/` when none is given, and is longer than that exactly when there is a query. An explicit non-zero port is kept. Otherwise the port is 80 exactly when the raw scheme is `http`, and 443 otherwise. The scheme is never empty, and it is `http` exactly for a raw `http` or empty scheme. An empty scheme with no port gives `http` on port 443. |
| Url.PathQueryRoundTrip | http_client_conc.py:53-55 | Splitting the returned path at its first `?` gives back the path (or `/`) and the query: appending the query loses nothing. |
| PyText.IsSpace | http_client_conc.py:280 | The characters `str.isspace` accepts, which `strip()` (line 280) and `split()` (line 127) cut on: the Unicode white-space characters and the ASCII separators 0x1C-0x1F. The strip and split lemmas state their behaviour over this set. |
| PyText.StripLeft | http_client_conc.py:280 | The result is a suffix of the input. Everything cut off is white space, and the result does not start with white space. |
| PyText.StripRight | http_client_conc.py:280 | The result is a prefix of the input. Everything cut off is white space, and the result does not end with white space. |
| PyText.Strip | http_client_conc.py:280 | The result is no longer than the input, and neither of its ends is white space. |
| PyText.StripKeepsMiddle | http_client_conc.py:280 | The stripped string is a contiguous part of the input, and only white space is cut on either side. |
| PyText.StripWithoutSpace | http_client_conc.py:280 | Stripping a string without white space changes nothing. |
| PyText.StartsWith | http_client_conc.py:123 | `str.startswith`: the prefix fits in the string and equals its first characters. `Http.CheckStatus` and `Http.WellFormedStatusLine` state the status-line test in its terms. |
| PyText.Find | http_client_conc.py:112 | -1 exactly when the pattern occurs nowhere. Otherwise the pattern occurs at the result, and at no earlier index. |
| PyText.SplitFirst | http_client_conc.py:122 | The first piece is a prefix of the string. It is the whole string, or the separator follows it. The separator occurs nowhere before the end of the piece. |
| PyText.Tokens | http_client_conc.py:127 | `str.split()` with no separator. Its contract is stated by `PyText.TokensCons`, `PyText.TokensSkipSpace` and `PyText.TokensOfSpace`, which together determine the split of every string, and by `PyText.TokensAreWords` and `PyText.TwoTokens`. |
| PyText.TokensCons | http_client_conc.py:127 | A word without white space, followed by the end or by white space, is the first token, and the tokens of the rest follow. |
| PyText.TokensSkipSpace | http_client_conc.py:127 | Leading white space does not change the split. |
| PyText.TokensOfSpace | http_client_conc.py:127 | A string of white space alone, the empty string included, has no tokens, so a status line of one word has no second token. |
| PyText.Word | http_client_conc.py:127 | The longest prefix without white space: it holds none, and it ends at the end of the string or at a white-space character. |
| PyText.TokensAreWords | http_client_conc.py:127 | Every token of `split()` is non-empty and holds no white space. |
| PyText.TwoTokens | http_client_conc.py:127 | Two words separated by a space are the first two tokens, followed by the tokens of the rest. |
| PyText.ParseInt | http_client_conc.py:127 | `int()` on a string: white space stripped, then an optional sign and digits. `PyText.ParseIntRejects` states what it rejects, and `PyText.ParseDigits`, `PyText.ParseSigned` and `PyText.ParseDecimal` state what it accepts. |
| PyText.ParseIntRejects | http_client_conc.py:127 | A string that is accepted strips to a non-empty string of digits and underscores, with at most a sign in front. Anything else, such as a reason phrase like `OK`, gives None: the ValueError of line 127. |
| PyText.ParseDigits | http_client_conc.py:127 | `int()` of a digit string, underscores allowed, is its decimal value. |
| PyText.ParseSigned | http_client_conc.py:127 | `int()` also accepts a leading `+` or `-` before the digits, with the matching sign. |
| PyText.ParseDecimal | http_client_conc.py:127 | `int()` reads back the decimal text of every non-negative number. |
| PyText.Decimal | http_client_conc.py:262 | The decimal text of a number, as an f-string writes it. Its contract is stated by `PyText.DecimalDigits`, `PyText.DecimalValue`, `PyText.DecimalNoLeadingZero` (which also fixes 0 as `0`) and `PyText.DecimalInjective`. |
| PyText.DecimalDigits | http_client_conc.py:262 | The decimal text of a number is non-empty and made only of digits. |
| PyText.DecimalValue | http_client_conc.py:262 | The digits of the decimal text, read back most significant first, give the number. |
| PyText.DecimalNoLeadingZero | http_client_conc.py:262 | The decimal text starts with `0` if and only if the number is 0, and 0 is written as the single digit `0`: there is no leading zero. |
| PyText.DecimalInjective | http_client_conc.py:262 | Two different numbers never have the same decimal text. |
| PyText.Basename | http_client_conc.py:260 | The part of the path after its last `/`. Its contract is stated by `PyText.BasenameIsLastName`, `PyText.BasenameAfterSlash` and `PyText.BasenameOfJoin`. |
| PyText.BasenameIsLastName | http_client_conc.py:260 | The result is the suffix after the last `/`. It holds no `/`, and it is the whole path or is preceded by a `/`. |
| PyText.BasenameAfterSlash | http_client_conc.py:136 | After a `/`, or at the start, a tail without `/` is the whole basename. |
| PyText.JoinPath | http_client_conc.py:264 | POSIX `os.path.join` of two parts. Its contract is stated by `PyText.JoinPathCases` and `PyText.BasenameOfJoin`. |
| PyText.JoinPathCases | http_client_conc.py:264 | An absolute second part replaces the first. A relative one follows the first part directly when that is empty or ends in `/`, and after one inserted `/` otherwise, each case if and only if its condition holds. |
| PyText.BasenameOfJoin | http_client_conc.py:264 | Joining a directory with a bare file name keeps that name as the basename. |
| Http.BuildRequest | http_client_conc.py:95-98 | The four appends produce exactly the request line, the Host field and the Connection field, each ended by CRLF, followed by the empty line. |
| Http.HeaderBlockIsJoinedLines | http_client_conc.py:95-98 | A header section on the wire is its lines joined by CRLF, followed by CRLF CRLF. |
| Http.RequestIsHeaderSection | http_client_conc.py:95-98 | When path and hostname hold no CR or LF, the request's first line is the request line. Its first CRLF CRLF is its last four characters, so the request ends in exactly one empty line. |
| Http.Decode | http_client_conc.py:111 | The decoded text has one character per byte, with the same code. |
| Http.SplitResponse | http_client_conc.py:111-119 | None exactly when the decoded text has no CRLF CRLF. Otherwise the header text ends where the first CRLF CRLF begins. It is the decoding of the bytes before it, and the body is every byte after the four delimiter bytes. |
| Http.SplitRoundTrip | http_client_conc.py:111-119 | `H + CRLF CRLF + B` splits into exactly `(H, B)`, whatever `B` holds, if and only if `H` holds no CRLF CRLF and does not end in CRLF. |
| Http.CheckStatus | http_client_conc.py:121-131 | An accepted response has a status line starting with `HTTP/1.` and a second token that `int()` reads as 200, and it yields the body unchanged. A rejection for a status code never carries 200. |
| Http.CheckResponse | http_client_conc.py:111-131 | The response is rejected for lacking a header end exactly when the split finds no CRLF CRLF. An accepted response yields the body of the split, and its status line (the first line of the split's header text) starts with `HTTP/1.` and has a second token that `int()` reads as 200. |
| Http.GateOnStatusCode | http_client_conc.py:121-131 | Once the version prefix is present and the second token parses to a code, the gate accepts exactly the code 200 and otherwise rejects with that code. |
| Http.StatusLine | http_client_conc.py:122 | The status line is a prefix of the header text that no CRLF starts inside. It is the whole text, or the CRLF follows it, so it is the part before the first CRLF. |
| Http.StatusLineOfJoined | http_client_conc.py:122 | The first piece of `split('\r\n')` of CRLF-joined lines is the first line. |
| Http.StatusLineTokens | http_client_conc.py:127 | The second token of `HTTP/1.<minor> <code> <reason>` is the decimal code. |
| Http.WellFormedSplit | http_client_conc.py:111-119 | A header section made of clean lines, followed by CRLF CRLF and a body, splits back into exactly that section and body. |
| Http.WellFormedStatusLine | http_client_conc.py:122-127 | The status line of such a section carries `HTTP/1.`, and its second token parses back to the code. |
| Http.GateOnWellFormedResponse | http_client_conc.py:111-131 | A well-formed response with any status code, any header fields and any body is accepted with exactly that body when the code is 200. Otherwise it is rejected with that code. |
| Fetch.Received | http_client_conc.py:104-108 | The bytes received up to the first empty chunk. Its contract is stated by `Fetch.ReceivedUntilClose` and `Fetch.Receive`. |
| Fetch.ReceivedUntilClose | http_client_conc.py:104-108 | The response is every chunk the server sent before closing, concatenated, and nothing after the close. |
| Fetch.Receive | http_client_conc.py:104-108 | The recv loop collects exactly the bytes received before the first empty chunk. |
| Fetch.DefaultFilename | http_client_conc.py:134-139 | The name is never empty and holds no `/`. It is the basename of the path whenever that is non-empty, and `index.html` whenever it is empty. |
| Fetch.DirectoryPathIsIndex | http_client_conc.py:136-139 | A path ending in `/` is saved as `index.html`. |
| Fetch.Destination | http_client_conc.py:134-139 | A given non-empty output path is used as is. With no output path, or an empty one, the destination is the default file name of the request path. The destination is never empty. |
| Fetch.QueryInFilename | http_client_conc.py:136-139 | With no output path, a URL `dir/name?query` is saved under `name?query`: the query becomes part of the file name. |
| Fetch.Fetch | http_client_conc.py:77-159 | Every failure is `(False, 0, 0)`. A success needs all of these: a URL with a hostname, an `http` or empty scheme, an answer from the network, a response the gate accepts, and a successful write of that body to the destination. It reports the elapsed time and the body length. The status line of the response received on a success starts with `HTTP/1.` and has a second token that `int()` reads as 200. |
| Fetch.DownloadFile | http_client_conc.py:77-159 | The step-by-step download returns exactly the outcome that Fetch specifies. |
| Fetch.FetchSucceedsIff | http_client_conc.py:83-152 | A download succeeds if and only if every step succeeds: hostname present, port readable, scheme `http` or empty, network answered, response accepted, file written. |
| Fetch.OnlyHttp | http_client_conc.py:83-85 | Any scheme other than `http` or the empty one, `https` included, fails whatever the network would answer. |
| Fetch.FetchWellFormedResponse | http_client_conc.py:111-152 | For a server that answers with a well-formed response, the outcome is `(True, elapsed, len(body))` exactly when the code is 200 and the write succeeds. Otherwise it is `(False, 0, 0)`. |
| Dispatch.FallbackName | http_client_conc.py:262 | `file_<i>.html` for URL i. `Dispatch.SequentialFilenameIsName` states where it is used, and `Dispatch.FallbackNamesDiffer` that different indexes give different names. |
| Dispatch.SequentialFilename | http_client_conc.py:260-262 | The file name for URL i. Its contract is stated by `Dispatch.SequentialFilenameIsName` and `Dispatch.FallbackNamesDiffer`. |
| Dispatch.SequentialFilenameIsName | http_client_conc.py:260-262 | The name is never empty and holds no `/`. It is the basename of the URL's path whenever that is non-empty, and `file_<i>.html` otherwise. |
| Dispatch.FallbackNamesDiffer | http_client_conc.py:260-262 | Two URLs at different indexes whose paths both end in `/` get different file names. |
| Dispatch.OutputPath | http_client_conc.py:264 | With no output directory, or an empty one, the path is the file name itself. `Dispatch.OutputInDirectory` states where it lies otherwise, and `Dispatch.OutputKeepsName` that its basename is the file name in every case. |
| Dispatch.OutputInDirectory | http_client_conc.py:264 | With a non-empty output directory, the path is the directory, then a `/` unless the directory already ends in one, then the file name. |
| Dispatch.OutputKeepsName | http_client_conc.py:264 | The output path, inside the output directory or not, has the derived file name as its basename. |
| Dispatch.PlannedPathIsDestination | http_client_conc.py:264-266 | download_file writes the file exactly at the path download_sequential passes, so its own `index.html` fallback never applies there. |
| Dispatch.PlannedPath | http_client_conc.py:260-264 | The output path for URL i: the file name placed in the output directory. `Dispatch.SequentialFilenameIsName`, `Dispatch.OutputInDirectory`, `Dispatch.OutputKeepsName` and `Dispatch.PlannedPathIsDestination` state what it is. |
| Dispatch.ResultFor | http_client_conc.py:266-267 | The tuple appended for URL i: the URL and download_file's outcome for it and its planned path. `Dispatch.DownloadSequential` states that result i is this record. |
| Dispatch.DownloadSequential | http_client_conc.py:258-267 | There is one result per URL. Result i holds URL i and the outcome of downloading URL i to its planned output path. |
| Dispatch.Kept | http_client_conc.py:281 | A line is kept when its stripped form is non-empty and does not start with `#`. `Dispatch.KeptIsClean` and `Dispatch.UrlLinesMembers` state what that gives. |
| Dispatch.UrlLines | http_client_conc.py:279-282 | At most one URL is read per line. `Dispatch.UrlLinesMembers` states which lines give URLs, and `Dispatch.UrlLinesAppend` that file order is kept. |
| Dispatch.ReadUrls | http_client_conc.py:279-282 | The loop collects exactly the stripped lines that are kept, in file order. |
| Dispatch.UrlLinesClean | http_client_conc.py:280-282 | Every URL read is non-empty, has no white space at either end, and does not start with `#`. |
| Dispatch.UrlLinesAppend | http_client_conc.py:279-282 | The URLs of two consecutive runs of lines are those of the first followed by those of the second, so order is kept. |
| Dispatch.UrlLineOrigin | http_client_conc.py:279-282 | Every URL read is the stripped form of some kept line. |
| Dispatch.UrlLineKept | http_client_conc.py:279-282 | Every kept line's stripped form is among the URLs read. |
| Dispatch.UrlLinesMembers | http_client_conc.py:279-282 | A string is read as a URL if and only if some kept line strips to it. |

## Left out

- Sockets are not modelled: creation, the 30-second timeout, connect, `sendall` and `close`. An exchange is a function from (host, port, request) to the recv results, and None stands for any exception the socket raises.
- The request is kept as text. Its UTF-8 encoding before sending is not modelled.
- Http.Decode: bytes are decoded one character per byte. Python's `decode('utf-8', errors='ignore')` agrees only when the bytes are ASCII. With multi-byte or invalid UTF-8 before the delimiter, the index found in the decoded text no longer matches the byte offset used to slice the body. The model does not capture that misalignment. The header text itself can also differ: Python drops invalid bytes, while the model reads bytes 0x85 and 0xA0 as white space for `split()`. A status line `HTTP/1.1`, then byte 0xA0, then `200 OK` decodes in Python to `HTTP/1.1200 OK`, whose second token `OK` makes `int()` raise and the download fail; the model reads the code 200 and the download succeeds.
- PyText.ParseInt: only ASCII digits are read. Python's `int()` also accepts other Unicode decimal digits. It also strips every character that `str.isspace` accepts, which is more than `int()` skips (`'\x1c'` to `'\x1f'`, for example). This never matters at line 127, because the tokens of `split()` hold no white space.
- PyText.ParseInt: there is no limit on the number of digits. Python 3.11 and later (and the 2022 security releases of earlier versions) make `int()` raise ValueError on a string of more than 4300 digits. `download_file` catches that error and returns `(False, 0, 0)`. The model instead reads a status code such as 4298 zeros followed by `200` as 200 and accepts the response.
- Timing is a parameter: `time.time()` and the elapsed time that `download_file` reports. The `total_time` that `download_sequential` returns is left out.
- Writing files is not modelled: `os.makedirs` and the write of the body. A store is a function from (path, body) to success.
- Opening the URL file in `read_urls_from_file`, and the `sys.exit` on a read error, are not modelled. The model starts from the file's lines.
- `urllib.parse.urlparse` is taken as given fields, or as a function parameter in `download_sequential`. An exception it raises there, outside any `try`, is not modelled. How urlparse finds the port text in the URL, and which Python versions check its range, is not modelled: the port field already says whether that text is absent, all digits (with its value), or something else.
- Dispatch.DownloadSequential: each download is a function of (url, output path). Two downloads of the same URL to the same path therefore have the same outcome, whereas real ones depend on the network at the time.
- `download_concurrent` and `download_worker` are not modelled. They are about threads, a shared queue and sentinel shutdown. Their file-name fallback uses Python's per-process salted `hash`.
- `main`, argument parsing and the summary printing are not modelled. In batch mode the summary filters on a local `success` that is never assigned, which would raise NameError.
- Verbose and diagnostic printing is not modelled.
