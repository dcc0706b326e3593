/** download_file: one URL fetched over a single HTTP/1.1 exchange and its
    body stored. The socket, the clock and the file system are parameters:
    the exchange is a function from (host, port, request) to the chunks the
    connection delivers (None when connecting, sending or receiving raises),
    the write is a function from (path, body) to whether it succeeded, and
    the elapsed time is a given number. */
module Fetch {
  import opened Wrappers
  import opened PyText
  import opened Url
  import opened Http

  /** The (success, download_time, file_size) triple download_file returns. */
  datatype Outcome = Outcome(success: bool, time: real, size: nat)

  /** What every failure path returns. */
  const Failure: Outcome := Outcome(false, 0.0, 0)

  /** The connection: the successive results of recv for the request sent to
      (host, port), or None when the socket raises. */
  type Network = (string, nat, string) -> Option<seq<seq<byte>>>

  /** Creating the directory and writing the body to the path; false when
      either raises. */
  type Store = (string, seq<byte>) -> bool

  /** Everything recv returned before the first empty chunk (end of stream). */
  function Received(chunks: seq<seq<byte>>): seq<byte>
  {
    if chunks == [] || chunks[0] == [] then [] else chunks[0] + Received(chunks[1..])
  }

  /** All the chunks, one after another. */
  function Concat(chunks: seq<seq<byte>>): seq<byte>
  {
    if chunks == [] then [] else chunks[0] + Concat(chunks[1..])
  }

  /** The response is every byte the server sent before closing, and
      nothing the stream might carry after the close. */
  lemma {:induction false} ReceivedUntilClose(sent: seq<seq<byte>>, after: seq<seq<byte>>)
    requires forall i :: 0 <= i < |sent| ==> sent[i] != []
    ensures Received(sent) == Concat(sent)
    ensures Received(sent + [[]] + after) == Concat(sent)
    decreases |sent|
  {
    if sent == [] {
      assert (sent + [[]] + after)[0] == [];
    } else {
      ReceivedUntilClose(sent[1..], after);
      assert (sent + [[]] + after)[1..] == sent[1..] + [[]] + after;
    }
  }

  /** download_file's receive loop: recv until an empty chunk, appending each chunk. */
  method Receive(chunks: seq<seq<byte>>) returns (data: seq<byte>)
    ensures data == Received(chunks)
  {
    data := [];
    var i := 0;
    while i < |chunks| && chunks[i] != []
      invariant 0 <= i <= |chunks|
      invariant Received(chunks) == data + Received(chunks[i..])
    {
      assert chunks[i..][1..] == chunks[i + 1..];
      data := data + chunks[i];
      i := i + 1;
    }
  }

  /** download_file: the file name taken from the request path, which still
      carries the query; "index.html" when the path ends in '/'. */
  function DefaultFilename(path: string): (r: string)
    ensures r != [] && '/' !in r
    ensures Basename(path) != [] ==> r == Basename(path)
    ensures Basename(path) == [] ==> r == IndexName
  {
    var filename := Basename(path);
    BasenameIsLastName(path);
    if filename == [] || filename == "/" then
      IndexHasNoSlash();
      IndexName
    else filename
  }

  /** The name of a page saved for a path that ends in '/'. */
  const IndexName: string := "index.html"

  lemma IndexHasNoSlash()
    ensures IndexName != [] && '/' !in IndexName
  {
    var r := IndexName;
    assert r[0] == 'i' && r[1] == 'n' && r[2] == 'd' && r[3] == 'e' && r[4] == 'x';
    assert r[5] == '.' && r[6] == 'h' && r[7] == 't' && r[8] == 'm' && r[9] == 'l';
  }

  /** A path ending in '/' names no file: the page is saved as index.html. */
  lemma DirectoryPathIsIndex(dir: string)
    ensures DefaultFilename(dir + "/") == IndexName
  {
    BasenameIsLastName(dir + "/");
  }

  /** Where the body is written: the given output path, or the name taken
      from the path when none (None or "") is given. */
  function Destination(outputPath: Option<string>, path: string): (r: string)
    ensures r != []
    ensures outputPath.Some? && outputPath.value != [] ==> r == outputPath.value
    ensures outputPath.None? || outputPath.value == [] ==> r == DefaultFilename(path)
  {
    if outputPath.None? || outputPath.value == [] then DefaultFilename(path) else outputPath.value
  }

  /** The query is part of the request path, so it ends up in the name of
      the saved file. */
  lemma QueryInFilename(u: ParsedUrl, dir: string, name: string)
    requires HasHostname(u) && PortReadable(u)
    requires u.path == dir + "/" + name
    requires '/' !in name && '/' !in u.query && u.query != []
    ensures Destination(None, ParseUrl(u).value.path) == name + "?" + u.query
  {
    var p := ParseUrl(u).value.path;
    assert p == (dir + "/") + (name + "?" + u.query);
    BasenameAfterSlash(dir + "/", name + "?" + u.query);
  }

  /** The request download_file sends to a target. */
  function Request(t: Target): string
  {
    HeaderBlock(RequestLines(t.path, t.hostname))
  }

  /** The bytes of the response to the request for t, or None when the
      socket raises. */
  function Exchange(t: Target, network: Network): Option<seq<byte>>
  {
    match network(t.hostname, t.port, Request(t))
    case None => None
    case Some(chunks) => Some(Received(chunks))
  }

  /** download_file: every failure, caught or returned, gives
      (False, 0, 0); a success needs an http target, an accepted response and
      a written file, and reports the body length. */
  function Fetch(url: ParsedUrl, outputPath: Option<string>, network: Network, store: Store, elapsed: real): (r: Outcome)
    ensures !r.success ==> r == Failure
    ensures r.success ==>
      && ParseUrl(url).Ok?
      && ParseUrl(url).value.scheme == "http"
      && url.scheme in {"http", ""}
      && Exchange(ParseUrl(url).value, network).Some?
      && CheckResponse(Exchange(ParseUrl(url).value, network).value).Ok?
      && var body := CheckResponse(Exchange(ParseUrl(url).value, network).value).value;
         r.size == |body| && r.time == elapsed
         && store(Destination(outputPath, ParseUrl(url).value.path), body)
    ensures r.success ==>
      var statusLine := StatusLine(SplitResponse(Exchange(ParseUrl(url).value, network).value).value.0);
      StartsWith(statusLine, Http1) && |Tokens(statusLine)| >= 2
      && ParseInt(Tokens(statusLine)[1]) == Some(200)
  {
    match ParseUrl(url)
    case Err(_) => Failure
    case Ok(t) =>
      if t.scheme != "http" then Failure
      else
        match Exchange(t, network)
        case None => Failure
        case Some(data) =>
          match CheckResponse(data)
          case Err(_) => Failure
          case Ok(body) =>
            if store(Destination(outputPath, t.path), body) then Outcome(true, elapsed, |body|)
            else Failure
  }

  /** download_file itself, step by step: parse, refuse anything but http,
      build and send the request, collect the reply, gate it, store the body. */
  method DownloadFile(url: ParsedUrl, outputPath: Option<string>, network: Network, store: Store, elapsed: real)
    returns (outcome: Outcome)
    ensures outcome == Fetch(url, outputPath, network, store, elapsed)
  {
    var target := ParseUrl(url);
    if target.Err? {
      return Failure;
    }
    var t := target.value;
    if t.scheme != "http" {
      return Failure;
    }
    var request := BuildRequest(t.path, t.hostname);
    var reply := network(t.hostname, t.port, request);
    if reply.None? {
      return Failure;
    }
    var data := Receive(reply.value);
    var checked := CheckResponse(data);
    if checked.Err? {
      return Failure;
    }
    var body := checked.value;
    if !store(Destination(outputPath, t.path), body) {
      return Failure;
    }
    outcome := Outcome(true, elapsed, |body|);
  }

  /** Every step that fails makes the whole download fail: the outcome is
      a success exactly when all of them succeed. */
  lemma FetchSucceedsIff(url: ParsedUrl, outputPath: Option<string>, network: Network, store: Store, elapsed: real)
    ensures Fetch(url, outputPath, network, store, elapsed).success <==>
      && HasHostname(url) && PortReadable(url)
      && url.scheme in {"http", ""}
      && Exchange(ParseUrl(url).value, network).Some?
      && CheckResponse(Exchange(ParseUrl(url).value, network).value).Ok?
      && store(Destination(outputPath, ParseUrl(url).value.path),
               CheckResponse(Exchange(ParseUrl(url).value, network).value).value)
  {
  }

  /** A scheme other than http (https included) fails before any byte is
      sent, whatever the network would have answered. */
  lemma OnlyHttp(url: ParsedUrl, outputPath: Option<string>, network: Network, store: Store, elapsed: real)
    requires url.scheme != "http" && url.scheme != ""
    ensures Fetch(url, outputPath, network, store, elapsed) == Failure
  {
  }

  /** A server that answers with a well-formed response and then closes:
      the download succeeds exactly when the status is 200 and the body is
      written, and the size reported is the body's length. */
  lemma FetchWellFormedResponse(url: ParsedUrl, outputPath: Option<string>, network: Network,
                                store: Store, elapsed: real,
                                minor: string, code: nat, reason: string, fields: seq<string>,
                                head: seq<byte>, body: seq<byte>)
    requires HasHostname(url) && PortReadable(url) && url.scheme == "http"
    requires NoSpace(minor)
    requires '\r' !in reason && '\n' !in reason
    requires forall i :: 0 <= i < |fields| ==> IsLine(fields[i])
    requires Decode(head) == JoinLines([StatusLineText(minor, code, reason)] + fields)
    requires Exchange(ParseUrl(url).value, network) == Some(head + DelimiterBytes + body)
    ensures Fetch(url, outputPath, network, store, elapsed)
         == if code == 200 && store(Destination(outputPath, ParseUrl(url).value.path), body)
            then Outcome(true, elapsed, |body|)
            else Failure
  {
    GateOnWellFormedResponse(minor, code, reason, fields, head, body);
  }
}
