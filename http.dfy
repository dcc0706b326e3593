/** The HTTP/1.1 side of download_file: the GET request it serialises
    (RFC 9112 sections 2.1, 3 and 9.6; RFC 9110 section 7.2) and the gate
    the received bytes pass through: split at the first CRLF CRLF into
    header section and body (RFC 9112 section 2.1), a status line that
    starts with "HTTP/1." (RFC 9112 section 4), and a status code of 200. */
module Http {
  import opened Wrappers
  import opened PyText

  type byte = x: int | 0 <= x < 256

  const CRLF: string := "\r\n"

  /** The empty line after the last header field: CRLF CRLF. */
  const Delimiter: string := "\r\n\r\n"
  const DelimiterBytes: seq<byte> := [13, 10, 13, 10]

  /** The request line and the header fields of the request download_file sends. */
  function RequestLines(path: string, hostname: string): seq<string>
  {
    ["GET " + path + " HTTP/1.1", "Host: " + hostname, "Connection: close"]
  }

  /** A header section on the wire: every line ended by CRLF, then the empty line. */
  function HeaderBlock(lines: seq<string>): string
  {
    if lines == [] then CRLF else lines[0] + CRLF + HeaderBlock(lines[1..])
  }

  /** The lines joined by CRLF: what split('\r\n') takes apart again. */
  function JoinLines(lines: seq<string>): string
  {
    if lines == [] then ""
    else if |lines| == 1 then lines[0]
    else lines[0] + CRLF + JoinLines(lines[1..])
  }

  /** A start line or field line: non-empty, with no CR and no LF in it. */
  predicate IsLine(line: string)
  {
    line != [] && '\r' !in line && '\n' !in line
  }

  /** download_file builds its request by appending the request line, the
      Host field, the Connection field and the empty line in turn. */
  method BuildRequest(path: string, hostname: string) returns (request: string)
    ensures request == HeaderBlock(RequestLines(path, hostname))
  {
    request := "GET " + path + " HTTP/1.1\r\n";
    request := request + "Host: " + hostname + "\r\n";
    request := request + "Connection: close\r\n";
    request := request + "\r\n";
    assert HeaderBlock(RequestLines(path, hostname)[2..]) == "Connection: close\r\n\r\n";
    assert RequestLines(path, hostname)[1..][1..] == RequestLines(path, hostname)[2..];
  }

  lemma {:induction false} HeaderBlockIsJoinedLines(lines: seq<string>)
    requires lines != []
    ensures HeaderBlock(lines) == JoinLines(lines) + Delimiter
    decreases |lines|
  {
    if |lines| == 1 {
      assert lines[1..] == [];
    } else {
      HeaderBlockIsJoinedLines(lines[1..]);
    }
  }

  /** No LF is directly followed by a CR. */
  predicate NoLfCr(s: string)
  {
    forall k :: 0 <= k < |s| - 1 ==> !(s[k] == '\n' && s[k + 1] == '\r')
  }

  lemma NoLfCrHasNoDelimiter(s: string)
    requires NoLfCr(s)
    ensures forall k :: !OccursAt(s, Delimiter, k)
  {
    forall k ensures !OccursAt(s, Delimiter, k) {
      if 0 <= k && k + 4 <= |s| {
        assert s[k + 1] == s[k..k + 4][1];
        assert s[k + 2] == s[k..k + 4][2];
      }
    }
  }

  /** Lines joined by CRLF hold no LF-CR pair, so no CRLF CRLF, and end in
      neither CR nor LF. */
  lemma {:induction false} JoinedLinesAreClean(lines: seq<string>)
    requires lines != []
    requires forall i :: 0 <= i < |lines| ==> IsLine(lines[i])
    ensures var s := JoinLines(lines);
      && s != [] && s[0] != '\r'
      && NoLfCr(s)
      && s[|s| - 1] != '\r' && s[|s| - 1] != '\n'
    decreases |lines|
  {
    var l := lines[0];
    assert IsLine(l);
    assert l[0] in l && l[|l| - 1] in l;
    if |lines| == 1 {
      forall k | 0 <= k < |l| - 1 ensures !(l[k] == '\n' && l[k + 1] == '\r') {
        assert l[k] in l;
      }
    } else {
      var rest := JoinLines(lines[1..]);
      JoinedLinesAreClean(lines[1..]);
      var s := l + CRLF + rest;
      forall k | 0 <= k < |s| - 1 ensures !(s[k] == '\n' && s[k + 1] == '\r') {
        if k < |l| {
          assert s[k] == l[k] && l[k] in l;
        } else if k == |l| {
          assert s[k] == '\r';
        } else if k == |l| + 1 {
          assert s[k + 1] == rest[0];
        } else {
          assert s[k] == rest[k - |l| - 2] && s[k + 1] == rest[k + 1 - |l| - 2];
        }
      }
      assert s[|s| - 1] == rest[|rest| - 1];
    }
  }

  /** An occurrence in a prefix is an occurrence in the whole, and an
      occurrence in the whole that ends inside the prefix is one there. */
  lemma OccursInPrefix<T>(s: seq<T>, t: seq<T>, pat: seq<T>, k: int)
    requires 0 <= k && k + |pat| <= |s|
    ensures OccursAt(s + t, pat, k) <==> OccursAt(s, pat, k)
  {
    assert (s + t)[k..k + |pat|] == s[k..k + |pat|];
  }

  /** An occurrence of CRLF CRLF in h + CRLF CRLF that starts inside h but
      runs past its end starts two characters before the end, so h ends in
      CRLF. */
  lemma LateDelimiter(h: string, k: int)
    requires 0 <= k < |h| < k + 4
    requires OccursAt(h + Delimiter, Delimiter, k)
    ensures k == |h| - 2 && h[|h| - 2..] == CRLF
  {
    var s := h + Delimiter;
    assert s[k..k + 4] == Delimiter;
    assert s[k] == '\r' && s[k + 1] == '\n' && s[k + 2] == '\r' && s[k + 3] == '\n' by {
      assert s[k] == s[k..k + 4][0] && s[k + 1] == s[k..k + 4][1];
      assert s[k + 2] == s[k..k + 4][2] && s[k + 3] == s[k..k + 4][3];
    }
    assert s[|h|] == '\r';
    assert k == |h| - 2;
    assert h[|h| - 2..] == [s[k], s[k + 1]];
  }

  /** Where the first CRLF CRLF of h + CRLF CRLF lies before h ends: exactly
      when h already holds one or ends in CRLF. */
  lemma EarlyDelimiter(h: string)
    ensures (exists k :: 0 <= k < |h| && OccursAt(h + Delimiter, Delimiter, k))
        <==> (exists k :: OccursAt(h, Delimiter, k)) || (|h| >= 2 && h[|h| - 2..] == CRLF)
  {
    var s := h + Delimiter;
    if k :| 0 <= k < |h| && OccursAt(s, Delimiter, k) {
      if k + 4 <= |h| {
        OccursInPrefix(h, Delimiter, Delimiter, k);
      } else {
        LateDelimiter(h, k);
      }
    }
    if k :| OccursAt(h, Delimiter, k) {
      OccursInPrefix(h, Delimiter, Delimiter, k);
    }
    if |h| >= 2 && h[|h| - 2..] == CRLF {
      var k := |h| - 2;
      assert s[k..k + 4] == h[k..] + Delimiter[..2];
      assert 0 <= k < |h| && OccursAt(s, Delimiter, k);
    }
  }

  /** Python's bytes.decode('utf-8', errors='ignore'), taken byte for byte:
      each byte becomes the character with the same code. This agrees with
      Python wherever the bytes are ASCII. */
  function Decode(data: seq<byte>): (s: string)
    ensures |s| == |data| && forall i :: 0 <= i < |data| ==> s[i] as int == data[i]
  {
    seq(|data|, i requires 0 <= i < |data| => data[i] as char)
  }

  lemma DecodeAppend(a: seq<byte>, b: seq<byte>)
    ensures Decode(a + b) == Decode(a) + Decode(b)
  {
    assert forall i :: 0 <= i < |a| + |b| ==> Decode(a + b)[i] == (Decode(a) + Decode(b))[i];
  }

  /** download_file: find the first CRLF CRLF in the decoded text; the
      header section is the text before it, the body the raw bytes after it. */
  function SplitResponse(data: seq<byte>): (r: Option<(string, seq<byte>)>)
    ensures r.None? <==> forall k :: !OccursAt(Decode(data), Delimiter, k)
    ensures r.Some? ==>
      && |r.value.0| + 4 <= |data|
      && OccursAt(Decode(data), Delimiter, |r.value.0|)
      && (forall k :: 0 <= k < |r.value.0| ==> !OccursAt(Decode(data), Delimiter, k))
      && r.value.0 == Decode(data[..|r.value.0|])
      && r.value.1 == data[|r.value.0| + 4..]
  {
    var text := Decode(data);
    var headerEnd := Find(text, Delimiter);
    if headerEnd == -1 then None
    else
      assert text[..headerEnd] == Decode(data[..headerEnd]);
      Some((text[..headerEnd], data[headerEnd + 4..]))
  }

  /** Round trip of the split: a header section h sent before CRLF CRLF and
      a body comes back as exactly (h, body), whatever the body holds, if
      and only if h holds no CRLF CRLF of its own and does not end in CRLF. */
  lemma SplitRoundTrip(head: seq<byte>, body: seq<byte>)
    ensures SplitResponse(head + DelimiterBytes + body) == Some((Decode(head), body))
        <==> (forall k :: !OccursAt(Decode(head), Delimiter, k))
             && !(|head| >= 2 && Decode(head)[|head| - 2..] == CRLF)
  {
    var data := head + DelimiterBytes + body;
    var h := Decode(head);
    var text := Decode(data);
    assert text == (h + Delimiter) + Decode(body) by {
      DecodeFraming(head, body);
    }
    assert OccursAt(text, Delimiter, |h|) by {
      OccursInPrefix(h + Delimiter, Decode(body), Delimiter, |h|);
      assert (h + Delimiter)[|h|..|h| + 4] == Delimiter;
    }
    assert forall k :: 0 <= k < |h| ==> (OccursAt(text, Delimiter, k) <==> OccursAt(h + Delimiter, Delimiter, k)) by {
      forall k | 0 <= k < |h| ensures OccursAt(text, Delimiter, k) <==> OccursAt(h + Delimiter, Delimiter, k) {
        OccursInPrefix(h + Delimiter, Decode(body), Delimiter, k);
      }
    }
    EarlyDelimiter(h);
    assert data[..|head|] == head && data[|head| + 4..] == body;
    SplitAtFirst(data, |h|);
  }

  /** The split gives the text and bytes around n exactly when the first
      CRLF CRLF of the decoded text starts at n. */
  lemma SplitAtFirst(data: seq<byte>, n: nat)
    requires OccursAt(Decode(data), Delimiter, n)
    ensures SplitResponse(data) == Some((Decode(data[..n]), data[n + 4..]))
        <==> forall k :: 0 <= k < n ==> !OccursAt(Decode(data), Delimiter, k)
  {
    var r := SplitResponse(data);
    assert r.Some?;
    var m := |r.value.0|;
    assert m <= n;
    assert (forall k :: 0 <= k < n ==> !OccursAt(Decode(data), Delimiter, k)) ==> m == n;
    assert m == n ==> r == Some((Decode(data[..n]), data[n + 4..]));
  }

  /** Decoding the framed bytes frames the decoded text. */
  lemma DecodeFraming(head: seq<byte>, body: seq<byte>)
    ensures Decode(head + DelimiterBytes + body) == (Decode(head) + Delimiter) + Decode(body)
  {
    DecodeAppend(head + DelimiterBytes, body);
    DecodeAppend(head, DelimiterBytes);
    assert Decode(DelimiterBytes) == Delimiter;
  }

  /** Why a response is turned away. */
  datatype Rejection =
    | NoHeaderEnd       // no CRLF CRLF anywhere
    | NotHttp1          // status line does not start with "HTTP/1."
    | NoStatusCode      // no second token, or it is not an integer
    | NotOk(code: int)  // any status code other than 200

  /** headers.split('\r\n')[0]. */
  function StatusLine(headers: string): (r: string)
    ensures |r| <= |headers| && r == headers[..|r|]
    ensures r == headers || OccursAt(headers, CRLF, |r|)
    ensures forall k :: 0 <= k < |r| ==> !OccursAt(headers, CRLF, k)
  {
    SplitFirst(headers, CRLF)
  }

  /** download_file: the status check on a split response. */
  function CheckStatus(headers: string, body: seq<byte>): (r: Result<seq<byte>, Rejection>)
    ensures r.Ok? ==> r.value == body
    ensures r.Ok? ==> StartsWith(StatusLine(headers), Http1)
    ensures r.Ok? ==> var tokens := Tokens(StatusLine(headers));
      |tokens| >= 2 && ParseInt(tokens[1]) == Some(200)
    ensures r != Err(NoHeaderEnd)
    ensures r.Err? && r.error.NotOk? ==> r.error.code != 200
  {
    var statusLine := StatusLine(headers);
    if !StartsWith(statusLine, Http1) then Err(NotHttp1)
    else
      var tokens := Tokens(statusLine);
      if |tokens| < 2 then Err(NoStatusCode)
      else
        match ParseInt(tokens[1])
        case None => Err(NoStatusCode)
        case Some(code) => if code != 200 then Err(NotOk(code)) else Ok(body)
  }

  /** download_file: the body of an acceptable response, or why it was
      rejected. The IndexError and ValueError raised while reading the status code become NoStatusCode. */
  function CheckResponse(data: seq<byte>): (r: Result<seq<byte>, Rejection>)
    ensures r == Err(NoHeaderEnd) <==> SplitResponse(data).None?
    ensures r.Ok? ==> SplitResponse(data).Some? && r.value == SplitResponse(data).value.1
    ensures r.Ok? ==> var statusLine := StatusLine(SplitResponse(data).value.0);
      StartsWith(statusLine, Http1) && |Tokens(statusLine)| >= 2
      && ParseInt(Tokens(statusLine)[1]) == Some(200)
  {
    var split := SplitResponse(data);
    if split.None? then Err(NoHeaderEnd)
    else CheckStatus(split.value.0, split.value.1)
  }

  /** split('\r\n')[0] of a line without CR, alone or followed by CRLF
      and more, is that line. */
  lemma StatusLineOf(line: string, rest: string)
    requires '\r' !in line
    ensures StatusLine(line) == line
    ensures StatusLine(line + CRLF + rest) == line
  {
    forall k | 0 <= k < |line| ensures !OccursAt(line, CRLF, k) {
      assert line[k] in line;
    }
    var s := line + CRLF + rest;
    forall k | 0 <= k < |line| ensures !OccursAt(s, CRLF, k) {
      assert s[k] == line[k] && line[k] in line;
      if k + 2 <= |s| {
        assert s[k..k + 2][0] == s[k];
      }
    }
    assert OccursAt(s, CRLF, |line|) by {
      assert s[|line|..|line| + 2] == CRLF;
    }
    var r := StatusLine(s);
    assert |r| == |line|;
    assert r == s[..|line|] == line;
  }

  lemma StatusLineOfJoined(lines: seq<string>)
    requires lines != [] && '\r' !in lines[0]
    ensures StatusLine(JoinLines(lines)) == lines[0]
  {
    StatusLineOf(lines[0], JoinLines(lines[1..]));
  }

  /** The start of every status line the gate accepts. */
  const Http1: string := "HTTP/1."

  lemma Http1Chars()
    ensures |Http1| == 7 && NoSpace(Http1) && '\r' !in Http1 && '\n' !in Http1
  {
    var v := Http1;
    assert v[0] == 'H' && v[1] == 'T' && v[2] == 'T' && v[3] == 'P';
    assert v[4] == '/' && v[5] == '1' && v[6] == '.';
  }

  /** A status line as a server writes it: "HTTP/1." and the minor version,
      a space, the code in decimal, a space, the reason phrase. */
  function StatusLineText(minor: string, code: nat, reason: string): string
  {
    Http1 + minor + " " + Decimal(code) + " " + reason
  }

  lemma StatusLineVersion(minor: string, code: nat, reason: string)
    ensures StartsWith(StatusLineText(minor, code, reason), Http1)
  {
    var s := StatusLineText(minor, code, reason);
    Http1Chars();
    assert s == Http1 + (minor + " " + Decimal(code) + " " + reason);
    assert s[..7] == Http1;
  }

  lemma Regroup5<T>(a: seq<T>, b: seq<T>, c: seq<T>, d: seq<T>, e: seq<T>)
    ensures a + b + c + d + e == a + (b + (c + (d + e)))
  {
  }

  lemma StatusLineTokens(minor: string, code: nat, reason: string)
    requires NoSpace(minor)
    ensures |Tokens(StatusLineText(minor, code, reason))| >= 2
    ensures Tokens(StatusLineText(minor, code, reason))[1] == Decimal(code)
  {
    var version := Http1 + minor;
    var digits := Decimal(code);
    assert NoSpace(version) by {
      Http1Chars();
      NoSpaceAppend(Http1, minor);
    }
    assert version != [] by {
      Http1Chars();
    }
    DecimalDigits(code);
    DecimalHasNoSpace(code);
    var tail := " " + reason;
    assert StatusLineText(minor, code, reason) == version + ([' '] + (digits + tail)) by {
      Regroup5(version, " ", digits, " ", reason);
    }
    TwoTokens(version, digits, tail);
  }

  lemma NoSpaceHasNoCrLf(s: string)
    requires NoSpace(s)
    ensures '\r' !in s && '\n' !in s
  {
    forall k | 0 <= k < |s| ensures s[k] != '\r' && s[k] != '\n' {
      assert !IsSpace(s[k]);
    }
  }

  /** A status line whose minor version has no white space and whose reason
      phrase has no CR or LF is a line. */
  lemma StatusLineIsLine(minor: string, code: nat, reason: string)
    requires NoSpace(minor)
    requires '\r' !in reason && '\n' !in reason
    ensures IsLine(StatusLineText(minor, code, reason))
  {
    Http1Chars();
    NoSpaceHasNoCrLf(minor);
    DecimalHasNoSpace(code);
    NoSpaceHasNoCrLf(Decimal(code));
    assert ' ' != '\r' && ' ' != '\n';
    assert |StatusLineText(minor, code, reason)| >= |Http1|;
  }

  /** The whole gate on a response a server could send: a status line,
      further header fields, the empty line and any body. It is accepted
      with exactly that body when the code is 200 and rejected with the
      code otherwise. */
  lemma GateOnWellFormedResponse(minor: string, code: nat, reason: string, fields: seq<string>,
                                 head: seq<byte>, body: seq<byte>)
    requires NoSpace(minor)
    requires '\r' !in reason && '\n' !in reason
    requires forall i :: 0 <= i < |fields| ==> IsLine(fields[i])
    requires Decode(head) == JoinLines([StatusLineText(minor, code, reason)] + fields)
    ensures CheckResponse(head + DelimiterBytes + body) == if code == 200 then Ok(body) else Err(NotOk(code))
  {
    var h := Decode(head);
    WellFormedSplit(minor, code, reason, fields, head, body);
    WellFormedStatusLine(minor, code, reason, fields, h);
    GateOnStatusCode(h, body, code);
  }

  /** A head made of clean lines is split off exactly at the delimiter that
      follows it. */
  lemma WellFormedSplit(minor: string, code: nat, reason: string, fields: seq<string>,
                        head: seq<byte>, body: seq<byte>)
    requires NoSpace(minor)
    requires '\r' !in reason && '\n' !in reason
    requires forall i :: 0 <= i < |fields| ==> IsLine(fields[i])
    requires Decode(head) == JoinLines([StatusLineText(minor, code, reason)] + fields)
    ensures SplitResponse(head + DelimiterBytes + body) == Some((Decode(head), body))
  {
    var lines := [StatusLineText(minor, code, reason)] + fields;
    assert IsLine(lines[0]) by {
      StatusLineIsLine(minor, code, reason);
    }
    assert forall i :: 0 <= i < |lines| ==> IsLine(lines[i]) by {
      forall i | 0 <= i < |lines|
        ensures IsLine(lines[i])
      {
        if i > 0 {
          assert lines[i] == fields[i - 1];
        }
      }
    }
    JoinedLinesAreClean(lines);
    NoLfCrHasNoDelimiter(Decode(head));
    SplitRoundTrip(head, body);
  }

  /** The status line of a well-formed head is the built one: it carries the
      version prefix and its second token parses back to the code. */
  lemma WellFormedStatusLine(minor: string, code: nat, reason: string, fields: seq<string>, h: string)
    requires NoSpace(minor)
    requires '\r' !in reason && '\n' !in reason
    requires forall i :: 0 <= i < |fields| ==> IsLine(fields[i])
    requires h == JoinLines([StatusLineText(minor, code, reason)] + fields)
    ensures StartsWith(StatusLine(h), Http1)
    ensures |Tokens(StatusLine(h))| >= 2 && ParseInt(Tokens(StatusLine(h))[1]) == Some(code)
  {
    var statusLine := StatusLineText(minor, code, reason);
    assert StatusLine(h) == statusLine by {
      StatusLineIsLine(minor, code, reason);
      StatusLineOfJoined([statusLine] + fields);
    }
    StatusLineVersion(minor, code, reason);
    StatusLineTokens(minor, code, reason);
    ParseDecimal(code);
  }

  /** Once the version prefix and the status token are known, the status
      check depends only on the code. */
  lemma GateOnStatusCode(headers: string, body: seq<byte>, code: int)
    requires StartsWith(StatusLine(headers), Http1)
    requires |Tokens(StatusLine(headers))| >= 2 && ParseInt(Tokens(StatusLine(headers))[1]) == Some(code)
    ensures CheckStatus(headers, body) == if code == 200 then Ok(body) else Err(NotOk(code))
  {
  }

  lemma RequestLinesAreLines(path: string, hostname: string)
    requires '\r' !in path && '\n' !in path && '\r' !in hostname && '\n' !in hostname
    ensures forall i :: 0 <= i < |RequestLines(path, hostname)| ==> IsLine(RequestLines(path, hostname)[i])
  {
    var lines := RequestLines(path, hostname);
    forall i | 0 <= i < |lines| ensures IsLine(lines[i]) {
      forall k | 0 <= k < |lines[i]| ensures lines[i][k] != '\r' && lines[i][k] != '\n' {
        if i == 0 && 4 <= k < 4 + |path| {
          assert lines[i][k] == path[k - 4] && path[k - 4] in path;
        } else if i == 1 && 6 <= k {
          assert lines[i][k] == hostname[k - 6] && hostname[k - 6] in hostname;
        }
      }
    }
  }

  /** The request serialised by BuildRequest is a well-formed header
      section: its request line comes back from split('\r\n')[0], and its
      first CRLF CRLF is its last four characters. */
  lemma RequestIsHeaderSection(path: string, hostname: string)
    requires '\r' !in path && '\n' !in path && '\r' !in hostname && '\n' !in hostname
    ensures var request := HeaderBlock(RequestLines(path, hostname));
      && StatusLine(request) == "GET " + path + " HTTP/1.1"
      && Find(request, Delimiter) == |request| - 4
  {
    var lines := RequestLines(path, hostname);
    var request := HeaderBlock(lines);
    assert forall i :: 0 <= i < |lines| ==> IsLine(lines[i]) by {
      RequestLinesAreLines(path, hostname);
    }
    var joined := JoinLines(lines);
    assert request == joined + Delimiter by {
      HeaderBlockIsJoinedLines(lines);
    }
    assert NoLfCr(joined) && joined[|joined| - 1] != '\n' by {
      JoinedLinesAreClean(lines);
    }
    assert forall k :: 0 <= k < |joined| ==> !OccursAt(request, Delimiter, k) by {
      NoLfCrHasNoDelimiter(joined);
      EarlyDelimiter(joined);
    }
    assert OccursAt(request, Delimiter, |joined|);
    assert StatusLine(request) == lines[0] by {
      StatusLineOf(lines[0], HeaderBlock(lines[1..]));
    }
  }
}
