/** download_sequential and read_urls_from_file: the URL list read from a
    file, filtered line by line, and the downloads run one after another,
    one result per URL, in order. urlparse and download_file are parameters. */
module Dispatch {
  import opened Wrappers
  import opened PyText
  import opened Url
  import Fetch

  /** One entry of the results list: (url, success, elapsed, size). */
  datatype Record = Record(url: string, success: bool, elapsed: real, size: nat)

  /** download_sequential's fallback name for the i-th URL: f"file_{i}.html". */
  function FallbackName(i: nat): string
  {
    "file_" + Decimal(i) + ".html"
  }

  lemma AffixesHaveNoSlash()
    ensures '/' !in "file_" && '/' !in ".html"
  {
    var p := "file_";
    assert p[0] == 'f' && p[1] == 'i' && p[2] == 'l' && p[3] == 'e' && p[4] == '_';
    var q := ".html";
    assert q[0] == '.' && q[1] == 'h' && q[2] == 't' && q[3] == 'm' && q[4] == 'l';
  }

  lemma DecimalHasNoSlash(i: nat)
    ensures '/' !in Decimal(i)
  {
    var d := Decimal(i);
    DecimalDigits(i);
    forall k | 0 <= k < |d| ensures d[k] != '/' {
      assert IsDigit(d[k]);
    }
  }

  /** download_sequential: the file name for the i-th URL, from the path urlparse
      gives (without the query); "file_<i>.html" when the path ends in '/'. */
  function SequentialFilename(path: string, i: nat): string
  {
    var filename := Basename(path);
    if filename == [] || filename == "/" then FallbackName(i) else filename
  }

  /** The name chosen for a URL is a bare, non-empty file name: the
      path's base name when it has one, "file_<i>.html" otherwise. */
  lemma SequentialFilenameIsName(path: string, i: nat)
    ensures var r := SequentialFilename(path, i);
      r != [] && '/' !in r
      && (Basename(path) != [] ==> r == Basename(path))
      && (Basename(path) == [] ==> r == FallbackName(i))
  {
    BasenameIsLastName(path);
    if Basename(path) == [] {
      AffixesHaveNoSlash();
      DecimalHasNoSlash(i);
      var r := FallbackName(i);
      assert |r| > 0 by {
        assert |".html"| == 5;
      }
    }
  }

  /** download_sequential: the file name inside the output directory, when one is given. */
  function OutputPath(outputDir: Option<string>, filename: string): (r: string)
    ensures outputDir.None? || outputDir.value == [] ==> r == filename
  {
    if outputDir.Some? && outputDir.value != [] then JoinPath(outputDir.value, filename) else filename
  }

  /** Given a non-empty output directory, the file is placed inside it:
      the path is the directory, a '/' unless the directory already ends in
      one, and the file name. */
  lemma OutputInDirectory(outputDir: Option<string>, filename: string)
    requires outputDir.Some? && outputDir.value != []
    requires filename != [] && '/' !in filename
    ensures var r := OutputPath(outputDir, filename);
      |filename| <= |r| && r[|r| - |filename|..] == filename
      && r[..|r| - |filename|] in {outputDir.value, outputDir.value + "/"}
  {
    var dir := outputDir.value;
    JoinPathCases(dir, filename);
    var r := OutputPath(outputDir, filename);
    if r == dir + filename {
      assert r[..|r| - |filename|] == dir;
    } else {
      assert r[..|r| - |filename|] == dir + "/";
    }
  }

  /** The output path download_sequential passes with the
      i-th URL, its file name placed inside the output directory. */
  function PlannedPath(url: string, i: nat, outputDir: Option<string>, urlparse: string -> ParsedUrl): string
  {
    OutputPath(outputDir, SequentialFilename(urlparse(url).path, i))
  }

  /** The file still carries its derived name inside the output directory. */
  lemma OutputKeepsName(outputDir: Option<string>, filename: string)
    requires filename != [] && '/' !in filename
    ensures Basename(OutputPath(outputDir, filename)) == filename
  {
    if outputDir.Some? && outputDir.value != [] {
      BasenameOfJoin(outputDir.value, filename);
    } else {
      BasenameAfterSlash([], filename);
      assert [] + filename == filename;
    }
  }

  /** download_sequential always passes download_file a non-empty output
      path, so the file is written exactly there and download_file's own
      index.html fallback never applies. */
  lemma PlannedPathIsDestination(url: string, i: nat, outputDir: Option<string>,
                                 urlparse: string -> ParsedUrl, path: string)
    ensures Fetch.Destination(Some(PlannedPath(url, i, outputDir, urlparse)), path)
         == PlannedPath(url, i, outputDir, urlparse)
  {
    SequentialFilenameIsName(urlparse(url).path, i);
    OutputKeepsName(outputDir, SequentialFilename(urlparse(url).path, i));
  }

  /** Two URLs whose paths both end in '/' are saved under different names:
      the fallback names are told apart by the URL's index. */
  lemma FallbackNamesDiffer(p: string, q: string, i: nat, j: nat)
    requires Basename(p) == [] && Basename(q) == []
    requires i != j
    ensures SequentialFilename(p, i) != SequentialFilename(q, j)
  {
    if SequentialFilename(p, i) == SequentialFilename(q, j) {
      assert FallbackName(i) == FallbackName(j);
      Unwrap("file_", Decimal(i), Decimal(j), ".html");
      DecimalInjective(i, j);
    }
  }

  /** What stands between the same prefix and suffix is determined. */
  lemma Unwrap<T>(pre: seq<T>, x: seq<T>, y: seq<T>, post: seq<T>)
    requires pre + x + post == pre + y + post
    ensures x == y
  {
    var s := pre + x + post;
    assert |x| == |y|;
    assert x == s[|pre|..|pre| + |x|];
    assert y == (pre + y + post)[|pre|..|pre| + |y|];
  }

  /** The result download_sequential records for the i-th URL: the URL
      and the outcome of downloading it to its planned output path. */
  function ResultFor(url: string, i: nat, outputDir: Option<string>, urlparse: string -> ParsedUrl,
                     download: (string, string) -> Fetch.Outcome): Record
  {
    var outcome := download(url, PlannedPath(url, i, outputDir, urlparse));
    Record(url, outcome.success, outcome.time, outcome.size)
  }

  /** The record for URL i is built from download_file's outcome for that
      URL and its planned output path. */
  lemma RecordOfDownload(url: string, i: nat, outputDir: Option<string>, urlparse: string -> ParsedUrl,
                         download: (string, string) -> Fetch.Outcome)
    ensures var outcome := download(url, PlannedPath(url, i, outputDir, urlparse));
      ResultFor(url, i, outputDir, urlparse, download) == Record(url, outcome.success, outcome.time, outcome.size)
  {
  }

  /** download_sequential: one download per URL, in input order, each result
      appended as (url, success, elapsed, size). */
  method DownloadSequential(urls: seq<string>, outputDir: Option<string>,
                            urlparse: string -> ParsedUrl,
                            download: (string, string) -> Fetch.Outcome)
    returns (results: seq<Record>)
    ensures |results| == |urls|
    ensures forall i :: 0 <= i < |urls| ==> results[i] == ResultFor(urls[i], i, outputDir, urlparse, download)
  {
    results := [];
    var i := 0;
    while i < |urls|
      invariant 0 <= i <= |urls|
      invariant |results| == i
      invariant forall k :: 0 <= k < i ==> results[k] == ResultFor(urls[k], k, outputDir, urlparse, download)
    {
      var url := urls[i];
      var outputPath := PlannedPath(url, i, outputDir, urlparse);
      var outcome := download(url, outputPath);
      var record := Record(url, outcome.success, outcome.time, outcome.size);
      RecordOfDownload(url, i, outputDir, urlparse, download);
      results := results + [record];
      i := i + 1;
    }
  }

  /** read_urls_from_file: a stripped line is a URL unless it is empty or a comment. */
  predicate Kept(line: string)
  {
    var s := Strip(line);
    s != [] && s[0] != '#'
  }

  /** read_urls_from_file: the stripped lines that are kept, in file order. */
  function UrlLines(lines: seq<string>): (r: seq<string>)
    ensures |r| <= |lines|
  {
    if lines == [] then []
    else
      var last := lines[|lines| - 1];
      UrlLines(lines[..|lines| - 1]) + (if Kept(last) then [Strip(last)] else [])
  }

  /** read_urls_from_file's loop over the lines of the open file. */
  method ReadUrls(lines: seq<string>) returns (urls: seq<string>)
    ensures urls == UrlLines(lines)
  {
    urls := [];
    var i := 0;
    while i < |lines|
      invariant 0 <= i <= |lines|
      invariant urls == UrlLines(lines[..i])
    {
      assert lines[..i + 1][..i] == lines[..i];
      var line := Strip(lines[i]);
      if line != [] && line[0] != '#' {
        urls := urls + [line];
      }
      i := i + 1;
    }
    assert lines[..i] == lines;
  }

  /** Non-empty, no white space at either end, not a comment. */
  predicate Clean(u: string)
  {
    u != [] && u[0] != '#' && !IsSpace(u[0]) && !IsSpace(u[|u| - 1])
  }

  lemma KeptIsClean(line: string)
    requires Kept(line)
    ensures Clean(Strip(line))
  {
  }

  /** Every URL read is non-empty, carries no surrounding whitespace and is
      not a comment. */
  lemma {:induction false} UrlLinesClean(lines: seq<string>)
    ensures forall k :: 0 <= k < |UrlLines(lines)| ==> Clean(UrlLines(lines)[k])
    decreases |lines|
  {
    if lines != [] {
      var init := lines[..|lines| - 1];
      var last := lines[|lines| - 1];
      UrlLinesClean(init);
      var before := UrlLines(init);
      var added := if Kept(last) then [Strip(last)] else [];
      assert UrlLines(lines) == before + added;
      forall k | 0 <= k < |UrlLines(lines)| ensures Clean(UrlLines(lines)[k]) {
        if k < |before| {
          assert UrlLines(lines)[k] == before[k];
        } else {
          assert UrlLines(lines)[k] == Strip(last);
          KeptIsClean(last);
        }
      }
    }
  }

  /** Reading two parts of a file one after the other gives the URLs of
      the first part followed by those of the second: order is kept. */
  lemma {:induction false} UrlLinesAppend(a: seq<string>, b: seq<string>)
    ensures UrlLines(a + b) == UrlLines(a) + UrlLines(b)
    decreases |b|
  {
    if b == [] {
      assert a + b == a;
    } else {
      var b' := b[..|b| - 1];
      assert (a + b)[..|a + b| - 1] == a + b';
      UrlLinesAppend(a, b');
    }
  }

  /** Every URL read comes from a kept line of the file. */
  lemma {:induction false} UrlLineOrigin(lines: seq<string>, u: string) returns (i: nat)
    requires u in UrlLines(lines)
    ensures i < |lines| && Kept(lines[i]) && Strip(lines[i]) == u
    decreases |lines|
  {
    var init := lines[..|lines| - 1];
    if u in UrlLines(init) {
      i := UrlLineOrigin(init, u);
      assert lines[i] == init[i];
    } else {
      i := |lines| - 1;
    }
  }

  /** Every kept line of the file is read as a URL. */
  lemma {:induction false} UrlLineKept(lines: seq<string>, i: nat)
    requires i < |lines| && Kept(lines[i])
    ensures Strip(lines[i]) in UrlLines(lines)
    decreases |lines|
  {
    var init := lines[..|lines| - 1];
    if i < |lines| - 1 {
      assert init[i] == lines[i];
      UrlLineKept(init, i);
    }
  }

  /** A string is read as a URL exactly when some line strips to it and
      that line is kept. */
  lemma UrlLinesMembers(lines: seq<string>, u: string)
    ensures u in UrlLines(lines) <==> exists i :: 0 <= i < |lines| && Kept(lines[i]) && Strip(lines[i]) == u
  {
    if u in UrlLines(lines) {
      var i := UrlLineOrigin(lines, u);
    }
    if i :| 0 <= i < |lines| && Kept(lines[i]) && Strip(lines[i]) == u {
      UrlLineKept(lines, i);
    }
  }
}
