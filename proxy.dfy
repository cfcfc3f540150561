/** The string logic of the proxy's worker (Labs/Lab08-proxy/proxy.c):
    splitting the URL of a request line into host, port and path, building
    the request sent upstream, and buffering the response for the cache
    while relaying it.

    Sockets are replaced by values: the response is the sequence of chunks
    successive reads return, the bytes written to the client are a result,
    and whether the upstream connection opens is a parameter. */
module Proxy {
  import opened Common
  import LruCache

  const MAX_CACHE_SIZE: nat := 1049000
  const MAX_OBJECT_SIZE: nat := 102400
  const MAX_HTTP_LINE: nat := 1024
  /** The largest `ssize_t`; `cache_sz` in `redirect_http_response` has that type. */
  const SSIZE_MAX: nat := 0x7FFF_FFFF_FFFF_FFFF

  /** `user_agent_hdr` without its CR LF, written in three pieces. */
  const USER_AGENT: string :=
    "User-Agent: Mozilla/5.0 " + "(X11; Linux x86_64; rv:10.0.3) " + "Gecko/20120305 Firefox/10.0.3"
  const USER_AGENT_HDR: string := USER_AGENT + "\r\n"

  // ---------------------------------------------------------------------
  // gethostnamefromhttp: host, port and path of `http://<url>`

  /** Where a URL points: the three output buffers of `gethostnamefromhttp`. */
  datatype Target = Target(host: string, port: string, uri: string)

  /** The position of the first `c` in `s`, or `|s|` when there is none. */
  function IndexOf(s: string, c: char): (k: nat)
    ensures k <= |s|
    ensures forall m :: 0 <= m < k ==> s[m] != c
    ensures k < |s| ==> s[k] == c
  {
    if s == [] then 0 else if s[0] == c then 0 else 1 + IndexOf(s[1..], c)
  }

  /** The port buffer when no `':'` came before the `'/'` at position `i`:
      `"80"` is copied in and then cut at `port[i]`. */
  function PortNoColon(i: nat): (p: string)
    ensures i >= 2 ==> p == "80"
    ensures i < 2 ==> p == "80"[..i]
  {
    if i >= 2 then "80" else "80"[..i]
  }

  /** The scanning loop of `gethostnamefromhttp` from position `i`, where
      `j` is one past the last `':'` seen (0 if none) and `host` is what
      the host buffer holds.  `None` when the URL has no `'/'`: the loop
      then runs off the end and the port and path buffers are never set. */
  function Scan(url: string, i: nat, j: nat, host: string): Option<Target>
    requires j <= i <= |url|
    decreases |url| - i
  {
    if i == |url| then None
    else if url[i] == ':' then Scan(url, i + 1, i + 1, url[..i - j])
    else if url[i] == '/' then
      if j == 0 then Some(Target(url[..i], PortNoColon(i), url[i + 1..]))
      else Some(Target(host, url[j..i], url[i + 1..]))
    else Scan(url, i + 1, j, host)
  }

  /** `gethostnamefromhttp` on the text after `http://`, as written. */
  function SplitUrl(url: string): Option<Target> {
    Scan(url, 0, 0, "")
  }

  /** The loop of `gethostnamefromhttp`: `i` walks the URL, a `':'` copies
      the text before it into the host buffer, and the first `'/'` fixes
      the port and the path. */
  method GetHostName(url: string) returns (r: Option<Target>)
    ensures r == SplitUrl(url)
  {
    var i, j := 0, 0;
    var host := "";
    while i < |url|
      invariant j <= i <= |url|
      invariant Scan(url, i, j, host) == SplitUrl(url)
    {
      if url[i] == ':' {
        host := url[..i - j];
        j := i + 1;
      }
      if url[i] == '/' {
        var port;
        if j == 0 {
          host := url[..i];
          port := PortNoColon(i);
        } else {
          port := url[j..i];
        }
        return Some(Target(host, port, url[i + 1..]));
      }
      i := i + 1;
    }
    return None;
  }

  /** Over a stretch without `':'`, the scan only advances. */
  lemma {:induction false} ScanPlain(url: string, i: nat, j: nat, host: string, k: nat)
    requires j <= i <= k <= |url|
    requires forall m :: i <= m < k ==> url[m] != ':' && url[m] != '/'
    ensures Scan(url, i, j, host) == Scan(url, k, j, host)
    decreases k - i
  {
    if i < k {
      ScanPlain(url, i + 1, j, host, k);
    }
  }

  /** The split as it is evidently meant: the host is the text before the
      first `':'`, the port the text from there to the first `'/'` (`"80"`
      when there is no `':'`), and the path everything after that `'/'`. */
  function SplitUrlIntended(url: string): Option<Target> {
    var k := IndexOf(url, '/');
    if k == |url| then None
    else
      var c := IndexOf(url[..k], ':');
      Some(Target(url[..c], if c == k then "80" else url[c + 1..k], url[k + 1..]))
  }

  /** The intended split takes the URL apart and nothing else: a URL with a
      `'/'` is rebuilt from its host (free of `':'` and `'/'`), its port and
      its path, with port `"80"` whenever no port was written, whatever the
      length of the host. */
  lemma SplitIntendedRebuilds(url: string)
    ensures SplitUrlIntended(url).None? <==> forall m :: 0 <= m < |url| ==> url[m] != '/'
    ensures SplitUrlIntended(url).Some? ==> var t := SplitUrlIntended(url).value;
      && (forall m :: 0 <= m < |t.host| ==> t.host[m] != ':' && t.host[m] != '/')
      && ((t.port == "80" && url == t.host + "/" + t.uri)
          || url == t.host + ":" + t.port + "/" + t.uri)
  {
    var k := IndexOf(url, '/');
    if k == |url| {
      assert SplitUrlIntended(url) == None;
    } else {
      var c := IndexOf(url[..k], ':');
      var t := Target(url[..c], if c == k then "80" else url[c + 1..k], url[k + 1..]);
      assert SplitUrlIntended(url) == Some(t);
      HostFree(url, k, c);
      RebuildAt(url, k);
      assert [url[k]] == "/";
      if c == k {
        assert url == t.host + "/" + t.uri;
      } else {
        assert url[c] == url[..k][c];
        RebuildAt(url[..k], c);
        assert [url[..k][c]] == ":";
        assert url[..k] == t.host + ":" + t.port;
        assert url == t.host + ":" + t.port + "/" + t.uri;
      }
    }
  }

  /** The text before the first `':'` within the text before the first `'/'`
      holds neither. */
  lemma HostFree(url: string, k: nat, c: nat)
    requires k == IndexOf(url, '/') && c == IndexOf(url[..k], ':')
    ensures forall m :: 0 <= m < c ==> url[..c][m] != ':' && url[..c][m] != '/'
  {
    forall m | 0 <= m < c
      ensures url[..c][m] != ':' && url[..c][m] != '/'
    {
      assert url[..c][m] == url[..k][m] == url[m];
    }
  }

  /** A text cut at position `k` and put back together around `s[k]`. */
  lemma RebuildAt(s: string, k: nat)
    requires k < |s|
    ensures s == s[..k] + [s[k]] + s[k + 1..]
  {
    assert s[..k] + [s[k]] == s[..k + 1];
  }

  /** A URL without `'/'` gives nothing; otherwise the path is everything
      after the first `'/'`, whatever comes before it. */
  lemma SplitPath(url: string)
    ensures SplitUrl(url).None? <==> IndexOf(url, '/') == |url|
    ensures SplitUrl(url).Some? ==> SplitUrl(url).value.uri == url[IndexOf(url, '/') + 1..]
  {
    ScanPathAfter(url, 0, 0, "", IndexOf(url, '/'));
  }

  /** From any scan state before the first `'/'`, the scan ends there. */
  lemma {:induction false} ScanPathAfter(url: string, i: nat, j: nat, host: string, k: nat)
    requires j <= i <= k == IndexOf(url, '/')
    ensures Scan(url, i, j, host).None? <==> k == |url|
    ensures Scan(url, i, j, host).Some? ==> Scan(url, i, j, host).value.uri == url[k + 1..]
    decreases k - i
  {
    if i < k {
      if url[i] == ':' {
        ScanPathAfter(url, i + 1, i + 1, url[..i - j], k);
      } else {
        ScanPathAfter(url, i + 1, j, host, k);
      }
    }
  }

  /** With at most one `':'` before the first `'/'`, the code splits the URL
      as intended, except that a host of fewer than two characters without
      a port gets a cut-off port (see `ShortHostPort`). */
  lemma SplitAgrees(url: string)
    requires forall n :: IndexOf(url[..IndexOf(url, '/')], ':') < n < IndexOf(url, '/') ==> url[n] != ':'
    requires IndexOf(url[..IndexOf(url, '/')], ':') == IndexOf(url, '/') ==> IndexOf(url, '/') >= 2
    ensures SplitUrl(url) == SplitUrlIntended(url)
  {
    var k := IndexOf(url, '/');
    var c := IndexOf(url[..k], ':');
    assert forall m :: 0 <= m < c ==> url[m] == url[..k][m];
    ScanPlain(url, 0, 0, "", c);
    if k == |url| {
      SplitNoPath(url, c);
    } else if c < k {
      SplitWithPort(url, k, c);
    } else {
      SplitWithoutPort(url, k);
    }
  }

  /** A `':'` at `c` before the first `'/'` at `k`, and no other. */
  lemma SplitWithPort(url: string, k: nat, c: nat)
    requires k == IndexOf(url, '/') < |url| && c == IndexOf(url[..k], ':') < k
    requires forall n :: c < n < k ==> url[n] != ':'
    requires Scan(url, 0, 0, "") == Scan(url, c, 0, "")
    ensures SplitUrl(url) == Some(Target(url[..c], url[c + 1..k], url[k + 1..]))
    ensures SplitUrlIntended(url) == SplitUrl(url)
  {
    assert url[c] == url[..k][c];
    ScanPlain(url, c + 1, c + 1, url[..c], k);
  }

  /** No `':'` before the first `'/'` at `k`. */
  lemma SplitWithoutPort(url: string, k: nat)
    requires k == IndexOf(url, '/') < |url| && IndexOf(url[..k], ':') == k >= 2
    requires Scan(url, 0, 0, "") == Scan(url, k, 0, "")
    ensures SplitUrl(url) == Some(Target(url[..k], "80", url[k + 1..]))
    ensures SplitUrlIntended(url) == SplitUrl(url)
  {
  }

  /** Without a `'/'` neither split finds anything. */
  lemma SplitNoPath(url: string, c: nat)
    requires IndexOf(url, '/') == |url| && c == IndexOf(url, ':')
    requires Scan(url, 0, 0, "") == Scan(url, c, 0, "")
    ensures SplitUrl(url) == None && SplitUrlIntended(url) == None
  {
    ScanPathAfter(url, 0, 0, "", |url|);
  }

  /** The request line of the proxy lab's own example. */
  lemma SplitExample()
    ensures SplitUrl("localhost:15213/home.html") == Some(Target("localhost", "15213", "home.html"))
  {
    var url := "localhost:15213/home.html";
    assert url[..9] == "localhost" && url[9] == ':';
    assert url[10..15] == "15213" && url[15] == '/' && url[16..] == "home.html";
    forall m | 0 <= m < 15 && m != 9 ensures url[m] != ':' && url[m] != '/' {
      assert url[m] in "localhost15213";
    }
    ScanPlain(url, 0, 0, "", 9);
    ScanPlain(url, 10, 10, "localhost", 15);
  }

  /** As written, the port of a one-character host is cut to one character:
      `port[i - j] = '\0'` also runs after `"80"` is copied. */
  lemma ShortHostPort()
    ensures SplitUrl("a/x") == Some(Target("a", "8", "x"))
    ensures SplitUrlIntended("a/x") == Some(Target("a", "80", "x"))
  {
    var url := "a/x";
    assert url[..1] == "a" && url[2..] == "x" && "80"[..1] == "8";
    assert IndexOf(url, '/') == 1;
    assert IndexOf(url[..1], ':') == 1;
  }

  // ---------------------------------------------------------------------
  // The request sent upstream

  /** `strncmp("GET", method, 3) == 0`: the method starts with `GET`. */
  predicate IsGet(httpMethod: string) {
    |httpMethod| >= 3 && httpMethod[..3] == "GET"
  }

  /** The six buffers of `new_req` as written: the request line already
      ends in a blank line. */
  function BuildRequestAsWritten(uri: string, host: string): (r: seq<string>)
    ensures |r| == 5
  {
    ["GET /" + uri + " HTTP/1.0\r\n\r\n", "Connection: close\r\n",
     "Proxy-Connection: close\r\n", USER_AGENT_HDR, "Host: " + host + "\r\n\r\n"]
  }

  /** The request as evidently meant: the blank line only after `Host`. */
  function BuildRequest(uri: string, host: string): (r: seq<string>)
    ensures |r| == 5
  {
    ["GET /" + uri + " HTTP/1.0\r\n", "Connection: close\r\n",
     "Proxy-Connection: close\r\n", USER_AGENT_HDR, "Host: " + host + "\r\n\r\n"]
  }

  /** What `send_http_request` writes: the buffers one after another. */
  function Wire(pieces: seq<string>): string {
    if pieces == [] then "" else pieces[0] + Wire(pieces[1..])
  }

  predicate NoCr(s: string) {
    forall m :: 0 <= m < |s| ==> s[m] != '\r'
  }

  /** The position of the first CR LF in `s`, or `|s|` when there is none. */
  function FirstCrlf(s: string): (k: nat)
    ensures k <= |s|
    ensures k < |s| ==> k + 1 < |s| && s[k] == '\r' && s[k + 1] == '\n'
    ensures forall m :: 0 <= m < k && m + 1 < |s| ==> !(s[m] == '\r' && s[m + 1] == '\n')
    decreases |s|
  {
    if |s| < 2 then |s|
    else if s[0] == '\r' && s[1] == '\n' then 0
    else 1 + FirstCrlf(s[1..])
  }

  /** The header lines of an HTTP message as a server reads them: the lines
      ended by CR LF, up to the first empty one. */
  function HeaderLines(s: string): seq<string>
    decreases |s|
  {
    var k := FirstCrlf(s);
    if k == 0 || k == |s| then [] else [s[..k]] + HeaderLines(s[k + 2..])
  }

  /** Lines, each followed by CR LF. */
  function Join(lines: seq<string>): string {
    if lines == [] then "" else lines[0] + "\r\n" + Join(lines[1..])
  }

  /** A line without CR, followed by CR LF, ends at its own length. */
  lemma {:induction false} FirstCrlfAfter(l: string, rest: string)
    requires NoCr(l)
    ensures FirstCrlf(l + "\r\n" + rest) == |l|
    decreases |l|
  {
    if l != [] {
      assert (l + "\r\n" + rest)[1..] == l[1..] + "\r\n" + rest;
      FirstCrlfAfter(l[1..], rest);
    }
  }

  /** Non-empty lines without CR, joined and closed by a blank line, read
      back as exactly those lines. */
  lemma {:induction false} HeaderLinesJoin(lines: seq<string>, rest: string)
    requires forall m :: 0 <= m < |lines| ==> lines[m] != "" && NoCr(lines[m])
    ensures HeaderLines(Join(lines) + "\r\n" + rest) == lines
    decreases |lines|
  {
    var s := Join(lines) + "\r\n" + rest;
    if lines == [] {
      assert FirstCrlf(s) == 0;
    } else {
      var tail := Join(lines[1..]) + "\r\n" + rest;
      assert s == lines[0] + "\r\n" + tail;
      FirstCrlfAfter(lines[0], tail);
      assert s[..|lines[0]|] == lines[0];
      assert s[|lines[0]| + 2..] == tail;
      HeaderLinesJoin(lines[1..], rest);
    }
  }

  lemma NoCrAppend(a: string, b: string)
    requires NoCr(a) && NoCr(b)
    ensures NoCr(a + b)
  {
    forall m | 0 <= m < |a + b| ensures (a + b)[m] != '\r' {
      if m >= |a| {
        assert (a + b)[m] == b[m - |a|];
      }
    }
  }

  /** Buffers that are lines with CR LF, the last with a second CR LF,
      put on the wire as those lines joined and a blank line. */
  lemma {:induction false} WireLines(p: seq<string>, ls: seq<string>)
    requires |p| == |ls| > 0
    requires forall m :: 0 <= m < |p| - 1 ==> p[m] == ls[m] + "\r\n"
    requires p[|p| - 1] == ls[|ls| - 1] + "\r\n\r\n"
    ensures Wire(p) == Join(ls) + "\r\n"
    decreases |p|
  {
    if |p| == 1 {
      assert Wire(p) == p[0] + Wire([]);
      assert Join(ls) == ls[0] + "\r\n" + Join([]);
    } else {
      WireLines(p[1..], ls[1..]);
      assert Wire(p) == p[0] + Wire(p[1..]);
      assert Join(ls) == ls[0] + "\r\n" + Join(ls[1..]);
    }
  }

  /** The five header lines the proxy means to send. */
  function RequestLines(uri: string, host: string): seq<string> {
    ["GET /" + uri + " HTTP/1.0", "Connection: close", "Proxy-Connection: close",
     USER_AGENT, "Host: " + host]
  }

  lemma RequestLinesPlain(uri: string, host: string)
    requires NoCr(uri) && NoCr(host)
    ensures forall m :: 0 <= m < 5 ==>
              RequestLines(uri, host)[m] != "" && NoCr(RequestLines(uri, host)[m])
  {
    NoCrAppend("GET /", uri);
    NoCrAppend("GET /" + uri, " HTTP/1.0");
    NoCrAppend("Host: ", host);
    assert NoCr(USER_AGENT) by {
      var a, b, c := "User-Agent: Mozilla/5.0 ", "(X11; Linux x86_64; rv:10.0.3) ", "Gecko/20120305 Firefox/10.0.3";
      assert USER_AGENT == a + b + c;
      assert NoCr(a) && NoCr(b) && NoCr(c);
      NoCrAppend(a, b);
      NoCrAppend(a + b, c);
    }
  }

  /** As written, a server reads only the request line as headers: the
      blank line after it ends the header block before `Host` and the
      other headers. */
  lemma RequestAsWrittenHeaders(uri: string, host: string)
    requires NoCr(uri) && NoCr(host)
    ensures HeaderLines(Wire(BuildRequestAsWritten(uri, host))) == ["GET /" + uri + " HTTP/1.0"]
  {
    var pieces := BuildRequestAsWritten(uri, host);
    var line := "GET /" + uri + " HTTP/1.0";
    RequestLinesPlain(uri, host);
    var rest := Wire(pieces[1..]);
    assert Wire(pieces) == Join([line]) + "\r\n" + rest;
    HeaderLinesJoin([line], rest);
  }

  /** The corrected request carries its five header lines, in order, and
      ends the header block after `Host`. */
  lemma RequestHeaders(uri: string, host: string)
    requires NoCr(uri) && NoCr(host)
    ensures HeaderLines(Wire(BuildRequest(uri, host))) == RequestLines(uri, host)
    ensures Wire(BuildRequest(uri, host)) == Join(RequestLines(uri, host)) + "\r\n"
  {
    var p := BuildRequest(uri, host);
    var ls := RequestLines(uri, host);
    RequestLinesPlain(uri, host);
    WireLines(p, ls);
    HeaderLinesJoin(ls, "");
    assert Join(ls) + "\r\n" + "" == Join(ls) + "\r\n";
  }

  // ---------------------------------------------------------------------
  // redirect_http_response: relaying and buffering the response

  /** What successive `Rio_readnb(&rio, buf, MAX_HTTP_LINE)` calls return
      before the end of the stream: between 1 and `MAX_HTTP_LINE` bytes each. */
  predicate Reads(chunks: seq<seq<byte>>) {
    forall m :: 0 <= m < |chunks| ==> 0 < |chunks[m]| <= MAX_HTTP_LINE
  }

  /** The chunks one after another. */
  function Flatten(chunks: seq<seq<byte>>): seq<byte>
    decreases |chunks|
  {
    if chunks == [] then [] else Flatten(chunks[..|chunks| - 1]) + chunks[|chunks| - 1]
  }

  /** The position of the first zero byte, or `|s|`. */
  function ZeroAt(s: seq<byte>): (k: nat)
    ensures k <= |s|
    ensures forall m :: 0 <= m < k ==> s[m] != 0
    ensures k < |s| ==> s[k] == 0
  {
    if s == [] then 0 else if s[0] == 0 then 0 else 1 + ZeroAt(s[1..])
  }

  /** What `strncpy(dst, src, |src|)` writes: `src` up to its first zero
      byte, then zeros. */
  function Strncpy(src: seq<byte>): (r: seq<byte>)
    ensures |r| == |src|
  {
    src[..ZeroAt(src)] + seq(|src| - ZeroAt(src), _ => 0 as byte)
  }

  /** Without a zero byte, `strncpy` copies everything; with one, the
      byte after it is lost. */
  lemma StrncpyCopies(src: seq<byte>)
    ensures ZeroAt(src) == |src| ==> Strncpy(src) == src
    ensures ZeroAt(src) + 1 < |src| ==> Strncpy(src)[ZeroAt(src) + 1] == 0
  {
  }

  /** The cached copy of the chunks as written: each one through `strncpy`. */
  function StrncpyAll(chunks: seq<seq<byte>>): seq<byte>
    decreases |chunks|
  {
    if chunks == [] then [] else StrncpyAll(chunks[..|chunks| - 1]) + Strncpy(chunks[|chunks| - 1])
  }

  /** For a body without zero bytes the cached copy is the relayed body. */
  lemma {:induction false} StrncpyAllText(chunks: seq<seq<byte>>)
    requires forall m :: 0 <= m < |chunks| ==> ZeroAt(chunks[m]) == |chunks[m]|
    ensures StrncpyAll(chunks) == Flatten(chunks)
    decreases |chunks|
  {
    if chunks != [] {
      StrncpyCopies(chunks[|chunks| - 1]);
      StrncpyAllText(chunks[..|chunks| - 1]);
    }
  }

  /** A response whose one chunk is the bytes 0, 65 is cached as 0, 0. */
  lemma BinaryBodyAsWritten()
    ensures Flatten([[0, 65]]) == [0, 65]
    ensures StrncpyAll([[0, 65]]) == [0, 0]
  {
    assert ZeroAt([0, 65]) == 0;
    assert Flatten([[0, 65]]) == Flatten([]) + [0, 65];
    assert StrncpyAll([[0, 65]]) == StrncpyAll([]) + Strncpy([0, 65]);
  }

  lemma FlattenStep(chunks: seq<seq<byte>>, i: nat)
    requires i < |chunks|
    ensures Flatten(chunks[..i + 1]) == Flatten(chunks[..i]) + chunks[i]
    ensures StrncpyAll(chunks[..i + 1]) == StrncpyAll(chunks[..i]) + Strncpy(chunks[i])
  {
    assert chunks[..i + 1][..i] == chunks[..i];
  }

  /** `strncpy(dst + off, src, |src|)`: copy up to the first zero byte,
      then pad with zeros. */
  method StrnCopy(dst: array<byte>, off: nat, src: seq<byte>)
    requires off + |src| <= dst.Length
    modifies dst
    ensures dst[off..off + |src|] == Strncpy(src)
    ensures forall m :: 0 <= m < dst.Length && !(off <= m < off + |src|) ==> dst[m] == old(dst[m])
  {
    var k := 0;
    while k < |src| && src[k] != 0
      invariant 0 <= k <= ZeroAt(src)
      invariant forall m :: 0 <= m < k ==> dst[off + m] == src[m]
      invariant forall m :: 0 <= m < dst.Length && !(off <= m < off + k) ==> dst[m] == old(dst[m])
    {
      dst[off + k] := src[k];
      k := k + 1;
    }
    while k < |src|
      invariant ZeroAt(src) <= k <= |src|
      invariant forall m :: 0 <= m < ZeroAt(src) ==> dst[off + m] == src[m]
      invariant forall m :: off + ZeroAt(src) <= m < off + k ==> dst[m] == 0
      invariant forall m :: 0 <= m < dst.Length && !(off <= m < off + k) ==> dst[m] == old(dst[m])
    {
      dst[off + k] := 0;
      k := k + 1;
    }
    assert dst[off..off + |src|] == Strncpy(src) by {
      var z := ZeroAt(src);
      forall m | 0 <= m < |src| ensures dst[off + m] == Strncpy(src)[m] {
        if m < z {
          assert Strncpy(src)[m] == src[..z][m];
        } else {
          assert Strncpy(src)[m] == seq(|src| - z, _ => 0 as byte)[m - z];
        }
      }
    }
  }

  /** `memcpy(dst + off, src, |src|)`: copy every byte. */
  method MemCopy(dst: array<byte>, off: nat, src: seq<byte>)
    requires off + |src| <= dst.Length
    modifies dst
    ensures dst[off..off + |src|] == src
    ensures forall m :: 0 <= m < dst.Length && !(off <= m < off + |src|) ==> dst[m] == old(dst[m])
  {
    var k := 0;
    while k < |src|
      invariant 0 <= k <= |src|
      invariant forall m :: 0 <= m < k ==> dst[off + m] == src[m]
      invariant forall m :: 0 <= m < dst.Length && !(off <= m < off + k) ==> dst[m] == old(dst[m])
    {
      dst[off + k] := src[k];
      k := k + 1;
    }
    assert dst[off..off + |src|] == src by {
      forall m | 0 <= m < |src| ensures dst[off + m] == src[m] {
      }
    }
  }

  /** The global `lruCache`, created with `MAX_CACHE_SIZE` and `MAX_OBJECT_SIZE`;
      the proxy only stores buffers that hold exactly their `size` bytes. */
  ghost predicate ProxyCache(cache: LruCache.Lru)
    reads cache
  {
    && cache.Valid() && cache.maxCacheSz == MAX_CACHE_SIZE && cache.maxObjectSz == MAX_OBJECT_SIZE
    && LruCache.PayloadSized(cache.Entries())
  }

  /** The loop of `redirect_http_response`: every chunk goes to the client,
      and a chunk is copied into `buf` with `strncpy` while the running
      total stays within `MAX_OBJECT_SIZE`. */
  method RelayChunks(chunks: seq<seq<byte>>, buf: array<byte>) returns (relayed: seq<byte>, total: nat)
    requires buf.Length == MAX_OBJECT_SIZE
    modifies buf
    ensures relayed == Flatten(chunks) && total == |relayed|
    ensures total <= MAX_OBJECT_SIZE ==> buf[..total] == StrncpyAll(chunks)
  {
    total := 0;
    relayed := [];
    var i := 0;
    while i < |chunks|
      invariant 0 <= i <= |chunks|
      invariant relayed == Flatten(chunks[..i]) && total == |relayed|
      invariant total <= MAX_OBJECT_SIZE ==> buf[..total] == StrncpyAll(chunks[..i])
    {
      FlattenStep(chunks, i);
      var c := chunks[i];
      if total + |c| <= MAX_OBJECT_SIZE {
        ghost var before := buf[..total];
        StrnCopy(buf, total, c);
        assert buf[..total] == before;
        assert buf[..total + |c|] == buf[..total] + buf[total..total + |c|];
      }
      relayed := relayed + c;
      total := total + |c|;
      i := i + 1;
    }
    assert chunks[..i] == chunks;
  }

  /** The same loop with `memcpy` in place of `strncpy`. */
  method RelayChunksIntended(chunks: seq<seq<byte>>, buf: array<byte>) returns (relayed: seq<byte>, total: nat)
    requires buf.Length == MAX_OBJECT_SIZE
    modifies buf
    ensures relayed == Flatten(chunks) && total == |relayed|
    ensures total <= MAX_OBJECT_SIZE ==> buf[..total] == relayed
  {
    total := 0;
    relayed := [];
    var i := 0;
    while i < |chunks|
      invariant 0 <= i <= |chunks|
      invariant relayed == Flatten(chunks[..i]) && total == |relayed|
      invariant total <= MAX_OBJECT_SIZE ==> buf[..total] == relayed
    {
      FlattenStep(chunks, i);
      var c := chunks[i];
      if total + |c| <= MAX_OBJECT_SIZE {
        ghost var before := buf[..total];
        MemCopy(buf, total, c);
        assert buf[..total] == before;
        assert buf[..total + |c|] == buf[..total] + buf[total..total + |c|];
      }
      relayed := relayed + c;
      total := total + |c|;
      i := i + 1;
    }
    assert chunks[..i] == chunks;
  }

  /** `redirect_http_response`: relay every chunk, then offer the buffer to
      the cache under `key` with the total size. */
  method RedirectResponse(chunks: seq<seq<byte>>, key: string, cache: LruCache.Lru)
    returns (relayed: seq<byte>)
    requires ProxyCache(cache) && Reads(chunks) && |Flatten(chunks)| <= SSIZE_MAX
    modifies cache
    ensures ProxyCache(cache)
    ensures relayed == Flatten(chunks)
    ensures |relayed| <= MAX_OBJECT_SIZE ==>
      cache.Entries() == LruCache.InsertAsWritten(old(cache.Entries()), MAX_CACHE_SIZE,
                           MAX_OBJECT_SIZE, key, StrncpyAll(chunks), |relayed|)
    // An object over `MAX_OBJECT_SIZE` is not stored, so its value plays no part.
    ensures |relayed| > MAX_OBJECT_SIZE ==>
      cache.Entries() == LruCache.InsertAsWritten(old(cache.Entries()), MAX_CACHE_SIZE,
                           MAX_OBJECT_SIZE, key, [], |relayed|)
  {
    ghost var es0 := cache.Entries();
    var buf := new byte[MAX_OBJECT_SIZE];
    var total;
    relayed, total := RelayChunks(chunks, buf);
    var value := if total <= MAX_OBJECT_SIZE then buf[..total] else buf[..];
    cache.Insert(key, value, total);
    LruCache.InsertKeepsSized(es0, MAX_CACHE_SIZE, MAX_OBJECT_SIZE, key, value, total);
  }

  /** `redirect_http_response` with `memcpy` in place of `strncpy`: the
      cached value is then exactly what the client received. */
  method RedirectResponseIntended(chunks: seq<seq<byte>>, key: string, cache: LruCache.Lru)
    returns (relayed: seq<byte>)
    requires ProxyCache(cache) && Reads(chunks) && |Flatten(chunks)| <= SSIZE_MAX
    modifies cache
    ensures ProxyCache(cache)
    ensures relayed == Flatten(chunks)
    ensures |relayed| <= MAX_OBJECT_SIZE ==>
      cache.Entries() == LruCache.InsertAsWritten(old(cache.Entries()), MAX_CACHE_SIZE,
                           MAX_OBJECT_SIZE, key, relayed, |relayed|)
    // An object over `MAX_OBJECT_SIZE` is not stored, so its value plays no part.
    ensures |relayed| > MAX_OBJECT_SIZE ==>
      cache.Entries() == LruCache.InsertAsWritten(old(cache.Entries()), MAX_CACHE_SIZE,
                           MAX_OBJECT_SIZE, key, [], |relayed|)
  {
    ghost var es0 := cache.Entries();
    var buf := new byte[MAX_OBJECT_SIZE];
    var total;
    relayed, total := RelayChunksIntended(chunks, buf);
    var value := if total <= MAX_OBJECT_SIZE then buf[..total] else buf[..];
    cache.Insert(key, value, total);
    LruCache.InsertKeepsSized(es0, MAX_CACHE_SIZE, MAX_OBJECT_SIZE, key, value, total);
  }

  // ---------------------------------------------------------------------
  // worker_task

  /** How one request ends. */
  datatype Reply =
    | FromCache(bytes: seq<byte>)      // cache hit: the item's `size` bytes are written back
    | NotGet                           // method is not GET: nothing is sent upstream
    | NoPath                           // URL without '/': port and path are never set, undefined in C
    | ConnectFailed                    // `open_clientfd` fails
    | Relayed(request: seq<string>, host: string, port: string, bytes: seq<byte>)

  /** `worker_task` after `get_http_request`: `line` is the request line,
      `httpMethod` and `url` are what `sscanf` takes out of it, and
      `upstream` is the server's response, `None` when the connection
      cannot be opened. */
  method WorkerTask(cache: LruCache.Lru, line: string, httpMethod: string, url: string,
                    upstream: Option<seq<seq<byte>>>) returns (reply: Reply)
    requires ProxyCache(cache)
    requires upstream.Some? ==> Reads(upstream.value) && |Flatten(upstream.value)| <= SSIZE_MAX
    modifies cache
    ensures ProxyCache(cache)
    ensures reply.FromCache? <==> LruCache.Find(old(cache.Entries()), line).Some?
    ensures reply.FromCache? ==>
      var hit := old(cache.Entries())[LruCache.Find(old(cache.Entries()), line).value];
      && reply.bytes == hit.value && |reply.bytes| == hit.size
      && cache.Entries() == LruCache.GetResult(old(cache.Entries()), line)
    ensures reply.NotGet? <==> LruCache.Find(old(cache.Entries()), line).None? && !IsGet(httpMethod)
    ensures reply.NoPath? <==>
      LruCache.Find(old(cache.Entries()), line).None? && IsGet(httpMethod) && SplitUrl(url).None?
    ensures reply.ConnectFailed? <==>
      LruCache.Find(old(cache.Entries()), line).None? && IsGet(httpMethod) && SplitUrl(url).Some?
      && upstream.None?
    ensures reply.Relayed? <==>
      LruCache.Find(old(cache.Entries()), line).None? && IsGet(httpMethod) && SplitUrl(url).Some?
      && upstream.Some?
    ensures reply.NotGet? || reply.NoPath? || reply.ConnectFailed? ==>
      cache.Entries() == old(cache.Entries())
    ensures reply.Relayed? ==>
      && IsGet(httpMethod) && upstream.Some? && SplitUrl(url).Some?
      && var t := SplitUrl(url).value;
      && reply.request == BuildRequestAsWritten(t.uri, t.host)
      && reply.host == t.host && reply.port == t.port
      && reply.bytes == Flatten(upstream.value)
      && (|reply.bytes| <= MAX_OBJECT_SIZE ==>
            cache.Entries() == LruCache.InsertAsWritten(old(cache.Entries()), MAX_CACHE_SIZE,
                                 MAX_OBJECT_SIZE, line, StrncpyAll(upstream.value), |reply.bytes|))
      && (|reply.bytes| > MAX_OBJECT_SIZE ==>
            cache.Entries() == LruCache.InsertAsWritten(old(cache.Entries()), MAX_CACHE_SIZE,
                                 MAX_OBJECT_SIZE, line, [], |reply.bytes|))
  {
    ghost var es0 := cache.Entries();
    var hit := cache.Get(line);
    LruCache.GetKeepsSized(es0, line);
    if hit.Some? {
      var item := hit.value;
      return FromCache(item.value[..item.size]);
    }
    var key := line;
    var target := GetHostName(url);
    if !IsGet(httpMethod) {
      return NotGet;
    }
    if target.None? {
      return NoPath;
    }
    var t := target.value;
    var request := BuildRequestAsWritten(t.uri, t.host);
    if upstream.None? {
      return ConnectFailed;
    }
    var bytes := RedirectResponse(upstream.value, key, cache);
    return Relayed(request, t.host, t.port, bytes);
  }
}
