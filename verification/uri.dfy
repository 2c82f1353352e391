/** `Server.splitUri`: a URI or a plain address to scheme, host name and
    port. What `urlparse` makes of the text is an input; when it finds no
    host name the text is split at `:` and read by the number of pieces:
    `host:port`, `SHM:x:port`, `scheme:[host]:port` and `x:SHM:y:port`. */
module Uri {
  import opened Results
  import opened Text

  /** What `urlparse(uri)` yields: its `scheme`, its `hostname` (`None`
      when the text has no network location) and its `port` (`None` when
      it names none). `PortInvalid` is the ValueError that reading `.port`
      raises for a port that is not a number in range. */
  datatype UrlParse =
    | UrlParts(scheme: string, hostname: Option<string>, port: Option<int>)
    | PortInvalid

  /** `None`, the empty text handed back, or the `(scheme, hostname, port)`
      tuple. */
  datatype SplitResult =
    | NoUri
    | Unchanged(uri: string)
    | Parts(scheme: string, hostname: string, port: int)

  /** The ValueErrors that escape `splitUri` (only TypeError is caught). */
  datatype UriError =
    | UrlPortError                   // from `urlparse(uri).port`
    | PortNotANumber(text: string)   // from `int(port)`

  const Brackets: set<char> := {'[', ']'}

  /** The host name and port text read off the `:`-separated pieces; no
      port text stands for the `-1` of the last shape. */
  function ByShape(uri: string): (r: (string, Option<string>))
    ensures r.1.None? <==> !(|Split(uri, ':')| == 2 || |Split(uri, ':')| == 3
                            || (|Split(uri, ':')| == 4 && Split(uri, ':')[1] == "SHM"))
    ensures r.1.None? ==> r.0 == uri
    ensures r.1.Some? ==> r.1.value == Split(uri, ':')[|Split(uri, ':')| - 1]
  {
    var res := Split(uri, ':');
    if |res| == 2 then (res[0], Some(res[1]))
    else if |res| == 3 then
      if res[0] == "SHM" then ("localhost", Some(res[2]))
      else (Strip(res[1], Brackets), Some(res[2]))
    else if |res| == 4 && res[1] == "SHM" then ("localhost", Some(res[3]))
    else (uri, None)
  }

  /** `splitUri(uri)`, given what `urlparse(uri)` yields. */
  function SplitUri(uri: Option<string>, url: UrlParse): (r: Result<SplitResult, UriError>)
    ensures uri.None? <==> r == Success(NoUri)
    ensures uri == Some("") <==> r == Success(Unchanged(""))
    ensures r.Success? && r.value.Parts? ==> url.UrlParts? && r.value.scheme == url.scheme
    ensures url.UrlParts? && url.hostname.Some? && uri.Some? && uri.value != "" ==>
      r == Success(Parts(url.scheme, url.hostname.value, if url.port.Some? then url.port.value else -1))
    ensures r.Failure? ==> uri.Some? && uri.value != "" && (url.PortInvalid? || url.hostname.None?)
  {
    match uri
    case None => Success(NoUri)
    case Some(u) =>
      if u == "" then Success(Unchanged(u))
      else
        match url
        case PortInvalid => Failure(UrlPortError)
        case UrlParts(scheme, hostname, port) =>
          if hostname.Some? then
            Success(Parts(scheme, hostname.value, if port.Some? then port.value else -1))
          else
            match ByShape(u)
            case (host, None) => Success(Parts(scheme, host, -1))
            case (host, Some(text)) =>
              match ParseDecimal(text)
              case None => Failure(PortNotANumber(text))
              case Some(n) => Success(Parts(scheme, host, n))
  }

  // ---- each shape, built from its pieces ----

  /** `host:port`. */
  lemma HostPort(scheme: string, port: Option<int>, host: string, text: string, n: int)
    requires ':' !in host && ':' !in text && ParseDecimal(text) == Some(n)
    ensures SplitUri(Some(host + ":" + text), UrlParts(scheme, None, port)) == Success(Parts(scheme, host, n))
  {
    JoinSplit([host, text], ':');
    assert Join([host, text], ':') == host + ":" + text;
  }

  /** `SHM:x:port` names the local host. */
  lemma SharedMemory(scheme: string, port: Option<int>, x: string, text: string, n: int)
    requires ':' !in x && ':' !in text && ParseDecimal(text) == Some(n)
    ensures SplitUri(Some("SHM:" + x + ":" + text), UrlParts(scheme, None, port))
      == Success(Parts(scheme, "localhost", n))
  {
    JoinSplit(["SHM", x, text], ':');
    assert ["SHM", x, text][1..] == [x, text];
    assert Join([x, text], ':') == x + ":" + text;
    assert Join(["SHM", x, text], ':') == "SHM" + ":" + (x + ":" + text);
    assert "SHM" + ":" + (x + ":" + text) == "SHM:" + x + ":" + text;
  }

  /** `first:[host]:port` with `first` other than `SHM`: the middle piece
      without its brackets. */
  lemma Bracketed(scheme: string, port: Option<int>, first: string, host: string, text: string, n: int)
    requires first != "SHM" && ':' !in first && ':' !in host && ':' !in text && ParseDecimal(text) == Some(n)
    requires |host| >= 1 && host[0] !in Brackets && host[|host| - 1] !in Brackets
    ensures SplitUri(Some(first + ":[" + host + "]:" + text), UrlParts(scheme, None, port))
      == Success(Parts(scheme, host, n))
  {
    var mid := "[" + host + "]";
    JoinSplit([first, mid, text], ':');
    assert [first, mid, text][1..] == [mid, text];
    assert Join([mid, text], ':') == mid + ":" + text;
    assert Join([first, mid, text], ':') == first + ":" + (mid + ":" + text);
    assert first + ":" + (mid + ":" + text) == first + ":[" + host + "]:" + text;
    StripFramed("[", host, "]", Brackets);
  }

  /** `x:SHM:y:port` names the local host. */
  lemma SharedMemoryFour(scheme: string, port: Option<int>, x: string, y: string, text: string, n: int)
    requires ':' !in x && ':' !in y && ':' !in text && ParseDecimal(text) == Some(n)
    ensures SplitUri(Some(x + ":SHM:" + y + ":" + text), UrlParts(scheme, None, port))
      == Success(Parts(scheme, "localhost", n))
  {
    JoinSplit([x, "SHM", y, text], ':');
    assert [x, "SHM", y, text][1..] == ["SHM", y, text];
    assert ["SHM", y, text][1..] == [y, text];
    assert Join([y, text], ':') == y + ":" + text;
    assert Join(["SHM", y, text], ':') == "SHM" + ":" + (y + ":" + text);
    assert Join([x, "SHM", y, text], ':') == x + ":" + ("SHM" + ":" + (y + ":" + text));
    assert x + ":" + ("SHM" + ":" + (y + ":" + text)) == x + ":SHM:" + y + ":" + text;
  }

  /** Any other number of pieces: the whole text as host name, port -1. */
  lemma OtherShape(scheme: string, port: Option<int>, parts: seq<string>)
    requires |parts| == 1 || |parts| >= 5 || (|parts| == 4 && parts[1] != "SHM")
    requires forall k :: 0 <= k < |parts| ==> ':' !in parts[k]
    requires Join(parts, ':') != ""
    ensures SplitUri(Some(Join(parts, ':')), UrlParts(scheme, None, port)) == Success(Parts(scheme, Join(parts, ':'), -1))
  {
    JoinSplit(parts, ':');
  }

  /** A port text that is not a decimal number raises. */
  lemma PortNotNumeric(scheme: string, port: Option<int>, host: string, text: string)
    requires ':' !in host && ':' !in text && ParseDecimal(text).None?
    ensures SplitUri(Some(host + ":" + text), UrlParts(scheme, None, port)) == Failure(PortNotANumber(text))
  {
    JoinSplit([host, text], ':');
    assert Join([host, text], ':') == host + ":" + text;
  }
}
