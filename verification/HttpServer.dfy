/** The HTTP server's reading of a GET request, cut up in the buffer it was received in, and its dispatch. */
module HttpServer {
  import opened Bytes
  import opened CStrings
  import opened UrlRouting
  import opened UrlCollection

  const HTTP_GET: string := "GET"

  /** What the generators are given: the request's target, and the parameters if there is a '?'. */
  datatype Request = Request(target: string, params: Option<string>)

  function Lesser(a: nat, b: nat): nat
  {
    if a < b then a else b
  }

  /** How the text after "GET " is cut: at the first '?' and, if there is one, at the first space. */
  function Cut(text: string): Request
  {
    var mark, space := First(text, 0, '?'), First(text, 0, ' ');
    if mark == |text| then Request(text, None)
    else Request(text[..Lesser(mark, space)],
                 Some(if mark < space then text[mark + 1..space] else text[mark + 1..]))
  }

  /** The path of a request's text: what comes before the first space or '?'. */
  function Path(text: string): string
  {
    if text == [] || text[0] == ' ' || text[0] == '?' then [] else [text[0]] + Path(text[1..])
  }

  lemma {:induction false} PathIs(text: string, p: string)
    requires p <= text && ' ' !in p && '?' !in p
    requires |p| < |text| ==> text[|p|] == ' ' || text[|p|] == '?'
    ensures Path(text) == p
    decreases |p|
  {
    if p != [] {
      assert text[0] == p[0];
      assert p[1..] <= text[1..];
      PathIs(text[1..], p[1..]);
    }
  }

  /** In whatever order '?' and space come, the key the exact lookup uses is the request's path. */
  lemma {:induction false} KeyIsPath(text: string)
    ensures Key(Cut(text).target) == Path(text)
  {
    var mark, space := First(text, 0, '?'), First(text, 0, ' ');
    var target := Cut(text).target;
    var end := Lesser(mark, space);
    assert forall k | 0 <= k < |target| :: target[k] == text[k];
    FirstIs(target, 0, ' ', end);
    assert target[..end] == text[..end];
    PathIs(text, text[..end]);
  }

  /** For a target `path?query` followed by a space, the handler is given exactly the query. */
  lemma {:induction false} QueryIsGiven(path: string, query: string, tail: string)
    requires ' ' !in path && '?' !in path && ' ' !in query
    ensures Cut(path + ['?'] + query + [' '] + tail) == Request(path, Some(query))
  {
    var text := path + ['?'] + query + [' '] + tail;
    var end := |path| + 1 + |query|;
    assert forall k | 0 <= k < |path| :: text[k] == path[k];
    FirstIs(text, 0, '?', |path|);
    forall k | |path| < k < end
      ensures text[k] != ' '
    {
      assert text[k] == query[k - |path| - 1];
    }
    FirstIs(text, 0, ' ', end);
    assert text[..|path|] == path && text[|path| + 1..end] == query;
  }

  /** A '?' behind the target is taken for the start of the parameters all the same. */
  lemma {:induction false} LateMarkGivesParameters(path: string, between: string, rest: string)
    requires ' ' !in path && '?' !in path && '?' !in between
    ensures Cut(path + [' '] + between + ['?'] + rest) == Request(path, Some(rest))
  {
    var text := path + [' '] + between + ['?'] + rest;
    var mark := |path| + 1 + |between|;
    assert forall k | 0 <= k < |path| :: text[k] == path[k];
    forall k | |path| < k < mark
      ensures text[k] != '?'
    {
      assert text[k] == between[k - |path| - 1];
    }
    FirstIs(text, 0, ' ', |path|);
    FirstIs(text, 0, '?', mark);
    assert text[..|path|] == path && text[mark + 1..] == rest;
  }

  /** Without a '?' there are no parameters, and the target is all of the text, spaces and what follows them too. */
  lemma {:induction false} NoMarkNoParameters(text: string)
    requires '?' !in text
    ensures Cut(text) == Request(text, None)
  {
    FirstIs(text, 0, '?', |text|);
  }

  /** With a '?' and no space, everything behind the '?' is the query. */
  lemma {:induction false} QueryToTheEnd(path: string, query: string)
    requires ' ' !in path && '?' !in path && ' ' !in query
    ensures Cut(path + ['?'] + query) == Request(path, Some(query))
  {
    var text := path + ['?'] + query;
    assert forall k | 0 <= k < |path| :: text[k] == path[k];
    FirstIs(text, 0, '?', |path|);
    forall k | 0 <= k < |text|
      ensures text[k] != ' '
    {
      assert k > |path| ==> text[k] == query[k - |path| - 1];
    }
    FirstIs(text, 0, ' ', |text|);
    assert text[..|path|] == path && text[|path| + 1..|text|] == query;
  }

  /** The parameters that a text which asks for `path` carries, by its form. */
  datatype Form = Plain | WithQuery(query: string) | QueryThenSpace(query: string, tail: string)
                | LateMark(between: string, rest: string)

  /** The text has the path and this form. */
  predicate Formed(text: string, path: string, form: Form)
  {
    && ' ' !in path && '?' !in path
    && match form
       case Plain => '?' !in text && (text == path || path + [' '] <= text)
       case WithQuery(query) => ' ' !in query && text == path + ['?'] + query
       case QueryThenSpace(query, tail) => ' ' !in query && text == path + ['?'] + query + [' '] + tail
       case LateMark(between, rest) => '?' !in between && text == path + [' '] + between + ['?'] + rest
  }

  /** What the page of such a request is given: nothing, the query, or whatever follows the '?'. */
  function Given(form: Form): Option<string>
  {
    match form
    case Plain => None
    case WithQuery(query) => Some(query)
    case QueryThenSpace(query, _) => Some(query)
    case LateMark(_, rest) => Some(rest)
  }

  lemma {:induction false} FormIsCut(text: string, path: string, form: Form)
    requires Formed(text, path, form)
    ensures Cut(text).params == Given(form) && Path(text) == path
  {
    FormHasPath(text, path, form);
    match form
    case Plain => NoMarkNoParameters(text);
    case WithQuery(query) => QueryToTheEnd(path, query);
    case QueryThenSpace(query, tail) => QueryIsGiven(path, query, tail);
    case LateMark(between, rest) => LateMarkGivesParameters(path, between, rest);
  }

  lemma {:induction false} FormHasPath(text: string, path: string, form: Form)
    requires Formed(text, path, form)
    ensures Path(text) == path
  {
    assert path <= text;
    PathIs(text, path);
  }

  /** Every text has a path and a form. */
  lemma {:induction false} EveryTextIsFormed(text: string) returns (path: string, form: Form)
    ensures Formed(text, path, form)
  {
    var mark, space := First(text, 0, '?'), First(text, 0, ' ');
    path := text[..Lesser(mark, space)];
    if mark == |text| {
      form := Plain;
      assert space < |text| ==> text[..space + 1] == path + [' '];
    } else if space == |text| {
      form := WithQuery(text[mark + 1..]);
    } else if mark < space {
      form := QueryThenSpace(text[mark + 1..space], text[space + 1..]);
    } else {
      form := LateMark(text[space + 1..mark], text[mark + 1..]);
    }
  }

  /** So a GET whose path is registered is served by its own page, in every order of the map. */
  lemma {:induction false} GetReachesItsPage(items: seq<UrlItem>, text: string, g: Generator)
    requires Serves(items, Path(text), g)
    ensures Route(items, Cut(text).target) == Some(g)
  {
    KeyIsPath(text);
    ExactPageIsServed(items, Cut(text).target, g);
  }

  /** The buffer holds a string; after "GET" there is a character before its end. */
  predicate WellFormed(s: seq<char>)
  {
    && |s| <= KEY_SIZE
    && Terminated(s, 0)
    && (IsGet(s) ==> First(s, 0, NUL) > |HTTP_GET|)
  }

  predicate IsGet(s: seq<char>)
  {
    HTTP_GET <= s
  }

  /** The text behind "GET " in a well-formed GET buffer. */
  function TextOf(s: seq<char>): string
    requires WellFormed(s) && IsGet(s)
  {
    TextTerminated(s);
    CStr(s, 4)
  }

  lemma {:induction false} TextTerminated(s: seq<char>)
    requires WellFormed(s) && IsGet(s)
    ensures Terminated(s, 4) && First(s, 4, NUL) == First(s, 0, NUL)
  {
    FirstIs(s, 4, NUL, First(s, 0, NUL));
  }

  /** The buffer holds "GET", any one character, this text and NUL. */
  predicate Gets(s: seq<char>, text: string)
  {
    4 <= |s| && s[..3] == "GET" && s[3] != '\0' && '\0' !in text && text + ['\0'] <= s[4..]
  }

  lemma {:induction false} TextIs(s: seq<char>, text: string)
    requires |s| <= 512 && Gets(s, text)
    ensures WellFormed(s) && IsGet(s) && TextOf(s) == text
  {
    var end := 4 + |text|;
    assert s[4..][..|text| + 1] == text + ['\0'];
    assert s[end] == (text + ['\0'])[|text|] == NUL;
    forall k | 0 <= k < end
      ensures s[k] != NUL
    {
      assert k < 3 ==> s[k] == s[..3][k];
      assert 4 <= k ==> s[k] == s[4..][k - 4] == text[k - 4];
    }
    FirstIs(s, 0, NUL, end);
    FirstIs(s, 4, NUL, end);
    assert s[4..end] == text;
  }

  /** And that is what every well-formed buffer that begins with "GET" holds. */
  lemma {:induction false} GetHasText(s: seq<char>)
    requires WellFormed(s) && "GET" <= s
    ensures Gets(s, TextOf(s))
  {
    TextTerminated(s);
    var end := First(s, 4, NUL);
    assert s[4..][..end - 4] == s[4..end];
    assert TextOf(s) + ['\0'] == s[4..end + 1] == s[4..][..end + 1 - 4];
  }

  /** What becomes of a request: not a GET, a page's, the fallback handler's, or nobody's. */
  datatype Response = NotGet | Page | Fallback | NotFound

  /** A `get_handler`: it is asked about requests that no page serves. */
  type GetHandler = (string, Option<string>) -> bool

  /** The text with NUL over its first '?' and over its first space if it has one. */
  function CutText(text: string): seq<char>
    requires First(text, 0, '?') < |text|
  {
    var mark, space := First(text, 0, '?'), First(text, 0, ' ');
    if space < |text| then text[mark := NUL][space := NUL] else text[mark := NUL]
  }

  /** From `at` on, up to a NUL or the end, `u` reads `p`. */
  predicate ReadsAt(u: seq<char>, at: nat, p: string)
  {
    && at + |p| <= |u| && u[at..at + |p|] == p
    && (at + |p| < |u| ==> u[at + |p|] == NUL)
    && NUL !in p
  }

  /** What can be read at its start is the target, and behind the '?' the parameters. */
  lemma {:induction false} CutTextReads(text: string)
    requires First(text, 0, '?') < |text| && NUL !in text
    ensures |CutText(text)| == |text|
    ensures ReadsAt(CutText(text), 0, Cut(text).target)
    ensures ReadsAt(CutText(text), First(text, 0, '?') + 1, Cut(text).params.value)
  {
  }

  /** Writing in a slice is writing in the whole. */
  lemma {:induction false} UpdateInSlice(s: seq<char>, start: nat, n: nat, k: nat, c: char)
    requires start + n <= |s| && k < n
    ensures s[start + k := c][start..start + n] == s[start..start + n][k := c]
  {
  }

  /** A string inside a slice that is followed by NUL. */
  lemma {:induction false} CStrInSlice(s: seq<char>, start: nat, u: seq<char>, at: nat, p: string)
    requires start + |u| < |s| && s[start..start + |u|] == u && s[start + |u|] == NUL
    requires ReadsAt(u, at, p)
    ensures Terminated(s, start + at) && CStr(s, start + at) == p
  {
    SubSlice(s, start, |u|, at, at + |p|);
    assert at + |p| < |u| ==> s[start..start + |u|][at + |p|] == s[start + at + |p|];
    CStrIs(s, start + at, p);
  }

  /** A buffer whose text was cut holds the target at its start and the parameters behind the '?'. */
  lemma {:induction false} CutBuffer(s: seq<char>, start: nat, text: string, mark: nat, target: string, params: string)
    requires mark == First(text, 0, '?') < |text| && NUL !in text
    requires start + |text| < |s| && s[start + |text|] == NUL
    requires s[start..start + |text|] == CutText(text)
    requires Cut(text) == Request(target, Some(params))
    ensures Terminated(s, start) && CStr(s, start) == target
    ensures Terminated(s, start + (mark + 1)) && CStr(s, start + (mark + 1)) == params
  {
    CutTextReads(text);
    TwoStrings(s, start, CutText(text), mark + 1, target, params);
  }

  lemma {:induction false} TwoStrings(s: seq<char>, start: nat, u: seq<char>, at: nat, first: string, second: string)
    requires start + |u| < |s| && s[start..start + |u|] == u && s[start + |u|] == NUL
    requires ReadsAt(u, 0, first) && ReadsAt(u, at, second)
    ensures Terminated(s, start) && CStr(s, start) == first
    ensures Terminated(s, start + at) && CStr(s, start + at) == second
  {
    CStrInSlice(s, start, u, 0, first);
    CStrInSlice(s, start, u, at, second);
  }

  class Server {
    const urls: Registry
    const getHandler: Option<GetHandler>

    /** The requests that the fallback handler was asked about so far. */
    ghost var asked: seq<Request>

    constructor (urls: Registry, getHandler: Option<GetHandler>)
      ensures this.urls == urls && this.getHandler == getHandler && asked == []
    {
      this.urls := urls;
      this.getHandler := getHandler;
      asked := [];
    }

    /** html_server_register_generator. */
    method RegisterGenerator(address: Address, url: string, g: Option<Generator>)
      requires urls.Valid()
      modifies urls`entries
      ensures urls.Valid()
      ensures AsMap(urls.entries) == old(AsMap(urls.entries))[address := UrlItem(url, g)]
    {
      urls.RegisterUrl(address, UrlItem(url, g));
    }

    /** The page that serves a request, if any. */
    function PageFor(r: Request): Option<Generator>
      reads urls
    {
      Route(Items(urls.entries), r.target)
    }

    /**
     http_get_generate. A page is called when there is one, and then nobody else is; the fallback
     handler is asked exactly about the requests that no page serves.
     */
    method GetGenerate(r: Request) returns (response: Response)
      requires urls.Valid()
      requires |Key(r.target)| < KEY_SIZE && NUL !in r.target
      modifies this`asked, urls`called
      ensures urls.called == old(urls.called) + urls.CallsOf(PageFor(r), r.params)
      ensures asked == old(asked) + if PageFor(r).None? && getHandler.Some? then [r] else []
      ensures response == Page <==> PageFor(r).Some?
      ensures response == Fallback <==> asked != old(asked) && (getHandler.value)(r.target, r.params)
      ensures response != NotGet
    {
      var served := urls.CreateHtmlPage(r.target, r.params);
      if served {
        assert asked == asked + [];
        return Page;
      }
      if getHandler.Some? {
        asked := asked + [r];
        var handled := (getHandler.value)(r.target, r.params);
        if handled {
          return Fallback;
        }
      }
      assert asked == old(asked) + if getHandler.Some? then [r] else [];
      return NotFound;
    }

    /** The two NULs of handle_tcp_data, over the first '?' and, if there is one, the first space. */
    method PutNuls(data: array<char>, start: nat, mark: nat, space: Option<nat>, ghost text: string)
      requires start + |text| < data.Length && data[start..start + |text|] == text
      requires mark == start + First(text, 0, '?') && First(text, 0, '?') < |text|
      requires space == if First(text, 0, ' ') == |text| then None else Some(start + First(text, 0, ' '))
      modifies data
      ensures data[start..start + |text|] == CutText(text)
      ensures data[start + |text|] == old(data[start + |text|])
    {
      ghost var s := data[..];
      data[mark] := NUL;
      ghost var s1 := data[..];
      UpdateInSlice(s, start, |text|, mark - start, NUL);
      if space.Some? {
        data[space.value] := NUL;
        UpdateInSlice(s1, start, |text|, space.value - start, NUL);
      }
    }

    /** What those leave to be read. */
    method CutAt(data: array<char>, start: nat, mark: nat, space: Option<nat>, ghost text: string)
      requires start + |text| < data.Length && data[start..start + |text|] == text && data[start + |text|] == NUL
      requires NUL !in text
      requires mark == start + First(text, 0, '?') && First(text, 0, '?') < |text|
      requires space == if First(text, 0, ' ') == |text| then None else Some(start + First(text, 0, ' '))
      modifies data
      ensures Terminated(data[..], start) && CStr(data[..], start) == Cut(text).target
      ensures Terminated(data[..], mark + 1) && Cut(text).params == Some(CStr(data[..], mark + 1))
    {
      PutNuls(data, start, mark, space, text);
      assert data[..][start..start + |text|] == data[start..start + |text|];
      CutBuffer(data[..], start, text, mark - start, Cut(text).target, Cut(text).params.value);
    }

    /** The cutting in handle_tcp_data: the target stays at `start`, the parameters are at the result. */
    method CutInPlace(data: array<char>, start: nat) returns (params: Option<nat>)
      requires Terminated(data[..], start)
      modifies data
      ensures Terminated(data[..], start)
      ensures params.Some? ==> Terminated(data[..], params.value)
      ensures CStr(data[..], start) == Cut(old(CStr(data[..], start))).target
      ensures Cut(old(CStr(data[..], start))).params
           == if params.None? then None else Some(CStr(data[..], params.value))
    {
      ghost var text := CStr(data[..], start);
      var mark := StrChr(data, start, '?');
      if mark == None {
        return None;
      }
      var space := StrChr(data, start, ' ');
      CutAt(data, start, mark.value, space, text);
      return Some(mark.value + 1);
    }

    /** handle_tcp_data. */
    method HandleTcpData(data: array<char>) returns (response: Response)
      requires urls.Valid()
      requires WellFormed(data[..])
      modifies data, this`asked, urls`called
      ensures !("GET" <= old(data[..])) ==>
                response == NotGet && urls.called == old(urls.called) && asked == old(asked)
      ensures forall text | Gets(old(data[..]), text) ::
                var r := Cut(text);
                && urls.called == old(urls.called) + urls.CallsOf(PageFor(r), r.params)
                && asked == old(asked) + (if PageFor(r).None? && getHandler.Some? then [r] else [])
                && (response == Page <==> PageFor(r).Some?)
                && (response == Fallback <==> asked != old(asked) && (getHandler.value)(r.target, r.params))
                && response != NotGet
    {
      if data.Length < |HTTP_GET| || data[..|HTTP_GET|] != HTTP_GET {
        assert forall text :: !Gets(data[..], text);
        return NotGet;
      }
      TextTerminated(data[..]);
      forall t | Gets(data[..], t)
        ensures t == TextOf(data[..])
      {
        TextIs(data[..], t);
      }
      var start := |HTTP_GET| + 1;
      ghost var text := TextOf(data[..]);
      var params := CutInPlace(data, start);
      var n := StrLen(data, start);
      var target := data[start..start + n];
      assert target == CStr(data[..], start) == Cut(text).target;
      if params == None {
        response := GetGenerate(Request(target, None));
      } else {
        var m := StrLen(data, params.value);
        var query := data[params.value..params.value + m];
        assert query == CStr(data[..], params.value);
        response := GetGenerate(Request(target, Some(query)));
      }
    }
  }

  /** Every address but `a` that holds the text holds it with this generator. */
  ghost predicate Elsewhere(urls: map<Address, UrlItem>, a: Address, url: string, g: Generator)
  {
    forall b | b in urls && b != a && urls[b].url == url :: urls[b].func == Some(g)
  }

  lemma {:induction false} RegisteringRegisters(urls: map<Address, UrlItem>, a: Address, url: string, g: Generator)
    requires Elsewhere(urls, a, url, g)
    ensures RegisteredAs(urls[a := UrlItem(url, Some(g))], url, g)
  {
    var after := urls[a := UrlItem(url, Some(g))];
    assert a in after && after[a] == UrlItem(url, Some(g));
    forall x | Holds(after, x) && x.url == url
      ensures x.func == Some(g)
    {
      var b :| b in after && after[b] == x;
      assert b != a ==> b in urls && urls[b] == x;
    }
  }

  /**
   From registration to service: once a page is registered, a GET for its path calls its generator with
   the parameters that the request's form gives, and nothing else, unless another address gives the same
   text to another. Without a '?' there are none.
   */
  method RegisterThenGet(server: Server, address: Address, url: string, g: Generator, data: array<char>,
                         ghost text: string, ghost form: Form)
    returns (response: Response)
    requires server.urls.Valid()
    requires Elsewhere(AsMap(server.urls.entries), address, url, g)
    requires data.Length <= 512 && Gets(data[..], text) && Formed(text, url, form)
    modifies data, server`asked, server.urls
    ensures response == Page
    ensures server.urls.called == old(server.urls.called) + [(g, Given(form))]
    ensures server.asked == old(server.asked)
  {
    FormIsCut(text, url, form);
    TextIs(data[..], text);
    RegisteringRegisters(AsMap(server.urls.entries), address, url, g);
    server.RegisterGenerator(address, url, Some(g));
    RegisteredServes(server.urls.entries, url, g);
    GetReachesItsPage(Items(server.urls.entries), text, g);
    response := server.HandleTcpData(data);
    assert server.asked == old(server.asked) + [];
  }
}
