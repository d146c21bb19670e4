/**
 * The platform-independent part of the navigator backend
 * (core/src/backend/navigator.rs): navigation methods, fetch requests, the
 * vocabulary the platform backends share, and the null backend used where
 * there is no browser.
 */
module Navigator {
  import opened Wrappers
  import opened Strings

  /** The HTTP method a navigation or fetch uses. */
  datatype NavigationMethod = Get | Post

  /** The method field of an AVM1 `GetURL2` action. */
  datatype SendVarsMethod = NoVars | GetVars | PostVars

  /** How links that open a new website are handled. */
  datatype OpenUrlMode = AllowOpen | ConfirmOpen | DenyOpen

  /** What `XMLSocket.connect` may do. */
  datatype XmlSocketBehavior = Disabled | Unrestricted | DenySockets | Ask

  /**
   * A parsed URL, reduced to what the backends decide on: its scheme and
   * everything after the scheme.  Parsing and joining are done by the `url`
   * crate and are not modelled.
   */
  datatype Url = Url(scheme: string, rest: string)

  /** The XMLSocket connections a backend can hand out. */
  datatype XmlSocketConnection =
    | TcpConnection(host: string, port: nat)
    | DeniedConnection
    | PendingConnection(host: string, port: nat)

  // ---------------------------------------------------------------------
  // NavigationMethod

  /** `from_send_vars_method`: no variables means no method. */
  function FromSendVarsMethod(s: SendVarsMethod): (r: Option<NavigationMethod>)
    ensures r.None? <==> s == NoVars
    ensures r == Some(Get) <==> s == GetVars
    ensures r == Some(Post) <==> s == PostVars
  {
    match s
    case NoVars => None
    case GetVars => Some(Get)
    case PostVars => Some(Post)
  }

  /** `from_method_str`: `get` and `post` in any ASCII letter case; nothing else. */
  function FromMethodStr(name: string): (r: Option<NavigationMethod>)
    ensures r == Some(Get) <==> AsciiLower(name) == "get"
    ensures r == Some(Post) <==> AsciiLower(name) == "post"
    ensures r.None? <==> AsciiLower(name) != "get" && AsciiLower(name) != "post"
  {
    var lower := AsciiLower(name);
    if lower == "get" then Some(Get) else if lower == "post" then Some(Post) else None
  }

  /** Two spellings that differ only in ASCII letter case denote the same method. */
  lemma FromMethodStrIgnoresCase(a: string, b: string)
    requires AsciiLower(a) == AsciiLower(b)
    ensures FromMethodStr(a) == FromMethodStr(b)
  {
  }

  /** `Display`: the upper-case method name, which parses back to the method. */
  function Display(m: NavigationMethod): (s: string)
    ensures FromMethodStr(s) == Some(m)
    ensures forall i :: 0 <= i < |s| ==> 'A' <= s[i] <= 'Z'
  {
    var s := match m case Get => "GET" case Post => "POST";
    assert AsciiLower(s) == (match m case Get => "get" case Post => "post");
    s
  }

  /** Printing is injective: different methods print differently. */
  lemma DisplayInjective(m: NavigationMethod, n: NavigationMethod)
    requires Display(m) == Display(n)
    ensures m == n
  {
    assert FromMethodStr(Display(m)) == Some(m);
  }

  // ---------------------------------------------------------------------
  // Request

  /** A request body: the data and its MIME type. */
  datatype Body = Body(data: seq<byte>, mimeType: string)

  /** A fetch request: URL, method, optional body and headers in insertion order. */
  class Request {
    var url: string
    var httpMethod: NavigationMethod
    var body: Option<Body>
    var headers: seq<(string, string)>

    /** `Request::get`: a GET request with no body and no headers. */
    constructor ForGet(url: string)
      ensures this.url == url && httpMethod == Get && body == None && headers == []
    {
      this.url := url;
      httpMethod := Get;
      body := None;
      headers := [];
    }

    /** `Request::post`: a POST request with the given body and no headers. */
    constructor ForPost(url: string, body: Option<Body>)
      ensures this.url == url && httpMethod == Post && this.body == body && headers == []
    {
      this.url := url;
      httpMethod := Post;
      this.body := body;
      headers := [];
    }

    /** `Request::request`: the given method and body, no headers. */
    constructor (m: NavigationMethod, url: string, body: Option<Body>)
      ensures this.url == url && httpMethod == m && this.body == body && headers == []
    {
      this.url := url;
      httpMethod := m;
      this.body := body;
      headers := [];
    }

    /** `set_body`: the request now has exactly this body; nothing else changes. */
    method SetBody(b: Body)
      modifies this
      ensures body == Some(b)
      ensures url == old(url) && httpMethod == old(httpMethod) && headers == old(headers)
    {
      body := Some(b);
    }

    /** `set_headers`: the headers are replaced wholesale; nothing else changes. */
    method SetHeaders(h: seq<(string, string)>)
      modifies this
      ensures headers == h
      ensures url == old(url) && httpMethod == old(httpMethod) && body == old(body)
    {
      headers := h;
    }
  }

  // ---------------------------------------------------------------------
  // NullNavigatorBackend

  /** The null backend leaves URLs as they are. */
  function NullPreProcessUrl(url: Url): (r: Url)
    ensures r == url
  {
    url
  }

  /** The null backend offers no XMLSocket connections. */
  function NullConnectXmlSocket(host: string, port: nat): (r: Option<XmlSocketConnection>)
    ensures r.None?
  {
    None
  }
}
