/**
 * The browser navigator backend (web/src/navigator.rs): which navigations
 * and fetches it lets through, how it resolves URLs, and what its socket
 * glue reports back to the socket registry.  URL parsing and joining, the
 * page's `document.baseURI` and location, the confirmation dialog and the
 * JavaScript socket callback are outside the model: their results are
 * parameters.
 */
module WebNavigator {
  import opened Wrappers
  import opened Strings
  import opened Navigator
  import opened XmlSocketObjects
  import opened Sockets

  /** `allowNetworking`. */
  datatype NetworkingAccessMode = All | Internal | NoNetworking

  /** The configuration the backend decides with. */
  datatype Backend = Backend(
    allowScriptAccess: bool,
    allowNetworking: NetworkingAccessMode,
    upgradeToHttps: bool,
    baseUrl: Option<Url>,
    openUrlMode: OpenUrlMode)

  // ---------------------------------------------------------------------
  // Construction

  /** A configured base URL ends in `/`, so that parsing keeps its last segment. */
  function WithTrailingSlash(s: string): (r: string)
    ensures EndsWith(r, "/")
    ensures EndsWith(s, "/") ==> r == s
    ensures !EndsWith(s, "/") ==> r == s + "/"
  {
    if |s| > 0 && s[|s| - 1] == '/' then s else s + "/"
  }

  /** Normalising twice is normalising once. */
  lemma TrailingSlashIdempotent(s: string)
    ensures WithTrailingSlash(WithTrailingSlash(s)) == WithTrailingSlash(s)
  {
  }

  /**
   * `WebNavigatorBackend::new`: upgrading to https is effective only on a
   * page served over https; a configured base URL is normalised, then
   * parsed on its own or, failing that, against the document's base URI;
   * without one the document's base URI is the base.
   */
  function New(allowScriptAccess: bool, allowNetworking: NetworkingAccessMode, upgradeToHttps: bool,
               baseUrl: Option<string>, openUrlMode: OpenUrlMode,
               pageProtocol: string, documentBase: Option<Url>,
               parse: string -> Option<Url>, join: (Url, string) -> Option<Url>): (b: Backend)
    ensures b.upgradeToHttps <==> upgradeToHttps && pageProtocol == "https:"
    ensures b.allowScriptAccess == allowScriptAccess && b.allowNetworking == allowNetworking
    ensures b.openUrlMode == openUrlMode
    ensures baseUrl.None? ==> b.baseUrl == documentBase
    ensures baseUrl.Some? && parse(WithTrailingSlash(baseUrl.value)).Some? ==>
              b.baseUrl == parse(WithTrailingSlash(baseUrl.value))
    ensures baseUrl.Some? && parse(WithTrailingSlash(baseUrl.value)).None? ==>
              b.baseUrl == (if documentBase.Some? then join(documentBase.value, WithTrailingSlash(baseUrl.value)) else None)
  {
    var base := match baseUrl
      case Some(s) =>
        var normalised := WithTrailingSlash(s);
        if parse(normalised).Some? then parse(normalised)
        else if documentBase.Some? then join(documentBase.value, normalised)
        else None
      case None => documentBase;
    Backend(allowScriptAccess, allowNetworking, upgradeToHttps && pageProtocol == "https:", base, openUrlMode)
  }

  // ---------------------------------------------------------------------
  // URLs

  /** `pre_process_url`: `http` becomes `https` when upgrading is in effect; nothing else changes. */
  function PreProcessUrl(b: Backend, url: Url): (r: Url)
    ensures r.rest == url.rest
    ensures r.scheme == "https" <==> url.scheme == "https" || (b.upgradeToHttps && url.scheme == "http")
    ensures r.scheme != url.scheme ==> b.upgradeToHttps && url.scheme == "http"
  {
    if b.upgradeToHttps && url.scheme == "http" then url.(scheme := "https") else url
  }

  /** On a page not served over https no URL is ever upgraded. */
  lemma NoUpgradeOffHttps(allowScriptAccess: bool, allowNetworking: NetworkingAccessMode, upgradeToHttps: bool,
                          baseUrl: Option<string>, openUrlMode: OpenUrlMode,
                          pageProtocol: string, documentBase: Option<Url>,
                          parse: string -> Option<Url>, join: (Url, string) -> Option<Url>, url: Url)
    requires pageProtocol != "https:"
    ensures var b := New(allowScriptAccess, allowNetworking, upgradeToHttps, baseUrl, openUrlMode,
                         pageProtocol, documentBase, parse, join);
            PreProcessUrl(b, url) == url
  {
  }

  /**
   * `resolve_url`: the URL joined onto the base URL (or parsed on its own
   * without one), then pre-processed; None when joining or parsing fails.
   */
  function ResolveUrl(b: Backend, url: string, parse: string -> Option<Url>, join: (Url, string) -> Option<Url>): (r: Option<Url>)
    ensures var raw := if b.baseUrl.Some? then join(b.baseUrl.value, url) else parse(url);
            (r.None? <==> raw.None?) && (r.Some? ==> r.value == PreProcessUrl(b, raw.value))
  {
    var raw := if b.baseUrl.Some? then join(b.baseUrl.value, url) else parse(url);
    match raw
    case None => None
    case Some(u) => Some(PreProcessUrl(b, u))
  }

  // ---------------------------------------------------------------------
  // navigate_to_url

  /** What `navigate_to_url` does in the end. */
  datatype NavigateOutcome =
    | Ignored
    | SubmitForm(formMethod: string, action: Url, formTarget: Option<string>, fields: seq<(string, string)>)
    | AssignLocation(url: Url)
    | OpenWindow(url: Url, windowTarget: string)

  /** Targets that would replace the current page. */
  predicate CurrentTabTarget(target: string)
  {
    var t := AsciiLower(target);
    t == "_parent" || t == "_self" || t == "_top" || t == ""
  }

  /** The checks before a URL may be opened, in the order they are made. */
  predicate NavigationAllowed(b: Backend, url: string, target: string, resolved: Option<Url>, userConfirms: bool)
  {
    url != [] && resolved.Some? && resolved.value.scheme != "file" &&
    b.allowNetworking == All &&
    (!b.allowScriptAccess ==> resolved.value.scheme != "javascript" && !CurrentTabTarget(target)) &&
    (resolved.value.scheme != "javascript" ==>
       b.openUrlMode == AllowOpen || (b.openUrlMode == ConfirmOpen && userConfirms))
  }

  /**
   * `navigate_to_url`, given the result of `resolve_url` on the URL, the
   * user's answer to the confirmation prompt, and whether the document has
   * a body to attach a form to.
   */
  function NavigateToUrl(b: Backend, url: string, target: string, resolved: Option<Url>,
                         varsMethod: Option<(NavigationMethod, seq<(string, string)>)>,
                         userConfirms: bool, hasBody: bool): (r: NavigateOutcome)
    ensures r != Ignored ==> NavigationAllowed(b, url, target, resolved, userConfirms)
  {
    if url == [] then Ignored
    else if resolved.None? || resolved.value.scheme == "file" then Ignored
    else if b.allowNetworking != All then Ignored
    else
      var u := resolved.value;
      if !b.allowScriptAccess && u.scheme == "javascript" then Ignored
      else if !b.allowScriptAccess && CurrentTabTarget(target) then Ignored
      else if u.scheme != "javascript" && b.openUrlMode == ConfirmOpen && !userConfirms then Ignored
      else if u.scheme != "javascript" && b.openUrlMode == DenyOpen then Ignored
      else
        match varsMethod
        case Some((m, vars)) =>
          if !hasBody then Ignored
          else SubmitForm(Display(m), u, if target == [] then None else Some(target), vars)
        case None =>
          if target == [] then AssignLocation(u) else OpenWindow(u, target)
  }

  /**
   * The gating sequence: a navigation goes through exactly when every
   * check passes (and, for a form, the document has a body); it then goes
   * to the resolved URL.
   */
  lemma NavigateGating(b: Backend, url: string, target: string, resolved: Option<Url>,
                       varsMethod: Option<(NavigationMethod, seq<(string, string)>)>,
                       userConfirms: bool, hasBody: bool)
    ensures var r := NavigateToUrl(b, url, target, resolved, varsMethod, userConfirms, hasBody);
            (r != Ignored <==> NavigationAllowed(b, url, target, resolved, userConfirms) && (varsMethod.Some? ==> hasBody)) &&
            (r.SubmitForm? ==> r.action == resolved.value && FromMethodStr(r.formMethod) == Some(varsMethod.value.0)) &&
            ((r.AssignLocation? || r.OpenWindow?) ==> r.url == resolved.value && varsMethod.None?)
  {
  }

  /** Script access withheld: no `javascript:` URL and no current-tab target ever gets through. */
  lemma ScriptAccessGuards(b: Backend, url: string, target: string, resolved: Option<Url>,
                           varsMethod: Option<(NavigationMethod, seq<(string, string)>)>,
                           userConfirms: bool, hasBody: bool)
    requires !b.allowScriptAccess
    requires (resolved.Some? && resolved.value.scheme == "javascript") || CurrentTabTarget(target)
    ensures NavigateToUrl(b, url, target, resolved, varsMethod, userConfirms, hasBody) == Ignored
  {
  }

  // ---------------------------------------------------------------------
  // fetch

  /** What `fetch` starts with. */
  datatype FetchOutcome =
    | InvalidUrl(requestUrl: string)
    | LocalUrlRejected(url: Url)
    | Requested(url: Url)

  const LocalFetchMessage: string := "WASM target can't fetch local URL"

  /** `fetch`: an unresolvable URL and a `file` URL fail at once; anything else is requested. */
  function Fetch(b: Backend, requestUrl: string, resolved: Option<Url>): (r: FetchOutcome)
    ensures r.InvalidUrl? <==> resolved.None?
    ensures r.LocalUrlRejected? <==> resolved.Some? && resolved.value.scheme == "file"
    ensures r.Requested? ==> r.url == resolved.value && r.url.scheme != "file"
  {
    match resolved
    case None => InvalidUrl(requestUrl)
    case Some(u) => if u.scheme == "file" then LocalUrlRejected(u) else Requested(u)
  }

  // ---------------------------------------------------------------------
  // Socket glue

  /** A chunk written to the socket's writable stream. */
  datatype Chunk = ByteArray(bytes: seq<byte>) | OtherChunk

  /** `WrappedSender`: the writable side of a socket, reporting to the registry's channel. */
  class WrappedSender {
    const channel: ActionChannel
    const handle: SocketHandle

    constructor (channel: ActionChannel, handle: SocketHandle)
      ensures this.channel == channel && this.handle == handle
    {
      this.channel := channel;
      this.handle := handle;
    }

    /** `write`: a byte array becomes one Data action; any other chunk sends nothing. */
    method Write(chunk: Chunk)
      modifies channel
      ensures chunk.ByteArray? ==> channel.queue == old(channel.queue) + [Data(handle, chunk.bytes)]
      ensures chunk.OtherChunk? ==> channel.queue == old(channel.queue)
    {
      if chunk.ByteArray? {
        channel.Send(Data(handle, chunk.bytes));
      }
    }

    /** `close`: one Close action. */
    method Close()
      modifies channel
      ensures channel.queue == old(channel.queue) + [SocketAction.Close(handle)]
    {
      channel.Send(SocketAction.Close(handle));
    }

    /** `abort`: one Close action, whatever the reason. */
    method Abort(reason: string)
      modifies channel
      ensures channel.queue == old(channel.queue) + [SocketAction.Close(handle)]
    {
      channel.Send(SocketAction.Close(handle));
    }
  }

  /** How the socket callback's promise settled. */
  datatype PromiseOutcome = Rejected | ResolvedBool(b: bool) | ResolvedOther

  /** The action the spawned future sends once the promise settles: connected only on `true`. */
  function SettledAction(handle: SocketHandle, outcome: PromiseOutcome): (a: SocketAction)
    ensures a.Connect? && a.handle == handle
    ensures a.state == Connected <==> outcome == ResolvedBool(true)
    ensures a.state != Connected ==> a.state == Failed
  {
    if outcome == ResolvedBool(true) then Connect(handle, Connected) else Connect(handle, Failed)
  }

  /**
   * `connect_socket`, up to spawning the future that awaits the callback's
   * promise: each early failure (the options do not serialise, the
   * callback throws, it returns no promise) reports exactly one failed
   * connection; otherwise nothing is sent yet and the future is spawned.
   */
  method ConnectSocket(channel: ActionChannel, handle: SocketHandle,
                       serialised: bool, callbackReturned: bool, returnedPromise: bool) returns (spawned: bool)
    modifies channel
    ensures spawned <==> serialised && callbackReturned && returnedPromise
    ensures !spawned ==> channel.queue == old(channel.queue) + [Connect(handle, Failed)]
    ensures spawned ==> channel.queue == old(channel.queue)
  {
    if !serialised {
      channel.Send(Connect(handle, Failed));
      return false;
    }
    if !callbackReturned {
      channel.Send(Connect(handle, Failed));
      return false;
    }
    if !returnedPromise {
      channel.Send(Connect(handle, Failed));
      return false;
    }
    spawned := true;
  }
}
