/**
 * The desktop navigator backend (desktop/src/backends/navigator.rs): its
 * URL policy, its XMLSocket connection policy, and the XMLSocket wire
 * framing, in which every message travels as its bytes followed by one zero
 * byte.  The TCP stream itself is I/O; each poll is given the outcome of the
 * read or write it would attempt.
 */
module DesktopNavigator {
  import opened Wrappers
  import opened Strings
  import opened Navigator

  /** The configuration the backend decides with. */
  datatype Backend = Backend(
    xmlSocketAllowed: set<string>,
    xmlSocketsBehavior: XmlSocketBehavior,
    upgradeToHttps: bool,
    openUrlMode: OpenUrlMode)

  // ---------------------------------------------------------------------
  // URL policy

  /** `pre_process_url`: `http` becomes `https` when upgrading is configured; nothing else changes. */
  function PreProcessUrl(b: Backend, url: Url): (r: Url)
    ensures r.rest == url.rest
    ensures r.scheme == "https" <==> url.scheme == "https" || (b.upgradeToHttps && url.scheme == "http")
    ensures r.scheme != url.scheme ==> b.upgradeToHttps && url.scheme == "http"
  {
    if b.upgradeToHttps && url.scheme == "http" then url.(scheme := "https") else url
  }

  /** Upgrading twice is upgrading once. */
  lemma PreProcessUrlIdempotent(b: Backend, url: Url)
    ensures PreProcessUrl(b, PreProcessUrl(b, url)) == PreProcessUrl(b, url)
  {
  }

  /** What `navigate_to_url` does in the end. */
  datatype NavigateOutcome = Ignored | OpenInBrowser(url: Url)

  /**
   * `navigate_to_url`, given the URL joined onto the base URL with the
   * variables appended as query pairs (None when joining fails) and the
   * user's answer to the confirmation dialog.
   */
  function NavigateToUrl(b: Backend, joined: Option<Url>, userConfirms: bool): (r: NavigateOutcome)
    ensures joined.None? || b.openUrlMode == DenyOpen ==> r == Ignored
    ensures b.openUrlMode == ConfirmOpen && !userConfirms ==> r == Ignored
    ensures r.OpenInBrowser? ==> joined.Some? && r.url == PreProcessUrl(b, joined.value) && r.url.scheme != "javascript"
  {
    match joined
    case None => Ignored
    case Some(u) =>
      var processed := PreProcessUrl(b, u);
      if processed.scheme == "javascript" then Ignored
      else if b.openUrlMode == ConfirmOpen && !userConfirms then Ignored
      else if b.openUrlMode == DenyOpen then Ignored
      else OpenInBrowser(processed)
  }

  /**
   * A website is opened exactly when the URL joins, is not `javascript:`
   * after pre-processing, and the mode allows it (confirming asks the
   * user); what is opened is the pre-processed URL.
   */
  lemma NavigateGating(b: Backend, joined: Option<Url>, userConfirms: bool)
    ensures NavigateToUrl(b, joined, userConfirms).OpenInBrowser? <==>
              joined.Some? && PreProcessUrl(b, joined.value).scheme != "javascript" &&
              (b.openUrlMode == AllowOpen || (b.openUrlMode == ConfirmOpen && userConfirms))
    ensures NavigateToUrl(b, joined, userConfirms).OpenInBrowser? ==>
              NavigateToUrl(b, joined, userConfirms).url == PreProcessUrl(b, joined.value)
  {
  }

  // ---------------------------------------------------------------------
  // XMLSocket connection policy

  /** The `"host:port"` key of the allow list. */
  function SocketAddress(host: string, port: nat): string
  {
    host + ":" + Decimal(port)
  }

  /** `connect_xml_socket`: the decision on the `(is_allowed, behaviour)` pair. */
  function ConnectXmlSocket(b: Backend, host: string, port: nat): (r: Option<XmlSocketConnection>)
    ensures r.Some? && r.value.TcpConnection? ==> r.value.host == host && r.value.port == port
    ensures r.Some? && r.value.PendingConnection? ==> r.value.host == host && r.value.port == port
  {
    var allowed := SocketAddress(host, port) in b.xmlSocketAllowed;
    if allowed || b.xmlSocketsBehavior == Unrestricted then Some(TcpConnection(host, port))
    else match b.xmlSocketsBehavior
      case Disabled => None
      case DenySockets => Some(DeniedConnection)
      case Ask => Some(PendingConnection(host, port))
  }

  /**
   * The decision table: an allowed address or unrestricted sockets connect
   * over TCP; otherwise disabled sockets give no connection, denied ones a
   * connection that refuses everything, and asking a pending one.
   */
  lemma ConnectDecisionTable(b: Backend, host: string, port: nat)
    ensures var allowed := SocketAddress(host, port) in b.xmlSocketAllowed;
            var r := ConnectXmlSocket(b, host, port);
            (r == Some(TcpConnection(host, port)) <==> allowed || b.xmlSocketsBehavior == Unrestricted) &&
            (r.None? <==> !allowed && b.xmlSocketsBehavior == Disabled) &&
            (r == Some(DeniedConnection) <==> !allowed && b.xmlSocketsBehavior == DenySockets) &&
            (r == Some(PendingConnection(host, port)) <==> !allowed && b.xmlSocketsBehavior == Ask)
  {
  }

  /** `DenySocket`: never connected, swallows what is sent, never yields a message. */
  class DenySocket {
    constructor ()
    {
    }

    function IsConnected(): (r: Option<bool>)
      ensures r == Some(false)
    {
      Some(false)
    }

    method Send(buf: seq<byte>)
    {
    }

    method Poll() returns (msg: Option<seq<byte>>)
      ensures msg.None?
    {
      msg := None;
    }
  }

  // ---------------------------------------------------------------------
  // Framing

  /** How `send` frames a message: its bytes, then one zero byte. */
  function Frame(buf: seq<byte>): seq<byte>
  {
    buf + [0]
  }

  predicate ZeroFree(bs: seq<byte>)
  {
    forall i :: 0 <= i < |bs| ==> bs[i] != 0
  }

  /** The position of the first zero byte, if there is one. */
  function FirstZero(q: seq<byte>): (r: Option<nat>)
    ensures r.None? <==> ZeroFree(q)
    ensures r.Some? ==> r.value < |q| && q[r.value] == 0 && ZeroFree(q[..r.value])
  {
    if q == [] then None
    else if q[0] == 0 then Some(0)
    else
      match FirstZero(q[1..])
      case None => None
      case Some(i) =>
        assert q[..i + 1] == [q[0]] + q[1..][..i];
        Some(i + 1)
  }

  /**
   * The next message in a read queue and what remains after it: the bytes
   * before the first zero, and the bytes after that zero.
   */
  function NextMessage(q: seq<byte>): Option<(seq<byte>, seq<byte>)>
  {
    match FirstZero(q)
    case None => None
    case Some(i) => Some((q[..i], q[i + 1..]))
  }

  /** Unframing a framed zero-free message gives it back, and leaves what followed untouched. */
  lemma FrameRoundTrip(buf: seq<byte>, rest: seq<byte>)
    requires ZeroFree(buf)
    ensures NextMessage(Frame(buf) + rest) == Some((buf, rest))
  {
    var q := Frame(buf) + rest;
    FirstZeroAt(q, |buf|);
    assert q[..|buf|] == buf && q[|buf| + 1..] == rest;
  }

  /** The first zero of a queue is at `i` when `i` holds a zero and nothing before it does. */
  lemma {:induction false} FirstZeroAt(q: seq<byte>, i: nat)
    requires i < |q| && q[i] == 0 && ZeroFree(q[..i])
    ensures FirstZero(q) == Some(i)
  {
    if i > 0 {
      assert q[0] == q[..i][0];
      assert q[1..][..i - 1] == q[..i][1..];
      FirstZeroAt(q[1..], i - 1);
    }
  }

  /** Messages sent one after the other are read back one after the other. */
  lemma FramesInOrder(a: seq<byte>, b: seq<byte>)
    requires ZeroFree(a) && ZeroFree(b)
    ensures NextMessage(Frame(a) + Frame(b)) == Some((a, Frame(b)))
    ensures NextMessage(Frame(b)) == Some((b, []))
  {
    FrameRoundTrip(a, Frame(b));
    FrameRoundTrip(b, []);
    assert Frame(b) + [] == Frame(b);
  }

  /** The outcome of writing the pending bytes to the stream. */
  datatype WriteOutcome = WriteWouldBlock | WriteFailed | Wrote(count: nat)

  /** The outcome of reading up to 2048 bytes from the stream. */
  datatype ReadOutcome = ReadWouldBlock | ReadFailed | ReadBytes(data: seq<byte>)

  /** `TcpXmlSocket`: a stream (present or dropped) with its write and read buffers. */
  class TcpXmlSocket {
    var connected: bool
    var pendingWrite: seq<byte>
    var pendingRead: seq<byte>

    /** `TcpXmlSocket::connect`, given whether the stream could be opened and made non-blocking. */
    constructor (streamOpened: bool)
      ensures connected == streamOpened && pendingWrite == [] && pendingRead == []
    {
      connected := streamOpened;
      pendingWrite := [];
      pendingRead := [];
    }

    function IsConnected(): (r: Option<bool>)
      reads this
      ensures r.Some? && (r.value <==> connected)
    {
      Some(connected)
    }

    /** `send`: a connected socket queues the framed message; a dropped one ignores it. */
    method Send(buf: seq<byte>)
      modifies this
      ensures connected ==> pendingWrite == old(pendingWrite) + Frame(buf)
      ensures !connected ==> pendingWrite == old(pendingWrite)
      ensures connected == old(connected) && pendingRead == old(pendingRead)
    {
      if connected {
        pendingWrite := pendingWrite + buf;
        pendingWrite := pendingWrite + [0];
      }
    }

    /**
     * `process_next_message` on the read queue: the bytes up to the first
     * zero are taken out as a message and the zero is dropped; with no zero
     * the queue is left as it is.
     */
    method ProcessNextMessage() returns (msg: Option<seq<byte>>)
      modifies this
      ensures connected == old(connected) && pendingWrite == old(pendingWrite)
      ensures NextMessage(old(pendingRead)).None? ==> msg.None? && pendingRead == old(pendingRead)
      ensures NextMessage(old(pendingRead)).Some? ==>
                msg == Some(NextMessage(old(pendingRead)).value.0) &&
                pendingRead == NextMessage(old(pendingRead)).value.1
    {
      var i := 0;
      while i < |pendingRead| && pendingRead[i] != 0
        invariant i <= |pendingRead|
        invariant ZeroFree(pendingRead[..i])
      {
        assert pendingRead[..i + 1] == pendingRead[..i] + [pendingRead[i]];
        i := i + 1;
      }
      if i == |pendingRead| {
        assert pendingRead[..i] == pendingRead;
        return None;
      }
      FirstZeroAt(pendingRead, i);
      var buffer := pendingRead[..i];
      pendingRead := pendingRead[i..];
      pendingRead := pendingRead[1..];
      msg := Some(buffer);
    }

    /**
     * `poll`: a connected socket first writes what is pending (a failed
     * write drops the stream), then yields the next buffered message, or
     * reads more bytes and tries again (a failed read drops the stream).
     */
    method Poll(write: WriteOutcome, read: ReadOutcome) returns (msg: Option<seq<byte>>)
      requires write.Wrote? ==> 0 < write.count <= |pendingWrite|
      requires read.ReadBytes? ==> 0 < |read.data| <= 2048
      modifies this
      ensures !old(connected) ==>
                msg.None? && !connected && pendingWrite == old(pendingWrite) && pendingRead == old(pendingRead)
      ensures old(connected) && old(pendingWrite) != [] && write.WriteFailed? ==>
                msg.None? && !connected && pendingWrite == old(pendingWrite) && pendingRead == old(pendingRead)
      ensures old(connected) && !(old(pendingWrite) != [] && write.WriteFailed?) ==>
                pendingWrite == (if old(pendingWrite) != [] && write.Wrote? then old(pendingWrite)[write.count..] else old(pendingWrite))
      ensures old(connected) && !(old(pendingWrite) != [] && write.WriteFailed?) && NextMessage(old(pendingRead)).Some? ==>
                connected && msg == Some(NextMessage(old(pendingRead)).value.0) &&
                pendingRead == NextMessage(old(pendingRead)).value.1
      ensures old(connected) && !(old(pendingWrite) != [] && write.WriteFailed?) && NextMessage(old(pendingRead)).None? ==>
                match read
                case ReadWouldBlock => connected && msg.None? && pendingRead == old(pendingRead)
                case ReadFailed => !connected && msg.None? && pendingRead == old(pendingRead)
                case ReadBytes(data) =>
                  connected &&
                  (NextMessage(old(pendingRead) + data).None? ==> msg.None? && pendingRead == old(pendingRead) + data) &&
                  (NextMessage(old(pendingRead) + data).Some? ==>
                     msg == Some(NextMessage(old(pendingRead) + data).value.0) &&
                     pendingRead == NextMessage(old(pendingRead) + data).value.1)
    {
      if !connected {
        return None;
      }
      if pendingWrite != [] {
        match write
        case WriteWouldBlock =>
        case WriteFailed =>
          connected := false;
          return None;
        case Wrote(n) =>
          pendingWrite := pendingWrite[n..];
      }
      msg := ProcessNextMessage();
      if msg.None? {
        match read
        case ReadWouldBlock =>
        case ReadFailed =>
          connected := false;
        case ReadBytes(data) =>
          pendingRead := pendingRead + data;
          msg := ProcessNextMessage();
      }
    }
  }
}
