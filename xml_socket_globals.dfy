/**
 * The native methods of `flash.net.XMLSocket`
 * (core/src/avm2/globals/flash/net/xml_socket.rs).  The receiver of each
 * call is either an XMLSocket object or some other object; the timeout
 * argument arrives already converted to a `u32`.
 */
module XmlSocketGlobals {
  import opened Wrappers
  import opened XmlSocketObjects
  import opened Sockets

  /** The receiver of a native method: `this.as_xml_socket()` succeeds or not. */
  datatype Receiver = XmlSocketReceiver(socket: XmlSocketObject) | OtherObject

  /** The ActionScript values these methods return. */
  datatype ScriptValue = Undefined | Bool(b: bool) | UInt(n: nat)

  /** The objects a receiver lets a method read. */
  function ReceiverObjects(receiver: Receiver): set<object>
  {
    if receiver.XmlSocketReceiver? then {receiver.socket} else {}
  }

  /**
   * `get_connected`: Undefined for other objects, false for a socket
   * without a handle, and otherwise whether the registry holds its handle.
   */
  function GetConnected(sockets: Sockets, receiver: Receiver): (r: ScriptValue)
    reads sockets, ReceiverObjects(receiver)
    ensures receiver.OtherObject? <==> r == Undefined
    ensures receiver.XmlSocketReceiver? && receiver.socket.handle.None? ==> r == Bool(false)
    ensures receiver.XmlSocketReceiver? && receiver.socket.handle.Some? ==> r == Bool(sockets.IsConnected(receiver.socket.handle.value))
  {
    match receiver
    case OtherObject => Undefined
    case XmlSocketReceiver(s) =>
      match s.handle
      case None => Bool(false)
      case Some(h) => Bool(sockets.IsConnected(h))
  }

  /** A socket that never received a handle reports itself as not connected. */
  lemma FreshSocketNotConnected(sockets: Sockets, s: XmlSocketObject)
    requires s.handle.None?
    ensures GetConnected(sockets, XmlSocketReceiver(s)) == Bool(false)
  {
  }

  /** `get_timeout`: the stored timeout of an XMLSocket; Undefined for other objects. */
  function GetTimeout(receiver: Receiver): (r: ScriptValue)
    reads ReceiverObjects(receiver)
    ensures receiver.OtherObject? <==> r == Undefined
    ensures receiver.XmlSocketReceiver? ==> r == UInt(receiver.socket.timeout)
  {
    match receiver
    case OtherObject => Undefined
    case XmlSocketReceiver(s) => UInt(s.timeout)
  }

  /**
   * `set_timeout`: an XMLSocket stores the clamped timeout, which
   * `get_timeout` then reports; other objects are untouched.
   */
  method SetTimeout(receiver: Receiver, t: nat) returns (r: ScriptValue)
    requires t < U32Limit
    modifies ReceiverObjects(receiver)
    ensures r == Undefined
    ensures receiver.XmlSocketReceiver? ==>
              GetTimeout(receiver) == UInt(if t < MinTimeout then MinTimeout else t) &&
              receiver.socket.handle == old(receiver.socket.handle)
  {
    if receiver.XmlSocketReceiver? {
      receiver.socket.SetTimeout(t);
    }
    r := Undefined;
  }

  /** `connect`, a stub: it returns Undefined and assigns no handle. */
  method Connect(receiver: Receiver, host: string, port: nat) returns (r: ScriptValue)
    ensures r == Undefined
  {
    r := Undefined;
  }

  /** `close`, a stub: it returns Undefined and closes nothing. */
  method Close(receiver: Receiver) returns (r: ScriptValue)
    ensures r == Undefined
  {
    r := Undefined;
  }

  /** `send`, a stub: it returns Undefined and sends nothing. */
  method Send(receiver: Receiver, data: string) returns (r: ScriptValue)
    ensures r == Undefined
  {
    r := Undefined;
  }
}
