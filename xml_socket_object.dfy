/**
 * The state of an ActionScript `XMLSocket` object
 * (core/src/avm2/object/xml_socket_object.rs): the handle of its
 * connection in the socket registry, if any, and its connection timeout in
 * milliseconds.  The two cells are read and written independently.
 */
module XmlSocketObjects {
  import opened Wrappers

  /**
   * A handle of the socket registry.  The registry's generational arena
   * never hands out the same handle twice, so a handle is modelled as a
   * number drawn from a counter.
   */
  type SocketHandle = nat

  /** One more than the largest `u32`. */
  const U32Limit: nat := 0x1_0000_0000

  /** The shortest timeout a socket accepts, in milliseconds. */
  const MinTimeout: nat := 250

  class XmlSocketObject {
    var handle: Option<SocketHandle>
    var timeout: nat

    /** `xml_socket_allocator`: no connection and a zero timeout. */
    constructor ()
      ensures handle == None && timeout == 0
    {
      handle := None;
      timeout := 0;
    }

    /**
     * `set_timeout`: timeouts shorter than 250 ms are raised to 250 ms,
     * longer ones are kept; the handle is untouched.
     */
    method SetTimeout(t: nat)
      requires t < U32Limit
      modifies this
      ensures timeout >= MinTimeout && timeout >= t
      ensures t >= MinTimeout ==> timeout == t
      ensures t < MinTimeout ==> timeout == MinTimeout
      ensures handle == old(handle)
    {
      timeout := if t < MinTimeout then MinTimeout else t;
    }

    /** `set_handle`: the new handle replaces the old one, which is returned; the timeout is untouched. */
    method SetHandle(h: SocketHandle) returns (previous: Option<SocketHandle>)
      modifies this
      ensures previous == old(handle) && handle == Some(h)
      ensures timeout == old(timeout)
    {
      previous := handle;
      handle := Some(h);
    }
  }
}
