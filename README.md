# E4X, XMLSocket and navigator backends of an AVM2 player, in Dafny

This project models part of the Ruffle Flash player and proves properties of the model:

- the ActionScript 3 E4X `XML` and `XMLList` objects, as ECMA-357 describes them;
- the AVM2 error constructors these objects raise;
- the XMLSocket machinery;
- the URL and socket policy of the navigator backends.

## The model in brief

**E4X nodes.** `E4XNode` keeps the XML nodes in an arena.
- `NodeStore` is a class whose `nodes` map takes node ids to nodes. Every child and attribute id is larger than its owner's id. That ordering gives termination and subtree framing.
- `XTree` is the value of a subtree, read out of the store. `TreeEq` is E4X structural equality on it.
- The node mutators (`InsertAt`, `RemoveMatching`, `Replace`, `RemoveAllChildren`, …) are methods. Each states the whole new map.

**XML and XMLList objects.** `XmlObjects` holds both object classes.
- `XmlObject` follows `[[Get]]`, `[[Put]]` (section 9.1.1.2 of ECMA-357) and `[[Delete]]`.
- `XmlListObject` keeps its entries, target object and target property as fields. It follows:
  - `[[Append]]` (section 9.2.1.6);
  - `[[ResolveValue]]` (section 9.2.1.10);
  - the list `[[Get]]`, `[[Put]]` (section 9.2.1.2) and `[[Delete]]`;
  - equality and enumeration.
- Recursion through target objects is bounded by a `fuel` parameter. A ghost set of list objects frames what a call may change.

**XMLList built-ins.** `XmlListGlobals` models the ActionScript-visible methods of `XMLList`.

**Errors.** `Avm2Error` models the error constructors. The numeric code agrees with the `Error #NNNN:` prefix of the message.

**Sockets.**
- `Sockets` models the socket registry and its action channel.
- `XmlSocketObjects` and `XmlSocketGlobals` model the `flash.net.XMLSocket` object and its native methods.
- `SocketFormat` models the byte encoding of the socket test values.

**Navigators.**
- `Navigator` models the core navigator types and the null backend.
- `DesktopNavigator` models the desktop backend: the https upgrade, the open-URL gate, the socket policy and the NUL-framed TCP XML socket.
- `WebNavigator` models the browser backend: the base URL, the https upgrade, the navigation gates, fetch and the socket bridge.

## Model

| member | source | states |
|---|---|---|
| Avm2Error.ErrorConstructor | core/src/avm2/error.rs:303-313 | an error object has the requested class, message and code unless constructing it throws, in which case that throw is the result |
| Avm2Error.FromMessage | core/src/avm2/error.rs:326-337 | a Rust-side message becomes an uncatchable error carrying that message |
| Avm2Error.MakeNullOrUndefinedError | core/src/avm2/error.rs:51-81 | a TypeError 1010 for undefined, 1009 for null, with the matching message; when a field name is known the message ends with the accessed-field suffix |
| Avm2Error.NullOrUndefinedSuffixIffName | core/src/avm2/error.rs:57-75 | the message is the bare base message exactly when no field name is given |
| Avm2Error.MakeReferenceError | core/src/avm2/error.rs:95-139 | a ReferenceError whose code is the discriminant of the reference-error kind |
| Avm2Error.ReferenceCodeMatchesMessage | core/src/avm2/error.rs:111-131 | every reference-error message starts with `Error #` and the error's own code |
| Avm2Error.TagMatchesDiscriminant | core/src/avm2/error.rs:83-91 | each reference-error kind's message tag spells its discriminant in decimal |
| Avm2Error.MakeError2008 | core/src/avm2/error.rs:143-157 | an ArgumentError 2008 whose message names the offending parameter |
| Avm2Error.InvalidSocketError | core/src/avm2/error.rs:248-258 | an IOError 2002 whose message starts with its code |
| Avm2Error.MakeTypeError | core/src/avm2/error.rs:193-202 | a TypeError with exactly the given message and code |
| Avm2Error.Error1086 | core/src/avm2/globals/xml_list.rs:306-313 | a TypeError with code 1086 |
| Avm2Error.Error1087 | core/src/avm2/object/xml_object.rs:369-374 | a TypeError with code 1087 |
| Avm2Error.Error1089 | core/src/avm2/object/xml_list_object.rs:251-254 | a TypeError with code 1089 |
| Avm2Error.InvalidSocketErrorCarriesCode | core/src/avm2/error.rs:248-258 | the 2002 message's prefix spells its code |
| Avm2Error.Error1086CarriesCode | core/src/avm2/globals/xml_list.rs:306-313 | the 1086 message's prefix spells its code |
| Avm2Error.Error1087CarriesCode | core/src/avm2/object/xml_object.rs:369-374 | the 1087 message's prefix spells its code |
| Avm2Error.Error1089CarriesCode | core/src/avm2/object/xml_list_object.rs:251-254 | the 1089 message's prefix spells its code |
| Avm2Error.Error2008CarriesCode | core/src/avm2/error.rs:143-157 | the 2008 message's prefix spells its code, for every parameter name |
| Navigator.FromSendVarsMethod | core/src/backend/navigator.rs:61-67 | no variables gives no method; GET and POST variables give GET and POST, in both directions |
| Navigator.FromMethodStr | core/src/backend/navigator.rs:69-79 | a method name is GET or POST exactly when it equals `get` or `post` ignoring ASCII case, and nothing otherwise |
| Navigator.FromMethodStrIgnoresCase | core/src/backend/navigator.rs:69-79 | two names that differ only in ASCII case parse to the same method |
| Navigator.Display | core/src/backend/navigator.rs:82-91 | the display text is upper case and parses back to the same method |
| Navigator.DisplayInjective | core/src/backend/navigator.rs:82-91 | different methods display differently |
| Navigator.Request.ForGet | core/src/backend/navigator.rs:116-123 | a GET request for the URL with no body and no headers |
| Navigator.Request.ForPost | core/src/backend/navigator.rs:126-133 | a POST request for the URL with the given body and no headers |
| Navigator.Request.constructor | core/src/backend/navigator.rs:137-144 | a request with the given method, URL and body and no headers |
| Navigator.Request.SetBody | core/src/backend/navigator.rs:161-163 | the body is replaced and nothing else changes |
| Navigator.Request.SetHeaders | core/src/backend/navigator.rs:169-171 | the headers are replaced and nothing else changes |
| Navigator.NullPreProcessUrl | core/src/backend/navigator.rs:388-390 | the null backend leaves every URL unchanged |
| Navigator.NullConnectXmlSocket | core/src/backend/navigator.rs:392-398 | the null backend never opens an XML socket |
| DesktopNavigator.PreProcessUrl | desktop/src/backends/navigator.rs:268-273 | only the scheme can change, and only from http to https when upgrading is on |
| DesktopNavigator.PreProcessUrlIdempotent | desktop/src/backends/navigator.rs:268-273 | pre-processing twice equals pre-processing once |
| DesktopNavigator.NavigateToUrl | desktop/src/backends/navigator.rs:88-158 | a URL that does not join, the deny mode and a declined confirmation are all ignored; a URL that is opened is the pre-processed URL and is not `javascript:` |
| DesktopNavigator.NavigateGating | desktop/src/backends/navigator.rs:88-158 | a URL opens in the browser exactly when it resolves, is not `javascript:` after pre-processing, and the open-URL mode allows it or the user confirms; the opened URL is the pre-processed one |
| DesktopNavigator.ConnectXmlSocket | desktop/src/backends/navigator.rs:275-318 | a TCP or pending connection targets the requested host and port |
| DesktopNavigator.ConnectDecisionTable | desktop/src/backends/navigator.rs:284-289 | an allow-listed address or the unrestricted mode connects; otherwise the disabled, deny and ask modes give no socket, a denying socket and a pending prompt, each as an if-and-only-if |
| DesktopNavigator.DenySocket.IsConnected | desktop/src/backends/navigator.rs:353-366 | a denied socket reports that it is not connected |
| DesktopNavigator.DenySocket.Poll | desktop/src/backends/navigator.rs:353-366 | a denied socket never yields a message |
| DesktopNavigator.FirstZero | desktop/src/backends/navigator.rs:441-450 | the position of the first NUL byte, or none exactly when the buffer has no NUL |
| DesktopNavigator.FrameRoundTrip | desktop/src/backends/navigator.rs:395-400 | a NUL-free message framed by `send` is read back whole by the message splitter, leaving the rest untouched |
| DesktopNavigator.FirstZeroAt | desktop/src/backends/navigator.rs:441-450 | a NUL with no NUL before it is the first one |
| DesktopNavigator.FramesInOrder | desktop/src/backends/navigator.rs:441-450 | two framed messages come out in the order they were sent |
| DesktopNavigator.TcpXmlSocket.constructor | desktop/src/backends/navigator.rs:374-389 | a new socket has empty buffers and is connected exactly when the stream opened |
| DesktopNavigator.TcpXmlSocket.IsConnected | desktop/src/backends/navigator.rs:391-393 | the socket reports its connected flag |
| DesktopNavigator.TcpXmlSocket.Send | desktop/src/backends/navigator.rs:395-400 | a connected socket appends the NUL-terminated message to the write buffer; a closed one drops it |
| DesktopNavigator.TcpXmlSocket.ProcessNextMessage | desktop/src/backends/navigator.rs:441-450 | the next NUL-terminated message is removed from the read buffer and returned, or nothing changes when there is none |
| DesktopNavigator.TcpXmlSocket.Poll | desktop/src/backends/navigator.rs:402-438 | a failed write or read disconnects; a partial write drops the written prefix; a buffered message is delivered before reading; a read appends at most one chunk and yields the first complete message |
| SocketFormat.StrDefault | tests/socket-format/src/lib.rs:12-15 | a string value defaults to no NUL terminator |
| SocketFormat.LeBytesRoundTrip | tests/socket-format/src/lib.rs:74-82 | little-endian bytes of an in-range number decode back to it |
| SocketFormat.BeIsReversedLe | tests/socket-format/src/lib.rs:74-82 | big-endian bytes are the little-endian bytes reversed |
| SocketFormat.Utf8OfAscii | tests/socket-format/src/lib.rs:101-102 | ASCII text encodes to one byte per character with the same value |
| SocketFormat.Utf8ZeroFree | tests/socket-format/src/lib.rs:101-102 | the UTF-8 encoding contains a zero byte exactly when the text contains NUL |
| SocketFormat.ToBytes | tests/socket-format/src/lib.rs:74-111 | integers take 4, 2 or 1 bytes by width; a boolean is one 0 or 1 byte; bytes are copied; a string is its UTF-8 encoding plus a NUL when terminated |
| SocketFormat.IntegerRoundTrip | tests/socket-format/src/lib.rs:87-93 | decoding the bytes of any in-range integer value, in either endianness, gives the value back, negative ones included |
| SocketFormat.BigIsReversedLittle | tests/socket-format/src/lib.rs:76-90 | the big-endian encoding of a multi-byte integer is its little-endian encoding reversed |
| SocketFormat.NullTerminatedHasOneZero | tests/socket-format/src/lib.rs:96-111 | a NUL-terminated NUL-free string has exactly one zero byte, the last |
| SocketFormat.EncodedAppend | tests/socket-format/src/lib.rs:118-128 | encoding a concatenation is concatenating the encodings |
| SocketFormat.ToBytesAll | tests/socket-format/src/lib.rs:118-128 | the loop produces the concatenation of every value's encoding |
| Sockets.SocketObject.constructor | core/src/socket.rs:80-106 | a new Socket object has no handle, a zero timeout and an empty read buffer |
| Sockets.SocketObject.SetHandle | core/src/socket.rs:102-106 | the new handle is stored and the previous one returned; nothing else changes |
| Sockets.ActionChannel.Drain | core/src/socket.rs:130-132 | all queued actions are taken, in order, and the queue is empty |
| Sockets.ActionChannel.Send | core/src/socket.rs:47-51 | an action is queued at the end |
| Sockets.EventFor | core/src/socket.rs:134-262 | an action for an unknown handle produces no event; otherwise an event for that socket's target: a data event of the received length, or an I/O error event for a failed connect |
| Sockets.EventsOfAppend | core/src/socket.rs:134-262 | the events of two batches of actions are the events of each batch in order |
| Sockets.EventsOnlyForLive | core/src/socket.rs:134-262 | there is one event per action on a live handle, aimed at that handle's target |
| Sockets.LiveActions | core/src/socket.rs:134-262 | only actions whose handle is registered survive |
| Sockets.NothingReceivedWhenAbsent | core/src/socket.rs:201-236 | an object not registered under any handle receives no data |
| Sockets.Sockets.Empty | core/src/socket.rs:70-78 | a new registry has no sockets, an empty channel, no requests and no events |
| Sockets.Sockets.ConnectAvm2 | core/src/socket.rs:80-107 | the target gets a fresh handle, its old socket is closed, and one connect request with its timeout is recorded |
| Sockets.Sockets.Send | core/src/socket.rs:113-117 | data is queued on a live socket and ignored for an unknown handle |
| Sockets.Sockets.Close | core/src/socket.rs:119-123 | the handle is no longer connected and every other socket is unchanged |
| Sockets.Sockets.UpdateSockets | core/src/socket.rs:125-262 | the channel is drained; the events are those of the drained actions, in order; every registered object's buffer gains exactly the data addressed to it |
| Sockets.Sockets.Dispatch | core/src/socket.rs:134-262 | one action adds its event, if any, and delivers its data to its object only |
| XmlSocketObjects.XmlSocketObject.constructor | core/src/avm2/object/xml_socket_object.rs:12-30 | a new XMLSocket has no handle and a zero timeout |
| XmlSocketObjects.XmlSocketObject.SetTimeout | core/src/avm2/object/xml_socket_object.rs:64-68 | the timeout becomes the requested value, raised to at least 250 |
| XmlSocketObjects.XmlSocketObject.SetHandle | core/src/avm2/object/xml_socket_object.rs:74-76 | the new handle is stored and the previous one returned |
| XmlSocketGlobals.GetConnected | core/src/avm2/globals/flash/net/xml_socket.rs:7-25 | undefined on a non-socket receiver; false without a handle; otherwise whether the registry has the handle connected |
| XmlSocketGlobals.FreshSocketNotConnected | core/src/avm2/globals/flash/net/xml_socket.rs:19-22 | a socket that never connected reports false |
| XmlSocketGlobals.GetTimeout | core/src/avm2/globals/flash/net/xml_socket.rs:27-37 | the stored timeout, or undefined on a non-socket receiver |
| XmlSocketGlobals.SetTimeout | core/src/avm2/globals/flash/net/xml_socket.rs:39-51 | afterwards the getter reads the value raised to at least 250, and the handle is untouched |
| XmlSocketGlobals.Connect | core/src/avm2/globals/flash/net/xml_socket.rs:53-60 | the stub returns undefined |
| XmlSocketGlobals.Close | core/src/avm2/globals/flash/net/xml_socket.rs:62-69 | the stub returns undefined |
| XmlSocketGlobals.Send | core/src/avm2/globals/flash/net/xml_socket.rs:71-78 | the stub returns undefined |
| WebNavigator.WithTrailingSlash | web/src/navigator.rs:63-70 | the result ends in `/`, and equals the input exactly when the input already did |
| WebNavigator.TrailingSlashIdempotent | web/src/navigator.rs:63-70 | adding the slash twice equals adding it once |
| WebNavigator.New | web/src/navigator.rs:38-90 | https upgrade only on an https page; the base URL is the slash-terminated parameter when it parses, else that string joined to the document base (none without one); without a parameter it is the document base |
| WebNavigator.PreProcessUrl | web/src/navigator.rs:360-365 | only http becomes https, only when upgrading; the rest of the URL is kept |
| WebNavigator.NoUpgradeOffHttps | web/src/navigator.rs:49-55 | a backend built for a non-https page never rewrites a URL |
| WebNavigator.ResolveUrl | web/src/navigator.rs:336-348 | the URL is joined to the base URL when there is one, else parsed, then pre-processed; it fails exactly when that fails |
| WebNavigator.NavigateToUrl | web/src/navigator.rs:93-218 | any navigation other than ignoring it is one the gates allow |
| WebNavigator.NavigateGating | web/src/navigator.rs:93-218 | navigation happens exactly when networking, script access, the javascript and confirm gates allow it and a form has a body; a form submits to the resolved URL with the chosen method; a plain navigation goes to the resolved URL |
| WebNavigator.ScriptAccessGuards | web/src/navigator.rs:134-148 | without script access, `javascript:` URLs and current-tab targets are ignored |
| WebNavigator.Fetch | web/src/navigator.rs:220-240 | an unresolvable URL fails as invalid; a `file:` URL is rejected; anything else is requested as resolved |
| WebNavigator.WrappedSender.constructor | web/src/navigator.rs:519-523 | the sender writes to the given channel for the given handle |
| WebNavigator.WrappedSender.Write | web/src/navigator.rs:526-533 | a byte-array chunk queues a data action for the handle; other chunks are dropped |
| WebNavigator.WrappedSender.Close | web/src/navigator.rs:535-537 | closing queues a close action for the handle |
| WebNavigator.WrappedSender.Abort | web/src/navigator.rs:539-541 | aborting queues a close action for the handle |
| WebNavigator.SettledAction | web/src/navigator.rs:413-428 | the settled connect promise reports connected exactly when it resolved to true, and failed otherwise |
| WebNavigator.ConnectSocket | web/src/navigator.rs:367-432 | the connection is spawned exactly when the options serialise and the callback returns a promise; otherwise one failed-connect action is queued |
| E4XNode.ParseIndex | core/src/avm2/object/xml_object.rs:371 | an index is an optional `+` and ASCII digits whose value fits a 64-bit word |
| E4XNode.ParseIndexOfDecimal | core/src/avm2/object/xml_object.rs:371 | every word-sized number printed in decimal parses back to itself |
| E4XNode.IndexIsNotXmlName | core/src/avm2/object/xml_object.rs:442-450 | no text that parses as an index is an XML name |
| E4XNode.Matching | core/src/avm2/object/xml_object.rs:240-281 | the ids that match a name, in order |
| E4XNode.NonMatching | core/src/avm2/object/xml_object.rs:461 | the ids that do not match a name, in order |
| E4XNode.FirstMatch | core/src/avm2/object/xml_object.rs:546-557 | the first matching position, with nothing matching before it, or none when nothing matches |
| E4XNode.NonMatchingKeepsPrefix | core/src/avm2/object/xml_object.rs:461-471 | removing the matches keeps every id before the first match in place |
| E4XNode.NonMatchingAppend | core/src/avm2/object/xml_object.rs:461 | filtering a concatenation filters each part |
| E4XNode.TreeEqReflexive | core/src/avm2/object/xml_object.rs:140-159 | every subtree is structurally equal to itself |
| E4XNode.SimpleExcludesComplex | core/src/avm2/globals/xml_list.rs:103-121 | no node has both simple and complex content |
| E4XNode.ToStringTree | core/src/avm2/object/xml_object.rs:180 | text-like nodes print as their value; a node without simple content prints as its XML markup |
| E4XNode.NodeLength | core/src/avm2/object/xml_object.rs:73-75 | only an element has a length, and it is its number of children |
| E4XNode.RemovedMatchingEffect | core/src/avm2/object/xml_object.rs:461 | removing matches keeps the non-matching owned ids and detaches exactly the removed ones |
| E4XNode.ReplacedEffect | core/src/avm2/object/xml_object.rs:488 | a replacement splices the placed nodes in, adopts them, and detaches only the replaced child |
| E4XNode.NodeStore.DeepCopy | core/src/avm2/object/xml_object.rs:100-103 | a fresh, parentless copy whose subtree equals the original's; no existing node changes |
| E4XNode.NodeStore.BuildAll | core/src/avm2/object/xml_list_object.rs:130-144 | fresh parentless nodes whose subtrees are the given trees, in order |
| E4XNode.NodeStore.Build | core/src/avm2/object/xml_list_object.rs:130-144 | a fresh node whose subtree is the given tree, with the given parent; no existing node changes |
| E4XNode.NodeStore.InsertAt | core/src/avm2/object/xml_object.rs:464-470 | the child is inserted at the index and adopted; nothing else changes |
| E4XNode.NodeStore.RemoveMatching | core/src/avm2/object/xml_object.rs:461 | the matching children or attributes are removed and detached, and the first one's position is reported |
| E4XNode.NodeStore.AppendAttribute | core/src/avm2/object/xml_object.rs:437 | the attribute is appended to the element; nothing else changes |
| E4XNode.NodeStore.RemoveAllChildren | core/src/avm2/object/xml_object.rs:504 | an element loses all its children, which are detached; a non-element is unchanged |
| E4XNode.ChildrenCleared | core/src/avm2/object/xml_object.rs:504 | the element keeps everything but its children, each former child loses its parent, every other node is unchanged, and the store stays well formed |
| E4XNode.NodeStore.Replace | core/src/avm2/object/xml_object.rs:488-516 | the child at the index, or the end when past it, is replaced by the nodes, a node, an attribute's value as text, or a text; the replaced child is detached and nothing else changes |
| E4XNode.NodeStore.SetLocalName | core/src/avm2/object/xml_list_object.rs:748-764 | only the node's local name changes |
| E4XNode.NodeStore.SetNamespace | core/src/avm2/object/xml_list_object.rs:767 | only the node's namespace changes |
| E4XNode.NodeStore.RemoveOwned | core/src/avm2/object/xml_list_object.rs:1046-1054 | the node is removed from the element's children or attributes; a non-element is unchanged |
| XmlObjects.XmlObject.constructor | core/src/avm2/object/xml_object.rs:63-71 | the object wraps the given node |
| XmlObjects.XmlObject.Equals | core/src/avm2/object/xml_object.rs:140-159 | only XML equals XML; an object equals itself; two objects are equal exactly when their subtrees are structurally equal |
| XmlObjects.AbstractEqTrees | core/src/avm2/object/xml_object.rs:163-195 | against a non-XML value, only an object with simple content can be equal, and then exactly when its string equals the value's |
| XmlObjects.AbstractEqReflexive | core/src/avm2/object/xml_object.rs:163-195 | an object is loosely equal to itself |
| XmlObjects.AbstractEqOfCopies | core/src/avm2/object/xml_object.rs:163-195 | an object is loosely equal to a distinct object with the same subtree |
| XmlObjects.MatchedOwned | core/src/avm2/object/xml_object.rs:240-281 | an element's matching children or attributes; none for a non-element |
| XmlObjects.XmlObject.GetProperty | core/src/avm2/object/xml_object.rs:229-282 | index 0 is the object itself and other indices are undefined; a name gives a new list of the matching nodes targeting this object and the name |
| XmlObjects.XmlObject.Child | core/src/avm2/object/xml_object.rs:105-138 | a new list of the children selected by the name or index, with this object as target unless an element was indexed |
| XmlObjects.ChildAgreesWithGet | core/src/avm2/object/xml_object.rs:105-138 | for a plain child name, `child` and `[[Get]]` select the same nodes |
| XmlObjects.ChildIndexPicksOne | core/src/avm2/object/xml_object.rs:105-138 | an index selects one child exactly when it is within an element's children, and none otherwise |
| XmlObjects.HasOwnProperty | core/src/avm2/object/xml_object.rs:323-351 | an index is an own property exactly when it is 0 |
| XmlObjects.HasOwnPropertyIffMatches | core/src/avm2/object/xml_object.rs:323-351 | on an element, a plain name is an own property exactly when some child or attribute matches it |
| XmlObjects.XmlObject.Put | core/src/avm2/object/xml_object.rs:363-521 | an index name throws 1087 and changes nothing; a non-element is left alone; an attribute name has the attribute outcome; any other name has the element outcome of ECMA-357 section 9.1.1.2, whose placed nodes read as the value's subtrees (or its string as one text node) and whose other older nodes keep their shape; a list value keeps its entries |
| XmlObjects.XmlObject.PutEmptyString | core/src/avm2/object/xml_list_object.rs:250-257 | putting the empty string under a name is the XML put: an index name is an error and a non-element is left alone; an element has the element outcome of the empty string |
| XmlObjects.XmlObject.PutUnderAttribute | core/src/avm2/object/xml_object.rs:395-440 | an attribute put on a non-element does nothing; on an element it sets the attribute |
| XmlObjects.XmlObject.PutAttributeValue | core/src/avm2/object/xml_object.rs:395-440 | the attribute is set to the string form of the value |
| XmlObjects.XmlObject.PutAttribute | core/src/avm2/object/xml_object.rs:395-440 | an explicit namespace or missing local name is an error; otherwise every matching attribute is deleted and, unless the name is `@*`, one new attribute with the value is appended |
| XmlObjects.XmlObject.PutAttributeOver | core/src/avm2/object/xml_object.rs:395-440 | the attribute outcome holds against the nodes before the value was copied |
| XmlObjects.AttributeString | core/src/avm2/object/xml_object.rs:397-423 | an empty list gives the empty string, a one-item list that item's string, and a longer list the strings of all but the last item joined by spaces, a space and the last item's string |
| XmlObjects.XmlObject.PutElementValue | core/src/avm2/object/xml_object.rs:442-519 | the element outcome of ECMA-357 section 9.1.1.2 holds for the copied value |
| XmlObjects.XmlObject.PutElementOver | core/src/avm2/object/xml_object.rs:442-519 | the element outcome holds against the nodes before the value was copied |
| XmlObjects.XmlObject.PutElement | core/src/avm2/object/xml_object.rs:442-519 | an invalid name changes nothing; otherwise the matching children are replaced by the placed nodes at the first match's slot; XML, list and `*` values place nodes reading as the value's subtrees while the other older nodes keep their shape; a primitive under a name has the primitive outcome |
| XmlObjects.XmlObject.PutPrimitive | core/src/avm2/object/xml_object.rs:496-512 | a primitive under a name fills the first matching child, or else one new element with that name appended at the end while every other older node keeps its shape; an element there holds the value as its only text child, or no child for the empty string |
| XmlObjects.XmlObject.PlaceElement | core/src/avm2/object/xml_object.rs:461-494 | one node is placed at the put slot among the kept children: the first match, or a new element with the name and no children while every other older node keeps its shape |
| XmlObjects.XmlObject.ReplaceSlotByElement | core/src/avm2/object/xml_object.rs:476-494 | the placeholder at the slot is replaced by one new element with the name and the element as parent; the element changes only in its children and every other older node keeps its shape |
| XmlObjects.XmlObject.PutBackSlot | core/src/avm2/object/xml_object.rs:461-494 | the first match goes back at its slot, or a new node is appended at the end; the element changes only in its children and every other older node keeps its shape |
| XmlObjects.XmlObject.PlaceCopies | core/src/avm2/object/xml_object.rs:461-519 | the copied nodes are placed at the put slot and read as the value's subtrees (an attribute as its text); a list places exactly its copies; every other older node keeps its shape |
| XmlObjects.XmlObject.ReplaceSlotBy | core/src/avm2/object/xml_object.rs:488-516 | the child at the slot is replaced by nodes reading as the copied subtrees; the element changes only in its children and every other older node keeps its shape |
| XmlObjects.XmlObject.OpenSlot | core/src/avm2/object/xml_object.rs:461-471 | the matches are removed and a placeholder, the first match or a new node, opens at the first match's slot; the element changes only in its children and every other older node keeps its shape |
| XmlObjects.PutSlot | core/src/avm2/object/xml_object.rs:461-471 | the slot for a put is within the children |
| XmlObjects.PutSlotInKept | core/src/avm2/object/xml_object.rs:461-471 | the children before the slot survive the removal of matches, and nothing is removed when nothing matches |
| XmlObjects.NothingMatchedSlot | core/src/avm2/object/xml_object.rs:461-494 | when no child matches there is no first match, the slot is the end, and the kept children are all the children |
| XmlObjects.PrimitivePlaced | core/src/avm2/object/xml_object.rs:476-512 | placing an element at the slot and filling it with a string completes the primitive put outcome |
| XmlObjects.PutCreatesElement | core/src/avm2/object/xml_object.rs:476-512 | putting the empty string under a name nothing matches appends exactly one new childless element with that name, and every other older node keeps its shape |
| XmlObjects.AppendedElementMatches | core/src/avm2/object/xml_object.rs:240-281 | after such an append, the new element is the only match of the name |
| XmlObjects.MatchedOwnedKept | core/src/avm2/object/xml_object.rs:240-281 | the matches of a node depend only on the nodes that already existed |
| XmlObjects.PrimitiveUnderAnyNameHolds | core/src/avm2/object/xml_object.rs:488-516 | a primitive put under `*` places one text node holding its string, which is all of the children unless attributes were among them |
| XmlObjects.PlacedContent | core/src/avm2/object/xml_object.rs:488-516 | the placed nodes read as the copied subtrees, an attribute as the text of its value and a primitive as one text node |
| XmlObjects.XmlObject.Delete | core/src/avm2/object/xml_object.rs:523-563 | an explicit namespace is an error; a non-element deletes nothing and reports false; an element removes every match and reports true |
| XmlObjects.CopyValue | core/src/avm2/object/xml_object.rs:382-391 | copying a value adds only fresh nodes, and an XML value becomes a copied XML node |
| XmlObjects.FillPrimitive | core/src/avm2/object/xml_object.rs:503-512 | an element keeps everything but its children, which become one text node with the string, or none for the empty string; nodes other than the element and its old children are unchanged; a non-element is unchanged |
| XmlObjects.XmlListObject.constructor | core/src/avm2/object/xml_list_object.rs:54-71 | the list holds the given entries, target object and property, and is not dirty |
| XmlObjects.XmlListObject.Dirty | core/src/avm2/object/xml_list_object.rs:74-91 | the same, with the target marked dirty |
| XmlObjects.XmlListObject.XmlObjectChild | core/src/avm2/object/xml_list_object.rs:97-108 | an entry within range is returned as an object wrapping its node and is stored back as that object; out of range gives none |
| XmlObjects.XmlListObject.MaterializeAll | core/src/avm2/object/xml_list_object.rs:1061-1067 | every entry becomes an XML object over the same node, and existing objects are kept |
| XmlObjects.XmlListObject.Reevaluate | core/src/avm2/object/xml_list_object.rs:147-180 | a dirty non-empty list retargets to its last node's parent and name and is clean; otherwise nothing changes |
| XmlObjects.ReevaluatedProperty | core/src/avm2/object/xml_list_object.rs:166-175 | a named node that is not a processing instruction gives its own name as target property; otherwise it is kept |
| XmlObjects.ReevaluatedPropertyMatchesLast | core/src/avm2/object/xml_list_object.rs:166-175 | the new target property matches the last node |
| XmlObjects.XmlListObject.Append | core/src/avm2/object/xml_list_object.rs:183-203 | a list value appends its entries and takes over its target; an XML value appends one entry and marks the target dirty |
| XmlObjects.XmlListObject.GetProperty | core/src/avm2/object/xml_list_object.rs:503-552 | an index within range gives that entry; otherwise a new list of the matches of each entry, in order |
| XmlObjects.ListMatchesAppend | core/src/avm2/object/xml_list_object.rs:503-552 | the matches of two runs of entries are the matches of each, in order |
| XmlObjects.ListMatchesSingle | core/src/avm2/object/xml_list_object.rs:503-552 | the matches of one entry are that node's own matches |
| XmlObjects.XmlListObject.DeepCopy | core/src/avm2/object/xml_list_object.rs:130-144 | a new list with the same target and as many entries, each a parentless copy of the original's subtree |
| XmlObjects.XmlListObject.Delete | core/src/avm2/object/xml_list_object.rs:1034-1070 | an index deletes that entry from the list and its parent; a name deletes the matches from every element entry |
| XmlObjects.XmlListObject.DeleteIndex | core/src/avm2/object/xml_list_object.rs:1041-1057 | the entry is removed from the list and from its parent; out of range changes nothing |
| XmlObjects.XmlListObject.DeleteFromEach | core/src/avm2/object/xml_list_object.rs:1061-1067 | the delete fails exactly when the name has an explicit namespace and some entry is an element; otherwise each element entry loses its matches |
| XmlObjects.XmlListObject.DeleteFromEntry | core/src/avm2/object/xml_list_object.rs:1061-1067 | one entry loses its matches, or the explicit-namespace error is reported |
| XmlObjects.XmlListObject.DeleteFromNext | core/src/avm2/object/xml_list_object.rs:1061-1067 | deleting from the next entry extends the deletions so far by that entry, or stops with the explicit-namespace error when the entry is an element |
| XmlObjects.DeletedFromAll | core/src/avm2/object/xml_list_object.rs:1061-1067 | after every entry, the nodes are the deletions from each, and with an explicit namespace no entry was an element |
| XmlObjects.DeletedFromEachStep | core/src/avm2/object/xml_list_object.rs:1061-1067 | deleting from one more entry applies the removal to that entry alone |
| XmlObjects.XmlListObject.Equals | core/src/avm2/object/xml_list_object.rs:270-308 | the result is list equality of the entries' subtrees against the other value |
| XmlObjects.XmlListObject.PairwiseEqual | core/src/avm2/object/xml_list_object.rs:290-305 | two equally long lists are equal exactly when their entries are structurally equal in pairs |
| XmlObjects.ListEqualsReflexive | core/src/avm2/object/xml_list_object.rs:270-308 | a list equals a list with the same subtrees |
| XmlObjects.NextEnumerant | core/src/avm2/object/xml_list_object.rs:978-991 | the next enumeration index follows the last one within the entries and goes back to 0 past them |
| XmlObjects.EnumerantSlot | core/src/avm2/object/xml_list_object.rs:993-1013 | enumeration index k names entry k - 1 |
| XmlObjects.EnumerantSlotsCoverEntries | core/src/avm2/object/xml_list_object.rs:993-1013 | the indices 1 to the length name entries, and nothing else does |
| XmlObjects.XmlListObject.GetEnumerantValue | core/src/avm2/object/xml_list_object.rs:993-1013 | an index naming an entry gives that entry as an object; any other gives undefined |
| XmlObjects.EnumerantName | core/src/avm2/object/xml_list_object.rs:1015-1032 | index k within the entries names the integer k - 1; index 0 names undefined |
| XmlObjects.XmlListObject.ResolveValue | core/src/avm2/object/xml_list_object.rs:206-268 | a non-empty list resolves to itself; an empty one resolves through its target per ECMA-357 section 9.2.1.10: nothing for a missing target or property, an attribute or `*`; on an element target a fresh list of the matches, where a missing child is first created as exactly one new empty element with the name and existing matches leave the nodes unchanged; on a non-empty list target, a successful resolution is a fresh list of exactly that list's matches after any creation, and it is the existing matches with the nodes unchanged when there are some; a one-entry list target whose element has no match gets exactly one new empty element with the name under that element; a list target of several entries with no match throws 1089 |
| XmlObjects.ResolveFromBase | core/src/avm2/object/xml_list_object.rs:236-267 | a target resolved from a base is a fresh list; an XML base leaves every list unchanged, resolves to its matches, creates exactly one new empty element when none matches and changes nothing when some do; a list base resolves on success to exactly its entries' matches after any creation, changes no node when it has matches, gets one new empty element under its single element entry when that has none, and throws 1089 with several entries and no match |
| XmlObjects.ResolveFromXml | core/src/avm2/object/xml_list_object.rs:240-267 | on an element base, a plain child name resolves to a fresh list of the matches targeting that element; when nothing matches, exactly one new empty element with the name is appended to the element and every other older node is unchanged; when something matches, or the base is not an element, the nodes are unchanged |
| XmlObjects.CreateProperty | core/src/avm2/object/xml_list_object.rs:250-263 | putting the empty string and reading the target again gives a fresh list of the matches; when nothing matched, exactly one new empty element with the name is appended and the older nodes keep their shape |
| XmlObjects.CreatedPropertyHolds | core/src/avm2/object/xml_list_object.rs:250-263 | the empty-string put under a name nothing matches leaves that one new element as the only match, or changes no older node when the name is invalid |
| XmlObjects.ResolveFromList | core/src/avm2/object/xml_list_object.rs:236-267 | a list base resolves to a fresh list targeting that list, which on success holds exactly the entries' matches in order after any creation; when there are matches already, no node changes; with one element entry and no match, exactly one new empty element with the name is appended to that entry and the older nodes keep their shape; with more than one entry and no match it throws 1089 |
| XmlObjects.CreateFromList | core/src/avm2/object/xml_list_object.rs:250-263 | the empty-string put on a list base followed by a fresh get gives, on success, a fresh list targeting that base of exactly the entries' matches; on a base of one element entry with no match and a valid plain name, that is exactly one new empty element appended to the entry, with the older nodes keeping their shape |
| XmlObjects.PutEmptyIntoList | core/src/avm2/object/xml_list_object.rs:257-259 | the list put of the empty string under a plain name, on a list whose one entry is an element, succeeds with the element put of `""` on that entry's node, and the entry keeps its node |
| XmlObjects.XmlListObject.Put | core/src/avm2/object/xml_list_object.rs:605-976 | an index put on a list with no target or an XML target writes a primitive into an element entry as the element put of `*` does; a named put on several entries throws 1089 and changes nothing; on one entry it has the XML put's outcome on that entry; on an empty list it first resolves, and when that gives it an entry it has the XML put's outcome on that entry's node from the nodes left by resolving, otherwise it writes nothing more and fails exactly when resolving failed; for an element target and a plain child name the adoption is as `AdoptResolved` states, so `x.b.c = "v"` with no `b` creates `b` and puts `c` into it |
| XmlObjects.XmlListObject.PutNamed | core/src/avm2/object/xml_list_object.rs:946-975 | a named put on a list of more than one entry throws 1089; on one entry it puts through that entry; on an empty list it resolves and adopts, then puts into the adopted entry as `PutNamedEmpty` states |
| XmlObjects.XmlListObject.PutNamedEmpty | core/src/avm2/object/xml_list_object.rs:949-971 | the list resolves and adopts; when it adopted an entry, the put has the XML put's outcome on that entry's node, from the nodes left by resolving and the value's subtrees at that point; when it adopted nothing, no further node changes and the put succeeds, or fails with the resolve error; for an element target and a plain child name, what is adopted (the single match, or one new empty element when nothing matched) is as `AdoptResolved` states |
| XmlObjects.XmlListObject.WriteAdopted | core/src/avm2/object/xml_list_object.rs:966-971 | when resolving gave the list an entry, the first entry takes the XML put with its outcome on that entry's node; otherwise nothing is written and a resolve failure is passed on; the entries keep their nodes |
| XmlObjects.XmlListObject.AdoptResolved | core/src/avm2/object/xml_list_object.rs:949-964 | success means the list is no longer empty; for a target element and a plain child name: when nothing matched, a valid name creates one new element which becomes the only entry and reports success, an invalid one reports failure and leaves the list empty; one match becomes the only entry and reports success; several matches report failure; existing matches leave the nodes unchanged |
| XmlObjects.XmlListObject.ResolveForAdoption | core/src/avm2/object/xml_list_object.rs:950-951 | the resolution step 3.a.i of the list put relies on: on an element target with a plain child name, a fresh list of the matches, one new empty element created when none matched, and the nodes unchanged when some did |
| XmlObjects.XmlListObject.PutIntoFirst | core/src/avm2/object/xml_list_object.rs:966-971 | a named put on the first entry has the XML put's outcome on that entry's node |
| XmlObjects.XmlListObject.FirstEntryObject | core/src/avm2/object/xml_list_object.rs:966-971 | the first entry's object wraps its node, and neither list nor value changes |
| XmlObjects.PutThrough | core/src/avm2/object/xml_list_object.rs:966-971 | putting through an XML object has the XML put's outcome |
| XmlObjects.XmlListObject.PutIndex | core/src/avm2/object/xml_list_object.rs:613-973 | an in-range element entry of a list with no target or an XML target receives a primitive as the element put of `*` does; past the end under an element target a placeholder is inserted and appended and receives it; an untargeted attribute placeholder panics |
| XmlObjects.XmlListObject.ResolveOwnTarget | core/src/avm2/object/xml_list_object.rs:616-632 | an absent or XML target goes ahead as it is; a list target is resolved and stops the put when it resolves to nothing |
| XmlObjects.XmlListObject.PlaceAndWrite | core/src/avm2/object/xml_list_object.rs:634-938 | an in-range element entry receives a primitive as the element put of `*` does; past the end under an element target, a new element placeholder with the target property's name is inserted after the list's last node, appended as the new last entry, and receives the primitive in the same way |
| XmlObjects.XmlListObject.ExtendForIndex | core/src/avm2/object/xml_list_object.rs:634-774 | the list grows by exactly one entry or stays unchanged, and a new element placeholder under an element target holds the value's position |
| XmlObjects.XmlListObject.AppendPlaceholder | core/src/avm2/object/xml_list_object.rs:634-774 | only the target node changes, and a placeholder is appended when one is made |
| XmlObjects.SettlePlaceholder | core/src/avm2/object/xml_list_object.rs:701-770 | the placeholder is inserted into its parent after the list's last node and changes only in its name, which a primitive value leaves alone; no other node changes |
| XmlObjects.MakePlaceholder | core/src/avm2/object/xml_list_object.rs:660-699 | the new node's kind follows the target property: an attribute, a text or an element |
| XmlObjects.NewPlaceholder | core/src/avm2/object/xml_list_object.rs:660-699 | a fresh node with the placeholder's kind, name and parent |
| XmlObjects.AttachPlaceholder | core/src/avm2/object/xml_list_object.rs:701-744 | the placeholder is inserted into the target after the list's last node |
| XmlObjects.PlaceholderIndex | core/src/avm2/object/xml_list_object.rs:704-743 | the insertion point lies within the target's children |
| XmlObjects.RenamePlaceholder | core/src/avm2/object/xml_list_object.rs:746-770 | the placeholder takes the name of the XML value or of the list value's target property |
| XmlObjects.SlotAfter | core/src/avm2/object/xml_list_object.rs:704-732 | the slot just after the first occurrence of the previous node, or the end when it is absent |
| XmlObjects.InsertionIndex | core/src/avm2/object/xml_list_object.rs:715 | the search loop finds the slot just after the previous node |
| XmlObjects.SlotAfterIsFirst | core/src/avm2/object/xml_list_object.rs:715 | the first occurrence, or the last child when there is none, determines the slot |
| XmlObjects.SlotAfterAsWritten | core/src/avm2/object/xml_list_object.rs:715 | on a non-empty target the search as written agrees with the corrected one |
| XmlObjects.SlotAfterAsWrittenPanics | core/src/avm2/object/xml_list_object.rs:715 | on a childless target the search as written panics, where the corrected slot is 0 |
| XmlObjects.Coerced | core/src/avm2/object/xml_list_object.rs:776-801 | a primitive becomes its string; XML other than text or attribute is kept; the result is the value or a string |
| XmlObjects.CoerceForPut | core/src/avm2/object/xml_list_object.rs:776-801 | the coercion leaves the value's list unchanged |
| XmlObjects.XmlListObject.WriteEntry | core/src/avm2/object/xml_list_object.rs:803-938 | an element entry receiving a primitive has the element put of `*` with the value's string, and the list keeps its entries |
| XmlObjects.XmlListObject.WriteAttributeEntry | core/src/avm2/object/xml_list_object.rs:808-829 | an unnamed attribute entry panics; a named one writes through its parent and takes the new attribute |
| XmlObjects.PutAttributeOn | core/src/avm2/object/xml_list_object.rs:815-828 | an attribute name that is an index is never written |
| XmlObjects.FirstOwned | core/src/avm2/object/xml_list_object.rs:820-827 | the first attribute matching the name |
| XmlObjects.XmlListObject.WriteListEntry | core/src/avm2/object/xml_list_object.rs:831-875 | a parentless entry is left as it is; an entry found in its parent is not modelled |
| XmlObjects.XmlListObject.WriteXmlEntry | core/src/avm2/object/xml_list_object.rs:876-927 | an entry found in its parent is not modelled; otherwise the XML-constructor fallback is reported |
| XmlObjects.XmlListObject.WriteElementEntry | core/src/avm2/object/xml_list_object.rs:929-938 | an element entry receiving a primitive has the element put of `*`: one new text node holding the value's string, which is the entry's only child unless the entry had attribute nodes among its children |
| XmlObjects.XmlObject.PutUnderAnyName | core/src/avm2/object/xml_list_object.rs:929-938 | a primitive put under `*` succeeds; a non-element is unchanged; an element gets one new text node holding the value's string, its only child unless attributes were among them |
| XmlObjects.Concat | core/src/avm2/object/xml_list_object.rs:310-325 | an empty side yields the other list; otherwise a new untargeted list of both lists' entries in order |
| XmlObjects.TargetLength | core/src/avm2/object/xml_list_object.rs:407-412 | a list's length is its entries, an element's its children, anything else 0 |
| XmlObjects.GetTarget | core/src/avm2/object/xml_list_object.rs:432-455 | the get on a base selects the element's matching children or attributes (`MatchedOwned`), or every list entry's matches in order (`ListMatches`), or the indexed entry or node, and leaves a list base's entries and target unchanged |
| XmlObjects.Position | core/src/avm2/object/xml_list_object.rs:843-848 | the position of the node among the children, when present |
| XmlObjects.ComplexIsNotSimple | core/src/avm2/globals/xml_list.rs:16-34 | except for one-item lists, complex content is exactly the absence of simple content |
| XmlObjects.ListSimpleExcludesComplex | core/src/avm2/globals/xml_list.rs:16-34 | no list has both simple and complex content |
| XmlObjects.JoinLength | core/src/avm2/globals/xml_list.rs:137-152 | a join is as long as its parts plus one separator between each pair |
| XmlObjects.JoinEnds | core/src/avm2/globals/xml_list.rs:137-152 | a join starts with its first part and ends with its last |
| XmlObjects.XmlStrings | core/src/avm2/globals/xml_list.rs:137-152 | each item's XML markup, in order |
| XmlObjects.TextStrings | core/src/avm2/globals/xml_list.rs:123-135 | each item's string, in order |
| XmlListGlobals.HasSimpleContentOf | core/src/avm2/globals/xml_list.rs:113-121 | a one-entry list has the simple content of its entry; any other list has simple content exactly when no entry is an element |
| XmlListGlobals.HasComplexContentOf | core/src/avm2/globals/xml_list.rs:103-111 | a one-entry list has the complex content of its entry; any other list has complex content exactly when some entry is an element |
| XmlListGlobals.ContentOfListObject | core/src/avm2/globals/xml_list.rs:16-34 | no list object reports both simple and complex content, and a list of other than one entry reports exactly one of them |
| XmlListGlobals.ToXmlStringOf | core/src/avm2/globals/xml_list.rs:137-152 | the items' markup joined by newlines |
| XmlListGlobals.ToStringOf | core/src/avm2/globals/xml_list.rs:123-135 | simple content gives the items' text concatenated; otherwise their markup joined by newlines |
| XmlListGlobals.TextListToString | core/src/avm2/globals/xml_list.rs:123-135 | a list of text nodes prints as their values concatenated |
| XmlListGlobals.TextItemsText | core/src/avm2/globals/xml_list.rs:123-135 | a text item prints as its value |
| XmlListGlobals.LongListToString | core/src/avm2/globals/xml_list.rs:123-135 | a list of two or more items prints as markup when some item is an element, and as the items' text otherwise |
| XmlListGlobals.Length | core/src/avm2/globals/xml_list.rs:154-162 | the number of entries |
| XmlListGlobals.Gather | core/src/avm2/globals/xml_list.rs:164-430 | the loop collects each entry's selected nodes in entry order |
| XmlListGlobals.GatheredAppend | core/src/avm2/globals/xml_list.rs:164-430 | gathering over two runs of entries is gathering over each |
| XmlListGlobals.GatheredMembers | core/src/avm2/globals/xml_list.rs:164-430 | a node is gathered exactly when some entry selects it |
| XmlListGlobals.Collect | core/src/avm2/globals/xml_list.rs:164-430 | a new clean list of every element entry's selected nodes, in entry order, targeting this list with the given property |
| XmlListGlobals.Child | core/src/avm2/globals/xml_list.rs:164-184 | the children each entry selects by the name |
| XmlListGlobals.ChildMembers | core/src/avm2/globals/xml_list.rs:164-184 | a node is a result exactly when an entry's `child` selects it |
| XmlListGlobals.Children | core/src/avm2/globals/xml_list.rs:186-207 | every element entry's children, in order |
| XmlListGlobals.Attribute | core/src/avm2/globals/xml_list.rs:242-268 | each element entry's first attribute matching the name |
| XmlListGlobals.AttributeAtMostOnePerItem | core/src/avm2/globals/xml_list.rs:242-268 | each entry contributes at most one attribute |
| XmlListGlobals.AttributeIsFirstMatch | core/src/avm2/globals/xml_list.rs:242-268 | an entry's contribution is its first matching attribute |
| XmlListGlobals.Attributes | core/src/avm2/globals/xml_list.rs:270-292 | every element entry's attributes, in order |
| XmlListGlobals.Texts | core/src/avm2/globals/xml_list.rs:329-347 | every element entry's text children, in order |
| XmlListGlobals.Comments | core/src/avm2/globals/xml_list.rs:349-367 | every element entry's comment children, in order |
| XmlListGlobals.ChildrenOfKindMembers | core/src/avm2/globals/xml_list.rs:329-367 | a node is selected exactly when it is a child of that kind of an element entry |
| XmlListGlobals.OfKind | core/src/avm2/globals/xml_list.rs:329-367 | the children of one kind, in order |
| XmlListGlobals.ProcessingInstructions | core/src/avm2/globals/xml_list.rs:407-430 | every element entry's processing instructions matching the name, in order |
| XmlListGlobals.InstructionMembers | core/src/avm2/globals/xml_list.rs:407-430 | a node is selected exactly when it is a matching processing-instruction child of an element entry |
| XmlListGlobals.Contains | core/src/avm2/globals/xml_list.rs:209-231 | for an XML value, true exactly when some entry is structurally equal to it; a non-XML object panics where the source unwraps |
| XmlListGlobals.ContainsItems | core/src/avm2/globals/xml_list.rs:209-231 | a list contains each of its own entries |
| XmlListGlobals.Name | core/src/avm2/globals/xml_list.rs:294-314 | a one-entry list yields its entry as an object, stored back into the list, on which `name` is called; any other length throws 1086 and leaves the list unchanged |
| XmlListGlobals.CommonParent | core/src/avm2/globals/xml_list.rs:369-405 | the parent shared by every entry, or none when they differ or the list is empty |
| XmlListGlobals.ParentMismatch | core/src/avm2/globals/xml_list.rs:369-405 | two entries with different parents give no common parent |
| XmlListGlobals.Parent | core/src/avm2/globals/xml_list.rs:369-405 | the common parent's object, or undefined |
| XmlListGlobals.CallHandler | core/src/avm2/globals/xml_list.rs:81-101 | the call returns its argument exactly when the first argument is a list; otherwise it constructs with the same arguments |

## Left out

- core/src/avm2/e4x.rs is not part of this model. `E4XNode` models the node operations the objects call on it: name matching, index parsing, the XML name test, equality, string forms, deep copy, insert, replace and removal. XML parsing is not modelled, and `is_xml_name` is restricted to ASCII letters, digits, `_`, `.` and `-`.
- The `XML` class's own `init`, `descendants`, `call_property_local` and `XMLList.copy` are not modelled; `copy` is the list `DeepCopy`, which is modelled.
- `name_to_multiname` in `contains` and elsewhere: a `Multiname` is taken directly.
- List `[[Put]]` steps 2.f.iii and 2.g.ii.2, where the entry is found among its parent's children and the parent's `[[Replace]]` puts the list or XML value in its place (for example `x.b[0] = <c/>`), are reported as not modelled: they splice nodes that already exist into another parent, which the id-ordered node store does not allow. The XML-constructor fallback of step 2.g for a non-XML value is reported as not modelled too. Entries without a parent are modelled.
- Objects are identified by node ids and Dafny references. Garbage collection, weak references and `Gc` pointer identity beyond that are left out.
- Recursion through target objects is bounded by fuel. Running out of fuel is reported as a fault where the player would overflow its stack.
- Errors 1086, 1087 and 1089 are constants here. Their constructors are only imported by the modelled files, so their own construction failures are left out.
- `get_enumerant_name` past the last entry delegates to the base object; the model takes that answer as a parameter.
- Float and Double values of the socket format (lines 20-28 and 85-86 of the test crate) are left out: floating point.
- I/O, networking, clocks, async futures, promises and fetch bodies are parameters or outcomes. The socket poll takes the write and read outcomes as arguments.
- URL parsing and joining are parameters (`parse`, `join`); a URL is a scheme and the rest.
- `NavigationMethod::from_method_str` lowers ASCII letters only, as `eq_ignore_ascii_case` does.
- `set_timeout` takes the already coerced unsigned 32-bit value; `get_u32` coercion is left out.
- The backend's `connect_socket` is recorded as a connect request with host, port and timeout; opening the connection is left out.
- The XMLSocket arms of `update_sockets`, which the player marks as unimplemented, are left out; only AVM2 `Socket` targets receive events.
- The desktop `PendingConnectSocket` and its user prompt are left out; `ConnectXmlSocket` reports a pending connection.
- `SocketObject` in core/src/avm2/object/socket_object.rs holds no socket state in this version; the model gives it the handle, timeout and read buffer that core/src/socket.rs reads and writes.
- The desktop `base_url` path handling and the `NavigatorBackend` trait dispatch are left out.
- WebNavigator.NavigateToUrl: its contract states only that a non-ignored outcome is allowed; `NavigateGating` states the full outcome.
- XmlObjects.XmlListObject.Put: the contract states the index put of a primitive into an element entry, for a list with no target or an XML target, and the named put; index puts through a list target, past the end, and of XML or list values are stated by `PutIndex`, `WriteEntry` and the per-kind write methods; on an empty list, the adopted entry is stated for an element target only, as for `PutNamedEmpty`.
- XmlObjects.XmlListObject.PutIndex: stated for a primitive written into an element entry of a list with no target or an XML target, or into a new element placeholder under an element target, and for the attribute placeholder that panics. A list target resolves through `[[ResolveValue]]`, which may change this list, so the in-range write is not stated for it. Other placeholder kinds are stated by `ExtendForIndex` and its helpers, and writes of XML or list values by the per-kind write methods.
- XmlObjects.XmlListObject.PlaceAndWrite: stated for a primitive written into an element entry or a new element placeholder, and for the untargeted attribute placeholder; XML and list values are stated by the per-kind write methods.
- XmlObjects.XmlListObject.WriteEntry: stated for a primitive written into an element entry; attribute, list and XML entries are stated by `WriteAttributeEntry`, `WriteListEntry` and `WriteXmlEntry`.
- XmlObjects.XmlListObject.WriteAttributeEntry: the attribute outcome is stated only when the parent is an element.
- XmlObjects.PutAttributeOn: states only that an index name is never written; the attribute put it performs is `XmlObject.PutAttribute`.
- XmlObjects.FillPrimitive: when the first match of a primitive put is a processing instruction, the source calls `remove_all_children` and `E4XNode::replace` on it (core/src/avm2/object/xml_object.rs:508-512); the model leaves such a node unchanged, since core/src/avm2/e4x.rs is not part of this model.
- XmlListGlobals.Contains: a null or undefined argument is reported as not modelled; the argument accessor `get_object` that raises the player's error there is not part of this model.
- XmlObjects.MissingLocalNameError and XmlObjects.ExplicitNamespaceError: the messages leave out the debug rendering of the multiname that the source's `format!` includes (core/src/avm2/object/xml_object.rs:428, 529-533), since `Multiname`'s `Debug` form is not part of this model.
- XmlObjects.XmlListObject.PutNamedEmpty: the adopted entry is stated for an element target only; for a list target, what is adopted is left open for the reason given for `AdoptResolved`, though the put into it is stated.
- XmlObjects.XmlListObject.PutNamed: on an empty list, as for `PutNamedEmpty`, the adopted entry is stated for an element target only.
- XmlObjects.XmlListObject.ResolveValue: for a list target that is itself empty, the resolution through that list's own target is not stated, for the reason given for `AdoptResolved`. For a non-empty list target the result is stated: its matches, the creation under a one-entry element target, and error 1089. What the list put of the empty string does to a one-entry target whose entry is not an element is left to `Put`.
- XmlObjects.XmlListObject.AdoptResolved: the adoption outcome is stated for an XML target only; for a list target it states only that success leaves the list non-empty, because target chains may loop (an empty list appended to a list takes it as its target) and the model has no invariant that resolving another list leaves this one alone.
- `XML.name()` itself is left out; the list `name()` models the one-entry case through the node's name.

## Findings

| source | as written | input that shows it | evidently intended | confidence | as-written member | corrected member |
|---|---|---|---|---|---|---|
| core/src/avm2/object/xml_list_object.rs:715 | the loop bound `r.length() - 1` is computed on `usize`, so it underflows and panics when the target element has no children | `var x = <a><b/></a>; var l = x.b; delete x.b; l[1] = "v";` (l is non-empty, its target `x` has no children) | insert the new node after the list's last node if present, else at the end of the target's children | not executed | XmlObjects.SlotAfterAsWritten, XmlObjects.SlotAfterAsWrittenPanics | XmlObjects.SlotAfter, XmlObjects.InsertionIndex |
