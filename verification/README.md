# sc-web core logic in Dafny

A model of three small pieces of logic from the sc-web client. sc-web is the
browser front end of an OSTIS semantic-graph ("sc-") knowledge base.

- **The sc-tcp client** (`sc_web/sctp/client.py`). This is OSTIS's own "sctp"
  protocol, not IETF SCTP. Each client call sends a 10-byte request header
  `=BBII` (command, flags 0, id 0, params length) followed by 16-bit params. It
  then reads a 10-byte reply header `=BIBI` (command code, command id, result
  code, result size) and a small body. The model treats this as an
  encoder/decoder over byte sequences. The byte order is a parameter
  (`ByteCodec.ByteOrder`): Python's `=` means native order, standard sizes and
  no padding.
- **The component registry** (`client/js/Core/ComponentManager.js`). Component
  definitions are queued and their identifiers resolved to sc-addrs. `init`
  then builds three maps: format → component, external language → component,
  and external language → resolved formats in declaration order. The lookups
  answer queries over these maps.
- **The user panel's translation rule** (`sc-web-core/js/Ui/userpanel.js`).
  The panel's `[sc_addr]` elements become a sequence of (address, text) pairs.
  `updateTranslation` maps over that sequence and cleans each label by
  removing the first `user::`, then the first `session::`.
  `getObjectsToTranslate` lists the elements' addresses.

Files: `wrappers.dfy` (Option/Result), `byte_codec.dfy` (u8/u16/u32 packing),
`sctp_client.dfy`, `component_manager.dfy`, `user_panel.dfy`.

Modelling choices:
- The numeric values of the sctp command and result codes are defined in a
  `types` module that is not part of this model. They are a parameter
  (`SctpClient.Codes`).
- A reply is the byte stream the server sends. `recv(n)` returns at most `n`
  bytes, fewer only when the stream ends. When `struct.unpack` gets too few
  bytes, Python raises `struct.error`; here that is `Failure(StructError)`.
- The asynchronous `Server.resolveScAddr` becomes an input: a resolved
  identifier→address map, or, in `ComponentManager.Init`, a function from the
  requested keynode list to that map.
- Addresses are naturals. 0 stands for every falsy value, so an identifier
  resolves when it is a key with a non-zero address. JavaScript turns an
  address used as an object key into its decimal string; the model keeps
  the number.
- A component factory's result is opaque (`FactoryResult`): `null`/`undefined`,
  another falsy value, or a component.

## Model

| member | source | states |
|---|---|---|
| ByteCodec.PackU16 | sc_web/sctp/client.py:58 | `=H` packs a 16-bit value into 2 bytes that decode back to it |
| ByteCodec.PackU32 | sc_web/sctp/client.py:59 | `=I` packs a 32-bit value into 4 bytes that decode back to it |
| ByteCodec.UnpackPackU16 | sc_web/sctp/client.py:116 | every 2-byte string is the packing of the value it decodes to (so `=H` is a bijection) |
| ByteCodec.UnpackPackU32 | sc_web/sctp/client.py:66 | every 4-byte string is the packing of the value it decodes to |
| SctpClient.EncodeRequestHeader | sc_web/sctp/client.py:59 | the `=BBII` request header is exactly 10 bytes and decodes back to its four fields |
| SctpClient.DecodeRequestHeader | sc_web/sctp/client.py:59 | a request header decodes exactly when it is 10 bytes long, with the command at byte 0, the flags at byte 1, the id packed in bytes 2-5 and the params size in bytes 6-9 |
| SctpClient.DecodeEncodeRequestHeader | sc_web/sctp/client.py:59 | every 10-byte string re-encodes from its decoded header, so the request header codec is a bijection |
| SctpClient.EncodeResponseHeader | sc_web/sctp/client.py:66 | the server-side `=BIBI` header is exactly 10 bytes and decodes back to (cmdCode, cmdId, resCode, resSize) |
| SctpClient.DecodeResponseHeader | sc_web/sctp/client.py:65-66 | `=BIBI` unpacking succeeds exactly on 10 bytes, with no padding between fields: the command code is byte 0, the command id is packed in bytes 1-4, the result code is byte 5 and the result size is packed in bytes 6-9 |
| SctpClient.DecodeEncodeResponseHeader | sc_web/sctp/client.py:66 | every 10-byte reply header is the encoding of what it decodes to |
| SctpClient.EncodeAddr | sc_web/sctp/client.py:58 | an sc-addr is sent as 4 bytes, `seg` then `offset`, and decodes back to the same address |
| SctpClient.DecodeAddr | sc_web/sctp/client.py:140-141 | the `=HH` address reply decodes exactly when 4 bytes are read; `seg` is packed in the first two bytes and `offset` in the last two |
| SctpClient.DecodeEncodeAddr | sc_web/sctp/client.py:140-141 | every 4-byte address reply is the encoding of the address it decodes to |
| SctpClient.Request | sc_web/sctp/client.py:58-60 | a request is a 10-byte header (command, 0, 0, len(params)) followed by the params unchanged; the length field equals the params byte count |
| SctpClient.GetLinkContentRequest | sc_web/sctp/client.py:57-60 | `get_link_content` sends 14 bytes: header (GET_LINK_CONTENT, 0, 0, 4), then an address param that decodes to the link |
| SctpClient.CheckElementRequest | sc_web/sctp/client.py:83-86 | `check_element` sends 14 bytes: header (CHECK_ELEMENT, 0, 0, 4), then the element's address |
| SctpClient.GetElementTypeRequest | sc_web/sctp/client.py:102-105 | `get_element_type` sends 14 bytes: header (GET_ELEMENT_TYPE, 0, 0, 4), then the element's address |
| SctpClient.CreateNodeRequest | sc_web/sctp/client.py:126-129 | `create_node` sends 12 bytes: header (GET_ELEMENT_TYPE, 0, 0, 2), then the 16-bit type |
| SctpClient.CreateLinkRequest | sc_web/sctp/client.py:149-151 | `create_link` sends only a 10-byte header (GET_ELEMENT_TYPE, 0, 0, 0) |
| SctpClient.ArcParams | sc_web/sctp/client.py:175 | the `create_arc` params are 10 bytes whose five 16-bit fields are arc_type, begin.seg, begin.offset, end.seg, end.offset |
| SctpClient.CreateArcRequest | sc_web/sctp/client.py:174-177 | `create_arc` sends 20 bytes: header (GET_ELEMENT_TYPE, 0, 0, 10), then exactly those params |
| SctpClient.Recv | sc_web/sctp/client.py:65 | a read of `n` bytes yields min(n, available) bytes, and the bytes read plus the bytes left are the whole stream |
| SctpClient.ReadResponseHeader | sc_web/sctp/client.py:64-66 | reading a reply header succeeds exactly when at least 10 bytes arrive; the header plus the unread rest re-encode to the stream |
| SctpClient.HeaderOfRead | sc_web/sctp/client.py:65-66 | a header read on at least 10 bytes yields the header of the first 10 bytes and leaves exactly the bytes after them |
| SctpClient.GetLinkContentReply | sc_web/sctp/client.py:64-75 | `get_link_content` raises exactly on a reply shorter than a header; returns None exactly when the code is not OK or resSize is 0; otherwise returns at most resSize bytes taken straight after the header |
| SctpClient.CheckElementReply | sc_web/sctp/client.py:90-94 | `check_element` raises exactly on a reply shorter than a header, and otherwise answers whether the header's result code is OK |
| SctpClient.ElementTypeReply | sc_web/sctp/client.py:109-118 | `get_element_type` returns None exactly on a non-OK code; a returned type is the `=H` value of the two bytes right after an OK header |
| SctpClient.AddrReply | sc_web/sctp/client.py:133-143 | the create calls return None exactly on a non-OK code; a returned sc-addr is the `=HH` value of the four bytes right after an OK header (lines 155-165 and 181-191 repeat this handling) |
| SctpClient.ReadEncodedHeader | sc_web/sctp/client.py:65-66 | a stream of an encoded header followed by a body yields that header and that body |
| SctpClient.ShortReplyRaises | sc_web/sctp/client.py:65-66 | a reply shorter than 10 bytes makes every call raise `struct.error` |
| SctpClient.NonOkReplyIsNone | sc_web/sctp/client.py:68-69 | a non-OK result code makes `get_link_content`, `get_element_type` and the create calls return None, whatever follows (lines 112-113, 136-137, 158-159, 184-185 repeat the rule) |
| SctpClient.CheckElementIffOk | sc_web/sctp/client.py:91-94 | `check_element` returns True exactly when the result code is OK |
| SctpClient.LinkContentOnOk | sc_web/sctp/client.py:71-75 | with an OK code, `get_link_content` returns None when resSize is 0, otherwise the first resSize bytes after the header |
| SctpClient.AddrReplyRoundTrip | sc_web/sctp/client.py:139-143 | the sc-addr the server writes after an OK header is the one a create call returns (lines 161-165 and 187-191 repeat this handling) |
| SctpClient.ElementTypeReplyRoundTrip | sc_web/sctp/client.py:115-118 | the type the server writes after an OK header is the one `get_element_type` returns |
| SctpClient.TruncatedValueRaises | sc_web/sctp/client.py:115-116 | an OK header followed by too few bytes for the `=H`/`=HH` value makes the call raise |
| SctpClient.CreateRequestsSendElementTypeCode | sc_web/sctp/client.py:150-151 | as written, `create_link`'s frame equals a get-element-type request with no params, and all three create calls carry the GET_ELEMENT_TYPE code instead of their own |
| SctpClient.CreateNodeRequestIntended | sc_web/sctp/client.py:127-129 | corrected `create_node`: same layout, carrying the CREATE_NODE code |
| SctpClient.CreateLinkRequestIntended | sc_web/sctp/client.py:150 | corrected `create_link`: a bare header carrying the CREATE_LINK code |
| SctpClient.CreateArcRequestIntended | sc_web/sctp/client.py:175-177 | corrected `create_arc`: same 20-byte layout, carrying the CREATE_ARC code |
| SctpClient.IntendedCreateRequestsAreDistinct | sc_web/sctp/client.py:128 | when the codes are distinct, the corrected create frames can be told apart from a get-element-type request by their first byte |
| ComponentManager.AppendComponentInitialize | client/js/Core/ComponentManager.js:89-91 | the definition is added at the end of the queue; the registered maps are unchanged |
| ComponentManager.CollectKeynodes | client/js/Core/ComponentManager.js:36-45 | the collected keynodes are, in queue order, each definition's formats, then its requested keynodes, then its ext_lang if truthy; every queued format is requested |
| ComponentManager.RequestedContainsFormats | client/js/Core/ComponentManager.js:39 | every format of every queued definition is among the requested keynodes |
| ComponentManager.RegisterFactory | client/js/Core/ComponentManager.js:99-101 | the format maps to the component afterwards; every other format and every other map is unchanged |
| ComponentManager.ResolvedFormatsMembers | client/js/Core/ComponentManager.js:61-69 | an address is in a definition's format list exactly when one of its formats resolves to it, so unresolved formats are skipped |
| ComponentManager.ResolvedFormatsAppend | client/js/Core/ComponentManager.js:61-69 | resolving formats keeps declaration order: resolving a concatenation gives the concatenation of the results |
| ComponentManager.RegisterFormats | client/js/Core/ComponentManager.js:61-70 | the format loop registers exactly the resolved formats for the component, collects them in order, and leaves other formats and the other maps alone |
| ComponentManager.RegisterComponent | client/js/Core/ComponentManager.js:52-74 | one pass of the loop: the definition's resolved formats and resolved language point to it, the language's list is its resolved formats, and every other entry of the three maps is kept |
| ComponentManager.Init | client/js/Core/ComponentManager.js:29-50 | `init` records the queue length and keeps the resolver's answer to the collected keynodes as the keynode table |
| ComponentManager.InitRegistersLastWriters | client/js/Core/ComponentManager.js:47-78 | `init` as a whole: with the resolver's answer to the collected keynodes, every format and language maps to its last writer in the queue, and every language's list is that writer's resolved formats |
| ComponentManager.RegisterAll | client/js/Core/ComponentManager.js:51-75 | the registration loop over the whole queue changes only the three maps, not the queue, the count or the keynode table |
| ComponentManager.FormatMapsToLastProvider | client/js/Core/ComponentManager.js:61-65 | after registration each format maps to the last queued definition whose formats resolve to it; other formats keep their earlier entry (last writer wins) |
| ComponentManager.ExtLangMapsToLastDeclarer | client/js/Core/ComponentManager.js:54-73 | a resolved external language maps to the last definition declaring it, and its format list is exactly that definition's resolved formats in declaration order |
| ComponentManager.LastProviderExists | client/js/Core/ComponentManager.js:61-65 | a last provider for an address exists exactly when some queued format resolves to it, and it is one of the queued definitions |
| ComponentManager.RegisteredFormatsAreResolved | client/js/Core/ComponentManager.js:61-65 | starting empty, the registered formats are exactly the truthy resolutions of queued formats; an unresolved format is never registered |
| ComponentManager.IsStructSupported | client/js/Core/ComponentManager.js:105-111 | throws "no component" exactly when no component serves the format; otherwise returns that component's struct_support |
| ComponentManager.StructSupportAfterInit | client/js/Core/ComponentManager.js:105-111 | after registration, `isStructSupported` answers with the flag of the last definition listing the format |
| ComponentManager.PrimaryFormatForExtLang | client/js/Core/ComponentManager.js:205-213 | returns the first format of the language's list; null when the language is unknown or its list is empty |
| ComponentManager.PrimaryFormatAfterInit | client/js/Core/ComponentManager.js:205-213 | starting empty, a language's primary format is the first resolved format of the last definition declaring it; null if none is declared or none of its formats resolved |
| ComponentManager.ScStructSupportExtLangs | client/js/Core/ComponentManager.js:216-227 | returns each registered external language whose component has struct_support, exactly once, and no other language, in ascending order as `for...in` enumerates integer-like keys |
| ComponentManager.CreateWindowByFormat | client/js/Core/ComponentManager.js:126-162 | rejects exactly when no component serves the format; throws "doesn't support structures" exactly on a struct request to a component without struct_support; the factory is called exactly when neither happens; then it resolves exactly on a component, throws a TypeError on null and "Can't create viewer properly" on another falsy result |
| ComponentManager.NullFactoryThrowsTypeError | client/js/Core/ComponentManager.js:144-156 | as written, a factory returning null makes the call throw a TypeError rather than "Can't create viewer properly" |
| ComponentManager.CreateWindowByFormatIntended | client/js/Core/ComponentManager.js:144-156 | corrected: the same reject, throw and factory-call rules, and once the factory is called, every non-component result (null included) throws "Can't create viewer properly" |
| ComponentManager.IntendedDiffersOnlyOnNull | client/js/Core/ComponentManager.js:144-156 | the corrected and as-written calls agree on every factory result except null |
| ComponentManager.CreateWindowByExtLang | client/js/Core/ComponentManager.js:177-199 | returns null without calling the factory for an unknown language; throws exactly on the struct-support violation; the factory is called exactly when neither happens, and then the sandbox is returned exactly on a component and null on any other result |
| ComponentManager.WindowByFormatAfterInit | client/js/Core/ComponentManager.js:128-142 | after registration, window creation by format is rejected exactly when no queued definition lists the format, and otherwise throws or calls the factory according to the last such definition's struct_support |
| ComponentManager.WindowByExtLangAfterInit | client/js/Core/ComponentManager.js:178-192 | after registration, window creation by language returns null without a factory call when no definition declares the language, and otherwise throws or calls the factory according to the last declarer's struct_support |
| UserPanel.IndexFrom | sc-web-core/js/Ui/userpanel.js:36 | finds the first occurrence of the pattern at or after a position, or reports that there is none |
| UserPanel.IndexOf | sc-web-core/js/Ui/userpanel.js:36 | finds the first occurrence of the pattern, or reports that there is none |
| UserPanel.RemoveFirst | sc-web-core/js/Ui/userpanel.js:36 | `replace(p, '')` returns the string unchanged when `p` is absent; otherwise it is `|p|` shorter, and putting `p` back at its first occurrence gives the original |
| UserPanel.Cleanup | sc-web-core/js/Ui/userpanel.js:36 | the cleaned label is never longer than the name, and equals the name when neither `user::` nor `session::` occurs in it |
| UserPanel.LeadingUserMarkerOnly | sc-web-core/js/Ui/userpanel.js:36 | a leading `user::` is removed and the rest only loses its first `session::` |
| UserPanel.RemoveFirstAfterPrefix | sc-web-core/js/Ui/userpanel.js:36 | when the pattern cannot start inside a prefix, removing its first occurrence leaves the prefix alone and acts on the rest |
| UserPanel.SessionNotInsideUser | sc-web-core/js/Ui/userpanel.js:36 | no `session::` can start inside a leading `user::` |
| UserPanel.CleanupKeepsSecondUserMarker | sc-web-core/js/Ui/userpanel.js:36 | only the first `user::` is removed: for every rest, `user::user::` + rest cleans to `user::` + (rest without its first `session::`) |
| UserPanel.UpdateTranslation | sc-web-core/js/Ui/userpanel.js:31-40 | keeps the element count, order and every `sc_addr`; an element with a non-empty name shows the cleaned name; any other element (no entry, or empty string) is unchanged |
| UserPanel.UpdateTranslationIdempotent | sc-web-core/js/Ui/userpanel.js:33-37 | applying the same names twice gives the same panel as applying them once |
| UserPanel.UpdateWithoutNamesIsIdentity | sc-web-core/js/Ui/userpanel.js:35 | an empty names map leaves every element as it was |
| UserPanel.GetObjectsToTranslate | sc-web-core/js/Ui/userpanel.js:45-51 | one address per element, in element order, duplicates kept |
| UserPanel.Init | sc-web-core/js/Ui/userpanel.js:11-21 | the three parameters are always stored; only when authenticated do the name and language elements get the user and language addrs as `sc_addr` and text, and otherwise they are unchanged |
| UserPanel.AuthenticatedInitThenTranslate | sc-web-core/js/Ui/userpanel.js:18-37 | after an authenticated `init`, the panel asks to translate the user and language addrs; a later translation shows each one's cleaned name when it has one and its address otherwise |

## Findings

| source | as written | input that shows it | evidently intended | confidence | as-written member | corrected member |
|---|---|---|---|---|---|---|
| sc_web/sctp/client.py:128 | `create_node` packs `SCTP_CMD_GET_ELEMENT_TYPE` as its command | any `create_node(t)`: its first byte is the get-element-type code | send the create-node command code | medium, not executed | SctpClient.CreateRequestsSendElementTypeCode | SctpClient.CreateNodeRequestIntended |
| sc_web/sctp/client.py:150 | `create_link` packs `SCTP_CMD_GET_ELEMENT_TYPE` with length 0 | `create_link()`: its frame equals a get-element-type header with no params | send the create-link command code | medium, not executed | SctpClient.CreateRequestsSendElementTypeCode | SctpClient.CreateLinkRequestIntended |
| sc_web/sctp/client.py:176 | `create_arc` packs `SCTP_CMD_GET_ELEMENT_TYPE` as its command | any `create_arc(...)`: its first byte is the get-element-type code | send the create-arc command code | medium, not executed | SctpClient.CreateRequestsSendElementTypeCode | SctpClient.CreateArcRequestIntended |
| client/js/Core/ComponentManager.js:144-156 | `component.editor` is read before `if (component)` | a factory that returns `null` | throw "Can't create viewer properly" | medium, not executed | ComponentManager.NullFactoryThrowsTypeError | ComponentManager.CreateWindowByFormatIntended |

The request-layout, round-trip and result-code properties hold for any command
code, so they cover the as-written and the corrected create calls alike.

## Left out

- Socket I/O: `initialize` (socket creation and `connect`), `send`, and the no-op `shutdown` are not modelled. Requests are the bytes a call would send; replies are the byte stream the server sends.
- SctpClient.Recv: models a stream the server has finished sending. A short `recv` while more bytes are still in flight is not modelled.
- Out-of-range integers passed to `struct.pack` (which raise `struct.error`) are ruled out by typing: params are `u16` and command codes are bytes.
- The numeric values of `sctpCommandType` and `sctpResultCode` come from a `types` module that is not part of this model. They are the `Codes` parameter. `ScAddr` from `sctp.types` is modelled as a two-field datatype.
- jQuery Deferred/promise plumbing throughout. The asynchronous `Server.resolveScAddr` is replaced by an input map or a resolver function.
- `client/js/Core/Translation.js` is not part of this model. It is event emission and delegation to the server, with no logic of its own.
- Window creation: `ComponentSandbox` construction, the sandbox's fields, the factory call itself, and the `KeyboardHandler`/`OpenComponentHandler` subscriptions are foreign calls. Only the factory's result is an input.
- `setListener`, `_fireComponentRegistered` and `_fireComponentUnregistered` are never called from the registration path. The `ComponentType` constant is unused by the modelled logic.
- A missing `ext_lang` is treated as unresolved. JavaScript would look up the key "undefined", which matters only if some identifier is literally "undefined".
- ComponentManager.ScStructSupportExtLangs: returns the languages as addresses, while `for...in` at line 219 yields them as string keys (`"42"`, not `42`). `getPrimaryFormatForExtLang` (line 209) returns the stored format value itself, so only this query is affected; the model does not tell a key from its number. The ascending order holds only for keys below 2^32 - 1, which JavaScript treats as array indices; larger keys enumerate in insertion order, which is not modelled.
- Inherited JavaScript object properties (`namesMap["constructor"]`, for example) are not modelled; maps hold only their own keys.
- DOM access in the user panel: jQuery selection, `attr`/`text`, `Translation.registerListener`, `Utils.bindArgumentsSelector` and the `init` callback. Other panel elements appear only as the abstract element sequence.
