/**
 * The byte layout of the sc-tcp ("sctp") client: the request frames each
 * client call sends and the decision it takes on the reply it reads. The
 * socket is abstracted away: a request is the byte sequence the call would
 * send, and a reply is the byte stream the server sends back.
 */
module SctpClient {
  import opened Wrappers
  import opened ByteCodec

  /**
   * Numeric command and result codes. Their values live in a `types`
   * module that is not part of this model, so they are parameters.
   */
  datatype Codes = Codes(
    getLinkContent: byte,
    checkElement: byte,
    getElementType: byte,
    createNode: byte,
    createLink: byte,
    createArc: byte,
    resultOk: byte)

  /** An sc-addr: segment and offset, each sent as a 16-bit field. */
  datatype ScAddr = ScAddr(seg: u16, offset: u16)

  /** Size in bytes of both the request header `=BBII` and the response header `=BIBI`. */
  const HeaderSize: nat := 10

  datatype RequestHeader = RequestHeader(command: byte, flags: byte, id: u32, paramsSize: u32)

  datatype ResponseHeader = ResponseHeader(cmdCode: byte, cmdId: u32, resCode: byte, resSize: u32)

  /** `struct.unpack` raises `struct.error` when it gets fewer bytes than its format needs. */
  datatype ClientError = StructError

  function Min(a: nat, b: nat): nat { if a <= b then a else b }

  // ---------------------------------------------------------------------------
  // Headers and addresses

  /** `struct.pack('=BBII', command, flags, id, size)`. */
  function EncodeRequestHeader(o: ByteOrder, h: RequestHeader): (r: seq<byte>)
    ensures |r| == HeaderSize
    ensures DecodeRequestHeader(o, r) == Some(h)
  {
    var r := [h.command, h.flags] + PackU32(o, h.id) + PackU32(o, h.paramsSize);
    assert r[2..6] == PackU32(o, h.id);
    assert r[6..10] == PackU32(o, h.paramsSize);
    r
  }

  /** `struct.unpack('=BBII', b)`: defined on exactly ten bytes, the inverse of the encoder. */
  function DecodeRequestHeader(o: ByteOrder, b: seq<byte>): (r: Option<RequestHeader>)
    ensures r.Some? <==> |b| == HeaderSize
    ensures r.Some? ==> r.value.command == b[0] && r.value.flags == b[1]
    ensures r.Some? ==> PackU32(o, r.value.id) == b[2..6] && PackU32(o, r.value.paramsSize) == b[6..10]
  {
    if |b| != HeaderSize then None
    else
      UnpackPackU32(o, b[2..6]);
      UnpackPackU32(o, b[6..10]);
      Some(RequestHeader(b[0], b[1], UnpackU32(o, b[2..6]), UnpackU32(o, b[6..10])))
  }

  /** Every ten-byte string is the encoding of the request header it decodes to. */
  lemma {:induction false} DecodeEncodeRequestHeader(o: ByteOrder, b: seq<byte>)
    requires |b| == HeaderSize
    ensures EncodeRequestHeader(o, DecodeRequestHeader(o, b).value) == b
  {
    UnpackPackU32(o, b[2..6]);
    UnpackPackU32(o, b[6..10]);
    assert b == [b[0], b[1]] + b[2..6] + b[6..10];
  }

  /** `struct.pack('=BIBI', ...)`, the server's side of the reply header. */
  function EncodeResponseHeader(o: ByteOrder, h: ResponseHeader): (r: seq<byte>)
    ensures |r| == HeaderSize
    ensures DecodeResponseHeader(o, r) == Some(h)
  {
    var r := [h.cmdCode] + PackU32(o, h.cmdId) + [h.resCode] + PackU32(o, h.resSize);
    assert r[1..5] == PackU32(o, h.cmdId);
    assert r[6..10] == PackU32(o, h.resSize);
    r
  }

  /**
   * `struct.unpack('=BIBI', b)`: command code at byte 0, command id in bytes
   * 1-4, result code at byte 5, result size in bytes 6-9, no padding.
   */
  function DecodeResponseHeader(o: ByteOrder, b: seq<byte>): (r: Option<ResponseHeader>)
    ensures r.Some? <==> |b| == HeaderSize
    ensures r.Some? ==> r.value.cmdCode == b[0] && r.value.resCode == b[5]
    ensures r.Some? ==> PackU32(o, r.value.cmdId) == b[1..5] && PackU32(o, r.value.resSize) == b[6..10]
  {
    if |b| != HeaderSize then None
    else
      UnpackPackU32(o, b[1..5]);
      UnpackPackU32(o, b[6..10]);
      Some(ResponseHeader(b[0], UnpackU32(o, b[1..5]), b[5], UnpackU32(o, b[6..10])))
  }

  /** Every ten-byte string is the encoding of the response header it decodes to. */
  lemma {:induction false} DecodeEncodeResponseHeader(o: ByteOrder, b: seq<byte>)
    requires |b| == HeaderSize
    ensures EncodeResponseHeader(o, DecodeResponseHeader(o, b).value) == b
  {
    UnpackPackU32(o, b[1..5]);
    UnpackPackU32(o, b[6..10]);
    assert b == [b[0]] + b[1..5] + [b[5]] + b[6..10];
  }

  /** `struct.pack('=HH', addr.seg, addr.offset)`. */
  function EncodeAddr(o: ByteOrder, a: ScAddr): (r: seq<byte>)
    ensures |r| == 4
    ensures DecodeAddr(o, r) == Some(a)
  {
    var r := PackU16(o, a.seg) + PackU16(o, a.offset);
    assert r[..2] == PackU16(o, a.seg) && r[2..] == PackU16(o, a.offset);
    r
  }

  /** Every four-byte string is the encoding of the address it decodes to. */
  lemma {:induction false} DecodeEncodeAddr(o: ByteOrder, b: seq<byte>)
    requires |b| == 4
    ensures EncodeAddr(o, DecodeAddr(o, b).value) == b
  {
    UnpackPackU16(o, b[..2]);
    UnpackPackU16(o, b[2..]);
    assert b == b[..2] + b[2..];
  }

  /** `struct.unpack('=HH', b)`: defined on exactly four bytes. */
  function DecodeAddr(o: ByteOrder, b: seq<byte>): (r: Option<ScAddr>)
    ensures r.Some? <==> |b| == 4
    ensures r.Some? ==> PackU16(o, r.value.seg) == b[..2] && PackU16(o, r.value.offset) == b[2..]
  {
    if |b| != 4 then None
    else
      UnpackPackU16(o, b[..2]);
      UnpackPackU16(o, b[2..]);
      Some(ScAddr(UnpackU16(o, b[..2]), UnpackU16(o, b[2..])))
  }

  // ---------------------------------------------------------------------------
  // Requests

  /** A header `(command, 0, 0, len(params))` followed by the params. */
  function Request(o: ByteOrder, command: byte, params: seq<byte>): (r: seq<byte>)
    requires |params| < 0x1_0000_0000
    ensures |r| == HeaderSize + |params|
    ensures DecodeRequestHeader(o, r[..HeaderSize]) == Some(RequestHeader(command, 0, 0, |params|))
    ensures r[HeaderSize..] == params
  {
    var h := EncodeRequestHeader(o, RequestHeader(command, 0, 0, |params|));
    assert (h + params)[..HeaderSize] == h;
    h + params
  }

  /** The frame `get_link_content` sends: the address as `seg`, `offset`. */
  function GetLinkContentRequest(o: ByteOrder, k: Codes, link: ScAddr): (r: seq<byte>)
    ensures |r| == HeaderSize + 4
    ensures DecodeRequestHeader(o, r[..HeaderSize]) == Some(RequestHeader(k.getLinkContent, 0, 0, 4))
    ensures DecodeAddr(o, r[HeaderSize..]) == Some(link)
  {
    Request(o, k.getLinkContent, EncodeAddr(o, link))
  }

  /** The frame `check_element` sends. */
  function CheckElementRequest(o: ByteOrder, k: Codes, el: ScAddr): (r: seq<byte>)
    ensures |r| == HeaderSize + 4
    ensures DecodeRequestHeader(o, r[..HeaderSize]) == Some(RequestHeader(k.checkElement, 0, 0, 4))
    ensures DecodeAddr(o, r[HeaderSize..]) == Some(el)
  {
    Request(o, k.checkElement, EncodeAddr(o, el))
  }

  /** The frame `get_element_type` sends. */
  function GetElementTypeRequest(o: ByteOrder, k: Codes, el: ScAddr): (r: seq<byte>)
    ensures |r| == HeaderSize + 4
    ensures DecodeRequestHeader(o, r[..HeaderSize]) == Some(RequestHeader(k.getElementType, 0, 0, 4))
    ensures DecodeAddr(o, r[HeaderSize..]) == Some(el)
  {
    Request(o, k.getElementType, EncodeAddr(o, el))
  }

  /** The frame `create_node` sends, as written: the element-type command code, then the type. */
  function CreateNodeRequest(o: ByteOrder, k: Codes, elType: u16): (r: seq<byte>)
    ensures |r| == HeaderSize + 2
    ensures DecodeRequestHeader(o, r[..HeaderSize]) == Some(RequestHeader(k.getElementType, 0, 0, 2))
    ensures UnpackU16(o, r[HeaderSize..]) == elType
  {
    Request(o, k.getElementType, PackU16(o, elType))
  }

  /** The frame `create_link` sends, as written: a bare header with length 0 and the element-type command code. */
  function CreateLinkRequest(o: ByteOrder, k: Codes): (r: seq<byte>)
    ensures |r| == HeaderSize
    ensures DecodeRequestHeader(o, r) == Some(RequestHeader(k.getElementType, 0, 0, 0))
  {
    EncodeRequestHeader(o, RequestHeader(k.getElementType, 0, 0, 0))
  }

  /** The params of `create_arc`: `=HHHHH` over the type and both addresses. */
  function ArcParams(o: ByteOrder, arcType: u16, begin: ScAddr, end: ScAddr): (p: seq<byte>)
    ensures |p| == 10
    ensures UnpackU16(o, p[0..2]) == arcType
    ensures UnpackU16(o, p[2..4]) == begin.seg
    ensures UnpackU16(o, p[4..6]) == begin.offset
    ensures UnpackU16(o, p[6..8]) == end.seg
    ensures UnpackU16(o, p[8..10]) == end.offset
  {
    var p := PackU16(o, arcType) + PackU16(o, begin.seg) + PackU16(o, begin.offset)
      + PackU16(o, end.seg) + PackU16(o, end.offset);
    assert p[0..2] == PackU16(o, arcType);
    assert p[2..4] == PackU16(o, begin.seg);
    assert p[4..6] == PackU16(o, begin.offset);
    assert p[6..8] == PackU16(o, end.seg);
    assert p[8..10] == PackU16(o, end.offset);
    p
  }

  /** The frame `create_arc` sends, as written: the element-type command code, then ten param bytes. */
  function CreateArcRequest(o: ByteOrder, k: Codes, arcType: u16, begin: ScAddr, end: ScAddr): (r: seq<byte>)
    ensures |r| == HeaderSize + 10
    ensures DecodeRequestHeader(o, r[..HeaderSize]) == Some(RequestHeader(k.getElementType, 0, 0, 10))
    ensures r[HeaderSize..] == ArcParams(o, arcType, begin, end)
  {
    Request(o, k.getElementType, ArcParams(o, arcType, begin, end))
  }

  // ---------------------------------------------------------------------------
  // Replies

  /**
   * `sock.recv(n)` on a stream the server has finished sending: at most `n`
   * bytes, fewer only when the stream runs out.
   */
  function Recv(stream: seq<byte>, n: nat): (r: (seq<byte>, seq<byte>))
    ensures |r.0| == Min(n, |stream|)
    ensures r.0 + r.1 == stream
  {
    var m := Min(n, |stream|);
    assert stream[..m] + stream[m..] == stream;
    (stream[..m], stream[m..])
  }

  /** `recv(10)` then `struct.unpack('=BIBI', ...)`: the header and the bytes still unread. */
  function ReadResponseHeader(o: ByteOrder, stream: seq<byte>): (r: Result<(ResponseHeader, seq<byte>), ClientError>)
    ensures r.Success? <==> |stream| >= HeaderSize
    ensures r.Success? ==> EncodeResponseHeader(o, r.value.0) + r.value.1 == stream
  {
    var (got, rest) := Recv(stream, HeaderSize);
    match DecodeResponseHeader(o, got)
    case None => Failure(StructError)
    case Some(h) =>
      DecodeEncodeResponseHeader(o, got);
      Success((h, rest))
  }

  /** The reply header carried by the first ten bytes of a stream. */
  function HeaderOf(o: ByteOrder, stream: seq<byte>): ResponseHeader
    requires |stream| >= HeaderSize
  {
    DecodeResponseHeader(o, stream[..HeaderSize]).value
  }

  /** A successful header read yields the stream's leading header and the bytes after it. */
  lemma HeaderOfRead(o: ByteOrder, stream: seq<byte>)
    requires |stream| >= HeaderSize
    ensures ReadResponseHeader(o, stream) == Success((HeaderOf(o, stream), stream[HeaderSize..]))
  {
    var (h, rest) := ReadResponseHeader(o, stream).value;
    assert stream[..HeaderSize] == EncodeResponseHeader(o, h);
    assert rest == stream[HeaderSize..];
  }

  /**
   * What `get_link_content` returns for a reply stream: `None` exactly when
   * the code is not OK or the size is 0; otherwise at most `resSize` bytes
   * taken straight after the header.
   */
  function GetLinkContentReply(o: ByteOrder, k: Codes, stream: seq<byte>): (r: Result<Option<seq<byte>>, ClientError>)
    ensures r.Failure? <==> |stream| < HeaderSize
    ensures r == Success(None) <==>
      |stream| >= HeaderSize && (HeaderOf(o, stream).resCode != k.resultOk || HeaderOf(o, stream).resSize == 0)
    ensures r.Success? && r.value.Some? ==>
      |r.value.value| <= HeaderOf(o, stream).resSize &&
      HeaderSize + |r.value.value| <= |stream| &&
      r.value.value == stream[HeaderSize..HeaderSize + |r.value.value|]
  {
    match ReadResponseHeader(o, stream)
    case Failure(e) => Failure(e)
    case Success((h, rest)) =>
      if h.resCode != k.resultOk then Success(None)
      else if h.resSize > 0 then Success(Some(Recv(rest, h.resSize).0))
      else Success(None)
  }

  /** What `check_element` returns for a reply stream: whether the header's result code is OK. */
  function CheckElementReply(o: ByteOrder, k: Codes, stream: seq<byte>): (r: Result<bool, ClientError>)
    ensures r.Failure? <==> |stream| < HeaderSize
    ensures r.Success? ==> (r.value <==> HeaderOf(o, stream).resCode == k.resultOk)
  {
    match ReadResponseHeader(o, stream)
    case Failure(e) => Failure(e)
    case Success((h, _)) => Success(h.resCode == k.resultOk)
  }

  /** What `get_element_type` returns: `None` on a non-OK code, or the `=H` type that follows the header. */
  function ElementTypeReply(o: ByteOrder, k: Codes, stream: seq<byte>): (r: Result<Option<u16>, ClientError>)
    ensures |stream| < HeaderSize ==> r.Failure?
    ensures r == Success(None) <==> |stream| >= HeaderSize && HeaderOf(o, stream).resCode != k.resultOk
    ensures r.Success? && r.value.Some? ==>
      |stream| >= HeaderSize + 2 && HeaderOf(o, stream).resCode == k.resultOk &&
      PackU16(o, r.value.value) == stream[HeaderSize..HeaderSize + 2]
  {
    match ReadResponseHeader(o, stream)
    case Failure(e) => Failure(e)
    case Success((h, rest)) =>
      if h.resCode != k.resultOk then Success(None)
      else
        var got := Recv(rest, 2).0;
        if |got| != 2 then Failure(StructError) else Success(Some(UnpackU16(o, got)))
  }

  /**
   * What `create_node`, `create_link` and `create_arc` return (the three
   * share one reply handling): `None`, or the `=HH` sc-addr after the header.
   */
  function AddrReply(o: ByteOrder, k: Codes, stream: seq<byte>): (r: Result<Option<ScAddr>, ClientError>)
    ensures |stream| < HeaderSize ==> r.Failure?
    ensures r == Success(None) <==> |stream| >= HeaderSize && HeaderOf(o, stream).resCode != k.resultOk
    ensures r.Success? && r.value.Some? ==>
      |stream| >= HeaderSize + 4 && HeaderOf(o, stream).resCode == k.resultOk &&
      EncodeAddr(o, r.value.value) == stream[HeaderSize..HeaderSize + 4]
  {
    match ReadResponseHeader(o, stream)
    case Failure(e) => Failure(e)
    case Success((h, rest)) =>
      HeaderOfRead(o, stream);
      if h.resCode != k.resultOk then Success(None)
      else
        var got := Recv(rest, 4).0;
        match DecodeAddr(o, got)
        case None => Failure(StructError)
        case Some(a) =>
          DecodeEncodeAddr(o, got);
          assert got == stream[HeaderSize..HeaderSize + 4];
          Success(Some(a))
  }

  /** Recovering the header and the unread remainder from a stream built as header + body. */
  lemma ReadEncodedHeader(o: ByteOrder, h: ResponseHeader, body: seq<byte>)
    ensures ReadResponseHeader(o, EncodeResponseHeader(o, h) + body) == Success((h, body))
  {
    var s := EncodeResponseHeader(o, h) + body;
    assert s[..HeaderSize] == EncodeResponseHeader(o, h);
    assert s[HeaderSize..] == body;
  }

  /** A stream shorter than a header makes every call raise. */
  lemma ShortReplyRaises(o: ByteOrder, k: Codes, stream: seq<byte>)
    requires |stream| < HeaderSize
    ensures GetLinkContentReply(o, k, stream) == Failure(StructError)
    ensures CheckElementReply(o, k, stream) == Failure(StructError)
    ensures ElementTypeReply(o, k, stream) == Failure(StructError)
    ensures AddrReply(o, k, stream) == Failure(StructError)
  {
  }

  /** A result code other than OK makes every value-returning call return `None`, whatever follows. */
  lemma NonOkReplyIsNone(o: ByteOrder, k: Codes, h: ResponseHeader, body: seq<byte>)
    requires h.resCode != k.resultOk
    ensures GetLinkContentReply(o, k, EncodeResponseHeader(o, h) + body) == Success(None)
    ensures ElementTypeReply(o, k, EncodeResponseHeader(o, h) + body) == Success(None)
    ensures AddrReply(o, k, EncodeResponseHeader(o, h) + body) == Success(None)
  {
    ReadEncodedHeader(o, h, body);
  }

  /** `check_element` answers True exactly when the result code is OK. */
  lemma CheckElementIffOk(o: ByteOrder, k: Codes, h: ResponseHeader, body: seq<byte>)
    ensures CheckElementReply(o, k, EncodeResponseHeader(o, h) + body) == Success(h.resCode == k.resultOk)
  {
    ReadEncodedHeader(o, h, body);
  }

  /**
   * On OK, `get_link_content` returns `None` for an empty result and
   * otherwise the first `resSize` bytes after the header (fewer only if the
   * stream ends first).
   */
  lemma LinkContentOnOk(o: ByteOrder, k: Codes, h: ResponseHeader, body: seq<byte>)
    requires h.resCode == k.resultOk
    ensures h.resSize == 0 ==> GetLinkContentReply(o, k, EncodeResponseHeader(o, h) + body) == Success(None)
    ensures h.resSize > 0 ==>
      GetLinkContentReply(o, k, EncodeResponseHeader(o, h) + body) == Success(Some(body[..Min(h.resSize, |body|)]))
  {
    ReadEncodedHeader(o, h, body);
  }

  /** The sc-addr a server writes after an OK header is the one the create calls return. */
  lemma AddrReplyRoundTrip(o: ByteOrder, k: Codes, h: ResponseHeader, a: ScAddr, tail: seq<byte>)
    requires h.resCode == k.resultOk
    ensures AddrReply(o, k, EncodeResponseHeader(o, h) + EncodeAddr(o, a) + tail) == Success(Some(a))
  {
    var body := EncodeAddr(o, a) + tail;
    assert EncodeResponseHeader(o, h) + EncodeAddr(o, a) + tail == EncodeResponseHeader(o, h) + body;
    ReadEncodedHeader(o, h, body);
    assert body[..4] == EncodeAddr(o, a);
  }

  /** The type a server writes after an OK header is the one `get_element_type` returns. */
  lemma ElementTypeReplyRoundTrip(o: ByteOrder, k: Codes, h: ResponseHeader, t: u16, tail: seq<byte>)
    requires h.resCode == k.resultOk
    ensures ElementTypeReply(o, k, EncodeResponseHeader(o, h) + PackU16(o, t) + tail) == Success(Some(t))
  {
    var body := PackU16(o, t) + tail;
    assert EncodeResponseHeader(o, h) + PackU16(o, t) + tail == EncodeResponseHeader(o, h) + body;
    ReadEncodedHeader(o, h, body);
    assert body[..2] == PackU16(o, t);
  }

  /** An OK header followed by too few bytes for the `=H`/`=HH` value makes the call raise. */
  lemma TruncatedValueRaises(o: ByteOrder, k: Codes, h: ResponseHeader, body: seq<byte>)
    requires h.resCode == k.resultOk
    ensures |body| < 2 ==> ElementTypeReply(o, k, EncodeResponseHeader(o, h) + body) == Failure(StructError)
    ensures |body| < 4 ==> AddrReply(o, k, EncodeResponseHeader(o, h) + body) == Failure(StructError)
  {
    ReadEncodedHeader(o, h, body);
  }

  // ---------------------------------------------------------------------------
  // The command code of the create calls

  /**
   * As written, `create_link` sends a frame identical to a `get_element_type`
   * header with no params, and `create_node`/`create_arc` send the
   * `get_element_type` command code: none of them names its own command.
   */
  lemma CreateRequestsSendElementTypeCode(o: ByteOrder, k: Codes, t: u16, begin: ScAddr, end: ScAddr)
    requires k.createNode != k.getElementType && k.createLink != k.getElementType && k.createArc != k.getElementType
    ensures CreateLinkRequest(o, k) == Request(o, k.getElementType, [])
    ensures CreateNodeRequest(o, k, t)[0] == k.getElementType != k.createNode
    ensures CreateLinkRequest(o, k)[0] == k.getElementType != k.createLink
    ensures CreateArcRequest(o, k, t, begin, end)[0] == k.getElementType != k.createArc
  {
    assert EncodeRequestHeader(o, RequestHeader(k.getElementType, 0, 0, 0)) + [] == CreateLinkRequest(o, k);
  }

  /** `create_node` with its own command code. */
  function CreateNodeRequestIntended(o: ByteOrder, k: Codes, elType: u16): (r: seq<byte>)
    ensures |r| == HeaderSize + 2
    ensures DecodeRequestHeader(o, r[..HeaderSize]) == Some(RequestHeader(k.createNode, 0, 0, 2))
    ensures UnpackU16(o, r[HeaderSize..]) == elType
  {
    Request(o, k.createNode, PackU16(o, elType))
  }

  /** `create_link` with its own command code. */
  function CreateLinkRequestIntended(o: ByteOrder, k: Codes): (r: seq<byte>)
    ensures |r| == HeaderSize
    ensures DecodeRequestHeader(o, r) == Some(RequestHeader(k.createLink, 0, 0, 0))
  {
    EncodeRequestHeader(o, RequestHeader(k.createLink, 0, 0, 0))
  }

  /** `create_arc` with its own command code. */
  function CreateArcRequestIntended(o: ByteOrder, k: Codes, arcType: u16, begin: ScAddr, end: ScAddr): (r: seq<byte>)
    ensures |r| == HeaderSize + 10
    ensures DecodeRequestHeader(o, r[..HeaderSize]) == Some(RequestHeader(k.createArc, 0, 0, 10))
    ensures r[HeaderSize..] == ArcParams(o, arcType, begin, end)
  {
    Request(o, k.createArc, ArcParams(o, arcType, begin, end))
  }

  /** With distinct codes, the first byte tells each intended create frame from a `get_element_type` frame. */
  lemma IntendedCreateRequestsAreDistinct(o: ByteOrder, k: Codes, t: u16, a: ScAddr, begin: ScAddr, end: ScAddr)
    requires k.createNode != k.getElementType && k.createLink != k.getElementType && k.createArc != k.getElementType
    ensures CreateNodeRequestIntended(o, k, t)[0] == k.createNode != GetElementTypeRequest(o, k, a)[0]
    ensures CreateLinkRequestIntended(o, k)[0] == k.createLink != GetElementTypeRequest(o, k, a)[0]
    ensures CreateArcRequestIntended(o, k, t, begin, end)[0] == k.createArc != GetElementTypeRequest(o, k, a)[0]
  {
  }
}
