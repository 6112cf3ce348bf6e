/**
 RPC values and frames as functions on byte sequences: what the encoders emit and the decoders accept.
 `Codec` holds the imperative writer and reader that are proved to compute these functions.
 */
module Wire {
  import opened Wrappers
  import opened Words

  // A dynamic value.  `borrowed` marks a string that views memory the value does not own.
  datatype Value =
    | Undefined
    | Signed(number: i64)
    | Unsigned(magnitude: u64)
    | Real(bits: u64)
    | Boolean(state: bool)
    | Text(text: seq<byte>, borrowed: bool)

  datatype ProtocolError = StringTooLarge | FrameSizeOverflow | TooManyArguments | ErrorTooLarge

  datatype Request = Request(method_: u64, args: seq<Value>)

  datatype Response = Answer(value: Value) | Malformed | RemoteError(message: seq<byte>)

  const REQUEST_MAGIC: u32 := 0x43505244
  const RESPONSE_MAGIC: u32 := 0x52505244
  const PROTOCOL_VERSION: byte := 1
  const REQUEST_HEADER: nat := 17

  // What a decoder makes of a value: the same, with strings owned.
  function Owned(v: Value): Value {
    if v.Text? then v.(borrowed := false) else v
  }

  function OwnedAll(vs: seq<Value>): (r: seq<Value>)
    ensures |r| == |vs| && forall i | 0 <= i < |vs| :: r[i] == Owned(vs[i])
  {
    seq(|vs|, i requires 0 <= i < |vs| => Owned(vs[i]))
  }

  predicate Encodable(v: Value) {
    v.Text? ==> |v.text| <= U32_MAX
  }

  // -------- Encoding --------

  function EncodeRaw(text: seq<byte>): seq<byte>
    requires |text| <= U32_MAX
  {
    LittleEndian(|text|, 4) + text
  }

  function EncodeValue(v: Value): (bytes: seq<byte>)
    requires Encodable(v)
    ensures bytes != []
  {
    match v
    case Undefined => [0]
    case Signed(number) => [1] + LittleEndian(ToBits(number), 8)
    case Unsigned(magnitude) => [2] + LittleEndian(magnitude, 8)
    case Real(bits) => [3] + LittleEndian(bits, 8)
    case Boolean(state) => [4, if state then 1 else 0]
    case Text(text, _) => [5] + EncodeRaw(text)
  }

  function EncodeValues(vs: seq<Value>): seq<byte>
    requires forall v <- vs :: Encodable(v)
  {
    if vs == [] then [] else EncodeValue(vs[0]) + EncodeValues(vs[1..])
  }

  function CheckedAdd(left: nat, right: nat): Result<nat, ProtocolError>
    requires left <= SIZE_MAX && right <= SIZE_MAX
  {
    if right > SIZE_MAX - left then Err(FrameSizeOverflow) else Ok(left + right)
  }

  function EncodedSize(v: Value): (r: Result<nat, ProtocolError>)
    ensures r.Ok? <==> Encodable(v)
    ensures r.Ok? ==> r.value == |EncodeValue(v)| <= SIZE_MAX
  {
    match v
    case Undefined => Ok(1)
    case Signed(_) => Ok(9)
    case Unsigned(_) => Ok(9)
    case Real(_) => Ok(9)
    case Boolean(_) => Ok(2)
    case Text(text, _) => if |text| > U32_MAX then Err(StringTooLarge) else CheckedAdd(5, |text|)
  }

  // The running total the encoder reserves, argument by argument.
  function FrameSize(size: nat, vs: seq<Value>): Result<nat, ProtocolError>
    requires size <= SIZE_MAX
    decreases |vs|
  {
    if vs == [] then Ok(size) else
    var one := EncodedSize(vs[0]);
    if one.Err? then one else
    var total := CheckedAdd(size, one.value);
    if total.Err? then total else FrameSize(total.value, vs[1..])
  }

  function RequestHeader(method_: u64, argc: u32): (bytes: seq<byte>)
    ensures |bytes| == REQUEST_HEADER
  {
    LittleEndian(REQUEST_MAGIC, 4) + [PROTOCOL_VERSION] + LittleEndian(method_, 8) + LittleEndian(argc, 4)
  }

  function EncodeRequest(method_: u64, args: seq<Value>): (r: Result<seq<byte>, ProtocolError>) {
    if |args| > U32_MAX then Err(TooManyArguments) else
    var size := FrameSize(REQUEST_HEADER, args);
    if size.Err? then Err(size.error) else
    FrameSizeExact(REQUEST_HEADER, args);
    Ok(RequestHeader(method_, |args|) + EncodeValues(args))
  }

  function ResponseHeader(tag: byte): (bytes: seq<byte>)
    ensures |bytes| == 6
  {
    LittleEndian(RESPONSE_MAGIC, 4) + [PROTOCOL_VERSION, tag]
  }

  function EncodeResponse(v: Value): Result<seq<byte>, ProtocolError> {
    if EncodedSize(v).Err? then Err(EncodedSize(v).error) else Ok(ResponseHeader(0) + EncodeValue(v))
  }

  function EncodeError(message: seq<byte>): Result<seq<byte>, ProtocolError> {
    if |message| > U32_MAX then Err(ErrorTooLarge) else Ok(ResponseHeader(1) + EncodeRaw(message))
  }

  // The reserved size is exactly what is emitted, and no sum on the way wraps.
  lemma {:induction false} FrameSizeExact(size: nat, vs: seq<Value>)
    requires size <= SIZE_MAX
    ensures FrameSize(size, vs).Ok? <==>
            (forall v <- vs :: Encodable(v)) && size + |EncodeValues(vs)| <= SIZE_MAX
    ensures FrameSize(size, vs).Ok? ==> FrameSize(size, vs).value == size + |EncodeValues(vs)|
    decreases |vs|
  {
    hide EncodeValue, EncodedSize, Encodable;
    if vs != [] {
      assert forall v <- vs :: v == vs[0] || v in vs[1..];
      if Encodable(vs[0]) {
        var one := EncodedSize(vs[0]).value;
        if one <= SIZE_MAX - size {
          FrameSizeExact(size + one, vs[1..]);
        }
      } else {
        assert vs[0] in vs;
      }
    }
  }

  // -------- Decoding --------

  // The reader: the bytes not consumed yet, and the sticky failure flag.
  datatype Cursor = Cursor(rest: seq<byte>, valid: bool)

  function ReadInteger(c: Cursor, width: nat): (nat, Cursor) {
    if !c.valid || width > |c.rest| then (0, c.(valid := false))
    else (FromLittleEndian(c.rest[..width]), Cursor(c.rest[width..], true))
  }

  function ReadWord(c: Cursor): (r: (u64, Cursor)) {
    FromBound(c.rest[..if |c.rest| < 8 then |c.rest| else 8]);
    WidthBounds();
    ReadInteger(c, 8)
  }

  function ReadRaw(c: Cursor): (seq<byte>, Cursor) {
    var (size, c1) := ReadInteger(c, 4);
    if !c1.valid || size > |c1.rest| then ([], c1.(valid := false))
    else (c1.rest[..size], Cursor(c1.rest[size..], true))
  }

  function ReadValue(c: Cursor): (Value, Cursor) {
    var (kind, c1) := ReadInteger(c, 1);
    match kind
    case 0 => (Undefined, c1)
    case 1 => var (bits, c2) := ReadWord(c1); (Signed(FromBits(bits)), c2)
    case 2 => var (bits, c2) := ReadWord(c1); (Unsigned(bits), c2)
    case 3 => var (bits, c2) := ReadWord(c1); (Real(bits), c2)
    case 4 => var (state, c2) := ReadInteger(c1, 1); (Boolean(state != 0), c2)
    case 5 => var (text, c2) := ReadRaw(c1); (Text(text, false), c2)
    case _ => (Undefined, c1.(valid := false))
  }

  // The argument loop, which stops at the first failure.
  function ReadValues(c: Cursor, count: nat): (Option<seq<Value>>, Cursor)
    decreases count
  {
    if count == 0 then (Some([]), c) else
    var (v, c1) := ReadValue(c);
    if !c1.valid then (None, c1) else
    var (rest, c2) := ReadValues(c1, count - 1);
    (if rest.Some? then Some([v] + rest.value) else None, c2)
  }

  // Magic, version, method and argument count, and the bytes after them.
  function ReadRequestHeader(frame: seq<byte>): Option<(u64, nat, seq<byte>)> {
    var (magic, c1) := ReadInteger(Cursor(frame, true), 4);
    if magic != REQUEST_MAGIC then None else
    var (version, c2) := ReadInteger(c1, 1);
    if version != PROTOCOL_VERSION then None else
    var (method_, c3) := ReadWord(c2);
    var (argc, c4) := ReadInteger(c3, 4);
    if !c4.valid then None else Some((method_, argc, c4.rest))
  }

  // The arguments, if they and nothing else are there.
  function ReadArguments(bytes: seq<byte>, argc: nat): Option<seq<Value>> {
    var (args, c) := ReadValues(Cursor(bytes, true), argc);
    if args.None? || !c.valid || c.rest != [] then None else args
  }

  function TryDecodeRequest(frame: seq<byte>): Option<Request> {
    var header := ReadRequestHeader(frame);
    if header.None? then None else
    var (method_, argc, bytes) := header.value;
    if argc > |bytes| then None else
    var args := ReadArguments(bytes, argc);
    if args.None? then None else Some(Request(method_, args.value))
  }

  // Magic, version and tag, and the bytes after them.
  function ReadResponseHeader(frame: seq<byte>): Option<(nat, seq<byte>)> {
    var (magic, c1) := ReadInteger(Cursor(frame, true), 4);
    if magic != RESPONSE_MAGIC then None else
    var (version, c2) := ReadInteger(c1, 1);
    if version != PROTOCOL_VERSION then None else
    var (tag, c3) := ReadInteger(c2, 1);
    if !c3.valid || tag > 1 then None else Some((tag, c3.rest))
  }

  function TryDecodeResponse(frame: seq<byte>): Response {
    var header := ReadResponseHeader(frame);
    if header.None? then Malformed
    else if header.value.0 == 1 then
      var (message, c) := ReadRaw(Cursor(header.value.1, true));
      if !c.valid || c.rest != [] then Malformed else RemoteError(message)
    else
      var (v, c) := ReadValue(Cursor(header.value.1, true));
      if !c.valid || c.rest != [] then Malformed else Answer(v)
  }
}
