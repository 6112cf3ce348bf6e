/**
 The wire format in literal bytes: what every frame, value and typed argument looks like to a peer that
 shares no code with the encoders.
 */
module Layout {
  import opened Wrappers
  import opened Words
  import opened Wire
  import opened WireProofs
  import opened Overloads

  // The bytes of a word, lowest first.
  function U32Bytes(n: nat): (bytes: seq<byte>)
    ensures |bytes| == 4
  {
    [n % 256, n / 0x100 % 256, n / 0x1_0000 % 256, n / 0x100_0000 % 256]
  }

  function U64Bytes(n: nat): (bytes: seq<byte>)
    ensures |bytes| == 8
  {
    [n % 256, n / 0x100 % 256, n / 0x1_0000 % 256, n / 0x100_0000 % 256,
     n / 0x1_0000_0000 % 256, n / 0x100_0000_0000 % 256, n / 0x1_0000_0000_0000 % 256, n / 0x100_0000_0000_0000 % 256]
  }

  lemma FourBytes(n: nat, width: nat)
    ensures LittleEndian(n, 4 + width) ==
            [n % 256, n / 0x100 % 256, n / 0x1_0000 % 256, n / 0x100_0000 % 256]
            + LittleEndian(n / 0x1_0000_0000, width)
  {
    hide LittleEndian;
    OneByte(n, 3 + width);
    OneByte(n / 0x100, 2 + width);
    OneByte(n / 0x1_0000, 1 + width);
    OneByte(n / 0x100_0000, width);
    assert n / 0x100 / 256 == n / 0x1_0000 && n / 0x1_0000 / 256 == n / 0x100_0000;
    assert n / 0x100_0000 / 256 == n / 0x1_0000_0000;
  }

  lemma OneByte(n: nat, width: nat)
    ensures LittleEndian(n, 1 + width) == [n % 256] + LittleEndian(n / 256, width)
  {
  }

  lemma WordLayout(n: nat)
    ensures LittleEndian(n, 4) == U32Bytes(n)
    ensures LittleEndian(n, 8) == U64Bytes(n)
  {
    FourBytes(n, 0);
    FourBytes(n, 4);
    var high := n / 0x1_0000_0000;
    FourBytes(high, 0);
    assert high / 0x100 == n / 0x100_0000_0000 && high / 0x1_0000 == n / 0x1_0000_0000_0000;
    assert high / 0x100_0000 == n / 0x100_0000_0000_0000;
  }

  // Every kind of value: its number, then its payload.
  lemma ValueLayout(v: Value)
    requires Encodable(v)
    ensures EncodeValue(v) ==
            match v
            case Undefined => [0]
            case Signed(n) => [1] + U64Bytes(if n >= 0 then n else n + 0x1_0000_0000_0000_0000)
            case Unsigned(n) => [2] + U64Bytes(n)
            case Real(bits) => [3] + U64Bytes(bits)
            case Boolean(state) => if state then [4, 1] else [4, 0]
            case Text(text, _) => [5] + U32Bytes(|text|) + text
  {
    hide LittleEndian, U32Bytes, U64Bytes;
    match v {
      case Signed(n) => WordLayout(if n >= 0 then n else n + 0x1_0000_0000_0000_0000);
      case Unsigned(n) => WordLayout(n);
      case Real(bits) => WordLayout(bits);
      case Text(text, _) => WordLayout(|text|);
      case _ =>
    }
  }

  // Which value each C++ type is sent as.
  lemma ArgumentLayout(n: Native, byReference: bool)
    requires n.NString? ==> |n.string_| <= 0xFFFF_FFFF
    ensures Encodable(To(n, byReference)) && (n.NString? ==> To(n, byReference).borrowed == byReference)
    ensures EncodeValue(To(n, byReference)) ==
            match n
            case NInt(i) => [1] + U64Bytes(if i >= 0 then i else i + 0x1_0000_0000_0000_0000)
            case NUnsigned(u) => [2] + U64Bytes(u)
            case NDouble(bits) => [3] + U64Bytes(bits)
            case NBool(b) => if b then [4, 1] else [4, 0]
            case NString(s) => [5] + U32Bytes(|s|) + s
  {
    hide EncodeValue;
    ValueLayout(To(n, byReference));
  }

  // Values follow one another with nothing in between.
  lemma {:induction false} ValuesLayout(vs: seq<Value>, v: Value)
    requires Encodable(v) && forall w <- vs :: Encodable(w)
    ensures EncodeValues([]) == []
    ensures (forall w <- vs + [v] :: Encodable(w)) && EncodeValues(vs + [v]) == EncodeValues(vs) + EncodeValue(v)
  {
    hide EncodeValue, Encodable;
    if vs == [] {
      assert vs + [v] == [v] && [v][1..] == [];
    } else {
      assert (vs + [v])[1..] == vs[1..] + [v];
      ValuesLayout(vs[1..], v);
    }
  }

  // A request: "DRPC", version 1, the method's id, the argument count, the arguments.
  lemma RequestLayout(method_: u64, args: seq<Value>)
    ensures EncodeRequest(method_, args).Ok? ==>
              && (forall v <- args :: Encodable(v))
              && EncodeRequest(method_, args).value ==
                 [0x44, 0x52, 0x50, 0x43, 1] + U64Bytes(method_) + U32Bytes(|args|) + EncodeValues(args)
  {
    HeaderLayout(method_, |args|, 0);
    FrameSizeExact(REQUEST_HEADER, args);
  }

  // A response: "DRPR", version 1, zero, the value; an error frame has one instead, and the message.
  lemma ResponseLayout(v: Value, message: seq<byte>)
    ensures Encodable(v) ==> EncodeResponse(v) == Ok([0x44, 0x52, 0x50, 0x52, 1, 0] + EncodeValue(v))
    ensures |message| <= 0xFFFF_FFFF ==>
              EncodeError(message) == Ok([0x44, 0x52, 0x50, 0x52, 1, 1] + U32Bytes(|message|) + message)
  {
    hide LittleEndian, U32Bytes, EncodeValue;
    HeaderLayout(0, 0, 0);
    HeaderLayout(0, 0, 1);
    WordLayout(|message|);
    var header := [0x44, 0x52, 0x50, 0x52, 1, 1];
    assert header + (U32Bytes(|message|) + message) == header + U32Bytes(|message|) + message;
  }

  lemma HeaderLayout(method_: u64, argc: nat, tag: byte)
    ensures argc <= 0xFFFF_FFFF ==>
              RequestHeader(method_, argc) == [0x44, 0x52, 0x50, 0x43, 1] + U64Bytes(method_) + U32Bytes(argc)
    ensures ResponseHeader(tag) == [0x44, 0x52, 0x50, 0x52, 1, tag]
  {
    hide LittleEndian, U64Bytes;
    WordLayout(REQUEST_MAGIC);
    WordLayout(RESPONSE_MAGIC);
    WordLayout(method_);
    WordLayout(argc);
    assert U32Bytes(0x43505244) == [0x44, 0x52, 0x50, 0x43];
    assert U32Bytes(0x52505244) == [0x44, 0x52, 0x50, 0x52];
  }

  // -------- What the decoders accept, byte by byte --------

  lemma RequestAcceptedIff(r: Request, frame: seq<byte>)
    ensures TryDecodeRequest(frame) == Some(r) <==>
            && |r.args| <= 0xFFFF_FFFF && 17 <= |frame|
            && frame[..17] == [0x44, 0x52, 0x50, 0x43, 1] + U64Bytes(r.method_) + U32Bytes(|r.args|)
            && IsValues(r.args, frame[17..])
  {
    hide TryDecodeRequest, U64Bytes, U32Bytes, RequestHeader, IsValues;
    RequestDecodedIffInLanguage(r, frame);
    HeaderLayout(r.method_, |r.args|, 0);
  }

  lemma ResponseAcceptedIff(v: Value, message: seq<byte>, frame: seq<byte>)
    ensures TryDecodeResponse(frame) == Answer(v) <==>
            6 <= |frame| && frame[..6] == [0x44, 0x52, 0x50, 0x52, 1, 0] && IsValue(v, frame[6..])
    ensures TryDecodeResponse(frame) == RemoteError(message) <==>
            |message| <= 0xFFFF_FFFF
            && frame == [0x44, 0x52, 0x50, 0x52, 1, 1] + U32Bytes(|message|) + message
  {
    hide TryDecodeResponse, U32Bytes, ResponseHeader, IsValue, LittleEndian;
    ResponseDecodedIffInLanguage(Answer(v), frame);
    ResponseDecodedIffInLanguage(RemoteError(message), frame);
    HeaderLayout(0, 0, 0);
    HeaderLayout(0, 0, 1);
    WordLayout(|message|);
    var header := [0x44, 0x52, 0x50, 0x52, 1, 1];
    assert header + (U32Bytes(|message|) + message) == header + U32Bytes(|message|) + message;
  }

  // The spellings of one value: the bytes above, except that any non-zero byte means `true`.
  lemma SpellingLayout(v: Value, p: seq<byte>)
    ensures IsValue(v, p) <==>
            match v
            case Undefined => p == [0]
            case Signed(n) => p == [1] + U64Bytes(if n >= 0 then n else n + 0x1_0000_0000_0000_0000)
            case Unsigned(n) => p == [2] + U64Bytes(n)
            case Real(bits) => p == [3] + U64Bytes(bits)
            case Boolean(state) => |p| == 2 && p[0] == 4 && (p[1] != 0 <==> state)
            case Text(text, borrowed) =>
              !borrowed && |text| <= 0xFFFF_FFFF && p == [5] + U32Bytes(|text|) + text
  {
    hide EncodeValue;
    if Encodable(v) {
      ValueLayout(v);
    }
  }

  // A byte above the six kinds makes the reader fail.
  lemma UnknownKindFails(kind: byte, s: seq<byte>)
    requires kind > 5
    ensures !ReadValue(Cursor([kind] + s, true)).1.valid
  {
    ReadsByte(kind, s);
  }

  // -------- Which error an encoder reports --------

  // The first argument that does not fit decides: a string over the limit, or a total over the limit.
  lemma {:induction false} SizeErrors(size: nat, vs: seq<Value>, k: nat)
    requires size <= SIZE_MAX && k <= |vs| && forall v <- vs[..k] :: Encodable(v)
    ensures size + |EncodeValues(vs[..k])| > 0xFFFF_FFFF_FFFF_FFFF ==> FrameSize(size, vs) == Err(FrameSizeOverflow)
    ensures size + |EncodeValues(vs[..k])| <= 0xFFFF_FFFF_FFFF_FFFF && k < |vs| && !Encodable(vs[k]) ==>
              FrameSize(size, vs) == Err(StringTooLarge)
    decreases |vs|
  {
    if k == 0 {
      assert vs[..0] == [];
    } else {
      var one := |EncodeValue(vs[0])|;
      assert vs[0] in vs[..k] && vs[..k][1..] == vs[1..][..k - 1];
      if one <= SIZE_MAX - size {
        SizeErrors(size + one, vs[1..], k - 1);
      }
    }
  }

  lemma RequestErrors(method_: u64, args: seq<Value>, k: nat)
    requires k <= |args| && forall v <- args[..k] :: Encodable(v)
    ensures |args| > 0xFFFF_FFFF ==> EncodeRequest(method_, args) == Err(TooManyArguments)
    ensures |args| <= 0xFFFF_FFFF && 17 + |EncodeValues(args[..k])| > 0xFFFF_FFFF_FFFF_FFFF ==>
              EncodeRequest(method_, args) == Err(FrameSizeOverflow)
    ensures |args| <= 0xFFFF_FFFF && 17 + |EncodeValues(args[..k])| <= 0xFFFF_FFFF_FFFF_FFFF
            && k < |args| && !Encodable(args[k]) ==>
              EncodeRequest(method_, args) == Err(StringTooLarge)
  {
    SizeErrors(REQUEST_HEADER, args, k);
  }
}
