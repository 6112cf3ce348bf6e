/**
 The writer, the reader and the frame encoders and decoders as the program runs them: a growing
 buffer, a cursor that fails stickily, and results staged before an output argument is touched.
 */
module Codec {
  import opened Wrappers
  import opened Words
  import opened Wire

  // -------- Writing --------

  class Writer {
    var data: seq<byte>
    const reserved: nat

    constructor (capacity: nat)
      ensures data == [] && reserved == capacity
    {
      data := [];
      reserved := capacity;
    }

    method Integer(number: nat, width: nat)
      modifies this
      ensures data == old(data) + LittleEndian(number, width)
    {
      var i := 0;
      while i < width
        invariant 0 <= i <= width
        invariant data == old(data) + LittleEndian(number, width)[..i]
      {
        ByteByShift(number, width, i);
        data := data + [ShiftRight(number, 8 * i) % 256];
        i := i + 1;
      }
      assert LittleEndian(number, width)[..width] == LittleEndian(number, width);
    }

    method Raw(text: seq<byte>) returns (error: Option<ProtocolError>)
      modifies this
      ensures error == if |text| > U32_MAX then Some(StringTooLarge) else None
      ensures data == if |text| > U32_MAX then old(data) else old(data) + EncodeRaw(text)
    {
      if |text| > U32_MAX {
        return Some(StringTooLarge);
      }
      Integer(|text|, 4);
      if |text| != 0 {
        data := data + text;
      }
      return None;
    }

    method WriteValue(v: Value) returns (error: Option<ProtocolError>)
      modifies this
      ensures error.None? <==> Encodable(v)
      ensures Encodable(v) ==> data == old(data) + EncodeValue(v)
    {
      hide LittleEndian, EncodeRaw;
      error := None;
      match v {
        case Undefined =>
          WriteByte(0);
        case Signed(number) => WriteWord(1, ToBits(number));
        case Unsigned(magnitude) => WriteWord(2, magnitude);
        case Real(bits) => WriteWord(3, bits);
        case Boolean(state) =>
          WriteByte(4);
          WriteByte(if state then 1 else 0);
        case Text(text, _) =>
          WriteByte(5);
          error := Raw(text);
      }
    }

    method WriteWord(kind: byte, number: u64)
      modifies this
      ensures data == old(data) + ([kind] + LittleEndian(number, 8))
    {
      WriteByte(kind);
      Integer(number, 8);
    }

    method WriteByte(b: byte)
      modifies this
      ensures data == old(data) + [b]
    {
      Integer(b, 1);
      assert LittleEndian(b, 1) == [b];
    }
  }

  // `reserved` is the capacity asked for, which a request fills exactly.
  method BuildRequest(method_: u64, args: seq<Value>) returns (r: Result<seq<byte>, ProtocolError>, reserved: nat)
    ensures r == EncodeRequest(method_, args)
    ensures r.Ok? ==> reserved == |r.value| <= SIZE_MAX
  {
    hide EncodeValue, EncodedSize, RequestHeader;
    reserved := 0;
    if |args| > U32_MAX {
      return Err(TooManyArguments), reserved;
    }
    var frameSize: nat := REQUEST_HEADER;
    var i := 0;
    while i < |args|
      invariant 0 <= i <= |args| && frameSize <= SIZE_MAX
      invariant FrameSize(frameSize, args[i..]) == FrameSize(REQUEST_HEADER, args)
    {
      assert args[i..][1..] == args[i + 1..];
      var one := EncodedSize(args[i]);
      if one.Err? {
        return Err(one.error), reserved;
      }
      var total := CheckedAdd(frameSize, one.value);
      if total.Err? {
        return Err(total.error), reserved;
      }
      frameSize := total.value;
      i := i + 1;
    }
    FrameSizeExact(REQUEST_HEADER, args);
    var out := new Writer(frameSize);
    reserved := frameSize;
    WriteHeader(out, method_, |args|);
    WriteArguments(out, args);
    r := Ok(out.data);
  }

  method WriteHeader(out: Writer, method_: u64, argc: u32)
    requires out.data == []
    modifies out
    ensures out.data == RequestHeader(method_, argc)
  {
    out.Integer(REQUEST_MAGIC, 4);
    out.WriteByte(PROTOCOL_VERSION);
    out.Integer(method_, 8);
    out.Integer(argc, 4);
  }

  method WriteArguments(out: Writer, args: seq<Value>)
    requires forall v <- args :: Encodable(v)
    modifies out
    ensures out.data == old(out.data) + EncodeValues(args)
  {
    hide EncodeValue;
    var i := 0;
    while i < |args|
      invariant 0 <= i <= |args|
      invariant out.data + EncodeValues(args[i..]) == old(out.data) + EncodeValues(args)
    {
      assert args[i..][1..] == args[i + 1..];
      var error := out.WriteValue(args[i]);
      i := i + 1;
    }
  }

  // One byte more than a response needs is reserved.
  method BuildResponse(v: Value) returns (r: Result<seq<byte>, ProtocolError>, reserved: nat)
    ensures r == EncodeResponse(v)
    ensures r.Ok? ==> reserved == |r.value| + 1
  {
    hide EncodeValue, EncodedSize;
    var size := EncodedSize(v);
    if size.Err? {
      return Err(size.error), 0;
    }
    reserved := 7 + size.value;
    var out := new Writer(reserved);
    out.Integer(RESPONSE_MAGIC, 4);
    out.WriteByte(PROTOCOL_VERSION);
    out.WriteByte(0);
    assert out.data == ResponseHeader(0);
    var error := out.WriteValue(v);
    r := Ok(out.data);
  }

  method BuildError(message: seq<byte>) returns (r: Result<seq<byte>, ProtocolError>, reserved: nat)
    ensures r == EncodeError(message)
    ensures r.Ok? ==> reserved == |r.value|
  {
    if |message| > U32_MAX {
      return Err(ErrorTooLarge), 0;
    }
    reserved := 10 + |message|;
    var out := new Writer(reserved);
    out.Integer(RESPONSE_MAGIC, 4);
    out.WriteByte(PROTOCOL_VERSION);
    out.WriteByte(1);
    assert out.data == ResponseHeader(1);
    var error := out.Raw(message);
    r := Ok(out.data);
  }

  // -------- Reading --------

  class Reader {
    const data: seq<byte>
    var current: nat
    var remaining: nat
    var valid: bool

    ghost predicate Valid()
      reads this
    {
      current + remaining == |data|
    }

    ghost function Model(): Cursor
      requires Valid()
      reads this
    {
      Cursor(data[current..], valid)
    }

    // Nothing failed and nothing is left.
    predicate AtEnd()
      requires Valid()
      reads this
      ensures AtEnd() <==> Model().valid && Model().rest == []
    {
      valid && remaining == 0
    }

    constructor (frame: seq<byte>)
      ensures Valid() && data == frame && current == 0 && Model() == Cursor(frame, true)
    {
      data := frame;
      current, remaining, valid := 0, |frame|, true;
    }

    method Require(size: nat) returns (ok: bool)
      requires Valid()
      modifies `valid
      ensures ok == valid == (old(valid) && size <= remaining)
    {
      if !valid || size > remaining {
        valid := false;
        return false;
      }
      return true;
    }

    method Integer(width: nat) returns (result: nat)
      requires Valid()
      modifies `current, `remaining, `valid
      ensures Valid() && (result, Model()) == ReadInteger(old(Model()), width)
    {
      result := 0;
      ghost var bytes := data[current..];
      var ok := Require(width);
      if !ok {
        return;
      }
      var i := 0;
      while i < width
        invariant 0 <= i <= width && result == FromLittleEndian(bytes[..i])
        invariant current == old(current) && remaining == old(remaining) && valid
      {
        FromBound(bytes[..i]);
        OrAbove(result, data[current + i], 8 * i);
        FromAppend(bytes[..i], bytes[i]);
        assert bytes[..i + 1] == bytes[..i] + [bytes[i]];
        result := Or(result, ShiftLeft(data[current + i], 8 * i));
        i := i + 1;
      }
      current := current + width;
      remaining := remaining - width;
    }

    method Raw() returns (result: seq<byte>)
      requires Valid()
      modifies `current, `remaining, `valid
      ensures Valid() && (result, Model()) == ReadRaw(old(Model()))
    {
      hide ReadInteger;
      var size := Integer(4);
      var ok := Require(size);
      if !ok {
        return [];
      }
      assert data[current..][..size] == data[current..current + size];
      assert data[current..][size..] == data[current + size..];
      result := data[current..current + size];
      current := current + size;
      remaining := remaining - size;
    }

    method Word() returns (result: u64)
      requires Valid()
      modifies `current, `remaining, `valid
      ensures Valid() && (result, Model()) == ReadWord(old(Model()))
    {
      ghost var expected := ReadWord(Model());
      result := Integer(8);
    }

    method DecodeValue() returns (v: Value)
      requires Valid()
      modifies `current, `remaining, `valid
      ensures Valid() && (v, Model()) == ReadValue(old(Model()))
    {
      var kind := Integer(1);
      match kind {
        case 0 => v := Undefined;
        case 1 =>
          var bits := Word();
          v := Signed(FromBits(bits));
        case 2 =>
          var number := Word();
          v := Unsigned(number);
        case 3 =>
          var bits := Word();
          v := Real(bits);
        case 4 =>
          var state := Integer(1);
          v := Boolean(state != 0);
        case 5 =>
          var text := Raw();
          v := Text(text, false);
        case _ =>
          valid := false;
          v := Undefined;
      }
    }
  }

  // The caller's request object, filled in only by a successful decode.
  class RequestBox {
    var request: Request

    constructor ()
      ensures request == Request(0, [])
    {
      request := Request(0, []);
    }
  }

  // `reserved` is what the argument vector is asked to hold before a single argument has been read.
  method DecodeRequest(frame: seq<byte>, box: RequestBox) returns (ok: bool, reserved: nat)
    modifies box
    ensures ok <==> TryDecodeRequest(frame).Some?
    ensures ok ==> box.request == TryDecodeRequest(frame).value
    ensures !ok ==> box.request == old(box.request)
    ensures reserved <= |frame|
  {
    hide ReadInteger, ReadWord, ReadValue, ReadRequestHeader, ReadArguments;
    reserved := 0;
    var input := new Reader(frame);
    var header := DecodeRequestHeader(input);
    if header.None? {
      return false, reserved;
    }
    var (method_, argc) := header.value;
    if argc > input.remaining {
      return false, reserved;
    }
    reserved := argc;
    assert reserved <= |input.data|;
    var args := DecodeArguments(input, argc);
    if args.None? {
      return false, reserved;
    }
    box.request := Request(method_, args.value);
    return true, reserved;
  }

  method DecodeRequestHeader(input: Reader) returns (header: Option<(u64, nat)>)
    requires input.Valid() && input.valid && input.current == 0
    modifies input
    ensures input.Valid()
    ensures match header
            case None => ReadRequestHeader(input.data) == None
            case Some((method_, argc)) =>
              input.valid && ReadRequestHeader(input.data) == Some((method_, argc, input.Model().rest))
  {
    hide ReadInteger, ReadWord;
    assert input.Model() == Cursor(input.data, true);
    var magic := input.Integer(4);
    if magic != REQUEST_MAGIC {
      return None;
    }
    var version := input.Integer(1);
    if version != PROTOCOL_VERSION {
      return None;
    }
    var method_ := input.Word();
    var argc := input.Integer(4);
    if !input.valid {
      return None;
    }
    return Some((method_, argc));
  }

  method DecodeArguments(input: Reader, argc: nat) returns (staged: Option<seq<Value>>)
    requires input.Valid() && input.valid
    modifies input
    ensures staged == ReadArguments(old(input.Model()).rest, argc)
  {
    hide ReadValue;
    ghost var start := input.Model();
    var args: seq<Value> := [];
    var i := 0;
    ContinuesEnds(start, argc, start, [], argc);
    while i < argc
      invariant 0 <= i <= argc && |args| == i && input.Valid() && input.valid
      invariant Continues(start, argc, args, input.Model(), argc - i)
    {
      ContinuesStep(start, argc, args, input.Model(), argc - i);
      var item := input.DecodeValue();
      if !input.valid {
        return None;
      }
      args := args + [item];
      i := i + 1;
    }
    ContinuesEnds(start, argc, input.Model(), args, 0);
    if !input.AtEnd() {
      return None;
    }
    return Some(args);
  }

  // Having read `args`, the whole read comes down to reading `left` more.
  ghost predicate Continues(start: Cursor, argc: nat, args: seq<Value>, now: Cursor, left: nat) {
    var (rest, c) := ReadValues(now, left);
    ReadValues(start, argc) == (if rest.Some? then Some(args + rest.value) else None, c)
  }

  lemma ContinuesEnds(start: Cursor, argc: nat, now: Cursor, args: seq<Value>, left: nat)
    ensures start == now && args == [] && left == argc ==> Continues(start, argc, args, now, left)
    ensures left == 0 && Continues(start, argc, args, now, left) ==> ReadValues(start, argc) == (Some(args), now)
  {
    assert args + [] == args;
    var (rest, _) := ReadValues(now, left);
    if rest.Some? {
      assert [] + rest.value == rest.value;
    }
  }

  lemma ContinuesStep(start: Cursor, argc: nat, args: seq<Value>, now: Cursor, left: nat)
    requires left > 0 && Continues(start, argc, args, now, left)
    ensures var (v, next) := ReadValue(now);
            if next.valid then Continues(start, argc, args + [v], next, left - 1)
            else ReadValues(start, argc).0.None?
  {
    hide ReadValue;
    var (v, next) := ReadValue(now);
    if next.valid {
      var (rest, _) := ReadValues(next, left - 1);
      if rest.Some? {
        assert args + [v] + rest.value == args + ([v] + rest.value);
      }
    }
  }

  // The two output arguments of `try_decode_response`.
  class ResponseBox {
    var result: Value
    var error: seq<byte>

    constructor ()
      ensures result == Undefined && error == []
    {
      result, error := Undefined, [];
    }
  }

  datatype Status = StatusOk | StatusMalformed | StatusRemoteError

  method DecodeResponse(frame: seq<byte>, box: ResponseBox) returns (status: Status)
    modifies box
    ensures match TryDecodeResponse(frame)
            case Answer(v) => status == StatusOk && box.result == v && box.error == old(box.error)
            case RemoteError(m) => status == StatusRemoteError && box.error == m && box.result == old(box.result)
            case Malformed => status == StatusMalformed && box.result == old(box.result) && box.error == old(box.error)
  {
    hide ReadInteger, ReadRaw, ReadValue, ReadResponseHeader;
    var input := new Reader(frame);
    var tag := DecodeResponseHeader(input);
    if tag.None? {
      return StatusMalformed;
    }
    assert input.Model() == Cursor(ReadResponseHeader(frame).value.1, true);
    if tag.value == 1 {
      var message := input.Raw();
      if !input.AtEnd() {
        return StatusMalformed;
      }
      box.error := message;
      return StatusRemoteError;
    }
    var staged := input.DecodeValue();
    if !input.AtEnd() {
      return StatusMalformed;
    }
    box.result := staged;
    return StatusOk;
  }

  method DecodeResponseHeader(input: Reader) returns (header: Option<nat>)
    requires input.Valid() && input.valid && input.current == 0
    modifies input
    ensures input.Valid()
    ensures match header
            case None => ReadResponseHeader(input.data) == None
            case Some(tag) => input.valid && ReadResponseHeader(input.data) == Some((tag, input.Model().rest))
  {
    hide ReadInteger;
    assert input.Model() == Cursor(input.data, true);
    var magic := input.Integer(4);
    if magic != RESPONSE_MAGIC {
      return None;
    }
    var version := input.Integer(1);
    if version != PROTOCOL_VERSION {
      return None;
    }
    var tag := input.Integer(1);
    if !input.valid || tag > 1 {
      return None;
    }
    return Some(tag);
  }
}
