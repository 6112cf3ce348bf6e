/**
 The frame languages, stated without reading a byte, and what follows for the codec: the decoders
 accept exactly these languages, invert the encoders both ways, and are prefix-free.
 */
module WireProofs {
  import opened Wrappers
  import opened Words
  import opened Wire

  // -------- The languages --------

  // The bytes of one decoded value; any non-zero byte stands for `true`.
  ghost predicate IsValue(v: Value, p: seq<byte>) {
    match v
    case Boolean(state) => |p| == 2 && p[0] == 4 && (p[1] != 0 <==> state)
    case Text(_, borrowed) => !borrowed && Encodable(v) && p == EncodeValue(v)
    case _ => p == EncodeValue(v)
  }

  ghost predicate IsValues(vs: seq<Value>, p: seq<byte>) {
    if vs == [] then p == []
    else
      && Encodable(vs[0])
      && var k := |EncodeValue(vs[0])|;
      && k <= |p| && IsValue(vs[0], p[..k]) && IsValues(vs[1..], p[k..])
  }

  ghost predicate IsRequest(r: Request, frame: seq<byte>) {
    && |r.args| <= U32_MAX
    && REQUEST_HEADER <= |frame|
    && frame[..REQUEST_HEADER] == RequestHeader(r.method_, |r.args|)
    && IsValues(r.args, frame[REQUEST_HEADER..])
  }

  ghost predicate IsResponse(r: Response, frame: seq<byte>) {
    match r
    case Answer(v) => 6 <= |frame| && frame[..6] == ResponseHeader(0) && IsValue(v, frame[6..])
    case RemoteError(m) => |m| <= U32_MAX && frame == ResponseHeader(1) + EncodeRaw(m)
    case Malformed => false
  }

  // -------- Integers --------

  lemma ReadsInteger(n: nat, width: nat, s: seq<byte>)
    requires n < Pow2(8 * width)
    ensures ReadInteger(Cursor(LittleEndian(n, width) + s, true), width) == (n, Cursor(s, true))
  {
    ReadWritten(n, width);
    assert (LittleEndian(n, width) + s)[..width] == LittleEndian(n, width);
    assert (LittleEndian(n, width) + s)[width..] == s;
  }

  lemma ReadIntegerMeaning(c: Cursor, width: nat)
    requires ReadInteger(c, width).1.valid
    ensures var (n, c1) := ReadInteger(c, width);
            && c.valid && width <= |c.rest| && c1.rest == c.rest[width..]
            && n < Pow2(8 * width) && c.rest == LittleEndian(n, width) + c1.rest
  {
    FromBound(c.rest[..width]);
    WriteRead(c.rest[..width]);
    assert c.rest == c.rest[..width] + c.rest[width..];
  }

  lemma ReadsByte(b: byte, s: seq<byte>)
    ensures ReadInteger(Cursor([b] + s, true), 1) == (b as nat, Cursor(s, true))
  {
    WidthBounds();
    ReadsInteger(b, 1, s);
    assert LittleEndian(b, 1) == [b];
  }

  lemma ReadByteMeaning(c: Cursor)
    requires ReadInteger(c, 1).1.valid
    ensures var (n, c1) := ReadInteger(c, 1);
            c.valid && c.rest != [] && n == c.rest[0] && c1.rest == c.rest[1..] && c.rest == [n] + c1.rest
  {
    ReadIntegerMeaning(c, 1);
    WidthBounds();
    var n := ReadInteger(c, 1).0;
    assert LittleEndian(n, 1) == [n];
  }

  lemma ReadsRaw(text: seq<byte>, s: seq<byte>)
    requires |text| <= U32_MAX
    ensures ReadRaw(Cursor(EncodeRaw(text) + s, true)) == (text, Cursor(s, true))
  {
    hide ReadInteger, FromLittleEndian, Pow2, LittleEndian;
    WidthBounds();
    assert EncodeRaw(text) + s == LittleEndian(|text|, 4) + (text + s);
    ReadsInteger(|text|, 4, text + s);
    assert (text + s)[..|text|] == text && (text + s)[|text|..] == s;
  }

  lemma ReadRawMeaning(c: Cursor)
    requires ReadRaw(c).1.valid
    ensures var (text, c1) := ReadRaw(c);
            && c.valid && |text| <= U32_MAX && 4 + |text| <= |c.rest|
            && c.rest[..4 + |text|] == EncodeRaw(text) && c1.rest == c.rest[4 + |text|..]
  {
    hide ReadInteger, FromLittleEndian, Pow2, LittleEndian;
    WidthBounds();
    ReadIntegerMeaning(c, 4);
    var (text, _) := ReadRaw(c);
    assert c.rest[..4 + |text|] == c.rest[..4] + c.rest[4..][..|text|];
  }

  // -------- Values --------

  lemma ReadsWord(kind: byte, n: u64, s: seq<byte>)
    ensures ReadInteger(Cursor([kind] + LittleEndian(n, 8) + s, true), 1)
            == (kind as nat, Cursor(LittleEndian(n, 8) + s, true))
    ensures ReadWord(Cursor(LittleEndian(n, 8) + s, true)) == (n, Cursor(s, true))
  {
    hide ReadInteger, FromLittleEndian, LittleEndian;
    WidthBounds();
    assert [kind] + LittleEndian(n, 8) + s == [kind] + (LittleEndian(n, 8) + s);
    ReadsByte(kind, LittleEndian(n, 8) + s);
    ReadsInteger(n, 8, s);
  }

  // Whatever follows, reading the bytes of a value yields it and leaves what follows.
  lemma ReadsValue(v: Value, p: seq<byte>, s: seq<byte>)
    requires IsValue(v, p)
    ensures ReadValue(Cursor(p + s, true)) == (v, Cursor(s, true))
  {
    hide ReadInteger, ReadWord, ReadRaw, FromLittleEndian, LittleEndian, EncodeRaw;
    match v {
      case Undefined => ReadsByte(0, s);
      case Signed(number) =>
        ReadsWord(1, ToBits(number), s);
        BitsInverse(number, 0);
      case Unsigned(magnitude) => ReadsWord(2, magnitude, s);
      case Real(bits) => ReadsWord(3, bits, s);
      case Boolean(state) =>
        assert p + s == [4] + ([p[1]] + s);
        ReadsByte(4, [p[1]] + s);
        ReadsByte(p[1], s);
      case Text(text, _) =>
        assert p + s == [5] + (EncodeRaw(text) + s);
        ReadsByte(5, EncodeRaw(text) + s);
        ReadsRaw(text, s);
    }
  }

  lemma ReadWordMeaning(c: Cursor)
    requires ReadWord(c).1.valid
    ensures var (n, c1) := ReadWord(c);
            && c.valid && 8 <= |c.rest| && c.rest[..8] == LittleEndian(n, 8) && c1.rest == c.rest[8..]
            && c.rest == LittleEndian(n, 8) + c1.rest
  {
    ReadIntegerMeaning(c, 8);
  }

  // A failed reader stays failed.
  lemma FailureSticks(c: Cursor)
    ensures !c.valid ==> !ReadInteger(c, 1).1.valid && !ReadWord(c).1.valid && !ReadRaw(c).1.valid
  {
  }

  // A successful read consumed exactly the bytes of the value it returned.
  lemma ReadValueMeaning(c: Cursor)
    requires ReadValue(c).1.valid
    ensures var (v, c1) := ReadValue(c);
            && c.valid && Encodable(v) && Owned(v) == v
            && var k := |EncodeValue(v)|;
            && k <= |c.rest| && IsValue(v, c.rest[..k]) && c1.rest == c.rest[k..]
  {
    hide ReadInteger, ReadWord, ReadRaw, FromLittleEndian, LittleEndian, EncodeRaw;
    var (kind, c1) := ReadInteger(c, 1);
    FailureSticks(c1);
    ReadByteMeaning(c);
    var (v, c2) := ReadValue(c);
    match kind {
      case 0 => assert c.rest[..1] == [0];
      case 1 =>
        ReadWordMeaning(c1);
        BitsInverse(0, ReadWord(c1).0);
        assert c.rest[..9] == [1] + c1.rest[..8] && c.rest[9..] == c1.rest[8..];
      case 2 =>
        ReadWordMeaning(c1);
        assert c.rest[..9] == [2] + c1.rest[..8] && c.rest[9..] == c1.rest[8..];
      case 3 =>
        ReadWordMeaning(c1);
        assert c.rest[..9] == [3] + c1.rest[..8] && c.rest[9..] == c1.rest[8..];
      case 4 =>
        ReadByteMeaning(c1);
        assert c.rest[2..] == c1.rest[1..];
      case 5 =>
        ReadRawMeaning(c1);
        var k := 4 + |v.text|;
        assert c.rest[..1 + k] == [5] + c1.rest[..k] && c.rest[1 + k..] == c1.rest[k..];
      case _ =>
    }
  }

  lemma {:induction false} ReadsValues(vs: seq<Value>, p: seq<byte>, s: seq<byte>)
    requires IsValues(vs, p)
    ensures ReadValues(Cursor(p + s, true), |vs|) == (Some(vs), Cursor(s, true))
  {
    hide ReadValue, IsValue, EncodeValue;
    if vs == [] {
      assert p + s == s;
    } else {
      var k := |EncodeValue(vs[0])|;
      assert p + s == p[..k] + (p[k..] + s);
      ReadsValue(vs[0], p[..k], p[k..] + s);
      ReadsValues(vs[1..], p[k..], s);
      assert vs == [vs[0]] + vs[1..];
    }
  }

  lemma {:induction false} ReadValuesMeaning(c: Cursor, count: nat)
    requires c.valid && ReadValues(c, count).0.Some?
    ensures var (vs, c1) := ReadValues(c, count);
            && c1.valid && |vs.value| == count && OwnedAll(vs.value) == vs.value
            && |c1.rest| + count <= |c.rest|
            && c1.rest == c.rest[|c.rest| - |c1.rest|..]
            && IsValues(vs.value, c.rest[..|c.rest| - |c1.rest|])
    decreases count
  {
    hide ReadValue, IsValue, EncodeValue;
    if count == 0 {
      assert c.rest[..0] == [];
    } else {
      var (v, c1) := ReadValue(c);
      ReadValueMeaning(c);
      var k := |EncodeValue(v)|;
      ReadValuesMeaning(c1, count - 1);
      var (vs, c2) := ReadValues(c1, count - 1);
      var m := |c1.rest| - |c2.rest|;
      assert c.rest[..k + m][..k] == c.rest[..k];
      assert c.rest[..k + m][k..] == c1.rest[..m];
      assert c.rest[k + m..] == c1.rest[m..];
      assert ([v] + vs.value)[1..] == vs.value;
    }
  }

  // -------- The decoders accept exactly the languages --------

  lemma RequestHeaderMeaning(frame: seq<byte>, method_: u64, argc: nat, rest: seq<byte>)
    ensures ReadRequestHeader(frame) == Some((method_, argc, rest)) <==>
            argc <= U32_MAX && frame == RequestHeader(method_, argc) + rest
  {
    hide ReadInteger, FromLittleEndian, LittleEndian;
    WidthBounds();
    if argc <= U32_MAX && frame == RequestHeader(method_, argc) + rest {
      var tail := LittleEndian(method_, 8) + (LittleEndian(argc, 4) + rest);
      assert frame == LittleEndian(REQUEST_MAGIC, 4) + ([PROTOCOL_VERSION] + tail);
      ReadsInteger(REQUEST_MAGIC, 4, [PROTOCOL_VERSION] + tail);
      ReadsByte(PROTOCOL_VERSION, tail);
      ReadsInteger(method_, 8, LittleEndian(argc, 4) + rest);
      ReadsInteger(argc, 4, rest);
    }
    if ReadRequestHeader(frame) == Some((method_, argc, rest)) {
      RequestHeaderShape(frame);
    }
  }

  lemma Regroup(a: seq<byte>, b: seq<byte>, c: seq<byte>, d: seq<byte>, e: seq<byte>)
    ensures a + (b + (c + (d + e))) == a + b + c + d + e
  {
  }

  lemma RequestHeaderShape(frame: seq<byte>)
    requires ReadRequestHeader(frame).Some?
    ensures var (method_, argc, rest) := ReadRequestHeader(frame).value;
            argc <= U32_MAX && frame == RequestHeader(method_, argc) + rest
  {
    hide ReadInteger, ReadWord, FromLittleEndian, LittleEndian;
    WidthBounds();
    var (magic, c1) := ReadInteger(Cursor(frame, true), 4);
    var (version, c2) := ReadInteger(c1, 1);
    var (m, c3) := ReadWord(c2);
    ReadIntegerMeaning(c3, 4);
    ReadWordMeaning(c2);
    ReadByteMeaning(c1);
    ReadIntegerMeaning(Cursor(frame, true), 4);
    var argc := ReadInteger(c3, 4).0;
    Regroup(LittleEndian(magic, 4), [version], LittleEndian(m, 8), LittleEndian(argc, 4), ReadInteger(c3, 4).1.rest);
  }

  lemma ArgumentsMeaning(bytes: seq<byte>, argc: nat, vs: seq<Value>)
    ensures ReadArguments(bytes, argc) == Some(vs) <==> |vs| == argc && IsValues(vs, bytes)
    ensures ReadArguments(bytes, argc) == Some(vs) ==> argc <= |bytes|
  {
    hide ReadValue, IsValue, EncodeValue;
    if ReadArguments(bytes, argc) == Some(vs) {
      ReadValuesMeaning(Cursor(bytes, true), argc);
      assert bytes[..|bytes|] == bytes;
    }
    if |vs| == argc && IsValues(vs, bytes) {
      ReadsValues(vs, bytes, []);
      assert bytes + [] == bytes;
    }
  }

  lemma RequestDecodedIffInLanguage(r: Request, frame: seq<byte>)
    ensures TryDecodeRequest(frame) == Some(r) <==> IsRequest(r, frame)
  {
    hide ReadRequestHeader, ReadArguments, IsValues, RequestHeader;
    if IsRequest(r, frame) {
      var p := frame[REQUEST_HEADER..];
      assert frame == frame[..REQUEST_HEADER] + p;
      RequestHeaderMeaning(frame, r.method_, |r.args|, p);
      ArgumentsMeaning(p, |r.args|, r.args);
    }
    if TryDecodeRequest(frame) == Some(r) {
      var (method_, argc, p) := ReadRequestHeader(frame).value;
      RequestHeaderMeaning(frame, method_, argc, p);
      ArgumentsMeaning(p, argc, r.args);
      assert frame[..REQUEST_HEADER] == RequestHeader(method_, argc) && frame[REQUEST_HEADER..] == p;
    }
  }

  lemma ResponseHeaderMeaning(frame: seq<byte>, tag: nat, rest: seq<byte>)
    ensures ReadResponseHeader(frame) == Some((tag, rest)) <==> tag <= 1 && frame == ResponseHeader(tag) + rest
  {
    hide ReadInteger, FromLittleEndian, LittleEndian;
    WidthBounds();
    if tag <= 1 && frame == ResponseHeader(tag) + rest {
      Regroup(LittleEndian(RESPONSE_MAGIC, 4), [PROTOCOL_VERSION], [tag], [], rest);
      assert ResponseHeader(tag) == LittleEndian(RESPONSE_MAGIC, 4) + [PROTOCOL_VERSION] + [tag] + [];
      assert [] + rest == rest;
      ReadsInteger(RESPONSE_MAGIC, 4, [PROTOCOL_VERSION] + ([tag] + rest));
      ReadsByte(PROTOCOL_VERSION, [tag] + rest);
      ReadsByte(tag, rest);
    }
    if ReadResponseHeader(frame) == Some((tag, rest)) {
      ResponseHeaderShape(frame);
    }
  }

  lemma ResponseHeaderShape(frame: seq<byte>)
    requires ReadResponseHeader(frame).Some?
    ensures var (tag, rest) := ReadResponseHeader(frame).value;
            tag <= 1 && frame == ResponseHeader(tag) + rest
  {
    hide ReadInteger, FromLittleEndian, LittleEndian;
    var (magic, c1) := ReadInteger(Cursor(frame, true), 4);
    var (version, c2) := ReadInteger(c1, 1);
    ReadByteMeaning(c2);
    ReadByteMeaning(c1);
    ReadIntegerMeaning(Cursor(frame, true), 4);
    var (tag, rest) := (c2.rest[0], c2.rest[1..]);
    Regroup(LittleEndian(magic, 4), [version], [tag], [], rest);
    assert [] + rest == rest;
    assert ResponseHeader(tag) == LittleEndian(magic, 4) + [version] + [tag] + [];
  }

  lemma ResponseDecodedIffInLanguage(r: Response, frame: seq<byte>)
    requires !r.Malformed?
    ensures TryDecodeResponse(frame) == r <==> IsResponse(r, frame)
  {
    hide ReadResponseHeader, ReadValue, ReadRaw, IsValue, ResponseHeader;
    if IsResponse(r, frame) {
      match r {
        case Answer(v) =>
          var p := frame[6..];
          assert frame == frame[..6] + p && p + [] == p;
          ResponseHeaderMeaning(frame, 0, p);
          ReadsValue(v, p, []);
        case RemoteError(m) =>
          ResponseHeaderMeaning(frame, 1, EncodeRaw(m));
          assert EncodeRaw(m) + [] == EncodeRaw(m);
          ReadsRaw(m, []);
      }
    }
    if TryDecodeResponse(frame) == r {
      var (tag, p) := ReadResponseHeader(frame).value;
      ResponseHeaderMeaning(frame, tag, p);
      assert frame[..6] == ResponseHeader(tag) && frame[6..] == p;
      assert p[..|p|] == p;
      if r.Answer? {
        ReadValueMeaning(Cursor(p, true));
      } else {
        ReadRawMeaning(Cursor(p, true));
      }
    }
  }

  // -------- Prefix freedom --------

  // No accepted request frame is a strict prefix of another.
  lemma RequestsPrefixFree(frame: seq<byte>, more: seq<byte>)
    requires TryDecodeRequest(frame).Some? && more != []
    ensures TryDecodeRequest(frame + more).None?
  {
    hide ReadRequestHeader, RequestHeader, IsValues, ReadValues;
    var r := TryDecodeRequest(frame).value;
    var (method_, argc, p) := ReadRequestHeader(frame).value;
    RequestHeaderMeaning(frame, method_, argc, p);
    ArgumentsMeaning(p, argc, r.args);
    assert frame + more == RequestHeader(method_, argc) + (p + more);
    RequestHeaderMeaning(frame + more, method_, argc, p + more);
    ReadsValues(r.args, p, more);
  }

  lemma ResponsesPrefixFree(frame: seq<byte>, more: seq<byte>)
    requires !TryDecodeResponse(frame).Malformed? && more != []
    ensures TryDecodeResponse(frame + more).Malformed?
  {
    hide ReadResponseHeader, ReadValue, ReadRaw, IsValue, ResponseHeader;
    var r := TryDecodeResponse(frame);
    ResponseDecodedIffInLanguage(r, frame);
    var (tag, p) := ReadResponseHeader(frame).value;
    ResponseHeaderMeaning(frame, tag, p);
    assert frame + more == ResponseHeader(tag) + (p + more) && frame[6..] == p;
    ResponseHeaderMeaning(frame + more, tag, p + more);
    match r {
      case Answer(v) => ReadsValue(v, p, more);
      case RemoteError(m) => ReadsRaw(m, more);
    }
  }

  // -------- Inversion --------

  lemma EncodedIsValue(v: Value)
    requires Encodable(v)
    ensures IsValue(Owned(v), EncodeValue(v)) && EncodeValue(Owned(v)) == EncodeValue(v)
  {
  }

  lemma {:induction false} EncodedAreValues(vs: seq<Value>)
    requires forall v <- vs :: Encodable(v)
    ensures IsValues(OwnedAll(vs), EncodeValues(vs))
  {
    if vs != [] {
      EncodedIsValue(vs[0]);
      EncodedAreValues(vs[1..]);
      var (head, tail) := (EncodeValue(vs[0]), EncodeValues(vs[1..]));
      assert (head + tail)[..|head|] == head && (head + tail)[|head|..] == tail;
      assert OwnedAll(vs)[1..] == OwnedAll(vs[1..]);
    }
  }

  // Decoding what was encoded gives the arguments back, with owned strings.
  lemma RequestRoundTrip(method_: u64, args: seq<Value>)
    requires EncodeRequest(method_, args).Ok?
    ensures TryDecodeRequest(EncodeRequest(method_, args).value) == Some(Request(method_, OwnedAll(args)))
  {
    FrameSizeExact(REQUEST_HEADER, args);
    EncodedAreValues(args);
    var (header, p) := (RequestHeader(method_, |args|), EncodeValues(args));
    assert (header + p)[..REQUEST_HEADER] == header && (header + p)[REQUEST_HEADER..] == p;
    RequestDecodedIffInLanguage(Request(method_, OwnedAll(args)), header + p);
  }

  lemma ResponseRoundTrip(v: Value, message: seq<byte>)
    ensures EncodeResponse(v).Ok? <==> Encodable(v)
    ensures Encodable(v) ==> TryDecodeResponse(EncodeResponse(v).value) == Answer(Owned(v))
    ensures EncodeError(message).Ok? <==> |message| <= U32_MAX
    ensures |message| <= U32_MAX ==> TryDecodeResponse(EncodeError(message).value) == RemoteError(message)
  {
    if Encodable(v) {
      EncodedIsValue(v);
      var frame := ResponseHeader(0) + EncodeValue(v);
      assert frame[..6] == ResponseHeader(0) && frame[6..] == EncodeValue(v);
      ResponseDecodedIffInLanguage(Answer(Owned(v)), frame);
    }
    if |message| <= U32_MAX {
      ResponseDecodedIffInLanguage(RemoteError(message), EncodeError(message).value);
    }
  }

  // The argument, if any, whose boolean payload is the byte at offset `i` of the encoded arguments.
  ghost predicate BooleanPayload(vs: seq<Value>, i: nat)
    requires forall v <- vs :: Encodable(v)
  {
    vs != []
    && var k := |EncodeValue(vs[0])|;
       if i < k then vs[0].Boolean? && i == 1 else BooleanPayload(vs[1..], i - k)
  }

  lemma ValueReencodes(v: Value, p: seq<byte>)
    requires Encodable(v) && IsValue(v, p)
    ensures |EncodeValue(v)| == |p|
    ensures forall i | 0 <= i < |p| && EncodeValue(v)[i] != p[i] ::
              v.Boolean? && i == 1 && p[i] > 1 && EncodeValue(v)[i] == 1
  {
  }

  lemma {:induction false} ValuesResize(vs: seq<Value>, p: seq<byte>)
    requires IsValues(vs, p)
    ensures forall v <- vs :: Encodable(v)
    ensures |EncodeValues(vs)| == |p|
  {
    if vs != [] {
      hide EncodeValue, IsValue, Encodable;
      ValueReencodes(vs[0], p[..|EncodeValue(vs[0])|]);
      ValuesResize(vs[1..], p[|EncodeValue(vs[0])|..]);
      assert forall v <- vs :: v == vs[0] || v in vs[1..];
    }
  }

  lemma {:induction false} ValuesReencodeAt(vs: seq<Value>, p: seq<byte>, i: nat)
    requires IsValues(vs, p) && i < |p| && forall v <- vs :: Encodable(v)
    requires |EncodeValues(vs)| == |p| && EncodeValues(vs)[i] != p[i]
    ensures BooleanPayload(vs, i) && p[i] > 1 && EncodeValues(vs)[i] == 1
  {
    hide EncodeValue, IsValue;
    var k := |EncodeValue(vs[0])|;
    ValueReencodes(vs[0], p[..k]);
    if i < k {
      assert p[..k][i] == p[i];
    } else {
      assert p[k..][i - k] == p[i];
      ValuesResize(vs[1..], p[k..]);
      ValuesReencodeAt(vs[1..], p[k..], i - k);
    }
  }

  lemma ValuesReencode(vs: seq<Value>, p: seq<byte>)
    requires IsValues(vs, p)
    ensures forall v <- vs :: Encodable(v)
    ensures |EncodeValues(vs)| == |p|
    ensures forall i | 0 <= i < |p| && EncodeValues(vs)[i] != p[i] ::
              BooleanPayload(vs, i) && p[i] > 1 && EncodeValues(vs)[i] == 1
  {
    hide EncodeValue, IsValue, IsValues, EncodeValues, BooleanPayload;
    ValuesResize(vs, p);
    forall i | 0 <= i < |p| && EncodeValues(vs)[i] != p[i]
      ensures BooleanPayload(vs, i) && p[i] > 1 && EncodeValues(vs)[i] == 1
    {
      ValuesReencodeAt(vs, p, i);
    }
  }

  // Re-encoding an accepted request gives a frame of the same length that decodes to the same request
  // and differs from it only where a boolean payload byte was above one.
  lemma RequestReencodes(frame: seq<byte>, r: Request)
    requires TryDecodeRequest(frame) == Some(r) && |frame| <= SIZE_MAX
    ensures EncodeRequest(r.method_, r.args).Ok?
    ensures |EncodeRequest(r.method_, r.args).value| == |frame|
    ensures TryDecodeRequest(EncodeRequest(r.method_, r.args).value) == Some(r)
    ensures forall v <- r.args :: Encodable(v)
    ensures forall i | 0 <= i < |frame| && EncodeRequest(r.method_, r.args).value[i] != frame[i] ::
              && i >= REQUEST_HEADER && BooleanPayload(r.args, i - REQUEST_HEADER)
              && frame[i] > 1 && EncodeRequest(r.method_, r.args).value[i] == 1
  {
    hide ReadRequestHeader, RequestHeader, IsValues, ReadValues, EncodeValue, BooleanPayload, EncodeValues;
    var (method_, argc, p) := ReadRequestHeader(frame).value;
    RequestHeaderMeaning(frame, method_, argc, p);
    ArgumentsMeaning(p, argc, r.args);
    ValuesReencode(r.args, p);
    FrameSizeExact(REQUEST_HEADER, r.args);
    RequestRoundTrip(r.method_, r.args);
    ReadValuesMeaning(Cursor(p, true), argc);
  }

  // The same for responses: only the payload byte of a boolean answer can change.
  lemma ResponseReencodes(frame: seq<byte>)
    ensures match TryDecodeResponse(frame)
            case Malformed => true
            case RemoteError(m) => EncodeError(m) == Ok(frame)
            case Answer(v) =>
              && EncodeResponse(v).Ok?
              && var again := EncodeResponse(v).value;
              && |again| == |frame| && TryDecodeResponse(again) == Answer(v)
              && forall i | 0 <= i < |frame| && again[i] != frame[i] ::
                   v.Boolean? && i == 7 && frame[i] > 1 && again[i] == 1
  {
    hide ReadResponseHeader, ReadValue, ReadRaw, IsValue, EncodeValue, ResponseHeader;
    var r := TryDecodeResponse(frame);
    if !r.Malformed? {
      ResponseDecodedIffInLanguage(r, frame);
    }
    if r.Answer? {
      var (v, p) := (r.value, frame[6..]);
      var (tag, rest) := ReadResponseHeader(frame).value;
      ResponseHeaderMeaning(frame, tag, rest);
      ReadValueMeaning(Cursor(rest, true));
      ValueReencodes(v, p);
      ResponseRoundTrip(v, []);
      assert frame == ResponseHeader(0) + p;
    }
  }

  // -------- The count guard --------

  // The decoder without `argc > remaining`.
  function UnguardedDecode(frame: seq<byte>): Option<Request> {
    var header := ReadRequestHeader(frame);
    if header.None? then None else
    var (method_, argc, bytes) := header.value;
    var args := ReadArguments(bytes, argc);
    if args.None? then None else Some(Request(method_, args.value))
  }

  // The guard rejects nothing that would have been accepted: every argument takes at least one byte.
  lemma GuardRejectsNothing(frame: seq<byte>)
    ensures TryDecodeRequest(frame) == UnguardedDecode(frame)
    ensures TryDecodeRequest(frame).Some? ==>
              REQUEST_HEADER + |TryDecodeRequest(frame).value.args| <= |frame|
  {
    hide ReadRequestHeader, RequestHeader, ReadArguments;
    if UnguardedDecode(frame).Some? {
      var (method_, argc, bytes) := ReadRequestHeader(frame).value;
      RequestHeaderMeaning(frame, method_, argc, bytes);
      ArgumentsMeaning(bytes, argc, UnguardedDecode(frame).value.args);
    }
  }
}
