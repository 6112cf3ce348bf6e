/**
 Calls made through the loopback transport: convert, encode, dispatch, decode and convert back, and the
 proof that this is calling the first matching overload directly.
 */
module RemoteCall {
  import opened Wrappers
  import opened Words
  import opened Symbols
  import opened Wire
  import opened WireProofs
  import opened Codec
  import opened Overloads
  import opened Binder
  import opened Routes
  import opened Server

  // A typed argument and whether the caller passed it by constant reference.
  datatype Argument = Argument(native: Native, byReference: bool)

  datatype CallResult =
    | Got(native: Native)
    | Done
    | RemoteFailure(message: seq<byte>)
    | BadConversion
    | NotSent(error: ProtocolError)
    | ServerThrew
    | ProtocolFailure

  function ToValues(args: seq<Argument>): (vs: seq<Value>)
    ensures |vs| == |args| && forall i | 0 <= i < |args| :: vs[i] == To(args[i].native, args[i].byReference)
  {
    seq(|args|, i requires 0 <= i < |args| => To(args[i].native, args[i].byReference))
  }

  function Natives(args: seq<Argument>): (ns: seq<Native>)
    ensures |ns| == |args| && forall i | 0 <= i < |args| :: ns[i] == args[i].native
  {
    seq(|args|, i requires 0 <= i < |args| => args[i].native)
  }

  // What the importing side makes of a reply; no `expected` kind is a `void` call.
  function Receive(response: Response, expected: Option<Kind>): CallResult {
    match response
    case Malformed => ProtocolFailure
    case RemoteError(message) => RemoteFailure(message)
    case Answer(v) =>
      if expected.None? then Done else
      var n := From(expected.value, v);
      if n.None? then BadConversion else Got(n.value)
  }

  function Remote(routes: seq<Route>, name: Name, args: seq<Argument>, expected: Option<Kind>): CallResult {
    var frame := EncodeRequest(SymbolId(name), ToValues(args));
    if frame.Err? then NotSent(frame.error) else
    var reply := Serve(routes, frame.value);
    if reply.Err? then ServerThrew else Receive(TryDecodeResponse(reply.value), expected)
  }

  // -------- The local call --------

  // The first declared overload whose parameter kinds are the arguments' kinds.
  function Local(cs: seq<Candidate>, args: seq<Native>): Option<Outcome> {
    if cs == [] then None
    else if cs[0].Callable? && cs[0].params == KindsOf(args) then Some(cs[0].run(args))
    else Local(cs[1..], args)
  }

  ghost predicate Matches(c: Candidate, ns: seq<Native>) {
    c.Callable? && c.params == KindsOf(ns)
  }

  ghost predicate FirstMatch(cs: seq<Candidate>, ns: seq<Native>, k: nat) {
    k < |cs| && Matches(cs[k], ns) && forall j | 0 <= j < k :: !Matches(cs[j], ns)
  }

  // The calls of native code a local call makes: the first overload of these kinds, once, on the arguments.
  ghost function LocalCalls(cs: seq<Candidate>, ns: seq<Native>): seq<(nat, seq<Native>)> {
    if exists k: nat :: FirstMatch(cs, ns, k) then
      var k: nat :| FirstMatch(cs, ns, k);
      [(k, ns)]
    else []
  }

  lemma {:induction false} LocalRunsFirstMatch(cs: seq<Candidate>, ns: seq<Native>)
    ensures Local(cs, ns).None? <==> forall k | 0 <= k < |cs| :: !Matches(cs[k], ns)
    ensures forall k: nat | FirstMatch(cs, ns, k) :: Local(cs, ns) == Some(cs[k].run(ns))
  {
    if cs != [] {
      var tail := cs[1..];
      LocalRunsFirstMatch(tail, ns);
      assert forall k | 0 < k < |cs| :: cs[k] == tail[k - 1];
      assert forall k | 0 <= k < |tail| :: tail[k] == cs[k + 1];
      if !Matches(cs[0], ns) {
        forall k: nat | FirstMatch(cs, ns, k) ensures Local(cs, ns) == Some(cs[k].run(ns)) {
          assert FirstMatch(tail, ns, k - 1);
        }
      }
    }
  }

  // How the outcome of a local call looks from the other side of a wire.
  function Seen(outcome: Option<Outcome>, expected: Option<Kind>): CallResult {
    match outcome
    case None => RemoteFailure(Ascii(MISMATCH))
    case Some(Threw(what)) => if |what| > U32_MAX then ServerThrew else RemoteFailure(what)
    case Some(ThrewUnknown) => RemoteFailure(Ascii(SERVER_FAILURE))
    case Some(ReturnedVoid) => if expected.None? then Done else BadConversion
    case Some(Returned(n)) =>
      if n.NString? && |n.string_| > U32_MAX then RemoteFailure(Ascii(STRING_TOO_LARGE))
      else if expected.None? then Done
      else if expected.value == KindOf(n) then Got(n)
      else BadConversion
  }

  // A candidate is viable for the decoded arguments exactly when its kinds are theirs, and it then
  // receives the very values that were passed.
  lemma ViableIsKindMatch(c: Candidate, args: seq<Argument>)
    requires c.Callable? && |c.params| == |args|
    ensures var vs := OwnedAll(ToValues(args));
            && (Probes(c.params, vs) <==> c.params == KindsOf(Natives(args)))
            && (Probes(c.params, vs) ==> Converted(c.params, vs) == Natives(args))
  {
    var (vs, ns) := (OwnedAll(ToValues(args)), Natives(args));
    forall i | 0 <= i < |args|
      ensures From(c.params[i], vs[i]) == if c.params[i] == KindOf(ns[i]) then Some(ns[i]) else None
    {
      ConversionRoundTrip(ns[i], args[i].byReference, c.params[i]);
    }
    forall i | 0 <= i < |args| ensures Probe(c.params[i], vs[i]) <==> c.params[i] == KindsOf(ns)[i] {
      ProbeIsConversion(c.params[i], vs[i]);
    }
    if Probes(c.params, vs) {
      assert forall i | 0 <= i < |args| :: From(c.params[i], vs[i]) == Some(Converted(c.params, vs)[i]);
    }
  }

  lemma {:induction false} DispatchIsLocal(cs: seq<Candidate>, args: seq<Argument>)
    ensures ProbingDispatch(cs, OwnedAll(ToValues(args))) ==
            match Local(cs, Natives(args)) case None => NoMatch case Some(outcome) => Ran(outcome)
  {
    if cs != [] {
      DispatchIsLocal(cs[1..], args);
      if cs[0].Callable? && |cs[0].params| == |args| {
        ViableIsKindMatch(cs[0], args);
      }
    }
  }

  // The wire changes neither which native code runs nor what it is given.
  lemma SameCalls(cs: seq<Candidate>, args: seq<Argument>)
    ensures Calls(cs, OwnedAll(ToValues(args))) == LocalCalls(cs, Natives(args))
  {
    var (vs, ns) := (OwnedAll(ToValues(args)), Natives(args));
    forall k | 0 <= k < |cs|
      ensures Viable(cs[k], vs) <==> Matches(cs[k], ns)
      ensures Viable(cs[k], vs) ==> Converted(cs[k].params, vs) == ns
    {
      if cs[k].Callable? && |cs[k].params| == |args| {
        ViableIsKindMatch(cs[k], args);
      }
    }
    hide Viable, Matches, Converted;
    assert forall k: nat :: FirstViable(cs, vs, k) <==> FirstMatch(cs, ns, k);
  }

  lemma ReplySeen(d: Dispatched, expected: Option<Kind>)
    requires d != RejectedAfterProbe
    ensures var reply := ReplyTo(d);
            (if reply.Err? then ServerThrew else Receive(TryDecodeResponse(reply.value), expected))
            == Seen(if d.Ran? then Some(d.outcome) else None, expected)
  {
    hide TryDecodeResponse, EncodeError, EncodeResponse;
    match d {
      case NoMatch => ResponseRoundTrip(Undefined, Ascii(MISMATCH));
      case Ran(Returned(n)) =>
        ResponseRoundTrip(To(n, false), Ascii(STRING_TOO_LARGE));
        if expected.Some? {
          ConversionRoundTrip(n, false, expected.value);
        }
      case Ran(ReturnedVoid) => ResponseRoundTrip(Undefined, []);
      case Ran(Threw(what)) => ResponseRoundTrip(Undefined, what);
      case Ran(ThrewUnknown) => ResponseRoundTrip(Undefined, Ascii(SERVER_FAILURE));
    }
  }

  // For every name, argument list and expected result: the call is the local call of the overload group
  // the name resolves to, unless its frame cannot be built.
  lemma RemoteIsLocal(routes: seq<Route>, name: Name, args: seq<Argument>, expected: Option<Kind>)
    ensures Remote(routes, name, args, expected) ==
            match EncodeRequest(SymbolId(name), ToValues(args))
            case Err(error) => NotSent(error)
            case Ok(_) =>
              match Lookup(routes, SymbolId(name))
              case None => RemoteFailure(Ascii(UNKNOWN_METHOD))
              case Some(cs) => Seen(Local(cs, Natives(args)), expected)
  {
    hide TryDecodeResponse, TryDecodeRequest, EncodeError, EncodeRequest;
    hide ProbingDispatch, Lookup, SymbolId, ReplyTo, Seen;
    var id := SymbolId(name);
    if EncodeRequest(id, ToValues(args)).Ok? {
      RequestRoundTrip(id, ToValues(args));
      match Lookup(routes, id) {
        case None => ResponseRoundTrip(Undefined, Ascii(UNKNOWN_METHOD));
        case Some(cs) =>
          DispatchIsLocal(cs, args);
          ReplySeen(ProbingDispatch(cs, OwnedAll(ToValues(args))), expected);
      }
    }
  }

  // The argument values, or none when one of them cannot be encoded.
  function Sendable(args: seq<Argument>): (vs: seq<Value>)
    ensures forall v <- vs :: Encodable(v)
    ensures (forall v <- ToValues(args) :: Encodable(v)) ==> vs == ToValues(args)
  {
    if forall v <- ToValues(args) :: Encodable(v) then ToValues(args) else []
  }

  ghost predicate StringsFit(args: seq<Argument>) {
    forall i | 0 <= i < |args| :: args[i].native.NString? ==> |args[i].native.string_| <= 0xFFFF_FFFF
  }

  lemma StringsFitIffEncodable(args: seq<Argument>)
    ensures StringsFit(args) <==> forall v <- ToValues(args) :: Encodable(v)
  {
    var vs := ToValues(args);
    assert forall i | 0 <= i < |args| :: vs[i] in vs && (Encodable(vs[i]) <==>
      (args[i].native.NString? ==> |args[i].native.string_| <= U32_MAX));
  }

  // Which calls can be sent, from the arguments alone.
  ghost predicate CanSend(args: seq<Argument>) {
    |args| <= 0xFFFF_FFFF && StringsFit(args) && 17 + |EncodeValues(Sendable(args))| <= 0xFFFF_FFFF_FFFF_FFFF
  }

  lemma SendableIff(name: Name, args: seq<Argument>)
    ensures EncodeRequest(SymbolId(name), ToValues(args)).Ok? <==> CanSend(args)
  {
    hide EncodeValues, SymbolId, RequestHeader, Encodable, ToValues, StringsFit, FrameSize, Sendable;
    StringsFitIffEncodable(args);
    FrameSizeExact(REQUEST_HEADER, ToValues(args));
  }

  // After any run of definitions, a call that can be sent to a defined name is the local call of the
  // overloads last defined for it; an undefined name fails unless a defined one has the same id.
  lemma RemoteAfterDefinitions(ds: seq<Definition>, name: Name, args: seq<Argument>, expected: Option<Kind>)
    ensures var (result, m) := (Remote(DefineAll(EMPTY, ds).routes, name, args, expected), RedefineAll(map[], ds));
            && (!CanSend(args) <==> result.NotSent?)
            && (CanSend(args) && name in m ==> result == Seen(Local(m[name], Natives(args)), expected))
            && (CanSend(args) && name !in m && !Collides(m, name) ==> result == RemoteFailure(Ascii(UNKNOWN_METHOD)))
  {
    hide Remote, Local, Lookup, EncodeRequest, SymbolId, StringsFit, Sendable, EncodeValues;
    SendableIff(name, args);
    LookupByName(ds, name);
    RemoteIsLocal(DefineAll(EMPTY, ds).routes, name, args, expected);
  }

  // What a caller gets, outcome by outcome, from a route that carries the name's id.
  lemma RemoteResults(routes: seq<Route>, name: Name, args: seq<Argument>, expected: Option<Kind>, i: nat)
    requires CanSend(args) && Sorted(routes) && i < |routes| && routes[i].id == SymbolId(name)
    ensures var (result, cs, ns) := (Remote(routes, name, args, expected), routes[i].candidates, Natives(args));
            && ((forall k | 0 <= k < |cs| :: !Matches(cs[k], ns)) ==>
                  result == RemoteFailure(Ascii("RPC argument conversion or arity mismatch")))
            && (forall k: nat | FirstMatch(cs, ns, k) ::
                  match cs[k].run(ns)
                  case Returned(n) =>
                    if n.NString? && |n.string_| > 0xFFFF_FFFF then
                      result == RemoteFailure(Ascii("RPC string is too large"))
                    else if expected.None? then result == Done
                    else result == if KindOf(n) == expected.value then Got(n) else BadConversion
                  case ReturnedVoid => result == if expected.None? then Done else BadConversion
                  case Threw(what) => result == if |what| > 0xFFFF_FFFF then ServerThrew else RemoteFailure(what)
                  case ThrewUnknown => result == RemoteFailure(Ascii("unknown RPC server failure")))
  {
    SendableIff(name, args);
    RouteFound(routes, i);
    RemoteIsLocal(routes, name, args, expected);
    LocalRunsFirstMatch(routes[i].candidates, Natives(args));
    hide Remote, Local, Lookup, CanSend, FirstMatch, Matches, EncodeRequest, SymbolId, Sorted;
  }

  lemma RemoteUnknown(routes: seq<Route>, name: Name, args: seq<Argument>, expected: Option<Kind>)
    requires CanSend(args) && forall route <- routes :: route.id != SymbolId(name)
    ensures Remote(routes, name, args, expected) == RemoteFailure(Ascii("unknown RPC method"))
  {
    hide Remote, CanSend, EncodeRequest, SymbolId;
    SendableIff(name, args);
    RemoteIsLocal(routes, name, args, expected);
  }

  // What a caller makes of a reply, whoever sent it: the value if it is a response of the expected type,
  // and otherwise which of the three failures it is.
  lemma ReceiveMeaning(reply: seq<byte>, expected: Option<Kind>)
    ensures var result := Receive(TryDecodeResponse(reply), expected);
            && ((forall r :: !IsResponse(r, reply)) ==> result == ProtocolFailure)
            && (forall message | IsResponse(RemoteError(message), reply) :: result == RemoteFailure(message))
            && (forall v | IsResponse(Answer(v), reply) ::
                  if expected.None? then result == Done
                  else if Probe(expected.value, v) then result.Got? && To(result.native, false) == v
                  else result == BadConversion)
  {
    assert !IsResponse(Malformed, reply);
    hide TryDecodeResponse, IsResponse;
    var decoded := TryDecodeResponse(reply);
    if !decoded.Malformed? {
      ResponseDecodedIffInLanguage(decoded, reply);
    }
    forall r | IsResponse(r, reply) ensures decoded == r {
      ResponseDecodedIffInLanguage(r, reply);
    }
    if decoded.Answer? && expected.Some? {
      ProbeIsConversion(expected.value, decoded.value);
      AnswersAreOwned(reply, decoded.value);
    }
  }

  lemma AnswersAreOwned(reply: seq<byte>, v: Value)
    requires IsResponse(Answer(v), reply)
    ensures Owned(v) == v
  {
  }

  // The calls of native code one binder makes when a call is invoked: those of the local call when it can
  // be sent and its name's id is the binder's.
  ghost function InvokeCalls(entries: seq<Entry>, name: Name, args: seq<Argument>, binder: OverloadBinder)
    : seq<(nat, seq<Native>)>
  {
    var k := LowerIndex(Views(entries), SymbolId(name));
    if CanSend(args) && k < |entries| && entries[k].id == SymbolId(name) && entries[k].binder == binder
    then LocalCalls(binder.candidates, Natives(args))
    else []
  }

  lemma InvokeMakesLocalCalls(entries: seq<Entry>, name: Name, args: seq<Argument>, binder: OverloadBinder)
    requires EncodeRequest(SymbolId(name), ToValues(args)).Ok?
    ensures NativeCalls(entries, EncodeRequest(SymbolId(name), ToValues(args)).value, binder)
            == InvokeCalls(entries, name, args, binder)
  {
    hide TryDecodeRequest, EncodeRequest, SymbolId, CanSend, Calls, LocalCalls, LowerIndex;
    SendableIff(name, args);
    RequestRoundTrip(SymbolId(name), ToValues(args));
    SameCalls(binder.candidates, args);
  }

  // The whole round trip as it runs.
  method Invoke(server: Router, name: Name, args: seq<Argument>, expected: Option<Kind>, schedule: nat -> seq<nat>)
    returns (result: CallResult)
    requires Sorted(Views(server.routes)) && forall n: nat :: Permutes(schedule(n), n)
    modifies set e | e in server.routes :: e.binder
    ensures result == Remote(Views(server.routes), name, args, expected)
    ensures forall e <- server.routes ::
              e.binder.invocations == old(e.binder.invocations) + InvokeCalls(server.routes, name, args, e.binder)
  {
    hide TryDecodeResponse, EncodeRequest, Serve, SymbolId, CanSend, LocalCalls, NativeCalls, LowerIndex;
    SendableIff(name, args);
    var frame, _ := BuildRequest(SymbolId(name), ToValues(args));
    if frame.Err? {
      return NotSent(frame.error);
    }
    forall e <- server.routes
      ensures NativeCalls(server.routes, frame.value, e.binder) == InvokeCalls(server.routes, name, args, e.binder)
    {
      InvokeMakesLocalCalls(server.routes, name, args, e.binder);
    }
    hide InvokeCalls;
    var reply := server.Dispatch(frame.value, schedule);
    if reply.Err? {
      return ServerThrew;
    }
    var box := new ResponseBox();
    var status := DecodeResponse(reply.value, box);
    match status {
      case StatusMalformed => return ProtocolFailure;
      case StatusRemoteError => return RemoteFailure(box.error);
      case StatusOk =>
        if expected.None? {
          return Done;
        }
        var n := From(expected.value, box.result);
        if n.None? {
          return BadConversion;
        }
        return Got(n.value);
    }
  }
}
