/**
 The route table as a value: sorted by symbol id, one owner per binder, and agreeing with a plain map
 from names to the binders last defined for them.
 */
module Routes {
  import opened Wrappers
  import opened Words
  import opened Symbols
  import opened Wire
  import opened WireProofs
  import opened Overloads

  datatype Route = Route(id: u64, name: Name, binder: nat, candidates: seq<Candidate>)

  // `created` binders have been allocated so far; `destroyed` lists those deleted, in order.
  datatype Table = Table(routes: seq<Route>, created: nat, destroyed: seq<nat>)

  datatype Definition = Definition(name: Name, candidates: seq<Candidate>)

  const EMPTY := Table([], 0, [])

  ghost predicate Sorted(routes: seq<Route>) {
    forall i, j | 0 <= i < j < |routes| :: routes[i].id < routes[j].id
  }

  ghost predicate Keyed(routes: seq<Route>) {
    forall i | 0 <= i < |routes| :: routes[i].id == SymbolId(routes[i].name)
  }

  // Where `std::lower_bound` stops: how many routes at the front have a smaller id.
  function LowerIndex(routes: seq<Route>, id: u64): (k: nat)
    ensures k <= |routes|
    ensures forall i | 0 <= i < k :: routes[i].id < id
    ensures k < |routes| ==> id <= routes[k].id
  {
    if routes == [] || id <= routes[0].id then 0 else 1 + LowerIndex(routes[1..], id)
  }

  function Lookup(routes: seq<Route>, id: u64): Option<seq<Candidate>> {
    var k := LowerIndex(routes, id);
    if k == |routes| || routes[k].id != id then None else Some(routes[k].candidates)
  }

  // `define`: false when a different name has the same id.
  function Define(t: Table, d: Definition): (Table, bool) {
    var id := SymbolId(d.name);
    var k := LowerIndex(t.routes, id);
    var route := Route(id, d.name, t.created, d.candidates);
    if k < |t.routes| && t.routes[k].id == id then
      if t.routes[k].name != d.name then (t, false)
      else (Table(t.routes[k := route], t.created + 1, t.destroyed + [t.routes[k].binder]), true)
    else
      (Table(t.routes[..k] + [route] + t.routes[k..], t.created + 1, t.destroyed), true)
  }

  function DefineAll(t: Table, ds: seq<Definition>): Table
    decreases |ds|
  {
    if ds == [] then t else DefineAll(Define(t, ds[0]).0, ds[1..])
  }

  // -------- The plain map --------

  ghost predicate Collides(m: map<Name, seq<Candidate>>, name: Name) {
    exists other <- m :: other != name && SymbolId(other) == SymbolId(name)
  }

  ghost function Redefine(m: map<Name, seq<Candidate>>, d: Definition): map<Name, seq<Candidate>> {
    if Collides(m, d.name) then m else m[d.name := d.candidates]
  }

  ghost function RedefineAll(m: map<Name, seq<Candidate>>, ds: seq<Definition>): map<Name, seq<Candidate>>
    decreases |ds|
  {
    if ds == [] then m else RedefineAll(Redefine(m, ds[0]), ds[1..])
  }

  // The table holds the map's entries and nothing else.
  ghost predicate Represents(routes: seq<Route>, m: map<Name, seq<Candidate>>) {
    && (forall i | 0 <= i < |routes| :: routes[i].name in m && m[routes[i].name] == routes[i].candidates)
    && (forall name <- m :: exists i | 0 <= i < |routes| :: routes[i].name == name)
  }

  // -------- Binders and their owners --------

  function Binders(routes: seq<Route>): (bs: seq<nat>)
    ensures |bs| == |routes| && forall i | 0 <= i < |routes| :: bs[i] == routes[i].binder
  {
    seq(|routes|, i requires 0 <= i < |routes| => routes[i].binder)
  }

  function Made(n: nat): multiset<nat> {
    if n == 0 then multiset{} else Made(n - 1) + multiset{n - 1}
  }

  // Every binder made is owned by exactly one route or has been destroyed exactly once.
  ghost predicate OwnedOnce(t: Table) {
    multiset(Binders(t.routes)) + multiset(t.destroyed) == Made(t.created)
  }

  ghost predicate Inv(t: Table) {
    Sorted(t.routes) && Keyed(t.routes) && OwnedOnce(t)
  }

  // -------- One definition --------

  lemma LowerIndexUnique(routes: seq<Route>, id: u64, k: nat)
    requires Sorted(routes) && k <= |routes|
    requires forall i | 0 <= i < k :: routes[i].id < id
    requires k < |routes| ==> id <= routes[k].id
    ensures LowerIndex(routes, id) == k
  {
  }

  lemma DefineKeepsOrder(t: Table, d: Definition)
    requires Sorted(t.routes) && Keyed(t.routes)
    ensures Sorted(Define(t, d).0.routes) && Keyed(Define(t, d).0.routes)
  {
    hide SymbolId;
  }

  // Replacing an owner and destroying what it held, or adding an owner, accounts for one more binder.
  lemma ReplaceOne(bs: seq<nat>, destroyed: seq<nat>, k: nat, b: nat)
    requires k < |bs|
    ensures multiset(bs[k := b]) + multiset(destroyed + [bs[k]]) == multiset(bs) + multiset(destroyed) + multiset{b}
  {
    assert bs == bs[..k] + [bs[k]] + bs[k + 1..];
    assert bs[k := b] == bs[..k] + [b] + bs[k + 1..];
  }

  lemma InsertOne(bs: seq<nat>, destroyed: seq<nat>, k: nat, b: nat)
    requires k <= |bs|
    ensures multiset(bs[..k] + [b] + bs[k..]) + multiset(destroyed) == multiset(bs) + multiset(destroyed) + multiset{b}
  {
    assert bs == bs[..k] + bs[k..];
  }

  lemma DefineKeepsOwners(t: Table, d: Definition)
    requires OwnedOnce(t)
    ensures OwnedOnce(Define(t, d).0)
  {
    hide SymbolId, LowerIndex, Binders, Define;
    var k := LowerIndex(t.routes, SymbolId(d.name));
    var next := Define(t, d).0;
    DefineEffect(t, d);
    if next != t {
      assert Made(t.created + 1) == Made(t.created) + multiset{t.created};
      if |next.routes| == |t.routes| {
        ReplaceOne(Binders(t.routes), t.destroyed, k, t.created);
      } else {
        InsertOne(Binders(t.routes), t.destroyed, k, t.created);
      }
    }
  }

  lemma DefineEffect(t: Table, d: Definition)
    ensures var next := Define(t, d).0;
            var (k, bs) := (LowerIndex(t.routes, SymbolId(d.name)), Binders(t.routes));
            || next == t
            || (next.created == t.created + 1 && |next.routes| == |t.routes| && k < |bs|
                && Binders(next.routes) == bs[k := t.created] && next.destroyed == t.destroyed + [bs[k]])
            || (next.created == t.created + 1 && |next.routes| == |t.routes| + 1
                && Binders(next.routes) == bs[..k] + [t.created] + bs[k..] && next.destroyed == t.destroyed)
  {
    hide SymbolId, LowerIndex;
    var (k, bs) := (LowerIndex(t.routes, SymbolId(d.name)), Binders(t.routes));
    var next := Define(t, d).0;
    if |next.routes| == |t.routes| + 1 {
      assert Binders(next.routes) == bs[..k] + [t.created] + bs[k..];
    } else if next != t {
      assert Binders(next.routes) == bs[k := t.created];
    }
  }

  lemma CollisionMeaning(t: Table, m: map<Name, seq<Candidate>>, d: Definition)
    requires Sorted(t.routes) && Keyed(t.routes) && Represents(t.routes, m)
    ensures !Define(t, d).1 <==> Collides(m, d.name)
    ensures !Define(t, d).1 ==> Define(t, d).0 == t
  {
    hide SymbolId;
    var k := LowerIndex(t.routes, SymbolId(d.name));
    if Collides(m, d.name) {
      var other :| other in m && other != d.name && SymbolId(other) == SymbolId(d.name);
      var i :| 0 <= i < |t.routes| && t.routes[i].name == other;
      assert i == k;
    }
  }

  // The routes after a definition that was accepted: the new one at `k`, every other one where an old
  // one with another name was.
  lemma DefineShape(t: Table, d: Definition)
    requires Sorted(t.routes) && Keyed(t.routes) && Define(t, d).1
    ensures var (routes, after) := (t.routes, Define(t, d).0.routes);
            var k := LowerIndex(routes, SymbolId(d.name));
            && k < |after| && after[k].name == d.name && after[k].candidates == d.candidates
            && (forall i | 0 <= i < |after| && i != k :: after[i] in routes && after[i].name != d.name)
            && (forall r <- routes :: r.name == d.name || r in after)
  {
    hide SymbolId, LowerIndex;
    var (routes, after) := (t.routes, Define(t, d).0.routes);
    var k := LowerIndex(routes, SymbolId(d.name));
    forall i | 0 <= i < |after| && i != k ensures after[i] in routes && after[i].name != d.name {
      var j := if |after| == |routes| || i < k then i else i - 1;
      assert after[i] == routes[j];
    }
    forall r | r in routes ensures r.name == d.name || r in after {
      var i :| 0 <= i < |routes| && routes[i] == r;
      assert r.name == d.name || after[i] == r || after[i + 1] == r;
    }
  }

  lemma ShapeRepresents(routes: seq<Route>, after: seq<Route>, m: map<Name, seq<Candidate>>, d: Definition, k: nat)
    requires Represents(routes, m)
    requires k < |after| && after[k].name == d.name && after[k].candidates == d.candidates
    requires forall i | 0 <= i < |after| && i != k :: after[i] in routes && after[i].name != d.name
    requires forall r <- routes :: r.name == d.name || r in after
    ensures Represents(after, m[d.name := d.candidates])
  {
    forall name | name in m && name != d.name ensures exists i | 0 <= i < |after| :: after[i].name == name {
      var i :| 0 <= i < |routes| && routes[i].name == name;
      assert routes[i] in after;
    }
    assert after[k].name == d.name;
  }

  lemma DefineRepresents(t: Table, m: map<Name, seq<Candidate>>, d: Definition)
    requires Sorted(t.routes) && Keyed(t.routes) && Represents(t.routes, m)
    ensures Represents(Define(t, d).0.routes, Redefine(m, d))
  {
    hide Define, Collides, Represents, Sorted, Keyed, SymbolId, LowerIndex;
    CollisionMeaning(t, m, d);
    if Define(t, d).1 {
      DefineShape(t, d);
      ShapeRepresents(t.routes, Define(t, d).0.routes, m, d, LowerIndex(t.routes, SymbolId(d.name)));
    }
  }

  // -------- Every run of definitions --------

  lemma {:induction false} DefineAllKeeps(t: Table, m: map<Name, seq<Candidate>>, ds: seq<Definition>)
    requires Inv(t) && Represents(t.routes, m)
    ensures Inv(DefineAll(t, ds)) && Represents(DefineAll(t, ds).routes, RedefineAll(m, ds))
    decreases |ds|
  {
    if ds != [] {
      DefineKeepsOrder(t, ds[0]);
      DefineKeepsOwners(t, ds[0]);
      DefineRepresents(t, m, ds[0]);
      DefineAllKeeps(Define(t, ds[0]).0, Redefine(m, ds[0]), ds[1..]);
    }
  }

  // After any run of definitions the table is strictly sorted, every binder has one owner or was
  // destroyed once, and the table holds exactly the plain map.
  lemma TableAfterDefinitions(ds: seq<Definition>)
    ensures Inv(DefineAll(EMPTY, ds))
    ensures Represents(DefineAll(EMPTY, ds).routes, RedefineAll(map[], ds))
  {
    DefineAllKeeps(EMPTY, map[], ds);
  }

  // Binary search finds an id exactly when a name with that id is in the map.
  lemma LookupMeaning(routes: seq<Route>, m: map<Name, seq<Candidate>>, id: u64)
    requires Sorted(routes) && Keyed(routes) && Represents(routes, m)
    ensures Lookup(routes, id).None? <==> forall name <- m :: SymbolId(name) != id
    ensures forall name <- m :: SymbolId(name) == id ==> Lookup(routes, id) == Some(m[name])
  {
    hide SymbolId;
    var k := LowerIndex(routes, id);
    forall name | name in m && SymbolId(name) == id
      ensures Lookup(routes, id) == Some(m[name])
    {
      var i :| 0 <= i < |routes| && routes[i].name == name;
      assert i == k;
    }
  }

  // Looking a name up agrees with the plain map exactly when no other defined name shares its id.
  lemma LookupByName(ds: seq<Definition>, name: Name)
    ensures var (routes, m) := (DefineAll(EMPTY, ds).routes, RedefineAll(map[], ds));
            && (name in m ==> Lookup(routes, SymbolId(name)) == Some(m[name]))
            && (name !in m ==> (Lookup(routes, SymbolId(name)).None? <==> !Collides(m, name)))
  {
    hide SymbolId;
    TableAfterDefinitions(ds);
    LookupMeaning(DefineAll(EMPTY, ds).routes, RedefineAll(map[], ds), SymbolId(name));
  }

  // And the exception happens: a name nobody defined is answered by another one's binder, and can
  // itself no longer be defined.
  lemma UndefinedNameCanBeFound(candidates: seq<Candidate>)
    ensures var ds := [Definition(TWIN, candidates)];
            && OTHER_TWIN !in RedefineAll(map[], ds)
            && Lookup(DefineAll(EMPTY, ds).routes, SymbolId(OTHER_TWIN)) == Some(candidates)
            && forall others :: !Define(DefineAll(EMPTY, ds), Definition(OTHER_TWIN, others)).1
  {
    hide SymbolId, Define;
    CollisionsExist();
    var ds := [Definition(TWIN, candidates)];
    assert ds[1..] == [];
    assert RedefineAll(map[], ds) == map[TWIN := candidates];
    LookupByName(ds, TWIN);
    TableAfterDefinitions(ds);
    forall others ensures !Define(DefineAll(EMPTY, ds), Definition(OTHER_TWIN, others)).1 {
      CollisionMeaning(DefineAll(EMPTY, ds), RedefineAll(map[], ds), Definition(OTHER_TWIN, others));
    }
  }

  // -------- Serving a frame --------

  function Ascii(text: string): (bytes: seq<byte>)
    ensures |bytes| == |text| && forall i | 0 <= i < |text| :: bytes[i] == text[i] as int % 256
  {
    seq(|text|, i requires 0 <= i < |text| => text[i] as int % 256)
  }

  const INVALID_FRAME := "invalid RPC request frame"
  const UNKNOWN_METHOD := "unknown RPC method"
  const MISMATCH := "RPC argument conversion or arity mismatch"
  const STRING_TOO_LARGE := "RPC string is too large"
  const SERVER_FAILURE := "unknown RPC server failure"
  const REJECTED_PROBE := "dynabridge export argument rejected an accepted probe"

  // The reply to what a candidate did; an error is an exception that leaves the dispatcher.
  function ReplyTo(d: Dispatched): Result<seq<byte>, ProtocolError> {
    match d
    case NoMatch => EncodeError(Ascii(MISMATCH))
    case RejectedAfterProbe => EncodeError(Ascii(REJECTED_PROBE))
    case Ran(Returned(n)) =>
      var reply := EncodeResponse(To(n, false));
      if reply.Ok? then reply else EncodeError(Ascii(STRING_TOO_LARGE))
    case Ran(ReturnedVoid) => EncodeResponse(Undefined)
    case Ran(Threw(what)) => EncodeError(what)
    case Ran(ThrewUnknown) => EncodeError(Ascii(SERVER_FAILURE))
  }

  function Serve(routes: seq<Route>, frame: seq<byte>): Result<seq<byte>, ProtocolError> {
    var request := TryDecodeRequest(frame);
    if request.None? then EncodeError(Ascii(INVALID_FRAME)) else
    var candidates := Lookup(routes, request.value.method_);
    if candidates.None? then EncodeError(Ascii(UNKNOWN_METHOD)) else
    ReplyTo(ProbingDispatch(candidates.value, request.value.args))
  }

  // What native code did for a frame, if any ran.
  function OutcomeOf(routes: seq<Route>, frame: seq<byte>): Dispatched {
    var request := TryDecodeRequest(frame);
    if request.None? || Lookup(routes, request.value.method_).None? then NoMatch
    else ProbingDispatch(Lookup(routes, request.value.method_).value, request.value.args)
  }

  lemma ReplyClassified(d: Dispatched)
    ensures ReplyTo(d).Err? <==> d.Ran? && d.outcome.Threw? && |d.outcome.what| > U32_MAX
    ensures ReplyTo(d).Ok? ==> !TryDecodeResponse(ReplyTo(d).value).Malformed?
  {
    match d {
      case NoMatch => ResponseRoundTrip(Undefined, Ascii(MISMATCH));
      case RejectedAfterProbe => ResponseRoundTrip(Undefined, Ascii(REJECTED_PROBE));
      case Ran(Returned(n)) => ResponseRoundTrip(To(n, false), Ascii(STRING_TOO_LARGE));
      case Ran(ReturnedVoid) => ResponseRoundTrip(Undefined, []);
      case Ran(Threw(what)) => ResponseRoundTrip(Undefined, what);
      case Ran(ThrewUnknown) => ResponseRoundTrip(Undefined, Ascii(SERVER_FAILURE));
    }
  }

  // Every byte sequence gets a well-formed reply, unless native code throws a message too long for a frame.
  lemma ServeIsTotal(routes: seq<Route>, frame: seq<byte>)
    ensures var d := OutcomeOf(routes, frame);
            Serve(routes, frame).Err? <==> d.Ran? && d.outcome.Threw? && |d.outcome.what| > U32_MAX
    ensures Serve(routes, frame).Ok? ==> !TryDecodeResponse(Serve(routes, frame).value).Malformed?
  {
    hide TryDecodeRequest, TryDecodeResponse, ProbingDispatch, Lookup, ReplyTo, EncodeError;
    ReplyClassified(OutcomeOf(routes, frame));
    ResponseRoundTrip(Undefined, Ascii(INVALID_FRAME));
    ResponseRoundTrip(Undefined, Ascii(UNKNOWN_METHOD));
  }

  // A reply that is a frame the other side reads as `response`.
  ghost predicate Replies(reply: Result<seq<byte>, ProtocolError>, response: Response) {
    reply.Ok? && TryDecodeResponse(reply.value) == response
  }

  // What is not a request is answered with an error, as is a request for an id no route has.
  lemma UnservedReplies(routes: seq<Route>, frame: seq<byte>)
    ensures (forall r :: !IsRequest(r, frame)) ==>
              Replies(Serve(routes, frame), RemoteError(Ascii("invalid RPC request frame")))
    ensures forall r | IsRequest(r, frame) && (forall route <- routes :: route.id != r.method_) ::
              Replies(Serve(routes, frame), RemoteError(Ascii("unknown RPC method")))
  {
    hide TryDecodeRequest, TryDecodeResponse, IsRequest, EncodeError;
    ResponseRoundTrip(Undefined, Ascii("invalid RPC request frame"));
    ResponseRoundTrip(Undefined, Ascii("unknown RPC method"));
    var decoded := TryDecodeRequest(frame);
    if decoded.Some? {
      RequestDecodedIffInLanguage(decoded.value, frame);
    }
    forall r | IsRequest(r, frame) ensures decoded == Some(r) {
      RequestDecodedIffInLanguage(r, frame);
    }
  }

  // A request for a route is answered with what the first viable candidate did, or with an error when
  // there is none.
  lemma ServedReplies(routes: seq<Route>, frame: seq<byte>, r: Request, i: nat)
    requires IsRequest(r, frame) && Sorted(routes) && i < |routes| && routes[i].id == r.method_
    ensures var (reply, cs) := (Serve(routes, frame), routes[i].candidates);
            && ((forall k | 0 <= k < |cs| :: !Viable(cs[k], r.args)) ==>
                  Replies(reply, RemoteError(Ascii("RPC argument conversion or arity mismatch"))))
            && (forall k: nat | FirstViable(cs, r.args, k) ::
                  match cs[k].run(Converted(cs[k].params, r.args))
                  case Returned(n) =>
                    Replies(reply, if n.NString? && |n.string_| > 0xFFFF_FFFF
                                   then RemoteError(Ascii("RPC string is too large")) else Answer(To(n, false)))
                  case ReturnedVoid => Replies(reply, Answer(Undefined))
                  case Threw(what) =>
                    if |what| > 0xFFFF_FFFF then reply == Err(ErrorTooLarge) else Replies(reply, RemoteError(what))
                  case ThrewUnknown => Replies(reply, RemoteError(Ascii("unknown RPC server failure"))))
  {
    var cs := routes[i].candidates;
    RouteFound(routes, i);
    RequestDecodedIffInLanguage(r, frame);
    hide TryDecodeRequest, IsRequest, Lookup, Viable, FirstViable, ProbingDispatch, Converted, Sorted;
    hide TryDecodeResponse, EncodeResponse, EncodeError;
    DispatchIsFirstViable(cs, r.args);
    var d := ProbingDispatch(cs, r.args);
    ReplySpelledOut(d);
  }

  lemma RouteFound(routes: seq<Route>, i: nat)
    requires Sorted(routes) && i < |routes|
    ensures Lookup(routes, routes[i].id) == Some(routes[i].candidates)
  {
    LowerIndexUnique(routes, routes[i].id, i);
  }

  lemma ReplySpelledOut(d: Dispatched)
    ensures match d
            case NoMatch => Replies(ReplyTo(d), RemoteError(Ascii("RPC argument conversion or arity mismatch")))
            case RejectedAfterProbe =>
              Replies(ReplyTo(d), RemoteError(Ascii("dynabridge export argument rejected an accepted probe")))
            case Ran(Returned(n)) =>
              Replies(ReplyTo(d), if n.NString? && |n.string_| > 0xFFFF_FFFF
                                  then RemoteError(Ascii("RPC string is too large")) else Answer(To(n, false)))
            case Ran(ReturnedVoid) => Replies(ReplyTo(d), Answer(Undefined))
            case Ran(Threw(what)) =>
              if |what| > 0xFFFF_FFFF then ReplyTo(d) == Err(ErrorTooLarge) else Replies(ReplyTo(d), RemoteError(what))
            case Ran(ThrewUnknown) => Replies(ReplyTo(d), RemoteError(Ascii("unknown RPC server failure")))
  {
    match d {
      case NoMatch => ResponseRoundTrip(Undefined, Ascii(MISMATCH));
      case RejectedAfterProbe => ResponseRoundTrip(Undefined, Ascii(REJECTED_PROBE));
      case Ran(Returned(n)) => ResponseRoundTrip(To(n, false), Ascii(STRING_TOO_LARGE));
      case Ran(ReturnedVoid) => ResponseRoundTrip(Undefined, []);
      case Ran(Threw(what)) => ResponseRoundTrip(Undefined, what);
      case Ran(ThrewUnknown) => ResponseRoundTrip(Undefined, Ascii(SERVER_FAILURE));
    }
  }

  // And that happens, whatever the name: one overload that throws such a message, called without arguments.
  lemma OversizedMessageEscapes(name: Name, what: seq<byte>) returns (d: Definition, frame: seq<byte>)
    requires |what| > U32_MAX
    ensures d.name == name && EncodeRequest(SymbolId(name), []) == Ok(frame)
    ensures Serve(DefineAll(EMPTY, [d]).routes, frame) == Err(ErrorTooLarge)
  {
    hide SymbolId, TryDecodeRequest;
    d := Definition(name, [Callable([], _ => Threw(what))]);
    RequestRoundTrip(SymbolId(name), []);
    frame := EncodeRequest(SymbolId(name), []).value;
    assert [d][1..] == [];
    LookupByName([d], name);
    assert RedefineAll(map[], [d]) == map[name := d.candidates];
  }
}
