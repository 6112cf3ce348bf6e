/** The router: a table of routes edited in place, each owning the binder it points to. */
module Server {
  import opened Wrappers
  import opened Words
  import opened Symbols
  import opened Wire
  import opened Codec
  import opened Overloads
  import opened Binder
  import opened Routes

  datatype Entry = Entry(id: u64, name: Name, binder: OverloadBinder)

  // An entry with its binder seen as a value.
  ghost function View(e: Entry): Route {
    Route(e.id, e.name, e.binder.serial, e.binder.candidates)
  }

  ghost function Views(entries: seq<Entry>): (routes: seq<Route>)
    ensures |routes| == |entries| && forall i | 0 <= i < |entries| :: routes[i] == View(entries[i])
  {
    seq(|entries|, i requires 0 <= i < |entries| => View(entries[i]))
  }

  // The calls of native code one binder makes for a frame: those of the dispatch when the frame is a
  // request for the route that owns the binder.
  ghost function NativeCalls(entries: seq<Entry>, frame: seq<byte>, binder: OverloadBinder): seq<(nat, seq<Native>)> {
    var request := TryDecodeRequest(frame);
    if request.None? then [] else
    var k := LowerIndex(Views(entries), request.value.method_);
    if k < |entries| && entries[k].id == request.value.method_ && entries[k].binder == binder
    then Calls(binder.candidates, request.value.args)
    else []
  }

  class Router {
    var routes: seq<Entry>
    ghost var created: nat
    ghost var destroyed: seq<nat>

    ghost function Model(): Table
      reads this
    {
      Table(Views(routes), created, destroyed)
    }

    constructor ()
      ensures Model() == EMPTY
    {
      routes, created, destroyed := [], 0, [];
    }

    // The halving search of `std::lower_bound`.
    method LowerBound(id: u64) returns (first: nat)
      requires Sorted(Views(routes))
      ensures first == LowerIndex(Views(routes), id)
    {
      first := 0;
      var count := |routes|;
      while count > 0
        invariant 0 <= count && first + count <= |routes|
        invariant forall i | 0 <= i < first :: routes[i].id < id
        invariant forall i | first + count <= i < |routes| :: id <= routes[i].id
      {
        var step := count / 2;
        ghost var views := Views(routes);
        assert forall i, j | 0 <= i < j < |routes| :: views[i].id < views[j].id;
        if routes[first + step].id < id {
          first := first + step + 1;
          count := count - (step + 1);
        } else {
          count := step;
        }
      }
      LowerIndexUnique(Views(routes), id, first);
    }

    // Define a name, replacing what it was bound to; a different name with the same id is refused.
    method DefineName(text: seq<byte>, candidates: seq<Candidate>) returns (ok: bool)
      requires 0 in text && Sorted(Views(routes))
      modifies this
      ensures (Model(), ok) == Define(old(Model()), Definition(CString(text), candidates))
    {
      hide SymbolId, CString, LowerIndex;
      var name := CString(text);
      var id := ComputeSymbolId(text);
      var existing := LowerBound(id);
      if existing < |routes| && routes[existing].id == id {
        if routes[existing].name != name {
          return false;
        }
        var binder := new OverloadBinder(candidates, created);
        // The move assignment destroys the binder that was there and takes over the new one.
        destroyed := destroyed + [routes[existing].binder.serial];
        created := created + 1;
        routes := routes[existing := Entry(id, name, binder)];
        assert Views(routes) == old(Views(routes))[existing := Route(id, name, old(created), candidates)];
        return true;
      }
      var binder := new OverloadBinder(candidates, created);
      created := created + 1;
      routes := routes[..existing] + [Entry(id, name, binder)] + routes[existing..];
      assert Views(routes) == old(Views(routes))[..existing] + [Route(id, name, old(created), candidates)]
                              + old(Views(routes))[existing..];
      return true;
    }

    // The destructor of the table: every live binder is destroyed, so each one made was destroyed once.
    method Destroy()
      requires OwnedOnce(Model())
      modifies this
      ensures routes == [] && created == old(created)
      ensures multiset(destroyed) == Made(created)
    {
      destroyed := destroyed + Binders(Views(routes));
      routes := [];
    }

    // `dispatch`.  The exceptions its handlers catch are values here; an error result is an exception
    // that leaves it.
    method Dispatch(frame: seq<byte>, schedule: nat -> seq<nat>) returns (reply: Result<seq<byte>, ProtocolError>)
      requires Sorted(Views(routes)) && forall n: nat :: Permutes(schedule(n), n)
      modifies set e | e in routes :: e.binder
      ensures reply == Serve(Views(routes), frame)
      ensures forall e <- routes ::
                e.binder.invocations == old(e.binder.invocations) + NativeCalls(routes, frame, e.binder)
    {
      hide TryDecodeRequest, EncodeError, EncodeResponse, ProbingDispatch, ReplyTo;
      hide Calls, FirstViable, Consumed, LowerIndex, Converted, Sorted;
      var reserved: nat;
      var box := new RequestBox();
      var ok;
      ok, reserved := DecodeRequest(frame, box);
      if !ok {
        reply, reserved := BuildError(Ascii(INVALID_FRAME));
        return;
      }
      var request := box.request;
      var k := LowerBound(request.method_);
      if k == |routes| || routes[k].id != request.method_ {
        reply, reserved := BuildError(Ascii(UNKNOWN_METHOD));
        return;
      }
      var args := new Value[|request.args|](i requires 0 <= i < |request.args| => request.args[i]);
      assert args[..] == request.args;
      assert routes[k] in routes;
      assert Lookup(Views(routes), request.method_) == Some(routes[k].binder.candidates);
      var d, _ := routes[k].binder.DispatchOptional(args, schedule);
      reply := Reply(d);
    }
  }

  // What `dispatch` sends back for the outcome of a candidate.
  method Reply(d: Dispatched) returns (reply: Result<seq<byte>, ProtocolError>)
    ensures reply == ReplyTo(d)
  {
    hide EncodeError, EncodeResponse;
    var reserved: nat;
    match d {
      case NoMatch => reply, reserved := BuildError(Ascii(MISMATCH));
      case RejectedAfterProbe => reply, reserved := BuildError(Ascii(REJECTED_PROBE));
      case Ran(Returned(n)) =>
        reply, reserved := BuildResponse(To(n, false));
        if reply.Err? {
          reply, reserved := BuildError(Ascii(STRING_TOO_LARGE));
        }
      case Ran(ReturnedVoid) => reply, reserved := BuildResponse(Undefined);
      case Ran(Threw(what)) => reply, reserved := BuildError(what);
      case Ran(ThrewUnknown) => reply, reserved := BuildError(Ascii(SERVER_FAILURE));
    }
  }
}
