/**
 Typed conversions and ordered first-viable overload dispatch over a vector of dynamic values.
 */
module Overloads {
  import opened Wrappers
  import opened Words
  import opened Wire

  // The types with built-in converters, and their C++ values; a double is its 64 bits.
  datatype Kind = KInt | KUnsigned | KDouble | KBool | KString

  datatype Native =
    | NInt(int_: i32)
    | NUnsigned(unsigned_: u32)
    | NDouble(bits: u64)
    | NBool(bool_: bool)
    | NString(string_: seq<byte>)

  function KindOf(n: Native): Kind {
    match n
    case NInt(_) => KInt
    case NUnsigned(_) => KUnsigned
    case NDouble(_) => KDouble
    case NBool(_) => KBool
    case NString(_) => KString
  }

  function KindsOf(ns: seq<Native>): (kinds: seq<Kind>)
    ensures |kinds| == |ns| && forall i | 0 <= i < |ns| :: kinds[i] == KindOf(ns[i])
  {
    seq(|ns|, i requires 0 <= i < |ns| => KindOf(ns[i]))
  }

  // -------- The five converters --------

  predicate Probe(kind: Kind, v: Value) {
    match kind
    case KInt => v.Signed? && -0x8000_0000 <= v.number <= 0x7FFF_FFFF
    case KUnsigned => v.Unsigned? && v.magnitude <= 0xFFFF_FFFF
    case KDouble => v.Real?
    case KBool => v.Boolean?
    case KString => v.Text?
  }

  // `from` on a constant value.
  function From(kind: Kind, v: Value): Option<Native> {
    match kind
    case KInt =>
      if !v.Signed? || v.number < -0x8000_0000 || v.number > 0x7FFF_FFFF then None else Some(NInt(v.number))
    case KUnsigned =>
      if !v.Unsigned? || v.magnitude > 0xFFFF_FFFF then None else Some(NUnsigned(v.magnitude))
    case KDouble => if !v.Real? then None else Some(NDouble(v.bits))
    case KBool => if !v.Boolean? then None else Some(NBool(v.state))
    case KString => if !v.Text? then None else Some(NString(v.text))
  }

  // `to`; a string passed by constant reference is only viewed.
  function To(n: Native, byReference: bool): Value {
    match n
    case NInt(i) => Signed(i)
    case NUnsigned(u) => Unsigned(u)
    case NDouble(bits) => Real(bits)
    case NBool(b) => Boolean(b)
    case NString(s) => Text(s, byReference)
  }

  // A probe accepts exactly what the conversion accepts.
  lemma ProbeIsConversion(kind: Kind, v: Value)
    ensures Probe(kind, v) <==> From(kind, v).Some?
    ensures Probe(kind, v) ==> KindOf(From(kind, v).value) == kind && To(From(kind, v).value, false) == Owned(v)
  {
  }

  // Converting out and, whatever happened to string ownership, back again.
  lemma ConversionRoundTrip(n: Native, byReference: bool, kind: Kind)
    ensures From(kind, Owned(To(n, byReference))) == if kind == KindOf(n) then Some(n) else None
  {
  }

  // No value is accepted by two kinds.
  lemma KindsDisjoint(a: Kind, b: Kind, v: Value)
    requires Probe(a, v) && Probe(b, v)
    ensures a == b
  {
  }

  // -------- Candidates --------

  // What native code does: return a value or nothing, or throw something with or without a message.
  datatype Outcome = Returned(result: Native) | ReturnedVoid | Threw(what: seq<byte>) | ThrewUnknown

  datatype Candidate = Unmatched | Callable(params: seq<Kind>, run: seq<Native> -> Outcome)

  ghost predicate Viable(c: Candidate, args: seq<Value>) {
    c.Callable? && |c.params| == |args| && forall i | 0 <= i < |args| :: Probe(c.params[i], args[i])
  }

  ghost predicate FirstViable(cs: seq<Candidate>, args: seq<Value>, k: nat) {
    k < |cs| && Viable(cs[k], args) && forall j | 0 <= j < k :: !Viable(cs[j], args)
  }

  // The arguments as native code receives them.
  function Converted(params: seq<Kind>, args: seq<Value>): (ns: seq<Native>)
    requires |params| == |args| && forall i | 0 <= i < |args| :: Probe(params[i], args[i])
    ensures |ns| == |args| && forall i | 0 <= i < |args| :: From(params[i], args[i]) == Some(ns[i])
  {
    if args == [] then [] else
    ProbeIsConversion(params[0], args[0]);
    [From(params[0], args[0]).value] + Converted(params[1..], args[1..])
  }

  datatype Dispatched = NoMatch | RejectedAfterProbe | Ran(outcome: Outcome)

  // Probing, as a function of declaration order.
  function Probes(params: seq<Kind>, args: seq<Value>): (accepted: bool)
    requires |params| == |args|
    ensures accepted <==> forall i | 0 <= i < |args| :: Probe(params[i], args[i])
  {
    args == [] || (Probe(params[0], args[0]) && Probes(params[1..], args[1..]))
  }

  function ProbingDispatch(cs: seq<Candidate>, args: seq<Value>): Dispatched {
    if cs == [] then NoMatch
    else if cs[0].Unmatched? || |cs[0].params| != |args| || !Probes(cs[0].params, args) then
      ProbingDispatch(cs[1..], args)
    else Ran(cs[0].run(Converted(cs[0].params, args)))
  }

  // The plan without probes: convert every argument, then test that all conversions succeeded.
  function ConvertAll(params: seq<Kind>, args: seq<Value>): Option<seq<Native>>
    requires |params| == |args|
  {
    if args == [] then Some([]) else
    var (first, rest) := (From(params[0], args[0]), ConvertAll(params[1..], args[1..]));
    if first.None? || rest.None? then None else Some([first.value] + rest.value)
  }

  function PlainDispatch(cs: seq<Candidate>, args: seq<Value>): Dispatched {
    if cs == [] then NoMatch
    else if cs[0].Unmatched? || |cs[0].params| != |args| then PlainDispatch(cs[1..], args)
    else match ConvertAll(cs[0].params, args)
      case None => PlainDispatch(cs[1..], args)
      case Some(ns) => Ran(cs[0].run(ns))
  }

  lemma {:induction false} ConvertAllIsProbing(params: seq<Kind>, args: seq<Value>)
    requires |params| == |args|
    ensures ConvertAll(params, args) == if Probes(params, args) then Some(Converted(params, args)) else None
  {
    if args != [] {
      ProbeIsConversion(params[0], args[0]);
      ConvertAllIsProbing(params[1..], args[1..]);
    }
  }

  // Both plans give the same result on every candidate list and argument vector.
  lemma {:induction false} PlansAgree(cs: seq<Candidate>, args: seq<Value>)
    ensures ProbingDispatch(cs, args) == PlainDispatch(cs, args)
  {
    if cs != [] {
      PlansAgree(cs[1..], args);
      if cs[0].Callable? && |cs[0].params| == |args| {
        ConvertAllIsProbing(cs[0].params, args);
      }
    }
  }

  // Dispatch runs the least viable candidate, and nothing when there is none.
  lemma {:induction false} DispatchIsFirstViable(cs: seq<Candidate>, args: seq<Value>)
    ensures ProbingDispatch(cs, args) == NoMatch <==> forall k | 0 <= k < |cs| :: !Viable(cs[k], args)
    ensures forall k: nat | FirstViable(cs, args, k) ::
              ProbingDispatch(cs, args) == Ran(cs[k].run(Converted(cs[k].params, args)))
  {
    if cs != [] {
      var tail := cs[1..];
      DispatchIsFirstViable(tail, args);
      assert forall k | 0 < k < |cs| :: cs[k] == tail[k - 1];
      if Viable(cs[0], args) {
        assert forall k: nat | FirstViable(cs, args, k) :: k == 0;
      } else {
        forall k: nat | FirstViable(cs, args, k)
          ensures ProbingDispatch(cs, args) == Ran(cs[k].run(Converted(cs[k].params, args)))
        {
          assert k > 0;
          assert FirstViable(tail, args, k - 1) by {
            forall j | 0 <= j < k - 1 ensures !Viable(tail[j], args) {
              assert tail[j] == cs[j + 1];
            }
          }
        }
        if ProbingDispatch(cs, args) != NoMatch {
          var k :| 0 <= k < |tail| && Viable(tail[k], args);
          assert Viable(cs[k + 1], args);
        }
      }
    }
  }

  lemma {:induction false} FirstViableExists(cs: seq<Candidate>, args: seq<Value>, k: nat) returns (first: nat)
    requires k < |cs| && Viable(cs[k], args)
    ensures first <= k && FirstViable(cs, args, first)
  {
    if j: nat :| j < k && Viable(cs[j], args) {
      first := FirstViableExists(cs, args, j);
    } else {
      first := k;
    }
  }

  // The calls of native code a dispatch makes, each with the candidate's place: the least viable one is
  // called once, on the converted arguments.
  ghost function Calls(cs: seq<Candidate>, args: seq<Value>): seq<(nat, seq<Native>)> {
    if exists k: nat :: FirstViable(cs, args, k) then
      var k: nat :| FirstViable(cs, args, k);
      [(k, Converted(cs[k].params, args))]
    else []
  }

  lemma CallsMeaning(cs: seq<Candidate>, args: seq<Value>)
    ensures Calls(cs, args) == [] <==> ProbingDispatch(cs, args) == NoMatch
    ensures forall k: nat | FirstViable(cs, args, k) :: Calls(cs, args) == [(k, Converted(cs[k].params, args))]
  {
    hide ProbingDispatch, Converted;
    DispatchIsFirstViable(cs, args);
    if k: nat :| k < |cs| && Viable(cs[k], args) {
      var first := FirstViableExists(cs, args, k);
    }
  }

  // -------- Declaration order --------

  ghost predicate Permutes(order: seq<nat>, n: nat) {
    && |order| == n
    && (forall i | 0 <= i < n :: order[i] < n)
    && (forall i, j | 0 <= i < j < n :: order[i] != order[j])
    && (forall k: nat | k < n :: k in order)
  }

  function Reordered(cs: seq<Candidate>, order: seq<nat>): (r: seq<Candidate>)
    requires forall i | 0 <= i < |order| :: order[i] < |cs|
    ensures |r| == |order| && forall i | 0 <= i < |order| :: r[i] == cs[order[i]]
  {
    seq(|order|, i requires 0 <= i < |order| => cs[order[i]])
  }

  ghost predicate DistinctParams(cs: seq<Candidate>) {
    forall i, j | 0 <= i < j < |cs| && cs[i].Callable? && cs[j].Callable? :: cs[i].params != cs[j].params
  }

  // Viable candidates have the same parameter kinds.
  lemma ViableAgree(a: Candidate, b: Candidate, args: seq<Value>)
    requires Viable(a, args) && Viable(b, args)
    ensures a.params == b.params
  {
    forall i | 0 <= i < |args| ensures a.params[i] == b.params[i] {
      KindsDisjoint(a.params[i], b.params[i], args[i]);
    }
  }

  // The same candidate is chosen under every order of declaration.
  ghost predicate OrderFree(cs: seq<Candidate>) {
    forall order: seq<nat>, args: seq<Value>, k: nat, m: nat
      | Permutes(order, |cs|) && FirstViable(cs, args, k) && FirstViable(Reordered(cs, order), args, m) ::
      order[m] == k
  }

  // An argument each kind accepts.
  function Sample(kind: Kind): (v: Value)
    ensures Probe(kind, v)
  {
    match kind
    case KInt => Signed(0)
    case KUnsigned => Unsigned(0)
    case KDouble => Real(0)
    case KBool => Boolean(false)
    case KString => Text([], false)
  }

  function Samples(params: seq<Kind>): (args: seq<Value>)
    ensures |args| == |params| && forall i | 0 <= i < |args| :: Probe(params[i], args[i])
  {
    seq(|params|, i requires 0 <= i < |params| => Sample(params[i]))
  }

  lemma BackwardsCovers(n: nat, order: seq<nat>)
    requires |order| == n && forall i | 0 <= i < n :: order[i] == n - 1 - i
    ensures forall k: nat | k < n :: k in order
  {
    forall k: nat | k < n ensures k in order {
      assert order[n - 1 - k] == k;
    }
  }

  // Reversing the declarations.
  function Backwards(n: nat): (order: seq<nat>)
    ensures Permutes(order, n) && forall i | 0 <= i < n :: order[i] == n - 1 - i
  {
    var order := seq(n, i requires 0 <= i < n => n - 1 - i);
    BackwardsCovers(n, order);
    order
  }

  // Declaration order is irrelevant exactly when no two overloads take the same kinds.
  lemma OrderFreeIffDistinct(cs: seq<Candidate>)
    ensures OrderFree(cs) <==> DistinctParams(cs)
  {
    if DistinctParams(cs) {
      forall order: seq<nat>, args: seq<Value>, k: nat, m: nat
        | Permutes(order, |cs|) && FirstViable(cs, args, k) && FirstViable(Reordered(cs, order), args, m)
        ensures order[m] == k
      {
        ViableAgree(cs[order[m]], cs[k], args);
      }
    } else {
      var i, j :| 0 <= i < j < |cs| && cs[i].Callable? && cs[j].Callable? && cs[i].params == cs[j].params;
      var args := Samples(cs[i].params);
      var order := Backwards(|cs|);
      var reversed := Reordered(cs, order);
      assert Viable(cs[i], args) && reversed[|cs| - 1 - j] == cs[j];
      var k := FirstViableExists(cs, args, i);
      var m := FirstViableExists(reversed, args, |cs| - 1 - j);
      assert order[m] >= j > i >= k;
    }
  }
}
