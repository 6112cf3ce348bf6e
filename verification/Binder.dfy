/**
 The dispatcher over the router's own argument vector: probe a whole candidate, then consume the
 slots it converts, in whatever order the conversions are evaluated.
 */
module Binder {
  import opened Wrappers
  import opened Words
  import opened Wire
  import opened Overloads

  // What converting a slot may leave behind: only an owned string is moved out, and what remains of a
  // moved-from string is unspecified.
  ghost predicate Consumed(kind: Kind, before: Value, after: Value) {
    || after == before
    || (kind == KString && before.Text? && !before.borrowed && after.Text? && !after.borrowed)
  }

  // `from` on a mutable slot.
  method ConvertSlot(kind: Kind, args: array<Value>, i: nat) returns (r: Option<Native>)
    requires i < args.Length
    modifies args
    ensures r == From(kind, old(args[i]))
    ensures Consumed(kind, old(args[i]), args[i])
    ensures forall j | 0 <= j < args.Length && j != i :: args[j] == old(args[j])
  {
    r := From(kind, args[i]);
    if kind == KString && args[i].Text? && !args[i].borrowed {
      var leftover: seq<byte> := *;
      args[i] := Text(leftover, false);
    }
  }

  // The flag updated across the whole argument pack.
  method ProbeArguments(params: seq<Kind>, args: array<Value>) returns (accepted: bool)
    requires |params| == args.Length
    ensures accepted <==> forall i | 0 <= i < args.Length :: Probe(params[i], args[i])
  {
    accepted := true;
    var i := 0;
    while i < args.Length
      invariant 0 <= i <= args.Length
      invariant accepted <==> forall j | 0 <= j < i :: Probe(params[j], args[j])
    {
      accepted := accepted && Probe(params[i], args[i]);
      i := i + 1;
    }
  }

  // Each slot is converted once, in the order the compiler happens to evaluate them.
  method ConvertInOrder(params: seq<Kind>, args: array<Value>, order: seq<nat>)
    returns (converted: seq<Option<Native>>)
    requires |params| == args.Length && Permutes(order, args.Length)
    modifies args
    ensures |converted| == args.Length
    ensures forall i | 0 <= i < args.Length :: converted[i] == From(params[i], old(args[i]))
    ensures forall i | 0 <= i < args.Length :: Consumed(params[i], old(args[i]), args[i])
  {
    converted := seq(args.Length, _ => None);
    var k := 0;
    while k < |order|
      invariant 0 <= k <= |order| && |converted| == args.Length
      invariant forall m | k <= m < |order| :: args[order[m]] == old(args[order[m]])
      invariant forall m | 0 <= m < k :: converted[order[m]] == From(params[order[m]], old(args[order[m]]))
      invariant forall m | 0 <= m < k :: Consumed(params[order[m]], old(args[order[m]]), args[order[m]])
    {
      var r := ConvertSlot(params[order[k]], args, order[k]);
      converted := converted[order[k] := r];
      k := k + 1;
    }
    forall i | 0 <= i < args.Length
      ensures converted[i] == From(params[i], old(args[i])) && Consumed(params[i], old(args[i]), args[i])
    {
      assert i in order;
      var m :| 0 <= m < |order| && order[m] == i;
    }
  }

  // `all_optionals`, and the values when all are there.
  method AllOptionals(converted: seq<Option<Native>>) returns (all: bool, values: seq<Native>)
    ensures all <==> forall i | 0 <= i < |converted| :: converted[i].Some?
    ensures all ==> |values| == |converted| && forall i | 0 <= i < |converted| :: converted[i] == Some(values[i])
  {
    all, values := true, [];
    var i := 0;
    while i < |converted|
      invariant 0 <= i <= |converted|
      invariant all <==> forall j | 0 <= j < i :: converted[j].Some?
      invariant all ==> |values| == i && forall j | 0 <= j < i :: converted[j] == Some(values[j])
    {
      all := all && converted[i].Some?;
      if all {
        values := values + [converted[i].value];
      }
      i := i + 1;
    }
  }

  class OverloadBinder {
    const candidates: seq<Candidate>
    // Tells binders apart: the how-manieth binder made.
    ghost const serial: nat
    // Every call of native code: which candidate, with which arguments.
    ghost var invocations: seq<(nat, seq<Native>)>

    constructor (candidates: seq<Candidate>, ghost serial: nat)
      ensures this.candidates == candidates && this.serial == serial && invocations == []
    {
      this.candidates := candidates;
      this.serial := serial;
      invocations := [];
    }

    // The recursion over the contract list.  `schedule` gives, for each arity, the evaluation order of
    // the conversions, and no promise below mentions it.
    method CallOptional(k: nat, args: array<Value>, schedule: nat -> seq<nat>)
      returns (r: Dispatched, ghost chosen: nat)
      requires k <= |candidates| && forall n: nat :: Permutes(schedule(n), n)
      requires forall j | 0 <= j < k :: !Viable(candidates[j], args[..])
      modifies this, args
      ensures r == ProbingDispatch(candidates[k..], old(args[..]))
      ensures r != RejectedAfterProbe
      ensures r == NoMatch ==> args[..] == old(args[..]) && invocations == old(invocations)
      ensures r != NoMatch ==>
                && FirstViable(candidates, old(args[..]), chosen)
                && invocations == old(invocations) + [(chosen, Converted(candidates[chosen].params, old(args[..])))]
                && forall i | 0 <= i < args.Length :: Consumed(candidates[chosen].params[i], old(args[i]), args[i])
      decreases |candidates| - k
    {
      chosen := k;
      if k == |candidates| {
        return NoMatch, chosen;
      }
      var c := candidates[k];
      assert candidates[k..][1..] == candidates[k + 1..];
      if c.Callable? && |c.params| == args.Length {
        var accepted := ProbeArguments(c.params, args);
        if accepted {
          assert Viable(c, args[..]);
          assert Probes(c.params, args[..]);
          r := CallCandidate(k, args, schedule);
          return r, k;
        }
        assert !Probes(c.params, args[..]);
      }
      assert !Viable(c, args[..]);
      r, chosen := CallOptional(k + 1, args, schedule);
    }

    // Convert, check, and run one accepted candidate.
    method CallCandidate(k: nat, args: array<Value>, schedule: nat -> seq<nat>) returns (r: Dispatched)
      requires k < |candidates| && Viable(candidates[k], args[..]) && Permutes(schedule(args.Length), args.Length)
      modifies this, args
      ensures var ns := Converted(candidates[k].params, old(args[..]));
              r == Ran(candidates[k].run(ns)) && invocations == old(invocations) + [(k, ns)]
      ensures forall i | 0 <= i < args.Length :: Consumed(candidates[k].params[i], old(args[i]), args[i])
    {
      var c := candidates[k];
      ghost var expected := Converted(c.params, args[..]);
      var converted := ConvertInOrder(c.params, args, schedule(args.Length));
      var all, values := AllOptionals(converted);
      assert forall i | 0 <= i < args.Length :: converted[i] == Some(expected[i]);
      assert values == expected;
      if all {
        invocations := invocations + [(k, values)];
        r := Ran(c.run(values));
      } else {
        r := RejectedAfterProbe;
      }
    }

    // `dispatch_optional` with the consuming accessor.
    method DispatchOptional(args: array<Value>, schedule: nat -> seq<nat>) returns (r: Dispatched, ghost chosen: nat)
      requires forall n: nat :: Permutes(schedule(n), n)
      modifies this, args
      ensures r == ProbingDispatch(candidates, old(args[..])) != RejectedAfterProbe
      ensures r == NoMatch ==> args[..] == old(args[..]) && invocations == old(invocations)
      ensures r != NoMatch ==>
                && FirstViable(candidates, old(args[..]), chosen)
                && invocations == old(invocations) + [(chosen, Converted(candidates[chosen].params, old(args[..])))]
      ensures invocations == old(invocations) + Calls(candidates, old(args[..]))
      ensures forall i | 0 <= i < args.Length :: Consumed(KString, old(args[i]), args[i])
    {
      CallsMeaning(candidates, args[..]);
      assert candidates[0..] == candidates;
      r, chosen := CallOptional(0, args, schedule);
      assert r == NoMatch ==> forall i | 0 <= i < args.Length :: args[..][i] == old(args[..])[i];
    }
  }
}
