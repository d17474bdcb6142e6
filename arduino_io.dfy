/**
 * The module registry and dispatch loop of lib/arduinoio.h. The modules
 * are opaque (the abstract `UCModule` is not part of this model), so each
 * is represented by an identifier, and what the loop does to them is the
 * sequence of calls it makes. What module `i`'s `Tick()` returns in a pass
 * is a parameter.
 */
module ArduinoLoop {
  import opened Bytes
  import opened FirmwareMessage

  const MAX_MODULES := 10

  /** A call the loop makes on a module. */
  datatype Call<M> = Tick(id: nat) | Accept(id: nat, message: M)

  /** `AcceptMessage(message)` on every module, in order. */
  function Broadcast<M>(ids: seq<nat>, m: M): (r: seq<Call<M>>)
    ensures |r| == |ids| && forall k :: 0 <= k < |ids| ==> r[k] == Accept(ids[k], m)
  {
    seq(|ids|, k requires 0 <= k < |ids| => Accept(ids[k], m))
  }

  /**
   * The calls of `HandleLoopMessages` from iteration `i` on, with `first`
   * the pending `first_message_` and `results[i]` what module `i`'s `Tick`
   * returns.
   */
  function LoopFrom<M>(ids: seq<nat>, i: nat, first: Option<M>, results: seq<Option<M>>): seq<Call<M>>
    requires i <= |ids| == |results|
    decreases |ids| - i
  {
    if i == |ids| then []
    else
      var message := if first.Some? then first else results[i];
      var ticked := if first.Some? then [] else [Tick(ids[i])];
      ticked + (if message.Some? then Broadcast(ids, message.value) else []) + LoopFrom(ids, i + 1, None, results)
  }

  /** The modules ticked, in order. */
  function Ticks<M>(calls: seq<Call<M>>): seq<nat>
  {
    if calls == [] then []
    else (if calls[0].Tick? then [calls[0].id] else []) + Ticks(calls[1..])
  }

  /** The accept calls, in order. */
  function Accepts<M>(calls: seq<Call<M>>): seq<Call<M>>
  {
    if calls == [] then []
    else (if calls[0].Accept? then [calls[0]] else []) + Accepts(calls[1..])
  }

  /** The messages the ticks produced, in order. */
  function Produced<M>(results: seq<Option<M>>): seq<M>
  {
    if results == [] then []
    else (if results[0].Some? then [results[0].value] else []) + Produced(results[1..])
  }

  /** Each message broadcast to every module, one message after the other. */
  function Broadcasts<M>(ids: seq<nat>, messages: seq<M>): seq<Call<M>>
  {
    if messages == [] then [] else Broadcast(ids, messages[0]) + Broadcasts(ids, messages[1..])
  }

  lemma {:induction false} TicksAppend<M>(a: seq<Call<M>>, b: seq<Call<M>>)
    ensures Ticks(a + b) == Ticks(a) + Ticks(b)
    decreases |a|
  {
    if a != [] {
      var head := if a[0].Tick? then [a[0].id] else [];
      assert (a + b)[0] == a[0] && (a + b)[1..] == a[1..] + b;
      assert Ticks(a + b) == head + Ticks(a[1..] + b);
      TicksAppend(a[1..], b);
      assert Ticks(a + b) == head + (Ticks(a[1..]) + Ticks(b));
    } else {
      assert a + b == b;
    }
  }

  lemma {:induction false} AcceptsAppend<M>(a: seq<Call<M>>, b: seq<Call<M>>)
    ensures Accepts(a + b) == Accepts(a) + Accepts(b)
    decreases |a|
  {
    if a != [] {
      var head := if a[0].Accept? then [a[0]] else [];
      assert (a + b)[0] == a[0] && (a + b)[1..] == a[1..] + b;
      assert Accepts(a + b) == head + Accepts(a[1..] + b);
      AcceptsAppend(a[1..], b);
      assert Accepts(a + b) == head + (Accepts(a[1..]) + Accepts(b));
    } else {
      assert a + b == b;
    }
  }

  /** A broadcast ticks nothing and consists of accept calls only. */
  lemma {:induction false} BroadcastOnlyAccepts<M>(ids: seq<nat>, m: M)
    ensures Ticks(Broadcast(ids, m)) == [] && Accepts(Broadcast(ids, m)) == Broadcast(ids, m)
    decreases |ids|
  {
    if ids != [] {
      assert Broadcast(ids, m)[1..] == Broadcast(ids[1..], m);
      BroadcastOnlyAccepts(ids[1..], m);
    }
  }

  /** Without a pending first message, iterations `i..n-1` tick modules `i..n-1` in order. */
  lemma {:induction false} TicksFrom<M>(ids: seq<nat>, i: nat, results: seq<Option<M>>)
    requires i <= |ids| == |results|
    ensures Ticks(LoopFrom(ids, i, None, results)) == ids[i..]
    decreases |ids| - i
  {
    if i < |ids| {
      var sent: seq<Call<M>> := if results[i].Some? then Broadcast(ids, results[i].value) else [];
      assert Ticks([Tick(ids[i])] + sent) == [ids[i]] by {
        if results[i].Some? {
          BroadcastOnlyAccepts(ids, results[i].value);
        }
        TicksAppend([Tick(ids[i])], sent);
      }
      assert Ticks(LoopFrom(ids, i, None, results)) == Ticks([Tick(ids[i])] + sent) + Ticks(LoopFrom(ids, i + 1, None, results)) by {
        LoopStep(ids, i, results);
        TicksAppend([Tick(ids[i])] + sent, LoopFrom(ids, i + 1, None, results));
      }
      TicksFrom(ids, i + 1, results);
      assert ids[i..] == [ids[i]] + ids[i + 1..];
    } else {
      assert ids[i..] == [];
    }
  }

  /** One iteration without a pending message: a tick, then the broadcast of what it returned. */
  lemma LoopStep<M>(ids: seq<nat>, i: nat, results: seq<Option<M>>)
    requires i < |ids| == |results|
    ensures LoopFrom(ids, i, None, results)
            == [Tick(ids[i])] + (if results[i].Some? then Broadcast(ids, results[i].value) else [])
               + LoopFrom(ids, i + 1, None, results)
  {
  }

  /** One pass of the outer loop: the tick, if any, then the broadcast, if any. */
  lemma LoopUnfold<M>(ids: seq<nat>, i: nat, first: Option<M>, results: seq<Option<M>>,
                      ticked: seq<Call<M>>, sent: seq<Call<M>>)
    requires i < |ids| == |results|
    requires ticked == if first.Some? then [] else [Tick(ids[i])]
    requires var message := if first.Some? then first else results[i];
      sent == if message.Some? then Broadcast(ids, message.value) else []
    ensures LoopFrom(ids, i, first, results) == (ticked + sent) + LoopFrom(ids, i + 1, None, results)
  {
  }

  /** The bookkeeping of one outer pass: what is still to come shrinks by what was just recorded. */
  lemma LoopPass<M>(total: seq<Call<M>>, before: seq<Call<M>>, calls: seq<Call<M>>, ids: seq<nat>, i: nat,
                    first: Option<M>, results: seq<Option<M>>, ticked: seq<Call<M>>, sent: seq<Call<M>>)
    requires i < |ids| == |results| && total == before + LoopFrom(ids, i, first, results)
    requires ticked == if first.Some? then [] else [Tick(ids[i])]
    requires var message := if first.Some? then first else results[i];
      sent == if message.Some? then Broadcast(ids, message.value) else []
    requires calls == before + ticked + sent
    ensures total == calls + LoopFrom(ids, i + 1, None, results)
  {
    LoopUnfold(ids, i, first, results, ticked, sent);
    assert before + (ticked + sent) == before + ticked + sent;
    var rest := LoopFrom(ids, i + 1, None, results);
    assert before + ((ticked + sent) + rest) == (before + (ticked + sent)) + rest;
  }

  lemma {:induction false} AcceptsStep<M>(ids: seq<nat>, i: nat, results: seq<Option<M>>)
    requires i < |ids| == |results|
    ensures Accepts(LoopFrom(ids, i, None, results))
            == (if results[i].Some? then Broadcast(ids, results[i].value) else []) + Accepts(LoopFrom(ids, i + 1, None, results))
  {
    var sent: seq<Call<M>> := if results[i].Some? then Broadcast(ids, results[i].value) else [];
    if results[i].Some? {
      BroadcastOnlyAccepts(ids, results[i].value);
    }
    LoopStep(ids, i, results);
    AcceptsAppend([Tick(ids[i])] + sent, LoopFrom(ids, i + 1, None, results));
    AcceptsAppend([Tick(ids[i])], sent);
    assert Accepts<M>([Tick(ids[i])]) == [];
  }

  lemma ProducedStep<M>(results: seq<Option<M>>, i: nat)
    requires i < |results|
    ensures Produced(results[i..]) == (if results[i].Some? then [results[i].value] else []) + Produced(results[i + 1..])
  {
    assert results[i..][1..] == results[i + 1..];
  }

  lemma BroadcastsCons<M>(ids: seq<nat>, m: M, rest: seq<M>)
    ensures Broadcasts(ids, [m] + rest) == Broadcast(ids, m) + Broadcasts(ids, rest)
  {
    assert ([m] + rest)[1..] == rest;
  }

  /** Without a pending first message, iterations `i..n-1` broadcast what those ticks produced, in order. */
  lemma {:induction false} AcceptsFrom<M>(ids: seq<nat>, i: nat, results: seq<Option<M>>)
    requires i <= |ids| == |results|
    ensures Accepts(LoopFrom(ids, i, None, results)) == Broadcasts(ids, Produced(results[i..]))
    decreases |ids| - i
  {
    if i < |ids| {
      AcceptsStep(ids, i, results);
      AcceptsFrom(ids, i + 1, results);
      ProducedStep(results, i);
      if results[i].Some? {
        BroadcastsCons(ids, results[i].value, Produced(results[i + 1..]));
      } else {
        assert Produced(results[i..]) == Produced(results[i + 1..]);
      }
    } else {
      assert results[i..] == [];
    }
  }

  /**
   * One pass with no pending first message (always the case, since nothing
   * sets it): every module is ticked exactly once, in order, and every
   * message a tick produced is offered to every module, its producer
   * included, in production order.
   */
  lemma EveryModuleTickedOnce<M>(ids: seq<nat>, results: seq<Option<M>>)
    requires |ids| == |results|
    ensures Ticks(LoopFrom(ids, 0, None, results)) == ids
    ensures Accepts(LoopFrom(ids, 0, None, results)) == Broadcasts(ids, Produced(results))
  {
    TicksFrom(ids, 0, results);
    AcceptsFrom(ids, 0, results);
    assert results[0..] == results;
  }

  /**
   * A pending first message replaces module 0's tick: the other modules are
   * ticked in order, and the first message is broadcast before anything
   * they produce, once.
   */
  lemma PendingFirstMessage<M>(ids: seq<nat>, m: M, results: seq<Option<M>>)
    requires 0 < |ids| == |results|
    ensures Ticks(LoopFrom(ids, 0, Some(m), results)) == ids[1..]
    ensures Accepts(LoopFrom(ids, 0, Some(m), results)) == Broadcasts(ids, [m] + Produced(results[1..]))
  {
    var sent := Broadcast(ids, m);
    var rest := LoopFrom(ids, 1, None, results);
    assert LoopFrom(ids, 0, Some(m), results) == sent + rest by {
      assert LoopFrom(ids, 0, Some(m), results) == [] + sent + rest;
      assert [] + sent == sent;
    }
    BroadcastOnlyAccepts(ids, m);
    TicksAppend(sent, rest);
    AcceptsAppend(sent, rest);
    TicksFrom(ids, 1, results);
    AcceptsFrom(ids, 1, results);
    BroadcastsCons(ids, m, Produced(results[1..]));
  }

  /** The registry. */
  class ArduinoIO {
    const modules: array<nat>
    var numModules: int
    var firstMessage: Option<Fields>
    /** The calls made on the modules so far. */
    var calls: seq<Call<Fields>>

    ghost predicate Valid()
      reads this
    {
      modules.Length == MAX_MODULES && 0 <= numModules <= MAX_MODULES
    }

    /** The registered modules, in order. */
    function Ids(): seq<nat>
      requires Valid()
      reads this, modules
    {
      modules[..numModules]
    }

    /** `ArduinoIO()`: no modules, no pending message. */
    constructor ()
      ensures Valid() && fresh(modules) && Ids() == [] && firstMessage == None && calls == []
    {
      modules := new nat[MAX_MODULES](_ => 0);
      numModules := 0;
      firstMessage := None;
      calls := [];
    }

    /** `Add(module)`: appends to the registry. */
    method Add(id: nat)
      requires Valid() && numModules < MAX_MODULES
      modifies this, modules
      ensures Valid() && Ids() == old(Ids()) + [id]
      ensures firstMessage == old(firstMessage) && calls == old(calls)
    {
      modules[numModules] := id;
      numModules := numModules + 1;
      assert modules[..numModules] == old(modules[..numModules]) + [id];
    }

    /** `HandleLoopMessages()`, with `results[i]` what module `i`'s `Tick` returns. */
    method HandleLoopMessages(results: seq<Option<Fields>>)
      requires Valid() && |results| == numModules
      modifies this
      ensures Valid() && Ids() == old(Ids())
      ensures calls == old(calls) + LoopFrom(Ids(), 0, old(firstMessage), results)
      ensures firstMessage == if numModules > 0 then None else old(firstMessage)
    {
      ghost var ids := Ids();
      ghost var total := old(calls) + LoopFrom(ids, 0, old(firstMessage), results);
      for i := 0 to numModules
        invariant Valid() && Ids() == ids
        invariant i > 0 ==> firstMessage == None
        invariant i == 0 ==> firstMessage == old(firstMessage)
        invariant total == calls + LoopFrom(ids, i, firstMessage, results)
      {
        ghost var before := calls;
        ghost var first := firstMessage;
        assert modules[i] == ids[i];
        var message: Option<Fields>;
        ghost var ticked: seq<Call<Fields>> := [];
        if firstMessage.Some? {
          message := firstMessage;
        } else {
          calls := calls + [Tick(modules[i])];
          ticked := [Tick(ids[i])];
          message := results[i];
        }
        ghost var sent: seq<Call<Fields>> := [];
        if message.Some? {
          Offer(message.value);
          sent := Broadcast(ids, message.value);
        }
        firstMessage := None;
        LoopPass(total, before, calls, ids, i, first, results, ticked, sent);
      }
    }

    /** The inner loop of `HandleLoopMessages`: `AcceptMessage(m)` on every module, in order. */
    method Offer(m: Fields)
      requires Valid()
      modifies this
      ensures Valid() && Ids() == old(Ids()) && firstMessage == old(firstMessage)
      ensures calls == old(calls) + Broadcast(Ids(), m)
    {
      ghost var ids := Ids();
      for j := 0 to numModules
        invariant Valid() && Ids() == ids && firstMessage == old(firstMessage)
        invariant calls == old(calls) + Broadcast(ids[..j], m)
      {
        calls := calls + [Accept(modules[j], m)];
        assert Broadcast(ids[..j + 1], m) == Broadcast(ids[..j], m) + [Accept(ids[j], m)];
      }
      assert ids[..numModules] == ids;
    }
  }
}
