/**
 * The cursor-following loop shared by the four enumerations: the first list
 * call is made without a cursor; while the latest reply carries a cursor, it
 * is passed to the next call; every page's items are kept or dropped by a
 * filter and converted, in arrival order. Go reads the output pointer of
 * every reply right after the call (to range over its items), so a nil
 * output panics the enumeration; the error of a reply is not looked at here.
 */
module Pagination {
  import opened Wrappers
  import opened EcrApi

  /**
   * The replies an enumeration receives, from reply k on: it stops after a
   * reply with no output or no cursor; the cursor of the last reply in the
   * registry is answered by a rejection.
   */
  function ReceivedFrom<T>(registry: seq<Reply<T>>, k: nat): (rs: seq<Reply<T>>)
    requires k < |registry|
    ensures |rs| >= 1 && rs[0] == registry[k]
    decreases |registry| - k
  {
    if Cursor(registry[k]).None? then [registry[k]]
    else if k + 1 < |registry| then [registry[k]] + ReceivedFrom(registry, k + 1)
    else [registry[k], Rejected()]
  }

  /** Every reply the enumeration receives, in order. */
  function Received<T>(registry: seq<Reply<T>>): (rs: seq<Reply<T>>)
    requires |registry| > 0
    ensures |rs| >= 1
  {
    ReceivedFrom(registry, 0)
  }

  /** Every reply has an output, so ranging over the items never panics. */
  predicate AllOutputs<T>(rs: seq<Reply<T>>)
  {
    forall i :: 0 <= i < |rs| ==> rs[i].output.Some?
  }

  /** The converted items of one page that pass the filter, in page order. */
  function Collect<T, U>(items: seq<T>, keep: T -> bool, conv: T -> U): (r: seq<U>)
    ensures |r| <= |items|
  {
    if items == [] then []
    else
      var last := items[|items| - 1];
      Collect(items[..|items| - 1], keep, conv) + (if keep(last) then [conv(last)] else [])
  }

  /** The collected items of a run of replies, all of which have an output. */
  function Gather<T, U>(rs: seq<Reply<T>>, keep: T -> bool, conv: T -> U): (r: seq<U>)
    requires AllOutputs(rs)
  {
    if rs == [] then []
    else Gather(rs[..|rs| - 1], keep, conv) + Collect(rs[|rs| - 1].output.value.items, keep, conv)
  }

  /** The result of the loop: a panic, or the items collected and the last reply's page and error. */
  datatype Walk<T, U> = Panicked | Walked(items: seq<U>, last: Page<T>, lastErr: Option<ApiError>)

  /** What the loop yields for a registry. */
  function WalkOf<T, U>(registry: seq<Reply<T>>, keep: T -> bool, conv: T -> U): (w: Walk<T, U>)
    requires |registry| > 0
  {
    var rs := Received(registry);
    if AllOutputs(rs) then Walked(Gather(rs, keep, conv), rs[|rs| - 1].output.value, rs[|rs| - 1].err)
    else Panicked
  }

  /** One page's `for ... range` loop: appends the kept, converted items. */
  method AppendPage<T, U>(acc: seq<U>, items: seq<T>, keep: T -> bool, conv: T -> U) returns (r: seq<U>)
    ensures r == acc + Collect(items, keep, conv)
  {
    r := acc;
    for i := 0 to |items|
      invariant r == acc + Collect(items[..i], keep, conv)
    {
      assert items[..i + 1][..i] == items[..i];
      if keep(items[i]) {
        r := r + [conv(items[i])];
      }
    }
    assert items[..|items|] == items;
  }

  /** The cursor passed to each call that fetched rs: none to the first, then the previous reply's. */
  function CursorsFor<T>(rs: seq<Reply<T>>): (cs: seq<Option<string>>)
    ensures |cs| == |rs|
  {
    seq(|rs|, i requires 0 <= i < |rs| => if i == 0 then None else Cursor(rs[i - 1]))
  }

  lemma ReceivedStep<T>(registry: seq<Reply<T>>, before: seq<Reply<T>>, k: nat)
    requires k < |registry| && Cursor(registry[k]).Some?
    requires Received(registry) == before + ReceivedFrom(registry, k)
    ensures k + 1 < |registry| ==> Received(registry) == (before + [registry[k]]) + ReceivedFrom(registry, k + 1)
    ensures k + 1 == |registry| ==> Received(registry) == (before + [registry[k]]) + [Rejected()]
  {
  }

  lemma GatherStep<T, U>(rs: seq<Reply<T>>, r: Reply<T>, keep: T -> bool, conv: T -> U)
    requires AllOutputs(rs) && r.output.Some?
    ensures AllOutputs(rs + [r])
    ensures Gather(rs + [r], keep, conv) == Gather(rs, keep, conv) + Collect(r.output.value.items, keep, conv)
  {
    assert (rs + [r])[..|rs|] == rs;
  }

  lemma CursorsStep<T>(rs: seq<Reply<T>>, r: Reply<T>)
    requires |rs| > 0
    ensures CursorsFor(rs + [r]) == CursorsFor(rs) + [Cursor(rs[|rs| - 1])]
  {
  }

  /**
   * The loop, given the reply to the first call (made without a cursor);
   * `cursors` records the cursor passed to each call.
   */
  method FollowCursors<T, U>(registry: seq<Reply<T>>, first: Reply<T>, keep: T -> bool, conv: T -> U)
    returns (w: Walk<T, U>, ghost cursors: seq<Option<string>>)
    requires Valid(registry) && first == Serve(registry, None)
    ensures w == WalkOf(registry, keep, conv)
    ensures cursors == CursorsFor(Received(registry))
  {
    var resp := first;
    cursors := [None];
    ghost var k := 0;
    ghost var before: seq<Reply<T>> := [];
    if resp.output.None? {
      assert Received(registry)[0] == resp;
      return Panicked, cursors;
    }
    var acc := AppendPage([], resp.output.value.items, keep, conv);
    GatherStep([], resp, keep, conv);
    assert before + [resp] == [resp];
    while resp.output.value.nextToken.Some?
      invariant 0 <= k < |registry| && resp == registry[k] && resp.output.Some?
      invariant Received(registry) == before + ReceivedFrom(registry, k)
      invariant AllOutputs(before + [resp])
      invariant acc == Gather(before + [resp], keep, conv)
      invariant cursors == CursorsFor(before + [resp])
      decreases |registry| - k
    {
      var cursor := resp.output.value.nextToken;
      ServeFollows(registry, k);
      ReceivedStep(registry, before, k);
      ghost var received := before + [resp];
      before := received;
      resp := Serve(registry, cursor);
      CursorsStep(received, resp);
      cursors := cursors + [cursor];
      if resp.output.None? {
        return Panicked, cursors;
      }
      k := k + 1;
      acc := AppendPage(acc, resp.output.value.items, keep, conv);
      GatherStep(received, resp, keep, conv);
    }
    assert Received(registry) == before + [resp];
    w := Walked(acc, resp.output.value, resp.err);
  }
}

/** What the loop's specification promises, stated over any registry. */
module PaginationFacts {
  import opened Wrappers
  import opened EcrApi
  import opened Pagination

  /** Before the last reply, the walk receives the registry's replies in order, each with a cursor. */
  lemma {:induction false} ReceivedFromPrefix<T>(registry: seq<Reply<T>>, k: nat)
    requires Valid(registry) && k < |registry|
    ensures k + |ReceivedFrom(registry, k)| - 1 <= |registry|
    ensures ReceivedFrom(registry, k)[..|ReceivedFrom(registry, k)| - 1] == registry[k..k + |ReceivedFrom(registry, k)| - 1]
    ensures forall i :: 0 <= i < |ReceivedFrom(registry, k)| - 1 ==> Cursor(ReceivedFrom(registry, k)[i]).Some?
    decreases |registry| - k
  {
    var rs := ReceivedFrom(registry, k);
    if Cursor(registry[k]).Some? && k + 1 < |registry| {
      ReceivedFromPrefix(registry, k + 1);
      var tail := ReceivedFrom(registry, k + 1);
      assert rs == [registry[k]] + tail;
      assert rs[..|rs| - 1] == [registry[k]] + tail[..|tail| - 1];
      assert registry[k..k + |rs| - 1] == [registry[k]] + registry[k + 1..k + 1 + |tail| - 1];
      forall i | 0 <= i < |ReceivedFrom(registry, k)| - 1 ensures Cursor(ReceivedFrom(registry, k)[i]).Some? {
        if i > 0 {
          assert rs[i] == tail[i - 1];
        }
      }
    }
  }

  /** Each reply after the first is the registry's answer to the cursor of the one before. */
  lemma {:induction false} ReceivedFromServed<T>(registry: seq<Reply<T>>, k: nat)
    requires Valid(registry) && k < |registry|
    ensures Cursor(ReceivedFrom(registry, k)[|ReceivedFrom(registry, k)| - 1]).None?
    ensures forall i :: 0 < i < |ReceivedFrom(registry, k)| ==>
      Serve(registry, Cursor(ReceivedFrom(registry, k)[i - 1])) == ReceivedFrom(registry, k)[i]
    decreases |registry| - k
  {
    var rs := ReceivedFrom(registry, k);
    if Cursor(registry[k]).Some? {
      ServeFollows(registry, k);
      if k + 1 < |registry| {
        ReceivedFromServed(registry, k + 1);
        var tail := ReceivedFrom(registry, k + 1);
        assert rs == [registry[k]] + tail;
        forall i | 0 < i < |ReceivedFrom(registry, k)|
          ensures Serve(registry, Cursor(ReceivedFrom(registry, k)[i - 1])) == ReceivedFrom(registry, k)[i]
        {
          if i > 1 {
            assert rs[i - 1] == tail[i - 2] && rs[i] == tail[i - 1];
          }
        }
      }
    }
  }

  /**
   * The enumeration's calls: the first without a cursor, each later one with
   * the cursor of the reply before it, which that reply did carry; each call
   * is answered by the registry's reply to its cursor.
   */
  lemma ReceivedHandOff<T>(registry: seq<Reply<T>>)
    requires Valid(registry)
    ensures CursorsFor(Received(registry))[0] == None
    ensures forall i :: 0 < i < |Received(registry)| ==>
      CursorsFor(Received(registry))[i] == Cursor(Received(registry)[i - 1]) && Cursor(Received(registry)[i - 1]).Some?
    ensures forall i :: 0 <= i < |Received(registry)| ==> Serve(registry, CursorsFor(Received(registry))[i]) == Received(registry)[i]
  {
    ReceivedFromPrefix(registry, 0);
    ReceivedFromServed(registry, 0);
    var rs, cs := Received(registry), CursorsFor(Received(registry));
    forall i | 0 < i < |rs| ensures Serve(registry, cs[i]) == rs[i] {
      assert cs[i] == Cursor(rs[i - 1]);
    }
  }

  /**
   * The replies received are the registry's, in order, up to the last one,
   * which is the first one without a cursor (or without an output).
   */
  lemma ReceivedShape<T>(registry: seq<Reply<T>>)
    requires Valid(registry)
    ensures |Received(registry)| - 1 <= |registry|
    ensures Received(registry)[..|Received(registry)| - 1] == registry[..|Received(registry)| - 1]
    ensures Cursor(Received(registry)[|Received(registry)| - 1]).None?
  {
    ReceivedFromPrefix(registry, 0);
    ReceivedFromServed(registry, 0);
  }

  /**
   * When every reply has an output and the last carries no cursor, the walk
   * receives every reply exactly once, in order, and collects every page.
   */
  lemma {:induction false} CompleteRegistryFullyWalked<T, U>(registry: seq<Reply<T>>, keep: T -> bool, conv: T -> U)
    requires Valid(registry) && AllOutputs(registry) && Cursor(registry[|registry| - 1]).None?
    ensures Received(registry) == registry
    ensures WalkOf(registry, keep, conv)
         == Walked(Gather(registry, keep, conv), registry[|registry| - 1].output.value, registry[|registry| - 1].err)
  {
    ReceivedFromAll(registry, 0);
  }

  lemma {:induction false} ReceivedFromAll<T>(registry: seq<Reply<T>>, k: nat)
    requires Valid(registry) && k < |registry| && Cursor(registry[|registry| - 1]).None?
    ensures ReceivedFrom(registry, k) == registry[k..]
    decreases |registry| - k
  {
    if k + 1 < |registry| {
      ReceivedFromAll(registry, k + 1);
      assert registry[k..] == [registry[k]] + registry[k + 1..];
    }
  }

  /** A registry whose first reply is a nil output panics the walk. */
  lemma NilFirstOutputPanics<T, U>(registry: seq<Reply<T>>, keep: T -> bool, conv: T -> U)
    requires Valid(registry) && registry[0].output.None?
    ensures WalkOf(registry, keep, conv) == Panicked
  {
  }

  /** An item is collected exactly when some item of the page passes the filter and converts to it. */
  lemma {:induction false} CollectMembers<T, U>(items: seq<T>, keep: T -> bool, conv: T -> U, y: U)
    ensures y in Collect(items, keep, conv) <==> exists x :: x in items && keep(x) && conv(x) == y
  {
    if items != [] {
      var init, last := items[..|items| - 1], items[|items| - 1];
      CollectMembers(init, keep, conv, y);
      assert items == init + [last];
    }
  }

  /** Collecting two runs of items one after the other is collecting their concatenation. */
  lemma {:induction false} CollectConcat<T, U>(a: seq<T>, b: seq<T>, keep: T -> bool, conv: T -> U)
    ensures Collect(a + b, keep, conv) == Collect(a, keep, conv) + Collect(b, keep, conv)
  {
    if b != [] {
      CollectConcat(a, b[..|b| - 1], keep, conv);
      assert (a + b)[..|a + b| - 1] == a + b[..|b| - 1];
    } else {
      assert a + b == a;
    }
  }

  /** An item is gathered exactly when some page of the run holds an item that passes the filter and converts to it. */
  lemma {:induction false} GatherMembers<T, U>(rs: seq<Reply<T>>, keep: T -> bool, conv: T -> U, y: U)
    requires AllOutputs(rs)
    ensures y in Gather(rs, keep, conv) <==>
      exists i, x :: 0 <= i < |rs| && x in rs[i].output.value.items && keep(x) && conv(x) == y
  {
    if rs != [] {
      var init, last := rs[..|rs| - 1], rs[|rs| - 1];
      assert AllOutputs(init);
      GatherMembers(init, keep, conv, y);
      CollectMembers(last.output.value.items, keep, conv, y);
      assert Gather(rs, keep, conv) == Gather(init, keep, conv) + Collect(last.output.value.items, keep, conv);
      if y in Gather(init, keep, conv) {
        var i, x :| 0 <= i < |init| && x in init[i].output.value.items && keep(x) && conv(x) == y;
        assert rs[i] == init[i];
      } else if y in Collect(last.output.value.items, keep, conv) {
        var x :| x in last.output.value.items && keep(x) && conv(x) == y;
        assert 0 <= |rs| - 1 < |rs| && x in rs[|rs| - 1].output.value.items;
      }
      if exists i, x :: 0 <= i < |rs| && x in rs[i].output.value.items && keep(x) && conv(x) == y {
        var i, x :| 0 <= i < |rs| && x in rs[i].output.value.items && keep(x) && conv(x) == y;
        if i < |init| {
          assert init[i] == rs[i];
        } else {
          assert rs[i] == last;
        }
      }
    }
  }
}
