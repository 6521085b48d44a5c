/** Resolving every dual value inside a configuration tree against one
    environment. Plain values are left alone, an optional value is visited
    only when present, the elements of a list, the values of a key-ordered
    map and the fields of a record are visited in order, and the first
    failure stops the walk: what was resolved before it stays resolved, and
    nothing after it is touched. */
module ResolveAll {
  import opened Errors
  import opened Interpolation
  import opened RawOrValues

  /** A configuration tree whose dual values all carry one payload type. */
  datatype Node<T> =
    /** A number, boolean, string or unit: nothing to resolve. */
    | Plain
    /** A dual value. */
    | Dual(x: RawOrValue<T>)
    /** An optional value. */
    | Opt(o: Option<Node<T>>)
    /** A list. */
    | List(items: seq<Node<T>>)
    /** A map, as its keys in ascending order and the value of each key at
        the same index: `keys` holds no duplicate and has the length of
        `values`. The walk reads only `values` and keeps `keys` as it is. */
    | Dict(keys: seq<string>, values: seq<Node<T>>)
    /** A record, as its fields in declaration order. */
    | Record(fields: seq<Node<T>>)

  /** The outcome of a walk and the tree it leaves. */
  datatype Walked<T> = Walked(res: Result<()>, node: Node<T>)

  datatype WalkedSeq<T> = WalkedSeq(res: Result<()>, items: seq<Node<T>>)

  function Walk<T>(c: Codec<T>, env: Env, n: Node<T>): (w: Walked<T>)
    decreases n, 1
  {
    match n
    case Plain => Walked(Ok(()), n)
    case Dual(x) =>
      var r := Resolve(c, x, env);
      Walked(if r.Ok? then Ok(()) else Err(r.error), Dual(Resolved(c, x, env)))
    case Opt(o) =>
      if o.None? then Walked(Ok(()), n)
      else
        var w := Walk(c, env, o.value);
        Walked(w.res, Opt(Some(w.node)))
    case List(items) =>
      var w := WalkSeq(c, env, items);
      Walked(w.res, List(w.items))
    case Dict(keys, values) =>
      var w := WalkSeq(c, env, values);
      Walked(w.res, Dict(keys, w.items))
    case Record(fields) =>
      var w := WalkSeq(c, env, fields);
      Walked(w.res, Record(w.items))
  }

  /** Visit the items in order and stop at the first failure. */
  function WalkSeq<T>(c: Codec<T>, env: Env, items: seq<Node<T>>): (w: WalkedSeq<T>)
    decreases items, 0
    ensures |w.items| == |items|
  {
    if items == [] then WalkedSeq(Ok(()), [])
    else
      var first := Walk(c, env, items[0]);
      if first.res.Err? then WalkedSeq(first.res, [first.node] + items[1..])
      else
        var rest := WalkSeq(c, env, items[1..]);
        WalkedSeq(rest.res, [first.node] + rest.items)
  }

  /** No dual value left in the raw state. */
  predicate AllResolved<T>(n: Node<T>)
    decreases n, 1
  {
    match n
    case Plain => true
    case Dual(x) => x.Value?
    case Opt(o) => o.None? || AllResolved(o.value)
    case List(items) => AllResolvedSeq(items)
    case Dict(_, values) => AllResolvedSeq(values)
    case Record(fields) => AllResolvedSeq(fields)
  }

  predicate AllResolvedSeq<T>(items: seq<Node<T>>)
    decreases items, 0
  {
    forall i :: 0 <= i < |items| ==> AllResolved(items[i])
  }

  /** The tree with every dual value blanked out: what a walk must keep. */
  function Shape<T>(n: Node<T>): Node<T>
    decreases n, 1
  {
    match n
    case Plain => Plain
    case Dual(_) => Dual(Raw(""))
    case Opt(o) => if o.None? then n else Opt(Some(Shape(o.value)))
    case List(items) => List(ShapeSeq(items))
    case Dict(keys, values) => Dict(keys, ShapeSeq(values))
    case Record(fields) => Record(ShapeSeq(fields))
  }

  function ShapeSeq<T>(items: seq<Node<T>>): (r: seq<Node<T>>)
    decreases items, 0
    ensures |r| == |items|
  {
    if items == [] then [] else [Shape(items[0])] + ShapeSeq(items[1..])
  }

  // ---------------------------------------------------------------------
  // Laws of the walk.

  /** A walk changes dual values only: the shape of the tree, the keys of
      every map and the length of every list stay as they were. */
  lemma {:induction false} WalkKeepsShape<T>(c: Codec<T>, env: Env, n: Node<T>)
    ensures Shape(Walk(c, env, n).node) == Shape(n)
    decreases n, 1
  {
    match n
    case Plain =>
    case Dual(_) =>
    case Opt(o) =>
      if o.Some? {
        WalkKeepsShape(c, env, o.value);
      }
    case List(items) =>
      WalkSeqKeepsShape(c, env, items);
    case Dict(_, values) =>
      WalkSeqKeepsShape(c, env, values);
    case Record(fields) =>
      WalkSeqKeepsShape(c, env, fields);
  }

  lemma {:induction false} WalkSeqKeepsShape<T>(c: Codec<T>, env: Env, items: seq<Node<T>>)
    ensures ShapeSeq(WalkSeq(c, env, items).items) == ShapeSeq(items)
    decreases items, 0
  {
    if items != [] {
      var first := Walk(c, env, items[0]);
      WalkKeepsShape(c, env, items[0]);
      var out := WalkSeq(c, env, items).items;
      assert out[0] == first.node;
      if first.res.Err? {
        assert out[1..] == items[1..];
      } else {
        WalkSeqKeepsShape(c, env, items[1..]);
        assert out[1..] == WalkSeq(c, env, items[1..]).items;
      }
    }
  }

  /** A walk that succeeds leaves no raw dual value behind. */
  lemma {:induction false} WalkResolvesAll<T>(c: Codec<T>, env: Env, n: Node<T>)
    requires Walk(c, env, n).res.Ok?
    ensures AllResolved(Walk(c, env, n).node)
    decreases n, 1
  {
    match n
    case Plain =>
    case Dual(_) =>
    case Opt(o) =>
      if o.Some? {
        WalkResolvesAll(c, env, o.value);
      }
    case List(items) =>
      WalkSeqResolvesAll(c, env, items);
    case Dict(_, values) =>
      WalkSeqResolvesAll(c, env, values);
    case Record(fields) =>
      WalkSeqResolvesAll(c, env, fields);
  }

  lemma {:induction false} WalkSeqResolvesAll<T>(c: Codec<T>, env: Env, items: seq<Node<T>>)
    requires WalkSeq(c, env, items).res.Ok?
    ensures AllResolvedSeq(WalkSeq(c, env, items).items)
    decreases items, 0
  {
    if items != [] {
      var first := Walk(c, env, items[0]);
      WalkResolvesAll(c, env, items[0]);
      WalkSeqResolvesAll(c, env, items[1..]);
      var out := WalkSeq(c, env, items).items;
      assert out == [first.node] + WalkSeq(c, env, items[1..]).items;
    }
  }

  /** On a tree with nothing raw left, a walk succeeds and changes nothing,
      whatever the environment holds; so walking twice is walking once. */
  lemma {:induction false} WalkResolvedIsNoOp<T>(c: Codec<T>, env: Env, n: Node<T>)
    requires AllResolved(n)
    ensures Walk(c, env, n) == Walked(Ok(()), n)
    decreases n, 1
  {
    match n
    case Plain =>
    case Dual(_) =>
    case Opt(o) =>
      if o.Some? {
        WalkResolvedIsNoOp(c, env, o.value);
      }
    case List(items) =>
      WalkSeqResolvedIsNoOp(c, env, items);
    case Dict(_, values) =>
      WalkSeqResolvedIsNoOp(c, env, values);
    case Record(fields) =>
      WalkSeqResolvedIsNoOp(c, env, fields);
  }

  lemma {:induction false} WalkSeqResolvedIsNoOp<T>(c: Codec<T>, env: Env, items: seq<Node<T>>)
    requires AllResolvedSeq(items)
    ensures WalkSeq(c, env, items) == WalkedSeq(Ok(()), items)
    decreases items, 0
  {
    if items != [] {
      assert AllResolved(items[0]);
      WalkResolvedIsNoOp(c, env, items[0]);
      assert AllResolvedSeq(items[1..]) by {
        forall i | 0 <= i < |items[1..]|
          ensures AllResolved(items[1..][i])
        {
          assert items[1..][i] == items[i + 1];
        }
      }
      WalkSeqResolvedIsNoOp(c, env, items[1..]);
      assert [items[0]] + items[1..] == items;
    }
  }

  lemma WalkTwice<T>(c: Codec<T>, env: Env, env': Env, n: Node<T>)
    requires Walk(c, env, n).res.Ok?
    ensures Walk(c, env', Walk(c, env, n).node) == Walked(Ok(()), Walk(c, env, n).node)
  {
    WalkResolvesAll(c, env, n);
    WalkResolvedIsNoOp(c, env', Walk(c, env, n).node);
  }

  /** The first item whose walk fails, or the number of items. */
  function FirstFailingItem<T>(c: Codec<T>, env: Env, items: seq<Node<T>>): (k: nat)
    ensures k <= |items|
    ensures forall i :: 0 <= i < k ==> Walk(c, env, items[i]).res.Ok?
    ensures k < |items| ==> Walk(c, env, items[k]).res.Err?
  {
    if items == [] then 0
    else if Walk(c, env, items[0]).res.Err? then 0
    else 1 + FirstFailingItem(c, env, items[1..])
  }

  /** Fail-fast, item by item: the walk of a list stops at its first
      failing item `k`, whose error it reports; every item up to `k` is
      walked and every item after it is untouched. */
  ghost predicate FailsFast<T>(c: Codec<T>, env: Env, items: seq<Node<T>>) {
    var k := FirstFailingItem(c, env, items);
    var w := WalkSeq(c, env, items);
    && w.res == (if k < |items| then Walk(c, env, items[k]).res else Ok(()))
    && forall i :: 0 <= i < |items| ==> w.items[i] == if i <= k then Walk(c, env, items[i]).node else items[i]
  }

  lemma FailsFastAtHead<T>(c: Codec<T>, env: Env, items: seq<Node<T>>)
    requires items != [] && Walk(c, env, items[0]).res.Err?
    ensures FailsFast(c, env, items)
  {
    var w := WalkSeq(c, env, items);
    assert w.items == [Walk(c, env, items[0]).node] + items[1..];
    forall i | 0 < i < |items|
      ensures w.items[i] == items[i]
    {
      assert w.items[i] == items[1..][i - 1];
    }
  }

  lemma FailsFastLater<T>(c: Codec<T>, env: Env, items: seq<Node<T>>)
    requires items != [] && Walk(c, env, items[0]).res.Ok? && FailsFast(c, env, items[1..])
    ensures FailsFast(c, env, items)
  {
    var w := WalkSeq(c, env, items);
    var rest := WalkSeq(c, env, items[1..]);
    var k := FirstFailingItem(c, env, items);
    var k' := FirstFailingItem(c, env, items[1..]);
    assert k == k' + 1;
    assert w.items == [Walk(c, env, items[0]).node] + rest.items;
    if k' < |items| - 1 {
      assert items[k] == items[1..][k'];
    }
    forall i | 0 < i < |items|
      ensures w.items[i] == if i <= k then Walk(c, env, items[i]).node else items[i]
    {
      assert w.items[i] == rest.items[i - 1];
      assert items[i] == items[1..][i - 1];
    }
  }

  lemma {:induction false} WalkSeqFailsFast<T>(c: Codec<T>, env: Env, items: seq<Node<T>>)
    ensures FailsFast(c, env, items)
    decreases items
  {
    if items == [] {
    } else if Walk(c, env, items[0]).res.Err? {
      FailsFastAtHead(c, env, items);
    } else {
      WalkSeqFailsFast(c, env, items[1..]);
      FailsFastLater(c, env, items);
    }
  }

  /** The first index whose dual value fails to resolve, or the length. */
  function FirstFailure<T>(c: Codec<T>, env: Env, xs: seq<RawOrValue<T>>): (k: nat)
    ensures k <= |xs|
    ensures forall i :: 0 <= i < k ==> Resolve(c, xs[i], env).Ok?
    ensures k < |xs| ==> Resolve(c, xs[k], env).Err?
  {
    if xs == [] then 0
    else if Resolve(c, xs[0], env).Err? then 0
    else 1 + FirstFailure(c, env, xs[1..])
  }

  /** The dual values of a list, as tree nodes. */
  function Duals<T>(xs: seq<RawOrValue<T>>): (ns: seq<Node<T>>)
    ensures |ns| == |xs| && forall i :: 0 <= i < |xs| ==> ns[i] == Dual(xs[i])
  {
    if xs == [] then [] else [Dual(xs[0])] + Duals(xs[1..])
  }

  lemma FirstFailuresAgree<T>(c: Codec<T>, env: Env, xs: seq<RawOrValue<T>>)
    ensures FirstFailingItem(c, env, Duals(xs)) == FirstFailure(c, env, xs)
  {
  }

  /** The values before index `k` resolved, the rest as they were. */
  function ResolvePrefix<T>(c: Codec<T>, env: Env, xs: seq<RawOrValue<T>>, k: nat): (ys: seq<RawOrValue<T>>)
    ensures |ys| == |xs|
    ensures forall i :: 0 <= i < |xs| ==> ys[i] == if i < k then Resolved(c, xs[i], env) else xs[i]
  {
    seq(|xs|, i requires 0 <= i < |xs| => if i < k then Resolved(c, xs[i], env) else xs[i])
  }

  /** The outcome of resolving a list: the error of the first value that
      fails, or success. */
  function ListOutcome<T>(c: Codec<T>, env: Env, xs: seq<RawOrValue<T>>): Result<()> {
    var k := FirstFailure(c, env, xs);
    if k < |xs| then Err(Resolve(c, xs[k], env).error) else Ok(())
  }

  lemma WalkDualsOutcome<T>(c: Codec<T>, env: Env, xs: seq<RawOrValue<T>>)
    ensures WalkSeq(c, env, Duals(xs)).res == ListOutcome(c, env, xs)
  {
    FirstFailuresAgree(c, env, xs);
    WalkSeqFailsFast(c, env, Duals(xs));
  }

  lemma WalkDualAt<T>(c: Codec<T>, env: Env, xs: seq<RawOrValue<T>>, i: nat)
    requires i < |xs|
    ensures WalkSeq(c, env, Duals(xs)).items[i] == Duals(ResolvePrefix(c, env, xs, FirstFailure(c, env, xs)))[i]
  {
    var ns := Duals(xs);
    var k := FirstFailure(c, env, xs);
    var w := WalkSeq(c, env, ns).items;
    var zs := ResolvePrefix(c, env, xs, k);
    FirstFailuresAgree(c, env, xs);
    WalkSeqFailsFast(c, env, ns);
    assert Duals(zs)[i] == Dual(zs[i]);
    if i <= k {
      assert w[i] == Walk(c, env, ns[i]).node;
      assert ns[i] == Dual(xs[i]);
      assert zs[i] == Resolved(c, xs[i], env);
    } else {
      assert w[i] == ns[i];
    }
  }

  lemma WalkDualsItems<T>(c: Codec<T>, env: Env, xs: seq<RawOrValue<T>>)
    ensures WalkSeq(c, env, Duals(xs)).items == Duals(ResolvePrefix(c, env, xs, FirstFailure(c, env, xs)))
  {
    var w := WalkSeq(c, env, Duals(xs)).items;
    var ys := Duals(ResolvePrefix(c, env, xs, FirstFailure(c, env, xs)));
    forall i | 0 <= i < |xs|
      ensures w[i] == ys[i]
    {
      WalkDualAt(c, env, xs, i);
    }
  }

  /** A list of dual values walks as the loops below run: the first value
      that fails to resolve stops the walk and reports its error; the values
      before it are resolved and the rest are as they were. */
  lemma WalkDuals<T>(c: Codec<T>, env: Env, xs: seq<RawOrValue<T>>)
    ensures WalkSeq(c, env, Duals(xs))
         == WalkedSeq(ListOutcome(c, env, xs), Duals(ResolvePrefix(c, env, xs, FirstFailure(c, env, xs))))
  {
    WalkDualsOutcome(c, env, xs);
    WalkDualsItems(c, env, xs);
  }

  /** A value that fails to resolve at or before the first failure is the
      first failure. */
  lemma FirstFailureAt<T>(c: Codec<T>, env: Env, xs: seq<RawOrValue<T>>, i: nat)
    requires i <= FirstFailure(c, env, xs) && i < |xs| && Resolve(c, xs[i], env).Err?
    ensures i == FirstFailure(c, env, xs)
  {
  }

  /** One more value resolved. */
  lemma ResolvePrefixStep<T>(c: Codec<T>, env: Env, xs: seq<RawOrValue<T>>, i: nat, v: T)
    requires i < |xs| && Resolve(c, xs[i], env) == Ok(v)
    ensures ResolvePrefix(c, env, xs, i)[i := Value(v)] == ResolvePrefix(c, env, xs, i + 1)
  {
    assert ResolvePrefix(c, env, xs, i)[i := Value(v)][i] == Resolved(c, xs[i], env);
  }

  /** Resolve every element of a list in place, in order, stopping at the
      first failure. */
  method InterpolateAllList<T>(c: Codec<T>, env: Env, a: array<RawOrValue<T>>) returns (r: Result<()>)
    modifies a
    ensures r == ListOutcome(c, env, old(a[..]))
    ensures a[..] == ResolvePrefix(c, env, old(a[..]), FirstFailure(c, env, old(a[..])))
  {
    ghost var before := a[..];
    var i := 0;
    assert a[..] == ResolvePrefix(c, env, before, 0);
    while i < a.Length
      invariant 0 <= i <= FirstFailure(c, env, before)
      invariant a[..] == ResolvePrefix(c, env, before, i)
    {
      var res := Resolve(c, a[i], env);
      if res.Err? {
        FirstFailureAt(c, env, before, i);
        r := Err(res.error);
        return;
      }
      ResolvePrefixStep(c, env, before, i, res.value);
      a[i] := Value(res.value);
      i := i + 1;
    }
    r := Ok(());
  }

  /** The values of a map's entries, in key order. */
  function Values<T>(entries: seq<(string, RawOrValue<T>)>): (vs: seq<RawOrValue<T>>)
    ensures |vs| == |entries| && forall i :: 0 <= i < |entries| ==> vs[i] == entries[i].1
  {
    if entries == [] then [] else [entries[0].1] + Values(entries[1..])
  }

  /** The entries with their values before index `k` resolved. */
  function ResolveEntries<T>(c: Codec<T>, env: Env, es: seq<(string, RawOrValue<T>)>, k: nat)
    : (fs: seq<(string, RawOrValue<T>)>)
    ensures |fs| == |es|
    ensures forall i :: 0 <= i < |es| ==> fs[i].0 == es[i].0
    ensures Values(fs) == ResolvePrefix(c, env, Values(es), k)
  {
    var fs := seq(|es|, i requires 0 <= i < |es| => (es[i].0, if i < k then Resolved(c, es[i].1, env) else es[i].1));
    assert Values(fs) == ResolvePrefix(c, env, Values(es), k);
    fs
  }

  lemma ResolveEntriesStep<T>(c: Codec<T>, env: Env, es: seq<(string, RawOrValue<T>)>, i: nat, v: T)
    requires i < |es| && Resolve(c, es[i].1, env) == Ok(v)
    ensures ResolveEntries(c, env, es, i)[i := (es[i].0, Value(v))] == ResolveEntries(c, env, es, i + 1)
  {
    var fs := ResolveEntries(c, env, es, i)[i := (es[i].0, Value(v))];
    var gs := ResolveEntries(c, env, es, i + 1);
    forall j | 0 <= j < |es|
      ensures fs[j] == gs[j]
    {
    }
  }

  /** Resolve every value of a key-ordered map in place, in key order,
      stopping at the first failure; keys are never touched. */
  method InterpolateAllMap<T>(c: Codec<T>, env: Env, entries: array<(string, RawOrValue<T>)>) returns (r: Result<()>)
    modifies entries
    ensures r == ListOutcome(c, env, Values(old(entries[..])))
    ensures entries[..] == ResolveEntries(c, env, old(entries[..]), FirstFailure(c, env, Values(old(entries[..]))))
  {
    ghost var before := entries[..];
    ghost var vs := Values(before);
    var i := 0;
    assert entries[..] == ResolveEntries(c, env, before, 0);
    while i < entries.Length
      invariant 0 <= i <= FirstFailure(c, env, vs)
      invariant entries[..] == ResolveEntries(c, env, before, i)
    {
      var (key, x) := entries[i];
      var res := Resolve(c, x, env);
      if res.Err? {
        FirstFailureAt(c, env, vs, i);
        r := Err(res.error);
        return;
      }
      ResolveEntriesStep(c, env, before, i, res.value);
      entries[i] := (key, Value(res.value));
      i := i + 1;
    }
    r := Ok(());
  }
}
