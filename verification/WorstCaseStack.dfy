/** The worst-case-stack analyser: call resolution and the memoised depth-first search
    that writes its results into the shared call-graph nodes. Source: scripts/wcs.py. */
module WorstCaseStack {

  datatype Wcs = Bounded(bytes: nat) | Unbounded

  datatype Target = Found(node: nat) | Missing

  /** Functions are numbered. `calls` holds the resolved callees in the order the search
      meets them, `own` the names of each function's calls that resolve to nothing. */
  datatype Graph = Graph(hasPtrCall: seq<bool>, localStack: seq<nat>, calls: seq<seq<nat>>, own: seq<set<string>>)
  {
    function Size(): nat { |hasPtrCall| }

    predicate Valid() {
      && |localStack| == |calls| == |own| == Size()
      && forall i, j :: 0 <= i < Size() && 0 <= j < |calls[i]| ==> calls[i][j] < Size()
    }

    predicate IsNode(n: nat) { n < Size() }
  }

  // ---- Paths ----

  /** A nonempty chain of calls. */
  predicate Path(g: Graph, p: seq<nat>)
    requires g.Valid()
  {
    && p != []
    && (forall i :: 0 <= i < |p| ==> p[i] < g.Size())
    && (forall i :: 0 < i < |p| ==> p[i] in g.calls[p[i - 1]])
  }

  ghost predicate Acyclic(g: Graph)
    requires g.Valid()
  {
    forall p :: Path(g, p) && |p| > 1 ==> p[0] != p[|p| - 1]
  }

  /** Every function after the first is free of pointer calls. */
  predicate ClearPath(g: Graph, p: seq<nat>)
    requires g.Valid()
  {
    Path(g, p) && forall i :: 0 < i < |p| ==> !g.hasPtrCall[p[i]]
  }

  /** Every function before the last is free of pointer calls. */
  predicate OpenPath(g: Graph, p: seq<nat>)
    requires g.Valid()
  {
    Path(g, p) && forall i :: 0 <= i < |p| - 1 ==> !g.hasPtrCall[p[i]]
  }

  function Weight(g: Graph, p: seq<nat>): nat
    requires g.Valid() && forall i :: 0 <= i < |p| ==> p[i] < g.Size()
  {
    if p == [] then 0 else g.localStack[p[0]] + Weight(g, p[1..])
  }

  /** `b` is the greatest stack total over the clear call paths from `n`. */
  ghost predicate IsDeepest(g: Graph, n: nat, b: nat)
    requires g.Valid()
  {
    && (exists p :: ClearPath(g, p) && p[0] == n && Weight(g, p) == b)
    && (forall p :: ClearPath(g, p) && p[0] == n ==> Weight(g, p) <= b)
  }

  /** `u` is called, unresolved, somewhere along an open path from `n`. */
  ghost predicate ReachesUnresolved(g: Graph, n: nat, u: string)
    requires g.Valid()
  {
    exists p :: OpenPath(g, p) && p[0] == n && u in g.own[p[|p| - 1]]
  }

  lemma PathCons(g: Graph, n: nat, p: seq<nat>)
    requires g.Valid() && g.IsNode(n) && Path(g, p) && p[0] in g.calls[n]
    ensures Path(g, [n] + p) && Weight(g, [n] + p) == g.localStack[n] + Weight(g, p)
    ensures !g.hasPtrCall[p[0]] && ClearPath(g, p) ==> ClearPath(g, [n] + p)
    ensures !g.hasPtrCall[n] && OpenPath(g, p) ==> OpenPath(g, [n] + p)
  {
    var q := [n] + p;
    assert q[1..] == p;
    forall i | 0 < i < |q|
      ensures q[i] in g.calls[q[i - 1]]
    {
      assert q[i] == p[i - 1];
      if i > 1 { assert q[i - 1] == p[i - 2]; }
    }
  }

  lemma PathTail(g: Graph, p: seq<nat>)
    requires g.Valid() && Path(g, p) && |p| > 1
    ensures Path(g, p[1..]) && p[1] in g.calls[p[0]]
    ensures Weight(g, p) == g.localStack[p[0]] + Weight(g, p[1..])
    ensures ClearPath(g, p) ==> ClearPath(g, p[1..]) && !g.hasPtrCall[p[1]]
    ensures OpenPath(g, p) ==> OpenPath(g, p[1..]) && !g.hasPtrCall[p[0]]
  {
    var q := p[1..];
    forall i | 0 < i < |q|
      ensures q[i] in g.calls[q[i - 1]]
    {
      assert q[i] == p[i + 1] && q[i - 1] == p[i];
    }
  }

  /** In an acyclic graph a chain of calls never returns to a function it started from. */
  lemma ChainIsFresh(g: Graph, chain: seq<nat>, n: nat)
    requires g.Valid() && Acyclic(g) && Path(g, chain + [n])
    ensures n !in chain
  {
    var full := chain + [n];
    forall i | 0 <= i < |chain|
      ensures chain[i] != n
    {
      var q := full[i..];
      forall k | 0 < k < |q|
        ensures q[k] in g.calls[q[k - 1]]
      {
        assert q[k] == full[i + k] && q[k - 1] == full[i + k - 1];
      }
      assert Path(g, q) && |q| > 1;
    }
  }

  lemma PathSnoc(g: Graph, p: seq<nat>, c: nat)
    requires g.Valid() && Path(g, p) && c in g.calls[p[|p| - 1]]
    ensures Path(g, p + [c])
  {
    var q := p + [c];
    forall i | 0 < i < |q|
      ensures q[i] in g.calls[q[i - 1]]
    {
      if i < |p| { assert q[i] == p[i]; }
    }
  }

  // ---- From callees to caller ----

  /** The first `k` callees of `n` account for `most`. */
  ghost predicate CalleesGive(g: Graph, n: nat, k: nat, most: nat)
    requires g.Valid() && g.IsNode(n) && k <= |g.calls[n]|
  {
    && (most == 0 ||
        exists p :: ClearPath(g, p) && p[0] in g.calls[n][..k] && !g.hasPtrCall[p[0]] && Weight(g, p) == most)
    && (forall p :: ClearPath(g, p) && p[0] in g.calls[n][..k] && !g.hasPtrCall[p[0]] ==> Weight(g, p) <= most)
  }

  lemma CalleesGiveNext(g: Graph, n: nat, k: nat, most: nat, b: nat)
    requires g.Valid() && g.IsNode(n) && k < |g.calls[n]| && CalleesGive(g, n, k, most)
    requires !g.hasPtrCall[g.calls[n][k]] && IsDeepest(g, g.calls[n][k], b)
    ensures CalleesGive(g, n, k + 1, if b > most then b else most)
  {
    var c := g.calls[n][k];
    assert g.calls[n][..k + 1] == g.calls[n][..k] + [c];
    if b > most {
      var p :| ClearPath(g, p) && p[0] == c && Weight(g, p) == b;
      assert p[0] in g.calls[n][..k + 1];
    }
  }

  lemma CalleesGiveSkip(g: Graph, n: nat, k: nat, most: nat)
    requires g.Valid() && g.IsNode(n) && k < |g.calls[n]| && CalleesGive(g, n, k, most)
    requires g.hasPtrCall[g.calls[n][k]]
    ensures CalleesGive(g, n, k + 1, most)
  {
    assert g.calls[n][..k + 1] == g.calls[n][..k] + [g.calls[n][k]];
  }

  lemma CalleesGiveDeepest(g: Graph, n: nat, most: nat)
    requires g.Valid() && g.IsNode(n) && CalleesGive(g, n, |g.calls[n]|, most)
    ensures IsDeepest(g, n, most + g.localStack[n])
  {
    var cs := g.calls[n];
    assert cs[..|cs|] == cs;
    if most == 0 {
      assert ClearPath(g, [n]) && Weight(g, [n]) == g.localStack[n] + Weight(g, [n][1..]);
    } else {
      var p :| ClearPath(g, p) && p[0] in cs[..|cs|] && !g.hasPtrCall[p[0]] && Weight(g, p) == most;
      PathCons(g, n, p);
      assert ([n] + p)[0] == n;
    }
    forall p | ClearPath(g, p) && p[0] == n
      ensures Weight(g, p) <= most + g.localStack[n]
    {
      if |p| > 1 {
        PathTail(g, p);
        assert p[1..][0] in cs;
      } else {
        assert p[1..] == [];
      }
    }
  }

  /** `found` is what `n` and its first `k` callees contribute. */
  ghost predicate CalleesName(g: Graph, n: nat, k: nat, found: set<string>)
    requires g.Valid() && g.IsNode(n) && k <= |g.calls[n]|
  {
    forall u :: u in found <==>
      u in g.own[n] || exists c :: c in g.calls[n][..k] && g.IsNode(c) && ReachesUnresolved(g, c, u)
  }

  lemma CalleesNameNext(g: Graph, n: nat, k: nat, found: set<string>, more: set<string>)
    requires g.Valid() && g.IsNode(n) && k < |g.calls[n]| && CalleesName(g, n, k, found)
    requires forall u :: u in more <==> ReachesUnresolved(g, g.calls[n][k], u)
    ensures CalleesName(g, n, k + 1, found + more)
  {
    var cs := g.calls[n];
    assert cs[..k + 1] == cs[..k] + [cs[k]];
    forall u
      ensures u in found + more <==>
        u in g.own[n] || exists c :: c in cs[..k + 1] && g.IsNode(c) && ReachesUnresolved(g, c, u)
    {
      if u in more {
        assert cs[k] in cs[..k + 1];
      }
    }
  }

  lemma CalleesNameReached(g: Graph, n: nat, found: set<string>)
    requires g.Valid() && g.IsNode(n) && !g.hasPtrCall[n] && CalleesName(g, n, |g.calls[n]|, found)
    ensures forall u :: u in found <==> ReachesUnresolved(g, n, u)
  {
    var cs := g.calls[n];
    assert cs[..|cs|] == cs;
    forall u
      ensures u in found <==> ReachesUnresolved(g, n, u)
    {
      if u in found {
        if u in g.own[n] {
          assert OpenPath(g, [n]);
        } else {
          var c :| c in cs && g.IsNode(c) && ReachesUnresolved(g, c, u);
          var p :| OpenPath(g, p) && p[0] == c && u in g.own[p[|p| - 1]];
          PathCons(g, n, p);
          assert ([n] + p)[|p|] == p[|p| - 1];
        }
      }
      if ReachesUnresolved(g, n, u) {
        var p :| OpenPath(g, p) && p[0] == n && u in g.own[p[|p| - 1]];
        if |p| > 1 {
          PathTail(g, p);
          assert p[1..][|p| - 2] == p[|p| - 1];
          assert ReachesUnresolved(g, p[1], u);
        }
      }
    }
  }

  lemma PtrReachesOwn(g: Graph, n: nat)
    requires g.Valid() && g.IsNode(n) && g.hasPtrCall[n]
    ensures forall u :: u in g.own[n] <==> ReachesUnresolved(g, n, u)
  {
    assert OpenPath(g, [n]);
  }

  // ---- The search ----

  /** What the memo must say about `n`: the mark exactly at pointer calls, and otherwise the
      deepest clear path; the unresolved names are those reached along open paths. */
  ghost predicate Right(g: Graph, n: nat, w: Wcs, names: set<string>)
    requires g.Valid() && g.IsNode(n)
  {
    && (g.hasPtrCall[n] ==> w == Unbounded)
    && (!g.hasPtrCall[n] ==> w.Bounded? && IsDeepest(g, n, w.bytes))
    && (forall u :: u in names <==> ReachesUnresolved(g, n, u))
  }

  /** The totals and names gathered from the first `k` callees. */
  ghost predicate Gathered(g: Graph, n: nat, k: nat, most: nat, names: set<string>)
    requires g.Valid() && g.IsNode(n) && k <= |g.calls[n]|
  {
    CalleesGive(g, n, k, most) && CalleesName(g, n, k, names)
  }

  /** An unbounded callee adds nothing to the running maximum. */
  function Deeper(most: nat, w: Wcs): nat {
    if w.Bounded? && w.bytes > most then w.bytes else most
  }

  lemma GatherNext(g: Graph, n: nat, k: nat, most: nat, names: set<string>, w: Wcs, more: set<string>)
    requires g.Valid() && g.IsNode(n) && k < |g.calls[n]| && Gathered(g, n, k, most, names)
    requires Right(g, g.calls[n][k], w, more)
    ensures Gathered(g, n, k + 1, Deeper(most, w), names + more)
  {
    CalleesNameNext(g, n, k, names, more);
    if g.hasPtrCall[g.calls[n][k]] {
      CalleesGiveSkip(g, n, k, most);
    } else {
      CalleesGiveNext(g, n, k, most, w.bytes);
    }
  }

  lemma GatherAll(g: Graph, n: nat, most: nat, names: set<string>)
    requires g.Valid() && g.IsNode(n) && !g.hasPtrCall[n] && Gathered(g, n, |g.calls[n]|, most, names)
    ensures Right(g, n, Bounded(most + g.localStack[n]), names)
  {
    CalleesGiveDeepest(g, n, most);
    CalleesNameReached(g, n, names);
  }

  /** The functions a search below `parents` may still enter. */
  ghost function Unvisited(g: Graph, parents: seq<nat>): set<nat> {
    set m: nat | m < g.Size() && m !in parents
  }

  lemma UnvisitedShrinks(g: Graph, parents: seq<nat>, n: nat)
    requires g.IsNode(n) && n !in parents
    ensures Unvisited(g, parents + [n]) < Unvisited(g, parents)
  {
    assert n in Unvisited(g, parents) && n !in Unvisited(g, parents + [n]);
  }

  /** The "wcs" and "unresolved_calls" entries of the node dictionaries. */
  datatype Memo = Memo(wcs: map<nat, Wcs>, unresolved: seq<set<string>>)

  ghost predicate Fits(g: Graph, m: Memo) {
    && g.Valid() && |m.unresolved| == g.Size()
    && forall n: nat :: n in m.wcs ==> g.IsNode(n)
  }

  /** Outside the functions being explored, the mark stands exactly at pointer calls. */
  ghost predicate MarksPointerCalls(g: Graph, m: Memo, exploring: seq<nat>)
    requires Fits(g, m)
  {
    forall n :: n in m.wcs && n !in exploring ==> (m.wcs[n] == Unbounded <==> g.hasPtrCall[n])
  }

  /** Every entry is right, and functions without one hold only their own unresolved names. */
  ghost predicate AllRight(g: Graph, m: Memo, exploring: seq<nat>)
    requires Fits(g, m)
  {
    && (forall n :: n in m.wcs ==> Right(g, n, m.wcs[n], m.unresolved[n]))
    && (forall n: nat :: g.IsNode(n) && n !in m.wcs && n !in exploring ==> m.unresolved[n] == g.own[n])
  }

  ghost predicate Sound(g: Graph, dag: bool, m: Memo, exploring: seq<nat>) {
    && Fits(g, m)
    && MarksPointerCalls(g, m, exploring)
    && (dag ==> AllRight(g, m, exploring))
  }

  /** A search below `parents` keeps every entry, leaves the names of finished functions and
      of the callers alone, and gives a caller an entry only in a cyclic graph. */
  ghost predicate Keeps(g: Graph, dag: bool, parents: seq<nat>, before: Memo, after: Memo)
    requires Fits(g, before) && Fits(g, after)
  {
    && (forall n :: n in before.wcs ==> n in after.wcs && after.wcs[n] == before.wcs[n])
    && (forall n: nat :: g.IsNode(n) && (n in before.wcs || n in parents) ==>
          after.unresolved[n] == before.unresolved[n])
    && (dag ==> forall n :: n in parents && n in after.wcs ==> n in before.wcs)
  }

  /** Where the loop over the callees of `n` stands after `k` of them. */
  ghost predicate Midway(g: Graph, dag: bool, n: nat, parents: seq<nat>, before: Memo, now: Memo, k: nat, most: nat)
    requires Fits(g, before) && g.IsNode(n) && k <= |g.calls[n]|
  {
    && Sound(g, dag, now, parents + [n])
    && Keeps(g, dag, parents, before, now)
    && (dag ==> n !in now.wcs && Gathered(g, n, k, most, now.unresolved[n]))
  }

  lemma KeepsOn(g: Graph, dag: bool, n: nat, parents: seq<nat>, before: Memo, now: Memo, later: Memo,
                names: set<string>)
    requires Fits(g, before) && Fits(g, now) && Fits(g, later) && g.IsNode(n) && n !in before.wcs && n !in parents
    requires Keeps(g, dag, parents, before, now) && Keeps(g, dag, parents + [n], now, later)
    ensures Keeps(g, dag, parents, before, later.(unresolved := later.unresolved[n := names]))
  {
    assert forall m :: m in parents ==> m in parents + [n];
  }

  lemma SoundRename(g: Graph, dag: bool, n: nat, exploring: seq<nat>, m: Memo, names: set<string>)
    requires Sound(g, dag, m, exploring) && g.IsNode(n) && n in exploring && (dag ==> n !in m.wcs)
    ensures Sound(g, dag, m.(unresolved := m.unresolved[n := names]), exploring)
  {}

  lemma MidwayStart(g: Graph, dag: bool, n: nat, parents: seq<nat>, m: Memo)
    requires Sound(g, dag, m, parents) && g.IsNode(n) && n !in m.wcs && n !in parents
    ensures Midway(g, dag, n, parents, m, m, 0, 0)
  {
    if dag {
      assert CalleesGive(g, n, 0, 0) && CalleesName(g, n, 0, m.unresolved[n]);
    }
  }

  lemma MidwayNext(g: Graph, dag: bool, n: nat, parents: seq<nat>, before: Memo, now: Memo, later: Memo,
                   k: nat, most: nat)
    requires Fits(g, before) && g.IsNode(n) && k < |g.calls[n]| && n !in before.wcs && n !in parents
    requires Midway(g, dag, n, parents, before, now, k, most)
    requires Sound(g, dag, later, parents + [n]) && Keeps(g, dag, parents + [n], now, later)
    requires g.calls[n][k] in later.wcs
    ensures var c := g.calls[n][k];
      Midway(g, dag, n, parents, before,
        later.(unresolved := later.unresolved[n := later.unresolved[n] + later.unresolved[c]]),
        k + 1, Deeper(most, later.wcs[c]))
  {
    var c := g.calls[n][k];
    var names := later.unresolved[n] + later.unresolved[c];
    assert n in parents + [n];
    KeepsOn(g, dag, n, parents, before, now, later, names);
    SoundRename(g, dag, n, parents + [n], later, names);
    if dag {
      assert Right(g, c, later.wcs[c], later.unresolved[c]);
      GatherNext(g, n, k, most, now.unresolved[n], later.wcs[c], later.unresolved[c]);
    }
  }

  /** Marking `n`: a pointer call, or, in a cyclic graph only, a caller met again. */
  lemma Marked(g: Graph, dag: bool, n: nat, parents: seq<nat>, m: Memo, after: Memo)
    requires Sound(g, dag, m, parents) && g.IsNode(n) && n !in m.wcs
    requires g.Valid() && (dag ==> Acyclic(g))
    requires Path(g, parents + [n]) && (g.hasPtrCall[n] || n in parents)
    requires after == m.(wcs := m.wcs[n := Unbounded])
    ensures Sound(g, dag, after, parents) && Keeps(g, dag, parents, m, after)
  {
    if dag {
      ChainIsFresh(g, parents, n);
      PtrReachesOwn(g, n);
    }
  }

  lemma KeepsSelf(g: Graph, dag: bool, parents: seq<nat>, m: Memo)
    requires Fits(g, m)
    ensures Keeps(g, dag, parents, m, m)
  {}

  lemma MidwayDone(g: Graph, dag: bool, n: nat, parents: seq<nat>, before: Memo, now: Memo, most: nat, after: Memo)
    requires Fits(g, before) && g.IsNode(n) && !g.hasPtrCall[n] && n !in before.wcs && n !in parents
    requires Midway(g, dag, n, parents, before, now, |g.calls[n]|, most)
    requires after == now.(wcs := now.wcs[n := Bounded(most + g.localStack[n])])
    ensures Sound(g, dag, after, parents) && Keeps(g, dag, parents, before, after)
  {
    if dag {
      GatherAll(g, n, most, now.unresolved[n]);
    }
  }

  class Analysis {
    const g: Graph
    var memo: Memo
    /** Whether the graph is free of recursion. */
    ghost const dag: bool

    /** `manual` are the entries of the override file: leaves whose total is known. */
    constructor (g: Graph, manual: set<nat>)
      requires g.Valid()
      requires forall n :: n in manual ==>
        g.IsNode(n) && !g.hasPtrCall[n] && g.calls[n] == [] && g.own[n] == {}
      ensures this.g == g && dag == Acyclic(g) && memo.wcs.Keys == manual && Sound(g, dag, memo, [])
    {
      this.g := g;
      dag := Acyclic(g);
      memo := Memo(map n | n in manual :: Bounded(g.localStack[n]), g.own);
      new;
      forall n | n in memo.wcs
        ensures Right(g, n, memo.wcs[n], memo.unresolved[n])
      {
        assert CalleesGive(g, n, 0, 0) && CalleesName(g, n, 0, {});
        GatherAll(g, n, 0, {});
      }
    }

    /** Explore `n` below the callers `parents`, on any graph. */
    method CalcWcs(n: nat, parents: seq<nat>)
      requires g.Valid() && (dag ==> Acyclic(g)) && Sound(g, dag, memo, parents) && Path(g, parents + [n])
      modifies this
      ensures Sound(g, dag, memo, parents) && n in memo.wcs
      ensures Keeps(g, dag, parents, old(memo), memo)
      decreases Unvisited(g, parents), 1
    {
      assert (parents + [n])[|parents|] == n;
      if n in memo.wcs {
        KeepsSelf(g, dag, parents, memo);
      } else if g.hasPtrCall[n] || n in parents {
        var marked := memo.(wcs := memo.wcs[n := Unbounded]);
        Marked(g, dag, n, parents, memo, marked);
        memo := marked;
      } else {
        var callMax := ExploreCallees(n, parents);
        var done := memo.(wcs := memo.wcs[n := Bounded(callMax + g.localStack[n])]);
        MidwayDone(g, dag, n, parents, old(memo), memo, callMax, done);
        memo := done;
      }
    }

    /** The loop over the callees of `n`. */
    method ExploreCallees(n: nat, parents: seq<nat>) returns (callMax: nat)
      requires g.Valid() && (dag ==> Acyclic(g)) && Sound(g, dag, memo, parents) && Path(g, parents + [n])
      requires g.IsNode(n) && n !in memo.wcs && n !in parents
      modifies this
      ensures Midway(g, dag, n, parents, old(memo), memo, |g.calls[n]|, callMax)
      decreases Unvisited(g, parents), 0
    {
      callMax := 0;
      UnvisitedShrinks(g, parents, n);
      MidwayStart(g, dag, n, parents, memo);
      var i := 0;
      while i < |g.calls[n]|
        invariant i <= |g.calls[n]|
        invariant Midway(g, dag, n, parents, old(memo), memo, i, callMax)
      {
        var c := g.calls[n][i];
        PathSnoc(g, parents + [n], c);
        ghost var before := memo;
        CalcWcs(c, parents + [n]);
        MidwayNext(g, dag, n, parents, old(memo), before, memo, i, callMax);
        callMax := Deeper(callMax, memo.wcs[c]);
        memo := memo.(unresolved := memo.unresolved[n := memo.unresolved[n] + memo.unresolved[c]]);
        i := i + 1;
      }
    }

    /** Search from every function, in whatever order the dictionaries list them. The mark
        ends up at pointer calls and nowhere else, on any graph; on an acyclic graph every
        total is the greatest over the clear paths. */
    method CalcAll(order: seq<nat>)
      requires g.Valid() && dag == Acyclic(g) && Sound(g, dag, memo, [])
      requires forall k :: 0 <= k < |order| ==> g.IsNode(order[k])
      modifies this
      ensures Fits(g, memo) && forall k :: 0 <= k < |order| ==> order[k] in memo.wcs
      ensures forall n :: n in memo.wcs ==> (memo.wcs[n] == Unbounded <==> g.hasPtrCall[n])
      ensures Acyclic(g) ==> forall n :: n in memo.wcs ==> Right(g, n, memo.wcs[n], memo.unresolved[n])
    {
      var k := 0;
      while k < |order|
        invariant k <= |order| && Sound(g, dag, memo, [])
        invariant forall j :: 0 <= j < k ==> order[j] in memo.wcs
      {
        assert [] + [order[k]] == [order[k]];
        CalcWcs(order[k], []);
        k := k + 1;
      }
    }
  }

  // ---- Call resolution ----

  /** Names seen by the linker: a global hides any local of the same name. */
  datatype Symbols = Symbols(globals: map<string, nat>, locals: map<(string, string), nat>)

  function FindFxn(t: Symbols, tu: string, name: string): Target {
    if name in t.globals then Found(t.globals[name])
    else if (name, tu) in t.locals then Found(t.locals[(name, tu)])
    else Missing
  }

  /** The function a name stands for in a translation unit: the global of that name, and only if
      there is none, the unit's own local. */
  predicate Denotes(t: Symbols, tu: string, name: string, f: nat) {
    || (name in t.globals && t.globals[name] == f)
    || (name !in t.globals && (name, tu) in t.locals && t.locals[(name, tu)] == f)
  }

  predicate Unknown(t: Symbols, tu: string, name: string) { name !in t.globals && (name, tu) !in t.locals }

  lemma FoundIsDenoted(t: Symbols, tu: string, name: string, f: nat)
    ensures FindFxn(t, tu, name) == Found(f) <==> Denotes(t, tu, name, f)
    ensures FindFxn(t, tu, name) == Missing <==> Unknown(t, tu, name)
  {}

  /** One function's calls: the functions its names stand for, and the names left over. */
  ghost predicate Resolves(t: Symbols, tu: string, names: seq<string>, calls: seq<nat>, missing: set<string>) {
    && (forall c :: c in calls <==> exists x :: x in names && Denotes(t, tu, x, c))
    && (forall x :: x in missing <==> x in names && Unknown(t, tu, x))
  }

  method Resolve(t: Symbols, tu: string, names: seq<string>) returns (calls: seq<nat>, missing: set<string>)
    ensures Resolves(t, tu, names, calls, missing)
  {
    calls, missing := [], {};
    var i := 0;
    while i < |names|
      invariant i <= |names| && Resolves(t, tu, names[..i], calls, missing)
    {
      assert names[..i + 1] == names[..i] + [names[i]];
      match FindFxn(t, tu, names[i]) {
        case Found(c) =>
          FoundIsDenoted(t, tu, names[i], c);
          calls := calls + [c];
        case Missing =>
          missing := missing + {names[i]};
      }
      i := i + 1;
    }
    assert names[..|names|] == names;
  }

  /** What the object files, RTL dumps and stack-usage files say about function `i`. */
  datatype Function = Function(tu: string, callNames: seq<string>, hasPtrCall: bool, localStack: nat)

  method ResolveAll(t: Symbols, fs: seq<Function>) returns (g: Graph)
    requires forall x :: x in t.globals ==> t.globals[x] < |fs|
    requires forall x :: x in t.locals ==> t.locals[x] < |fs|
    ensures g.Valid() && g.Size() == |fs|
    ensures forall i :: 0 <= i < |fs| ==>
      && g.hasPtrCall[i] == fs[i].hasPtrCall && g.localStack[i] == fs[i].localStack
      && Resolves(t, fs[i].tu, fs[i].callNames, g.calls[i], g.own[i])
  {
    var calls: seq<seq<nat>>, own: seq<set<string>> := [], [];
    var i := 0;
    while i < |fs|
      invariant i <= |fs| && |calls| == |own| == i
      invariant forall k :: 0 <= k < i ==> Resolves(t, fs[k].tu, fs[k].callNames, calls[k], own[k])
    {
      var c, m := Resolve(t, fs[i].tu, fs[i].callNames);
      calls, own := calls + [c], own + [m];
      i := i + 1;
    }
    g := Graph(seq(|fs|, k requires 0 <= k < |fs| => fs[k].hasPtrCall),
               seq(|fs|, k requires 0 <= k < |fs| => fs[k].localStack), calls, own);
    forall k, j | 0 <= k < |fs| && 0 <= j < |calls[k]|
      ensures calls[k][j] < |fs|
    {
      assert calls[k][j] in calls[k] && Resolves(t, fs[k].tu, fs[k].callNames, calls[k], own[k]);
    }
  }

  /** The report's heading promises "unbounded" for recursion as well as for pointer calls.
      A function that calls itself shows that it is not: the search first marks it, then its
      own frame overwrites the mark. */
  method RecursionIsReportedBounded() returns (g: Graph, w: Wcs)
    ensures g.Valid() && g.calls == [[0]] && !Acyclic(g) && w.Bounded?
  {
    g := Graph([false], [8], [[0]], [{}]);
    assert Path(g, [0, 0]);
    var a := new Analysis(g, {});
    a.CalcAll([0]);
    assert [0][0] in a.memo.wcs;
    w := a.memo.wcs[0];
  }
}
