/** The resolver of XML catalogs: mutual recursion over a possibly cyclic graph of catalog lists, stopped by one
    depth counter a list. A list is known by the URL it was loaded from. */
module Catalog {
  import opened XmlString
  import opened CatalogIds
  import opened CatalogSpec
  import opened CatalogRules

  const MAX_CATAL_DEPTH := 50
  const MAX_DELEGATE := 50

  type Depths = map<string, nat>

  // ---------------------------------------------------------------- the recursion budget

  /** The counter increments that are still possible: what bounds the recursion on any graph. */
  ghost function Slots(depth: Depths): set<(string, int)> {
    set u, k | u in depth && depth[u] <= k < MAX_CATAL_DEPTH + 1 :: (u, k)
  }

  /** No counter has dropped, none is above the limit by more than one. */
  ghost predicate Grown(was: Depths, now: Depths) {
    now.Keys == was.Keys && forall u :: u in was ==> was[u] <= now[u] <= MAX_CATAL_DEPTH + 1
  }

  lemma SlotsShrink(was: Depths, now: Depths)
    requires Grown(was, now)
    ensures Slots(now) <= Slots(was)
    ensures forall u :: u in was && was[u] < now[u] ==> Slots(now) < Slots(was)
  {
    forall u | u in was && was[u] < now[u]
      ensures Slots(now) < Slots(was)
    {
      assert (u, was[u]) in Slots(was) && (u, was[u]) !in Slots(now);
    }
  }

  // ---------------------------------------------------------------- meeting the limit

  ghost predicate Above(depth: Depths) {
    exists u :: u in depth && depth[u] > MAX_CATAL_DEPTH
  }

  /** One counter has changed by one. */
  ghost predicate OneStep(was: Depths, now: Depths) {
    exists u :: u in was && u in now && now == was[u := now[u]] && (now[u] == was[u] + 1 || now[u] + 1 == was[u])
  }

  /** All the values that the counters have had, in order. */
  ghost predicate Recorded(history: seq<Depths>, depth: Depths) {
    && history != [] && history[|history| - 1] == depth
    && forall i :: 0 < i < |history| ==> OneStep(history[i - 1], history[i])
  }

  /** The history goes on, and where `hit` says so some counter was above the limit in between. */
  ghost predicate Traced(was: seq<Depths>, now: seq<Depths>, hit: bool) {
    && 0 < |was| <= |now| && was == now[..|was|]
    && (hit ==> exists i :: |was| - 1 <= i < |now| && Above(now[i]))
  }

  lemma TracedMore(a: seq<Depths>, b: seq<Depths>, c: seq<Depths>, hit: bool, more: bool)
    requires Traced(a, b, hit) && Traced(b, c, more)
    ensures Traced(a, c, hit || more)
  {
    assert c[..|b|][..|a|] == c[..|a|];
    if hit {
      var i :| |a| - 1 <= i < |b| && Above(b[i]);
      assert c[..|b|][i] == c[i];
    }
  }

  /** What a part of the search does to the counters: none drops or passes the limit by more than one, and unless the
      limit was met in between they are as before. */
  ghost predicate Since(was: Depths, before: seq<Depths>, now: Depths, after: seq<Depths>, hit: bool) {
    Grown(was, now) && (!hit ==> now == was) && Traced(before, after, hit)
  }

  lemma SinceNothing(depth: Depths, history: seq<Depths>)
    requires Grown(depth, depth) && history != []
    ensures Since(depth, history, depth, history, false)
  {
    assert history[..|history|] == history;
  }

  lemma SinceMore(was: Depths, before: seq<Depths>, mid: Depths, between: seq<Depths>, now: Depths, after: seq<Depths>,
                  hit: bool, more: bool)
    requires Since(was, before, mid, between, hit) && Since(mid, between, now, after, more)
    ensures Since(was, before, now, after, hit || more)
  {
    TracedMore(before, between, after, hit, more);
  }

  lemma SinceAbove(was: Depths, before: seq<Depths>, depth: Depths, history: seq<Depths>, hit: bool, u: string)
    requires Since(was, before, depth, history, hit)
    requires Recorded(history, depth) && u in depth && depth[u] > MAX_CATAL_DEPTH
    ensures Since(was, before, depth, history, true)
  {
    TracedAbove(before, history, depth, u);
  }

  lemma TracedAbove(was: seq<Depths>, now: seq<Depths>, depth: Depths, u: string)
    requires Traced(was, now, false) && Recorded(now, depth) && u in depth && depth[u] > MAX_CATAL_DEPTH
    ensures Traced(was, now, true)
  {
    assert Above(now[|now| - 1]);
  }

  /** A search with one counter raised, and lowered again unless it leaks. */
  lemma SinceReturn(before: Depths, first: seq<Depths>, entered: Depths, second: seq<Depths>, left: Depths,
                    third: seq<Depths>, now: Depths, last: seq<Depths>, u: string, hit: bool, leak: bool)
    requires u in before && before[u] <= MAX_CATAL_DEPTH && entered == before[u := before[u] + 1]
    requires forall v :: v in before ==> before[v] <= MAX_CATAL_DEPTH + 1
    requires Traced(first, second, false) && Since(entered, second, left, third, hit) && (leak ==> hit)
    requires if leak then now == left && last == third
             else now == left[u := left[u] - 1] && Traced(third, last, false)
    ensures Since(before, first, now, last, hit)
  {
    TracedMore(first, second, third, false, hit);
    if !leak {
      TracedMore(first, third, last, hit, false);
    }
    assert !hit ==> now == before;
  }

  /** A counter goes up or down. */
  lemma Count(history: seq<Depths>, depth: Depths, u: string, n: nat)
    requires Recorded(history, depth) && u in depth && (n == depth[u] + 1 || n + 1 == depth[u])
    ensures Recorded(history + [depth[u := n]], depth[u := n])
    ensures Traced(history, history + [depth[u := n]], false)
  {
    assert OneStep(depth, depth[u := n]);
  }

  // ---------------------------------------------------------------- scanning one list

  const ANY_NEXT := NextCatalogs(None, None)

  /** What the first pass over a list learns for a system identifier. */
  method ScanSystem(es: seq<Entry>, sys: string)
      returns (exact: Option<nat>, rewrite: Option<nat>, haveDelegate: bool, haveNext: bool)
    ensures exact == FirstMatch(es, System, sys)
    ensures exact.None? ==> rewrite == BestRewrite(es, sys)
    ensures exact.None? ==> haveDelegate == Follow(es, SystemDelegates(sys))
    ensures exact.None? ==> haveNext == Follow(es, ANY_NEXT)
  {
    var lenrewrite := 0;
    exact, rewrite, haveDelegate, haveNext := None, None, false, false;
    for i := 0 to |es|
      invariant FirstMatch(es[..i], System, sys) == None
      invariant rewrite == BestRewrite(es[..i], sys)
      invariant lenrewrite == if rewrite.None? then 0 else |es[rewrite.value].name.value|
      invariant haveDelegate == Follow(es[..i], SystemDelegates(sys))
      invariant haveNext == Follow(es[..i], ANY_NEXT)
    {
      var cur := es[i];
      ScanStep(es, i, System, sys, SystemDelegates(sys));
      ScanStep(es, i, System, sys, ANY_NEXT);
      RewriteStep(es, i, sys);
      match cur.kind
      case System =>
        if cur.name == Some(sys) {
          FirstMatchStays(es, i + 1, System, sys);
          exact := Some(i);
          return;
        }
      case RewriteSystem =>
        if cur.name.Some? && |cur.name.value| > lenrewrite && cur.name.value <= sys {
          lenrewrite, rewrite := |cur.name.value|, Some(i);
        }
      case DelegateSystem =>
        if Begins(sys, cur) {
          haveDelegate := true;
        }
      case NextCatalog =>
        haveNext := true;
      case _ =>
    }
    assert es[..|es|] == es;
  }

  /** What the second pass learns for a public identifier; next catalogs are counted by one of the passes only. */
  method ScanPublic(es: seq<Entry>, pub: string) returns (exact: Option<nat>, haveDelegate: bool, haveNext: bool)
    ensures exact == FirstMatch(es, Public, pub)
    ensures exact.None? ==> haveDelegate == Follow(es, PublicDelegates(pub))
    ensures exact.None? ==> haveNext == Follow(es, ANY_NEXT)
  {
    exact, haveDelegate, haveNext := None, false, false;
    for i := 0 to |es|
      invariant FirstMatch(es[..i], Public, pub) == None
      invariant haveDelegate == Follow(es[..i], PublicDelegates(pub))
      invariant haveNext == Follow(es[..i], ANY_NEXT)
    {
      var cur := es[i];
      ScanStep(es, i, Public, pub, PublicDelegates(pub));
      ScanStep(es, i, Public, pub, ANY_NEXT);
      match cur.kind
      case Public =>
        if cur.name == Some(pub) {
          FirstMatchStays(es, i + 1, Public, pub);
          exact := Some(i);
          return;
        }
      case DelegatePublic =>
        if Begins(pub, cur) && cur.prefer == PreferPublic {
          haveDelegate := true;
        }
      case NextCatalog =>
        haveNext := true;
      case _ =>
    }
    assert es[..|es|] == es;
  }

  lemma {:induction false} FirstMatchStays(es: seq<Entry>, n: nat, kind: Kind, id: string)
    requires n <= |es| && FirstMatch(es[..n], kind, id).Some?
    ensures FirstMatch(es, kind, id) == FirstMatch(es[..n], kind, id)
    decreases |es|
  {
    if n == |es| {
      assert es[..n] == es;
    } else {
      assert es[..|es| - 1][..n] == es[..n];
      FirstMatchStays(es[..|es| - 1], n, kind, id);
    }
  }

  lemma ScanStep(es: seq<Entry>, i: nat, kind: Kind, id: string, pass: Pass)
    requires i < |es|
    ensures FirstMatch(es[..i + 1], kind, id) ==
      if FirstMatch(es[..i], kind, id).Some? then FirstMatch(es[..i], kind, id)
      else if es[i].kind == kind && es[i].name == Some(id) then Some(i) else None
    ensures Follow(es[..i + 1], pass) <==> Follow(es[..i], pass) || Follows(pass, es[i])
  {
    var t := es[..i + 1];
    assert t[..i] == es[..i] && t[i] == es[i];
    if Follow(es[..i], pass) {
      var k :| 0 <= k < |es[..i]| && Follows(pass, es[..i][k]);
      assert Follows(pass, t[k]);
    }
    if Follow(t, pass) && !Follows(pass, es[i]) {
      var k :| 0 <= k < |t| && Follows(pass, t[k]);
      assert Follows(pass, es[..i][k]);
    }
  }

  lemma RewriteStep(es: seq<Entry>, i: nat, sys: string)
    requires i < |es|
    ensures
      var best := BestRewrite(es[..i], sys);
      BestRewrite(es[..i + 1], sys) ==
        if Rewrites(es[i], sys) && (best.None? || |es[i].name.value| > |es[best.value].name.value|)
        then Some(i) else best
  {
    var t := es[..i + 1];
    assert t[..i] == es[..i] && t[i] == es[i];
  }

  // ---------------------------------------------------------------- a run without hitting the limit

  /** On an acyclic graph, the counters of the lists below the rank are far from the limit. */
  ghost predicate Quiet(store: Store, rank: map<string, nat>, depth: Depths, bound: nat) {
    && Acyclic(store, rank)
    && forall u :: u in depth && u in rank && rank[u] < bound ==> depth[u] < MAX_CATAL_DEPTH
  }

  lemma QuietEntered(store: Store, rank: map<string, nat>, depth: Depths, u: string)
    requires u in rank && u in depth && Quiet(store, rank, depth, rank[u] + 1)
    ensures Quiet(store, rank, depth[u := depth[u] + 1], rank[u]) && depth[u] + 1 <= MAX_CATAL_DEPTH
  {
  }

  /** A list of catalogs, all of them loadable and below the rank. */
  ghost predicate Below(store: Store, rank: map<string, nat>, list: seq<Entry>, bound: nat) {
    forall i :: 0 <= i < |list| && list[i].kind == CatalogSpec.Catalog ==>
      Loads(store, list[i]) && list[i].url.value in rank && rank[list[i].url.value] < bound
  }

  /** The first answer among the first n catalogs of a list, for identifiers that are not URNs. */
  ghost function FirstIn(
      store: Store, rank: map<string, nat>, bound: nat, list: seq<Entry>, n: nat,
      ids: (Option<string>, Option<string>)): Res
    requires Acyclic(store, rank) && Below(store, rank, list, bound) && n <= |list|
  {
    if n == 0 then NotFound
    else
      var r := FirstIn(store, rank, bound, list, n - 1, ids);
      if r == NotFound && list[n - 1].kind == CatalogSpec.Catalog
      then Answer(store, rank, list[n - 1].url.value, ids.0, ids.1)
      else r
  }

  /** The entry that a loaded catalog file is. */
  function File(url: Option<string>): Entry {
    Entry(CatalogSpec.Catalog, None, url, url, NoPrefer, None)
  }

  lemma EmptyListAnswer(store: Store, rank: map<string, nat>, u: string, pub: Option<string>, sys: Option<string>)
    requires Acyclic(store, rank) && u in store && store[u] == []
    ensures Answer(store, rank, u, pub, sys) == NotFound
  {
  }

  /** Without a next catalog there is nothing to follow. */
  lemma NoNext(store: Store, rank: map<string, nat>, u: string, pub: Option<string>, sys: Option<string>)
    requires Acyclic(store, rank) && u in store && !Follow(store[u], ANY_NEXT)
    ensures FirstOf(store, rank, u, |store[u]|, NextCatalogs(pub, sys)) == NotFound
  {
    var pass := NextCatalogs(pub, sys);
    forall j | 0 <= j < |store[u]|
      ensures !Follows(pass, store[u][j])
    {
      assert !Follows(ANY_NEXT, store[u][j]);
    }
    FirstOfNone(store, rank, u, |store[u]|, pass);
  }

  lemma {:induction false} NothingWithoutIds(
      store: Store, rank: map<string, nat>, bound: nat, list: seq<Entry>, n: nat)
    requires Acyclic(store, rank) && Below(store, rank, list, bound) && n <= |list|
    ensures FirstIn(store, rank, bound, list, n, (None, None)) == NotFound
  {
    if n > 0 {
      NothingWithoutIds(store, rank, bound, list, n - 1);
    }
  }

  /** No entry with one of these URLs that the search follows has an answer. */
  ghost predicate AllFailed(store: Store, rank: map<string, nat>, u: string, pass: Pass, tried: seq<Option<string>>)
    requires Acyclic(store, rank) && u in store
  {
    forall j :: 0 <= j < |store[u]| && Follows(pass, store[u][j]) && store[u][j].url in tried ==>
      Follow1(store, rank, u, j, pass) == NotFound
  }

  lemma TriedFailed(store: Store, rank: map<string, nat>, u: string, pass: Pass, tried: seq<Option<string>>, i: nat)
    requires Acyclic(store, rank) && u in store && AllFailed(store, rank, u, pass, tried)
    requires i < |store[u]| && Follows(pass, store[u][i]) && store[u][i].url in tried
    ensures Follow1(store, rank, u, i, pass) == NotFound
  {
  }

  lemma NotedFailed(store: Store, rank: map<string, nat>, u: string, pass: Pass, tried: seq<Option<string>>, i: nat)
    requires Acyclic(store, rank) && u in store && AllFailed(store, rank, u, pass, tried)
    requires i < |store[u]| && Follows(pass, store[u][i]) && Follow1(store, rank, u, i, pass) == NotFound
    ensures AllFailed(store, rank, u, pass, tried + [store[u][i].url])
  {
  }

  class Resolver {
    const store: Store
    ghost const rank: map<string, nat>
    var depth: Depths
    ghost var history: seq<Depths>

    ghost predicate Valid()
      reads this
    {
      && depth.Keys == store.Keys && (forall u :: u in depth ==> depth[u] <= MAX_CATAL_DEPTH + 1)
      && Recorded(history, depth)
    }

    constructor (store: Store, ghost rank: map<string, nat>)
      ensures Valid() && this.store == store && this.rank == rank
      ensures forall u :: u in depth ==> depth[u] == 0
    {
      this.store := store;
      this.rank := rank;
      depth := map u | u in store :: 0;
      history := [map u | u in store :: 0];
    }

    /** xmlACatalogResolve on a list of XML catalogs: the first result among them for the identifiers without URNs; a
        cut search has no result. */
    method Resolve(list: seq<Entry>, pub: Option<string>, sys: Option<string>, ghost bound: nat)
        returns (uri: Option<string>, ghost hit: bool)
      requires Valid()
      modifies this
      ensures Valid() && Since(old(depth), old(history), depth, history, hit)
      ensures Quiet(store, rank, old(depth), bound) && Below(store, rank, list, bound) ==>
        var r := FirstIn(store, rank, bound, list, |list|, Effective(pub, sys));
        !hit && uri == if r.Found? then Some(r.uri) else None
      ensures Quiet(store, rank, old(depth), bound) && Below(store, rank, list, bound) ==>
        forall of, r :: Solves(store, of) && FirstCatalog(store, of, list, Effective(pub, sys), r) ==>
          uri == if r.Found? then Some(r.uri) else None
    {
      if Quiet(store, rank, depth, bound) && Below(store, rank, list, bound) {
        FirstInByRules(store, rank, bound, list, Effective(pub, sys));
      }
      if pub.None? && sys.None? {
        if Acyclic(store, rank) && Below(store, rank, list, bound) {
          NothingWithoutIds(store, rank, bound, list, |list|);
        }
        SinceNothing(depth, history);
        return None, false;
      }
      var r;
      r, hit := ListResolve(list, pub, sys, bound);
      uri := if r.Found? then Some(r.uri) else None;
    }

    /** The counter of one list goes up or down. */
    method SetDepth(u: string, n: nat)
      requires Valid() && u in depth && (n == depth[u] + 1 || n + 1 == depth[u]) && n <= MAX_CATAL_DEPTH + 1
      modifies this
      ensures Valid() && depth == old(depth)[u := n] && Traced(old(history), history, false)
    {
      Count(history, depth, u, n);
      depth := depth[u := n];
      history := history + [depth];
    }

    /** xmlCatalogXMLResolve. `hit` tells whether some counter was seen above the limit on the way. */
    method XMLResolve(u: string, pub: Option<string>, sys: Option<string>) returns (r: Res, ghost hit: bool)
      requires Valid() && u in store
      modifies this
      ensures Valid() && Since(old(depth), old(history), depth, history, hit)
      ensures u in rank && Quiet(store, rank, old(depth), rank[u] + 1) ==>
        !hit && r == Answer(store, rank, u, pub, sys) && Determined(store, u, pub, sys, r)
      decreases Slots(depth), 1, 1, 0
    {
      if depth[u] > MAX_CATAL_DEPTH {
        SinceNothing(depth, history);
        SinceAbove(depth, history, depth, history, false, u);
        return NotFound, true;
      }
      if u in rank && Quiet(store, rank, depth, rank[u] + 1) {
        QuietEntered(store, rank, depth, u);
        RulesDetermine(store, rank, u, pub, sys);
      }
      r, hit := SearchRaised(u, pub, sys);
    }

    /** The search with the list's counter raised. */
    method SearchRaised(u: string, pub: Option<string>, sys: Option<string>) returns (r: Res, ghost hit: bool)
      requires Valid() && u in store && depth[u] <= MAX_CATAL_DEPTH
      modifies this
      ensures Valid() && Since(old(depth), old(history), depth, history, hit)
      ensures
        var entered := old(depth)[u := old(depth)[u] + 1];
        u in rank && Quiet(store, rank, entered, rank[u]) && entered[u] <= MAX_CATAL_DEPTH ==>
          !hit && r == Answer(store, rank, u, pub, sys)
      decreases Slots(depth), 1, 0, 0
    {
      ghost var before, first := depth, history;
      SetDepth(u, depth[u] + 1);
      ghost var entered, second := depth, history;
      SlotsShrink(before, entered);
      var leak;
      r, leak, hit := Search(u, pub, sys);
      ghost var left, third := depth, history;
      if !leak {
        SetDepth(u, depth[u] - 1);
      }
      SinceReturn(before, first, entered, second, left, third, depth, history, u, hit, leak);
    }

    /** The steps of xmlCatalogXMLResolve while the list's counter is raised; `leak` marks the one return that
        leaves it raised. */
    method Search(u: string, pub: Option<string>, sys: Option<string>) returns (r: Res, leak: bool, ghost hit: bool)
      requires Valid() && u in store
      modifies this
      ensures Valid() && Since(old(depth), old(history), depth, history, hit)
      ensures leak ==> hit
      ensures u in rank && Quiet(store, rank, old(depth), rank[u]) && old(depth)[u] <= MAX_CATAL_DEPTH ==>
        !hit && r == Answer(store, rank, u, pub, sys)
      decreases Slots(depth), 6, 0, 0
    {
      var es := store[u];
      var haveNext := false;
      leak, hit := false, false;
      SinceNothing(depth, history);
      if sys.Some? {
        var exact, rewrite, haveDelegate, next := ScanSystem(es, sys.value);
        if exact.Some? {
          return UrlOf(es[exact.value]), false, false;
        }
        if rewrite.Some? {
          return Rewritten(es[rewrite.value], sys.value), false, false;
        }
        if haveDelegate {
          r, hit := TryDelegates(u, SystemDelegates(sys.value));
          return;
        }
        haveNext := next;
      }
      if pub.Some? {
        var exact, haveDelegate, next := ScanPublic(es, pub.value);
        if exact.Some? {
          return UrlOf(es[exact.value]), false, false;
        }
        if haveDelegate {
          r, hit := TryDelegates(u, PublicDelegates(pub.value));
          return;
        }
        if sys.None? {
          haveNext := next;
        }
      }
      if haveNext {
        r, leak, hit := TryNext(u, pub, sys);
      } else {
        r := NotFound;
        if Acyclic(store, rank) && (pub.Some? || sys.Some?) {
          NoNext(store, rank, u, pub, sys);
        }
      }
    }

    /** Tries the matching delegates in order, each URL once as long as the array of tried URLs has room. */
    method TryDelegates(u: string, pass: Pass) returns (r: Res, ghost hit: bool)
      requires Valid() && u in store && !pass.NextCatalogs?
      modifies this
      ensures Valid() && Since(old(depth), old(history), depth, history, hit)
      ensures u in rank && Quiet(store, rank, old(depth), rank[u]) ==>
        !hit && r == Cut(FirstOf(store, rank, u, |store[u]|, pass))
      decreases Slots(depth), 5, 0, 0
    {
      var delegates := new Option<string>[MAX_DELEGATE];
      r, hit := TryAll(u, pass, delegates);
    }

    /** The loop over the entries, with room for as many URLs as the array has. */
    method TryAll(u: string, pass: Pass, delegates: array<Option<string>>) returns (r: Res, ghost hit: bool)
      requires Valid() && u in store
      modifies this, delegates
      ensures Valid() && Since(old(depth), old(history), depth, history, hit)
      ensures u in rank && Quiet(store, rank, old(depth), rank[u]) ==>
        !hit && r == Cut(FirstOf(store, rank, u, |store[u]|, pass))
      decreases Slots(depth), 4, 2, 0
    {
      var n := |store[u]|;
      var nbList := 0;
      hit := false;
      ghost var quiet := u in rank && Quiet(store, rank, depth, rank[u]);
      ghost var before, first := depth, history;
      SinceNothing(depth, history);
      for i := 0 to n
        invariant Valid() && Since(before, first, depth, history, hit) && 0 <= nbList <= delegates.Length
        invariant quiet ==> !hit && FirstOf(store, rank, u, i, pass) == NotFound
        invariant quiet ==> AllFailed(store, rank, u, pass, delegates[..nbList])
      {
        SlotsShrink(before, depth);
        ghost var h, now, last := false, depth, history;
        r, nbList, h := TryOne(u, i, pass, delegates, nbList);
        SinceMore(before, first, now, last, depth, history, hit, h);
        hit := hit || h;
        if r != NotFound {
          if quiet {
            FirstOfStays(store, rank, u, i + 1, n, pass);
          }
          return;
        }
      }
      r := Break;
    }

    /** One entry: a matching delegate is skipped if its URL was tried, else noted, room permitting, and followed. */
    method TryOne(u: string, i: nat, pass: Pass, delegates: array<Option<string>>, nbList: nat)
        returns (r: Res, nbNow: nat, ghost hit: bool)
      requires Valid() && u in store && i < |store[u]| && nbList <= delegates.Length
      modifies this, delegates
      ensures Valid() && Since(old(depth), old(history), depth, history, hit) && nbNow <= delegates.Length
      ensures u in rank && Quiet(store, rank, old(depth), rank[u])
                && AllFailed(store, rank, u, pass, old(delegates[..nbList]))
                && FirstOf(store, rank, u, i, pass) == NotFound ==>
        && !hit && r == FirstOf(store, rank, u, i + 1, pass)
        && (r == NotFound ==> AllFailed(store, rank, u, pass, delegates[..nbNow]))
      decreases Slots(depth), 4, 1, 0
    {
      nbNow := nbList;
      SinceNothing(depth, history);
      if !Follows(pass, store[u][i]) {
        return NotFound, nbNow, false;
      }
      var url := store[u][i].url;
      ghost var was := delegates[..nbList];
      var tried := Tried(delegates, nbList, url);
      if tried {
        if Acyclic(store, rank) && AllFailed(store, rank, u, pass, was) {
          TriedFailed(store, rank, u, pass, was, i);
        }
        return NotFound, nbNow, false;
      }
      if nbList < delegates.Length {
        delegates[nbList] := url;
        nbNow := nbList + 1;
        assert delegates[..nbNow] == was + [url];
      }
      ghost var now := delegates[..nbNow];
      r, hit := FollowEntry(u, i, pass);
      assert delegates[..nbNow] == now;
      if Acyclic(store, rank) && AllFailed(store, rank, u, pass, was) && Follow1(store, rank, u, i, pass) == NotFound {
        NotedFailed(store, rank, u, pass, was, i);
      }
    }

    /** Is the URL among the first n of the array? */
    static method Tried(delegates: array<Option<string>>, n: nat, url: Option<string>) returns (r: bool)
      requires n <= delegates.Length
      ensures r <==> url in delegates[..n]
    {
      for i := 0 to n
        invariant forall k :: 0 <= k < i ==> delegates[k] != url
      {
        if delegates[i] == url {
          return true;
        }
      }
      return false;
    }

    /** Asks the next catalogs in order. */
    method TryNext(u: string, pub: Option<string>, sys: Option<string>) returns (r: Res, leak: bool, ghost hit: bool)
      requires Valid() && u in store
      modifies this
      ensures Valid() && Since(old(depth), old(history), depth, history, hit)
      ensures leak ==> hit
      ensures u in rank && Quiet(store, rank, old(depth), rank[u]) && old(depth)[u] <= MAX_CATAL_DEPTH ==>
        !hit && r == FirstOf(store, rank, u, |store[u]|, NextCatalogs(pub, sys))
      decreases Slots(depth), 5, 0, 0
    {
      var n, pass := |store[u]|, NextCatalogs(pub, sys);
      leak, hit := false, false;
      ghost var quiet := u in rank && Quiet(store, rank, depth, rank[u]) && depth[u] <= MAX_CATAL_DEPTH;
      ghost var before, first := depth, history;
      SinceNothing(depth, history);
      for i := 0 to n
        invariant Valid() && Since(before, first, depth, history, hit)
        invariant quiet ==> !hit && FirstOf(store, rank, u, i, pass) == NotFound
      {
        SlotsShrink(before, depth);
        ghost var h, now, last := false, depth, history;
        r, leak, h := NextOne(u, i, pass);
        SinceMore(before, first, now, last, depth, history, hit, h);
        hit := hit || h;
        if r != NotFound {
          if quiet {
            FirstOfStays(store, rank, u, i + 1, n, pass);
          }
          return;
        }
        if leak {
          return;
        }
      }
      r := NotFound;
    }

    /** One entry: a next catalog is followed; without an answer, a list above the limit ends the search. */
    method NextOne(u: string, i: nat, pass: Pass) returns (r: Res, leak: bool, ghost hit: bool)
      requires Valid() && u in store && i < |store[u]|
      modifies this
      ensures Valid() && Since(old(depth), old(history), depth, history, hit)
      ensures leak ==> hit && r == NotFound
      ensures u in rank && Quiet(store, rank, old(depth), rank[u]) && old(depth)[u] <= MAX_CATAL_DEPTH
                && FirstOf(store, rank, u, i, pass) == NotFound ==>
        !hit && r == FirstOf(store, rank, u, i + 1, pass)
      decreases Slots(depth), 4, 1, 0
    {
      leak, hit := false, false;
      ghost var before, first := depth, history;
      SinceNothing(depth, history);
      if !Follows(pass, store[u][i]) {
        return NotFound, false, false;
      }
      r, hit := FollowEntry(u, i, pass);
      if r == NotFound && Loads(store, store[u][i]) && depth[u] > MAX_CATAL_DEPTH {
        SinceAbove(before, first, depth, history, hit, u);
        return NotFound, true, true;
      }
    }

    /** Resolves in the catalog that an entry refers to, if it can be loaded. */
    method FollowEntry(u: string, i: nat, pass: Pass) returns (r: Res, ghost hit: bool)
      requires Valid() && u in store && i < |store[u]| && Follows(pass, store[u][i])
      modifies this
      ensures Valid() && Since(old(depth), old(history), depth, history, hit)
      ensures u in rank && Quiet(store, rank, old(depth), rank[u]) ==>
        !hit && r == Follow1(store, rank, u, i, pass)
      decreases Slots(depth), 4, 0, 0
    {
      var e := store[u][i];
      if !Loads(store, e) {
        SinceNothing(depth, history);
        return NotFound, false;
      }
      var list := [File(e.url)];
      ghost var bound := if u in rank then rank[u] else 0;
      r, hit := ListResolve(list, PassPublic(pass), PassSystem(pass), bound);
      if Acyclic(store, rank) {
        FollowsList(store, rank, u, i, pass);
      }
    }

    /** xmlCatalogListXMLResolve: unwraps URNs, however nested, then asks the catalogs of the list in order. */
    method ListResolve(list: seq<Entry>, pub: Option<string>, sys: Option<string>, ghost bound: nat)
        returns (r: Res, ghost hit: bool)
      requires Valid()
      modifies this
      ensures Valid() && Since(old(depth), old(history), depth, history, hit)
      ensures Quiet(store, rank, old(depth), bound) && Below(store, rank, list, bound) ==>
        !hit && r == FirstIn(store, rank, bound, list, |list|, Effective(pub, sys))
      decreases Slots(depth), 3, IdPercents(pub) + IdPercents(sys), Urns(NormalId(pub)) + Urns(sys), 1
    {
      if list == [] || (pub.None? && sys.None?) {
        if Acyclic(store, rank) && Below(store, rank, list, bound) && list != [] {
          NothingWithoutIds(store, rank, bound, list, |list|);
        }
        SinceNothing(depth, history);
        return NotFound, false;
      }
      var p := pub;
      var normid := NormalizePublic(pub);
      if normid.Some? {
        p := if normid.value != [] then normid else None;
      }
      NormalisedOrKept(pub, normid);
      NormalIdMeasure(pub);
      r, hit := ResolveIds(list, pub, p, sys, bound);
    }

    /** A URN among the identifiers is unwrapped first. */
    method ResolveIds(list: seq<Entry>, ghost pub: Option<string>, p: Option<string>, sys: Option<string>,
                      ghost bound: nat)
        returns (r: Res, ghost hit: bool)
      requires Valid() && p == NormalId(pub) == NormalId(p) && IdPercents(p) <= IdPercents(pub)
      modifies this
      ensures Valid() && Since(old(depth), old(history), depth, history, hit)
      ensures Quiet(store, rank, old(depth), bound) && Below(store, rank, list, bound) ==>
        !hit && r == FirstIn(store, rank, bound, list, |list|, Effective(pub, sys))
      decreases Slots(depth), 3, IdPercents(pub) + IdPercents(sys), Urns(NormalId(pub)) + Urns(sys), 0
    {
      if p.Some? && IsUrn(p.value) {
        UnwrapMeasure(p.value);
        var urnID := UnWrapURN(p.value);
        r, hit := ListResolve(list, urnID, sys, bound);
      } else if sys.Some? && IsUrn(sys.value) {
        UnwrapMeasure(sys.value);
        var urnID := UnWrapURN(sys.value);
        if p.None? {
          r, hit := ListResolve(list, urnID, None, bound);
        } else if p == urnID {
          r, hit := ListResolve(list, p, None, bound);
        } else {
          r, hit := ListResolve(list, p, urnID, bound);
        }
      } else {
        r, hit := Walk(list, p, sys, bound);
      }
    }

    /** The loop of xmlCatalogListXMLResolve over the list's catalogs. */
    method Walk(list: seq<Entry>, pub: Option<string>, sys: Option<string>, ghost bound: nat)
        returns (r: Res, ghost hit: bool)
      requires Valid()
      modifies this
      ensures Valid() && Since(old(depth), old(history), depth, history, hit)
      ensures Quiet(store, rank, old(depth), bound) && Below(store, rank, list, bound) ==>
        !hit && r == FirstIn(store, rank, bound, list, |list|, (pub, sys))
      decreases Slots(depth), 2, 0, 0
    {
      r, hit := NotFound, false;
      ghost var quiet := Quiet(store, rank, depth, bound) && Below(store, rank, list, bound);
      ghost var before, first := depth, history;
      SinceNothing(depth, history);
      var i := 0;
      while i < |list|
        invariant Valid() && Since(before, first, depth, history, hit) && 0 <= i <= |list| && r == NotFound
        invariant quiet ==> !hit && FirstIn(store, rank, bound, list, i, (pub, sys)) == NotFound
      {
        SlotsShrink(before, depth);
        var catal := list[i];
        if quiet && catal.kind == CatalogSpec.Catalog && store[catal.url.value] == [] {
          EmptyListAnswer(store, rank, catal.url.value, pub, sys);
        }
        if catal.kind == CatalogSpec.Catalog && Loads(store, catal) && store[catal.url.value] != [] {
          ghost var h, now, last := false, depth, history;
          r, h := XMLResolve(catal.url.value, pub, sys);
          SinceMore(before, first, now, last, depth, history, hit, h);
          hit := hit || h;
          if r != NotFound {
            if quiet {
              FirstInStays(store, rank, bound, list, i + 1, |list|, (pub, sys));
            }
            return;
          }
          if depth[catal.url.value] > MAX_CATAL_DEPTH {
            SinceAbove(before, first, depth, history, hit, catal.url.value);
            return NotFound, true;
          }
        }
        i := i + 1;
      }
    }
  }

  lemma NormalisedOrKept(pub: Option<string>, normid: Option<string>)
    requires normid.None? <==> pub.None? || (pub.value != [] && IsNormal(pub.value))
    requires normid.Some? ==> normid.value == Normal(pub.value)
    ensures NormalId(pub) == if normid.None? then pub else if normid.value != [] then normid else None
  {
    if pub.Some? {
      NormalIdempotent(pub.value);
    }
  }

  lemma {:induction false} FirstInStays(
      store: Store, rank: map<string, nat>, bound: nat, list: seq<Entry>, i: nat, n: nat,
      ids: (Option<string>, Option<string>))
    requires Acyclic(store, rank) && Below(store, rank, list, bound) && i <= n <= |list|
    requires FirstIn(store, rank, bound, list, i, ids) != NotFound
    ensures FirstIn(store, rank, bound, list, n, ids) == FirstIn(store, rank, bound, list, i, ids)
  {
    if i < n {
      FirstInStays(store, rank, bound, list, i, n - 1, ids);
    }
  }

  lemma {:induction false} FirstInExists(
      store: Store, rank: map<string, nat>, bound: nat, list: seq<Entry>, n: nat,
      ids: (Option<string>, Option<string>)) returns (i: nat)
    requires Acyclic(store, rank) && Below(store, rank, list, bound) && n <= |list|
    requires FirstIn(store, rank, bound, list, n, ids) != NotFound
    ensures i < n && list[i].kind == CatalogSpec.Catalog
    ensures Answer(store, rank, list[i].url.value, ids.0, ids.1) == FirstIn(store, rank, bound, list, n, ids)
    ensures FirstIn(store, rank, bound, list, i, ids) == NotFound
    decreases n
  {
    if FirstIn(store, rank, bound, list, n - 1, ids) == NotFound {
      i := n - 1;
    } else {
      i := FirstInExists(store, rank, bound, list, n - 1, ids);
    }
  }

  lemma {:induction false} FirstInNone(
      store: Store, rank: map<string, nat>, bound: nat, list: seq<Entry>, n: nat,
      ids: (Option<string>, Option<string>))
    requires Acyclic(store, rank) && Below(store, rank, list, bound) && n <= |list|
    ensures FirstIn(store, rank, bound, list, n, ids) == NotFound <==>
      forall j :: 0 <= j < n && list[j].kind == CatalogSpec.Catalog ==>
        Answer(store, rank, list[j].url.value, ids.0, ids.1) == NotFound
    decreases n
  {
    if n > 0 {
      FirstInNone(store, rank, bound, list, n - 1, ids);
    }
  }

  /** The first result among the catalogs of a list. */
  ghost predicate FirstCatalog(
      store: Store, of: Results, list: seq<Entry>, ids: (Option<string>, Option<string>), r: Res)
  {
    FirstResult(store, of, list, (e: Entry) => e.kind == CatalogSpec.Catalog, ids, NotFound, r)
  }

  /** Asking the catalogs of a list in order is the first result among them. */
  lemma FirstInByRules(
      store: Store, rank: map<string, nat>, bound: nat, list: seq<Entry>, ids: (Option<string>, Option<string>))
    requires Acyclic(store, rank) && Below(store, rank, list, bound)
    ensures forall of, r :: Solves(store, of) && FirstCatalog(store, of, list, ids, r) ==>
      r == FirstIn(store, rank, bound, list, |list|, ids)
  {
    forall of, r | Solves(store, of) && FirstCatalog(store, of, list, ids, r)
      ensures r == FirstIn(store, rank, bound, list, |list|, ids)
    {
      forall i | 0 <= i < |list| && list[i].kind == CatalogSpec.Catalog
        ensures Linked(store, of, list[i], ids) == Answer(store, rank, list[i].url.value, ids.0, ids.1)
      {
        SolutionIsAnswer(store, rank, of, list[i].url.value, ids.0, ids.1);
      }
      FirstInNone(store, rank, bound, list, |list|, ids);
      if FirstIn(store, rank, bound, list, |list|, ids) != NotFound {
        var k := FirstInExists(store, rank, bound, list, |list|, ids);
        FirstInNone(store, rank, bound, list, k, ids);
        assert Linked(store, of, list[k], ids) != NotFound;
      }
    }
  }

  /** Following one entry is asking the list that holds just its catalog. */
  lemma FollowsList(store: Store, rank: map<string, nat>, u: string, i: nat, pass: Pass)
    requires Acyclic(store, rank) && u in store && i < |store[u]| && Follows(pass, store[u][i])
    ensures
      var list := [File(store[u][i].url)];
      && Below(store, rank, list, rank[u])
      && FirstIn(store, rank, rank[u], list, 1, Effective(PassPublic(pass), PassSystem(pass)))
           == Follow1(store, rank, u, i, pass)
  {
    var e := store[u][i];
    assert Links(e);
    var list, ids := [File(e.url)], Effective(PassPublic(pass), PassSystem(pass));
    assert FirstIn(store, rank, rank[u], list, 0, ids) == NotFound;
  }
}
