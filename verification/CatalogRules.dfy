/** External identifier resolution by its rules: what the result for one list has to do with the list's entries and with
    the results for the lists that they lead to. On acyclic catalogs the rules have exactly one solution. */
module CatalogRules {
  import opened XmlString
  import opened CatalogIds
  import opened CatalogSpec

  /** A result for every list, known by its URL, and every pair of a public and a system identifier. */
  type Results = (string, Option<string>, Option<string>) -> Res

  // ---------------------------------------------------------------- the rules

  /** The first entry of the kind with exactly this name. */
  ghost predicate FirstNamed(es: seq<Entry>, i: nat, kind: Kind, id: string) {
    && i < |es| && es[i].kind == kind && es[i].name == Some(id)
    && forall j :: 0 <= j < i ==> !(es[j].kind == kind && es[j].name == Some(id))
  }

  ghost predicate HasNamed(es: seq<Entry>, kind: Kind, id: string) {
    exists i :: 0 <= i < |es| && es[i].kind == kind && es[i].name == Some(id)
  }

  ghost predicate RewriteFor(e: Entry, sys: string) {
    e.kind == RewriteSystem && e.name.Some? && e.name.value != "" && e.name.value <= sys
  }

  /** The rewrite rule with the longest name, the earliest of them on ties. */
  ghost predicate LongestRewrite(es: seq<Entry>, i: nat, sys: string) {
    && i < |es| && RewriteFor(es[i], sys)
    && forall j :: 0 <= j < |es| && RewriteFor(es[j], sys) ==>
         |es[j].name.value| < |es[i].name.value| || (|es[j].name.value| == |es[i].name.value| && i <= j)
  }

  predicate SystemDelegate(e: Entry, sys: string) {
    e.kind == DelegateSystem && (e.name.Some? ==> e.name.value <= sys)
  }

  /** Delegates for public identifiers count only where public identifiers are preferred. */
  predicate PublicDelegate(e: Entry, pub: string) {
    e.kind == DelegatePublic && e.prefer == PreferPublic && (e.name.Some? ==> e.name.value <= pub)
  }

  /** The entry's URL with something behind it; nothing where the entry has no URL. */
  ghost predicate Gives(url: Option<string>, behind: string, r: Res) {
    if url.None? then r == NotFound else r == Found(url.value + behind)
  }

  /** What following an entry with the identifiers gives. */
  function Linked(store: Store, of: Results, e: Entry, ids: (Option<string>, Option<string>)): Res {
    if Loads(store, e) then of(e.url.value, ids.0, ids.1) else NotFound
  }

  /** The first result among the followed entries, or else `none`. */
  ghost predicate FirstResult(
      store: Store, of: Results, es: seq<Entry>, followed: Entry -> bool, ids: (Option<string>, Option<string>),
      none: Res, r: Res)
  {
    && ((forall i :: 0 <= i < |es| && followed(es[i]) ==> Linked(store, of, es[i], ids) == NotFound) ==> r == none)
    && forall i :: 0 <= i < |es| && followed(es[i]) && Linked(store, of, es[i], ids) != NotFound ==>
         (forall j :: 0 <= j < i && followed(es[j]) ==> Linked(store, of, es[j], ids) == NotFound) ==>
           r == Linked(store, of, es[i], ids)
  }

  /** No entry of the list says anything about the system identifier. */
  ghost predicate NoSystemRule(es: seq<Entry>, sys: Option<string>) {
    sys.Some? ==>
      && !HasNamed(es, System, sys.value)
      && forall i :: 0 <= i < |es| ==> !RewriteFor(es[i], sys.value) && !SystemDelegate(es[i], sys.value)
  }

  ghost predicate NoPublicRule(es: seq<Entry>, pub: Option<string>) {
    pub.Some? ==>
      !HasNamed(es, Public, pub.value) && forall i :: 0 <= i < |es| ==> !PublicDelegate(es[i], pub.value)
  }

  /** An exact match gives its URL; else the best rewrite gives its URL with the rest of the identifier behind it; else
      matching delegates are asked, with this identifier alone, and without an answer the search is cut. */
  ghost predicate SystemRules(store: Store, of: Results, es: seq<Entry>, sys: string, r: Res) {
    && (forall i: nat :: FirstNamed(es, i, System, sys) ==> Gives(es[i].url, "", r))
    && (!HasNamed(es, System, sys) ==>
          && (forall i: nat, behind :: LongestRewrite(es, i, sys) && es[i].name.value + behind == sys ==>
                Gives(es[i].url, behind, r))
          && ((forall i :: 0 <= i < |es| ==> !RewriteFor(es[i], sys)) && !NoSystemRule(es, Some(sys)) ==>
                FirstResult(store, of, es, e => SystemDelegate(e, sys), Effective(None, Some(sys)), Break, r)))
  }

  /** The same without rewriting. */
  ghost predicate PublicRules(store: Store, of: Results, es: seq<Entry>, pub: string, r: Res) {
    && (forall i: nat :: FirstNamed(es, i, Public, pub) ==> Gives(es[i].url, "", r))
    && (!HasNamed(es, Public, pub) && !NoPublicRule(es, Some(pub)) ==>
          FirstResult(store, of, es, e => PublicDelegate(e, pub), Effective(Some(pub), None), Break, r))
  }

  /** The public identifier counts only where no rule for the system identifier applies, and the next catalogs are
      asked, with both identifiers, only where neither has a rule. */
  ghost predicate Rules(
      store: Store, of: Results, es: seq<Entry>, pub: Option<string>, sys: Option<string>, r: Res)
  {
    && (sys.Some? ==> SystemRules(store, of, es, sys.value, r))
    && (NoSystemRule(es, sys) && pub.Some? ==> PublicRules(store, of, es, pub.value, r))
    && (NoSystemRule(es, sys) && NoPublicRule(es, pub) ==>
          if pub.None? && sys.None? then r == NotFound
          else FirstResult(store, of, es, (e: Entry) => e.kind == NextCatalog, Effective(pub, sys), NotFound, r))
  }

  ghost predicate Solves(store: Store, of: Results) {
    forall u, pub, sys :: u in store ==> Rules(store, of, store[u], pub, sys, of(u, pub, sys))
  }

  /** The rules have a solution, and every solution has this result for the list. */
  ghost predicate Determined(store: Store, u: string, pub: Option<string>, sys: Option<string>, r: Res) {
    (exists of :: Solves(store, of)) && forall of :: Solves(store, of) ==> of(u, pub, sys) == r
  }

  // ---------------------------------------------------------------- the specification obeys the rules

  /** The results agree with the specification on every list that the entries of this one lead to. */
  ghost predicate Agrees(store: Store, rank: map<string, nat>, of: Results, u: string)
    requires Acyclic(store, rank) && u in store
  {
    forall i, pub, sys :: 0 <= i < |store[u]| && Links(store[u][i]) ==>
      Linked(store, of, store[u][i], (pub, sys)) == Answer(store, rank, store[u][i].url.value, pub, sys)
  }

  /** The entry with the first answer decides. */
  lemma FirstDecides(store: Store, rank: map<string, nat>, u: string, i: nat, pass: Pass)
    requires Acyclic(store, rank) && u in store && i < |store[u]| && Follows(pass, store[u][i])
    requires Follow1(store, rank, u, i, pass) != NotFound
    requires forall j :: 0 <= j < i && Follows(pass, store[u][j]) ==> Follow1(store, rank, u, j, pass) == NotFound
    ensures FirstOf(store, rank, u, |store[u]|, pass) == Follow1(store, rank, u, i, pass)
  {
    FirstOfNone(store, rank, u, i, pass);
    FirstOfStays(store, rank, u, i + 1, |store[u]|, pass);
  }

  lemma {:induction false} FirstExists(store: Store, rank: map<string, nat>, u: string, n: nat, pass: Pass)
      returns (i: nat)
    requires Acyclic(store, rank) && u in store && n <= |store[u]|
    requires FirstOf(store, rank, u, n, pass) != NotFound
    ensures i < n && Follows(pass, store[u][i]) && Follow1(store, rank, u, i, pass) == FirstOf(store, rank, u, n, pass)
    ensures forall j :: 0 <= j < i && Follows(pass, store[u][j]) ==> Follow1(store, rank, u, j, pass) == NotFound
    decreases n
  {
    if FirstOf(store, rank, u, n - 1, pass) == NotFound {
      i := n - 1;
      FirstOfNone(store, rank, u, n - 1, pass);
    } else {
      i := FirstExists(store, rank, u, n - 1, pass);
    }
  }

  /** Asking the followed entries in order is the first result among them. */
  lemma FirstOfIsFirst(
      store: Store, rank: map<string, nat>, of: Results, u: string, pass: Pass, followed: Entry -> bool,
      ids: (Option<string>, Option<string>), none: Res, r: Res)
    requires Acyclic(store, rank) && u in store && Agrees(store, rank, of, u)
    requires forall i :: 0 <= i < |store[u]| ==> followed(store[u][i]) == Follows(pass, store[u][i])
    requires ids == Effective(PassPublic(pass), PassSystem(pass))
    ensures
      var first := FirstOf(store, rank, u, |store[u]|, pass);
      FirstResult(store, of, store[u], followed, ids, none, r) <==> r == if first == NotFound then none else first
  {
    var es := store[u];
    forall i | 0 <= i < |es| && Follows(pass, es[i])
      ensures Linked(store, of, es[i], ids) == Follow1(store, rank, u, i, pass)
    {
      assert Links(es[i]);
    }
    FirstOfNone(store, rank, u, |es|, pass);
    if FirstOf(store, rank, u, |es|, pass) != NotFound {
      var k := FirstExists(store, rank, u, |es|, pass);
      assert Linked(store, of, es[k], ids) == Follow1(store, rank, u, k, pass);
      forall i | 0 <= i < |es| && followed(es[i]) && Linked(store, of, es[i], ids) != NotFound
          && (forall j :: 0 <= j < i && followed(es[j]) ==> Linked(store, of, es[j], ids) == NotFound)
        ensures i == k
      {
        assert Follow1(store, rank, u, i, pass) != NotFound;
      }
    }
  }

  lemma NamedIsFirst(es: seq<Entry>, kind: Kind, id: string)
    ensures FirstMatch(es, kind, id).Some? <==> HasNamed(es, kind, id)
    ensures forall i: nat :: FirstNamed(es, i, kind, id) <==> FirstMatch(es, kind, id) == Some(i)
  {
  }

  lemma LongestIsBest(es: seq<Entry>, sys: string)
    ensures BestRewrite(es, sys).None? <==> forall i :: 0 <= i < |es| ==> !RewriteFor(es[i], sys)
    ensures forall i: nat :: LongestRewrite(es, i, sys) <==> BestRewrite(es, sys) == Some(i)
  {
    assert forall e :: RewriteFor(e, sys) == Rewrites(e, sys);
  }

  /** A rule that names the entry decides the result. */
  lemma GivesIs(url: Option<string>, behind: string, r: Res)
    ensures Gives(url, behind, r) <==> r == if url.None? then NotFound else Found(url.value + behind)
    ensures url.Some? ==> url.value + "" == url.value
  {
  }

  lemma RewrittenGives(e: Entry, sys: string, r: Res)
    requires Rewrites(e, sys)
    ensures r == Rewritten(e, sys) <==> forall behind :: e.name.value + behind == sys ==> Gives(e.url, behind, r)
  {
    var behind := sys[|e.name.value|..];
    assert e.name.value + behind == sys;
    forall other | e.name.value + other == sys
      ensures other == behind
    {
      assert (e.name.value + other)[|e.name.value|..] == other;
    }
  }

  lemma SystemDecides(store: Store, rank: map<string, nat>, of: Results, u: string, sys: string, r: Res)
    requires Acyclic(store, rank) && u in store && Agrees(store, rank, of, u)
    ensures
      var es := store[u];
      && (NoSystemRule(es, Some(sys)) ==> SystemRules(store, of, es, sys, r))
      && (NoSystemRule(es, Some(sys)) <==>
            FirstMatch(es, System, sys).None? && BestRewrite(es, sys).None? && !Follow(es, SystemDelegates(sys)))
      && (!NoSystemRule(es, Some(sys)) ==>
            forall pub :: SystemRules(store, of, es, sys, r) <==> r == Answer(store, rank, u, pub, Some(sys)))
  {
    var es := store[u];
    NamedIsFirst(es, System, sys);
    LongestIsBest(es, sys);
    assert forall e :: SystemDelegate(e, sys) == Follows(SystemDelegates(sys), e);
    if FirstMatch(es, System, sys).Some? {
      var i := FirstMatch(es, System, sys).value;
      assert FirstNamed(es, i, System, sys);
      GivesIs(es[i].url, "", r);
    } else if BestRewrite(es, sys).Some? {
      var i := BestRewrite(es, sys).value;
      assert LongestRewrite(es, i, sys);
      RewrittenGives(es[i], sys, r);
    } else {
      FirstOfIsFirst(store, rank, of, u, SystemDelegates(sys), e => SystemDelegate(e, sys), Effective(None, Some(sys)),
                     Break, r);
    }
  }

  lemma PublicDecides(store: Store, rank: map<string, nat>, of: Results, u: string, pub: string, r: Res)
    requires Acyclic(store, rank) && u in store && Agrees(store, rank, of, u)
    ensures
      var es := store[u];
      && (NoPublicRule(es, Some(pub)) ==> PublicRules(store, of, es, pub, r))
      && (NoPublicRule(es, Some(pub)) <==>
            FirstMatch(es, Public, pub).None? && !Follow(es, PublicDelegates(pub)))
      && (!NoPublicRule(es, Some(pub)) ==>
            (PublicRules(store, of, es, pub, r) <==> r == Answer(store, rank, u, Some(pub), None)))
  {
    var es := store[u];
    NamedIsFirst(es, Public, pub);
    assert forall e :: PublicDelegate(e, pub) == Follows(PublicDelegates(pub), e);
    if FirstMatch(es, Public, pub).Some? {
      var i := FirstMatch(es, Public, pub).value;
      assert FirstNamed(es, i, Public, pub);
      GivesIs(es[i].url, "", r);
    } else {
      FirstOfIsFirst(store, rank, of, u, PublicDelegates(pub), e => PublicDelegate(e, pub), Effective(Some(pub), None),
                     Break, r);
    }
  }

  /** Where the linked lists have their answers, the rules for a list say that it has its answer. */
  lemma RulesDecide(
      store: Store, rank: map<string, nat>, of: Results, u: string, pub: Option<string>, sys: Option<string>, r: Res)
    requires Acyclic(store, rank) && u in store && Agrees(store, rank, of, u)
    ensures Rules(store, of, store[u], pub, sys, r) <==> r == Answer(store, rank, u, pub, sys)
  {
    var es := store[u];
    if sys.Some? {
      SystemDecides(store, rank, of, u, sys.value, r);
    }
    if pub.Some? {
      PublicDecides(store, rank, of, u, pub.value, r);
    }
    if NoSystemRule(es, sys) && NoPublicRule(es, pub) && (pub.Some? || sys.Some?) {
      FirstOfIsFirst(store, rank, of, u, NextCatalogs(pub, sys), (e: Entry) => e.kind == NextCatalog,
                     Effective(pub, sys), NotFound, r);
    }
  }

  // ---------------------------------------------------------------- one solution

  ghost function AnswerOf(store: Store, rank: map<string, nat>): Results
    requires Acyclic(store, rank)
  {
    (u, pub, sys) => if u in store then Answer(store, rank, u, pub, sys) else NotFound
  }

  lemma AnswerSolves(store: Store, rank: map<string, nat>)
    requires Acyclic(store, rank)
    ensures Solves(store, AnswerOf(store, rank))
  {
    var of := AnswerOf(store, rank);
    forall u, pub, sys | u in store
      ensures Rules(store, of, store[u], pub, sys, of(u, pub, sys))
    {
      RulesDecide(store, rank, of, u, pub, sys, of(u, pub, sys));
    }
  }

  lemma {:induction false} SolutionIsAnswer(
      store: Store, rank: map<string, nat>, of: Results, u: string, pub: Option<string>, sys: Option<string>)
    requires Acyclic(store, rank) && u in store && Solves(store, of)
    ensures of(u, pub, sys) == Answer(store, rank, u, pub, sys)
    decreases rank[u]
  {
    forall i, p, s | 0 <= i < |store[u]| && Links(store[u][i])
      ensures Linked(store, of, store[u][i], (p, s)) == Answer(store, rank, store[u][i].url.value, p, s)
    {
      SolutionIsAnswer(store, rank, of, store[u][i].url.value, p, s);
    }
    RulesDecide(store, rank, of, u, pub, sys, of(u, pub, sys));
  }

  /** On acyclic catalogs the rules have one solution: the answers of the specification. */
  lemma RulesDetermine(store: Store, rank: map<string, nat>, u: string, pub: Option<string>, sys: Option<string>)
    requires Acyclic(store, rank) && u in store
    ensures Determined(store, u, pub, sys, Answer(store, rank, u, pub, sys))
  {
    AnswerSolves(store, rank);
    forall of | Solves(store, of)
      ensures of(u, pub, sys) == Answer(store, rank, u, pub, sys)
    {
      SolutionIsAnswer(store, rank, of, u, pub, sys);
    }
  }
}
