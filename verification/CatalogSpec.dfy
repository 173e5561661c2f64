/** Catalog entries, and external identifier resolution as a plain recursive specification (section 7.1 of the
    OASIS XML Catalogs Working Draft of 06 August 2001). */
module CatalogSpec {
  import opened XmlString
  import opened CatalogIds

  datatype Kind =
    | Catalog | NextCatalog | Group | Public | System | RewriteSystem | DelegatePublic | DelegateSystem
    | Uri | RewriteUri | DelegateUri

  datatype Prefer = NoPrefer | PreferPublic | PreferSystem

  /** An entry of a catalog list; `group` is the position in that list of the enclosing group. */
  datatype Entry = Entry(
    kind: Kind, name: Option<string>, value: Option<string>, url: Option<string>, prefer: Prefer, group: Option<nat>)

  /** A resolution's outcome; Break stops the search without a result. */
  datatype Res = NotFound | Found(uri: string) | Break

  /** What each loadable URL loads as. */
  type Store = map<string, seq<Entry>>

  // ---------------------------------------------------------------- effective identifiers

  /** The public identifier that a search uses: normalised, absent when that leaves nothing. */
  function NormalId(pub: Option<string>): Option<string> {
    if pub.None? || Normal(pub.value) == [] then None else Some(Normal(pub.value))
  }

  function Urns(id: Option<string>): nat {
    if id.Some? && IsUrn(id.value) then 1 else 0
  }

  function IdPercents(id: Option<string>): nat {
    if id.None? then 0 else Percents(id.value)
  }

  lemma NormalIdMeasure(pub: Option<string>)
    ensures IdPercents(NormalId(pub)) <= IdPercents(pub)
    ensures NormalId(NormalId(pub)) == NormalId(pub)
  {
    if pub.Some? {
      NormalPercents(pub.value);
      NormalIdempotent(pub.value);
    }
  }

  lemma UnwrapMeasure(urn: string)
    requires IsUrn(urn)
    ensures Percents(Unwrap(urn)) <= Percents(urn)
    ensures Percents(Unwrap(urn)) == Percents(urn) ==> !IsUrn(Unwrap(urn)) && Urns(NormalId(Some(Unwrap(urn)))) == 0
  {
    UnwrapShrinks(urn);
  }

  /** The identifiers left when publicid URNs are unwrapped, however deeply they are nested. */
  function Effective(pub: Option<string>, sys: Option<string>): (r: (Option<string>, Option<string>))
    ensures Urns(r.0) == 0 && Urns(r.1) == 0 && NormalId(r.0) == r.0
    decreases IdPercents(pub) + IdPercents(sys), Urns(NormalId(pub)) + Urns(sys)
  {
    var p := NormalId(pub);
    NormalIdMeasure(pub);
    if Urns(p) == 1 then
      UnwrapMeasure(p.value);
      Effective(Some(Unwrap(p.value)), sys)
    else if Urns(sys) == 1 then
      UnwrapMeasure(sys.value);
      var id := Some(Unwrap(sys.value));
      if p.None? then Effective(id, None)
      else if p == id then Effective(p, None)
      else Effective(p, id)
    else (p, sys)
  }

  // ---------------------------------------------------------------- entries of one list

  /** Does the identifier begin with the entry's name? A missing name is a prefix of everything. */
  predicate Begins(id: string, e: Entry) {
    e.name.None? || e.name.value <= id
  }

  /** Which entries a search follows into other catalogs, and with which identifiers. */
  datatype Pass =
    | SystemDelegates(sys: string)
    | PublicDelegates(pub: string)
    | NextCatalogs(publicId: Option<string>, systemId: Option<string>)

  predicate Follows(pass: Pass, e: Entry) {
    match pass
    case SystemDelegates(sys) => e.kind == DelegateSystem && Begins(sys, e)
    case PublicDelegates(pub) => e.kind == DelegatePublic && e.prefer == PreferPublic && Begins(pub, e)
    case NextCatalogs(_, _) => e.kind == NextCatalog
  }

  function PassPublic(pass: Pass): Option<string> {
    match pass
    case SystemDelegates(_) => None
    case PublicDelegates(pub) => Some(pub)
    case NextCatalogs(pub, _) => pub
  }

  function PassSystem(pass: Pass): Option<string> {
    match pass
    case SystemDelegates(sys) => Some(sys)
    case PublicDelegates(_) => None
    case NextCatalogs(_, sys) => sys
  }

  predicate Follow(es: seq<Entry>, pass: Pass) {
    exists i :: 0 <= i < |es| && Follows(pass, es[i])
  }

  /** The first entry of the kind that has exactly this name. */
  function FirstMatch(es: seq<Entry>, kind: Kind, id: string): (r: Option<nat>)
    ensures r.Some? ==> r.value < |es| && es[r.value].kind == kind && es[r.value].name == Some(id)
    ensures forall i :: 0 <= i < (if r.Some? then r.value else |es|) ==> !(es[i].kind == kind && es[i].name == Some(id))
  {
    if es == [] then None
    else
      var n := |es| - 1;
      var r := FirstMatch(es[..n], kind, id);
      if r.Some? then r else if es[n].kind == kind && es[n].name == Some(id) then Some(n) else None
  }

  predicate Rewrites(e: Entry, sys: string) {
    e.kind == RewriteSystem && e.name.Some? && e.name.value != [] && Begins(sys, e)
  }

  /** The rewrite rule with the longest matching prefix, the earliest of them on ties. */
  function BestRewrite(es: seq<Entry>, sys: string): (r: Option<nat>)
    ensures r.Some? ==> r.value < |es| && Rewrites(es[r.value], sys)
    ensures r.Some? ==> forall i :: 0 <= i < |es| && Rewrites(es[i], sys) ==>
      |es[i].name.value| < |es[r.value].name.value|
      || (|es[i].name.value| == |es[r.value].name.value| && r.value <= i)
    ensures r.None? ==> forall i :: 0 <= i < |es| ==> !Rewrites(es[i], sys)
  {
    if es == [] then None
    else
      var n := |es| - 1;
      var r := BestRewrite(es[..n], sys);
      if Rewrites(es[n], sys) && (r.None? || |es[n].name.value| > |es[r.value].name.value|) then Some(n) else r
  }

  /** xmlStrdup of an entry's URL. */
  function UrlOf(e: Entry): Res {
    if e.url.None? then NotFound else Found(e.url.value)
  }

  function Rewritten(e: Entry, sys: string): Res
    requires Rewrites(e, sys)
  {
    if e.url.None? then NotFound else Found(e.url.value + sys[|e.name.value|..])
  }

  // ---------------------------------------------------------------- the specification

  predicate Links(e: Entry) {
    e.kind == NextCatalog || e.kind == DelegatePublic || e.kind == DelegateSystem
  }

  predicate Loads(store: Store, e: Entry) {
    e.url.Some? && e.url.value in store
  }

  /** Every catalog that a list refers to can be loaded and has a lower rank. */
  ghost predicate Acyclic(store: Store, rank: map<string, nat>) {
    && store.Keys <= rank.Keys
    && forall u, i :: u in store && 0 <= i < |store[u]| && Links(store[u][i]) ==>
         Loads(store, store[u][i]) && rank[store[u][i].url.value] < rank[u]
  }

  /** A search that followed delegates and found nothing is cut. */
  function Cut(r: Res): Res {
    if r == NotFound then Break else r
  }

  /** Resolution in the list at `u`: an exact system match, else the best rewrite, else the delegates for the
      system identifier, else the same for the public one, else the next catalogs. */
  ghost function Answer(store: Store, rank: map<string, nat>, u: string, pub: Option<string>, sys: Option<string>): Res
    requires Acyclic(store, rank) && u in store
    decreases rank[u], |store[u]| + 1
  {
    var es := store[u];
    if sys.Some? && FirstMatch(es, System, sys.value).Some? then
      UrlOf(es[FirstMatch(es, System, sys.value).value])
    else if sys.Some? && BestRewrite(es, sys.value).Some? then
      Rewritten(es[BestRewrite(es, sys.value).value], sys.value)
    else if sys.Some? && Follow(es, SystemDelegates(sys.value)) then
      Cut(FirstOf(store, rank, u, |es|, SystemDelegates(sys.value)))
    else if pub.Some? && FirstMatch(es, Public, pub.value).Some? then
      UrlOf(es[FirstMatch(es, Public, pub.value).value])
    else if pub.Some? && Follow(es, PublicDelegates(pub.value)) then
      Cut(FirstOf(store, rank, u, |es|, PublicDelegates(pub.value)))
    else if pub.Some? || sys.Some? then
      FirstOf(store, rank, u, |es|, NextCatalogs(pub, sys))
    else NotFound
  }

  /** The first answer among the catalogs that the first n entries of the list lead to. */
  ghost function FirstOf(store: Store, rank: map<string, nat>, u: string, n: nat, pass: Pass): Res
    requires Acyclic(store, rank) && u in store && n <= |store[u]|
    decreases rank[u], n
  {
    if n == 0 then NotFound
    else
      var r := FirstOf(store, rank, u, n - 1, pass);
      if r == NotFound && Follows(pass, store[u][n - 1])
      then Follow1(store, rank, u, n - 1, pass)
      else r
  }

  /** The answer of the catalog that one entry leads to. */
  ghost function Follow1(store: Store, rank: map<string, nat>, u: string, i: nat, pass: Pass): Res
    requires Acyclic(store, rank) && u in store && i < |store[u]| && Follows(pass, store[u][i])
    decreases rank[u], i, 0
  {
    var e := store[u][i];
    assert Links(e);
    var ids := Effective(PassPublic(pass), PassSystem(pass));
    Answer(store, rank, e.url.value, ids.0, ids.1)
  }

  /** The first answer found is the answer. */
  lemma {:induction false} FirstOfStays(store: Store, rank: map<string, nat>, u: string, i: nat, n: nat, pass: Pass)
    requires Acyclic(store, rank) && u in store && i <= n <= |store[u]|
    requires FirstOf(store, rank, u, i, pass) != NotFound
    ensures FirstOf(store, rank, u, n, pass) == FirstOf(store, rank, u, i, pass)
    decreases n
  {
    if i < n {
      FirstOfStays(store, rank, u, i, n - 1, pass);
    }
  }

  lemma {:induction false} FirstOfNone(store: Store, rank: map<string, nat>, u: string, n: nat, pass: Pass)
    requires Acyclic(store, rank) && u in store && n <= |store[u]|
    ensures FirstOf(store, rank, u, n, pass) == NotFound <==>
      forall j :: 0 <= j < n && Follows(pass, store[u][j]) ==> Follow1(store, rank, u, j, pass) == NotFound
    decreases n
  {
    if n > 0 {
      FirstOfNone(store, rank, u, n - 1, pass);
    }
  }

  /** The answer depends on the catalogs only, not on the ranks that show them to be acyclic. */
  lemma {:induction false} AnswerIgnoresRank(
      store: Store, a: map<string, nat>, b: map<string, nat>, u: string, pub: Option<string>, sys: Option<string>)
    requires Acyclic(store, a) && Acyclic(store, b) && u in store
    ensures Answer(store, a, u, pub, sys) == Answer(store, b, u, pub, sys)
    decreases a[u], |store[u]| + 1
  {
    var n := |store[u]|;
    if sys.Some? {
      FirstOfIgnoresRank(store, a, b, u, n, SystemDelegates(sys.value));
    }
    if pub.Some? {
      FirstOfIgnoresRank(store, a, b, u, n, PublicDelegates(pub.value));
    }
    FirstOfIgnoresRank(store, a, b, u, n, NextCatalogs(pub, sys));
  }

  lemma {:induction false} FirstOfIgnoresRank(
      store: Store, a: map<string, nat>, b: map<string, nat>, u: string, n: nat, pass: Pass)
    requires Acyclic(store, a) && Acyclic(store, b) && u in store && n <= |store[u]|
    ensures FirstOf(store, a, u, n, pass) == FirstOf(store, b, u, n, pass)
    decreases a[u], n
  {
    if n > 0 {
      FirstOfIgnoresRank(store, a, b, u, n - 1, pass);
      var e := store[u][n - 1];
      if Follows(pass, e) {
        assert Links(e);
        var ids := Effective(PassPublic(pass), PassSystem(pass));
        AnswerIgnoresRank(store, a, b, e.url.value, ids.0, ids.1);
      }
    }
  }
}
