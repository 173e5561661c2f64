/** The listing of a subtree, line by line: which places it prints, in which order, and how far lines are indented. */
module TreeListing {
  import opened XmlString
  import opened TreeWalk

  // ---------------------------------------------------------------- places

  /** A place comes before those below it, and at the first step where two places part the smaller step comes first. */
  predicate Earlier(p: seq<nat>, q: seq<nat>) {
    q != [] && (p == [] || p[0] < q[0] || (p[0] == q[0] && Earlier(p[1..], q[1..])))
  }

  /** Documents and elements have a line. */
  predicate HasLine(t: Tree, p: seq<nat>) {
    Reaches(t, p) && (Sub(t, p).kind == Document || Sub(t, p).kind == ElementNode)
  }

  /** All places with a line, each once and in order. */
  ghost predicate LinePlaces(t: Tree, ps: seq<seq<nat>>) {
    && (forall p :: p in ps <==> HasLine(t, p))
    && forall i, j :: 0 <= i < j < |ps| ==> Earlier(ps[i], ps[j])
  }

  /** The places below the first children of a node, seen from the node. */
  function Under(k: nat, ps: seq<seq<nat>>): (r: seq<seq<nat>>)
    ensures |r| == |ps| && forall i :: 0 <= i < |r| ==> r[i] == [k] + ps[i]
  {
    seq(|ps|, i requires 0 <= i < |ps| => [k] + ps[i])
  }

  function Printed(t: Tree): seq<seq<nat>>
    decreases t, 0
  {
    (if t.kind == Document || t.kind == ElementNode then [[]] else [])
    + if t.kind == EntityReference then [] else PrintedFrom(t.kids, 0)
  }

  function PrintedFrom(ts: seq<Tree>, i: nat): seq<seq<nat>>
    requires i <= |ts|
    decreases ts, |ts| - i
  {
    if i == |ts| then [] else Under(i, Printed(ts[i])) + PrintedFrom(ts, i + 1)
  }

  /** Places below the children from position i on. */
  ghost predicate BelowFrom(ts: seq<Tree>, i: nat, p: seq<nat>) {
    p != [] && i <= p[0] < |ts| && HasLine(ts[p[0]], p[1..])
  }

  ghost predicate InOrder(ps: seq<seq<nat>>) {
    forall i, j :: 0 <= i < j < |ps| ==> Earlier(ps[i], ps[j])
  }

  lemma UnderInOrder(k: nat, ps: seq<seq<nat>>)
    requires InOrder(ps)
    ensures InOrder(Under(k, ps))
  {
    var us := Under(k, ps);
    forall i, j | 0 <= i < j < |us|
      ensures Earlier(us[i], us[j])
    {
      assert us[i][1..] == ps[i] && us[j][1..] == ps[j];
    }
  }

  lemma InUnder(k: nat, ps: seq<seq<nat>>, p: seq<nat>)
    ensures p in Under(k, ps) <==> p != [] && p[0] == k && p[1..] in ps
  {
    var us := Under(k, ps);
    if p in us {
      var i :| 0 <= i < |us| && us[i] == p;
      assert p[1..] == ps[i];
    }
    if p != [] && p[0] == k && p[1..] in ps {
      var i :| 0 <= i < |ps| && ps[i] == p[1..];
      assert us[i] == [k] + p[1..] == p;
    }
  }

  lemma {:induction false} PrintedPlaces(t: Tree)
    ensures LinePlaces(t, Printed(t))
    decreases t, 0
  {
    var own: seq<seq<nat>> := if t.kind == Document || t.kind == ElementNode then [[]] else [];
    var below := if t.kind == EntityReference then [] else PrintedFrom(t.kids, 0);
    if t.kind != EntityReference {
      PrintedFromPlaces(t.kids, 0);
    }
    forall p
      ensures p in Printed(t) <==> HasLine(t, p)
    {
      assert p in own + below <==> p in own || p in below;
      if p != [] {
        assert HasLine(t, p) <==> t.kind != EntityReference && BelowFrom(t.kids, 0, p);
      }
    }
    forall i, j | 0 <= i < j < |own + below|
      ensures Earlier((own + below)[i], (own + below)[j])
    {
      assert (own + below)[j] == below[j - |own|] && below[j - |own|] in below;
    }
  }

  lemma {:induction false} PrintedFromPlaces(ts: seq<Tree>, i: nat)
    requires i <= |ts|
    ensures InOrder(PrintedFrom(ts, i))
    ensures forall p :: p in PrintedFrom(ts, i) <==> BelowFrom(ts, i, p)
    decreases ts, |ts| - i
  {
    if i < |ts| {
      var first, rest := Under(i, Printed(ts[i])), PrintedFrom(ts, i + 1);
      PrintedPlaces(ts[i]);
      PrintedFromPlaces(ts, i + 1);
      UnderInOrder(i, Printed(ts[i]));
      forall p
        ensures p in first + rest <==> BelowFrom(ts, i, p)
      {
        InUnder(i, Printed(ts[i]), p);
      }
      forall a, b | 0 <= a < b < |first + rest|
        ensures Earlier((first + rest)[a], (first + rest)[b])
      {
        if a < |first| <= b {
          InUnder(i, Printed(ts[i]), first[a]);
          assert first[a] in first && rest[b - |first|] in rest;
        }
      }
    }
  }

  // ---------------------------------------------------------------- lines

  /** What is printed for a place at a depth. */
  function LineAt(t: Tree, p: seq<nat>, depth: nat): Line
    requires HasLine(t, p)
  {
    var n := Sub(t, p);
    if n.kind == Document then Slash else Name(Depth(t, p, depth), n.name)
  }

  /** The lines of a tree are those of its places. */
  ghost predicate LinesOf(t: Tree, depth: nat, ps: seq<seq<nat>>, ls: seq<Line>) {
    |ls| == |ps| && forall i :: 0 <= i < |ps| ==> HasLine(t, ps[i]) && ls[i] == LineAt(t, ps[i], depth)
  }

  ghost predicate LinesBelow(ts: seq<Tree>, i: nat, depth: nat, ps: seq<seq<nat>>, ls: seq<Line>) {
    |ls| == |ps| && forall j :: 0 <= j < |ps| ==>
      BelowFrom(ts, i, ps[j]) && ls[j] == LineAt(ts[ps[j][0]], ps[j][1..], depth)
  }

  lemma {:induction false} ListingLines(t: Tree, depth: nat)
    ensures LinesOf(t, depth, Printed(t), Listing(t, depth))
    decreases t, 0
  {
    if t.kind != EntityReference {
      ListingFromLines(t.kids, 0, Inner(t, depth));
    }
    var own: seq<seq<nat>> := if t.kind == Document || t.kind == ElementNode then [[]] else [];
    var ps, ls := Printed(t), Listing(t, depth);
    forall j | 0 <= j < |ps|
      ensures HasLine(t, ps[j]) && ls[j] == LineAt(t, ps[j], depth)
    {
      if j >= |own| {
        var below := PrintedFrom(t.kids, 0);
        assert ps[j] == below[j - |own|] && BelowFrom(t.kids, 0, below[j - |own|]);
        assert Reaches(t, ps[j]);
      }
    }
  }

  lemma {:induction false} ListingFromLines(ts: seq<Tree>, i: nat, depth: nat)
    requires i <= |ts|
    ensures LinesBelow(ts, i, depth, PrintedFrom(ts, i), ListingFrom(ts, i, depth))
    decreases ts, |ts| - i
  {
    if i < |ts| {
      ListingLines(ts[i], depth);
      ListingFromLines(ts, i + 1, depth);
      UnderLines(ts, i, depth, Printed(ts[i]), Listing(ts[i], depth));
    }
  }

  lemma UnderLines(ts: seq<Tree>, i: nat, depth: nat, ps: seq<seq<nat>>, ls: seq<Line>)
    requires i < |ts| && LinesOf(ts[i], depth, ps, ls)
    ensures LinesBelow(ts, i, depth, Under(i, ps), ls)
  {
    var us := Under(i, ps);
    forall j | 0 <= j < |us|
      ensures BelowFrom(ts, i, us[j]) && ls[j] == LineAt(ts[us[j][0]], us[j][1..], depth)
    {
      assert us[j][0] == i && us[j][1..] == ps[j];
    }
  }

  /** The listing has one line for each document or element that the walk can reach, in document order: a slash for the
      document, and an element's name indented by the number of steps down to it, one less below a document. */
  lemma ListingIsPrinted(t: Tree)
    requires DocumentOnTop(t)
    ensures
      var ps, ls := Printed(t), Listing(t, 0);
      && LinePlaces(t, ps) && |ls| == |ps|
      && forall i :: 0 <= i < |ps| ==>
           && HasLine(t, ps[i])
           && ls[i] == (if Sub(t, ps[i]).kind == Document then Slash
                        else if t.kind == Document then Name(|ps[i]| - 1, Sub(t, ps[i]).name)
                        else Name(|ps[i]|, Sub(t, ps[i]).name))
  {
    PrintedPlaces(t);
    ListingLines(t, 0);
    var ps := Printed(t);
    forall i | 0 <= i < |ps|
      ensures Depth(t, ps[i], 0) == if ps[i] == [] then 0 else if t.kind == Document then |ps[i]| - 1 else |ps[i]|
    {
      assert HasLine(t, ps[i]);
      DepthIs(t, ps[i]);
    }
  }
}
