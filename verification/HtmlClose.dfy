/** The table of the open elements that a start tag closes: flattened into one array of strings with NULL behind each
    group, found through an index of the groups' beginnings. */
module HtmlClose {
  import opened XmlString

  /** One group of htmlStartClose: a start tag and the elements that it closes. */
  datatype Row = Row(tag: string, closes: seq<string>)

  /** The size of htmlStartCloseIndex; its last place stays NULL. */
  const INDEX_SIZE := 100

  /** The first row for the tag decides. */
  predicate RowCloses(rows: seq<Row>, tag: string, open: string) {
    rows != [] && if rows[0].tag == tag then open in rows[0].closes else RowCloses(rows[1..], tag, open)
  }

  /** The rows that the index has room for. */
  function Indexed(rows: seq<Row>): seq<Row> {
    if |rows| < INDEX_SIZE then rows else rows[..INDEX_SIZE - 1]
  }

  // ---------------------------------------------------------------- the array of strings

  function Group(row: Row): (r: seq<Option<string>>)
    ensures |r| == |row.closes| + 2 && r[0] == Some(row.tag) && r[|row.closes| + 1] == None
    ensures forall j :: 0 <= j < |row.closes| ==> r[j + 1] == Some(row.closes[j])
  {
    [Some(row.tag)] + seq(|row.closes|, j requires 0 <= j < |row.closes| => Some(row.closes[j])) + [None]
  }

  function Groups(rows: seq<Row>): seq<Option<string>> {
    if rows == [] then [] else Groups(rows[..|rows| - 1]) + Group(rows[|rows| - 1])
  }

  /** htmlStartClose. */
  function Flat(rows: seq<Row>): seq<Option<string>> {
    Groups(rows) + [None]
  }

  /** Where the group of row k begins. */
  function Begin(rows: seq<Row>, k: nat): nat
    requires k <= |rows|
  {
    |Groups(rows[..k])|
  }

  lemma {:induction false} GroupsPrefix(rows: seq<Row>, k: nat)
    requires k <= |rows|
    ensures Groups(rows[..k]) <= Groups(rows)
    decreases |rows|
  {
    if k < |rows| {
      assert rows[..|rows| - 1][..k] == rows[..k];
      GroupsPrefix(rows[..|rows| - 1], k);
    } else {
      assert rows[..k] == rows;
    }
  }

  /** The group of the row begins here. */
  ghost predicate Stands(startClose: seq<Option<string>>, start: nat, row: Row) {
    start + |Group(row)| <= |startClose| && startClose[start..start + |Group(row)|] == Group(row)
  }

  lemma StandsAt(startClose: seq<Option<string>>, start: nat, row: Row, i: nat)
    requires Stands(startClose, start, row) && start <= i < start + |Group(row)|
    ensures startClose[i] == Group(row)[i - start]
  {
    assert startClose[start..start + |Group(row)|][i - start] == startClose[i];
  }

  /** Row k stands in the table where its group begins, and the next group begins behind its NULL. */
  lemma GroupAt(rows: seq<Row>, k: nat)
    requires k < |rows|
    ensures Stands(Flat(rows), Begin(rows, k), rows[k])
    ensures Begin(rows, k + 1) == Begin(rows, k) + |rows[k].closes| + 2 < |Flat(rows)|
  {
    var b, group, more := Begin(rows, k), Group(rows[k]), Groups(rows[..k + 1]);
    assert rows[..k + 1][..k] == rows[..k];
    assert more == Groups(rows[..k]) + group;
    GroupsPrefix(rows, k + 1);
    assert more[b..] == group && |more| == b + |group|;
    assert Flat(rows)[b..b + |group|] == more[b..];
  }

  // ---------------------------------------------------------------- the index

  /** The first n places hold the beginnings of the first n rows; the others are NULL. */
  ghost predicate Filled(rows: seq<Row>, index: seq<Option<nat>>, n: nat)
    requires n <= |rows|
  {
    && |index| == INDEX_SIZE
    && (forall k :: 0 <= k < n && k < INDEX_SIZE ==> index[k] == Some(Begin(rows, k)))
    && (forall k :: n <= k < INDEX_SIZE ==> index[k] == None)
  }

  /** The index has as many rows as it has room for. */
  ghost predicate IndexOk(rows: seq<Row>, index: seq<Option<nat>>) {
    Filled(rows, index, |Indexed(rows)|)
  }

  /** htmlInitAutoClose. */
  method InitAutoClose(ghost rows: seq<Row>, startClose: seq<Option<string>>) returns (r: seq<Option<nat>>)
    requires startClose == Flat(rows)
    ensures IndexOk(rows, r)
  {
    var index := new Option<nat>[INDEX_SIZE](_ => None);
    var indx, i := 0, 0;
    BeginsRow(rows, 0);
    while startClose[i].Some? && indx < INDEX_SIZE - 1
      invariant indx <= |rows| && indx < INDEX_SIZE && i == Begin(rows, indx) < |startClose|
      invariant startClose[i].Some? <==> indx < |rows|
      invariant index.Length == INDEX_SIZE && Filled(rows, index[..], indx)
      decreases |rows| - indx
    {
      GroupAt(rows, indx);
      ghost var before := index[..];
      index[indx] := Some(i);
      assert index[..] == before[indx := Some(i)];
      i := GroupEnd(startClose, i, rows[indx]);
      i := i + 1;
      indx := indx + 1;
      BeginsRow(rows, indx);
    }
    r := index[..];
  }

  lemma BeginsRow(rows: seq<Row>, k: nat)
    requires k <= |rows|
    ensures Begin(rows, k) < |Flat(rows)|
    ensures Flat(rows)[Begin(rows, k)].Some? <==> k < |rows|
  {
    if k < |rows| {
      GroupAt(rows, k);
      StandsAt(Flat(rows), Begin(rows, k), rows[k], Begin(rows, k));
    } else {
      assert rows[..k] == rows;
    }
  }

  /** Over the strings up to the next NULL. */
  method GroupEnd(startClose: seq<Option<string>>, start: nat, ghost row: Row) returns (i: nat)
    requires Stands(startClose, start, row)
    ensures i == start + |row.closes| + 1
  {
    i := start;
    StandsAt(startClose, start, row, i);
    while startClose[i].Some?
      invariant start <= i < start + |Group(row)| && startClose[i] == Group(row)[i - start]
      decreases start + |Group(row)| - i
    {
      i := i + 1;
      StandsAt(startClose, start, row, i);
    }
  }

  /** htmlCheckAutoClose: the index is searched for the tag's group, at the latest up to its last place, and the group
      for the open element. */
  method CheckAutoClose(ghost rows: seq<Row>, startClose: seq<Option<string>>, index: seq<Option<nat>>,
                        newtag: string, oldtag: string) returns (r: bool)
    requires startClose == Flat(rows) && IndexOk(rows, index)
    ensures r == RowCloses(Indexed(rows), newtag, oldtag)
  {
    ghost var known := Indexed(rows);
    var indx := 0;
    assert known[0..] == known;
    while true
      invariant indx <= |known|
      invariant RowCloses(known, newtag, oldtag) == RowCloses(known[indx..], newtag, oldtag)
      decreases |known| - indx
    {
      var closed := index[indx];
      if closed.None? {
        return false;
      }
      GroupAt(rows, indx);
      StandsAt(startClose, closed.value, rows[indx], closed.value);
      assert known[indx..][1..] == known[indx + 1..] && known[indx] == rows[indx];
      if startClose[closed.value] == Some(newtag) {
        r := InGroup(startClose, closed.value, rows[indx], oldtag);
        return;
      }
      indx := indx + 1;
    }
  }

  /** The loop over the group that begins at `start`. */
  method InGroup(startClose: seq<Option<string>>, start: nat, ghost row: Row, oldtag: string) returns (r: bool)
    requires Stands(startClose, start, row)
    ensures r <==> oldtag in row.closes
  {
    var i := start + 1;
    StandsAt(startClose, start, row, i);
    while startClose[i].Some?
      invariant start < i < start + |Group(row)| && startClose[i] == Group(row)[i - start]
      invariant oldtag !in row.closes[..i - start - 1]
      decreases start + |Group(row)| - i
    {
      if startClose[i] == Some(oldtag) {
        return true;
      }
      assert row.closes[..i - start] == row.closes[..i - start - 1] + [row.closes[i - start - 1]];
      i := i + 1;
      StandsAt(startClose, start, row, i);
    }
    assert row.closes[..|row.closes|] == row.closes;
    r := false;
  }
}
