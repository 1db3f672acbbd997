/**
 * The book table behind BookRepository (a Spring Data interface, not part of this model):
 * rows keyed by id, a scan in id order, a filtered scan and the UNIQUE constraint on isbn.
 */
module Table {
  import opened Wrappers
  import opened Entity
  import opened Specs

  type Rows = map<int, Book>

  /** The ids in [lo, hi) that hold a row, each once, in ascending order. */
  function IdsIn(rows: Rows, lo: int, hi: int): (ids: seq<int>)
    ensures forall i | 0 <= i < |ids| :: ids[i] in rows && lo <= ids[i] < hi
    ensures forall k | k in rows && lo <= k < hi :: k in ids
    ensures forall i, j | 0 <= i < j < |ids| :: ids[i] < ids[j]
    decreases hi - lo
  {
    if lo >= hi then []
    else if lo in rows then [lo] + IdsIn(rows, lo + 1, hi)
    else IdsIn(rows, lo + 1, hi)
  }

  /** The rows stored under the given ids, in the same order. */
  function RowsAt(rows: Rows, ids: seq<int>): (r: seq<Book>)
    requires forall i | 0 <= i < |ids| :: ids[i] in rows
  {
    seq(|ids|, i requires 0 <= i < |ids| => rows[ids[i]])
  }

  /** findAll over a table whose ids all lie in [lo, hi): the rows in ascending id order. */
  function Scan(rows: Rows, lo: int, hi: int): (r: seq<Book>)
    ensures forall i | 0 <= i < |r| :: r[i] in rows.Values
    ensures forall k | k in rows && lo <= k < hi :: rows[k] in r
  {
    var ids := IdsIn(rows, lo, hi);
    var r := RowsAt(rows, ids);
    assert forall k | k in rows && lo <= k < hi :: rows[k] in r by {
      forall k | k in rows && lo <= k < hi
        ensures rows[k] in r
      {
        var i :| 0 <= i < |ids| && ids[i] == k;
        assert r[i] == rows[k];
      }
    }
    r
  }

  /** A query specification: a conjunction of conditions, the empty one being unrestricted. */
  type Specification = seq<Condition>

  /** A row satisfies a conjunction when it satisfies each of its conditions. */
  predicate Satisfies(spec: Specification, b: Book)
  {
    forall i | 0 <= i < |spec| :: Holds(spec[i], b)
  }

  /** Specification.and: a present condition is conjoined; a factory that produced no
      condition leaves the conjunction as it was. */
  function And(spec: Specification, c: Option<Condition>): (r: Specification)
    ensures c.None? ==> r == spec
    ensures forall b :: Satisfies(r, b) <==> Satisfies(spec, b) && (c.Some? ==> Holds(c.value, b))
  {
    if c.None? then spec
    else
      var r := spec + [c.value];
      assert r[|spec|] == c.value;
      assert forall i | 0 <= i < |spec| :: r[i] == spec[i];
      r
  }

  /** The rows a specification selects. */
  function Where(rows: Rows, spec: Specification): Rows
  {
    map k | k in rows && Satisfies(spec, rows[k]) :: rows[k]
  }

  /** findAll(spec): the selected rows in ascending id order. Every entry is a stored row
      that satisfies the specification. */
  function FindAll(rows: Rows, spec: Specification, lo: int, hi: int): (r: seq<Book>)
    ensures forall i | 0 <= i < |r| :: r[i] in rows.Values && Satisfies(spec, r[i])
  {
    Scan(Where(rows, spec), lo, hi)
  }

  /** A row other than the one with id `except` already holds this non-null isbn. A UNIQUE
      column admits any number of nulls. */
  predicate IsbnTaken(rows: Rows, isbn: Option<string>, except: Option<int>)
  {
    isbn.Some? && exists k | k in rows :: Some(k) != except && rows[k].isbn == isbn
  }

  /** No two rows share a non-null isbn. */
  predicate IsbnsUnique(rows: Rows)
  {
    forall j, k | j in rows && k in rows && j != k :: rows[j].isbn.None? || rows[j].isbn != rows[k].isbn
  }

  /** The scan of a table whose ids lie in [lo, hi) lists every row exactly once, in ascending
      id order: entry i is the row stored under the i-th id. */
  lemma ScanListsEveryRowOnce(rows: Rows, lo: int, hi: int)
    requires forall k | k in rows :: lo <= k < hi
    ensures var ids := IdsIn(rows, lo, hi);
      && |Scan(rows, lo, hi)| == |ids|
      && (forall k :: k in rows <==> k in ids)
      && (forall i | 0 <= i < |ids| :: Scan(rows, lo, hi)[i] == rows[ids[i]])
      && (forall i, j | 0 <= i < j < |ids| :: ids[i] < ids[j])
  {
  }

  /** findAll(spec) returns, in id order, exactly the stored rows the specification selects:
      every entry is a selected row, and every selected row is an entry. */
  lemma FindAllExact(rows: Rows, spec: Specification, lo: int, hi: int)
    requires forall k | k in rows :: lo <= k < hi
    ensures forall i | 0 <= i < |FindAll(rows, spec, lo, hi)| ::
      var k := IdsIn(Where(rows, spec), lo, hi)[i];
      k in rows && FindAll(rows, spec, lo, hi)[i] == rows[k] && Satisfies(spec, rows[k])
    ensures forall k | k in rows && Satisfies(spec, rows[k]) :: rows[k] in FindAll(rows, spec, lo, hi)
    ensures (forall k | k in rows :: rows[k].id == Some(k)) ==>
      forall i, j | 0 <= i < j < |FindAll(rows, spec, lo, hi)| ::
        FindAll(rows, spec, lo, hi)[i].id != FindAll(rows, spec, lo, hi)[j].id
  {
    var w := Where(rows, spec);
    var ids := IdsIn(w, lo, hi);
    forall k | k in rows && Satisfies(spec, rows[k])
      ensures rows[k] in FindAll(rows, spec, lo, hi)
    {
      assert k in w;
      var i :| 0 <= i < |ids| && ids[i] == k;
      assert FindAll(rows, spec, lo, hi)[i] == rows[k];
    }
  }

  /** The unrestricted specification returns the table scan itself. */
  lemma FindAllUnrestricted(rows: Rows, lo: int, hi: int)
    ensures FindAll(rows, [], lo, hi) == Scan(rows, lo, hi)
  {
    assert forall k | k in rows :: Satisfies([], rows[k]);
    assert Where(rows, []) == rows;
  }
}
