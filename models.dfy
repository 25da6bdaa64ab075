/** The `quotes` table (one row per quote) and an in-memory stand-in for the
    database session that the endpoints and the import write through. */
module Models {

  /** A stored row: the primary key and the three required text columns.
      `created_at` is filled by the database server and is not modelled. */
  datatype Quote = Quote(id: int, content: string, author: string, language: string)

  /** What a client payload or an import line supplies: every column but the
      ones the database assigns. */
  datatype NewQuote = NewQuote(content: string, author: string, language: string)

  /** The row the database makes of a payload when it assigns `id`. */
  function Stamp(p: NewQuote, id: int): (q: Quote)
    ensures q.id == id
    ensures NewQuote(q.content, q.author, q.language) == p
  {
    Quote(id, p.content, p.author, p.language)
  }

  /** The rows made of `ps` when the database assigns consecutive ids
      starting at `first`, in payload order; `StampedAt` gives its rows. */
  function Stamped(ps: seq<NewQuote>, first: int): (r: seq<Quote>)
    ensures |r| == |ps|
  {
    if ps == [] then [] else [Stamp(ps[0], first)] + Stamped(ps[1..], first + 1)
  }

  /** Row k of a stamped batch is payload k with id `first + k`. */
  lemma {:induction false} StampedAt(ps: seq<NewQuote>, first: int)
    ensures forall k :: 0 <= k < |ps| ==> Stamped(ps, first)[k] == Stamp(ps[k], first + k)
    decreases |ps|
  {
    if ps != [] {
      StampedAt(ps[1..], first + 1);
    }
  }

  /** Stamping one more payload adds one row at the end. */
  lemma {:induction false} StampedSnoc(ps: seq<NewQuote>, first: int, i: nat)
    requires i < |ps|
    ensures Stamped(ps[..i + 1], first) == Stamped(ps[..i], first) + [Stamp(ps[i], first + i)]
  {
    var a := Stamped(ps[..i + 1], first);
    var b := Stamped(ps[..i], first) + [Stamp(ps[i], first + i)];
    StampedAt(ps[..i + 1], first);
    StampedAt(ps[..i], first);
    assert |a| == |b|;
    forall k | 0 <= k < |a| ensures a[k] == b[k] { }
  }

  /** The table's rows in insertion order: ids are positive, strictly
      increasing (hence unique, as a primary key must be) and all below the
      next id the sequence will hand out. */
  predicate WellFormed(rows: seq<Quote>, nextId: int)
  {
    && 1 <= nextId
    && (forall k :: 0 <= k < |rows| ==> 1 <= rows[k].id < nextId)
    && (forall j, k :: 0 <= j < k < |rows| ==> rows[j].id < rows[k].id)
  }

  /** Appending freshly stamped rows keeps the table well formed, with the
      id sequence advanced past them. */
  lemma {:induction false} StampedWellFormed(rows: seq<Quote>, nextId: int, ps: seq<NewQuote>)
    requires WellFormed(rows, nextId)
    ensures WellFormed(rows + Stamped(ps, nextId), nextId + |ps|)
  {
    var all := rows + Stamped(ps, nextId);
    StampedAt(ps, nextId);
    forall j, k | 0 <= j < k < |all| ensures all[j].id < all[k].id {
      if k >= |rows| {
        assert all[k].id == nextId + (k - |rows|);
      }
    }
  }

  /** The table as reached through a database session: `Insert` is the
      `add`, `commit`, `refresh` sequence, after which the row carries the
      id the database assigned. */
  class QuoteStore {
    var quotes: seq<Quote>
    var nextId: int

    ghost predicate Valid()
      reads this
    {
      WellFormed(quotes, nextId)
    }

    /** An empty table whose id sequence starts at 1. */
    constructor ()
      ensures Valid()
      ensures quotes == [] && nextId == 1
    {
      quotes := [];
      nextId := 1;
    }

    /** Adds one row for `p` with the next id and returns it. */
    method Insert(p: NewQuote) returns (q: Quote)
      requires Valid()
      modifies this
      ensures Valid()
      ensures q == Stamp(p, old(nextId))
      ensures quotes == old(quotes) + [q]
      ensures nextId == old(nextId) + 1
    {
      q := Stamp(p, nextId);
      StampedWellFormed(quotes, nextId, [p]);
      quotes := quotes + [q];
      nextId := nextId + 1;
    }

    /** Adds one row per payload, in order, with consecutive ids, and
        returns the rows added. */
    method InsertAll(ps: seq<NewQuote>) returns (added: seq<Quote>)
      requires Valid()
      modifies this
      ensures Valid()
      ensures added == Stamped(ps, old(nextId))
      ensures quotes == old(quotes) + added
      ensures nextId == old(nextId) + |ps|
    {
      ghost var first := nextId;
      added := [];
      var i := 0;
      while i < |ps|
        invariant 0 <= i <= |ps|
        invariant Valid()
        invariant added == Stamped(ps[..i], first)
        invariant quotes == old(quotes) + added
        invariant nextId == first + i
      {
        var q := Insert(ps[i]);
        StampedSnoc(ps, first, i);
        added := added + [q];
        i := i + 1;
      }
      assert ps[..i] == ps;
    }
  }
}
