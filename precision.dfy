/**
  The seek predicate on the pages' `created_at` column, which PostgreSQL's
  `timestamp` type stores to the microsecond. The rows reach JavaScript as
  `Date` values, which keep only the millisecond, and the cursor carries
  that millisecond; the seek compares the stored microseconds with it.
  Times here are microseconds since the epoch, and ids are compared by
  code point, as in the `Sql` module.
 */
module TimestampPrecision {
  import opened Sql

  /** The millisecond a stored time falls in: what the row's `Date`, and so the cursor, keeps of it. */
  function Millis(us: int): (m: int)
    ensures m * 1000 <= us < m * 1000 + 1000
  {
    us / 1000
  }

  /**
    Row `(x, xid)` comes strictly after the boundary row `(b, bid)` in the
    ordering `[created_at, id]`, both in direction `d`.
   */
  predicate After(d: Direction, b: int, bid: string, x: int, xid: string)
  {
    if d == Desc then x < b || (x == b && TextLess(xid, bid))
    else b < x || (x == b && TextLess(bid, xid))
  }

  /**
    The seek predicate after a cursor holding millisecond `m` and id `cid`,
    evaluated on a row whose column holds `x` microseconds: the parameter
    `m` stands for the time `m * 1000` microseconds. This has the shape of
    `ListQuery.Seek`, written over integers: the `Sql` cells hold
    milliseconds and cannot carry a microsecond part.
   */
  predicate SeekAsWritten(d: Direction, m: int, cid: string, x: int, xid: string)
  {
    if d == Desc then x < m * 1000 || (x == m * 1000 && TextLess(xid, cid))
    else x > m * 1000 || (x == m * 1000 && TextLess(cid, xid))
  }

  /**
    Ascending: a boundary row stored with a sub-millisecond part is matched
    again by the seek after its own cursor, though it does not come after
    itself. The next page shows it again, and with a limit of one the walk
    never moves past it.
   */
  lemma AscendingRepeatsBoundary(b: int, bid: string)
    requires b % 1000 != 0
    ensures SeekAsWritten(Asc, Millis(b), bid, b, bid)
    ensures !After(Asc, b, bid, b, bid)
  {
    TextLessIrreflexive(bid);
  }

  /**
    Descending: a row stored before the boundary row but after the start of
    the boundary's millisecond comes after the boundary, yet the seek after
    the boundary's cursor does not match it, so the next page leaves it out.
   */
  lemma DescendingSkipsSameMillisecond(b: int, bid: string, x: int, xid: string)
    requires Millis(b) * 1000 < x < b
    ensures After(Desc, b, bid, x, xid)
    ensures !SeekAsWritten(Desc, Millis(b), bid, x, xid)
  {
  }

  /**
    A column stored to the millisecond (`timestamp` with precision 3), as
    the rest of the model assumes: the seek matches exactly the rows after
    the boundary, in either direction.
   */
  lemma SeekExactAtMillisecondPrecision(d: Direction, b: int, bid: string, x: int, xid: string)
    requires b % 1000 == 0 && x % 1000 == 0
    ensures SeekAsWritten(d, Millis(b), bid, x, xid) <==> After(d, b, bid, x, xid)
  {
    assert Millis(b) * 1000 == b;
  }
}
