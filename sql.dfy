/**
  The slice of SQL the list query builds and the database runs: column
  references, the comparison, null-test, `and` and `or` expressions
  drizzle's builders produce, evaluated in SQL's three-valued logic, and a
  query as "filter, sort, skip, take" over the rows of one table.
 */
module Sql {
  import opened Wrappers
  import opened JsNumber
  import opened JsDate
  import opened JsValues

  /** A column of a table, known by its database name. */
  datatype Column = Column(name: string)

  datatype Direction = Asc | Desc

  /** A stored value; timestamps are kept to the millisecond. */
  datatype Cell = Text(s: string) | Integer(n: SafeInt) | Timestamp(t: TimeValue) | Boolean(b: bool) | NullCell

  /** A row, keyed by column name; a column it does not hold reads as NULL. */
  type Row = map<string, Cell>

  function At(r: Row, c: Column): Cell
  {
    if c.name in r then r[c.name] else NullCell
  }

  /* ---------------- Order ---------------- */

  /** Code-point order on strings: a proper prefix comes first. */
  predicate TextLess(a: string, b: string)
  {
    if a == [] then b != []
    else if b == [] then false
    else if a[0] != b[0] then a[0] < b[0]
    else TextLess(a[1..], b[1..])
  }

  lemma TextLessIrreflexive(a: string)
    ensures !TextLess(a, a)
  {
  }

  lemma {:induction false} TextLessTransitive(a: string, b: string, c: string)
    requires TextLess(a, b) && TextLess(b, c)
    ensures TextLess(a, c)
  {
    if a != [] && b != [] && c != [] && a[0] == b[0] && b[0] == c[0] {
      TextLessTransitive(a[1..], b[1..], c[1..]);
    }
  }

  lemma {:induction false} TextLessTotal(a: string, b: string)
    requires a != b
    ensures TextLess(a, b) || TextLess(b, a)
  {
    if a != [] && b != [] && a[0] == b[0] {
      assert a == [a[0]] + a[1..] && b == [b[0]] + b[1..];
      TextLessTotal(a[1..], b[1..]);
    }
  }

  /** The position of a value's type in the order across types; NULL is last. */
  function Rank(c: Cell): int
  {
    match c
    case Text(_) => 0
    case Integer(_) => 1
    case Timestamp(_) => 2
    case Boolean(_) => 3
    case NullCell => 4
  }

  /**
    The order of an ascending `ORDER BY` on one column: values of one type
    by their natural order, and NULL after every value (so a descending
    order puts NULL first, as PostgreSQL does by default).
   */
  predicate Less(a: Cell, b: Cell)
  {
    match (a, b)
    case (Text(x), Text(y)) => TextLess(x, y)
    case (Integer(x), Integer(y)) => x < y
    case (Timestamp(x), Timestamp(y)) => x < y
    case (Boolean(x), Boolean(y)) => !x && y
    case _ => Rank(a) < Rank(b)
  }

  lemma LessIrreflexive(a: Cell)
    ensures !Less(a, a)
  {
    if a.Text? {
      TextLessIrreflexive(a.s);
    }
  }

  lemma LessTransitive(a: Cell, b: Cell, c: Cell)
    requires Less(a, b) && Less(b, c)
    ensures Less(a, c)
  {
    if a.Text? && b.Text? && c.Text? {
      TextLessTransitive(a.s, b.s, c.s);
    }
  }

  lemma LessTotal(a: Cell, b: Cell)
    requires a != b
    ensures Less(a, b) || Less(b, a)
  {
    if a.Text? && b.Text? {
      TextLessTotal(a.s, b.s);
    }
  }

  function DirLess(d: Direction, a: Cell, b: Cell): bool
  {
    if d == Asc then Less(a, b) else Less(b, a)
  }

  /** One `ORDER BY` term: `asc(column)` or `desc(column)`. */
  datatype Order = Order(col: Column, direction: Direction)

  /** Row `a` comes strictly before row `b` under the terms `o`: lexicographic, term by term. */
  predicate Before(o: seq<Order>, a: Row, b: Row)
  {
    if o == [] then false
    else
      var x := At(a, o[0].col);
      var y := At(b, o[0].col);
      if x != y then DirLess(o[0].direction, x, y) else Before(o[1..], a, b)
  }

  lemma {:induction false} BeforeIrreflexive(o: seq<Order>, a: Row)
    ensures !Before(o, a, a)
  {
    if o != [] {
      BeforeIrreflexive(o[1..], a);
    }
  }

  lemma {:induction false} BeforeTransitive(o: seq<Order>, a: Row, b: Row, c: Row)
    requires Before(o, a, b) && Before(o, b, c)
    ensures Before(o, a, c)
  {
    if o != [] {
      var x, y, z := At(a, o[0].col), At(b, o[0].col), At(c, o[0].col);
      if x == y && y == z {
        BeforeTransitive(o[1..], a, b, c);
      } else if x != y && y != z {
        if o[0].direction == Asc { LessTransitive(x, y, z); } else { LessTransitive(z, y, x); }
        if x == z { LessIrreflexive(x); }
      }
    }
  }

  lemma BeforeAsymmetric(o: seq<Order>, a: Row, b: Row)
    requires Before(o, a, b)
    ensures !Before(o, b, a)
  {
    if Before(o, b, a) {
      BeforeTransitive(o, a, b, a);
      BeforeIrreflexive(o, a);
    }
  }

  /** Whatever lies between two rows in the order is before the later one or after the earlier one. */
  lemma {:induction false} BeforeSplit(o: seq<Order>, a: Row, b: Row, c: Row)
    requires Before(o, a, c)
    ensures Before(o, a, b) || Before(o, b, c)
  {
    var x, y, z := At(a, o[0].col), At(b, o[0].col), At(c, o[0].col);
    var d := o[0].direction;
    if x == z {
      if y == x {
        BeforeSplit(o[1..], a, b, c);
      } else {
        LessTotal(x, y);
      }
    } else if y != x && y != z {
      LessTotal(x, y);
      if d == Asc {
        if Less(y, x) { LessTransitive(y, x, z); }
      } else {
        if Less(x, y) { LessTransitive(z, x, y); }
      }
    }
  }

  /** Two rows that differ in some ordered column are ordered one way or the other. */
  lemma {:induction false} BeforeTotal(o: seq<Order>, a: Row, b: Row, k: nat)
    requires k < |o| && At(a, o[k].col) != At(b, o[k].col)
    ensures Before(o, a, b) || Before(o, b, a)
  {
    var x, y := At(a, o[0].col), At(b, o[0].col);
    if x != y {
      LessTotal(x, y);
    } else {
      BeforeTotal(o[1..], a, b, k - 1);
    }
  }

  /* ---------------- Expressions ---------------- */

  /** SQL's truth values. */
  datatype Truth = TRUE | FALSE | UNKNOWN

  function And3(a: Truth, b: Truth): Truth
  {
    if a == FALSE || b == FALSE then FALSE else if a == UNKNOWN || b == UNKNOWN then UNKNOWN else TRUE
  }

  function Or3(a: Truth, b: Truth): Truth
  {
    if a == TRUE || b == TRUE then TRUE else if a == UNKNOWN || b == UNKNOWN then UNKNOWN else FALSE
  }

  datatype CompareOp = Lt | Gt | Eq

  /**
    An expression drizzle's builders produce: `lt`/`gt`/`eq` of a column
    and a JavaScript parameter, `isNull`, `and`, `or`.
   */
  datatype Expr =
    | Compare(op: CompareOp, col: Column, param: JsValue)
    | IsNull(col: Column)
    | And(parts: seq<Expr>)
    | Or(parts: seq<Expr>)

  /**
    The value the driver sends for a parameter. `None` for a parameter the
    model does not bind (undefined, NaN, an invalid date, an array or object).
   */
  function Bind(v: JsValue): (c: Option<Cell>)
    ensures v.Str? ==> c == Some(Text(v.s))
    ensures v.Num? && v.n.Int? ==> c == Some(Integer(v.n.n))
    ensures v.Date? && v.d.Valid? ==> c == Some(Timestamp(v.d.time))
  {
    match v
    case Str(s) => Some(Text(s))
    case Num(Int(n)) => Some(Integer(n))
    case Date(Valid(t)) => Some(Timestamp(t))
    case Bool(b) => Some(Boolean(b))
    case Null => Some(NullCell)
    case _ => None
  }

  /**
    A comparison of a stored value with a parameter: UNKNOWN when either is
    NULL, and UNKNOWN too when they are of different types.
   */
  function CompareCells(op: CompareOp, x: Cell, p: Cell): (t: Truth)
    ensures t != UNKNOWN <==> x != NullCell && p != NullCell && Rank(x) == Rank(p)
  {
    if x == NullCell || p == NullCell || Rank(x) != Rank(p) then UNKNOWN
    else
      var holds := match op
        case Lt => Less(x, p)
        case Gt => Less(p, x)
        case Eq => x == p;
      if holds then TRUE else FALSE
  }

  function Eval(e: Expr, r: Row): (t: Truth)
    decreases e, 1
  {
    match e
    case Compare(op, col, param) =>
      (match Bind(param)
       case None => UNKNOWN
       case Some(p) => CompareCells(op, At(r, col), p))
    case IsNull(col) => if At(r, col) == NullCell then TRUE else FALSE
    case And(parts) => EvalAnd(parts, r)
    case Or(parts) => EvalOr(parts, r)
  }

  /** The conjunction of the operands: TRUE when all are, FALSE when one is. */
  function EvalAnd(parts: seq<Expr>, r: Row): (t: Truth)
    ensures t == TRUE <==> forall i :: 0 <= i < |parts| ==> Eval(parts[i], r) == TRUE
    decreases parts, 0
  {
    if parts == [] then TRUE
    else
      var t := And3(Eval(parts[0], r), EvalAnd(parts[1..], r));
      assert forall i :: 0 < i < |parts| ==> parts[i] == parts[1..][i - 1];
      t
  }

  /** The disjunction of the operands: TRUE when one is, FALSE when all are. */
  function EvalOr(parts: seq<Expr>, r: Row): (t: Truth)
    decreases parts, 0
  {
    if parts == [] then FALSE else Or3(Eval(parts[0], r), EvalOr(parts[1..], r))
  }

  /** A `WHERE` clause: none at all, or an expression that must be TRUE. */
  predicate Holds(w: Option<Expr>, r: Row)
  {
    w.None? || Eval(w.value, r) == TRUE
  }

  /**
    drizzle's `and(...)`: the operands that are not undefined; none gives
    undefined, one gives that operand itself.
   */
  function AndOf(parts: seq<Option<Expr>>): (w: Option<Expr>)
    ensures w.None? <==> forall i :: 0 <= i < |parts| ==> parts[i].None?
  {
    var present := Present(parts);
    if present == [] then None
    else if |present| == 1 then Some(present[0])
    else Some(And(present))
  }

  function Present(parts: seq<Option<Expr>>): (es: seq<Expr>)
    ensures es == [] <==> forall i :: 0 <= i < |parts| ==> parts[i].None?
    ensures forall e :: e in es <==> Some(e) in parts
  {
    if parts == [] then []
    else
      var rest := Present(parts[1..]);
      assert forall i :: 0 < i < |parts| ==> parts[i] == parts[1..][i - 1];
      assert forall x :: x in parts <==> x == parts[0] || x in parts[1..];
      if parts[0].Some? then [parts[0].value] + rest else rest
  }

  /** The conjunction holds exactly when every operand that is there holds. */
  lemma HoldsAndOf(parts: seq<Option<Expr>>, r: Row)
    ensures Holds(AndOf(parts), r) <==> forall i :: 0 <= i < |parts| ==> Holds(parts[i], r)
  {
    var present := Present(parts);
    if |present| > 1 {
      if forall i :: 0 <= i < |parts| ==> Holds(parts[i], r) {
        forall k | 0 <= k < |present|
          ensures Eval(present[k], r) == TRUE
        {
          assert present[k] in present;
        }
      } else {
        var i :| 0 <= i < |parts| && !Holds(parts[i], r);
        assert parts[i].value in present;
        var k :| 0 <= k < |present| && present[k] == parts[i].value;
        assert Eval(present[k], r) != TRUE;
      }
    } else if |present| == 1 {
      assert present[0] in present;
      if forall i :: 0 <= i < |parts| ==> Holds(parts[i], r) {
        assert Some(present[0]) in parts;
      } else {
        var i :| 0 <= i < |parts| && !Holds(parts[i], r);
        assert parts[i].value in present;
      }
    }
  }

  /* ---------------- Queries ---------------- */

  /** The rows a `WHERE` clause keeps, in table order. */
  function Select(w: Option<Expr>, rows: seq<Row>): (s: seq<Row>)
    ensures |s| <= |rows|
    ensures forall x :: x in s <==> x in rows && Holds(w, x)
  {
    if rows == [] then []
    else
      var rest := Select(w, rows[1..]);
      assert forall x :: x in rows <==> x == rows[0] || x in rows[1..];
      if Holds(w, rows[0]) then [rows[0]] + rest else rest
  }

  /** Inserts `x` before the first row that does not come before it. */
  function Insert(o: seq<Order>, x: Row, s: seq<Row>): (r: seq<Row>)
    ensures |r| == |s| + 1
    ensures forall z :: z in r <==> z == x || z in s
  {
    if s == [] then [x]
    else if Before(o, s[0], x) then
      var rest := Insert(o, x, s[1..]);
      assert forall z :: z in s <==> z == s[0] || z in s[1..];
      [s[0]] + rest
    else [x] + s
  }

  /** An `ORDER BY`: insertion sort, which keeps rows that tie in table order. */
  function SortBy(o: seq<Order>, rows: seq<Row>): (r: seq<Row>)
    ensures |r| == |rows|
    ensures forall z :: z in r <==> z in rows
  {
    if rows == [] then []
    else
      assert forall z :: z in rows <==> z == rows[0] || z in rows[1..];
      Insert(o, rows[0], SortBy(o, rows[1..]))
  }

  /** `SELECT … WHERE w ORDER BY o LIMIT limit OFFSET offset`. */
  function Fetch(rows: seq<Row>, w: Option<Expr>, o: seq<Order>, limit: nat, offset: nat): (r: seq<Row>)
    ensures |r| <= limit
    ensures var all := SortBy(o, Select(w, rows));
      offset <= |all| ==> r == all[offset..][..if limit <= |all| - offset then limit else |all| - offset]
    ensures |SortBy(o, Select(w, rows))| <= offset ==> r == []
  {
    var all := SortBy(o, Select(w, rows));
    var rest := if offset <= |all| then all[offset..] else [];
    if limit <= |rest| then rest[..limit] else rest
  }

  /** No row comes before the one ahead of it. */
  predicate Sorted(o: seq<Order>, s: seq<Row>)
  {
    s == [] || ((forall z :: z in s[1..] ==> !Before(o, z, s[0])) && Sorted(o, s[1..]))
  }

  /** Any two rows are ordered one way or the other: no two rows tie. */
  predicate Distinct(o: seq<Order>, s: seq<Row>)
  {
    s == [] || ((forall z :: z in s[1..] ==> Before(o, z, s[0]) || Before(o, s[0], z)) && Distinct(o, s[1..]))
  }

  lemma {:induction false} InsertSorted(o: seq<Order>, x: Row, s: seq<Row>)
    requires Sorted(o, s)
    ensures Sorted(o, Insert(o, x, s))
  {
    if s != [] {
      if Before(o, s[0], x) {
        InsertSorted(o, x, s[1..]);
        BeforeAsymmetric(o, s[0], x);
      } else {
        forall z | z in s
          ensures !Before(o, z, x)
        {
          if z != s[0] && Before(o, z, x) {
            BeforeSplit(o, z, s[0], x);
          }
        }
        assert ([x] + s)[1..] == s;
      }
    }
  }

  /** The database's ordering is sorted. */
  lemma {:induction false} SortBySorted(o: seq<Order>, rows: seq<Row>)
    ensures Sorted(o, SortBy(o, rows))
  {
    if rows != [] {
      SortBySorted(o, rows[1..]);
      InsertSorted(o, rows[0], SortBy(o, rows[1..]));
    }
  }

  lemma {:induction false} InsertDistinct(o: seq<Order>, x: Row, s: seq<Row>)
    requires Distinct(o, s)
    requires forall z :: z in s ==> Before(o, z, x) || Before(o, x, z)
    ensures Distinct(o, Insert(o, x, s))
  {
    if s != [] {
      if Before(o, s[0], x) {
        InsertDistinct(o, x, s[1..]);
      } else {
        assert ([x] + s)[1..] == s;
      }
    }
  }

  lemma {:induction false} SortByDistinct(o: seq<Order>, rows: seq<Row>)
    requires Distinct(o, rows)
    ensures Distinct(o, SortBy(o, rows))
  {
    if rows != [] {
      SortByDistinct(o, rows[1..]);
      InsertDistinct(o, rows[0], SortBy(o, rows[1..]));
    }
  }

  lemma {:induction false} SelectDistinct(o: seq<Order>, w: Option<Expr>, rows: seq<Row>)
    requires Distinct(o, rows)
    ensures Distinct(o, Select(w, rows))
  {
    if rows != [] {
      SelectDistinct(o, w, rows[1..]);
      if Holds(w, rows[0]) {
        assert ([rows[0]] + Select(w, rows[1..]))[1..] == Select(w, rows[1..]);
      }
    }
  }

  lemma {:induction false} SelectInsertDropped(o: seq<Order>, w: Option<Expr>, x: Row, s: seq<Row>)
    requires !Holds(w, x)
    ensures Select(w, Insert(o, x, s)) == Select(w, s)
  {
    if s != [] {
      if Before(o, s[0], x) {
        SelectInsertDropped(o, w, x, s[1..]);
        assert ([s[0]] + Insert(o, x, s[1..]))[1..] == Insert(o, x, s[1..]);
      } else {
        assert ([x] + s)[1..] == s;
      }
    }
  }

  lemma {:induction false} SelectInsertKept(o: seq<Order>, w: Option<Expr>, x: Row, s: seq<Row>)
    requires Holds(w, x) && Sorted(o, s)
    ensures Select(w, Insert(o, x, s)) == Insert(o, x, Select(w, s))
  {
    if s != [] {
      var rest := Select(w, s[1..]);
      if Before(o, s[0], x) {
        SelectInsertKept(o, w, x, s[1..]);
        assert ([s[0]] + Insert(o, x, s[1..]))[1..] == Insert(o, x, s[1..]);
        if Holds(w, s[0]) {
          assert Select(w, s) == [s[0]] + rest;
        }
      } else {
        assert ([x] + s)[1..] == s;
        if !Holds(w, s[0]) && rest != [] {
          assert rest[0] in s[1..];
          if Before(o, rest[0], x) {
            BeforeSplit(o, rest[0], s[0], x);
          }
        }
      }
    }
  }

  /** Filtering a sorted table gives what sorting the filtered table gives. */
  lemma {:induction false} SelectSortBy(o: seq<Order>, w: Option<Expr>, rows: seq<Row>)
    ensures Select(w, SortBy(o, rows)) == SortBy(o, Select(w, rows))
  {
    if rows != [] {
      SelectSortBy(o, w, rows[1..]);
      var sorted := SortBy(o, rows[1..]);
      if Holds(w, rows[0]) {
        SortBySorted(o, rows[1..]);
        SelectInsertKept(o, w, rows[0], sorted);
        assert Select(w, rows) == [rows[0]] + Select(w, rows[1..]);
      } else {
        SelectInsertDropped(o, w, rows[0], sorted);
      }
    }
  }

  /** A clause every row satisfies keeps them all. */
  lemma {:induction false} SelectAll(w: Option<Expr>, rows: seq<Row>)
    requires forall x :: x in rows ==> Holds(w, x)
    ensures Select(w, rows) == rows
  {
    if rows != [] {
      SelectAll(w, rows[1..]);
      assert rows == [rows[0]] + rows[1..];
    }
  }

  /** Two clauses that agree on every row keep the same rows. */
  lemma {:induction false} SelectSame(w: Option<Expr>, w': Option<Expr>, rows: seq<Row>)
    requires forall x :: x in rows ==> (Holds(w, x) <==> Holds(w', x))
    ensures Select(w, rows) == Select(w', rows)
  {
    if rows != [] {
      SelectSame(w, w', rows[1..]);
    }
  }

  /** A clause that holds exactly when two others do keeps what filtering by one and then the other keeps. */
  lemma {:induction false} SelectBoth(w: Option<Expr>, a: Option<Expr>, b: Option<Expr>, rows: seq<Row>)
    requires forall x :: x in rows ==> (Holds(w, x) <==> Holds(a, x) && Holds(b, x))
    ensures Select(w, rows) == Select(b, Select(a, rows))
  {
    if rows != [] {
      SelectBoth(w, a, b, rows[1..]);
      var rest := Select(a, rows[1..]);
      if Holds(a, rows[0]) {
        assert Select(a, rows) == [rows[0]] + rest;
        assert ([rows[0]] + rest)[1..] == rest;
      }
    }
  }

  /** Rows that are told apart by one ordered column, `rows[i]` from `rows[j]`, never tie. */
  lemma {:induction false} UniqueDistinct(o: seq<Order>, k: nat, rows: seq<Row>)
    requires k < |o|
    requires forall i, j :: 0 <= i < j < |rows| ==> At(rows[i], o[k].col) != At(rows[j], o[k].col)
    ensures Distinct(o, rows)
  {
    if rows != [] {
      forall z | z in rows[1..]
        ensures Before(o, z, rows[0]) || Before(o, rows[0], z)
      {
        var i :| 0 <= i < |rows[1..]| && rows[1..][i] == z;
        assert rows[i + 1] == z;
        BeforeTotal(o, z, rows[0], k);
      }
      assert forall i, j :: 0 <= i < j < |rows[1..]| ==> rows[1..][i] == rows[i + 1] && rows[1..][j] == rows[j + 1];
      UniqueDistinct(o, k, rows[1..]);
    }
  }

  /**
    In a sorted list without ties, the rows strictly after the row at
    index `m` are exactly the ones from `m + 1` on.
   */
  lemma {:induction false} SelectAfter(o: seq<Order>, w: Option<Expr>, s: seq<Row>, m: nat)
    requires m < |s| && Sorted(o, s) && Distinct(o, s)
    requires forall x :: x in s ==> (Holds(w, x) <==> Before(o, s[m], x))
    ensures Select(w, s) == s[m + 1..]
  {
    if m == 0 {
      BeforeIrreflexive(o, s[0]);
      SelectAll(w, s[1..]);
    } else {
      assert s[m] in s[1..];
      assert s[1..][m - 1] == s[m];
      SelectAfter(o, w, s[1..], m - 1);
    }
  }
}
