/** ORDER BY as SQLite evaluates it: a row is sorted by a list of terms,
    each ascending or descending; across storage classes NULL sorts before
    INTEGER, which sorts before TEXT; TEXT uses the BINARY collation.
    SortBy is the sort the queries use: it returns a permutation of its
    input that is sorted by the given key. */
module SqlOrder {
  import opened Common

  datatype SqlValue = Null | Int(i: int) | Text(s: string)

  datatype Term = Asc(v: SqlValue) | Desc(v: SqlValue)

  function ClassRank(v: SqlValue): int
  {
    match v
    case Null => 0
    case Int(_) => 1
    case Text(_) => 2
  }

  function CmpValue(a: SqlValue, b: SqlValue): (c: int)
    ensures -1 <= c <= 1
  {
    if ClassRank(a) != ClassRank(b) then (if ClassRank(a) < ClassRank(b) then -1 else 1)
    else match (a, b)
      case (Int(x), Int(y)) => if x < y then -1 else if x > y then 1 else 0
      case (Text(x), Text(y)) => CmpStr(x, y)
      case _ => 0
  }

  function CmpTerm(a: Term, b: Term): (c: int)
    ensures -1 <= c <= 1
  {
    match (a, b)
    case (Asc(x), Asc(y)) => CmpValue(x, y)
    case (Desc(x), Desc(y)) => CmpValue(y, x)
    case (Asc(_), Desc(_)) => -1
    case (Desc(_), Asc(_)) => 1
  }

  /** Lexicographic comparison of two keys, term by term. */
  function CmpKey(a: seq<Term>, b: seq<Term>): (c: int)
    ensures -1 <= c <= 1
  {
    if a == [] && b == [] then 0
    else if a == [] then -1
    else if b == [] then 1
    else if CmpTerm(a[0], b[0]) != 0 then CmpTerm(a[0], b[0])
    else CmpKey(a[1..], b[1..])
  }

  predicate KeyLe(a: seq<Term>, b: seq<Term>) { CmpKey(a, b) <= 0 }

  // ---- the three-way comparisons are total orders ----

  lemma CmpValueLaws(a: SqlValue, b: SqlValue)
    ensures CmpValue(a, b) == -CmpValue(b, a)
    ensures CmpValue(a, b) == 0 <==> a == b
  {
    if a.Text? && b.Text? {
      CmpStrAntisym(a.s, b.s);
      CmpStrZero(a.s, b.s);
    }
  }

  lemma CmpValueTrans(a: SqlValue, b: SqlValue, c: SqlValue)
    requires CmpValue(a, b) < 0 && CmpValue(b, c) < 0
    ensures CmpValue(a, c) < 0
  {
    if a.Text? && b.Text? && c.Text? {
      CmpStrTrans(a.s, b.s, c.s);
    }
  }

  lemma CmpTermLaws(a: Term, b: Term)
    ensures CmpTerm(a, b) == -CmpTerm(b, a)
    ensures CmpTerm(a, b) == 0 <==> a == b
  {
    CmpValueLaws(a.v, b.v);
  }

  lemma CmpTermTrans(a: Term, b: Term, c: Term)
    requires CmpTerm(a, b) < 0 && CmpTerm(b, c) < 0
    ensures CmpTerm(a, c) < 0
  {
    if a.Asc? && b.Asc? && c.Asc? {
      CmpValueTrans(a.v, b.v, c.v);
    } else if a.Desc? && b.Desc? && c.Desc? {
      CmpValueTrans(c.v, b.v, a.v);
    }
  }

  lemma {:induction false} CmpKeyAntisym(a: seq<Term>, b: seq<Term>)
    ensures CmpKey(a, b) == -CmpKey(b, a)
  {
    if a != [] && b != [] {
      CmpTermLaws(a[0], b[0]);
      CmpKeyAntisym(a[1..], b[1..]);
    }
  }

  lemma {:induction false} KeyLeTrans(a: seq<Term>, b: seq<Term>, c: seq<Term>)
    requires KeyLe(a, b) && KeyLe(b, c)
    ensures KeyLe(a, c)
  {
    if a != [] && b != [] && c != [] {
      CmpTermLaws(a[0], b[0]);
      CmpTermLaws(b[0], c[0]);
      CmpTermLaws(a[0], c[0]);
      if CmpTerm(a[0], b[0]) < 0 && CmpTerm(b[0], c[0]) < 0 {
        CmpTermTrans(a[0], b[0], c[0]);
      } else if CmpTerm(a[0], b[0]) == 0 && CmpTerm(b[0], c[0]) == 0 {
        KeyLeTrans(a[1..], b[1..], c[1..]);
      }
    }
  }

  lemma KeyLeTotal(a: seq<Term>, b: seq<Term>)
    ensures KeyLe(a, b) || KeyLe(b, a)
  {
    CmpKeyAntisym(a, b);
  }

  /** What KeyLe says about the first term, and about the rest on a tie. */
  lemma KeyLeHead(a: seq<Term>, b: seq<Term>)
    requires KeyLe(a, b) && a != [] && b != []
    ensures CmpTerm(a[0], b[0]) <= 0
    ensures CmpTerm(a[0], b[0]) == 0 ==> KeyLe(a[1..], b[1..])
  {
  }

  // ---- sorting ----

  /** Every earlier element's key is at most every later element's key. */
  predicate SortedBy<T>(s: seq<T>, key: T -> seq<Term>)
  {
    forall i, j :: 0 <= i < j < |s| ==> KeyLe(key(s[i]), key(s[j]))
  }

  /** Every element of `s` has a key at least `k`. */
  predicate AllAbove<T(==)>(k: seq<Term>, s: seq<T>, key: T -> seq<Term>)
  {
    forall y :: y in s ==> KeyLe(k, key(y))
  }

  lemma SortedCons<T>(a: T, s: seq<T>, key: T -> seq<Term>)
    requires SortedBy(s, key) && AllAbove(key(a), s, key)
    ensures SortedBy([a] + s, key)
  {
    var r := [a] + s;
    forall i, j | 0 <= i < j < |r| ensures KeyLe(key(r[i]), key(r[j])) {
      assert r[j] == s[j - 1];
      if i > 0 { assert r[i] == s[i - 1]; }
    }
  }

  /** Places `x` before the first element whose key is not below its own. */
  function Insert<T>(x: T, s: seq<T>, key: T -> seq<Term>): (r: seq<T>)
    ensures multiset(r) == multiset(s) + multiset{x}
  {
    if s == [] then [x]
    else if KeyLe(key(x), key(s[0])) then [x] + s
    else
      assert s == [s[0]] + s[1..];
      [s[0]] + Insert(x, s[1..], key)
  }

  lemma {:induction false} InsertSorted<T>(x: T, s: seq<T>, key: T -> seq<Term>)
    requires SortedBy(s, key)
    ensures SortedBy(Insert(x, s, key), key)
  {
    if s == [] {
    } else if KeyLe(key(x), key(s[0])) {
      forall y | y in s ensures KeyLe(key(x), key(y)) {
        var j :| 0 <= j < |s| && s[j] == y;
        if j > 0 { KeyLeTrans(key(x), key(s[0]), key(s[j])); }
      }
      SortedCons(x, s, key);
    } else {
      KeyLeTotal(key(x), key(s[0]));
      var tail := Insert(x, s[1..], key);
      assert SortedBy(s[1..], key) by {
        forall i, j | 0 <= i < j < |s[1..]| ensures KeyLe(key(s[1..][i]), key(s[1..][j])) {
          assert s[1..][i] == s[i + 1] && s[1..][j] == s[j + 1];
        }
      }
      InsertSorted(x, s[1..], key);
      forall y | y in tail ensures KeyLe(key(s[0]), key(y)) {
        assert y in multiset(tail);
        if y != x {
          assert y in multiset(s[1..]);
          var j :| 0 <= j < |s[1..]| && s[1..][j] == y;
          assert s[j + 1] == y;
        }
      }
      SortedCons(s[0], tail, key);
    }
  }

  /** A permutation of `s` in ascending key order (insertion sort). */
  function SortBy<T>(s: seq<T>, key: T -> seq<Term>): (r: seq<T>)
    ensures multiset(r) == multiset(s)
    ensures SortedBy(r, key)
  {
    if s == [] then []
    else
      assert s == [s[0]] + s[1..];
      var rest := SortBy(s[1..], key);
      InsertSorted(s[0], rest, key);
      Insert(s[0], rest, key)
  }

  /** When every element has the same key, sorting keeps the input order:
      ties are kept in the order the rows were read. */
  lemma {:induction false} SortByEqualKeys<T>(s: seq<T>, key: T -> seq<Term>, k: seq<Term>)
    requires forall x :: x in s ==> key(x) == k
    ensures SortBy(s, key) == s
  {
    if s != [] {
      var tail := s[1..];
      assert forall x :: x in tail ==> x in s;
      SortByEqualKeys(tail, key, k);
      CmpKeyAntisym(k, k);
      assert s == [s[0]] + tail;
      if tail != [] {
        assert key(tail[0]) == k by {
          assert tail[0] in s;
        }
      }
      assert SortBy(s, key) == Insert(s[0], tail, key);
    }
  }
}
