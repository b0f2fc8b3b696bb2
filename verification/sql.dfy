/** The relational store the two accessors talk to through JDBC, as values.

    A table is a finite map from the generated primary key to the row's other
    columns. Each JDBC statement either completes or throws `SQLException`;
    which one happens is not decided by the code, so every operation takes it
    as an `Io` parameter. Rows come back in storage order, taken here to be
    ascending primary key.
 */
module Sql {

  datatype Option<+T> = None | Some(value: T)

  /** Whether one JDBC statement completes or throws `SQLException`. */
  datatype Io = Completes | Raises

  /** A nullable string: a Java `String` that may be null, or a VARCHAR column
      that may hold NULL. */
  type Text = Option<string>

  /** `column = ?` in a WHERE clause: a comparison with NULL is never true,
      so a NULL on either side selects nothing. */
  predicate TextEquals(a: Text, b: Text) {
    a.Some? && b.Some? && a.value == b.value
  }

  /** Rows keyed by their primary key. */
  type Table<R> = map<int, R>

  /** One row of a result set: its primary key and its other columns. */
  datatype Entry<R> = Entry(key: int, row: R)

  /** The entry is a row of `t`, read back as stored. */
  predicate Stored<R(==)>(t: Table<R>, e: Entry<R>) {
    e.key in t && t[e.key] == e.row
  }

  /** Strictly ascending keys: storage order, and no row twice. */
  predicate InKeyOrder<R(==)>(es: seq<Entry<R>>) {
    forall i, j :: 0 <= i < j < |es| ==> es[i].key < es[j].key
  }

  lemma PrependInKeyOrder<R>(e: Entry<R>, es: seq<Entry<R>>)
    requires InKeyOrder(es)
    requires forall d :: d in es ==> e.key < d.key
    ensures InKeyOrder([e] + es)
  {
    forall i, j | 0 <= i < j < |[e] + es| ensures ([e] + es)[i].key < ([e] + es)[j].key {
      if i == 0 {
        assert es[j - 1] in es;
      }
    }
  }

  lemma Pick<T>(s: set<T>) returns (x: T)
    requires s != {}
    ensures x in s
  {
    x :| x in s;
  }

  predicate IsLeast(k: int, s: set<int>) {
    k in s && forall j :: j in s ==> k <= j
  }

  lemma {:induction false} LeastExists(s: set<int>)
    requires s != {}
    ensures exists k :: IsLeast(k, s)
  {
    var x := Pick(s);
    var rest := s - {x};
    if rest == {} {
      forall j | j in s ensures x <= j {
        assert j !in rest;
      }
      assert IsLeast(x, s);
    } else {
      LeastExists(rest);
      var m :| IsLeast(m, rest);
      var least := if x < m then x else m;
      forall j | j in s ensures least <= j {
        if j != x {
          assert j in rest;
        }
      }
      assert IsLeast(least, s);
    }
  }

  function Minimum(s: set<int>): (k: int)
    requires s != {}
    ensures IsLeast(k, s)
  {
    LeastExists(s);
    var k :| IsLeast(k, s); k
  }

  /** `SELECT *`: every row of the table exactly once, in storage order. */
  function Entries<R(==)>(t: Table<R>): (es: seq<Entry<R>>)
    ensures InKeyOrder(es)
    ensures forall e :: e in es ==> Stored(t, e)
    ensures forall k :: k in t ==> Entry(k, t[k]) in es
    decreases |t|
  {
    if t == map[] then []
    else
      var k := Minimum(t.Keys);
      var rest := Entries(t - {k});
      PrependInKeyOrder(Entry(k, t[k]), rest);
      var es := [Entry(k, t[k])] + rest;
      assert forall j :: j in t && j != k ==> j in t - {k};
      es
  }

  /** The entries of `es` whose rows satisfy the WHERE condition `p`, in the
      order of `es`. */
  function Filter<R(==)>(es: seq<Entry<R>>, p: (int, R) -> bool): (r: seq<Entry<R>>)
    ensures forall e :: e in r ==> e in es && p(e.key, e.row)
    ensures forall e :: e in es && p(e.key, e.row) ==> e in r
    ensures InKeyOrder(es) ==> InKeyOrder(r)
  {
    if es == [] then []
    else
      var rest := Filter(es[1..], p);
      if p(es[0].key, es[0].row) then
        assert InKeyOrder(es) ==> InKeyOrder([es[0]] + rest) by {
          if InKeyOrder(es) {
            forall d | d in rest ensures es[0].key < d.key {
              var j :| 0 <= j < |es[1..]| && es[1..][j] == d;
              assert es[j + 1] == d;
            }
            PrependInKeyOrder(es[0], rest);
          }
        }
        [es[0]] + rest
      else rest
  }

  /** `SELECT * ... WHERE p`: exactly the rows satisfying `p`, each once, in
      storage order. */
  function Select<R(==)>(t: Table<R>, p: (int, R) -> bool): (r: seq<Entry<R>>)
    ensures InKeyOrder(r)
    ensures forall e :: e in r ==> Stored(t, e) && p(e.key, e.row)
    ensures forall k :: k in t && p(k, t[k]) ==> Entry(k, t[k]) in r
  {
    Filter(Entries(t), p)
  }

  /** `INSERT` of `row` under the key the database generates. A key already in
      use violates the primary key, so the statement throws, as it does when
      `io` says so; `None` stands for the thrown exception. */
  function InsertRow<R(==)>(t: Table<R>, row: R, key: int, io: Io): (r: Option<Table<R>>)
    ensures r.Some? <==> io == Completes && key !in t
    ensures r.Some? ==> r.value.Keys == t.Keys + {key}
    ensures r.Some? ==> r.value[key] == row
    ensures r.Some? ==> forall k :: k in t ==> r.value[k] == t[k]
  {
    match io
    case Raises => None
    case Completes => if key in t then None else Some(t[key := row])
  }

  /** A selection is empty exactly when no row satisfies the condition. */
  lemma SelectEmpty<R>(t: Table<R>, p: (int, R) -> bool)
    ensures Select(t, p) == [] <==> forall k :: k in t ==> !p(k, t[k])
  {
    var r := Select(t, p);
    if r != [] {
      assert r[0] in r;
    }
  }

  /** `WHERE <primary key> = ?` */
  function WhereKey<R>(key: int): (int, R) -> bool {
    (k: int, row: R) => k == key
  }

  /** `UPDATE ... SET ... WHERE <primary key> = ?`: the table after, and the
      affected-row count that `executeUpdate` reports. */
  function UpdateByKey<R(==)>(t: Table<R>, key: int, f: R -> R): (r: (Table<R>, nat))
    ensures r.0.Keys == t.Keys
    ensures key in t ==> r.0[key] == f(t[key])
    ensures forall k :: k in t && k != key ==> r.0[k] == t[k]
    ensures r.1 > 0 <==> key in t
  {
    SelectEmpty(t, WhereKey(key));
    (if key in t then t[key := f(t[key])] else t, |Select(t, WhereKey(key))|)
  }

  /** `DELETE ... WHERE <primary key> = ?`: the table after, and the
      affected-row count. */
  function DeleteByKey<R(==)>(t: Table<R>, key: int): (r: (Table<R>, nat))
    ensures r.0.Keys == t.Keys - {key}
    ensures forall k :: k in r.0 ==> r.0[k] == t[k]
    ensures key !in t ==> r.0 == t
    ensures r.1 > 0 <==> key in t
  {
    SelectEmpty(t, WhereKey(key));
    (if key in t then t - {key} else t, |Select(t, WhereKey(key))|)
  }
}
