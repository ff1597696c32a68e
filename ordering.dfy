/**
 * `ApplyOrderBy`: the order-by string names one property and, optionally, the direction; the
 * query is then sorted on that property with `OrderBy` or `OrderByDescending`, which are stable.
 */
module Ordering {
  import opened Wrappers
  import opened Text
  import opened Records
  import opened Seqs

  datatype Direction = Ascending | Descending

  /** A record with key `a` may come before one with key `b`. */
  predicate InOrder(dir: Direction, a: int, b: int)
  {
    match dir
    case Ascending => a <= b
    case Descending => a >= b
  }

  predicate HasField(q: seq<Record>, field: string)
  {
    forall i :: 0 <= i < |q| ==> field in q[i]
  }

  lemma ConformsHasField(schema: Schema, q: seq<Record>, field: string)
    requires Conforms(schema, q) && field in schema.fields
    ensures HasField(q, field)
  {
  }

  predicate SortedBy(q: seq<Record>, field: string, dir: Direction)
    requires HasField(q, field)
  {
    forall i, j :: 0 <= i < j < |q| ==> InOrder(dir, q[i][field], q[j][field])
  }

  /** Inserts `x` in front of the first record it may precede, so ahead of every record with
      the same key. */
  function Insert(x: Record, t: seq<Record>, field: string, dir: Direction): (r: seq<Record>)
    requires field in x && HasField(t, field)
    ensures multiset(r) == multiset(t) + multiset{x}
    ensures |r| == |t| + 1
    ensures forall k :: 0 <= k < |r| ==> r[k] == x || r[k] in t
    ensures HasField(r, field)
    decreases |t|
  {
    if t == [] then [x]
    else if InOrder(dir, x[field], t[0][field]) then [x] + t
    else
      assert t == [t[0]] + t[1..];
      [t[0]] + Insert(x, t[1..], field, dir)
  }

  lemma {:induction false} InsertSorted(x: Record, t: seq<Record>, field: string, dir: Direction)
    requires field in x && HasField(t, field) && SortedBy(t, field, dir)
    ensures SortedBy(Insert(x, t, field, dir), field, dir)
    decreases |t|
  {
    if t != [] {
      var r := Insert(x, t, field, dir);
      if InOrder(dir, x[field], t[0][field]) {
        forall i, j | 0 <= i < j < |r| ensures InOrder(dir, r[i][field], r[j][field]) {
          assert r[j] == t[j - 1];
          if i == 0 {
            assert InOrder(dir, t[0][field], t[j - 1][field]);
          } else {
            assert r[i] == t[i - 1];
          }
        }
      } else {
        var rest := Insert(x, t[1..], field, dir);
        InsertSorted(x, t[1..], field, dir);
        assert r == [t[0]] + rest;
        forall i, j | 0 <= i < j < |r| ensures InOrder(dir, r[i][field], r[j][field]) {
          assert r[j] == rest[j - 1];
          if i == 0 {
            assert rest[j - 1] == x || rest[j - 1] in t[1..];
          } else {
            assert r[i] == rest[i - 1];
          }
        }
      }
    }
  }

  /** `OrderBy(e => e.field)` or `OrderByDescending(e => e.field)`. */
  function SortBy(q: seq<Record>, field: string, dir: Direction): (r: seq<Record>)
    requires HasField(q, field)
    ensures multiset(r) == multiset(q)
    ensures |r| == |q|
    ensures HasField(r, field)
    decreases |q|
  {
    if q == [] then []
    else
      assert q == [q[0]] + q[1..];
      Insert(q[0], SortBy(q[1..], field, dir), field, dir)
  }

  lemma {:induction false} SortBySorted(q: seq<Record>, field: string, dir: Direction)
    requires HasField(q, field)
    ensures SortedBy(SortBy(q, field, dir), field, dir)
    decreases |q|
  {
    if q != [] {
      SortBySorted(q[1..], field, dir);
      InsertSorted(q[0], SortBy(q[1..], field, dir), field, dir);
    }
  }

  /** The records of `q` whose key is `v`, in their order in `q`. */
  function WithKey(q: seq<Record>, field: string, v: int): seq<Record>
    requires HasField(q, field)
    decreases |q|
  {
    if q == [] then []
    else (if q[0][field] == v then [q[0]] else []) + WithKey(q[1..], field, v)
  }

  lemma {:induction false} InsertWithKey(x: Record, t: seq<Record>, field: string, dir: Direction, v: int)
    requires field in x && HasField(t, field)
    ensures WithKey(Insert(x, t, field, dir), field, v)
         == (if x[field] == v then [x] else []) + WithKey(t, field, v)
    decreases |t|
  {
    var r := Insert(x, t, field, dir);
    var xs: seq<Record> := if x[field] == v then [x] else [];
    if t == [] {
      assert r == [x] && r[1..] == [];
      AppendEmpty(xs);
    } else if InOrder(dir, x[field], t[0][field]) {
      assert r == [x] + t && r[1..] == t;
    } else {
      var rest := Insert(x, t[1..], field, dir);
      InsertWithKey(x, t[1..], field, dir, v);
      assert r == [t[0]] + rest && r[1..] == rest;
      var ts: seq<Record> := if t[0][field] == v then [t[0]] else [];
      assert WithKey(r, field, v) == ts + (xs + WithKey(t[1..], field, v));
      assert WithKey(t, field, v) == ts + WithKey(t[1..], field, v);
      assert ts == [] || xs == [];
      assert ts + xs == xs + ts;
      AppendAssoc(ts, xs, WithKey(t[1..], field, v));
      AppendAssoc(xs, ts, WithKey(t[1..], field, v));
    }
  }

  /** The sort is stable: records with equal keys keep their relative order. */
  lemma {:induction false} SortByStable(q: seq<Record>, field: string, dir: Direction, v: int)
    requires HasField(q, field)
    ensures WithKey(SortBy(q, field, dir), field, v) == WithKey(q, field, v)
    decreases |q|
  {
    if q != [] {
      SortByStable(q[1..], field, dir, v);
      InsertWithKey(q[0], SortBy(q[1..], field, dir), field, dir, v);
    }
  }

  lemma SortByStableAll(q: seq<Record>, field: string, dir: Direction)
    requires HasField(q, field)
    ensures forall v :: WithKey(SortBy(q, field, dir), field, v) == WithKey(q, field, v)
  {
    forall v ensures WithKey(SortBy(q, field, dir), field, v) == WithKey(q, field, v) {
      SortByStable(q, field, dir, v);
    }
  }

  /** The property and direction an order-by string names. */
  datatype OrderKey = OrderKey(property: string, direction: Direction)

  /** The first space-separated token is the property; the direction is descending exactly
      when a second token reads `desc` in lower case. A string with no token at all fails on
      `orderParts[0]`. */
  function ParseOrderBy(orderBy: string): (r: Result<OrderKey, Error>)
    ensures r.Err? <==> Split(orderBy, ' ') == []
    ensures r.Err? ==> r.error == IndexOutOfRange
    ensures r.Ok? ==> r.value.property == Split(orderBy, ' ')[0]
  {
    var parts := Split(orderBy, ' ');
    if |parts| == 0 then Err(IndexOutOfRange)
    else
      var direction := if |parts| > 1 && ToLower(parts[1]) == "desc" then Descending else Ascending;
      Ok(OrderKey(parts[0], direction))
  }

  /** `desc` is recognised in any case: the order is descending exactly when there is a second
      token of four characters, each the letter of `desc` in lower or upper case. */
  lemma DescendingIgnoresCase(orderBy: string)
    requires ParseOrderBy(orderBy).Ok?
    ensures var parts := Split(orderBy, ' ');
      ParseOrderBy(orderBy).value.direction == Descending <==>
        |parts| > 1 && |parts[1]| == 4 &&
        forall i :: 0 <= i < 4 ==> parts[1][i] == "desc"[i] || parts[1][i] == UpperChar("desc"[i])
  {
    var parts := Split(orderBy, ' ');
    if |parts| > 1 {
      ToLowerEquals(parts[1], "desc");
    }
  }

  /** The order form `<field> <direction>`: the field, then descending exactly when the
      direction token lower-cases to `desc`; a field alone sorts ascending. */
  lemma OrderByRoundTrip(field: string, direction: string)
    requires field != [] && ' ' !in field && ' ' !in direction
    ensures ParseOrderBy(field) == Ok(OrderKey(field, Ascending))
    ensures ParseOrderBy(field + " " + direction) ==
      Ok(OrderKey(field, if ToLower(direction) == "desc" then Descending else Ascending))
  {
    SplitJoin([field], ' ');
    if direction == [] {
      SplitOnlySeparators(direction, ' ');
      SplitAppend(field, direction, ' ');
      assert ToLower(direction) == [];
    } else {
      SplitJoin([field, direction], ' ');
      assert Join([field, direction], " ") == field + " " + direction;
    }
  }

  /** An order-by string of spaces only is not caught by the null-or-empty guard and fails
      with an index error. */
  lemma SpacesOnlyOrderBy(orderBy: string)
    requires forall i :: 0 <= i < |orderBy| ==> orderBy[i] == ' '
    ensures ParseOrderBy(orderBy) == Err(IndexOutOfRange)
  {
    SplitOnlySeparators(orderBy, ' ');
  }

  /** `ApplyOrderBy`: it succeeds exactly when the string has a token naming a property of the
      record type, and the result is then the query sorted on that property in the named
      direction: a permutation of the query, ordered by that key, in which the records with
      equal keys keep their order. A string with no token, or naming a property the record
      type does not have, is an error. */
  function ApplyOrderBy(schema: Schema, q: seq<Record>, orderBy: string): (r: Result<seq<Record>, Error>)
    requires Conforms(schema, q)
    ensures r.Ok? <==> ParseOrderBy(orderBy).Ok? && ParseOrderBy(orderBy).value.property in schema.fields
    ensures ParseOrderBy(orderBy).Err? ==> r == Err(IndexOutOfRange)
    ensures ParseOrderBy(orderBy).Ok? && ParseOrderBy(orderBy).value.property !in schema.fields ==>
      r == Err(UnknownProperty(ParseOrderBy(orderBy).value.property))
    ensures r.Ok? ==>
      var key := ParseOrderBy(orderBy).value;
      && HasField(q, key.property) && HasField(r.value, key.property)
      && |r.value| == |q| && multiset(r.value) == multiset(q)
      && SortedBy(r.value, key.property, key.direction)
      && forall v :: WithKey(r.value, key.property, v) == WithKey(q, key.property, v)
  {
    match ParseOrderBy(orderBy)
    case Err(e) => Err(e)
    case Ok(key) =>
      if key.property !in schema.fields then Err(UnknownProperty(key.property))
      else
        ConformsHasField(schema, q, key.property);
        SortBySorted(q, key.property, key.direction);
        SortByStableAll(q, key.property, key.direction);
        Ok(SortBy(q, key.property, key.direction))
  }
}
