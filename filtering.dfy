/**
 * The filter half of the query: `ApplyFilters` cuts the filter string into clauses and applies
 * each through `ApplyFilterOperation`, which resolves the clause's property, converts its value
 * and picks its comparison, then narrows the query with `Where`.
 */
module Filtering {
  import opened Wrappers
  import opened Text
  import opened Records
  import opened Seqs

  /** The six comparisons a clause can make. */
  datatype Op = Eq | Ne | Gt | Ge | Lt | Le

  /** The lower-case operator token that selects each comparison. */
  function Token(op: Op): string
  {
    match op
    case Eq => "eq"
    case Ne => "ne"
    case Gt => "gt"
    case Ge => "ge"
    case Lt => "lt"
    case Le => "le"
  }

  /** The `operation.ToLower() switch`: the comparison whose token the lower-cased operation
      spells, or `None` where the source throws `ArgumentException`. */
  function ParseOperator(operation: string): (r: Option<Op>)
    ensures r.Some? ==> ToLower(operation) == Token(r.value)
    ensures r.None? ==> forall op :: ToLower(operation) != Token(op)
  {
    var t := ToLower(operation);
    if t == "eq" then Some(Eq)
    else if t == "ne" then Some(Ne)
    else if t == "gt" then Some(Gt)
    else if t == "ge" then Some(Ge)
    else if t == "lt" then Some(Lt)
    else if t == "le" then Some(Le)
    else None
  }

  /** An operator token is recognised in any mix of upper and lower case, and only then: the
      operation selects `op` exactly when it has two characters, each that of `Token(op)` or
      its upper-case form. */
  lemma ParseOperatorIgnoresCase(operation: string, op: Op)
    ensures ParseOperator(operation) == Some(op) <==>
      |operation| == 2 &&
      forall i :: 0 <= i < 2 ==> operation[i] == Token(op)[i] || operation[i] == UpperChar(Token(op)[i])
  {
    ToLowerEquals(operation, Token(op));
    var r := ParseOperator(operation);
    if ToLower(operation) == Token(op) {
      assert r.Some?;
      assert Token(r.value) == Token(op);
      assert r.value == op by {
        match op
        case Eq => assert Token(r.value) == "eq";
        case Ne => assert Token(r.value) == "ne";
        case Gt => assert Token(r.value) == "gt";
        case Ge => assert Token(r.value) == "ge";
        case Lt => assert Token(r.value) == "lt";
        case Le => assert Token(r.value) == "le";
      }
    }
  }

  /** `Expression.Equal`, `NotEqual`, `GreaterThan`, `GreaterThanOrEqual`, `LessThan` and
      `LessThanOrEqual` on the property's value and the converted constant. */
  predicate Compare(op: Op, left: int, right: int)
  {
    match op
    case Eq => left == right
    case Ne => left != right
    case Gt => left > right
    case Ge => left >= right
    case Lt => left < right
    case Le => left <= right
  }

  /** The six comparisons come in complementary pairs, and each ordering comparison is another
      one with its operands swapped. */
  lemma CompareDuals(left: int, right: int)
    ensures Compare(Ne, left, right) <==> !Compare(Eq, left, right)
    ensures Compare(Ge, left, right) <==> !Compare(Lt, left, right)
    ensures Compare(Le, left, right) <==> !Compare(Gt, left, right)
    ensures Compare(Gt, left, right) <==> Compare(Lt, right, left)
    ensures Compare(Ge, left, right) <==> Compare(Le, right, left)
    ensures Compare(Eq, left, right) <==> Compare(Eq, right, left)
  {
  }

  /** A clause as the text gives it: property, operation and value tokens. */
  datatype RawClause = RawClause(property: string, operation: string, value: string)

  /** A clause whose property exists, whose value converted and whose operator is known: the
      predicate `e => e.field op operand`. */
  datatype Clause = Clause(field: string, op: Op, operand: int)

  /** The characters `Trim('\'', ' ')` removes from a clause's value. */
  const QuoteOrSpace: set<char> := {'\'', ' '}

  /** One `;`-separated segment of the filter: split on spaces with empty tokens dropped;
      fewer than three tokens is no clause at all. The property and the operation are the
      first two tokens with white space trimmed; the value is the remaining tokens joined by
      single spaces, with quotes and spaces trimmed from both ends. */
  function ParseSegment(segment: string): (r: Option<RawClause>)
    ensures r.Some? <==> |Split(segment, ' ')| >= 3
  {
    var parts := Split(segment, ' ');
    if |parts| >= 3 then
      Some(RawClause(Trim(parts[0], WhiteSpace), Trim(parts[1], WhiteSpace),
                     Trim(Join(parts[2..], " "), QuoteOrSpace)))
    else None
  }

  /** `words` with a quote before the first and after the last: the tokens a quoted value
      of several words splits into. */
  function Quoted(words: seq<string>): (r: seq<string>)
    requires |words| >= 1
    ensures |r| == |words|
  {
    var n := |words|;
    var closed := words[..n - 1] + [words[n - 1] + ['\'']];
    [['\''] + closed[0]] + closed[1..]
  }

  lemma JoinQuoted(words: seq<string>)
    requires |words| >= 1
    ensures Join(Quoted(words), " ") == ['\''] + Join(words, " ") + ['\'']
  {
    var n := |words|;
    var closed := words[..n - 1] + [words[n - 1] + ['\'']];
    JoinSnocLast(words, '\'', " ");
    JoinConsFirst('\'', closed, " ");
  }
  /** The quoted tokens are non-empty and space-free, like the words. */
  lemma QuotedTokens(words: seq<string>)
    requires |words| >= 1
    requires forall i :: 0 <= i < |words| ==> words[i] != [] && ' ' !in words[i]
    ensures forall i :: 0 <= i < |words| ==> Quoted(words)[i] != [] && ' ' !in Quoted(words)[i]
  {
    var n := |words|;
    var closed := words[..n - 1] + [words[n - 1] + ['\'']];
    assert forall i :: 0 <= i < n - 1 ==> closed[i] == words[i];
    assert closed[n - 1] == words[n - 1] + ['\''];
    var quoted := Quoted(words);
    assert quoted[0] == ['\''] + closed[0];
    assert forall i :: 1 <= i < n ==> quoted[i] == closed[i];
  }

  lemma ConcatClause(field: string, operation: string, j: string)
    ensures field + " " + operation + " '" + j + "'" == (field + " " + operation) + " " + (['\''] + j + ['\''])
  {
  }

  /** The clause form `<field> <op> '<value>'` is the join of the field, the
      operator and the quoted words of the value. */
  lemma JoinClause(field: string, operation: string, words: seq<string>)
    requires |words| >= 1
    ensures Join([field, operation] + Quoted(words), " ")
         == field + " " + operation + " '" + Join(words, " ") + "'"
  {
    var quoted := Quoted(words);
    JoinQuoted(words);
    JoinAppend([field, operation], quoted, " ");
    assert Join([field, operation], " ") == field + " " + operation;
    ConcatClause(field, operation, Join(words, " "));
  }

  /** The clause form `<field> <op> '<value>'` splits into the field, the operator
      and the quoted words of the value. */
  lemma SegmentTokens(field: string, operation: string, words: seq<string>)
    requires field != [] && operation != [] && ' ' !in field && ' ' !in operation
    requires |words| >= 1
    requires forall i :: 0 <= i < |words| ==> words[i] != [] && ' ' !in words[i]
    ensures Split(field + " " + operation + " '" + Join(words, " ") + "'", ' ')
         == [field, operation] + Quoted(words)
  {
    var quoted := Quoted(words);
    var tokens := [field, operation] + quoted;
    QuotedTokens(words);
    TokensPrepend(field, operation, quoted, ' ');
    JoinClause(field, operation, words);
    SplitJoin(tokens, ' ');
  }

  /** A token free of white space is its own trim. */
  lemma TrimToken(token: string)
    requires forall i :: 0 <= i < |token| ==> token[i] !in WhiteSpace
    ensures Trim(token, WhiteSpace) == token
  {
    TrimPadded([], token, [], WhiteSpace);
    assert [] + token + [] == token;
  }

  /** Trimming quotes and spaces off the quoted words gives back the words joined. */
  lemma TrimQuotedValue(words: seq<string>)
    requires |words| >= 1
    requires forall i :: 0 <= i < |words| ==> words[i] != [] && ' ' !in words[i]
    requires words[0][0] != '\'' && words[|words| - 1][|words[|words| - 1]| - 1] != '\''
    ensures Trim(Join(Quoted(words), " "), QuoteOrSpace) == Join(words, " ")
  {
    var value := Join(words, " ");
    JoinQuoted(words);
    JoinFirstLast(words, " ");
    var last := words[|words| - 1];
    assert value[0] == words[0][0] && value[0] in words[0];
    assert value[|value| - 1] == last[|last| - 1] && value[|value| - 1] in last;
    assert value[0] !in QuoteOrSpace && value[|value| - 1] !in QuoteOrSpace;
    TrimPadded(['\''], value, ['\''], QuoteOrSpace);
  }

  /** A clause written in the form `<field> <op> '<value>'`, with field and operator
      free of white space and the value a run of words separated by single spaces, that neither
      starts nor ends with a quote, parses back to that field, operator and value. */
  lemma ClauseRoundTrip(field: string, operation: string, words: seq<string>)
    requires field != [] && operation != []
    requires forall i :: 0 <= i < |field| ==> field[i] !in WhiteSpace
    requires forall i :: 0 <= i < |operation| ==> operation[i] !in WhiteSpace
    requires |words| >= 1
    requires forall i :: 0 <= i < |words| ==> words[i] != [] && ' ' !in words[i]
    requires words[0][0] != '\'' && words[|words| - 1][|words[|words| - 1]| - 1] != '\''
    ensures ParseSegment(field + " " + operation + " '" + Join(words, " ") + "'")
         == Some(RawClause(field, operation, Join(words, " ")))
  {
    NoSpace(field);
    NoSpace(operation);
    SegmentTokens(field, operation, words);
    HeadTwo(field, operation, Quoted(words));
    TrimToken(field);
    TrimToken(operation);
    TrimQuotedValue(words);
  }

  /** A join of non-empty words starts with the first word's first character and ends with the
      last word's last character. */
  lemma {:induction false} JoinFirstLast(words: seq<string>, sep: string)
    requires |words| >= 1 && forall i :: 0 <= i < |words| ==> words[i] != []
    ensures var s := Join(words, sep);
      s != [] && s[0] == words[0][0] && s[|s| - 1] == words[|words| - 1][|words[|words| - 1]| - 1]
    decreases |words|
  {
    if |words| > 1 {
      JoinFirstLast(words[1..], sep);
    }
  }

  /** The expression-building half of `ApplyFilterOperation`: the property is looked up first,
      then the value converted, then the operator chosen, so the first of these to fail is the
      error reported, whatever the later ones would do. */
  function BuildClause(schema: Schema, raw: RawClause): (r: Result<Clause, Error>)
    ensures r.Ok? <==>
      raw.property in schema.fields && schema.convert(raw.property, raw.value).Some?
      && ParseOperator(raw.operation).Some?
    ensures r.Ok? ==>
      r.value.field == raw.property && Some(r.value.op) == ParseOperator(raw.operation)
      && Some(r.value.operand) == schema.convert(raw.property, raw.value)
    ensures raw.property !in schema.fields ==> r == Err(UnknownProperty(raw.property))
    ensures raw.property in schema.fields && schema.convert(raw.property, raw.value).None? ==>
      r == Err(ConversionFailed(raw.property, raw.value))
    ensures (raw.property in schema.fields && schema.convert(raw.property, raw.value).Some?
      && ParseOperator(raw.operation).None?) ==> r == Err(UnsupportedOperation(raw.operation))
  {
    if raw.property !in schema.fields then Err(UnknownProperty(raw.property))
    else
      match schema.convert(raw.property, raw.value)
      case None => Err(ConversionFailed(raw.property, raw.value))
      case Some(operand) =>
        match ParseOperator(raw.operation)
        case None => Err(UnsupportedOperation(raw.operation))
        case Some(op) => Ok(Clause(raw.property, op, operand))
  }

  /** The predicate a clause stands for. Only records of the queried type reach it, and they
      all have the clause's field. */
  predicate Holds(c: Clause, rec: Record)
  {
    c.field in rec && Compare(c.op, rec[c.field], c.operand)
  }

  predicate SatisfiesAll(cs: seq<Clause>, rec: Record)
  {
    forall i :: 0 <= i < |cs| ==> Holds(cs[i], rec)
  }

  /** `query.Where(e => e.field op operand)`. */
  function Where(q: seq<Record>, c: Clause): (r: seq<Record>)
    ensures |r| <= |q|
    ensures forall x :: x in r ==> x in q && Holds(c, x)
    decreases |q|
  {
    if q == [] then []
    else
      var rest := Where(q[1..], c);
      if Holds(c, q[0]) then [q[0]] + rest else rest
  }

  /** The records of `q` that satisfy every clause of `cs`, in their order in `q`. */
  function WhereAll(q: seq<Record>, cs: seq<Clause>): (r: seq<Record>)
    ensures |r| <= |q|
    ensures forall x :: x in r ==> x in q && SatisfiesAll(cs, x)
    decreases |q|
  {
    if q == [] then []
    else
      var rest := WhereAll(q[1..], cs);
      if SatisfiesAll(cs, q[0]) then [q[0]] + rest else rest
  }

  /** `WhereAll` keeps exactly the satisfying records: it is a subsequence of `q`, and each
      record occurs in it as often as in `q` if it satisfies every clause, and not at all
      otherwise. */
  lemma {:induction false} WhereAllExact(q: seq<Record>, cs: seq<Clause>)
    ensures IsSubsequence(WhereAll(q, cs), q)
    ensures forall x :: multiset(WhereAll(q, cs))[x] == if SatisfiesAll(cs, x) then multiset(q)[x] else 0
    decreases |q|
  {
    if q != [] {
      WhereAllExact(q[1..], cs);
      assert q == [q[0]] + q[1..];
      var r := WhereAll(q, cs);
      var rest := WhereAll(q[1..], cs);
      if SatisfiesAll(cs, q[0]) {
        assert r[0] == q[0] && r[1..] == rest;
      } else {
        SubsequenceOfTail(r, q);
      }
    }
  }

  /** One more clause narrows the records that satisfied the earlier ones. */
  lemma {:induction false} WhereAllSnoc(q: seq<Record>, cs: seq<Clause>, c: Clause)
    ensures Where(WhereAll(q, cs), c) == WhereAll(q, cs + [c])
    decreases |q|
  {
    if q != [] {
      WhereAllSnoc(q[1..], cs, c);
      assert SatisfiesAll(cs + [c], q[0]) <==> SatisfiesAll(cs, q[0]) && Holds(c, q[0]) by {
        assert forall i :: 0 <= i < |cs| ==> (cs + [c])[i] == cs[i];
        assert (cs + [c])[|cs|] == c;
      }
      var rest := WhereAll(q[1..], cs);
      if SatisfiesAll(cs, q[0]) {
        assert ([q[0]] + rest)[1..] == rest;
      }
    }
  }

  /** Filtering by one list of clauses and then by another is filtering by both. */
  lemma {:induction false} WhereAllAppend(q: seq<Record>, a: seq<Clause>, b: seq<Clause>)
    ensures WhereAll(WhereAll(q, a), b) == WhereAll(q, a + b)
    decreases |q|
  {
    if q != [] {
      WhereAllAppend(q[1..], a, b);
      assert SatisfiesAll(a + b, q[0]) <==> SatisfiesAll(a, q[0]) && SatisfiesAll(b, q[0]) by {
        assert forall i :: 0 <= i < |a| ==> (a + b)[i] == a[i];
        assert forall i :: 0 <= i < |b| ==> (a + b)[|a| + i] == b[i];
      }
      var rest := WhereAll(q[1..], a);
      if SatisfiesAll(a, q[0]) {
        assert ([q[0]] + rest)[1..] == rest;
      }
    }
  }

  lemma {:induction false} WhereAllNothing(q: seq<Record>)
    ensures WhereAll(q, []) == q
    decreases |q|
  {
    if q != [] {
      WhereAllNothing(q[1..]);
    }
  }

  /** `ApplyFilterOperation`: build the clause's predicate, then narrow the query with it. The
      outcome, error or not, depends on the text and the record type only, never on the
      records; on success the records kept are those that satisfy the predicate, in their
      order in the query and each as often as there. */
  function ApplyFilterOperation(schema: Schema, q: seq<Record>, raw: RawClause): (r: Result<seq<Record>, Error>)
    ensures r.Err? <==> BuildClause(schema, raw).Err?
    ensures r.Err? ==> r.error == BuildClause(schema, raw).error
    ensures r.Ok? ==> forall x :: x in r.value ==> x in q && Holds(BuildClause(schema, raw).value, x)
    ensures r.Ok? ==> forall x :: x in q && Holds(BuildClause(schema, raw).value, x) ==> x in r.value
    ensures r.Ok? ==> IsSubsequence(r.value, q)
    ensures r.Ok? ==> forall x ::
      multiset(r.value)[x] == if Holds(BuildClause(schema, raw).value, x) then multiset(q)[x] else 0
  {
    match BuildClause(schema, raw)
    case Err(e) => Err(e)
    case Ok(c) =>
      WhereKeeps(q, c);
      WhereExact(q, c);
      Ok(Where(q, c))
  }

  /** `Where` keeps exactly the satisfying records: it is a subsequence of `q`, and each record
      occurs in it as often as in `q` if it satisfies the clause, and not at all otherwise. */
  lemma {:induction false} WhereExact(q: seq<Record>, c: Clause)
    ensures IsSubsequence(Where(q, c), q)
    ensures forall x :: multiset(Where(q, c))[x] == if Holds(c, x) then multiset(q)[x] else 0
    decreases |q|
  {
    if q != [] {
      WhereExact(q[1..], c);
      assert q == [q[0]] + q[1..];
      var r := Where(q, c);
      var rest := Where(q[1..], c);
      if Holds(c, q[0]) {
        assert r[0] == q[0] && r[1..] == rest;
      } else {
        SubsequenceOfTail(r, q);
      }
    }
  }

  lemma {:induction false} WhereKeeps(q: seq<Record>, c: Clause)
    ensures forall x :: x in q && Holds(c, x) ==> x in Where(q, c)
    decreases |q|
  {
    if q != [] {
      WhereKeeps(q[1..], c);
      assert forall x :: x in q ==> x == q[0] || x in q[1..];
    }
  }

  /** The clauses of a list of segments, in order; segments with fewer than three tokens add
      none. */
  function Clauses(segments: seq<string>): (r: seq<RawClause>)
    ensures |r| <= |segments|
    decreases |segments|
  {
    if segments == [] then []
    else Clauses(segments[..|segments| - 1]) + SegmentClauses(segments[|segments| - 1])
  }

  /** The clause of one segment, if it has one. */
  function SegmentClauses(segment: string): (r: seq<RawClause>)
    ensures |r| <= 1
  {
    match ParseSegment(segment)
    case None => []
    case Some(c) => [c]
  }

  lemma {:induction false} ClausesAppend(a: seq<string>, b: seq<string>)
    ensures Clauses(a + b) == Clauses(a) + Clauses(b)
    decreases |b|
  {
    if b == [] {
      AppendEmpty(a);
    } else {
      var init, last := b[..|b| - 1], b[|b| - 1];
      AppendInit(a, b);
      ClausesAppend(a, init);
      assert Clauses(a + b) == Clauses(a + init) + SegmentClauses(last);
      assert Clauses(b) == Clauses(init) + SegmentClauses(last);
      AppendAssoc(Clauses(a), Clauses(init), SegmentClauses(last));
    }
  }

  /** The clauses built left to right; the first that fails is the error. */
  function CompileAll(schema: Schema, raws: seq<RawClause>): (r: Result<seq<Clause>, Error>)
    ensures r.Ok? ==> |r.value| == |raws|
    decreases |raws|
  {
    if raws == [] then Ok([])
    else
      match CompileAll(schema, raws[..|raws| - 1])
      case Err(e) => Err(e)
      case Ok(cs) =>
        match BuildClause(schema, raws[|raws| - 1])
        case Err(e) => Err(e)
        case Ok(c) => Ok(cs + [c])
  }

  lemma {:induction false} CompileAllAppend(schema: Schema, a: seq<RawClause>, b: seq<RawClause>)
    ensures CompileAll(schema, a + b) ==
      match CompileAll(schema, a)
      case Err(e) => Err(e)
      case Ok(ca) =>
        match CompileAll(schema, b)
        case Err(e) => Err(e)
        case Ok(cb) => Ok(ca + cb)
    decreases |b|
  {
    if b == [] {
      AppendEmpty(a);
      match CompileAll(schema, a)
      case Err(e) =>
      case Ok(ca) => AppendEmpty(ca);
    } else {
      var n := |b|;
      AppendInit(a, b);
      CompileAllAppend(schema, a, b[..n - 1]);
      match CompileAll(schema, a)
      case Err(e) =>
      case Ok(ca) =>
        match CompileAll(schema, b[..n - 1])
        case Err(e) =>
        case Ok(cb) =>
          match BuildClause(schema, b[n - 1])
          case Err(e) =>
          case Ok(c) => AppendAssoc(ca, cb, [c]);
    }
  }

  /** What `ApplyFilters` computes: the query narrowed by every clause of the filter, or the
      first clause's error. */
  function Filtered(schema: Schema, q: seq<Record>, filter: string): (r: Result<seq<Record>, Error>)
    ensures r.Ok? ==> |r.value| <= |q| && forall x :: x in r.value ==> x in q
  {
    match CompileAll(schema, Clauses(Split(filter, ';')))
    case Err(e) => Err(e)
    case Ok(cs) => Ok(WhereAll(q, cs))
  }

  /** The filtered query keeps exactly the records that satisfy every clause, in their
      original order, each as often as in the source. */
  lemma FilteredExact(schema: Schema, q: seq<Record>, filter: string)
    requires Filtered(schema, q, filter).Ok?
    ensures var cs := CompileAll(schema, Clauses(Split(filter, ';'))).value;
      var r := Filtered(schema, q, filter).value;
      && IsSubsequence(r, q)
      && (forall x :: x in r ==> SatisfiesAll(cs, x))
      && (forall x :: multiset(r)[x] == if SatisfiesAll(cs, x) then multiset(q)[x] else 0)
  {
    WhereAllExact(q, CompileAll(schema, Clauses(Split(filter, ';'))).value);
  }

  /** Clauses joined by `;` are combined with AND, left to right: filtering by `a;b` is
      filtering by `a` and then by `b`, and an error in `a` is reported before any in `b`. */
  lemma FilterConjunction(schema: Schema, q: seq<Record>, a: string, b: string)
    ensures Filtered(schema, q, a + ";" + b) ==
      match Filtered(schema, q, a)
      case Err(e) => Err(e)
      case Ok(qa) => Filtered(schema, qa, b)
  {
    SplitAppend(a, b, ';');
    var sa, sb := Split(a, ';'), Split(b, ';');
    ClausesAppend(sa, sb);
    CompileAllAppend(schema, Clauses(sa), Clauses(sb));
    match CompileAll(schema, Clauses(sa))
    case Err(e) =>
    case Ok(ca) =>
      match CompileAll(schema, Clauses(sb))
      case Err(e) =>
      case Ok(cb) => WhereAllAppend(q, ca, cb);
  }

  /** A segment without `;` that has fewer than three tokens changes nothing: on its own it
      leaves the query as it is, and after other clauses it leaves their result. */
  lemma ShortSegmentIgnored(schema: Schema, q: seq<Record>, a: string, segment: string)
    requires ';' !in segment
    requires |Split(segment, ' ')| < 3
    ensures Filtered(schema, q, segment) == Ok(q)
    ensures Filtered(schema, q, a + ";" + segment) == Filtered(schema, q, a)
  {
    if segment == [] {
      SplitOnlySeparators(segment, ';');
    } else {
      SplitJoin([segment], ';');
      assert Clauses([segment]) == Clauses([]) + [];
    }
    WhereAllNothing(q);
    FilterConjunction(schema, q, a, segment);
    match Filtered(schema, q, a)
    case Err(e) =>
    case Ok(qa) => WhereAllNothing(qa);
  }

  /** A filter of one clause, without `;`, filters by that clause alone, or fails with the
      error building it raises. */
  lemma SingleClause(schema: Schema, q: seq<Record>, segment: string, raw: RawClause)
    requires ';' !in segment && ParseSegment(segment) == Some(raw)
    ensures BuildClause(schema, raw).Err? ==>
      Filtered(schema, q, segment) == Err(BuildClause(schema, raw).error)
    ensures BuildClause(schema, raw).Ok? ==>
      Filtered(schema, q, segment) == Ok(Where(q, BuildClause(schema, raw).value))
  {
    SegmentNonEmpty(segment);
    SingleSegment(segment, ';');
    SingleClauses(segment, raw);
    CompileOne(schema, raw);
    if BuildClause(schema, raw).Ok? {
      var c := BuildClause(schema, raw).value;
      WhereAllNothing(q);
      WhereAllSnoc(q, [], c);
      assert [] + [c] == [c];
    }
  }

  lemma SegmentNonEmpty(segment: string)
    requires ParseSegment(segment).Some?
    ensures segment != []
  {
    if segment == [] {
      SplitOnlySeparators(segment, ' ');
    }
  }

  lemma SingleSegment(segment: string, sep: char)
    requires segment != [] && sep !in segment
    ensures Split(segment, sep) == [segment]
  {
    SplitJoin([segment], sep);
  }

  lemma SingleClauses(segment: string, raw: RawClause)
    requires ParseSegment(segment) == Some(raw)
    ensures Clauses([segment]) == [raw]
  {
    assert [segment][..0] == [];
  }

  lemma CompileOne(schema: Schema, raw: RawClause)
    ensures BuildClause(schema, raw).Err? ==> CompileAll(schema, [raw]) == Err(BuildClause(schema, raw).error)
    ensures BuildClause(schema, raw).Ok? ==> CompileAll(schema, [raw]) == Ok([BuildClause(schema, raw).value])
  {
    assert [raw][..0] == [];
    assert CompileAll(schema, []) == Ok([]);
    if BuildClause(schema, raw).Ok? {
      assert [] + [BuildClause(schema, raw).value] == [BuildClause(schema, raw).value];
    }
  }

  lemma ClausesSnoc(segments: seq<string>, i: nat)
    requires i < |segments|
    ensures Clauses(segments[..i + 1]) == Clauses(segments[..i]) + SegmentClauses(segments[i])
  {
    var prefix := segments[..i + 1];
    assert prefix[..i] == segments[..i];
    assert prefix[i] == segments[i];
  }

  lemma CompileAllSnoc(schema: Schema, raws: seq<RawClause>, raw: RawClause)
    ensures CompileAll(schema, raws + [raw]) ==
      match CompileAll(schema, raws)
      case Err(e) => Err(e)
      case Ok(cs) =>
        match BuildClause(schema, raw)
        case Err(e) => Err(e)
        case Ok(c) => Ok(cs + [c])
  {
    assert (raws + [raw])[..|raws|] == raws;
  }

  /** Once a clause fails, later clauses do not change the error. */
  lemma {:induction false} CompileAllKeepsError(schema: Schema, a: seq<RawClause>, b: seq<RawClause>, e: Error)
    requires CompileAll(schema, a) == Err(e)
    ensures CompileAll(schema, a + b) == Err(e)
    decreases |b|
  {
    if b == [] {
      AppendEmpty(a);
    } else {
      CompileAllKeepsError(schema, a, b[..|b| - 1], e);
      AppendInit(a, b);
    }
  }

  /** Once a clause fails, so does the whole filter, with that clause's error. */
  lemma FilterStepFails(schema: Schema, filters: seq<string>, i: nat, e: Error)
    requires i < |filters|
    requires CompileAll(schema, Clauses(filters[..i + 1])) == Err(e)
    ensures CompileAll(schema, Clauses(filters)) == Err(e)
  {
    var prefix, suffix := filters[..i + 1], filters[i + 1..];
    TakeDrop(filters, i + 1);
    ClausesAppend(prefix, suffix);
    CompileAllKeepsError(schema, Clauses(prefix), Clauses(suffix), e);
  }

  /** `ApplyFilters`: for each non-empty `;`-segment with at least three tokens, apply its
      clause to the query built so far. */
  method ApplyFilters(schema: Schema, query: seq<Record>, filter: string) returns (r: Result<seq<Record>, Error>)
    ensures r == Filtered(schema, query, filter)
  {
    var filters := Split(filter, ';');
    var q := query;
    ghost var built: seq<Clause> := [];
    WhereAllNothing(query);
    assert filters[..0] == [];
    for i := 0 to |filters|
      invariant CompileAll(schema, Clauses(filters[..i])) == Ok(built)
      invariant q == WhereAll(query, built)
    {
      ClausesSnoc(filters, i);
      var parsed := ParseSegment(filters[i]);
      if parsed.None? {
        assert Clauses(filters[..i]) + [] == Clauses(filters[..i]);
      } else {
        CompileAllSnoc(schema, Clauses(filters[..i]), parsed.value);
        var next := ApplyFilterOperation(schema, q, parsed.value);
        if next.Err? {
          FilterStepFails(schema, filters, i, next.error);
          return Err(next.error);
        }
        var c := BuildClause(schema, parsed.value).value;
        WhereAllSnoc(query, built, c);
        built := built + [c];
        q := next.value;
      }
    }
    assert filters[..|filters|] == filters;
    return Ok(q);
  }
}
