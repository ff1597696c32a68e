/**
 * `QueryableExtensions.GetPaginatedAsync`: filter the query when a filter is given, order it
 * when an order is given, count it, and cut out the requested page.
 */
module QueryableExtensions {
  import opened Wrappers
  import opened Text
  import opened Models
  import opened Records
  import opened Seqs
  import opened Filtering
  import opened Ordering
  import opened Paging

  /** `string.IsNullOrEmpty`: a null string, or one without a character. */
  predicate IsNullOrEmpty(s: Option<string>): (r: bool)
    ensures r <==> s.Some? ==> |s.value| == 0
  {
    s.None? || s.value == []
  }

  /** Filtering keeps records of the source only, so the result is still of the record type. */
  lemma FilteredConforms(schema: Schema, q: seq<Record>, filter: string)
    requires Conforms(schema, q) && Filtered(schema, q, filter).Ok?
    ensures Conforms(schema, Filtered(schema, q, filter).value)
  {
    var r := Filtered(schema, q, filter).value;
    forall i | 0 <= i < |r|
      ensures schema.fields <= r[i].Keys
    {
      assert r[i] in r;
    }
  }

  /** The query after the filter stage: the source when the filter is null or empty, else the
      source narrowed by the filter. */
  function FilterStage(schema: Schema, source: seq<Record>, filter: Option<string>): (r: Result<seq<Record>, Error>)
    requires Conforms(schema, source)
    ensures r.Ok? ==> Conforms(schema, r.value) && |r.value| <= |source|
    ensures r.Ok? ==> forall x :: x in r.value ==> x in source
  {
    if IsNullOrEmpty(filter) then Ok(source)
    else
      var f := Filtered(schema, source, filter.value);
      if f.Ok? then
        FilteredConforms(schema, source, filter.value);
        f
      else f
  }

  /** The query after the order stage: unchanged when the order is null or empty; else it
      succeeds exactly when the order names a property of the record type, and is then the
      query sorted, stably, on that property in the named direction. */
  function OrderStage(schema: Schema, q: seq<Record>, orderBy: Option<string>): (r: Result<seq<Record>, Error>)
    requires Conforms(schema, q)
    ensures IsNullOrEmpty(orderBy) ==> r == Ok(q)
    ensures !IsNullOrEmpty(orderBy) ==>
      (r.Ok? <==> ParseOrderBy(orderBy.value).Ok? && ParseOrderBy(orderBy.value).value.property in schema.fields)
    ensures r.Ok? ==> |r.value| == |q| && multiset(r.value) == multiset(q)
    ensures r.Ok? && !IsNullOrEmpty(orderBy) ==>
      var key := ParseOrderBy(orderBy.value).value;
      && HasField(r.value, key.property) && HasField(q, key.property)
      && SortedBy(r.value, key.property, key.direction)
      && forall v :: WithKey(r.value, key.property, v) == WithKey(q, key.property, v)
  {
    if IsNullOrEmpty(orderBy) then Ok(q) else ApplyOrderBy(schema, q, orderBy.value)
  }

  /** The query that is counted and paged: the filter stage, then the order stage; an error
      of the filter is raised before the order is looked at. */
  function Query(schema: Schema, source: seq<Record>, request: PaginatedRequest): (r: Result<seq<Record>, Error>)
    requires Conforms(schema, source)
    ensures r.Ok? ==> |r.value| <= |source|
    ensures r.Ok? ==> forall x :: x in r.value ==> x in source
  {
    match FilterStage(schema, source, request.filter)
    case Err(e) => Err(e)
    case Ok(q) =>
      var o := OrderStage(schema, q, request.orderBy);
      assert o.Ok? ==> forall x :: x in o.value ==> x in multiset(q);
      o
  }

  /** `GetPaginatedAsync`. Each stage runs only when its string is neither null nor empty;
      `Count()` of more records than an `int` holds overflows. The response holds the page
      the source cuts out at its 32-bit offset, which is page `PageNumber` of the query while
      that offset fits in an `int`; the query's count, its page count, and the request's page
      number and size. */
  method GetPaginated(schema: Schema, source: seq<Record>, request: PaginatedRequest)
    returns (r: Result<PaginatedResponse<Record>, Error>)
    requires Conforms(schema, source)
    requires request.pageSize != 0
    ensures Query(schema, source, request).Err? ==> r == Err(Query(schema, source, request).error)
    ensures Query(schema, source, request).Ok? && |Query(schema, source, request).value| > MaxInt32 ==>
      r == Err(CountOverflow)
    ensures Query(schema, source, request).Ok? && |Query(schema, source, request).value| <= MaxInt32 ==>
      var q := Query(schema, source, request).value;
      && r.Ok?
      && r.value.data == PageSliceAsWritten(q, request.pageNumber, request.pageSize)
      && (MinInt32 <= (request.pageNumber - 1) * request.pageSize <= MaxInt32 ==>
            r.value.data == PageSlice(q, request.pageNumber, request.pageSize))
      && r.value.totalRecords == |q|
      && r.value.totalPages == CeilDiv(|q|, request.pageSize)
      && r.value.pageNumber == request.pageNumber
      && r.value.pageSize == request.pageSize
    ensures r.Ok? ==> |r.value.data| <= if request.pageSize > 0 then request.pageSize else 0
  {
    var query := source;
    if !IsNullOrEmpty(request.filter) {
      var filtered := ApplyFilters(schema, query, request.filter.value);
      if filtered.Err? {
        return Err(filtered.error);
      }
      FilteredConforms(schema, query, request.filter.value);
      query := filtered.value;
    }
    assert FilterStage(schema, source, request.filter) == Ok(query);
    if !IsNullOrEmpty(request.orderBy) {
      var ordered := ApplyOrderBy(schema, query, request.orderBy.value);
      if ordered.Err? {
        return Err(ordered.error);
      }
      query := ordered.value;
    }
    assert Query(schema, source, request) == Ok(query);
    r := Paginate(query, request);
  }

  /** The count and the page of the filtered and ordered query: `Count()` of more records than
      an `int` holds overflows; otherwise the response holds the page the source cuts out at
      its 32-bit offset, which is page `PageNumber` while that offset fits in an `int`, at most
      `PageSize` records; the count, the page count, and the request's page number and size. */
  method Paginate(query: seq<Record>, request: PaginatedRequest)
    returns (r: Result<PaginatedResponse<Record>, Error>)
    requires request.pageSize != 0
    ensures |query| > MaxInt32 ==> r == Err(CountOverflow)
    ensures |query| <= MaxInt32 ==>
      && r.Ok?
      && r.value.data == PageSliceAsWritten(query, request.pageNumber, request.pageSize)
      && (MinInt32 <= (request.pageNumber - 1) * request.pageSize <= MaxInt32 ==>
            r.value.data == PageSlice(query, request.pageNumber, request.pageSize))
      && r.value.totalRecords == |query|
      && r.value.totalPages == CeilDiv(|query|, request.pageSize)
      && r.value.pageNumber == request.pageNumber
      && r.value.pageSize == request.pageSize
    ensures r.Ok? ==> |r.value.data| <= if request.pageSize > 0 then request.pageSize else 0
  {
    if |query| > MaxInt32 {
      return Err(CountOverflow);
    }
    var totalRecords := |query|;
    var data := PageSliceAsWritten(query, request.pageNumber, request.pageSize);
    if MinInt32 <= (request.pageNumber - 1) * request.pageSize <= MaxInt32 {
      AsWrittenAgrees(query, request.pageNumber, request.pageSize);
    }
    CeilDivBounds(totalRecords, request.pageSize);
    var totalPages := CeilDiv(totalRecords, request.pageSize);
    r := Ok(PaginatedResponse(data, totalRecords, totalPages, request.pageNumber, request.pageSize));
  }

  /** A filter or order that is the empty string is treated as a null one. */
  lemma EmptyIsNull(schema: Schema, source: seq<Record>, request: PaginatedRequest)
    requires Conforms(schema, source)
    ensures Query(schema, source, request.(filter := Some(""))) == Query(schema, source, request.(filter := None))
    ensures Query(schema, source, request.(orderBy := Some(""))) == Query(schema, source, request.(orderBy := None))
  {
  }

  /** Without filter and order the query is the source itself, in its own order. */
  lemma NoOptionsKeepsSource(schema: Schema, source: seq<Record>, request: PaginatedRequest)
    requires Conforms(schema, source)
    requires IsNullOrEmpty(request.filter) && IsNullOrEmpty(request.orderBy)
    ensures Query(schema, source, request) == Ok(source)
  {
  }

  /** `TotalRecords` counts the records that satisfy every clause of the filter, each as often
      as it occurs in the source: ordering changes the order of the filtered query but not its
      contents. */
  lemma QueryContents(schema: Schema, source: seq<Record>, request: PaginatedRequest)
    requires Conforms(schema, source) && Query(schema, source, request).Ok?
    requires !IsNullOrEmpty(request.filter)
    ensures var cs := CompileAll(schema, Clauses(Split(request.filter.value, ';'))).value;
      var q := Query(schema, source, request).value;
      && CompileAll(schema, Clauses(Split(request.filter.value, ';'))).Ok?
      && (forall x :: multiset(q)[x] == if SatisfiesAll(cs, x) then multiset(source)[x] else 0)
      && |q| == |Filtered(schema, source, request.filter.value).value|
  {
    FilteredExact(schema, source, request.filter.value);
  }

  /** With an order given, the query comes out sorted on the property it names, in the
      direction it names. */
  lemma QuerySorted(schema: Schema, source: seq<Record>, request: PaginatedRequest)
    requires Conforms(schema, source) && Query(schema, source, request).Ok?
    requires !IsNullOrEmpty(request.orderBy)
    ensures var key := ParseOrderBy(request.orderBy.value).value;
      var q := Query(schema, source, request).value;
      && ParseOrderBy(request.orderBy.value).Ok?
      && HasField(q, key.property)
      && SortedBy(q, key.property, key.direction)
  {
  }

  /** An order of spaces only gets past the null-or-empty guard and fails on the missing
      token, once the filter has succeeded. */
  lemma SpacesOnlyOrderFails(schema: Schema, source: seq<Record>, request: PaginatedRequest)
    requires Conforms(schema, source)
    requires request.orderBy.Some? && request.orderBy.value != []
    requires forall i :: 0 <= i < |request.orderBy.value| ==> request.orderBy.value[i] == ' '
    requires FilterStage(schema, source, request.filter).Ok?
    ensures Query(schema, source, request) == Err(IndexOutOfRange)
  {
    SpacesOnlyOrderBy(request.orderBy.value);
  }

  /** Twenty-five records, page 2 of 10: records 11 to 20, 25 records on 3 pages. */
  lemma SecondPageOfTwentyFive(schema: Schema, source: seq<Record>)
    requires Conforms(schema, source) && |source| == 25
    ensures Query(schema, source, PaginatedRequest(None, None, 2, 10)) == Ok(source)
    ensures PageSlice(source, 2, 10) == source[10..20]
    ensures CeilDiv(25, 10) == 3
  {
  }

  /** A filter of one segment with fewer than three tokens is dropped: the result is that of
      no filter at all. */
  lemma MalformedClauseDropped(schema: Schema, source: seq<Record>, request: PaginatedRequest, segment: string)
    requires Conforms(schema, source)
    requires ';' !in segment && |Split(segment, ' ')| < 3
    ensures Query(schema, source, request.(filter := Some(segment)))
         == Query(schema, source, request.(filter := None))
  {
    ShortSegmentIgnored(schema, source, [], segment);
  }

  /** The one-token filter `BadClauseWithTwoTokens` has no effect. */
  lemma BadClauseDropped(schema: Schema, source: seq<Record>, request: PaginatedRequest, filter: string)
    requires Conforms(schema, source) && filter == "BadClauseWithTwoTokens"
    ensures Query(schema, source, request.(filter := Some(filter)))
         == Query(schema, source, request.(filter := None))
  {
    OneWord(filter);
    SingleSegment(filter, ' ');
    MalformedClauseDropped(schema, source, request, filter);
  }

  lemma OneWord(filter: string)
    requires filter == "BadClauseWithTwoTokens"
    ensures filter != [] && ' ' !in filter && ';' !in filter
  {
    PlainWord(filter);
  }

  /** Ordering by a property the record type lacks fails, once the filter has succeeded. */
  lemma UnknownOrderProperty(schema: Schema, source: seq<Record>, request: PaginatedRequest, field: string)
    requires Conforms(schema, source) && field !in schema.fields
    requires field != [] && ' ' !in field
    requires FilterStage(schema, source, request.filter).Ok?
    ensures Query(schema, source, request.(orderBy := Some(field))) == Err(UnknownProperty(field))
  {
    OrderByRoundTrip(field, "");
  }

  /** A clause `<field> <operation> '<value>'` whose operation is none of the six fails, when
      the field is a property and the value converts to its type. */
  lemma UnknownOperator(schema: Schema, source: seq<Record>, request: PaginatedRequest,
                        field: string, operation: string, value: string)
    requires Conforms(schema, source)
    requires field != [] && operation != [] && value != []
    requires forall i :: 0 <= i < |field| ==> field[i] !in WhiteSpace && field[i] != ';'
    requires forall i :: 0 <= i < |operation| ==> operation[i] !in WhiteSpace && operation[i] != ';'
    requires forall i :: 0 <= i < |value| ==> value[i] !in QuoteOrSpace && value[i] != ';'
    requires field in schema.fields && schema.convert(field, value).Some?
    requires ParseOperator(operation).None?
    ensures Query(schema, source, request.(filter := Some(field + " " + operation + " '" + value + "'")))
         == Err(UnsupportedOperation(operation))
  {
    var segment := OneClause(field, operation, value);
    SingleClause(schema, source, segment, RawClause(field, operation, value));
  }

  /** The clause form parses back to its parts. */
  lemma OneClause(field: string, operation: string, value: string) returns (segment: string)
    requires field != [] && operation != [] && value != []
    requires forall i :: 0 <= i < |field| ==> field[i] !in WhiteSpace && field[i] != ';'
    requires forall i :: 0 <= i < |operation| ==> operation[i] !in WhiteSpace && operation[i] != ';'
    requires forall i :: 0 <= i < |value| ==> value[i] !in QuoteOrSpace && value[i] != ';'
    ensures segment == field + " " + operation + " '" + value + "'"
    ensures ';' !in segment
    ensures ParseSegment(segment) == Some(RawClause(field, operation, value))
  {
    segment := field + " " + operation + " '" + value + "'";
    ClauseRoundTrip(field, operation, [value]);
    assert Join([value], " ") == value;
    assert ';' !in field && ';' !in operation && ';' !in value;
    AbsentFromClause(';', field, operation, value);
  }

  lemma AbsentFromClause(c: char, field: string, operation: string, value: string)
    requires c !in field && c !in operation && c !in value && c != ' ' && c != '\''
    ensures c !in field + " " + operation + " '" + value + "'"
  {
  }

  /** `Age xx '5'` fails on its operator, when `Age` is a property and `5` converts to it. */
  lemma AgeXxFails(schema: Schema, source: seq<Record>, request: PaginatedRequest,
                   field: string, operation: string, value: string)
    requires Conforms(schema, source)
    requires field == "Age" && operation == "xx" && value == "5"
    requires field in schema.fields && schema.convert(field, value).Some?
    ensures Query(schema, source, request.(filter := Some(field + " " + operation + " '" + value + "'")))
         == Err(UnsupportedOperation(operation))
  {
    UnknownOperator(schema, source, request, field, operation, value);
  }

  /** The records whose field is at least `n`, by descending field. */
  function HighestAtLeast(source: seq<Record>, field: string, n: int): seq<Record>
    requires HasField(source, field)
  {
    var matching := Where(source, Clause(field, Ge, n));
    WhereHasField(source, Clause(field, Ge, n), field);
    SortBy(matching, field, Descending)
  }

  lemma WhereHasField(q: seq<Record>, c: Clause, field: string)
    requires HasField(q, field)
    ensures HasField(Where(q, c), field)
  {
    var r := Where(q, c);
    forall i | 0 <= i < |r|
      ensures field in r[i]
    {
      assert r[i] in r;
    }
  }

  lemma HighestAtLeastContents(source: seq<Record>, field: string, n: int)
    requires HasField(source, field)
    ensures var q := HighestAtLeast(source, field, n);
      && HasField(q, field)
      && (forall x :: x in q ==> x in source && x[field] >= n)
      && (forall x :: x in source && field in x && x[field] >= n ==> x in q)
      && SortedBy(q, field, Descending)
      && PageSlice(q, 1, 5) == q[..Clamp(5, |q|)]
      && (forall i, j :: 0 <= i < 5 <= j < |q| ==> q[i][field] >= q[j][field])
  {
    var c := Clause(field, Ge, n);
    var matching := Where(source, c);
    var sorted := HighestAtLeast(source, field, n);
    WhereHasField(source, c, field);
    SortBySorted(matching, field, Descending);
    WhereKeeps(source, c);
    forall x | x in sorted
      ensures x in source && x[field] >= n
    {
      assert x in multiset(matching);
      assert Holds(c, x);
    }
    forall x | x in source && field in x && x[field] >= n
      ensures x in sorted
    {
      assert Holds(c, x);
      assert x in multiset(sorted);
    }
  }

  /** The query of a `<field> <ge> '<value>'` filter and a `<field> <desc>` order. */
  lemma HighestQuery(schema: Schema, source: seq<Record>, request: PaginatedRequest,
                     field: string, operation: string, value: string, direction: string, n: int)
    requires Conforms(schema, source)
    requires field != [] && operation != [] && value != [] && direction != []
    requires forall i :: 0 <= i < |field| ==> field[i] !in WhiteSpace && field[i] != ';'
    requires forall i :: 0 <= i < |operation| ==> operation[i] !in WhiteSpace && operation[i] != ';'
    requires forall i :: 0 <= i < |value| ==> value[i] !in QuoteOrSpace && value[i] != ';'
    requires ' ' !in direction
    requires ParseOperator(operation) == Some(Ge) && ToLower(direction) == "desc"
    requires field in schema.fields && schema.convert(field, value) == Some(n)
    requires request.filter == Some(field + " " + operation + " '" + value + "'")
    requires request.orderBy == Some(field + " " + direction)
    ensures HasField(source, field)
    ensures Query(schema, source, request) == Ok(HighestAtLeast(source, field, n))
  {
    ConformsHasField(schema, source, field);
    GeFilter(schema, source, field, operation, value, n);
    var matching := Where(source, Clause(field, Ge, n));
    assert FilterStage(schema, source, request.filter) == Ok(matching);
    OrderByRoundTrip(field, direction);
  }

  lemma GeFilter(schema: Schema, source: seq<Record>, field: string, operation: string, value: string, n: int)
    requires field != [] && operation != [] && value != []
    requires forall i :: 0 <= i < |field| ==> field[i] !in WhiteSpace && field[i] != ';'
    requires forall i :: 0 <= i < |operation| ==> operation[i] !in WhiteSpace && operation[i] != ';'
    requires forall i :: 0 <= i < |value| ==> value[i] !in QuoteOrSpace && value[i] != ';'
    requires ParseOperator(operation) == Some(Ge)
    requires field in schema.fields && schema.convert(field, value) == Some(n)
    ensures Filtered(schema, source, field + " " + operation + " '" + value + "'")
         == Ok(Where(source, Clause(field, Ge, n)))
  {
    var raw := RawClause(field, operation, value);
    var segment := OneClause(field, operation, value);
    SingleClause(schema, source, segment, raw);
  }

  /** A clause `<field> ge '<value>'` ordered by `<field> desc`, page 1 of 5, in any letter
      case: the query holds exactly the records whose field is at least the value, sorted by
      descending field, and the page is its first five, so no record left off the page has a
      greater field than one on it. */
  lemma HighestFirst(schema: Schema, source: seq<Record>, request: PaginatedRequest,
                     field: string, operation: string, value: string, direction: string, n: int)
    requires Conforms(schema, source)
    requires field != [] && operation != [] && value != [] && direction != []
    requires forall i :: 0 <= i < |field| ==> field[i] !in WhiteSpace && field[i] != ';'
    requires forall i :: 0 <= i < |operation| ==> operation[i] !in WhiteSpace && operation[i] != ';'
    requires forall i :: 0 <= i < |value| ==> value[i] !in QuoteOrSpace && value[i] != ';'
    requires ' ' !in direction
    requires ParseOperator(operation) == Some(Ge) && ToLower(direction) == "desc"
    requires field in schema.fields && schema.convert(field, value) == Some(n)
    requires request.filter == Some(field + " " + operation + " '" + value + "'")
    requires request.orderBy == Some(field + " " + direction)
    ensures Query(schema, source, request).Ok?
    ensures var q := Query(schema, source, request).value;
      && HasField(q, field)
      && (forall x :: x in q ==> x in source && x[field] >= n)
      && (forall x :: x in source && field in x && x[field] >= n ==> x in q)
      && SortedBy(q, field, Descending)
      && PageSlice(q, 1, 5) == q[..Clamp(5, |q|)]
      && (forall i, j :: 0 <= i < 5 <= j < |q| ==> q[i][field] >= q[j][field])
  {
    HighestQuery(schema, source, request, field, operation, value, direction, n);
    HighestAtLeastContents(source, field, n);
  }

  /** The same for `Age ge '18'` ordered by `Age desc`: the query is the records of age 18 or
      more by descending age, whose first five make up page 1 of size 5. */
  lemma OldestAdultsFirst(schema: Schema, source: seq<Record>, request: PaginatedRequest,
                          field: string, operation: string, value: string, direction: string)
    requires Conforms(schema, source)
    requires field == "Age" && operation == "ge" && value == "18" && direction == "desc"
    requires field in schema.fields && schema.convert(field, value) == Some(18)
    requires request.filter == Some(field + " " + operation + " '" + value + "'")
    requires request.orderBy == Some(field + " " + direction)
    ensures HasField(source, field)
    ensures Query(schema, source, request) == Ok(HighestAtLeast(source, field, 18))
  {
    AgeTokens(field, operation, value, direction);
    HighestQuery(schema, source, request, field, operation, value, direction, 18);
  }

  lemma AgeTokens(field: string, operation: string, value: string, direction: string)
    requires field == "Age" && operation == "ge" && value == "18" && direction == "desc"
    ensures field != [] && operation != [] && value != [] && direction != []
    ensures forall i :: 0 <= i < |field| ==> field[i] !in WhiteSpace && field[i] != ';'
    ensures forall i :: 0 <= i < |operation| ==> operation[i] !in WhiteSpace && operation[i] != ';'
    ensures forall i :: 0 <= i < |value| ==> value[i] !in QuoteOrSpace && value[i] != ';'
    ensures ' ' !in direction
    ensures ParseOperator(operation) == Some(Ge) && ToLower(direction) == "desc"
  {
    PlainWord(field);
    PlainWord(operation);
    PlainWord(value);
    PlainWord(direction);
    ToLowerEquals(operation, "ge");
    ToLowerEquals(direction, "desc");
  }

  /** A word of ASCII letters and digits holds no white space, quote or `;`. */
  lemma PlainWord(w: string)
    requires forall i :: 0 <= i < |w| ==> 'a' <= w[i] <= 'z' || 'A' <= w[i] <= 'Z' || '0' <= w[i] <= '9'
    ensures forall i :: 0 <= i < |w| ==> w[i] !in WhiteSpace && w[i] !in QuoteOrSpace && w[i] != ';'
  {
  }
}
