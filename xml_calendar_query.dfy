/**
 * The body of a CalDAV calendar-query REPORT (section 7.9 of RFC 4791): the
 * properties to return, an optional expansion of the calendar data, and the
 * one top-level comp-filter the report must carry. The request is only ever
 * read; writing it fails.
 */
module XmlCalendarQuery {
  import opened Php
  import opened XmlTree

  const PROP := "{DAV:}prop"
  const FILTER := "{urn:ietf:params:xml:ns:caldav}filter"
  const COMP_FILTER := "{urn:ietf:params:xml:ns:caldav}comp-filter"
  const CALENDAR_DATA := "{urn:ietf:params:xml:ns:caldav}calendar-data"

  /**
   * The parsed report. `properties` is null when no prop element was sent;
   * `expand` is None where PHP leaves it `false`.
   */
  datatype CalendarQuery = CalendarQuery(properties: Option<seq<string>>, filter: Value, expand: Option<Value>)

  /** `serializeXml`: this element cannot be written. */
  function SerializeXml(q: CalendarQuery): (r: Result<seq<Event>>)
    ensures r == Err(CannotSerialize)
  {
    Err(CannotSerialize)
  }

  // ------------------------------------------------------------- the reader

  /** `array_keys` of a prop element's value: its property names when the reader gave a key/value map. */
  function PropNames(v: Value): Option<seq<string>> {
    if v.Dict? then Some(v.entries.keys) else None
  }

  /** The `expand` entry of the calendar-data property, when `isset` finds it (present and not null). */
  function ExpandIn(v: Value): Option<Value> {
    match Lookup(LookupOr(v, CALENDAR_DATA), "expand")
    case Some(x) => if x != Null then Some(x) else None
    case None => None
  }

  /** The local variables of the loop over the report's children. */
  datatype Scan = Scan(properties: Option<seq<string>>, expand: Option<Value>, filter: Value)

  const START := Scan(None, None, Null)

  /** One child of a filter element: a second non-null top-level comp-filter is a bad request. */
  function FilterStep(acc: Result<Value>, sub: Elem): Result<Value> {
    match acc
    case Err(err) => Err(err)
    case Ok(filter) =>
      if sub.name == COMP_FILTER then
        if filter != Null then Err(BadRequest) else Ok(sub.value)
      else Ok(filter)
  }

  /** One child of the report; children other than prop and filter are skipped. */
  function ScanStep(acc: Result<Scan>, e: Elem): Result<Scan> {
    match acc
    case Err(err) => Err(err)
    case Ok(s) =>
      if e.name == PROP then
        Ok(s.(expand := if ExpandIn(e.value).Some? then ExpandIn(e.value) else s.expand,
              properties := PropNames(e.value)))
      else if e.name == FILTER then
        match Foreach(FilterStep, Ok(s.filter), ElemsOf(e.value))
        case Err(err) => Err(err)
        case Ok(f) => Ok(s.(filter := f))
      else Ok(s)
  }

  /** `deserializeXml` on the parsed inner tree; a tree that is not a list of elements is read as empty. */
  function ReadQuery(inner: Value): Result<CalendarQuery> {
    match Foreach(ScanStep, Ok(START), ElemsOf(inner))
    case Err(err) => Err(err)
    case Ok(s) =>
      if s.filter == Null then Err(BadRequest)
      else Ok(CalendarQuery(s.properties, s.filter, s.expand))
  }

  /** An error, once raised, ends the loop over a filter's children. */
  lemma {:induction false} FilterErrorStays(err: Error, kids: seq<Elem>)
    ensures Foreach(FilterStep, Err(err), kids) == Err(err)
    decreases |kids|
  {
    if kids != [] {
      FilterErrorStays(err, kids[..|kids| - 1]);
    }
  }

  /** An error, once raised, ends the loop over the report's children. */
  lemma {:induction false} ScanErrorStays(err: Error, es: seq<Elem>)
    ensures Foreach(ScanStep, Err(err), es) == Err(err)
    decreases |es|
  {
    if es != [] {
      ScanErrorStays(err, es[..|es| - 1]);
    }
  }

  /** The inner loop: the children of one filter element. */
  method ReadFilter(filter: Value, kids: seq<Elem>) returns (r: Result<Value>)
    ensures r == Foreach(FilterStep, Ok(filter), kids)
  {
    var f := filter;
    var i := 0;
    while i < |kids|
      invariant 0 <= i <= |kids|
      invariant Foreach(FilterStep, Ok(filter), kids[..i]) == Ok(f)
    {
      ForeachNext(FilterStep, Ok(filter), kids, i);
      if kids[i].name == COMP_FILTER {
        if f != Null {
          ForeachAppend(FilterStep, Ok(filter), kids[..i + 1], kids[i + 1..]);
          FilterErrorStays(BadRequest, kids[i + 1..]);
          assert kids[..i + 1] + kids[i + 1..] == kids;
          return Err(BadRequest);
        }
        f := kids[i].value;
      }
      i := i + 1;
    }
    assert kids[..i] == kids;
    r := Ok(f);
  }

  /**
   * `deserializeXml`: the last prop element names the properties, the last
   * calendar-data expand that is set is kept, and exactly one non-null
   * top-level comp-filter must be present, or the request is bad.
   */
  method DeserializeXml(inner: Value) returns (r: Result<CalendarQuery>)
    ensures r == ReadQuery(inner)
  {
    var elems := ElemsOf(inner);
    var properties: Option<seq<string>> := None;
    var expand: Option<Value> := None;
    var filter := Null;
    var i := 0;
    while i < |elems|
      invariant 0 <= i <= |elems|
      invariant Foreach(ScanStep, Ok(START), elems[..i]) == Ok(Scan(properties, expand, filter))
    {
      ForeachNext(ScanStep, Ok(START), elems, i);
      var elem := elems[i];
      if elem.name == PROP {
        if ExpandIn(elem.value).Some? {
          expand := ExpandIn(elem.value);
        }
        properties := PropNames(elem.value);
      } else if elem.name == FILTER {
        var f := ReadFilter(filter, ElemsOf(elem.value));
        if f.Err? {
          ForeachAppend(ScanStep, Ok(START), elems[..i + 1], elems[i + 1..]);
          ScanErrorStays(f.error, elems[i + 1..]);
          assert elems[..i + 1] + elems[i + 1..] == elems;
          return Err(f.error);
        }
        filter := f.value;
      }
      i := i + 1;
    }
    assert elems[..i] == elems;
    if filter == Null {
      return Err(BadRequest);
    }
    r := Ok(CalendarQuery(properties, filter, expand));
  }

  // ------------------------------------------------ reference definitions

  /** The values of the comp-filter elements among a filter's children, in order. */
  function CompValues(kids: seq<Elem>): seq<Value>
    decreases |kids|
  {
    if kids == [] then []
    else
      var last := kids[|kids| - 1];
      CompValues(kids[..|kids| - 1]) + if last.name == COMP_FILTER then [last.value] else []
  }

  /** Every top-level comp-filter value of the report, across all its filter elements, in document order. */
  function CompFilters(es: seq<Elem>): seq<Value>
    decreases |es|
  {
    if es == [] then []
    else
      var last := es[|es| - 1];
      CompFilters(es[..|es| - 1]) + if last.name == FILTER then CompValues(ElemsOf(last.value)) else []
  }

  /** The value of the last prop element, if any. */
  function LastProp(es: seq<Elem>): Option<Value>
    decreases |es|
  {
    if es == [] then None
    else if es[|es| - 1].name == PROP then Some(es[|es| - 1].value)
    else LastProp(es[..|es| - 1])
  }

  /** The properties the report asks for: those of the last prop element, or null without one. */
  function PropertiesOf(es: seq<Elem>): Option<seq<string>> {
    if LastProp(es).Some? then PropNames(LastProp(es).value) else None
  }

  /** The last expand that is set among the prop elements, if any. */
  function LastExpand(es: seq<Elem>): Option<Value>
    decreases |es|
  {
    if es == [] then None
    else if es[|es| - 1].name == PROP && ExpandIn(es[|es| - 1].value).Some? then ExpandIn(es[|es| - 1].value)
    else LastExpand(es[..|es| - 1])
  }

  /** No comp-filter value but the last is non-null: a later one would meet a filter already set. */
  predicate NoClash(cs: seq<Value>) {
    forall i :: 0 <= i < |cs| - 1 ==> cs[i] == Null
  }

  lemma NoClashSnoc(cs: seq<Value>, c: Value)
    requires cs != []
    ensures NoClash(cs + [c]) <==> NoClash(cs) && cs[|cs| - 1] == Null
  {
    if NoClash(cs) && cs[|cs| - 1] == Null {
      forall i | 0 <= i < |cs + [c]| - 1 ensures (cs + [c])[i] == Null {
        assert (cs + [c])[i] == cs[i];
      }
    }
    if NoClash(cs + [c]) {
      assert (cs + [c])[|cs| - 1] == cs[|cs| - 1];
      forall i | 0 <= i < |cs| - 1 ensures cs[i] == Null {
        assert (cs + [c])[i] == cs[i];
      }
    }
  }

  /** The loop over one filter element's children, in terms of the comp-filter values it meets. */
  lemma {:induction false} FilterMeaning(filter: Value, kids: seq<Elem>)
    ensures var cs := [filter] + CompValues(kids);
      Foreach(FilterStep, Ok(filter), kids)
        == if NoClash(cs) then Ok(cs[|cs| - 1]) else Err(BadRequest)
    decreases |kids|
  {
    if kids != [] {
      var init := kids[..|kids| - 1];
      var last := kids[|kids| - 1];
      FilterMeaning(filter, init);
      var cs := [filter] + CompValues(init);
      if last.name == COMP_FILTER {
        assert [filter] + CompValues(kids) == cs + [last.value];
        NoClashSnoc(cs, last.value);
        if !NoClash(cs) {
          FilterErrorStays(BadRequest, [last]);
        }
      } else {
        assert [filter] + CompValues(kids) == cs;
      }
    }
  }

  lemma NoClashConcat(cs: seq<Value>, ds: seq<Value>)
    requires cs != []
    ensures NoClash(cs + ds) <==> NoClash(cs) && NoClash([cs[|cs| - 1]] + ds)
  {
    var all := cs + ds;
    var tail := [cs[|cs| - 1]] + ds;
    if NoClash(all) {
      forall i | 0 <= i < |cs| - 1 ensures cs[i] == Null {
        assert all[i] == cs[i];
      }
      forall i | 0 <= i < |tail| - 1 ensures tail[i] == Null {
        assert tail[i] == all[|cs| - 1 + i];
      }
    }
    if NoClash(cs) && NoClash(tail) {
      forall i | 0 <= i < |all| - 1 ensures all[i] == Null {
        if i < |cs| - 1 {
          assert all[i] == cs[i];
        } else {
          assert all[i] == tail[i - (|cs| - 1)];
        }
      }
    }
  }

  /** The loop over the report's children, in terms of the reference definitions. */
  lemma {:induction false} ScanMeaning(es: seq<Elem>)
    ensures var cs := [Null] + CompFilters(es);
      Foreach(ScanStep, Ok(START), es)
        == if NoClash(cs) then Ok(Scan(PropertiesOf(es), LastExpand(es), cs[|cs| - 1])) else Err(BadRequest)
    decreases |es|
  {
    if es != [] {
      var init := es[..|es| - 1];
      var last := es[|es| - 1];
      ScanMeaning(init);
      var cs := [Null] + CompFilters(init);
      if last.name == FILTER {
        var ds := CompValues(ElemsOf(last.value));
        assert [Null] + CompFilters(es) == cs + ds;
        NoClashConcat(cs, ds);
        if NoClash(cs) {
          FilterMeaning(cs[|cs| - 1], ElemsOf(last.value));
          var tail := [cs[|cs| - 1]] + ds;
          assert (cs + ds)[|cs + ds| - 1] == tail[|tail| - 1];
        } else {
          ScanErrorStays(BadRequest, [last]);
        }
      } else {
        assert [Null] + CompFilters(es) == cs;
        if !NoClash(cs) {
          ScanErrorStays(BadRequest, [last]);
        }
      }
    }
  }

  // ------------------------------------------------------------- properties

  /**
   * The report is accepted iff its top-level comp-filters, in document order,
   * are at least one, the last non-null and every earlier one null; it then
   * holds the last of them, the last prop element's property names and the
   * last expand that was set. Every rejection is a bad request.
   */
  lemma ReadQueryMeaning(inner: Value)
    ensures var es := ElemsOf(inner); var cs := CompFilters(es);
      ReadQuery(inner).Ok? <==> |cs| > 0 && cs[|cs| - 1] != Null && forall i :: 0 <= i < |cs| - 1 ==> cs[i] == Null
    ensures ReadQuery(inner).Err? ==> ReadQuery(inner).error == BadRequest
    ensures var es := ElemsOf(inner); var cs := CompFilters(es);
      ReadQuery(inner).Ok? ==> ReadQuery(inner).value == CalendarQuery(PropertiesOf(es), cs[|cs| - 1], LastExpand(es))
  {
    var es := ElemsOf(inner);
    var cs := CompFilters(es);
    ScanMeaning(es);
    var all := [Null] + cs;
    assert NoClash(all) <==> NoClash(cs) by {
      if NoClash(cs) {
        forall i | 0 <= i < |all| - 1 ensures all[i] == Null {
          if i > 0 {
            assert all[i] == cs[i - 1];
          }
        }
      }
      if NoClash(all) {
        forall i | 0 <= i < |cs| - 1 ensures cs[i] == Null {
          assert all[i + 1] == cs[i];
        }
      }
    }
    if cs != [] {
      assert all[|all| - 1] == cs[|cs| - 1];
    }
  }

  /** A report without any comp-filter, or whose inner tree is not a list of elements, is a bad request. */
  lemma FilterRequired(inner: Value)
    requires CompFilters(ElemsOf(inner)) == [] || !inner.Items?
    ensures ReadQuery(inner) == Err(BadRequest)
  {
    ReadQueryMeaning(inner);
  }

  /** Two non-null top-level comp-filters make the request bad, wherever they stand. */
  lemma OnlyOneCompFilter(inner: Value, i: nat, j: nat)
    requires var cs := CompFilters(ElemsOf(inner)); i < j < |cs| && cs[i] != Null && cs[j] != Null
    ensures ReadQuery(inner) == Err(BadRequest)
  {
    ReadQueryMeaning(inner);
  }

  /** Children other than prop and filter do not change the outcome. */
  lemma {:induction false} OtherChildrenIgnored(es: seq<Elem>, e: Elem)
    requires e.name != PROP && e.name != FILTER
    ensures ReadQuery(Items(es + [e])) == ReadQuery(Items(es))
  {
    ForeachNext(ScanStep, Ok(START), es + [e], |es|);
    assert (es + [e])[..|es|] == es;
    assert (es + [e])[..|es| + 1] == es + [e];
    if es == [] {
      assert ElemsOf(Items(es)) == [];
      assert ElemsOf(Items(es + [e])) == [e];
    }
  }
}
