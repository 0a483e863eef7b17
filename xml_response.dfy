/**
 * The {DAV:}response element of a multistatus body (section 14.24 of RFC
 * 4918): the href of one resource, its properties grouped by HTTP status
 * code, and an optional status for the whole response (WebDAV-Sync uses it
 * to report a deleted member).
 */
module XmlResponse {
  import opened Php
  import opened XmlTree

  const HREF := "{DAV:}href"
  const STATUS := "{DAV:}status"
  const PROPSTAT := "{DAV:}propstat"
  const PROP := "{DAV:}prop"

  /** The element names the reader reads as key/value maps for this element. */
  const READ_AS_MAPS: set<string> := {PROPSTAT, PROP}

  lemma OnlyPropstatAndPropAreMaps()
    ensures HREF !in READ_AS_MAPS && STATUS !in READ_AS_MAPS
  {
    assert HREF[6] != PROP[6];
    assert |HREF| != |PROPSTAT| && |STATUS| != |PROPSTAT| && |STATUS| != |PROP|;
  }

  /**
   * `href` is null when no href was read; `responseProperties` maps a status
   * code to the properties reported with that status; `httpStatus` is the
   * status of the whole response, or null.
   */
  datatype Response = Response(href: Option<string>, responseProperties: Assoc<string, Value>, httpStatus: Option<string>)

  // ---------------------------------------------------------------- writing

  /**
   * The status line the HTTP layer builds for a code: protocol version, code
   * and reason phrase, separated by single spaces. `reason` is the HTTP
   * layer's table of reason phrases.
   */
  function StatusLine(code: string, reason: string -> string): string {
    "HTTP/1.1 " + code + " " + reason(code)
  }

  /** PHP's `$baseUri . $href`, where a null href adds nothing. */
  function HrefText(href: Option<string>): string {
    if href.Some? then href.value else ""
  }

  function StatusElem(code: string, reason: string -> string): Elem {
    Elem(STATUS, [], Text(StatusLine(code, reason)))
  }

  function PropstatElem(code: string, props: Value, reason: string -> string): Elem {
    Elem(PROPSTAT, [], Items([Elem(PROP, [], props), StatusElem(code, reason)]))
  }

  /** The propstat elements written for the status buckets `pairs`; falsy (empty) buckets are skipped. */
  function PropstatElems(pairs: seq<(string, Value)>, reason: string -> string): seq<Elem>
    decreases |pairs|
  {
    if pairs == [] then []
    else
      var init := PropstatElems(pairs[..|pairs| - 1], reason);
      var last := pairs[|pairs| - 1];
      if ValueTruthy(last.1) then init + [PropstatElem(last.0, last.1, reason)] else init
  }

  /** The elements written inside the response element. */
  function Written(r: Response, baseUri: string, reason: string -> string): seq<Elem>
    requires r.responseProperties.Valid()
  {
    Head(r, baseUri, reason) + PropstatElems(r.responseProperties.Pairs(), reason)
  }

  lemma PropstatElemsNext(pairs: seq<(string, Value)>, i: nat, reason: string -> string)
    requires i < |pairs|
    ensures PropstatElems(pairs[..i + 1], reason)
         == PropstatElems(pairs[..i], reason)
            + if ValueTruthy(pairs[i].1) then [PropstatElem(pairs[i].0, pairs[i].1, reason)] else []
  {
    assert pairs[..i + 1][..i] == pairs[..i];
  }

  lemma PropstatEvents(code: string, props: Value, reason: string -> string)
    ensures ElemEvents(PropstatElem(code, props, reason))
         == [Event.StartElement(PROPSTAT)] + ElemEvents(Elem(PROP, [], props))
            + ElemEvents(StatusElem(code, reason)) + [EndElement]
  {
    var kids := [Elem(PROP, [], props), StatusElem(code, reason)];
    assert kids[1..] == [kids[1]] && kids[1..][1..] == [];
    assert ElemsEvents(kids) == ElemEvents(kids[0]) + (ElemEvents(kids[1]) + ElemsEvents([]));
    assert AttrEvents([]) == [];
  }

  /** Writes one propstat: its prop, then its status line. */
  method WritePropstat(w: Writer, code: string, props: Value, reason: string -> string)
    modifies w
    ensures w.events == old(w.events) + ElemEvents(PropstatElem(code, props, reason))
  {
    PropstatEvents(code, props, reason);
    w.StartElement(PROPSTAT);
    w.WriteElement(PROP, props);
    w.WriteElement(STATUS, Text(StatusLine(code, reason)));
    w.EndElement();
  }

  /** The elements written before the propstats: the response status when set, then the href. */
  function Head(r: Response, baseUri: string, reason: string -> string): seq<Elem> {
    (if OptTruthy(r.httpStatus) then [StatusElem(r.httpStatus.value, reason)] else [])
    + [Elem(HREF, [], Text(baseUri + HrefText(r.href)))]
  }

  method WriteHead(r: Response, w: Writer, reason: string -> string)
    modifies w
    ensures w.events == old(w.events) + ElemsEvents(Head(r, w.baseUri, reason))
  {
    var hrefElem := Elem(HREF, [], Text(w.baseUri + HrefText(r.href)));
    if OptTruthy(r.httpStatus) {
      var statusElem := StatusElem(r.httpStatus.value, reason);
      w.WriteElement(STATUS, Text(StatusLine(r.httpStatus.value, reason)));
      ElemsEventsAppend([statusElem], hrefElem);
      assert ElemsEvents([statusElem]) == ElemEvents(statusElem) + ElemsEvents([]);
    } else {
      ElemsEventsAppend([], hrefElem);
    }
    w.WriteElement(HREF, Text(w.baseUri + HrefText(r.href)));
  }

  /** The loop over the status buckets: one propstat per non-empty bucket. */
  method WritePropstats(pairs: seq<(string, Value)>, w: Writer, reason: string -> string)
    modifies w
    ensures w.events == old(w.events) + ElemsEvents(PropstatElems(pairs, reason))
  {
    var i := 0;
    while i < |pairs|
      invariant 0 <= i <= |pairs|
      invariant w.events == old(w.events) + ElemsEvents(PropstatElems(pairs[..i], reason))
    {
      PropstatElemsNext(pairs, i, reason);
      ghost var before := PropstatElems(pairs[..i], reason);
      var code := pairs[i].0;
      var properties := pairs[i].1;
      if ValueTruthy(properties) {
        ElemsEventsAppend(before, PropstatElem(code, properties, reason));
        ghost var prev := w.events;
        WritePropstat(w, code, properties, reason);
        assert w.events == prev + ElemEvents(PropstatElem(code, properties, reason));
        assert PropstatElems(pairs[..i + 1], reason) == before + [PropstatElem(code, properties, reason)];
      } else {
        assert PropstatElems(pairs[..i + 1], reason) == before;
      }
      i := i + 1;
    }
    assert pairs[..i] == pairs;
  }

  /**
   * `serializeXml`: the status of the whole response first when it is set,
   * then the href prefixed with the writer's base URI, then one propstat
   * (prop and status) per non-empty status bucket, in bucket order.
   */
  method SerializeXml(r: Response, w: Writer, reason: string -> string)
    requires r.responseProperties.Valid()
    modifies w
    ensures w.events == old(w.events) + ElemsEvents(Written(r, w.baseUri, reason))
  {
    WriteHead(r, w, reason);
    WritePropstats(r.responseProperties.Pairs(), w, reason);
    ElemsEventsConcat(Head(r, w.baseUri, reason), PropstatElems(r.responseProperties.Pairs(), reason));
  }

  // ---------------------------------------------------------------- reading

  /** The code in a status line: its second space-separated word, or null. */
  function StatusCode(line: string): Option<string> {
    SecondPiece(line, ' ')
  }

  /** The array key a propstat's status gives; a missing code is the null key, which PHP stores as "". */
  function CodeKey(status: Option<Value>): string {
    match StatusCode(TextOr(status))
    case Some(c) => c
    case None => ""
  }

  /** What the deserializer has collected: href, status buckets in order, status code. */
  datatype Parsed = Parsed(href: Option<string>, lists: seq<(string, Value)>, statusCode: Option<string>)

  const START := Parsed(None, [], None)

  /** The body of the deserializer's loop for one child element. */
  function ReadStep(p: Parsed, e: Elem): Parsed {
    if e.name == HREF then p.(href := TextOf(e.value))
    else if e.name == PROPSTAT then
      p.(lists := p.lists + [(CodeKey(Lookup(e.value, STATUS)), LookupOr(e.value, PROP))])
    else if e.name == STATUS then p.(statusCode := StatusCode(TextOr(Some(e.value))))
    else p
  }

  /** The response read from the children of a {DAV:}response element. */
  function ReadResponse(es: seq<Elem>): Response {
    var p := Foreach(ReadStep, START, es);
    Response(p.href, PutAll(EmptyAssoc(), p.lists), p.statusCode)
  }

  /**
   * `deserializeXml`: the last href, the last status, and per propstat its
   * prop under its status code, a later propstat replacing an earlier one
   * with the same code.
   */
  method DeserializeXml(inner: Value) returns (r: Response)
    ensures r == ReadResponse(ElemsOf(inner))
  {
    var elems := ElemsOf(inner);
    var href: Option<string> := None;
    var propertyLists: Assoc<string, Value> := EmptyAssoc();
    var statusCode: Option<string> := None;
    var i := 0;
    while i < |elems|
      invariant 0 <= i <= |elems|
      invariant href == Foreach(ReadStep, START, elems[..i]).href
      invariant statusCode == Foreach(ReadStep, START, elems[..i]).statusCode
      invariant propertyLists == PutAll(EmptyAssoc(), Foreach(ReadStep, START, elems[..i]).lists)
    {
      ForeachNext(ReadStep, START, elems, i);
      ghost var before := Foreach(ReadStep, START, elems[..i]).lists;
      var elem := elems[i];
      if elem.name == HREF {
        href := TextOf(elem.value);
      } else if elem.name == PROPSTAT {
        var status := CodeKey(Lookup(elem.value, STATUS));
        var properties := LookupOr(elem.value, PROP);
        PutAllSnoc(EmptyAssoc(), before, status, properties);
        propertyLists := propertyLists.Put(status, properties);
      } else if elem.name == STATUS {
        statusCode := StatusCode(TextOr(Some(elem.value)));
      }
      i := i + 1;
    }
    assert elems[..i] == elems;
    r := Response(href, propertyLists, statusCode);
  }

  // ------------------------------------------------------------- properties

  /** The code of a status line the HTTP layer built is the code it was built from. */
  lemma StatusCodeOfLine(code: string, reason: string -> string)
    requires ' ' !in code
    ensures StatusCode(StatusLine(code, reason)) == Some(code)
  {
    assert StatusLine(code, reason) == "HTTP/1.1" + [' '] + code + [' '] + reason(code);
    SecondPieceOf("HTTP/1.1", code, reason(code), ' ');
  }

  /** For instance the code of "HTTP/1.1 404 Not Found" is "404". */
  lemma NotFoundLine()
    ensures StatusCode("HTTP/1.1 404 Not Found") == Some("404")
  {
    assert "HTTP/1.1 404 Not Found" == "HTTP/1.1" + [' '] + "404" + [' '] + "Not Found";
    SecondPieceOf("HTTP/1.1", "404", "Not Found", ' ');
  }

  /** Two propstats with the same status: the later one replaces the earlier entirely. */
  lemma LaterPropstatReplaces(es: seq<Elem>, x: Elem, y: Elem)
    requires x.name == PROPSTAT && y.name == PROPSTAT
    requires CodeKey(Lookup(x.value, STATUS)) == CodeKey(Lookup(y.value, STATUS))
    ensures ReadResponse(es + [x, y]) == ReadResponse(es + [y])
  {
    var p := Foreach(ReadStep, START, es);
    var k := CodeKey(Lookup(x.value, STATUS));
    var vx := LookupOr(x.value, PROP);
    var vy := LookupOr(y.value, PROP);
    ForeachAppend(ReadStep, START, es, [x, y]);
    ForeachAppend(ReadStep, START, es, [y]);
    assert [x, y][..1] == [x] && [x][..0] == [] && [y][..0] == [];
    assert Foreach(ReadStep, p, [x, y]) == p.(lists := p.lists + [(k, vx)] + [(k, vy)]);
    assert Foreach(ReadStep, p, [y]) == p.(lists := p.lists + [(k, vy)]);
    PutAllSnoc(EmptyAssoc(), p.lists, k, vx);
    PutAllSnoc(EmptyAssoc(), p.lists + [(k, vx)], k, vy);
    PutAllSnoc(EmptyAssoc(), p.lists, k, vy);
    PutAll(EmptyAssoc(), p.lists).PutPut(k, vx, vy);
  }

  /** The status buckets a reader gets back: non-empty buckets, each prop read as a key/value map. */
  function ReadBuckets(pairs: seq<(string, Value)>): seq<(string, Value)>
    decreases |pairs|
  {
    if pairs == [] then []
    else
      var init := ReadBuckets(pairs[..|pairs| - 1]);
      var last := pairs[|pairs| - 1];
      if ValueTruthy(last.1) then init + [(last.0, ReadValueView(PROP, last.1, READ_AS_MAPS))] else init
  }

  /** Reading the written propstats adds exactly the non-empty buckets. */
  lemma {:induction false} ReadPropstats(p: Parsed, pairs: seq<(string, Value)>, reason: string -> string)
    requires forall i :: 0 <= i < |pairs| ==> ' ' !in pairs[i].0
    ensures Foreach(ReadStep, p, ReadViews(PropstatElems(pairs, reason), READ_AS_MAPS))
         == p.(lists := p.lists + ReadBuckets(pairs))
    decreases |pairs|
  {
    if pairs == [] {
      assert p.lists + [] == p.lists;
    } else {
      var init := pairs[..|pairs| - 1];
      var last := pairs[|pairs| - 1];
      ReadPropstats(p, init, reason);
      if ValueTruthy(last.1) {
        var e := PropstatElem(last.0, last.1, reason);
        assert PropstatElems(pairs, reason) == PropstatElems(init, reason) + [e];
        ReadViewsAppend(PropstatElems(init, reason), [e], READ_AS_MAPS);
        ReadPropstat(last.0, last.1, reason);
        ReadOnePropstat(p, ReadViews(PropstatElems(init, reason), READ_AS_MAPS), ReadBuckets(init),
                        ReadView(e, READ_AS_MAPS), last.0, ReadValueView(PROP, last.1, READ_AS_MAPS));
      }
    }
  }

  /** After any prefix of views, one more propstat view is read as the next pair: its code and its prop. */
  lemma ReadOnePropstat(p: Parsed, before: seq<Elem>, buckets: seq<(string, Value)>, v: Elem, code: string, prop: Value)
    requires v.name == PROPSTAT && CodeKey(Lookup(v.value, STATUS)) == code && LookupOr(v.value, PROP) == prop
    requires Foreach(ReadStep, p, before) == p.(lists := p.lists + buckets)
    ensures Foreach(ReadStep, p, before + [v]) == p.(lists := p.lists + (buckets + [(code, prop)]))
  {
    ForeachAppend(ReadStep, p, before, [v]);
    assert [v][..0] == [];
    SnocAssoc(p.lists, buckets, (code, prop));
  }

  lemma SnocAssoc<T>(a: seq<T>, b: seq<T>, x: T)
    ensures a + b + [x] == a + (b + [x])
  {
  }

  /** One written propstat reads back as its code and its prop. */
  lemma ReadPropstat(code: string, props: Value, reason: string -> string)
    requires ' ' !in code
    ensures var v := ReadView(PropstatElem(code, props, reason), READ_AS_MAPS);
      v.name == PROPSTAT
      && CodeKey(Lookup(v.value, STATUS)) == code
      && LookupOr(v.value, PROP) == ReadValueView(PROP, props, READ_AS_MAPS)
  {
    var kids := [Elem(PROP, [], props), StatusElem(code, reason)];
    var views := ReadViews(kids, READ_AS_MAPS);
    assert kids[1..] == [kids[1]] && kids[1..][1..] == [];
    assert ReadViews(kids[1..], READ_AS_MAPS) == [ReadView(kids[1], READ_AS_MAPS)] + ReadViews(kids[1..][1..], READ_AS_MAPS);
    assert views == [ReadView(kids[0], READ_AS_MAPS)] + ReadViews(kids[1..], READ_AS_MAPS);
    var pairs := NameValuePairs(views);
    assert pairs == [(PROP, ReadValueView(PROP, props, READ_AS_MAPS)), (STATUS, Text(StatusLine(code, reason)))];
    assert pairs[..1] == [pairs[0]];
    PutAllLastWins(EmptyAssoc(), pairs, STATUS);
    PutAllLastWins(EmptyAssoc(), pairs, PROP);
    StatusCodeOfLine(code, reason);
  }

  /** Reading the written head gives the href with the base URI in front and the status when it was set. */
  lemma ReadHead(r: Response, baseUri: string, reason: string -> string)
    requires r.httpStatus.Some? ==> ' ' !in r.httpStatus.value
    ensures Foreach(ReadStep, START, ReadViews(Head(r, baseUri, reason), READ_AS_MAPS))
         == Parsed(Some(baseUri + HrefText(r.href)), [], if OptTruthy(r.httpStatus) then r.httpStatus else None)
  {
    var kv := READ_AS_MAPS;
    var hrefElem := Elem(HREF, [], Text(baseUri + HrefText(r.href)));
    var hrefView := ReadView(hrefElem, kv);
    OnlyPropstatAndPropAreMaps();
    assert ReadValueView(HREF, hrefElem.value, kv) == hrefElem.value;
    assert hrefView == hrefElem;
    assert [hrefElem][1..] == [];
    assert ReadViews([hrefElem], kv) == [hrefView] + ReadViews([hrefElem][1..], kv);
    if OptTruthy(r.httpStatus) {
      var statusElem := StatusElem(r.httpStatus.value, reason);
      var views := ReadViews([statusElem, hrefElem], kv);
      assert [statusElem, hrefElem][1..] == [hrefElem];
      assert views == [ReadView(statusElem, kv)] + ReadViews([statusElem, hrefElem][1..], kv);
      var statusView := ReadView(statusElem, kv);
      assert ReadValueView(STATUS, statusElem.value, kv) == statusElem.value;
      assert views == [statusView, hrefView];
      assert views[..1] == [statusView] && views[..1][..0] == [];
      StatusCodeOfLine(r.httpStatus.value, reason);
      assert Foreach(ReadStep, START, [statusView]) == Parsed(None, [], r.httpStatus);
      assert Head(r, baseUri, reason) == [statusElem, hrefElem];
    } else {
      assert Head(r, baseUri, reason) == [hrefElem];
      assert [hrefView][..0] == [];
    }
  }

  /**
   * Round trip: reading what `serializeXml` wrote gives back the href with
   * the base URI in front, the non-empty status buckets (each prop now a
   * key/value map), and the whole-response status when it was set.
   */
  lemma RoundTrip(r: Response, baseUri: string, reason: string -> string)
    requires r.responseProperties.Valid()
    requires r.httpStatus.Some? ==> ' ' !in r.httpStatus.value
    requires forall k :: k in r.responseProperties.keys ==> ' ' !in k
    ensures ReadResponse(ReadViews(Written(r, baseUri, reason), READ_AS_MAPS))
         == Response(Some(baseUri + HrefText(r.href)),
                     PutAll(EmptyAssoc(), ReadBuckets(r.responseProperties.Pairs())),
                     if OptTruthy(r.httpStatus) then r.httpStatus else None)
  {
    var kv := READ_AS_MAPS;
    var head := Head(r, baseUri, reason);
    var pairs := r.responseProperties.Pairs();
    ReadViewsAppend(head, PropstatElems(pairs, reason), kv);
    ForeachAppend(ReadStep, START, ReadViews(head, kv), ReadViews(PropstatElems(pairs, reason), kv));
    ReadHead(r, baseUri, reason);
    forall i | 0 <= i < |pairs| ensures ' ' !in pairs[i].0 {
      assert pairs[i].0 == r.responseProperties.keys[i];
    }
    var afterHead := Foreach(ReadStep, START, ReadViews(head, kv));
    ReadPropstats(afterHead, pairs, reason);
    assert afterHead.lists + ReadBuckets(pairs) == ReadBuckets(pairs);
    assert Written(r, baseUri, reason) == head + PropstatElems(pairs, reason);
  }
}
