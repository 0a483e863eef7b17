/**
 * The calendarserver.org `systemstatus` notification: a server-wide notice
 * with a priority (low, medium or high), an optional description and an
 * optional link. The element is only ever written, never read.
 */
module XmlSystemStatus {
  import opened Php
  import opened XmlTree

  const TYPE_LOW := 1
  const TYPE_MEDIUM := 2
  const TYPE_HIGH := 3

  const SYSTEM_STATUS := "{http://calendarserver.org/ns/}systemstatus"
  const DESCRIPTION := "{http://calendarserver.org/ns/}description"
  const HREF := "{DAV:}href"

  /** `getId` and `getETag` return `id` and `etag` as given. */
  datatype SystemStatus = SystemStatus(id: string, etag: string, notificationType: int,
                                       description: Option<string>, href: Option<string>)

  /** The constructor and its defaults: high priority, no description, no link. */
  function Create(id: string, etag: string, notificationType: int := TYPE_HIGH,
                  description: Option<string> := None, href: Option<string> := None): SystemStatus
  {
    SystemStatus(id, etag, notificationType, description, href)
  }

  /** The `type` attribute for a priority: any value other than low or medium is written as high. */
  function TypeName(notificationType: int): string {
    if notificationType == TYPE_LOW then "low"
    else if notificationType == TYPE_MEDIUM then "medium"
    else "high"
  }

  /** A priority as the attribute names it. */
  function TypeOf(name: string): Option<int> {
    if name == "low" then Some(TYPE_LOW)
    else if name == "medium" then Some(TYPE_MEDIUM)
    else if name == "high" then Some(TYPE_HIGH)
    else None
  }

  /** The three names are told apart, and each known priority survives the attribute. */
  lemma TypeNameMeaning(notificationType: int)
    ensures TypeName(notificationType) == "low" <==> notificationType == TYPE_LOW
    ensures TypeName(notificationType) == "medium" <==> notificationType == TYPE_MEDIUM
    ensures TypeName(notificationType) == "high" <==> notificationType != TYPE_LOW && notificationType != TYPE_MEDIUM
    ensures TypeOf(TypeName(notificationType))
         == Some(if notificationType in {TYPE_LOW, TYPE_MEDIUM} then notificationType else TYPE_HIGH)
  {
    assert "low"[0] != "high"[0] && "medium"[0] != "high"[0];
  }

  /** A status built with the defaults is high priority and has no description or link. */
  lemma DefaultIsHigh(id: string, etag: string)
    ensures Create(id, etag).notificationType == TYPE_HIGH
    ensures TypeName(Create(id, etag).notificationType) == "high"
    ensures Create(id, etag).description.None? && Create(id, etag).href.None?
  {
  }

  function TypeAttr(s: SystemStatus): seq<(string, string)> {
    [("type", TypeName(s.notificationType))]
  }

  /** The children the full form writes: the description and the link, each only when truthy. */
  function FullKids(s: SystemStatus): seq<Elem> {
    (if OptTruthy(s.description) then [Elem(DESCRIPTION, [], Text(s.description.value))] else [])
    + (if OptTruthy(s.href) then [Elem(HREF, [], Text(s.href.value))] else [])
  }

  /** `serializeXml`: an empty systemstatus element whose type attribute names the priority. */
  function SerializeXml(s: SystemStatus): (evs: seq<Event>)
    ensures Read(evs, {}) == [Elem(SYSTEM_STATUS, TypeAttr(s), Null)]
  {
    var evs := [Event.StartElement(SYSTEM_STATUS), Event.WriteAttribute("type", TypeName(s.notificationType)), EndElement];
    ReadOfElement(Elem(SYSTEM_STATUS, TypeAttr(s), Null));
    assert ElemEvents(Elem(SYSTEM_STATUS, TypeAttr(s), Null)) == evs;
    evs
  }

  /**
   * `serializeFullXml`: the same element and attribute, holding the
   * description and the link when they are set.
   */
  function SerializeFullXml(s: SystemStatus): (evs: seq<Event>)
    ensures Read(evs, {}) == [Elem(SYSTEM_STATUS, TypeAttr(s), if FullKids(s) == [] then Null else Items(FullKids(s)))]
  {
    var evs := [Event.StartElement(SYSTEM_STATUS), Event.WriteAttribute("type", TypeName(s.notificationType))]
      + ElemsEvents(FullKids(s)) + [EndElement];
    var e := Elem(SYSTEM_STATUS, TypeAttr(s), if FullKids(s) == [] then Null else Items(FullKids(s)));
    ReadOfElement(e);
    assert AttrEvents(TypeAttr(s)) == [Event.WriteAttribute("type", TypeName(s.notificationType))];
    assert ElemEvents(e) == evs;
    evs
  }

  /** A single written element with plain content reads back as itself. */
  lemma ReadOfElement(e: Elem)
    requires Writable(e.value)
    ensures Read(ElemEvents(e), {}) == [e]
  {
    ReadOfOne(e);
    EventsOfOne(e);
  }

  lemma ReadOfOne(e: Elem)
    requires Writable(e.value)
    ensures Read(ElemsEvents([e]), {}) == [e]
  {
    ReadOfWritten([e], {});
    ReadViewsPlain([e]);
  }

  /** `deserializeXml`: this element has no reader; it always fails. */
  function DeserializeXml(inner: Value): (r: Result<SystemStatus>)
    ensures r == Err(CannotDeserialize)
  {
    Err(CannotDeserialize)
  }

  // ------------------------------------------------------------- properties

  /** Both serializers give the element the same type attribute. */
  lemma SerializersAgreeOnType(s: SystemStatus)
    ensures AttrOf(Read(SerializeXml(s), {})[0], "type") == Some(TypeName(s.notificationType))
    ensures AttrOf(Read(SerializeFullXml(s), {})[0], "type") == Some(TypeName(s.notificationType))
  {
    assert TypeAttr(s)[..0] == [];
  }

  /** The children the full form reads back are exactly the ones it was built with. */
  lemma FullFormKids(s: SystemStatus)
    ensures ElemsOf(Read(SerializeFullXml(s), {})[0].value) == FullKids(s)
  {
  }

  /** The full form holds a description iff the description is truthy, and then exactly it. */
  lemma FullFormDescription(s: SystemStatus)
    ensures var kids := ElemsOf(Read(SerializeFullXml(s), {})[0].value);
      (exists i :: 0 <= i < |kids| && kids[i].name == DESCRIPTION) <==> OptTruthy(s.description)
    ensures var kids := ElemsOf(Read(SerializeFullXml(s), {})[0].value);
      forall i :: 0 <= i < |kids| && kids[i].name == DESCRIPTION ==> kids[i].value == Text(s.description.value)
  {
    FullFormKids(s);
    var kids := FullKids(s);
    assert DESCRIPTION[1] != HREF[1];
    if OptTruthy(s.description) {
      assert kids[0].name == DESCRIPTION;
    }
  }

  /** The full form holds a link iff the href is truthy, and then exactly it. */
  lemma FullFormHref(s: SystemStatus)
    ensures var kids := ElemsOf(Read(SerializeFullXml(s), {})[0].value);
      (exists i :: 0 <= i < |kids| && kids[i].name == HREF) <==> OptTruthy(s.href)
    ensures var kids := ElemsOf(Read(SerializeFullXml(s), {})[0].value);
      forall i :: 0 <= i < |kids| && kids[i].name == HREF ==> kids[i].value == Text(s.href.value)
  {
    FullFormKids(s);
    var kids := FullKids(s);
    assert DESCRIPTION[1] != HREF[1];
    if OptTruthy(s.href) {
      assert kids[|kids| - 1].name == HREF;
    }
  }
}
