/**
 * An abstract model of the XML reader and writer the element codecs use.
 *
 * Element names are in Clark notation ("{namespace}local"). The writer is a
 * sequence of events (start element, attribute, text, end element); the
 * reader turns an event sequence back into a tree of elements whose value is
 * null (no content), text, the list of child elements, or - for the element
 * names the reader is told to read as key/value maps - a PHP array from child
 * name to child value.
 */
module XmlTree {
  import opened Php

  datatype Value =
    | Null
    | Text(text: string)
    | Items(elems: seq<Elem>)
    | Dict(entries: Assoc<string, Value>)

  datatype Elem = Elem(name: string, attrs: seq<(string, string)>, value: Value)

  datatype Event =
    | StartElement(name: string)
    | WriteAttribute(attr: string, attrValue: string)
    | TextNode(text: string)
    | EndElement

  /** An attribute of the element, as the reader's attribute array holds it. */
  function AttrOf(e: Elem, name: string): Option<string> {
    LastValue(e.attrs, name)
  }

  /** The element value the PHP code tests with `is_array`. */
  predicate IsArray(v: Value) {
    v.Items? || v.Dict?
  }

  /** PHP truthiness of an element value: null, "", "0" and empty arrays are falsy. */
  predicate ValueTruthy(v: Value) {
    match v
    case Null => false
    case Text(s) => Truthy(s)
    case Items(es) => es != []
    case Dict(d) => d.keys != []
  }

  /** The value as a PHP string, or null when it is not text. */
  function TextOf(v: Value): Option<string> {
    if v.Text? then Some(v.text) else None
  }

  /** The value where PHP converts it to a string: null (and anything but text) becomes "". */
  function TextOr(v: Option<Value>): string {
    if v.Some? && v.value.Text? then v.value.text else ""
  }

  /** The child elements a `foreach` over the value visits: none unless it is a list of elements. */
  function ElemsOf(v: Value): seq<Elem> {
    if v.Items? then v.elems else []
  }

  /** `$value[$key]` for a string key: only a key/value map has one. */
  function Lookup(v: Value, key: string): Option<Value> {
    if v.Dict? then v.entries.Get(key) else None
  }

  /** `$value[$key]`, with null for a missing key. */
  function LookupOr(v: Value, key: string): Value {
    match Lookup(v, key)
    case Some(x) => x
    case None => Null
  }

  // ---------------------------------------------------------------- writer

  function AttrEvents(attrs: seq<(string, string)>): (r: seq<Event>)
    ensures |r| == |attrs|
    ensures forall i :: 0 <= i < |r| ==> r[i] == WriteAttribute(attrs[i].0, attrs[i].1)
  {
    seq(|attrs|, i requires 0 <= i < |attrs| => WriteAttribute(attrs[i].0, attrs[i].1))
  }

  /** The events the writer emits for an element (`startElement` ... `endElement`). */
  function ElemEvents(e: Elem): seq<Event>
    decreases e, 1
  {
    [StartElement(e.name)] + AttrEvents(e.attrs) + ValueEvents(e.value) + [EndElement]
  }

  function ValueEvents(v: Value): seq<Event>
    decreases v, 0
  {
    match v
    case Null => []
    case Text(s) => [TextNode(s)]
    case Items(es) => ElemsEvents(es)
    case Dict(_) => []
  }

  function ElemsEvents(es: seq<Elem>): seq<Event>
    decreases es, 0
  {
    if es == [] then [] else ElemEvents(es[0]) + ElemsEvents(es[1..])
  }

  /** A one-element list is written as that element. */
  lemma EventsOfOne(e: Elem)
    ensures ElemsEvents([e]) == ElemEvents(e)
  {
    assert [e][1..] == [];
  }

  lemma ElemsEventsAppend(es: seq<Elem>, e: Elem)
    ensures ElemsEvents(es + [e]) == ElemsEvents(es) + ElemEvents(e)
    decreases |es|
  {
    if es == [] {
      assert [e][1..] == [];
    } else {
      assert (es + [e])[1..] == es[1..] + [e];
      ElemsEventsAppend(es[1..], e);
    }
  }

  /** An element without attributes whose content is child elements: start tag, children, end tag. */
  lemma ElemEventsOfItems(name: string, kids: seq<Elem>)
    ensures ElemEvents(Elem(name, [], Items(kids))) == [StartElement(name)] + ElemsEvents(kids) + [EndElement]
  {
    assert AttrEvents([]) == [];
  }

  lemma AppendTwo(before: seq<Event>, x: seq<Event>, y: seq<Event>)
    ensures before + x + y == before + (x + y)
  {
  }

  /** Two runs of children written one after another, after `before`. */
  lemma ElemsEventsConcat2(before: seq<Event>, a: seq<Elem>, b: seq<Elem>)
    ensures before + ElemsEvents(a) + ElemsEvents(b) == before + ElemsEvents(a + b)
  {
    ElemsEventsConcat(a, b);
    AppendTwo(before, ElemsEvents(a), ElemsEvents(b));
  }

  /** Appending three pieces one by one or all at once gives the same events. */
  lemma AppendThree(before: seq<Event>, x: seq<Event>, y: seq<Event>, z: seq<Event>)
    ensures before + x + y + z == before + (x + y + z)
  {
  }

  lemma AppendFour(before: seq<Event>, x: seq<Event>, y: seq<Event>, z: seq<Event>, v: seq<Event>)
    ensures before + x + y + z + v == before + (x + y + z + v)
  {
  }

  /** Three runs of children written one after another, after `before`. */
  lemma ElemsEventsConcat3(before: seq<Event>, a: seq<Elem>, b: seq<Elem>, c: seq<Elem>)
    ensures before + ElemsEvents(a) + ElemsEvents(b) + ElemsEvents(c) == before + ElemsEvents(a + b + c)
  {
    ElemsEventsConcat(a + b, c);
    ElemsEventsConcat(a, b);
    AppendThree(before, ElemsEvents(a), ElemsEvents(b), ElemsEvents(c));
  }

  /** Four runs of children written one after another, after `before`. */
  lemma ElemsEventsConcat4(before: seq<Event>, a: seq<Elem>, b: seq<Elem>, c: seq<Elem>, d: seq<Elem>)
    ensures before + ElemsEvents(a) + ElemsEvents(b) + ElemsEvents(c) + ElemsEvents(d)
         == before + ElemsEvents(a + b + c + d)
  {
    ElemsEventsConcat(a + b + c, d);
    ElemsEventsConcat(a + b, c);
    ElemsEventsConcat(a, b);
    AppendFour(before, ElemsEvents(a), ElemsEvents(b), ElemsEvents(c), ElemsEvents(d));
  }

  /** Writing a start tag, the children and an end tag after `before` writes the whole element. */
  lemma WrapEvents(before: seq<Event>, name: string, kids: seq<Elem>)
    ensures before + [StartElement(name)] + ElemsEvents(kids) + [EndElement]
         == before + ElemEvents(Elem(name, [], Items(kids)))
  {
    ElemEventsOfItems(name, kids);
  }

  lemma {:induction false} ElemsEventsConcat(a: seq<Elem>, b: seq<Elem>)
    ensures ElemsEvents(a + b) == ElemsEvents(a) + ElemsEvents(b)
    decreases |a|
  {
    if a == [] {
      assert a + b == b;
    } else {
      assert (a + b)[1..] == a[1..] + b;
      ElemsEventsConcat(a[1..], b);
    }
  }

  /**
   * A tree the writer can produce: no key/value maps (the writer writes
   * arrays as child elements) and no empty child lists (which the writer
   * cannot tell apart from no content).
   */
  predicate Writable(v: Value)
    decreases v, 0
  {
    match v
    case Null => true
    case Text(_) => true
    case Items(es) => es != [] && AllWritable(es)
    case Dict(_) => false
  }

  predicate AllWritable(es: seq<Elem>)
    decreases es, 1
  {
    forall i :: 0 <= i < |es| ==> Writable(es[i].value)
  }

  /**
   * The PHP writer, reduced to the events it has emitted. `baseUri` is the
   * writer's `$baseUri` property, which codecs prepend to hrefs.
   */
  class Writer {
    var events: seq<Event>
    const baseUri: string

    constructor(baseUri: string)
      ensures events == [] && this.baseUri == baseUri
    {
      events := [];
      this.baseUri := baseUri;
    }

    method StartElement(name: string)
      modifies this
      ensures events == old(events) + [Event.StartElement(name)]
    {
      events := events + [Event.StartElement(name)];
    }

    method WriteAttribute(name: string, value: string)
      modifies this
      ensures events == old(events) + [Event.WriteAttribute(name, value)]
    {
      events := events + [Event.WriteAttribute(name, value)];
    }

    method EndElement()
      modifies this
      ensures events == old(events) + [Event.EndElement]
    {
      events := events + [Event.EndElement];
    }

    /** `writeElement($name, $value)`: a whole element with the given content. */
    method WriteElement(name: string, value: Value)
      modifies this
      ensures events == old(events) + ElemEvents(Elem(name, [], value))
    {
      events := events + ElemEvents(Elem(name, [], value));
    }
  }

  // ---------------------------------------------------------------- reader

  /** What the reader has collected for a parent element when its end tag is reached. */
  datatype Content = Content(elems: seq<Elem>, text: string, sawText: bool, rest: seq<Event>)

  function ReadAttrs(evs: seq<Event>): (r: (seq<(string, string)>, seq<Event>))
    ensures |r.1| <= |evs|
    decreases |evs|
  {
    if evs != [] && evs[0].WriteAttribute? then
      var (attrs, rest) := ReadAttrs(evs[1..]);
      ([(evs[0].attr, evs[0].attrValue)] + attrs, rest)
    else
      ([], evs)
  }

  /** The value the reader gives an element, from what was collected inside it. */
  function ElementValue(name: string, c: Content, kv: set<string>): Value {
    if name in kv then Dict(KeyValue(c.elems))
    else if c.elems != [] then Items(c.elems)
    else if c.sawText then Text(c.text)
    else Null
  }

  /** The key/value reading of child elements: later children win. */
  function KeyValue(es: seq<Elem>): (r: Assoc<string, Value>)
    ensures r.Valid()
  {
    PutAll(EmptyAssoc(), NameValuePairs(es))
  }

  function NameValuePairs(es: seq<Elem>): (r: seq<(string, Value)>)
    ensures |r| == |es|
    ensures forall i :: 0 <= i < |es| ==> r[i] == (es[i].name, es[i].value)
  {
    seq(|es|, i requires 0 <= i < |es| => (es[i].name, es[i].value))
  }

  /**
   * Reads sibling elements and text up to the end tag that closes their
   * parent (which is consumed) or the end of input. Elements named in `kv`
   * are read as key/value maps.
   */
  function ReadContent(evs: seq<Event>, kv: set<string>): (r: Content)
    ensures |r.rest| <= |evs|
    decreases |evs|
  {
    if evs == [] then
      Content([], "", false, [])
    else
      match evs[0]
      case EndElement => Content([], "", false, evs[1..])
      case TextNode(s) =>
        var c := ReadContent(evs[1..], kv);
        c.(text := s + c.text, sawText := true)
      case WriteAttribute(_, _) => ReadContent(evs[1..], kv)
      case StartElement(n) =>
        var (attrs, afterAttrs) := ReadAttrs(evs[1..]);
        var inner := ReadContent(afterAttrs, kv);
        var c := ReadContent(inner.rest, kv);
        c.(elems := [Elem(n, attrs, ElementValue(n, inner, kv))] + c.elems)
  }

  /** The elements the reader returns for a whole event sequence (`parseInnerTree`). */
  function Read(evs: seq<Event>, kv: set<string>): seq<Elem> {
    ReadContent(evs, kv).elems
  }

  // ------------------------------------------- what the reader sees of a tree

  /** The element the reader returns for a written element. */
  function ReadView(e: Elem, kv: set<string>): Elem
    decreases e, 2
  {
    Elem(e.name, e.attrs, ReadValueView(e.name, e.value, kv))
  }

  function ReadValueView(name: string, v: Value, kv: set<string>): Value
    decreases v, 1
  {
    var kids := if v.Items? then ReadViews(v.elems, kv) else [];
    if name in kv then Dict(KeyValue(kids))
    else if kids != [] then Items(kids)
    else if v.Text? then Text(v.text)
    else Null
  }

  function ReadViews(es: seq<Elem>, kv: set<string>): (r: seq<Elem>)
    ensures |r| == |es|
    decreases es, 0
  {
    if es == [] then [] else [ReadView(es[0], kv)] + ReadViews(es[1..], kv)
  }

  /** The reader reads consecutive elements independently. */
  lemma {:induction false} ReadViewsAppend(a: seq<Elem>, b: seq<Elem>, kv: set<string>)
    ensures ReadViews(a + b, kv) == ReadViews(a, kv) + ReadViews(b, kv)
    decreases |a|
  {
    if a == [] {
      assert a + b == b;
    } else {
      assert (a + b)[1..] == a[1..] + b;
      ReadViewsAppend(a[1..], b, kv);
    }
  }

  lemma ReadViewsIndex(es: seq<Elem>, kv: set<string>, i: nat)
    requires i < |es|
    ensures ReadViews(es, kv)[i] == ReadView(es[i], kv)
    decreases |es|
  {
    if i > 0 {
      ReadViewsIndex(es[1..], kv, i - 1);
    }
  }

  lemma ReadAttrsOfWritten(attrs: seq<(string, string)>, tail: seq<Event>)
    requires tail == [] || !tail[0].WriteAttribute?
    ensures ReadAttrs(AttrEvents(attrs) + tail) == (attrs, tail)
    decreases |attrs|
  {
    if attrs != [] {
      assert (AttrEvents(attrs) + tail)[1..] == AttrEvents(attrs[1..]) + tail;
      ReadAttrsOfWritten(attrs[1..], tail);
      assert [attrs[0]] + attrs[1..] == attrs;
    } else {
      assert AttrEvents(attrs) + tail == tail;
    }
  }

  /**
   * Reading what the writer wrote: the written events of `es`, followed by
   * the parent's end tag, read back as the reader's view of `es`.
   */
  lemma {:induction false} ReadWritten(es: seq<Elem>, kv: set<string>, tail: seq<Event>)
    requires tail == [] || tail[0] == EndElement
    ensures ReadContent(ElemsEvents(es) + tail, kv)
         == Content(ReadViews(es, kv), "", false, if tail == [] then [] else tail[1..])
    decreases es, 2
  {
    if es != [] {
      var after := ElemsEvents(es[1..]) + tail;
      assert ElemsEvents(es) == ElemEvents(es[0]) + ElemsEvents(es[1..]);
      AppendTwo(ElemEvents(es[0]), ElemsEvents(es[1..]), tail);
      ReadWritten(es[1..], kv, tail);
      ReadElemEvents(es[0], kv, after);
      assert ReadViews(es, kv) == [ReadView(es[0], kv)] + ReadViews(es[1..], kv);
    }
  }

  /** One written element, followed by anything, reads back as its reader view followed by what the rest reads as. */
  lemma {:induction false} ReadElemEvents(e: Elem, kv: set<string>, after: seq<Event>)
    ensures ReadContent(ElemEvents(e) + after, kv)
         == ReadContent(after, kv).(elems := [ReadView(e, kv)] + ReadContent(after, kv).elems)
    decreases e, 1
  {
    var valueEvs := ValueEvents(e.value) + [EndElement] + after;
    assert ElemEvents(e) + after == [StartElement(e.name)] + (AttrEvents(e.attrs) + valueEvs);
    assert (ElemEvents(e) + after)[1..] == AttrEvents(e.attrs) + valueEvs;
    ValueEventsHead(e.value, after);
    ReadAttrsOfWritten(e.attrs, valueEvs);
    ReadElemValue(e, kv, after);
  }

  lemma ValueEventsHead(v: Value, after: seq<Event>)
    ensures !(ValueEvents(v) + [EndElement] + after)[0].WriteAttribute?
  {
    if v.Items? && v.elems != [] {
      var kids := v.elems;
      assert ElemsEvents(kids) == ElemEvents(kids[0]) + ElemsEvents(kids[1..]);
    }
  }

  /** The content the writer emits for one element reads back as its reader view. */
  lemma {:induction false} ReadElemValue(e: Elem, kv: set<string>, after: seq<Event>)
    ensures ReadContent(ValueEvents(e.value) + [EndElement] + after, kv).rest == after
    ensures ElementValue(e.name, ReadContent(ValueEvents(e.value) + [EndElement] + after, kv), kv)
         == ReadValueView(e.name, e.value, kv)
    decreases e, 0
  {
    var valueEvs := ValueEvents(e.value) + [EndElement] + after;
    match e.value {
      case Null =>
        assert valueEvs == [EndElement] + after;
      case Text(s) =>
        assert valueEvs == [TextNode(s)] + ([EndElement] + after);
        assert ReadContent([EndElement] + after, kv) == Content([], "", false, after);
      case Items(kids) =>
        assert valueEvs == ElemsEvents(kids) + ([EndElement] + after);
        ReadWritten(kids, kv, [EndElement] + after);
      case Dict(_) =>
        assert valueEvs == [EndElement] + after;
    }
  }

  /** The whole written sequence reads back as the reader's view of the tree. */
  lemma ReadOfWritten(es: seq<Elem>, kv: set<string>)
    ensures Read(ElemsEvents(es), kv) == ReadViews(es, kv)
  {
    ReadWritten(es, kv, []);
    assert ElemsEvents(es) + [] == ElemsEvents(es);
  }

  /** With no key/value elements, a writable tree reads back exactly as written. */
  lemma {:induction false} ReadViewsPlain(es: seq<Elem>)
    requires AllWritable(es)
    ensures ReadViews(es, {}) == es
    decreases es
  {
    if es != [] {
      var e := es[0];
      assert Writable(e.value);
      if e.value.Items? {
        forall i | 0 <= i < |e.value.elems| ensures Writable(e.value.elems[i].value) {
          assert AllWritable(e.value.elems);
        }
        ReadViewsPlain(e.value.elems);
      }
      assert ReadView(e, {}) == e;
      assert AllWritable(es[1..]) by {
        forall i | 0 <= i < |es[1..]| ensures Writable(es[1..][i].value) {
          assert es[1..][i] == es[i + 1];
        }
      }
      ReadViewsPlain(es[1..]);
      assert [es[0]] + es[1..] == es;
    }
  }
}
