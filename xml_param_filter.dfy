/**
 * The CardDAV param-filter element (section 10.5.2 of RFC 6352): the
 * parameter a filter tests, whether it must be absent, and an optional
 * text match with its match type, collation and negation. The element is
 * only ever read; writing it fails.
 */
module XmlParamFilter {
  import opened Php
  import opened XmlTree

  const IS_NOT_DEFINED := "{urn:ietf:params:xml:ns:carddav}is-not-defined"
  const TEXT_MATCH := "{urn:ietf:params:xml:ns:carddav}text-match"

  const MATCH_TYPES: seq<string> := ["contains", "equals", "starts-with", "ends-with"]
  const DEFAULT_MATCH_TYPE := "contains"
  const DEFAULT_COLLATION := "i;unicode-casemap"

  datatype TextMatch = TextMatch(negateCondition: bool, collation: string, value: Value, matchType: string)

  /**
   * The result array. `test` is present (as "allof") only when the element
   * asks for all tests to match.
   */
  datatype ParamFilter = ParamFilter(name: Option<string>, isNotDefined: bool,
                                     textMatch: Option<TextMatch>, test: Option<string>)

  /** `serializeXml`: this element cannot be written. */
  function SerializeXml(f: ParamFilter): (r: Result<seq<Event>>)
    ensures r == Err(CannotSerialize)
  {
    Err(CannotSerialize)
  }

  // ------------------------------------------------------------- the reader

  /** The defaults before the children are read: the name and test come from the element's attributes. */
  function Start(e: Elem): ParamFilter {
    ParamFilter(AttrOf(e, "name"), false, None,
                if AttrOf(e, "test") == Some("allof") then Some("allof") else None)
  }

  /** A text-match's match type: its attribute, or "contains" when it has none. */
  function MatchTypeOf(kid: Elem): string {
    match AttrOf(kid, "match-type")
    case Some(t) => t
    case None => DEFAULT_MATCH_TYPE
  }

  /** The text match a text-match child describes. */
  function MatchOf(kid: Elem): TextMatch {
    TextMatch(AttrOf(kid, "negate-condition") == Some("yes"),
              match AttrOf(kid, "collation") case Some(c) => c case None => DEFAULT_COLLATION,
              kid.value,
              MatchTypeOf(kid))
  }

  /** One child: is-not-defined sets the flag, a text-match with an unknown match type is a bad request. */
  function ParamStep(acc: Result<ParamFilter>, kid: Elem): Result<ParamFilter> {
    match acc
    case Err(err) => Err(err)
    case Ok(f) =>
      if kid.name == IS_NOT_DEFINED then Ok(f.(isNotDefined := true))
      else if kid.name == TEXT_MATCH then
        if MatchTypeOf(kid) !in MATCH_TYPES then Err(BadRequest)
        else Ok(f.(textMatch := Some(MatchOf(kid))))
      else Ok(f)
  }

  /** `deserializeXml`, given the element with its attributes and its parsed inner tree. */
  function ReadParamFilter(e: Elem): Result<ParamFilter> {
    Foreach(ParamStep, Ok(Start(e)), ElemsOf(e.value))
  }

  /** An error, once raised, ends the loop. */
  lemma {:induction false} ErrorStays(err: Error, kids: seq<Elem>)
    ensures Foreach(ParamStep, Err(err), kids) == Err(err)
    decreases |kids|
  {
    if kids != [] {
      ErrorStays(err, kids[..|kids| - 1]);
    }
  }

  method DeserializeXml(e: Elem) returns (r: Result<ParamFilter>)
    ensures r == ReadParamFilter(e)
  {
    var result := Start(e);
    var elems := ElemsOf(e.value);
    var i := 0;
    while i < |elems|
      invariant 0 <= i <= |elems|
      invariant Foreach(ParamStep, Ok(Start(e)), elems[..i]) == Ok(result)
    {
      ForeachNext(ParamStep, Ok(Start(e)), elems, i);
      var elem := elems[i];
      if elem.name == IS_NOT_DEFINED {
        result := result.(isNotDefined := true);
      } else if elem.name == TEXT_MATCH {
        var matchType := MatchTypeOf(elem);
        if matchType !in MATCH_TYPES {
          ForeachAppend(ParamStep, Ok(Start(e)), elems[..i + 1], elems[i + 1..]);
          ErrorStays(BadRequest, elems[i + 1..]);
          assert elems[..i + 1] + elems[i + 1..] == elems;
          return Err(BadRequest);
        }
        result := result.(textMatch := Some(MatchOf(elem)));
      }
      i := i + 1;
    }
    assert elems[..i] == elems;
    r := Ok(result);
  }

  // ------------------------------------------------ reference definitions

  /** Every text-match child names one of the four known match types (or none). */
  predicate AllMatchTypesKnown(kids: seq<Elem>) {
    forall i :: 0 <= i < |kids| && kids[i].name == TEXT_MATCH ==> MatchTypeOf(kids[i]) in MATCH_TYPES
  }

  /** Some child is is-not-defined. */
  predicate AnyNotDefined(kids: seq<Elem>) {
    exists i :: 0 <= i < |kids| && kids[i].name == IS_NOT_DEFINED
  }

  /** The text match of the last text-match child, if any. */
  function LastMatch(kids: seq<Elem>): Option<TextMatch>
    decreases |kids|
  {
    if kids == [] then None
    else if kids[|kids| - 1].name == TEXT_MATCH then Some(MatchOf(kids[|kids| - 1]))
    else LastMatch(kids[..|kids| - 1])
  }

  lemma {:induction false} ReadMeaning(e: Elem, kids: seq<Elem>)
    ensures Foreach(ParamStep, Ok(Start(e)), kids)
         == if AllMatchTypesKnown(kids)
            then Ok(Start(e).(isNotDefined := AnyNotDefined(kids), textMatch := LastMatch(kids)))
            else Err(BadRequest)
    decreases |kids|
  {
    if kids != [] {
      var init := kids[..|kids| - 1];
      var last := kids[|kids| - 1];
      ReadMeaning(e, init);
      assert forall i :: 0 <= i < |init| ==> init[i] == kids[i];
      assert AllMatchTypesKnown(kids) <==> AllMatchTypesKnown(init) && (last.name == TEXT_MATCH ==> MatchTypeOf(last) in MATCH_TYPES);
      assert AnyNotDefined(kids) <==> AnyNotDefined(init) || last.name == IS_NOT_DEFINED;
      if !AllMatchTypesKnown(init) {
        ErrorStays(BadRequest, [last]);
      }
    }
  }

  // ------------------------------------------------------------- properties

  /**
   * The element is accepted iff every text-match child has a known match
   * type, and every rejection is a bad request. When accepted, the name is
   * the name attribute, `test` is "allof" exactly when the attribute says
   * so and is absent otherwise, is-not-defined is set iff some child is
   * is-not-defined, and the text match is the last text-match child's.
   */
  lemma ReadParamFilterMeaning(e: Elem)
    ensures ReadParamFilter(e).Ok? <==> AllMatchTypesKnown(ElemsOf(e.value))
    ensures ReadParamFilter(e).Err? ==> ReadParamFilter(e).error == BadRequest
    ensures ReadParamFilter(e).Ok? ==>
      && ReadParamFilter(e).value.name == AttrOf(e, "name")
      && (ReadParamFilter(e).value.test == Some("allof") <==> AttrOf(e, "test") == Some("allof"))
      && (ReadParamFilter(e).value.test.Some? ==> ReadParamFilter(e).value.test == Some("allof"))
      && (ReadParamFilter(e).value.isNotDefined <==> AnyNotDefined(ElemsOf(e.value)))
      && ReadParamFilter(e).value.textMatch == LastMatch(ElemsOf(e.value))
  {
    ReadMeaning(e, ElemsOf(e.value));
  }

  /**
   * A text match negates its condition iff its negate-condition attribute is
   * exactly "yes"; without a collation or match-type attribute it uses
   * i;unicode-casemap and contains; otherwise the attributes as given.
   */
  lemma MatchOfMeaning(kid: Elem)
    ensures MatchOf(kid).negateCondition <==> AttrOf(kid, "negate-condition") == Some("yes")
    ensures AttrOf(kid, "collation").None? ==> MatchOf(kid).collation == "i;unicode-casemap"
    ensures AttrOf(kid, "collation").Some? ==> MatchOf(kid).collation == AttrOf(kid, "collation").value
    ensures AttrOf(kid, "match-type").None? ==> MatchOf(kid).matchType == "contains"
    ensures AttrOf(kid, "match-type").Some? ==> MatchOf(kid).matchType == AttrOf(kid, "match-type").value
    ensures MatchOf(kid).value == kid.value
  {
  }

  /** The default match type is one of the known ones, so a text-match without the attribute is accepted. */
  lemma DefaultMatchTypeKnown()
    ensures DEFAULT_MATCH_TYPE in MATCH_TYPES
  {
  }

  /** A param-filter whose inner tree is not a list of elements keeps the defaults. */
  lemma NoChildrenKeepsDefaults(e: Elem)
    requires !e.value.Items?
    ensures ReadParamFilter(e) == Ok(Start(e))
  {
  }
}
