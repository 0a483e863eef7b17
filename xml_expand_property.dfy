/**
 * The WebDAV expand-property REPORT body (section 3.8 of RFC 3253): a tree
 * of requested properties, each either a leaf or a set of sub-properties to
 * expand. The request is only ever read; writing it fails.
 */
module XmlExpandProperty {
  import opened Php
  import opened XmlTree

  const PROPERTY := "{DAV:}property"
  const DEFAULT_NAMESPACE := "DAV:"

  /** The properties requested at one level: a leaf is None, an expanded property its sub-properties. */
  datatype Expand = Expand(props: Assoc<string, Option<Expand>>)

  datatype ExpandPropertyReport = ExpandPropertyReport(properties: Assoc<string, Option<Expand>>)

  /** `serializeXml`: this element cannot be written. */
  function SerializeXml(report: ExpandPropertyReport): (r: Result<seq<Event>>)
    ensures r == Err(CannotSerialize)
  {
    Err(CannotSerialize)
  }

  // ------------------------------------------------------------- the reader

  /** The namespace attribute, or "DAV:" when it is missing. */
  function NamespaceOf(e: Elem): string {
    match AttrOf(e, "namespace")
    case Some(ns) => ns
    case None => DEFAULT_NAMESPACE
  }

  /** The name attribute; a missing one is null, which concatenates as "". */
  function LocalNameOf(e: Elem): string {
    match AttrOf(e, "name")
    case Some(n) => n
    case None => ""
  }

  /** The key a property element is stored under, in Clark notation. */
  function KeyOf(e: Elem): string {
    "{" + NamespaceOf(e) + "}" + LocalNameOf(e)
  }

  /**
   * `traverse`: the property elements among `es`, in order, each stored
   * under its key; assigning an existing key replaces its value in place.
   */
  function Traverse(es: seq<Elem>): (r: Assoc<string, Option<Expand>>)
    ensures r.Valid()
    decreases es, 1
  {
    if es == [] then EmptyAssoc()
    else
      var acc := Traverse(es[..|es| - 1]);
      var last := es[|es| - 1];
      if last.name != PROPERTY then acc
      else
        acc.PutValid(KeyOf(last), ValueOf(last));
        acc.Put(KeyOf(last), ValueOf(last))
  }

  /**
   * The value stored for a property element: its sub-properties when its
   * value is an array, else null. The entries of a key/value map are not
   * element records, so no property is found among them.
   */
  function ValueOf(e: Elem): Option<Expand>
    decreases e, 0
  {
    match e.value
    case Items(kids) => Some(Expand(Traverse(kids)))
    case Dict(_) => Some(Expand(EmptyAssoc()))
    case _ => None
  }

  /** The recursive `traverse`: a loop over the elements that recurses into each array value. */
  method TraverseElems(es: seq<Elem>) returns (result: Assoc<string, Option<Expand>>)
    ensures result == Traverse(es)
    decreases es, 1
  {
    result := EmptyAssoc();
    var i := 0;
    while i < |es|
      invariant 0 <= i <= |es|
      invariant result == Traverse(es[..i])
    {
      var elem := es[i];
      assert es[..i + 1][..i] == es[..i];
      if elem.name == PROPERTY {
        var propName := KeyOf(elem);
        var value: Option<Expand> := None;
        if elem.value.Items? {
          var sub := TraverseElems(elem.value.elems);
          value := Some(Expand(sub));
        } else if elem.value.Dict? {
          value := Some(Expand(EmptyAssoc()));
        }
        result := result.Put(propName, value);
      }
      i := i + 1;
    }
    assert es[..i] == es;
  }

  /** `deserializeXml`: the traversal of the parsed inner tree, which is empty unless it is a list of elements. */
  method DeserializeXml(inner: Value) returns (report: ExpandPropertyReport)
    ensures report.properties == Traverse(ElemsOf(inner))
  {
    var properties := TraverseElems(ElemsOf(inner));
    report := ExpandPropertyReport(properties);
  }

  // ------------------------------------------------ reference definition

  /** The assignments `traverse` makes, in order: one (key, value) pair per property element. */
  function PropPairs(es: seq<Elem>): (r: seq<(string, Option<Expand>)>)
    decreases |es|
  {
    if es == [] then []
    else
      var last := es[|es| - 1];
      PropPairs(es[..|es| - 1]) + if last.name == PROPERTY then [(KeyOf(last), ValueOf(last))] else []
  }

  // ------------------------------------------------------------- properties

  /** The value under a key is the one the last property element with that key assigned. */
  lemma {:induction false} TraverseGet(es: seq<Elem>, k: string)
    ensures Traverse(es).Get(k) == LastValue(PropPairs(es), k)
    decreases |es|
  {
    if es != [] {
      var init := es[..|es| - 1];
      TraverseGet(init, k);
      var last := es[|es| - 1];
      if last.name == PROPERTY {
        var p := PropPairs(init);
        assert PropPairs(es) == p + [(KeyOf(last), ValueOf(last))];
        assert (p + [(KeyOf(last), ValueOf(last))])[..|p|] == p;
      } else {
        assert PropPairs(es) == PropPairs(init);
      }
    }
  }

  /** A key is present iff some property element carries it: other elements contribute nothing. */
  lemma {:induction false} TraverseKeys(es: seq<Elem>, k: string)
    ensures k in Traverse(es).keys <==> CarriesKey(es, k)
    decreases |es|
  {
    if es != [] {
      var init := es[..|es| - 1];
      TraverseKeys(init, k);
      TraverseKeyStep(es, k);
      CarriesKeySnoc(es, k);
    }
  }

  /** Whether some property element of `es` carries the key. */
  predicate CarriesKey(es: seq<Elem>, k: string) {
    exists i :: 0 <= i < |es| && es[i].name == PROPERTY && KeyOf(es[i]) == k
  }

  lemma CarriesKeySnoc(es: seq<Elem>, k: string)
    requires es != []
    ensures CarriesKey(es, k) <==> CarriesKey(es[..|es| - 1], k) || (es[|es| - 1].name == PROPERTY && KeyOf(es[|es| - 1]) == k)
  {
    var init := es[..|es| - 1];
    if CarriesKey(init, k) {
      var i :| 0 <= i < |init| && init[i].name == PROPERTY && KeyOf(init[i]) == k;
      assert es[i] == init[i];
    }
    if CarriesKey(es, k) {
      var i :| 0 <= i < |es| && es[i].name == PROPERTY && KeyOf(es[i]) == k;
      if i < |init| {
        assert init[i] == es[i];
      }
    }
  }

  /** One more element adds its key when it is a property element, and nothing otherwise. */
  lemma TraverseKeyStep(es: seq<Elem>, k: string)
    requires es != []
    ensures k in Traverse(es).keys
        <==> k in Traverse(es[..|es| - 1]).keys || (es[|es| - 1].name == PROPERTY && KeyOf(es[|es| - 1]) == k)
  {
    var acc := Traverse(es[..|es| - 1]);
    var last := es[|es| - 1];
    if last.name == PROPERTY && KeyOf(last) !in acc.vals {
      assert acc.Put(KeyOf(last), ValueOf(last)).keys == acc.keys + [KeyOf(last)];
    }
  }

  /**
   * The last property element with a key decides its value: its
   * sub-properties when its value is an array, otherwise null.
   */
  lemma LastElementWins(es: seq<Elem>, j: nat)
    requires j < |es| && es[j].name == PROPERTY
    requires forall i :: j < i < |es| && es[i].name == PROPERTY ==> KeyOf(es[i]) != KeyOf(es[j])
    ensures Traverse(es).Get(KeyOf(es[j]))
         == Some(if IsArray(es[j].value) then Some(Expand(Traverse(ElemsOf(es[j].value)))) else None)
  {
    TraverseGet(es, KeyOf(es[j]));
    LastValueAt(es, j);
  }

  lemma {:induction false} LastValueAt(es: seq<Elem>, j: nat)
    requires j < |es| && es[j].name == PROPERTY
    requires forall i :: j < i < |es| && es[i].name == PROPERTY ==> KeyOf(es[i]) != KeyOf(es[j])
    ensures LastValue(PropPairs(es), KeyOf(es[j])) == Some(ValueOf(es[j]))
    decreases |es|
  {
    var init := es[..|es| - 1];
    var last := es[|es| - 1];
    var p := PropPairs(init);
    if last.name == PROPERTY {
      assert PropPairs(es) == p + [(KeyOf(last), ValueOf(last))];
      assert (p + [(KeyOf(last), ValueOf(last))])[..|p|] == p;
    } else {
      assert PropPairs(es) == p;
    }
    if j < |es| - 1 {
      forall i | j < i < |init| && init[i].name == PROPERTY ensures KeyOf(init[i]) != KeyOf(init[j]) {
        assert init[i] == es[i];
      }
      LastValueAt(init, j);
    }
  }

  /** Of two property elements with the same key, the later one wins and the earlier leaves no trace. */
  lemma LaterDuplicateWins(es: seq<Elem>, x: Elem, y: Elem)
    requires x.name == PROPERTY && y.name == PROPERTY && KeyOf(x) == KeyOf(y)
    ensures Traverse(es + [x, y]) == Traverse(es + [y])
  {
    assert (es + [x, y])[..|es| + 1] == es + [x];
    assert (es + [x])[..|es|] == es;
    assert (es + [y])[..|es|] == es;
    Traverse(es).PutPut(KeyOf(x), ValueOf(x), ValueOf(y));
  }

  /** Elements other than property are skipped. */
  lemma OtherElementsSkipped(es: seq<Elem>, e: Elem)
    requires e.name != PROPERTY
    ensures Traverse(es + [e]) == Traverse(es)
  {
    assert (es + [e])[..|es|] == es;
  }

  /**
   * Keys are unambiguous: two property elements whose namespaces contain no
   * "}" share a key only when they share the namespace and the name.
   */
  lemma KeyInjective(a: Elem, b: Elem)
    requires '}' !in NamespaceOf(a) && '}' !in NamespaceOf(b)
    ensures KeyOf(a) == KeyOf(b) <==> NamespaceOf(a) == NamespaceOf(b) && LocalNameOf(a) == LocalNameOf(b)
  {
    var na, nb := NamespaceOf(a), NamespaceOf(b);
    if KeyOf(a) == KeyOf(b) {
      KeyChars(na, LocalNameOf(a));
      KeyChars(nb, LocalNameOf(b));
      if |na| < |nb| {
        assert false;
      } else if |nb| < |na| {
        assert false;
      } else {
        assert na == KeyOf(a)[1..1 + |na|] == nb;
        assert LocalNameOf(a) == KeyOf(a)[2 + |na|..] == LocalNameOf(b);
      }
    }
  }

  /** Where the namespace and the closing brace stand in a key. */
  lemma KeyChars(ns: string, name: string)
    ensures var key := "{" + ns + "}" + name;
      |key| > 1 + |ns| && key[1 + |ns|] == '}' && forall j :: 0 <= j < |ns| ==> key[1 + j] == ns[j]
  {
  }

  /** Without a namespace attribute the key is in the DAV: namespace. */
  lemma DefaultNamespace(e: Elem)
    requires AttrOf(e, "namespace").None?
    ensures KeyOf(e) == "{DAV:}" + LocalNameOf(e)
  {
  }
}
