/**
 * The write side of the core plugin: the PROPPATCH body, the protected-property
 * check and the replies of PROPPATCH, PUT, MKCOL, MOVE and COPY, together with
 * the server methods they call (lib/DAV/CorePlugin.php: httpPropPatch,
 * httpPut, httpMkcol, httpMove, httpCopy, propPatchProtectedPropertyCheck;
 * lib/DAV/Server.php: parsePropPatchRequest, createFile, updateFile,
 * createCollection).
 *
 * The tree, the nodes' own methods and the event listeners are not part of
 * this model: what they answer is an input, and what a handler asks the tree
 * to do is returned as a list of TreeOps, in call order.
 */
module DavHttp {
  import opened Php
  import opened DavTree
  import opened DavHeaders
  import DavCoreProps

  const SET: string := "{DAV:}set"
  const REMOVE: string := "{DAV:}remove"
  const MKCOL: string := "{DAV:}mkcol"
  const RESOURCE_TYPE: string := "{DAV:}resourcetype"

  /**
   * A parsed property value. The server's property map turns every
   * `{DAV:}resourcetype` into a ResourceType (its list of type names); every
   * other value is kept as the parser left it.
   */
  datatype PatchValue = ResourceTypeValue(types: seq<string>) | OtherValue(raw: string)

  /** Property name to new value; None (PHP null) asks for removal. */
  type Mutations = Assoc<string, Option<PatchValue>>

  /** A child of the request's root element: text, or an element with its parsed properties. */
  datatype DomChild = TextNode | ElementNode(name: string, properties: seq<(string, PatchValue)>)

  /** What a handler asks the tree and the nodes to do. */
  datatype TreeOp =
    | Delete(uri: string)
    | MoveTo(source: string, destination: string)
    | CopyTo(source: string, destination: string)
    | CreateDirectory(parentUri: string, name: string)
    | CreateExtended(parentUri: string, name: string, resourceType: seq<string>, properties: Assoc<string, PatchValue>)

  /** The effects a call had and how it ended: a value or the exception it threw. */
  datatype Outcome<T> = Outcome(ops: seq<TreeOp>, result: Result<T>)

  /** Whether the listeners of `beforeBind` / `beforeUnbind` let the event through for a URI. */
  datatype Listeners = Listeners(beforeBind: string -> bool, beforeUnbind: string -> bool)

  // ------------------------------------------------------ parsePropPatchRequest

  /** The assignments one child of `{DAV:}propertyupdate` makes: set keeps the value, remove nulls it. */
  function ChildPairs(c: DomChild): (r: seq<(string, Option<PatchValue>)>)
    ensures c.TextNode? || (c.name != SET && c.name != REMOVE) ==> r == []
    ensures c.ElementNode? && (c.name == SET || c.name == REMOVE) ==> |r| == |c.properties|
    ensures c.ElementNode? && c.name == SET ==>
      forall i :: 0 <= i < |r| ==> r[i] == (c.properties[i].0, Some(c.properties[i].1))
    ensures c.ElementNode? && c.name == REMOVE ==>
      forall i :: 0 <= i < |r| ==> r[i] == (c.properties[i].0, None)
  {
    match c
    case TextNode => []
    case ElementNode(op, ps) =>
      if op == SET then seq(|ps|, i requires 0 <= i < |ps| => (ps[i].0, Some(ps[i].1)))
      else if op == REMOVE then seq(|ps|, i requires 0 <= i < |ps| => (ps[i].0, None))
      else []
  }

  /** The assignments the children make, in document order. */
  function PatchPairs(children: seq<DomChild>): seq<(string, Option<PatchValue>)>
  {
    if children == [] then [] else ChildPairs(children[0]) + PatchPairs(children[1..])
  }

  /** The assignments of consecutive children follow each other. */
  lemma {:induction false} PatchPairsAppend(a: seq<DomChild>, b: seq<DomChild>)
    ensures PatchPairs(a + b) == PatchPairs(a) + PatchPairs(b)
  {
    if a == [] {
      assert a + b == b;
    } else {
      assert (a + b)[1..] == a[1..] + b;
      PatchPairsAppend(a[1..], b);
    }
  }

  /**
   * `parsePropPatchRequest()` after the XML has been read: every property of
   * a set or remove element is assigned in document order, so a later
   * assignment to the same name wins and keeps the name's first position.
   */
  method ParsePropPatchRequest(children: seq<DomChild>) returns (props: Mutations)
    ensures props.Valid()
    ensures props == PutAll(EmptyAssoc(), PatchPairs(children))
  {
    props := EmptyAssoc();
    var i := 0;
    while i < |children|
      invariant i <= |children|
      invariant props == PutAll(EmptyAssoc(), PatchPairs(children[..i]))
    {
      var child := children[i];
      ghost var done := PatchPairs(children[..i]);
      ghost var pairs := ChildPairs(child);
      if child.ElementNode? && (child.name == SET || child.name == REMOVE) {
        var ps := child.properties;
        var j := 0;
        assert done + pairs[..0] == done;
        while j < |ps|
          invariant j <= |ps|
          invariant props == PutAll(EmptyAssoc(), done + pairs[..j])
        {
          var value: Option<PatchValue> := if child.name == REMOVE then None else Some(ps[j].1);
          var props' := props.Put(ps[j].0, value);
          AssignNext(done, pairs, j, props, props');
          props := props';
          j := j + 1;
        }
        assert pairs[..j] == pairs;
      } else {
        assert done + pairs == done;
      }
      PatchNext(children, i, props);
      i := i + 1;
    }
    assert children[..i] == children;
  }

  lemma PatchNext(children: seq<DomChild>, i: nat, props: Mutations)
    requires i < |children| && props == PutAll(EmptyAssoc(), PatchPairs(children[..i]) + ChildPairs(children[i]))
    ensures props == PutAll(EmptyAssoc(), PatchPairs(children[..i + 1]))
  {
    assert children[..i + 1] == children[..i] + [children[i]];
    PatchPairsAppend(children[..i], [children[i]]);
    assert PatchPairs([children[i]]) == ChildPairs(children[i]);
  }

  lemma AssignNext(done: seq<(string, Option<PatchValue>)>, pairs: seq<(string, Option<PatchValue>)>, j: nat,
                   props: Mutations, props': Mutations)
    requires j < |pairs| && props == PutAll(EmptyAssoc(), done + pairs[..j])
    requires props' == props.Put(pairs[j].0, pairs[j].1)
    ensures props' == PutAll(EmptyAssoc(), done + pairs[..j + 1])
  {
    PutAllSnoc(EmptyAssoc(), done + pairs[..j], pairs[j].0, pairs[j].1);
    assert done + pairs[..j + 1] == (done + pairs[..j]) + [pairs[j]];
  }

  /** Whether a child assigns the name. */
  predicate Mentions(c: DomChild, name: string) {
    exists p :: p in ChildPairs(c) && p.0 == name
  }

  /** Each property ends up with its last assignment in the body. */
  lemma PatchLastWins(children: seq<DomChild>, name: string)
    ensures PutAll(EmptyAssoc(), PatchPairs(children)).Get(name) == LastValue(PatchPairs(children), name)
  {
    PutAllLastWins(EmptyAssoc<string, Option<PatchValue>>(), PatchPairs(children), name);
  }

  /**
   * A property listed in a remove element and not mentioned by any later
   * set or remove element is passed on as null, whatever earlier elements
   * set it to.
   */
  lemma RemoveLastGivesNull(front: seq<DomChild>, ps: seq<(string, PatchValue)>, back: seq<DomChild>, name: string)
    requires exists i :: 0 <= i < |ps| && ps[i].0 == name
    requires forall c :: c in back ==> !Mentions(c, name)
    ensures PutAll(EmptyAssoc(), PatchPairs(front + [ElementNode(REMOVE, ps)] + back)).Get(name) == Some(None)
  {
    var c := ElementNode(REMOVE, ps);
    var pairs := ChildPairs(c);
    PatchPairsAppend(front + [c], back);
    PatchPairsAppend(front, [c]);
    assert PatchPairs([c]) == pairs;
    var i :| 0 <= i < |ps| && ps[i].0 == name;
    LastValueUniform(pairs, name, None, i);
    PatchPairsSilent(back, name);
    LastValueAppend(PatchPairs(front), pairs, name);
    LastValueAppend(PatchPairs(front) + pairs, PatchPairs(back), name);
    PatchLastWins(front + [c] + back, name);
  }

  lemma {:induction false} PatchPairsSilent(cs: seq<DomChild>, name: string)
    requires forall c :: c in cs ==> !Mentions(c, name)
    ensures LastValue(PatchPairs(cs), name) == None
  {
    if cs != [] {
      assert cs[0] in cs;
      assert forall c :: c in cs[1..] ==> c in cs;
      PatchPairsSilent(cs[1..], name);
      LastValueAbsent(ChildPairs(cs[0]), name);
      LastValueAppend(ChildPairs(cs[0]), PatchPairs(cs[1..]), name);
    }
  }

  /** The last assignment in `a + b` is `b`'s when `b` has one. */
  lemma {:induction false} LastValueAppend<V>(a: seq<(string, V)>, b: seq<(string, V)>, k: string)
    ensures LastValue(a + b, k) == if LastValue(b, k).Some? then LastValue(b, k) else LastValue(a, k)
    decreases |b|
  {
    if b == [] {
      assert a + b == a;
    } else {
      assert (a + b)[..|a + b| - 1] == a + b[..|b| - 1];
      LastValueAppend(a, b[..|b| - 1], k);
    }
  }

  lemma {:induction false} LastValueAbsent<V>(pairs: seq<(string, V)>, k: string)
    requires forall p :: p in pairs ==> p.0 != k
    ensures LastValue(pairs, k) == None
    decreases |pairs|
  {
    if pairs != [] {
      assert pairs[|pairs| - 1] in pairs;
      assert forall p :: p in pairs[..|pairs| - 1] ==> p in pairs;
      LastValueAbsent(pairs[..|pairs| - 1], k);
    }
  }

  /** When every assignment to `k` assigns `v` and one exists, the last one is `v`. */
  lemma {:induction false} LastValueUniform<V>(pairs: seq<(string, V)>, k: string, v: V, i: nat)
    requires i < |pairs| && pairs[i].0 == k
    requires forall j :: 0 <= j < |pairs| && pairs[j].0 == k ==> pairs[j].1 == v
    ensures LastValue(pairs, k) == Some(v)
    decreases |pairs|
  {
    if pairs[|pairs| - 1].0 != k {
      LastValueUniform(pairs[..|pairs| - 1], k, v, i);
    }
  }

  // ---------------------------------------------------- protected properties

  /** `Server::$protectedProperties`: live properties of RFC 4918, 4331, 3744 and 3253. */
  const PROTECTED: seq<string> := [
    "{DAV:}getcontentlength",
    "{DAV:}getetag",
    "{DAV:}getlastmodified",
    "{DAV:}lockdiscovery",
    "{DAV:}supportedlock",
    "{DAV:}quota-available-bytes",
    "{DAV:}quota-used-bytes",
    "{DAV:}supported-privilege-set",
    "{DAV:}current-user-privilege-set",
    "{DAV:}acl",
    "{DAV:}acl-restrictions",
    "{DAV:}inherited-acl-set",
    "{DAV:}supported-method-set",
    "{DAV:}supported-report-set"
  ]

  /**
   * Every property the core computes is protected from PROPPATCH except
   * getcontenttype and resourcetype, which are not on the list.
   */
  lemma ComputedPropertiesProtected()
    ensures forall name :: name in DavCoreProps.CoreNames ==>
      (name in PROTECTED <==> name != DavCoreProps.CONTENT_TYPE && name != DavCoreProps.RESOURCE_TYPE)
  {
  }

  /** A PROPPATCH in progress: the requested mutations and the status decided for each name so far. */
  class PropPatch {
    var mutations: Mutations
    var resultCodes: map<string, int>

    constructor(mutations: Mutations)
      ensures this.mutations == mutations && resultCodes == map[]
    {
      this.mutations := mutations;
      resultCodes := map[];
    }

    /** `setResultCode($names, $code)`: every listed name gets the code. */
    method SetResultCode(names: seq<string>, code: int)
      modifies this
      ensures mutations == old(mutations)
      ensures resultCodes == old(resultCodes) + map n | n in names :: code
    {
      resultCodes := resultCodes + map n | n in names :: code;
    }
  }

  /** `array_intersect($protected, array_keys($mutations))`: the protected names being mutated, in list order. */
  function ProtectedMutations(protectedList: seq<string>, mutated: seq<string>): (r: seq<string>)
    ensures forall n :: n in r <==> n in protectedList && n in mutated
    ensures |r| <= |protectedList|
  {
    if protectedList == [] then []
    else
      var rest := ProtectedMutations(protectedList[1..], mutated);
      if protectedList[0] in mutated then [protectedList[0]] + rest else rest
  }

  /**
   * `propPatchProtectedPropertyCheck()`: every mutated name on the protected
   * list is answered 403; no other name and no mutation changes.
   */
  method ProtectedPropertyCheck(pp: PropPatch, protectedList: seq<string>)
    modifies pp
    ensures pp.mutations == old(pp.mutations)
    ensures pp.resultCodes == old(pp.resultCodes) + map n | n in protectedList && n in old(pp.mutations.keys) :: 403
  {
    var mutated := ProtectedMutations(protectedList, pp.mutations.keys);
    if mutated != [] {
      pp.SetResultCode(mutated, 403);
    } else {
      assert (map n | n in protectedList && n in pp.mutations.keys :: 403) == map[];
    }
  }

  // ------------------------------------------------------------- PROPPATCH

  /** Success for PROPPATCH: every code is at most 299. */
  predicate AllSucceeded(codes: Assoc<string, int>) {
    forall k :: k in codes.vals ==> codes.vals[k] <= 299
  }

  /** The property names grouped under each status code, codes in order of first appearance. */
  type Groups = Assoc<int, seq<string>>

  /** The multistatus entry of one resource: its href and the names under each code, all with null values. */
  datatype MultiStatus = MultiStatus(href: string, groups: Groups)

  function AddToGroup(g: Groups, name: string, code: int): (g': Groups)
    requires g.Valid()
    ensures g'.Valid()
  {
    g.PutValid(code, if code in g.vals then g.vals[code] + [name] else [name]);
    g.Put(code, if code in g.vals then g.vals[code] + [name] else [name])
  }

  /** The grouping of the pairs a `foreach` over the result visits. */
  function GroupPairs(pairs: seq<(string, int)>): (g: Groups)
    ensures g.Valid()
  {
    if pairs == [] then EmptyAssoc()
    else AddToGroup(GroupPairs(pairs[..|pairs| - 1]), pairs[|pairs| - 1].0, pairs[|pairs| - 1].1)
  }

  /** The names of a name-to-code result, grouped by code. */
  function GroupByCode(codes: Assoc<string, int>): Groups
    requires codes.Valid()
  {
    GroupPairs(codes.Pairs())
  }

  /** A name sits in the group of a code iff that pair is visited. */
  lemma {:induction false} GroupPairsMembers(pairs: seq<(string, int)>, code: int, name: string)
    ensures var g := GroupPairs(pairs);
      (code in g.vals && name in g.vals[code]) <==> (name, code) in pairs
    decreases |pairs|
  {
    if pairs != [] {
      var init := pairs[..|pairs| - 1];
      GroupPairsMembers(init, code, name);
      assert pairs == init + [pairs[|pairs| - 1]];
      GroupStep(GroupPairs(init), pairs[|pairs| - 1].0, pairs[|pairs| - 1].1, code, name);
    }
  }

  /** Adding one name to the grouping adds exactly that name under exactly its code. */
  lemma GroupStep(g: Groups, k: string, c: int, code: int, name: string)
    requires g.Valid()
    ensures var g' := AddToGroup(g, k, c);
      (code in g'.vals && name in g'.vals[code]) <==> (code in g.vals && name in g.vals[code]) || (name == k && c == code)
  {
  }

  lemma {:induction false} GroupsNonEmpty(pairs: seq<(string, int)>, code: int)
    ensures code in GroupPairs(pairs).vals ==> GroupPairs(pairs).vals[code] != []
    decreases |pairs|
  {
    if pairs != [] {
      GroupsNonEmpty(pairs[..|pairs| - 1], code);
    }
  }

  /**
   * The grouping of a whole result partitions it: every name sits in the
   * group of its own code, a group holds no other name, and every group
   * belongs to a code some name got.
   */
  lemma GroupsPartition(codes: Assoc<string, int>, name: string, code: int)
    requires codes.Valid()
    ensures var g := GroupByCode(codes);
      code in g.vals && name in g.vals[code] <==> name in codes.vals && codes.vals[name] == code
    ensures var g := GroupByCode(codes);
      code in g.vals ==> exists n :: n in codes.vals && codes.vals[n] == code
  {
    var pairs := codes.Pairs();
    GroupPairsMembers(pairs, code, name);
    codes.PairsHas(name, code);
    var g := GroupByCode(codes);
    if code in g.vals {
      GroupsNonEmpty(pairs, code);
      var first := g.vals[code][0];
      GroupPairsMembers(pairs, code, first);
      codes.PairsHas(first, code);
    }
  }

  /** The grouping loop of `httpPropPatch()` (and the one of `createCollection()`). */
  method GroupCodes(pairs: seq<(string, int)>) returns (g: Groups)
    ensures g == GroupPairs(pairs)
  {
    g := EmptyAssoc();
    var i := 0;
    while i < |pairs|
      invariant i <= |pairs|
      invariant g == GroupPairs(pairs[..i])
    {
      assert pairs[..i + 1][..i] == pairs[..i];
      g := AddToGroup(g, pairs[i].0, pairs[i].1);
      i := i + 1;
    }
    assert pairs[..i] == pairs;
  }

  datatype PatchReply = PatchNoContent | PatchMultiStatus(entry: MultiStatus)

  /**
   * The reply of `httpPropPatch()` to the result of updateProperties: 204
   * when return-minimal was asked for and nothing failed, otherwise 207 with
   * the names grouped by code under the request path.
   */
  method HttpPropPatch(path: string, result: Assoc<string, int>, prefer: Prefer) returns (reply: PatchReply)
    requires result.Valid()
    ensures reply.PatchNoContent? <==> prefer.returnMinimal && AllSucceeded(result)
    ensures reply.PatchMultiStatus? ==> reply.entry == MultiStatus(path, GroupByCode(result))
  {
    var pairs := result.Pairs();
    if prefer.returnMinimal {
      var ok := true;
      var i := 0;
      while i < |pairs|
        invariant i <= |pairs|
        invariant ok <==> forall j :: 0 <= j < i ==> pairs[j].1 <= 299
      {
        if pairs[i].1 > 299 {
          ok := false;
        }
        i := i + 1;
      }
      if ok {
        assert forall k :: k in result.vals ==> exists j :: 0 <= j < |result.keys| && result.keys[j] == k;
        return PatchNoContent;
      }
    }
    var groups := GroupCodes(pairs);
    reply := PatchMultiStatus(MultiStatus(path, groups));
  }

  // ------------------------------------------------------------------- PUT

  /** What a `beforeWriteContent` / `beforeCreateFile` listener did: let the write through, and whether it changed the body. */
  datatype Listener = Listener(proceed: bool, modified: bool)

  datatype PutRequest = PutRequest(
    contentRange: Option<string>,
    expectedEntityLength: Option<string>,
    expectedPositive: bool,    // whether `$expected > 0` holds under PHP's loose comparison
    bodyEmpty: bool)           // reading the first byte of the body yields nothing

  datatype PutWorld = PutWorld(
    target: Option<set<Interface>>,   // the node at the path, if any, by the interfaces it implements
    parent: Option<set<Interface>>,   // the node at the parent path; None when the tree throws NotFound
    listeners: Listeners,
    write: Listener,
    create: Listener,
    etag: Option<string>)             // what `put()` / `createFile()` on the node returns

  /** Vetoed: a listener stopped the request and no status is set. Otherwise the ETag header sent, if any. */
  datatype PutOutcome = PutVetoed | Updated(etag: Option<string>) | Created(etag: Option<string>)

  function PutStatus(o: PutOutcome): (s: Option<int>)
    ensures s.Some? <==> !o.PutVetoed?
  {
    match o
    case PutVetoed => None
    case Updated(_) => Some(204)
    case Created(_) => Some(201)
  }

  /** The ETag header: the node's answer, unless a listener changed the body or it is falsy. */
  function SentEtag(l: Listener, etag: Option<string>): Option<string> {
    if l.modified || !OptTruthy(etag) then None else etag
  }

  /** `updateFile()`: the `beforeWriteContent` listener may stop the write. */
  function UpdateFile(w: PutWorld): PutOutcome {
    if !w.write.proceed then PutVetoed else Updated(SentEtag(w.write, w.etag))
  }

  /** `createFile()`: bind check, then a collection parent, then `beforeCreateFile`. */
  function CreateFile(path: string, w: PutWorld): Result<PutOutcome> {
    if !w.listeners.beforeBind(path) then Ok(PutVetoed)
    else if w.parent.None? then Err(NotFound)
    else if ICollection !in w.parent.value then Err(Conflict)
    else if !w.create.proceed then Ok(PutVetoed)
    else Ok(Created(SentEtag(w.create, w.etag)))
  }

  /** `httpPut()`: the request checks, then update of an existing file or creation of a new one. */
  function HttpPut(path: string, req: PutRequest, w: PutWorld): (r: Result<PutOutcome>)
    ensures r == Err(NotImplemented) <==> OptTruthy(req.contentRange)
    ensures !OptTruthy(req.contentRange) ==>
      (r == Err(Forbidden) <==> OptTruthy(req.expectedEntityLength) && req.expectedPositive && req.bodyEmpty)
    ensures r.Ok? && r.value.Updated? ==> w.target.Some? && IFile in w.target.value && w.write.proceed
    ensures r.Ok? && r.value.Created? ==>
      w.target.None? && w.parent.Some? && ICollection in w.parent.value && w.create.proceed && w.listeners.beforeBind(path)
    ensures r.Ok? && !r.value.PutVetoed? && r.value.etag.Some? ==> r.value.etag == w.etag && Truthy(w.etag.value)
  {
    if OptTruthy(req.contentRange) then Err(NotImplemented)
    else if OptTruthy(req.expectedEntityLength) && req.expectedPositive && req.bodyEmpty then Err(Forbidden)
    else if w.target.Some? then
      if IFile !in w.target.value then Err(Conflict) else Ok(UpdateFile(w))
    else CreateFile(path, w)
  }

  /** PUT never writes over a collection or another non-file: it answers Conflict before any listener runs. */
  lemma PutOnNonFileConflicts(path: string, req: PutRequest, w: PutWorld)
    requires !OptTruthy(req.contentRange) && !(OptTruthy(req.expectedEntityLength) && req.expectedPositive && req.bodyEmpty)
    requires w.target.Some? && IFile !in w.target.value
    ensures HttpPut(path, req, w) == Err(Conflict)
  {
  }

  /** A successful PUT answers 204 for an existing file and 201 for a new one; a listener's change to the body suppresses the ETag. */
  lemma PutStatusFollowsExistence(path: string, req: PutRequest, w: PutWorld)
    requires HttpPut(path, req, w).Ok? && !HttpPut(path, req, w).value.PutVetoed?
    ensures PutStatus(HttpPut(path, req, w).value) == Some(if w.target.Some? then 204 else 201)
    ensures (if w.target.Some? then w.write.modified else w.create.modified) ==> HttpPut(path, req, w).value.etag.None?
  {
  }

  // ----------------------------------------------------------------- MKCOL

  /** `strpos($contentType, ...) === 0` for either XML media type; a missing header reads as "". */
  predicate XmlContentType(contentType: Option<string>) {
    var ct := if contentType.Some? then contentType.value else "";
    StartsWith(ct, "application/xml") || StartsWith(ct, "text/xml")
  }

  /** The properties one child of `{DAV:}mkcol` contributes: those of a set element, none otherwise. */
  function SetProps(c: DomChild): seq<(string, PatchValue)> {
    if c.ElementNode? && c.name == SET then c.properties else []
  }

  function SetPairs(children: seq<DomChild>, n: nat): seq<(string, PatchValue)>
    requires n <= |children|
  {
    if n == 0 then [] else SetPairs(children, n - 1) + SetProps(children[n - 1])
  }

  /**
   * The merge loop of `httpMkcol()`. Property names are Clark notation and
   * never numeric, so `array_merge` assigns each pair in order: the last
   * set element naming a property wins.
   */
  method MergeSetProperties(children: seq<DomChild>) returns (props: Assoc<string, PatchValue>)
    ensures props == PutAll(EmptyAssoc(), SetPairs(children, |children|))
  {
    props := EmptyAssoc();
    var i := 0;
    assert SetPairs(children, 0) == [];
    while i < |children|
      invariant i <= |children|
      invariant props == PutAll(EmptyAssoc(), SetPairs(children, i))
    {
      var props' := props;
      if children[i].ElementNode? && children[i].name == SET {
        props' := PutAll(props, children[i].properties);
      }
      MergeNext(children, i, props, props');
      props := props';
      i := i + 1;
    }
  }

  lemma MergeNext(children: seq<DomChild>, i: nat, props: Assoc<string, PatchValue>, props': Assoc<string, PatchValue>)
    requires i < |children| && props == PutAll(EmptyAssoc(), SetPairs(children, i))
    requires props' == if children[i].ElementNode? && children[i].name == SET then PutAll(props, children[i].properties) else props
    ensures props' == PutAll(EmptyAssoc(), SetPairs(children, i + 1))
  {
    PutAllAppend(EmptyAssoc(), SetPairs(children, i), SetProps(children[i]));
  }

  /** The type names a resourcetype value carries (a parsed body only ever yields ResourceTypeValue here). */
  function TypesOf(v: PatchValue): seq<string> {
    match v
    case ResourceTypeValue(ts) => ts
    case OtherValue(_) => []
  }

  datatype MkcolRequest = MkcolRequest(
    body: string,
    contentType: Option<string>,
    root: string,                // Clark name of the body's root element
    children: seq<DomChild>)     // the root's children

  /** The resource type and the other properties a MKCOL asks for. */
  datatype MkcolTarget = MkcolTarget(resourceType: seq<string>, properties: Assoc<string, PatchValue>)

  /**
   * The request checks of `httpMkcol()`: a body needs an XML media type, a
   * `{DAV:}mkcol` root and a `{DAV:}resourcetype` among its set properties,
   * which is taken out of the properties; no body means a plain collection.
   */
  function MkcolTargetOf(req: MkcolRequest): (r: Result<MkcolTarget>)
    ensures !Truthy(req.body) ==> r == Ok(MkcolTarget([COLLECTION], EmptyAssoc()))
    ensures r == Err(UnsupportedMediaType) <==> Truthy(req.body) && (!XmlContentType(req.contentType) || req.root != MKCOL)
    ensures r == Err(BadRequest) <==>
      Truthy(req.body) && XmlContentType(req.contentType) && req.root == MKCOL &&
      LastValue(SetPairs(req.children, |req.children|), RESOURCE_TYPE).None?
    ensures r.Ok? && Truthy(req.body) ==>
      && LastValue(SetPairs(req.children, |req.children|), RESOURCE_TYPE).Some?
      && r.value.resourceType == TypesOf(LastValue(SetPairs(req.children, |req.children|), RESOURCE_TYPE).value)
      && r.value.properties.Valid()
      && RESOURCE_TYPE !in r.value.properties.vals
      && forall name :: name != RESOURCE_TYPE ==>
           r.value.properties.Get(name) == LastValue(SetPairs(req.children, |req.children|), name)
  {
    if !Truthy(req.body) then Ok(MkcolTarget([COLLECTION], EmptyAssoc()))
    else if !XmlContentType(req.contentType) || req.root != MKCOL then Err(UnsupportedMediaType)
    else
      var pairs := SetPairs(req.children, |req.children|);
      var merged := PutAll(EmptyAssoc(), pairs);
      MergedLastWins(pairs);
      if RESOURCE_TYPE !in merged.vals then Err(BadRequest)
      else Ok(MkcolTarget(TypesOf(merged.vals[RESOURCE_TYPE]), merged.Remove(RESOURCE_TYPE)))
  }

  lemma MergedLastWins(pairs: seq<(string, PatchValue)>)
    ensures forall name :: PutAll(EmptyAssoc(), pairs).Get(name) == LastValue(pairs, name)
  {
    forall name
      ensures PutAll(EmptyAssoc(), pairs).Get(name) == LastValue(pairs, name)
    {
      PutAllLastWins(EmptyAssoc<string, PatchValue>(), pairs, name);
    }
  }

  datatype MkcolReply = MkcolCreated | MkcolMultiStatus(entry: MultiStatus)

  /** `httpMkcol()`: 201 unless createCollection returns a multistatus, which is answered with 207. */
  function HttpMkcol(path: string, req: MkcolRequest, w: CollectionWorld): (r: Outcome<MkcolReply>)
    requires WorldValid(w)
    ensures MkcolTargetOf(req).Err? ==> r == Outcome([], Err(MkcolTargetOf(req).error))
    ensures r.result.Ok? && r.result.value.MkcolMultiStatus? ==> Delete(path) in r.ops
  {
    match MkcolTargetOf(req)
    case Err(e) => Outcome([], Err(e))
    case Ok(t) =>
      var c := CreateCollection(path, t.resourceType, t.properties, w);
      match c.result
      case Err(e) => Outcome(c.ops, Err(e))
      case Ok(None) => Outcome(c.ops, Ok(MkcolCreated))
      case Ok(Some(ms)) => Outcome(c.ops, Ok(MkcolMultiStatus(ms)))
  }

  /** A MKCOL without a body asks for a plain collection and creates it with no properties. */
  lemma MkcolWithoutBody(path: string, req: MkcolRequest, w: CollectionWorld)
    requires WorldValid(w) && !Truthy(req.body)
    requires w.parent.Some? && ICollection in w.parent.value && IExtendedCollection !in w.parent.value
    requires !w.childExists && w.listeners.beforeBind(path)
    ensures HttpMkcol(path, req, w) == Outcome([CreateDirectory(w.parentUri, w.newName)], Ok(MkcolCreated))
  {
  }

  // ------------------------------------------------------- createCollection

  datatype CollectionWorld = CollectionWorld(
    parentUri: string,                       // URLUtil::splitPath($uri)
    newName: string,
    parent: Option<set<Interface>>,          // the parent node; None when the tree throws NotFound
    childExists: bool,                       // `getChild($newName)` finds a node
    listeners: Listeners,
    update: Result<Assoc<string, int>>)      // what updateProperties($uri, $properties) returns or throws

  ghost predicate WorldValid(w: CollectionWorld) {
    w.update.Ok? ==> w.update.value.Valid()
  }

  /**
   * The checks before anything is created, in the code's order: the resource
   * type must name {DAV:}collection, the parent must exist and be a
   * collection, and the child must not exist yet (MKCOL's 405).
   */
  function CollectionChecks(uri: string, resourceType: seq<string>, w: CollectionWorld): (r: Result<()>)
    ensures r.Ok? <==> COLLECTION in resourceType && w.parent.Some? && ICollection in w.parent.value && !w.childExists
    ensures COLLECTION !in resourceType ==> r == Err(InvalidResourceType)
    ensures COLLECTION in resourceType && (w.parent.None? || ICollection !in w.parent.value) ==> r == Err(Conflict)
    ensures COLLECTION in resourceType && w.parent.Some? && ICollection in w.parent.value && w.childExists
      ==> r == Err(MethodNotAllowed)
  {
    if COLLECTION !in resourceType then Err(InvalidResourceType)
    else if w.parent.None? then Err(Conflict)
    else if ICollection !in w.parent.value then Err(Conflict)
    else if w.childExists then Err(MethodNotAllowed)
    else Ok(())
  }

  /** The roll-back of a directory whose properties could not be set: delete it, then rethrow or report. */
  function RollBack(uri: string, created: seq<TreeOp>, w: CollectionWorld): (r: Outcome<Option<MultiStatus>>)
    requires WorldValid(w)
  {
    if !w.listeners.beforeUnbind(uri) then Outcome(created, Ok(None))
    else
      var ops := created + [Delete(uri)];
      match w.update
      case Err(e) => Outcome(ops, Err(e))
      case Ok(codes) => Outcome(ops, Ok(Some(MultiStatus(uri, GroupByCode(codes)))))
  }

  /** `createCollection()` up to the roll-back decision, which is passed in. */
  function CreateCollectionWith(uri: string, resourceType: seq<string>, properties: Assoc<string, PatchValue>,
                                w: CollectionWorld, rollBack: bool): Outcome<Option<MultiStatus>>
    requires WorldValid(w)
  {
    match CollectionChecks(uri, resourceType, w)
    case Err(e) => Outcome([], Err(e))
    case Ok(_) =>
      if !w.listeners.beforeBind(uri) then Outcome([], Ok(None))
      else if IExtendedCollection in w.parent.value then
        Outcome([CreateExtended(w.parentUri, w.newName, resourceType, properties)], Ok(None))
      else if |resourceType| > 1 then Outcome([], Err(InvalidResourceType))
      else
        var created := [CreateDirectory(w.parentUri, w.newName)];
        if |properties.keys| > 0 && rollBack then RollBack(uri, created, w) else Outcome(created, Ok(None))
  }

  /** As written: `!isset($errorResult[200])` looks for a property named "200", not for a success code. */
  predicate RollBackAsWritten(update: Result<Assoc<string, int>>) {
    update.Err? || "200" !in update.value.vals
  }

  /** Roll back when updateProperties threw or some property failed. */
  predicate RollBackWanted(update: Result<Assoc<string, int>>) {
    update.Err? || !AllSucceeded(update.value)
  }

  function CreateCollectionAsWritten(uri: string, resourceType: seq<string>, properties: Assoc<string, PatchValue>,
                                     w: CollectionWorld): (r: Outcome<Option<MultiStatus>>)
    requires WorldValid(w)
    ensures r.result.Ok? && r.result.value.Some? ==> Delete(uri) in r.ops
  {
    CreateCollectionWith(uri, resourceType, properties, w, RollBackAsWritten(w.update))
  }

  /**
   * `createCollection()` with the roll-back condition it evidently intends.
   * Nothing is created unless every check passes and `beforeBind` agrees; a
   * plain parent gets a directory whose properties are then set; a failure
   * deletes the directory again (if `beforeUnbind` agrees) and either
   * rethrows or reports the codes as a multistatus.
   */
  function CreateCollection(uri: string, resourceType: seq<string>, properties: Assoc<string, PatchValue>,
                            w: CollectionWorld): (r: Outcome<Option<MultiStatus>>)
    requires WorldValid(w)
    ensures COLLECTION !in resourceType ==> r == Outcome([], Err(InvalidResourceType))
    ensures CollectionChecks(uri, resourceType, w).Err? ==>
      r == Outcome([], Err(CollectionChecks(uri, resourceType, w).error))
    ensures r.ops != [] ==>
      CollectionChecks(uri, resourceType, w).Ok? && w.listeners.beforeBind(uri)
    ensures Delete(uri) in r.ops <==>
      && CollectionChecks(uri, resourceType, w).Ok? && w.listeners.beforeBind(uri)
      && IExtendedCollection !in w.parent.value && |resourceType| == 1
      && |properties.keys| > 0 && RollBackWanted(w.update) && w.listeners.beforeUnbind(uri)
    ensures r.result.Ok? && r.result.value.Some? ==>
      Delete(uri) in r.ops && w.update.Ok? && !AllSucceeded(w.update.value) &&
      r.result.value.value == MultiStatus(uri, GroupByCode(w.update.value))
  {
    CreateCollectionWith(uri, resourceType, properties, w, RollBackWanted(w.update))
  }

  /** A plain collection whose properties all succeed is kept, and the caller answers 201. */
  lemma CreateCollectionKeepsSuccess(uri: string, properties: Assoc<string, PatchValue>, w: CollectionWorld)
    requires WorldValid(w) && w.update.Ok? && AllSucceeded(w.update.value)
    requires w.parent.Some? && ICollection in w.parent.value && IExtendedCollection !in w.parent.value
    requires !w.childExists && w.listeners.beforeBind(uri)
    ensures CreateCollection(uri, [COLLECTION], properties, w) ==
      Outcome([CreateDirectory(w.parentUri, w.newName)], Ok(None))
  {
  }

  /**
   * As written, the same request is rolled back: with a single successful
   * property "{DAV:}displayname", the new directory is deleted and a 207
   * with that property under 200 comes back.
   */
  lemma RolledBackOnSuccess()
    ensures var codes := Assoc(["{DAV:}displayname"], map["{DAV:}displayname" := 200]);
      var w := CollectionWorld("/", "new", Some({ICollection}), false, Listeners(_ => true, _ => true), Ok(codes));
      var props := Assoc(["{DAV:}displayname"], map["{DAV:}displayname" := OtherValue("New")]);
      && AllSucceeded(codes)
      && CreateCollectionAsWritten("/new", [COLLECTION], props, w) ==
         Outcome([CreateDirectory("/", "new"), Delete("/new")],
                 Ok(Some(MultiStatus("/new", Assoc([200], map[200 := ["{DAV:}displayname"]])))))
  {
    var codes := Assoc(["{DAV:}displayname"], map["{DAV:}displayname" := 200]);
    assert "200" != "{DAV:}displayname";
    assert codes.Pairs() == [("{DAV:}displayname", 200)];
    assert GroupPairs([("{DAV:}displayname", 200)]) == AddToGroup(EmptyAssoc(), "{DAV:}displayname", 200);
    assert GroupByCode(codes) == Assoc([200], map[200 := ["{DAV:}displayname"]]);
  }

  /** A `beforeBind` veto creates nothing, yet createCollection returns null and MKCOL answers 201. */
  lemma VetoedMkcolAnswersCreated(path: string, req: MkcolRequest, w: CollectionWorld)
    requires WorldValid(w) && MkcolTargetOf(req).Ok?
    requires CollectionChecks(path, MkcolTargetOf(req).value.resourceType, w).Ok?
    requires !w.listeners.beforeBind(path)
    ensures HttpMkcol(path, req, w) == Outcome([], Ok(MkcolCreated))
  {
  }

  // ------------------------------------------------------------ MOVE, COPY

  /** What a handler did and the status it set; None when a listener stopped it. */
  datatype CopyMoveReply = CopyMoveReply(ops: seq<TreeOp>, status: Option<int>)

  /**
   * `httpMove()`: an existing destination is deleted first (if `beforeUnbind`
   * agrees); then the source must be unbindable and the destination
   * bindable; 204 when something was overwritten, 201 otherwise.
   */
  function HttpMove(path: string, info: CopyMoveInfo, l: Listeners): (r: CopyMoveReply)
    ensures r.status.Some? <==>
      (!info.destinationExists || l.beforeUnbind(info.destination)) && l.beforeUnbind(path) && l.beforeBind(info.destination)
    ensures r.status.Some? ==> r.status.value == (if info.destinationExists then 204 else 201)
    ensures MoveTo(path, info.destination) in r.ops <==> r.status.Some?
    ensures Delete(info.destination) in r.ops <==> info.destinationExists && l.beforeUnbind(info.destination)
  {
    var cleared := if info.destinationExists then [Delete(info.destination)] else [];
    if info.destinationExists && !l.beforeUnbind(info.destination) then CopyMoveReply([], None)
    else if !l.beforeUnbind(path) || !l.beforeBind(info.destination) then CopyMoveReply(cleared, None)
    else CopyMoveReply(cleared + [MoveTo(path, info.destination)], Some(if info.destinationExists then 204 else 201))
  }

  /** `httpCopy()`: as MOVE, except that the source is not unbound and so not asked about. */
  function HttpCopy(path: string, info: CopyMoveInfo, l: Listeners): (r: CopyMoveReply)
    ensures r.status.Some? <==>
      (!info.destinationExists || l.beforeUnbind(info.destination)) && l.beforeBind(info.destination)
    ensures r.status.Some? ==> r.status.value == (if info.destinationExists then 204 else 201)
    ensures CopyTo(path, info.destination) in r.ops <==> r.status.Some?
    ensures Delete(info.destination) in r.ops <==> info.destinationExists && l.beforeUnbind(info.destination)
  {
    var cleared := if info.destinationExists then [Delete(info.destination)] else [];
    if info.destinationExists && !l.beforeUnbind(info.destination) then CopyMoveReply([], None)
    else if !l.beforeBind(info.destination) then CopyMoveReply(cleared, None)
    else CopyMoveReply(cleared + [CopyTo(path, info.destination)], Some(if info.destinationExists then 204 else 201))
  }

  /**
   * A MOVE whose source may not be unbound still deletes an existing
   * destination first: the overwritten resource is gone and no status is set.
   */
  lemma MoveVetoAfterOverwrite(path: string, info: CopyMoveInfo, l: Listeners)
    requires info.destinationExists && l.beforeUnbind(info.destination) && !l.beforeUnbind(path)
    ensures HttpMove(path, info, l) == CopyMoveReply([Delete(info.destination)], None)
  {
  }

  /** When the source may be unbound, MOVE and COPY decide alike and differ only in their last operation. */
  lemma MoveCopyAgree(path: string, info: CopyMoveInfo, l: Listeners)
    requires l.beforeUnbind(path)
    ensures HttpMove(path, info, l).status == HttpCopy(path, info, l).status
    ensures |HttpMove(path, info, l).ops| == |HttpCopy(path, info, l).ops|
    ensures HttpMove(path, info, l).status.Some? ==>
      HttpMove(path, info, l).ops[..|HttpMove(path, info, l).ops| - 1] == HttpCopy(path, info, l).ops[..|HttpCopy(path, info, l).ops| - 1]
  {
  }
}
