/**
 * The result map of one PROPFIND request for one resource (lib/DAV/PropFind.php).
 *
 * Every requested property name starts at status 404 with no value. Handlers
 * claim names with `Handle` (the first non-null value wins) or overwrite them
 * with `Set`; `itemsLeft` counts the names that are still 404.
 */
module DavPropFind {
  import opened Php

  const NORMAL: int := 0
  const ALLPROPS: int := 1
  const PROPNAME: int := 2

  /** The property names an `allprop` request (section 9.1 of RFC 4918) stands for. */
  const AllPropNames: seq<string> := [
    "{DAV:}getlastmodified",
    "{DAV:}getcontentlength",
    "{DAV:}resourcetype",
    "{DAV:}quota-used-bytes",
    "{DAV:}quota-available-bytes",
    "{DAV:}getetag",
    "{DAV:}getcontenttype"
  ]

  /** The property values the modelled handlers produce. */
  datatype PropValue =
    | Str(s: string)
    | Int(n: int)
    | LastModified(time: int)
    | ResourceType(types: seq<string>)
    | SupportedReportSet(reports: seq<string>)
    | SupportedMethodSet(methods: seq<string>)

  /** `[status, value]`; a null value is None. */
  datatype Entry = Entry(status: int, value: Option<PropValue>)

  type Results = Assoc<string, Entry>

  // ------------------------------------------------- counting statuses

  ghost predicate AllIn(keys: seq<string>, vals: map<string, Entry>) {
    forall k :: k in keys ==> k in vals
  }

  ghost predicate Distinct(keys: seq<string>) {
    forall i, j :: 0 <= i < j < |keys| ==> keys[i] != keys[j]
  }

  /** The names among `keys`, in order, whose entry has the given status. */
  function WithStatus(keys: seq<string>, vals: map<string, Entry>, status: int): (ns: seq<string>)
    requires AllIn(keys, vals)
    ensures forall n :: n in ns <==> (n in keys && vals[n].status == status)
    ensures |ns| <= |keys|
    decreases |keys|
  {
    if keys == [] then []
    else
      var last := keys[|keys| - 1];
      var ns := WithStatus(keys[..|keys| - 1], vals, status);
      if vals[last].status == status then ns + [last] else ns
  }

  /** The names of a result map that are still 404, in insertion order. */
  function NotFoundNames(r: Results): seq<string>
    requires r.Valid()
  {
    WithStatus(r.keys, r.vals, 404)
  }

  lemma {:induction false} WithStatusUnaffected(keys: seq<string>, vals: map<string, Entry>, k: string, e: Entry, status: int)
    requires AllIn(keys, vals) && k !in keys
    ensures AllIn(keys, vals[k := e])
    ensures WithStatus(keys, vals[k := e], status) == WithStatus(keys, vals, status)
    decreases |keys|
  {
    if keys != [] {
      WithStatusUnaffected(keys[..|keys| - 1], vals, k, e, status);
    }
  }

  /** Changing the entry of one present name moves the count by the change in that name's status only. */
  lemma {:induction false} WithStatusUpdate(keys: seq<string>, vals: map<string, Entry>, k: string, e: Entry, status: int)
    requires AllIn(keys, vals) && Distinct(keys) && k in keys
    ensures AllIn(keys, vals[k := e])
    ensures |WithStatus(keys, vals[k := e], status)|
         == |WithStatus(keys, vals, status)|
            - (if vals[k].status == status then 1 else 0)
            + (if e.status == status then 1 else 0)
    decreases |keys|
  {
    var init := keys[..|keys| - 1];
    var last := keys[|keys| - 1];
    assert Distinct(init);
    if last == k {
      assert k !in init;
      WithStatusUnaffected(init, vals, k, e, status);
    } else {
      WithStatusUpdate(init, vals, k, e, status);
    }
  }

  /** Appending a new name with the given entry. */
  lemma WithStatusAppend(keys: seq<string>, vals: map<string, Entry>, k: string, e: Entry, status: int)
    requires AllIn(keys, vals) && k !in keys
    ensures AllIn(keys + [k], vals[k := e])
    ensures WithStatus(keys + [k], vals[k := e], status)
         == WithStatus(keys, vals, status) + (if e.status == status then [k] else [])
  {
    assert (keys + [k])[..|keys|] == keys;
    WithStatusUnaffected(keys, vals, k, e, status);
  }

  // ------------------------------------------------- the state of a PropFind

  /** The part of a PropFind that handlers change: the result map and the 404 counter. */
  datatype Progress = Progress(result: Results, itemsLeft: int) {
    /** The class invariant: `itemsLeft` is the number of names still at 404. */
    ghost predicate Consistent() {
      result.Valid() && itemsLeft == |NotFoundNames(result)|
    }
  }

  /** The property names a request of the given type asks for. */
  function RequestedNames(properties: seq<string>, requestType: int): seq<string> {
    if requestType == ALLPROPS then AllPropNames else properties
  }

  /** The result map seeded with `[404, null]` for every name, in first-occurrence order. */
  function Seed(names: seq<string>): (r: Results)
    ensures r.Valid()
    ensures forall n :: n in r.vals <==> n in names
    ensures forall n :: n in r.vals ==> r.vals[n] == Entry(404, None)
    decreases |names|
  {
    if names == [] then EmptyAssoc()
    else
      var init := Seed(names[..|names| - 1]);
      init.PutValid(names[|names| - 1], Entry(404, None));
      init.Put(names[|names| - 1], Entry(404, None))
  }

  /** After seeding, every distinct requested name is 404, so the counter is the number of distinct names. */
  lemma {:induction false} SeedAllNotFound(names: seq<string>)
    ensures NotFoundNames(Seed(names)) == Seed(names).keys
    decreases |names|
  {
    if names != [] {
      var init := Seed(names[..|names| - 1]);
      SeedAllNotFound(names[..|names| - 1]);
      var n := names[|names| - 1];
      if n in init.vals {
        WithStatusUpdate(init.keys, init.vals, n, Entry(404, None), 404);
        assert init.vals[n := Entry(404, None)] == init.vals;
      } else {
        WithStatusAppend(init.keys, init.vals, n, Entry(404, None), 404);
      }
    }
  }

  lemma SeedConsistent(names: seq<string>)
    ensures Progress(Seed(names), |Seed(names).keys|).Consistent()
  {
    SeedAllNotFound(names);
  }

  /** An `allprop` request seeds exactly the seven fixed names, whatever list was given. */
  lemma AllPropsSeed(properties: seq<string>)
    ensures forall n :: n in Seed(RequestedNames(properties, ALLPROPS)).vals <==> n in AllPropNames
    ensures |Seed(RequestedNames(properties, ALLPROPS)).keys| == 7
  {
    var names := AllPropNames;
    assert |names[0]| == 21 && |names[1]| == 22 && |names[2]| == 18 && |names[3]| == 22;
    assert |names[4]| == 27 && |names[5]| == 13 && |names[6]| == 20;
    assert names[1][6] != names[3][6];
    assert Distinct(names);
    SeedKeysDistinctNames(names);
  }

  /** The seeded keys are the requested names without repetitions, so there are as many as distinct names. */
  lemma {:induction false} SeedKeysDistinctNames(names: seq<string>)
    requires Distinct(names)
    ensures Seed(names).keys == names
    decreases |names|
  {
    if names != [] {
      SeedKeysDistinctNames(names[..|names| - 1]);
      assert names[|names| - 1] !in names[..|names| - 1];
    }
  }

  /** `handle` acts when names are left, the name was requested and it is still 404. */
  predicate Claimable(p: Progress, name: string) {
    p.itemsLeft != 0 && name in p.result.vals && p.result.vals[name].status == 404
  }

  /** The effect of `handle($name, $value)` once any callback has produced `value`. */
  function Handled(p: Progress, name: string, value: Option<PropValue>): (q: Progress)
    requires p.result.Valid()
    ensures q.result.Valid()
    ensures p.Consistent() ==> q.Consistent()
  {
    if Claimable(p, name) && value.Some? then
      WithStatusUpdate(p.result.keys, p.result.vals, name, Entry(200, value), 404);
      p.result.PutValid(name, Entry(200, value));
      Progress(p.result.Put(name, Entry(200, value)), p.itemsLeft - 1)
    else
      p
  }

  /** The status `set` stores: the given one, or 404 for a null value and 200 otherwise. */
  function EffectiveStatus(value: Option<PropValue>, status: Option<int>): int {
    if status.Some? then status.value else if value.None? then 404 else 200
  }

  /** The effect of `set($name, $value, $status)`. */
  function Updated(p: Progress, name: string, value: Option<PropValue>, status: Option<int>): (q: Progress)
    requires p.result.Valid()
    ensures q.result.Valid()
    ensures p.Consistent() ==> q.Consistent()
  {
    if name in p.result.vals then
      var st := EffectiveStatus(value, status);
      var old404 := p.result.vals[name].status == 404;
      var left :=
        if st != 404 && old404 then p.itemsLeft - 1
        else if st == 404 && !old404 then p.itemsLeft + 1
        else p.itemsLeft;
      WithStatusUpdate(p.result.keys, p.result.vals, name, Entry(st, value), 404);
      p.result.PutValid(name, Entry(st, value));
      Progress(p.result.Put(name, Entry(st, value)), left)
    else
      p
  }

  /** `get($name)`: the value, or null for an unrequested name. */
  function Get(p: Progress, name: string): Option<PropValue> {
    if name in p.result.vals then p.result.vals[name].value else None
  }

  /** `getStatus($name)`: the status, or null for an unrequested name. */
  function GetStatus(p: Progress, name: string): Option<int> {
    if name in p.result.vals then Some(p.result.vals[name].status) else None
  }

  /**
   * First claim wins: after a name has been claimed with a value, every later
   * `handle` of that name leaves the whole state as it is, and `get` returns
   * the first value with status 200.
   */
  lemma FirstClaimWins(p: Progress, name: string, v: PropValue, later: Option<PropValue>)
    requires p.Consistent() && name in p.result.vals && p.result.vals[name].status == 404
    ensures Get(Handled(p, name, Some(v)), name) == Some(v)
    ensures GetStatus(Handled(p, name, Some(v)), name) == Some(200)
    ensures Handled(Handled(p, name, Some(v)), name, later) == Handled(p, name, Some(v))
  {
    assert name in NotFoundNames(p.result);
  }

  /** `handle` changes nothing when no value is produced or the name is not claimable. */
  lemma HandleNoEffect(p: Progress, name: string, value: Option<PropValue>)
    requires p.Consistent()
    requires value.None? || name !in p.result.vals || p.result.vals[name].status != 404
    ensures Handled(p, name, value) == p
  {
  }

  /** `handle` and `set` touch only the entry of the name they are given. */
  lemma OnlyNamedEntryChanges(p: Progress, name: string, other: string, value: Option<PropValue>, status: Option<int>)
    requires p.result.Valid() && other != name
    ensures Get(Handled(p, name, value), other) == Get(p, other)
    ensures GetStatus(Handled(p, name, value), other) == GetStatus(p, other)
    ensures Get(Updated(p, name, value, status), other) == Get(p, other)
    ensures GetStatus(Updated(p, name, value, status), other) == GetStatus(p, other)
    ensures Handled(p, name, value).result.keys == p.result.keys
    ensures Updated(p, name, value, status).result.keys == p.result.keys
  {
  }

  /** `set` on a requested name stores exactly the given value under the effective status. */
  lemma SetStores(p: Progress, name: string, value: Option<PropValue>, status: Option<int>)
    requires p.result.Valid() && name in p.result.vals
    ensures Get(Updated(p, name, value, status), name) == value
    ensures GetStatus(Updated(p, name, value, status), name) == Some(EffectiveStatus(value, status))
  {
  }

  /** `set` on a name that was not requested changes nothing. */
  lemma SetUnrequested(p: Progress, name: string, value: Option<PropValue>, status: Option<int>)
    requires p.result.Valid() && name !in p.result.vals
    ensures Updated(p, name, value, status) == p
  {
  }

  // ------------------------------------------------- getResultForMultiStatus

  type Buckets = Assoc<int, Assoc<string, Option<PropValue>>>

  /** The buckets for the first `n` names: 200 and 404 first, other statuses in order of first use. */
  function BucketsOf(r: Results, n: nat): (b: Buckets)
    requires r.Valid() && n <= |r.keys|
    ensures 200 in b.vals && 404 in b.vals
    decreases n
  {
    if n == 0 then NoBuckets()
    else
      AddToBucket(BucketsOf(r, n - 1), r.keys[n - 1], r.vals[r.keys[n - 1]])
  }

  /** The two buckets the grouping starts from: 200 and 404, both empty. */
  function NoBuckets(): (b: Buckets)
    ensures b.keys == [200, 404] && 200 in b.vals && 404 in b.vals
  {
    Assoc([200, 404], map[200 := EmptyAssoc(), 404 := EmptyAssoc()])
  }

  /** One step of the grouping loop: the name goes into the bucket of its status, which is created on first use. */
  function AddToBucket(acc: Buckets, name: string, e: Entry): Buckets {
    if e.status !in acc.vals then acc.Put(e.status, EmptyAssoc<string, Option<PropValue>>().Put(name, e.value))
    else acc.Put(e.status, acc.vals[e.status].Put(name, e.value))
  }

  /** The grouping never lists a status twice, and lists exactly the statuses it holds buckets for. */
  lemma {:induction false} BucketsValid(r: Results, n: nat)
    requires r.Valid() && n <= |r.keys|
    ensures BucketsOf(r, n).Valid()
    decreases n
  {
    if n > 0 {
      BucketsValid(r, n - 1);
      var acc := BucketsOf(r, n - 1);
      var e := r.vals[r.keys[n - 1]];
      if e.status in acc.vals {
        acc.PutValid(e.status, acc.vals[e.status].Put(r.keys[n - 1], e.value));
      } else {
        acc.PutValid(e.status, EmptyAssoc<string, Option<PropValue>>().Put(r.keys[n - 1], e.value));
      }
    } else {
      assert NoBuckets().Valid();
    }
  }

  lemma SliceSnoc(keys: seq<string>, n: nat)
    requires 0 < n <= |keys|
    ensures forall x :: x in keys[..n] <==> x in keys[..n - 1] || x == keys[n - 1]
  {
    assert keys[..n] == keys[..n - 1] + [keys[n - 1]];
  }

  /** The value a name has in the bucket of a status, if the bucket holds it. */
  function InBucket(b: Buckets, s: int, name: string): Option<Option<PropValue>> {
    if s in b.vals && name in b.vals[s].vals then Some(b.vals[s].vals[name]) else None
  }

  /**
   * Every name lands in the bucket of its own status with its value, and a
   * bucket holds no other names.
   */
  lemma {:induction false} BucketsPlaceEachName(r: Results, n: nat, s: int, name: string)
    requires r.Valid() && n <= |r.keys|
    ensures InBucket(BucketsOf(r, n), s, name)
         == if name in r.keys[..n] && r.vals[name].status == s then Some(r.vals[name].value) else None
    decreases n
  {
    if n > 0 {
      BucketsPlaceEachName(r, n - 1, s, name);
      var acc := BucketsOf(r, n - 1);
      var last := r.keys[n - 1];
      var e := r.vals[last];
      SliceSnoc(r.keys, n);
      assert last !in r.keys[..n - 1];
      InBucketPut(acc, e, last, s, name);
    }
  }

  lemma InBucketPut(acc: Buckets, e: Entry, last: string, s: int, name: string)
    ensures InBucket(AddToBucket(acc, last, e), s, name)
         == if s == e.status && name == last then Some(e.value) else InBucket(acc, s, name)
  {
  }

  /** The buckets of the whole map: every requested name is in exactly the bucket of its status. */
  lemma BucketIff(r: Results, s: int, name: string)
    requires r.Valid()
    ensures InBucket(BucketsOf(r, |r.keys|), s, name)
         == if name in r.vals && r.vals[name].status == s then Some(r.vals[name].value) else None
  {
    BucketsPlaceEachName(r, |r.keys|, s, name);
    assert r.keys[..|r.keys|] == r.keys;
  }

  lemma BucketsMeaning(r: Results)
    requires r.Valid()
    ensures forall s, name ::
      InBucket(BucketsOf(r, |r.keys|), s, name) == if name in r.vals && r.vals[name].status == s then Some(r.vals[name].value) else None
  {
    forall s, name
      ensures InBucket(BucketsOf(r, |r.keys|), s, name) == if name in r.vals && r.vals[name].status == s then Some(r.vals[name].value) else None
    {
      BucketIff(r, s, name);
    }
  }

  /** The grouping loop of `getResultForMultiStatus()`, over the names in request order. */
  method GroupByStatus(r: Results) returns (b: Buckets)
    requires r.Valid()
    ensures b == BucketsOf(r, |r.keys|)
  {
    b := NoBuckets();
    var i := 0;
    while i < |r.keys|
      invariant 0 <= i <= |r.keys|
      invariant b == BucketsOf(r, i)
    {
      b := AddToBucket(b, r.keys[i], r.vals[r.keys[i]]);
      i := i + 1;
    }
  }

  // ------------------------------------------------- the object

  class PropFind {
    var path: string
    var depth: int
    const requestType: int
    /** `getRequestedProperties()`. */
    const properties: seq<string>
    var result: Results
    var itemsLeft: int

    function Snapshot(): Progress
      reads this
    {
      Progress(result, itemsLeft)
    }

    ghost predicate Valid()
      reads this
    {
      Snapshot().Consistent()
    }

    /** Seeds every requested name with `[404, null]`. */
    constructor(path: string, properties: seq<string>, depth: int := 0, requestType: int := NORMAL)
      ensures Valid()
      ensures this.path == path && this.depth == depth && this.requestType == requestType
      ensures this.properties == RequestedNames(properties, requestType)
      ensures result == Seed(this.properties) && itemsLeft == |result.keys|
    {
      this.path := path;
      this.depth := depth;
      this.requestType := requestType;
      var names := RequestedNames(properties, requestType);
      this.properties := names;
      var r: Results := EmptyAssoc();
      var i := 0;
      while i < |names|
        invariant 0 <= i <= |names|
        invariant r == Seed(names[..i])
      {
        assert names[..i + 1][..i] == names[..i];
        r.PutValid(names[i], Entry(404, None));
        r := r.Put(names[i], Entry(404, None));
        i := i + 1;
      }
      assert names[..|names|] == names;
      result := r;
      itemsLeft := |r.keys|;
      new;
      SeedConsistent(names);
    }

    /** `clone $propFind`. */
    constructor Clone(other: PropFind)
      ensures path == other.path && depth == other.depth && requestType == other.requestType
      ensures properties == other.properties && Snapshot() == other.Snapshot()
    {
      path := other.path;
      depth := other.depth;
      requestType := other.requestType;
      properties := other.properties;
      result := other.result;
      itemsLeft := other.itemsLeft;
    }

    /** Whether `handle` of this name would invoke its callback. */
    predicate Wants(name: string)
      reads this
    {
      Claimable(Snapshot(), name)
    }

    method Handle(name: string, value: Option<PropValue>)
      requires Valid()
      modifies this
      ensures Valid()
      ensures Snapshot() == Handled(old(Snapshot()), name, value)
      ensures path == old(path) && depth == old(depth)
    {
      ghost var before := Snapshot();
      if itemsLeft != 0 && name in result.vals && result.vals[name].status == 404 {
        if value.Some? {
          itemsLeft := itemsLeft - 1;
          result := result.Put(name, Entry(200, value));
        }
      }
      assert Snapshot() == Handled(before, name, value);
    }

    method Set(name: string, value: Option<PropValue>, status: Option<int> := None)
      requires Valid()
      modifies this
      ensures Valid()
      ensures Snapshot() == Updated(old(Snapshot()), name, value, status)
      ensures path == old(path) && depth == old(depth)
    {
      ghost var before := Snapshot();
      if name in result.vals {
        var st := if status.Some? then status.value else if value.None? then 404 else 200;
        if st != 404 && result.vals[name].status == 404 {
          itemsLeft := itemsLeft - 1;
        } else if st == 404 && result.vals[name].status != 404 {
          itemsLeft := itemsLeft + 1;
        }
        result := result.Put(name, Entry(st, value));
      }
      assert Snapshot() == Updated(before, name, value, status);
    }

    method SetPath(path: string)
      modifies this
      ensures this.path == path && depth == old(depth) && Snapshot() == old(Snapshot())
    {
      this.path := path;
    }

    method SetDepth(depth: int)
      modifies this
      ensures this.depth == depth && path == old(path) && Snapshot() == old(Snapshot())
    {
      this.depth := depth;
    }

    /** `get404Properties()`: the names still at 404, in request order. */
    method Get404Properties() returns (names: seq<string>)
      requires Valid()
      ensures names == NotFoundNames(result)
      ensures forall n :: n in names <==> n in result.vals && result.vals[n].status == 404
    {
      if itemsLeft == 0 {
        return [];
      }
      names := [];
      var i := 0;
      while i < |result.keys|
        invariant 0 <= i <= |result.keys|
        invariant names == WithStatus(result.keys[..i], result.vals, 404)
      {
        assert result.keys[..i + 1][..i] == result.keys[..i];
        if result.vals[result.keys[i]].status == 404 {
          names := names + [result.keys[i]];
        }
        i := i + 1;
      }
      assert result.keys[..i] == result.keys;
    }

    /** `getResultForMultiStatus()`: the names grouped by status, with 200 and 404 always present. */
    method GetResultForMultiStatus() returns (b: Buckets)
      requires result.Valid()
      ensures b == BucketsOf(result, |result.keys|)
    {
      b := GroupByStatus(result);
    }
  }
}
