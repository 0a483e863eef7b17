/**
 * The default property handlers of the core plugin and the property lookup
 * of the server (lib/DAV/CorePlugin.php: propFind, propFindNode;
 * lib/DAV/Server.php: getPropertiesForPath).
 *
 * The built-in handler runs at the default priority and `propFindNode` at
 * priority 120, so for every node the live properties are claimed first and
 * the node's stored properties only fill what is still 404.
 */
module DavCoreProps {
  import opened Php
  import opened DavPropFind
  import opened DavHeaders
  import opened DavTree

  const LAST_MODIFIED: string := "{DAV:}getlastmodified"
  const CONTENT_LENGTH: string := "{DAV:}getcontentlength"
  const ETAG: string := "{DAV:}getetag"
  const CONTENT_TYPE: string := "{DAV:}getcontenttype"
  const QUOTA_USED: string := "{DAV:}quota-used-bytes"
  const QUOTA_AVAILABLE: string := "{DAV:}quota-available-bytes"
  const REPORT_SET: string := "{DAV:}supported-report-set"
  const RESOURCE_TYPE: string := "{DAV:}resourcetype"
  const METHOD_SET: string := "{DAV:}supported-method-set"

  /** What the handlers ask of the server beyond the node itself. */
  datatype Server = Server(
    lookup: string -> Option<Node>,
    pluginMethods: string -> seq<string>,
    reports: string -> seq<string>,
    mapping: seq<(Interface, string)>,
    enableInfinity: bool)

  function IntValue(o: Option<int>): Option<PropValue> {
    if o.Some? then Some(Int(o.value)) else None
  }

  function StrValue(o: Option<string>): Option<PropValue> {
    if o.Some? then Some(Str(o.value)) else None
  }

  /** The value of `{DAV:}getlastmodified`: none when the node's timestamp is null or 0. */
  function LastModifiedValue(n: Node): Option<PropValue> {
    if IntTruthy(n.lastModified) then Some(LastModified(n.lastModified.value)) else None
  }

  // ------------------------------------------------------------ the built-in handler

  /** One `handle($name, $callback)` call: the name and what the callback returns. */
  type Step = (string, Option<PropValue>)

  /** getlastmodified, then the three file properties for files. */
  function LiveSteps(n: Node): seq<Step> {
    [(LAST_MODIFIED, LastModifiedValue(n))] + (if IFile in n.interfaces then FileSteps(n) else [])
  }

  /** getcontentlength, getetag and getcontenttype of a file. */
  function FileSteps(n: Node): seq<Step> {
    [(CONTENT_LENGTH, IntValue(n.size)), (ETAG, StrValue(n.etag)), (CONTENT_TYPE, StrValue(n.contentType))]
  }

  /** The two quota properties, both from the node's one `getQuotaInfo()` answer. */
  function QuotaSteps(n: Node): seq<Step> {
    if IQuota in n.interfaces then [(QUOTA_USED, Some(Int(n.quotaInfo.0))), (QUOTA_AVAILABLE, Some(Int(n.quotaInfo.1)))]
    else []
  }

  /** supported-report-set, resourcetype and supported-method-set, which every node has. */
  function TailSteps(n: Node, srv: Server, path: string): seq<Step> {
    [(REPORT_SET, Some(SupportedReportSet(srv.reports(path)))),
     (RESOURCE_TYPE, Some(ResourceType(ResourceTypeForNode(n, srv.mapping)))),
     (METHOD_SET, Some(SupportedMethodSet(AllowedMethods(srv.lookup(path).Some?, srv.pluginMethods(path)))))]
  }

  /** Every handle call of `CorePlugin::propFind` for a PropFind at `path`, in order. */
  function CoreSteps(n: Node, srv: Server, path: string): seq<Step> {
    LiveSteps(n) + QuotaSteps(n) + TailSteps(n, srv, path)
  }

  /** The names the built-in handler offers values for. */
  const CoreNames: set<string> :=
    {LAST_MODIFIED, CONTENT_LENGTH, ETAG, CONTENT_TYPE, QUOTA_USED, QUOTA_AVAILABLE, REPORT_SET, RESOURCE_TYPE, METHOD_SET}

  /** The handle calls applied in order. */
  function HandleAll(p: Progress, steps: seq<Step>): (q: Progress)
    requires p.result.Valid()
    ensures q.result.Valid()
    ensures p.Consistent() ==> q.Consistent()
    decreases |steps|
  {
    if steps == [] then p
    else
      var last := steps[|steps| - 1];
      Handled(HandleAll(p, steps[..|steps| - 1]), last.0, last.1)
  }

  /** The whole effect of `CorePlugin::propFind` on a PropFind for `path`. */
  function CoreHandled(p: Progress, n: Node, srv: Server, path: string): Progress
    requires p.result.Valid()
  {
    HandleAll(p, CoreSteps(n, srv, path))
  }

  /** Whether a quota callback runs: one of the two names is still claimable when the quota step starts. */
  predicate QuotaWanted(p: Progress) {
    Claimable(p, QUOTA_USED) || Claimable(p, QUOTA_AVAILABLE)
  }

  /** Three handle calls in a row. */
  lemma HandleThree(p: Progress, a: Step, b: Step, c: Step)
    requires p.result.Valid()
    ensures HandleAll(p, [a, b, c]) == Handled(Handled(Handled(p, a.0, a.1), b.0, b.1), c.0, c.1)
  {
    HandleTwo(p, a, b);
    HandleAllSnoc(p, [a, b], c);
    assert [a, b] + [c] == [a, b, c];
  }

  /** Two handle calls in a row. */
  lemma HandleTwo(p: Progress, a: Step, b: Step)
    requires p.result.Valid()
    ensures HandleAll(p, [a, b]) == Handled(Handled(p, a.0, a.1), b.0, b.1)
  {
    HandleAllSnoc(p, [], a);
    HandleAllSnoc(p, [a], b);
    assert [] + [a] == [a];
    assert [a] + [b] == [a, b];
  }

  lemma HandleAllSnoc(p: Progress, steps: seq<Step>, s: Step)
    requires p.result.Valid()
    ensures HandleAll(p, steps + [s]) == Handled(HandleAll(p, steps), s.0, s.1)
  {
    assert (steps + [s])[..|steps|] == steps;
  }

  /**
   * `CorePlugin::propFind`. Each callback runs only when its name is still
   * wanted; the quota answer is cached between the two quota callbacks, and
   * the number of `getQuotaInfo()` calls is returned.
   */
  method CorePropFind(pf: PropFind, n: Node, srv: Server) returns (quotaCalls: nat)
    requires pf.Valid()
    modifies pf
    ensures pf.Valid() && pf.path == old(pf.path) && pf.depth == old(pf.depth)
    ensures pf.Snapshot() == CoreHandled(old(pf.Snapshot()), n, srv, pf.path)
    ensures quotaCalls <= 1
    ensures quotaCalls == 1 <==> IQuota in n.interfaces && QuotaWanted(HandleAll(old(pf.Snapshot()), LiveSteps(n)))
  {
    ghost var p0 := pf.Snapshot();
    HandleLive(pf, n);
    ghost var p1 := pf.Snapshot();
    quotaCalls := HandleQuota(pf, n);
    ghost var p2 := pf.Snapshot();
    HandleTail(pf, n, srv);
    HandleAllAppend(p0, LiveSteps(n), QuotaSteps(n));
    HandleAllAppend(p0, LiveSteps(n) + QuotaSteps(n), TailSteps(n, srv, pf.path));
  }

  /** The handle calls for getlastmodified and the file properties. */
  method HandleLive(pf: PropFind, n: Node)
    requires pf.Valid()
    modifies pf
    ensures pf.Valid() && pf.path == old(pf.path) && pf.depth == old(pf.depth)
    ensures pf.Snapshot() == HandleAll(old(pf.Snapshot()), LiveSteps(n))
  {
    ghost var p0 := pf.Snapshot();
    var s: Step := (LAST_MODIFIED, LastModifiedValue(n));
    pf.Handle(s.0, s.1);
    HandleAllSnoc(p0, [], s);
    assert [] + [s] == [s];
    if IFile in n.interfaces {
      HandleFile(pf, n);
      HandleAllAppend(p0, [s], FileSteps(n));
    } else {
      assert [s] + [] == [s];
    }
  }

  /** The handle calls for the three file properties. */
  method HandleFile(pf: PropFind, n: Node)
    requires pf.Valid()
    modifies pf
    ensures pf.Valid() && pf.path == old(pf.path) && pf.depth == old(pf.depth)
    ensures pf.Snapshot() == HandleAll(old(pf.Snapshot()), FileSteps(n))
  {
    HandleThree(pf.Snapshot(), FileSteps(n)[0], FileSteps(n)[1], FileSteps(n)[2]);
    pf.Handle(CONTENT_LENGTH, IntValue(n.size));
    pf.Handle(ETAG, StrValue(n.etag));
    pf.Handle(CONTENT_TYPE, StrValue(n.contentType));
  }

  /** The two quota callbacks, sharing one cached `getQuotaInfo()` answer. */
  method HandleQuota(pf: PropFind, n: Node) returns (quotaCalls: nat)
    requires pf.Valid()
    modifies pf
    ensures pf.Valid() && pf.path == old(pf.path) && pf.depth == old(pf.depth)
    ensures pf.Snapshot() == HandleAll(old(pf.Snapshot()), QuotaSteps(n))
    ensures quotaCalls <= 1
    ensures quotaCalls == 1 <==> IQuota in n.interfaces && QuotaWanted(old(pf.Snapshot()))
  {
    quotaCalls := 0;
    if IQuota in n.interfaces {
      ghost var p0 := pf.Snapshot();
      var quotaInfo: Option<(int, int)> := None;
      if pf.Wants(QUOTA_USED) {
        quotaInfo := Some(n.quotaInfo);
        quotaCalls := quotaCalls + 1;
        pf.Handle(QUOTA_USED, Some(Int(quotaInfo.value.0)));
      }
      ghost var p1 := pf.Snapshot();
      assert p1 == Handled(p0, QUOTA_USED, Some(Int(n.quotaInfo.0)));
      if pf.Wants(QUOTA_AVAILABLE) {
        if quotaInfo.None? {
          quotaInfo := Some(n.quotaInfo);
          quotaCalls := quotaCalls + 1;
        }
        pf.Handle(QUOTA_AVAILABLE, Some(Int(quotaInfo.value.1)));
      }
      assert pf.Snapshot() == Handled(p1, QUOTA_AVAILABLE, Some(Int(n.quotaInfo.1)));
      HandleTwo(p0, QuotaSteps(n)[0], QuotaSteps(n)[1]);
    }
  }

  /** The handle calls for supported-report-set, resourcetype and supported-method-set. */
  method HandleTail(pf: PropFind, n: Node, srv: Server)
    requires pf.Valid()
    modifies pf
    ensures pf.Valid() && pf.path == old(pf.path) && pf.depth == old(pf.depth)
    ensures pf.Snapshot() == HandleAll(old(pf.Snapshot()), TailSteps(n, srv, pf.path))
  {
    ghost var steps := TailSteps(n, srv, pf.path);
    HandleThree(pf.Snapshot(), steps[0], steps[1], steps[2]);
    pf.Handle(REPORT_SET, Some(SupportedReportSet(srv.reports(pf.path))));
    pf.Handle(RESOURCE_TYPE, Some(ResourceType(ResourceTypeForNode(n, srv.mapping))));
    var mapped := srv.lookup(pf.path).Some?;
    pf.Handle(METHOD_SET, Some(SupportedMethodSet(AllowedMethods(mapped, srv.pluginMethods(pf.path)))));
  }

  // ------------------------------------------------------------ first claim wins

  /** Neither the value nor the status of a name differs between two states. */
  predicate Untouched(p: Progress, q: Progress, name: string) {
    Get(q, name) == Get(p, name) && GetStatus(q, name) == GetStatus(p, name)
  }

  /** A name at 404 in a consistent state is claimable: the counter is at least one. */
  lemma NotFoundIsClaimable(p: Progress, name: string)
    requires p.Consistent() && name in p.result.vals && p.result.vals[name].status == 404
    ensures Claimable(p, name)
  {
    assert name in NotFoundNames(p.result);
  }

  /** Whether some step hands the name a value. */
  predicate Offers(steps: seq<Step>, name: string) {
    exists i :: 0 <= i < |steps| && steps[i].0 == name && steps[i].1.Some?
  }

  lemma OffersSnoc(steps: seq<Step>, name: string)
    requires steps != []
    ensures Offers(steps, name) <==>
      Offers(steps[..|steps| - 1], name) || (steps[|steps| - 1].0 == name && steps[|steps| - 1].1.Some?)
  {
    var init := steps[..|steps| - 1];
    if Offers(init, name) {
      var i :| 0 <= i < |init| && init[i].0 == name && init[i].1.Some?;
      assert steps[i] == init[i];
    }
    if Offers(steps, name) && !(steps[|steps| - 1].0 == name && steps[|steps| - 1].1.Some?) {
      var i :| 0 <= i < |steps| && steps[i].0 == name && steps[i].1.Some?;
      assert init[i] == steps[i];
    }
  }

  /** Steps that offer no value for a name leave it as it was. */
  lemma {:induction false} HandleAllUntouched(p: Progress, steps: seq<Step>, name: string)
    requires p.result.Valid() && !Offers(steps, name)
    ensures Untouched(p, HandleAll(p, steps), name)
    decreases |steps|
  {
    if steps != [] {
      var last := steps[|steps| - 1];
      OffersSnoc(steps, name);
      HandleAllUntouched(p, steps[..|steps| - 1], name);
      if last.0 != name {
        OnlyNamedEntryChanges(HandleAll(p, steps[..|steps| - 1]), last.0, name, last.1, None);
      }
    }
  }

  /** Once a name is no longer 404, no later step changes it. */
  lemma {:induction false} HandleAllKeepsClaimed(p: Progress, steps: seq<Step>, name: string)
    requires p.result.Valid() && name in p.result.vals && p.result.vals[name].status != 404
    ensures Untouched(p, HandleAll(p, steps), name)
    decreases |steps|
  {
    if steps != [] {
      var last := steps[|steps| - 1];
      HandleAllKeepsClaimed(p, steps[..|steps| - 1], name);
      if last.0 != name {
        OnlyNamedEntryChanges(HandleAll(p, steps[..|steps| - 1]), last.0, name, last.1, None);
      }
    }
  }

  lemma {:induction false} HandleAllAppend(p: Progress, a: seq<Step>, b: seq<Step>)
    requires p.result.Valid()
    ensures HandleAll(p, a + b) == HandleAll(HandleAll(p, a), b)
    decreases |b|
  {
    if b != [] {
      HandleAllAppend(p, a, b[..|b| - 1]);
      assert (a + b)[..|a + b| - 1] == a + b[..|b| - 1];
    } else {
      assert a + b == a;
    }
  }

  /** A claimable name handed a value is stored with status 200. */
  lemma ClaimStores(a: Progress, name: string, value: Option<PropValue>)
    requires a.Consistent() && name in a.result.vals && a.result.vals[name].status == 404 && value.Some?
    ensures name in Handled(a, name, value).result.vals
    ensures Handled(a, name, value).result.vals[name] == Entry(200, value)
  {
    NotFoundIsClaimable(a, name);
  }

  /**
   * First claim wins: for a name still at 404, the first step that offers it
   * a value (`s`, after steps that offer it none) decides its value, with
   * status 200, whatever the later steps offer.
   */
  lemma FirstOfferWins(p: Progress, front: seq<Step>, s: Step, back: seq<Step>, name: string)
    requires p.Consistent() && name in p.result.vals && p.result.vals[name].status == 404
    requires !Offers(front, name) && s.0 == name && s.1.Some?
    ensures Get(HandleAll(p, front + [s] + back), name) == s.1
    ensures GetStatus(HandleAll(p, front + [s] + back), name) == Some(200)
  {
    HandleAllUntouched(p, front, name);
    var a := HandleAll(p, front);
    assert GetStatus(a, name) == Some(404);
    ClaimStores(a, name, s.1);
    HandleAllSnoc(p, front, s);
    var b := HandleAll(p, front + [s]);
    assert GetStatus(b, name) == Some(200);
    HandleAllKeepsClaimed(b, back, name);
    HandleAllAppend(p, front + [s], back);
  }

  // ------------------------------------------------------------ what the built-in handler promises

  lemma CoreStepNames(n: Node, srv: Server, path: string)
    ensures forall i :: 0 <= i < |CoreSteps(n, srv, path)| ==> CoreSteps(n, srv, path)[i].0 in CoreNames
  {
    var live := LiveSteps(n);
    var quota := QuotaSteps(n);
    var tail := TailSteps(n, srv, path);
    assert forall i :: 0 <= i < |live| ==> live[i].0 in CoreNames;
    assert forall i :: 0 <= i < |quota| ==> quota[i].0 in CoreNames;
    assert forall i :: 0 <= i < |tail| ==> tail[i].0 in CoreNames;
  }

  /** The built-in handler touches only its nine names. */
  lemma CoreLeavesOtherNames(p: Progress, n: Node, srv: Server, path: string, name: string)
    requires p.result.Valid() && name !in CoreNames
    ensures Untouched(p, CoreHandled(p, n, srv, path), name)
  {
    CoreStepNames(n, srv, path);
    HandleAllUntouched(p, CoreSteps(n, srv, path), name);
  }

  /** A node without a (truthy) timestamp leaves getlastmodified as it was: 404 stays 404. */
  lemma LastModifiedNeedsTimestamp(p: Progress, n: Node, srv: Server, path: string)
    requires p.result.Valid() && !IntTruthy(n.lastModified)
    ensures Untouched(p, CoreHandled(p, n, srv, path), LAST_MODIFIED)
  {
    var steps := CoreSteps(n, srv, path);
    assert forall i :: 0 <= i < |steps| && steps[i].0 == LAST_MODIFIED ==> steps[i].1.None?;
    HandleAllUntouched(p, steps, LAST_MODIFIED);
  }

  /** getcontentlength, getetag and getcontenttype are offered only by files. */
  lemma FilePropertiesOnlyForFiles(p: Progress, n: Node, srv: Server, path: string, name: string)
    requires p.result.Valid() && IFile !in n.interfaces
    requires name in {CONTENT_LENGTH, ETAG, CONTENT_TYPE}
    ensures Untouched(p, CoreHandled(p, n, srv, path), name)
  {
    var steps := CoreSteps(n, srv, path);
    assert forall i :: 0 <= i < |steps| ==> steps[i].0 != name;
    HandleAllUntouched(p, steps, name);
  }

  /**
   * When both quota names are requested and still 404, both are answered
   * with status 200 from the same `getQuotaInfo()` pair: entry 0 is the
   * used bytes, entry 1 the available bytes.
   */
  lemma QuotaFromOneAnswer(p: Progress, n: Node, srv: Server, path: string)
    requires p.Consistent() && IQuota in n.interfaces
    requires QUOTA_USED in p.result.vals && p.result.vals[QUOTA_USED].status == 404
    requires QUOTA_AVAILABLE in p.result.vals && p.result.vals[QUOTA_AVAILABLE].status == 404
    ensures Get(CoreHandled(p, n, srv, path), QUOTA_USED) == Some(Int(n.quotaInfo.0))
    ensures Get(CoreHandled(p, n, srv, path), QUOTA_AVAILABLE) == Some(Int(n.quotaInfo.1))
    ensures GetStatus(CoreHandled(p, n, srv, path), QUOTA_USED) == Some(200)
    ensures GetStatus(CoreHandled(p, n, srv, path), QUOTA_AVAILABLE) == Some(200)
  {
    var live, tail := LiveSteps(n), TailSteps(n, srv, path);
    var used, available := QuotaSteps(n)[0], QuotaSteps(n)[1];
    assert CoreSteps(n, srv, path) == live + [used] + ([available] + tail);
    assert CoreSteps(n, srv, path) == (live + [used]) + [available] + tail;
    assert !Offers(live, QUOTA_USED);
    assert !Offers(live + [used], QUOTA_AVAILABLE);
    FirstOfferWins(p, live, used, [available] + tail, QUOTA_USED);
    FirstOfferWins(p, live + [used], available, tail, QUOTA_AVAILABLE);
  }

  // ------------------------------------------------------------ stored properties

  /** `set($name, $value, 200)` for each returned pair, in order. */
  function SetAllOk(p: Progress, props: seq<(string, Option<PropValue>)>): (q: Progress)
    requires p.result.Valid()
    ensures q.result.Valid()
    ensures p.Consistent() ==> q.Consistent()
    decreases |props|
  {
    if props == [] then p
    else
      var last := props[|props| - 1];
      Updated(SetAllOk(p, props[..|props| - 1]), last.0, last.1, Some(200))
  }

  /** The effect of `propFindNode`: a node with stored properties answers for the names still 404. */
  function NodeFilled(p: Progress, n: Node): (q: Progress)
    requires p.result.Valid()
    ensures q.result.Valid()
    ensures p.Consistent() ==> q.Consistent()
  {
    var asked := NotFoundNames(p.result);
    if IProperties in n.interfaces && |asked| > 0 then SetAllOk(p, n.getProperties(asked)) else p
  }

  /** `CorePlugin::propFindNode`. */
  method PropFindNode(pf: PropFind, n: Node)
    requires pf.Valid()
    modifies pf
    ensures pf.Valid() && pf.path == old(pf.path) && pf.depth == old(pf.depth)
    ensures pf.Snapshot() == NodeFilled(old(pf.Snapshot()), n)
  {
    if IProperties in n.interfaces {
      var names := pf.Get404Properties();
      if |names| > 0 {
        SetEach(pf, n.getProperties(names));
      }
    }
  }

  /** The loop of `propFindNode`: `set($name, $value, 200)` for each returned pair. */
  method SetEach(pf: PropFind, props: seq<(string, Option<PropValue>)>)
    requires pf.Valid()
    modifies pf
    ensures pf.Valid() && pf.path == old(pf.path) && pf.depth == old(pf.depth)
    ensures pf.Snapshot() == SetAllOk(old(pf.Snapshot()), props)
  {
    ghost var p0 := pf.Snapshot();
    var i := 0;
    while i < |props|
      invariant 0 <= i <= |props|
      invariant pf.Valid() && pf.path == old(pf.path) && pf.depth == old(pf.depth)
      invariant pf.Snapshot() == SetAllOk(p0, props[..i])
    {
      SetAllOkNext(p0, props, i);
      pf.Set(props[i].0, props[i].1, Some(200));
      i := i + 1;
    }
    assert props[..i] == props;
  }

  /** One more pair: the next `set` on the state so far. */
  lemma SetAllOkNext(p: Progress, props: seq<(string, Option<PropValue>)>, i: nat)
    requires p.result.Valid() && i < |props|
    ensures SetAllOk(p, props[..i + 1]) == Updated(SetAllOk(p, props[..i]), props[i].0, props[i].1, Some(200))
  {
    assert props[..i + 1][..i] == props[..i];
  }

  // ------------------------------------------------------------ what propFindNode promises

  /** The node answers only for names it was asked about. */
  predicate AnswersOnlyAsked(n: Node, asked: seq<string>) {
    forall i :: 0 <= i < |n.getProperties(asked)| ==> n.getProperties(asked)[i].0 in asked
  }

  /** Whether some returned pair carries the name. */
  predicate Carries(props: seq<(string, Option<PropValue>)>, name: string) {
    exists i :: 0 <= i < |props| && props[i].0 == name
  }

  lemma CarriesSnoc(props: seq<(string, Option<PropValue>)>, name: string)
    requires props != []
    ensures Carries(props, name) <==> Carries(props[..|props| - 1], name) || props[|props| - 1].0 == name
  {
    var init := props[..|props| - 1];
    if Carries(init, name) {
      var i :| 0 <= i < |init| && init[i].0 == name;
      assert props[i].0 == name;
    }
    if Carries(props, name) && props[|props| - 1].0 != name {
      var i :| 0 <= i < |props| && props[i].0 == name;
      assert init[i].0 == name;
    }
  }

  /** The pairs applied by `SetAllOk` leave every name they do not carry as it was. */
  lemma {:induction false} SetAllOkUntouched(p: Progress, props: seq<(string, Option<PropValue>)>, name: string)
    requires p.result.Valid() && !Carries(props, name)
    ensures Untouched(p, SetAllOk(p, props), name)
    decreases |props|
  {
    if props != [] {
      var init := props[..|props| - 1];
      var last := props[|props| - 1];
      CarriesSnoc(props, name);
      SetAllOkUntouched(p, init, name);
      OnlyNamedEntryChanges(SetAllOk(p, init), last.0, name, last.1, Some(200));
    }
  }

  /** Every requested name that the pairs carry ends with status 200. */
  lemma {:induction false} SetAllOkClaims(p: Progress, props: seq<(string, Option<PropValue>)>, name: string)
    requires p.result.Valid() && Carries(props, name) && name in p.result.vals
    ensures GetStatus(SetAllOk(p, props), name) == Some(200)
    decreases |props|
  {
    var init := props[..|props| - 1];
    var last := props[|props| - 1];
    CarriesSnoc(props, name);
    var q := SetAllOk(p, init);
    if last.0 == name {
      OnlyNamedEntryChanges(p, name, name + "/", None, None);
      SetAllOkKeys(p, init);
      SetStores(q, name, last.1, Some(200));
    } else {
      SetAllOkClaims(p, init, name);
      OnlyNamedEntryChanges(q, last.0, name, last.1, Some(200));
    }
  }

  /** The pairs never add or remove a requested name. */
  lemma {:induction false} SetAllOkKeys(p: Progress, props: seq<(string, Option<PropValue>)>)
    requires p.result.Valid()
    ensures SetAllOk(p, props).result.keys == p.result.keys
    decreases |props|
  {
    if props != [] {
      var last := props[|props| - 1];
      SetAllOkKeys(p, props[..|props| - 1]);
      OnlyNamedEntryChanges(SetAllOk(p, props[..|props| - 1]), last.0, last.0 + "/", last.1, Some(200));
    }
  }

  /**
   * Stored properties only fill names still at 404: a name whose status is
   * not 404 keeps its value and status, and a requested 404 name the node
   * answers for ends with status 200.
   */
  lemma StoredFillOnlyNotFound(p: Progress, n: Node, name: string)
    requires p.Consistent() && AnswersOnlyAsked(n, NotFoundNames(p.result))
    ensures GetStatus(p, name) != Some(404) ==> Untouched(p, NodeFilled(p, n), name)
    ensures IProperties in n.interfaces && name in p.result.vals && p.result.vals[name].status == 404
         && Carries(n.getProperties(NotFoundNames(p.result)), name)
         ==> GetStatus(NodeFilled(p, n), name) == Some(200)
  {
    var asked := NotFoundNames(p.result);
    if IProperties in n.interfaces && |asked| > 0 {
      var props := n.getProperties(asked);
      if GetStatus(p, name) != Some(404) {
        assert name !in asked;
        assert !Carries(props, name);
        SetAllOkUntouched(p, props, name);
      }
      if name in p.result.vals && Carries(props, name) {
        SetAllOkClaims(p, props, name);
      }
    }
  }

  /**
   * The priority order: a live property the built-in handler claimed keeps
   * its value after `propFindNode`, whatever the node stores under that name.
   */
  lemma BuiltInsWin(p: Progress, n: Node, srv: Server, path: string, name: string)
    requires p.Consistent()
    requires AnswersOnlyAsked(n, NotFoundNames(CoreHandled(p, n, srv, path).result))
    requires GetStatus(CoreHandled(p, n, srv, path), name) == Some(200)
    ensures Get(NodeFilled(CoreHandled(p, n, srv, path), n), name) == Get(CoreHandled(p, n, srv, path), name)
    ensures GetStatus(NodeFilled(CoreHandled(p, n, srv, path), n), name) == Some(200)
  {
    StoredFillOnlyNotFound(CoreHandled(p, n, srv, path), n, name);
  }

  // ------------------------------------------------------------ getPropertiesForPath

  /** One entry of the returned list: the buckets of `getResultForMultiStatus()` and the href. */
  datatype Response = Response(href: string, buckets: Buckets)

  /** `getPropertiesByNode`: the built-in handler, then the stored properties. */
  function ByNode(p: Progress, n: Node, srv: Server, path: string): (q: Progress)
    requires p.result.Valid()
    ensures q.result.Valid()
    ensures p.Consistent() ==> q.Consistent()
  {
    NodeFilled(CoreHandled(p, n, srv, path), n)
  }

  /** The state of a freshly constructed PropFind for these names: every requested name at 404. */
  function SeedProgress(names: seq<string>, requestType: int): (p: Progress)
    ensures p.Consistent()
  {
    var seed := Seed(RequestedNames(names, requestType));
    SeedConsistent(RequestedNames(names, requestType));
    Progress(seed, |seed.keys|)
  }

  /** The response for one visit: a fresh PropFind for its path, run through the handlers. */
  function ResponseFor(v: Visit, names: seq<string>, requestType: int, srv: Server): Response {
    var q := ByNode(SeedProgress(names, requestType), v.node, srv, v.path);
    Response(Href(v.path, ResourceTypeForNode(v.node, srv.mapping)), BucketsOf(q.result, |q.result.keys|))
  }

  /** `f` applied to the first `k` visits, in order. */
  function Collect(visits: seq<Visit>, k: nat, f: Visit -> Response): (rs: seq<Response>)
    requires k <= |visits|
    ensures |rs| == k
  {
    if k == 0 then [] else Collect(visits, k - 1, f) + [f(visits[k - 1])]
  }

  /** Response i belongs to visit i. */
  lemma {:induction false} CollectInOrder(visits: seq<Visit>, k: nat, f: Visit -> Response, i: nat)
    requires i < k <= |visits|
    ensures Collect(visits, k, f)[i] == f(visits[i])
  {
    if i < k - 1 {
      CollectInOrder(visits, k - 1, f, i);
    }
  }

  /** Appending the next visit's response extends the collected list by one. */
  lemma CollectNext(visits: seq<Visit>, k: nat, f: Visit -> Response, rs: seq<Response>, x: Response)
    requires k < |visits| && rs == Collect(visits, k, f) && x == f(visits[k])
    ensures rs + [x] == Collect(visits, k + 1, f)
  {
  }

  /** The response of every visit of one request. */
  function Responder(names: seq<string>, requestType: int, srv: Server): Visit -> Response {
    v => ResponseFor(v, names, requestType, srv)
  }

  /** The path the lookup works on: the request path without leading or trailing slashes. */
  function TrimmedPath(path: string): string {
    Trim(path, {'/'})
  }

  /** The request type: a falsy (empty) name list means allprop. */
  function RequestTypeOf(names: seq<string>): int {
    if |names| > 0 then NORMAL else ALLPROPS
  }

  /** What `getPropertiesForPath` returns, or the NotFound it throws for an unmapped path. */
  function PropertiesForPath(path: string, names: seq<string>, depth: int, srv: Server): Result<seq<Response>> {
    var d := ClampDepth(depth, srv.enableInfinity);
    var p := TrimmedPath(path);
    match srv.lookup(p)
    case None => Err(NotFound)
    case Some(n) =>
      var visits := VisitsFor(p, d, n);
      Ok(Collect(visits, |visits|, Responder(names, RequestTypeOf(names), srv)))
  }

  /** `new PropFind($path, $propertyNames, $depth, $propFindType)` for the target. */
  method NewTarget(path: string, names: seq<string>, depth: int, requestType: int) returns (target: PropFind)
    ensures fresh(target)
    ensures target.path == path && target.depth == depth && target.requestType == requestType
    ensures target.Snapshot() == SeedProgress(names, requestType)
  {
    target := new PropFind(path, names, depth, requestType);
  }

  /** The list of requests: the target, then its subtree when the depth is positive or infinite. */
  method Requests(p: string, d: int, n: Node) returns (requests: seq<Visit>)
    ensures requests == VisitsFor(p, d, n)
  {
    requests := [Visit(p, d, n)];
    if d > 0 || d == DEPTH_INFINITY {
      requests := AddPathNodesRecursively(requests, p, d, n);
    }
  }

  /** `getPropertiesForPath($path, $propertyNames, $depth)`. */
  method GetPropertiesForPath(path: string, names: seq<string>, depth: int, srv: Server) returns (r: Result<seq<Response>>)
    ensures r == PropertiesForPath(path, names, depth, srv)
  {
    var d := depth;
    if !srv.enableInfinity && d != 0 {
      d := 1;
    }
    var p := Trim(path, {'/'});
    var requestType := if |names| > 0 then NORMAL else ALLPROPS;
    var target := NewTarget(p, names, d, requestType);
    var found := srv.lookup(p);
    if found.None? {
      return Err(NotFound);
    }
    var requests := Requests(p, d, found.value);
    var list := RespondAll(requests, target, names, requestType, srv);
    r := Ok(list);
  }

  /**
   * The request loop of `getPropertiesForPath`: one response per visit, in
   * order. `target` is the target's PropFind before any handler ran; every
   * request works on a clone of it, as the clones are taken before the loop.
   */
  method RespondAll(requests: seq<Visit>, target: PropFind, names: seq<string>, requestType: int, srv: Server) returns (list: seq<Response>)
    requires target.Snapshot() == SeedProgress(names, requestType)
    ensures list == Collect(requests, |requests|, Responder(names, requestType, srv))
  {
    list := [];
    var i := 0;
    while i < |requests|
      invariant 0 <= i <= |requests|
      invariant list == Collect(requests, i, Responder(names, requestType, srv))
    {
      var response := Respond(requests[i], target, names, requestType, srv);
      CollectNext(requests, i, Responder(names, requestType, srv), list, response);
      list := list + [response];
      i := i + 1;
    }
  }

  /** The body of the request loop: a PropFind for the visit, the two handlers, the buckets and the href. */
  method Respond(v: Visit, target: PropFind, names: seq<string>, requestType: int, srv: Server) returns (response: Response)
    requires target.Snapshot() == SeedProgress(names, requestType)
    ensures response == Responder(names, requestType, srv)(v)
  {
    var pf := ChildPropFind(target, v.depth, v.path);
    var _ := CorePropFind(pf, v.node, srv);
    PropFindNode(pf, v.node);
    var b := pf.GetResultForMultiStatus();
    response := Response(Href(pf.path, ResourceTypeForNode(v.node, srv.mapping)), b);
  }

  /** With depth 0 there is one response, and it is the target's. */
  lemma DepthZeroOneResponse(path: string, names: seq<string>, srv: Server)
    requires srv.lookup(TrimmedPath(path)).Some?
    ensures PropertiesForPath(path, names, 0, srv).Ok?
    ensures |PropertiesForPath(path, names, 0, srv).value| == 1
    ensures PropertiesForPath(path, names, 0, srv).value[0]
         == ResponseFor(Visit(TrimmedPath(path), 0, srv.lookup(TrimmedPath(path)).value), names, RequestTypeOf(names), srv)
  {
    DepthZeroOnlyTarget(TrimmedPath(path), srv.lookup(TrimmedPath(path)).value);
    ResponsesFollowVisits(path, names, 0, srv, 0);
  }

  /** The i-th response is the response of the i-th visit: the target first, then its subtree in walk order. */
  lemma ResponsesFollowVisits(path: string, names: seq<string>, depth: int, srv: Server, i: nat)
    requires srv.lookup(TrimmedPath(path)).Some?
    requires i < |VisitsFor(TrimmedPath(path), ClampDepth(depth, srv.enableInfinity), srv.lookup(TrimmedPath(path)).value)|
    ensures PropertiesForPath(path, names, depth, srv).Ok?
    ensures PropertiesForPath(path, names, depth, srv).value[i]
         == ResponseFor(VisitsFor(TrimmedPath(path), ClampDepth(depth, srv.enableInfinity), srv.lookup(TrimmedPath(path)).value)[i],
                        names, RequestTypeOf(names), srv)
  {
    var visits := VisitsFor(TrimmedPath(path), ClampDepth(depth, srv.enableInfinity), srv.lookup(TrimmedPath(path)).value);
    CollectInOrder(visits, |visits|, Responder(names, RequestTypeOf(names), srv), i);
  }

  /** With depth 1, one response for the target and one for each direct child, in the order of the children. */
  lemma DepthOneResponses(path: string, names: seq<string>, srv: Server, j: nat)
    requires srv.lookup(TrimmedPath(path)).Some?
    requires j < |Children(srv.lookup(TrimmedPath(path)).value)|
    ensures PropertiesForPath(path, names, 1, srv).Ok?
    ensures |PropertiesForPath(path, names, 1, srv).value| == 1 + |Children(srv.lookup(TrimmedPath(path)).value)|
    ensures var p, c := TrimmedPath(path), Children(srv.lookup(TrimmedPath(path)).value)[j];
            PropertiesForPath(path, names, 1, srv).value[j + 1] == ResponseFor(Visit(SubPath(p, c.name), 0, c), names, RequestTypeOf(names), srv)
  {
    var p, n := TrimmedPath(path), srv.lookup(TrimmedPath(path)).value;
    var c := Children(n)[j];
    assert ClampDepth(1, srv.enableInfinity) == 1;
    DepthOneDirectChildren(p, n);
    assert VisitsFor(p, 1, n)[j + 1] == Visit(SubPath(p, c.name), 0, c);
    ResponsesFollowVisits(path, names, 1, srv, j + 1);
  }

  /**
   * Every response lists each name of the request in exactly the bucket of
   * its final status, and nothing else.
   */
  lemma ResponseBuckets(v: Visit, names: seq<string>, requestType: int, srv: Server, s: int, name: string)
    ensures var seed := Seed(RequestedNames(names, requestType));
            var q := ByNode(Progress(seed, |seed.keys|), v.node, srv, v.path);
            InBucket(ResponseFor(v, names, requestType, srv).buckets, s, name)
              == if name in q.result.vals && q.result.vals[name].status == s then Some(q.result.vals[name].value) else None
  {
    var seed := Seed(RequestedNames(names, requestType));
    var q := ByNode(Progress(seed, |seed.keys|), v.node, srv, v.path);
    BucketIff(q.result, s, name);
  }
}
