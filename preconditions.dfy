/**
 * The conditional-request evaluator of the server (`checkPreconditions` and
 * `getIfConditions` in lib/DAV/Server.php): If-Match, If-None-Match,
 * If-Modified-Since and If-Unmodified-Since (sections 3.1 to 3.4 of RFC 7232)
 * and the WebDAV If header (section 10.4 of RFC 4918).
 */
module DavPreconditions {
  import opened Php
  import opened DavHeaders

  /** What the evaluator asks of a node: `getETag()`, `getLastModified()` and whether it is an IFile. */
  datatype NodeInfo = NodeInfo(etag: Option<string>, lastModified: Option<int>, isFile: bool)

  /**
   * The world outside the request: `getNodeForPath` (None for NotFound),
   * `HTTP\Util::parseHTTPDate` as a timestamp (None when unparseable), the
   * plugins answering `validateTokens` for a token on a URI, and the URI
   * settings `calculateUri` needs.
   */
  datatype Env = Env(
    lookup: string -> Option<NodeInfo>,
    parseDate: string -> Option<int>,
    tokenIsValid: (string, string) -> bool,
    uris: UriEnv)

  /** One match of the If-header regular expression; groups that did not take part are "". */
  datatype IfClauseMatch = IfClauseMatch(uri: string, not: string, token: string, etag: Option<string>)

  /** The request as the evaluator reads it. `ifClauses` are the regex matches of the If header, in order. */
  datatype Request = Request(
    httpMethod: string,
    path: string,
    ifMatch: Option<string>,
    ifNoneMatch: Option<string>,
    ifModifiedSince: Option<string>,
    ifUnmodifiedSince: Option<string>,
    ifHeader: Option<string>,
    ifClauses: seq<IfClauseMatch>)

  // ------------------------------------------------------------------ getIfConditions

  datatype IfToken = IfToken(negate: bool, token: string, etag: string)
  datatype IfCondition = IfCondition(uri: string, tokens: seq<IfToken>)

  function TokenOf(m: IfClauseMatch): IfToken {
    IfToken(Truthy(m.not), m.token, if m.etag.Some? then m.etag.value else "")
  }

  /** Whether the match opens a new condition: it names a URI, or there is no condition yet. */
  predicate Opens(m: IfClauseMatch, conditions: seq<IfCondition>) {
    Truthy(m.uri) || |conditions| == 0
  }

  /** The conditions built from the first `n` matches. */
  function IfConditionsOf(matches: seq<IfClauseMatch>, n: nat, path: string, env: UriEnv): (r: Result<seq<IfCondition>>)
    requires n <= |matches|
    ensures r.Err? ==> r.error == Forbidden
    ensures r.Ok? && n > 0 ==> |r.value| > 0
    decreases n
  {
    if n == 0 then Ok([])
    else
      match IfConditionsOf(matches, n - 1, path, env)
      case Err(e) => Err(e)
      case Ok(cs) => AddClause(cs, matches[n - 1], path, env)
  }

  /** One step of the loop of `getIfConditions`. */
  function AddClause(cs: seq<IfCondition>, m: IfClauseMatch, path: string, env: UriEnv): (r: Result<seq<IfCondition>>)
    ensures r.Err? ==> r.error == Forbidden
    ensures r.Ok? ==> |r.value| > 0
  {
    if !Opens(m, cs) then
      var last := cs[|cs| - 1];
      Ok(cs[..|cs| - 1] + [last.(tokens := last.tokens + [TokenOf(m)])])
    else if !Truthy(m.uri) then Ok(cs + [IfCondition(path, [TokenOf(m)])])
    else
      match CalculateUri(m.uri, env)
      case Err(e) => Err(e)
      case Ok(u) => Ok(cs + [IfCondition(u, [TokenOf(m)])])
  }

  /** `getIfConditions($request)`: no conditions without a (truthy) If header. */
  function IfConditionsSpec(rq: Request, env: UriEnv): Result<seq<IfCondition>> {
    if !OptTruthy(rq.ifHeader) then Ok([]) else IfConditionsOf(rq.ifClauses, |rq.ifClauses|, rq.path, env)
  }

  /** `getIfConditions($request)`. */
  method GetIfConditions(rq: Request, env: UriEnv) returns (r: Result<seq<IfCondition>>)
    ensures r == IfConditionsSpec(rq, env)
  {
    if !OptTruthy(rq.ifHeader) {
      return Ok([]);
    }
    r := BuildConditions(rq.ifClauses, rq.path, env);
  }

  /** The loop of `getIfConditions` over the regex matches. */
  method BuildConditions(matches: seq<IfClauseMatch>, path: string, env: UriEnv) returns (r: Result<seq<IfCondition>>)
    ensures r == IfConditionsOf(matches, |matches|, path, env)
  {
    var conditions: seq<IfCondition> := [];
    var i := 0;
    while i < |matches|
      invariant 0 <= i <= |matches|
      invariant IfConditionsOf(matches, i, path, env) == Ok(conditions)
    {
      var step := AddClause(conditions, matches[i], path, env);
      IfConditionsNext(matches, i, path, env, conditions);
      if step.Err? {
        IfConditionsErrorSticks(matches, i + 1, |matches|, path, env);
        return Err(step.error);
      }
      conditions := step.value;
      i := i + 1;
    }
    return Ok(conditions);
  }

  /** One more match: the next step on the conditions built so far. */
  lemma IfConditionsNext(matches: seq<IfClauseMatch>, i: nat, path: string, env: UriEnv, cs: seq<IfCondition>)
    requires i < |matches| && IfConditionsOf(matches, i, path, env) == Ok(cs)
    ensures IfConditionsOf(matches, i + 1, path, env) == AddClause(cs, matches[i], path, env)
  {
  }

  /** All clauses of the conditions, in order. */
  function AllTokens(cs: seq<IfCondition>): seq<IfToken> {
    if cs == [] then [] else AllTokens(cs[..|cs| - 1]) + cs[|cs| - 1].tokens
  }

  /** The clause of each match, in order. */
  function TokensOf(matches: seq<IfClauseMatch>): seq<IfToken> {
    if matches == [] then [] else TokensOf(matches[..|matches| - 1]) + [TokenOf(matches[|matches| - 1])]
  }

  /** A step adds exactly the match's clause at the end of the clause list. */
  lemma AddClauseTokens(cs: seq<IfCondition>, m: IfClauseMatch, path: string, env: UriEnv)
    requires AddClause(cs, m, path, env).Ok?
    ensures AllTokens(AddClause(cs, m, path, env).value) == AllTokens(cs) + [TokenOf(m)]
  {
    var cs' := AddClause(cs, m, path, env).value;
    if !Opens(m, cs) {
      var last := cs[|cs| - 1];
      assert cs'[..|cs'| - 1] == cs[..|cs| - 1];
      assert cs == cs[..|cs| - 1] + [last];
      assert AllTokens(cs) == AllTokens(cs[..|cs| - 1]) + last.tokens;
    } else {
      assert cs'[..|cs'| - 1] == cs;
    }
  }

  /** No clause is lost or reordered: the conditions hold exactly one clause per match, in match order. */
  lemma {:induction false} IfConditionsKeepClauses(matches: seq<IfClauseMatch>, n: nat, path: string, env: UriEnv)
    requires n <= |matches|
    requires IfConditionsOf(matches, n, path, env).Ok?
    ensures AllTokens(IfConditionsOf(matches, n, path, env).value) == TokensOf(matches[..n])
    decreases n
  {
    if n > 0 {
      var prev := IfConditionsOf(matches, n - 1, path, env);
      assert prev.Ok?;
      var cs := prev.value;
      assert IfConditionsOf(matches, n, path, env) == AddClause(cs, matches[n - 1], path, env);
      IfConditionsKeepClauses(matches, n - 1, path, env);
      AddClauseTokens(cs, matches[n - 1], path, env);
      assert matches[..n][..n - 1] == matches[..n - 1];
      assert TokensOf(matches[..n]) == TokensOf(matches[..n - 1]) + [TokenOf(matches[n - 1])];
    }
  }

  /** Once a URI is refused, the whole header is. */
  lemma {:induction false} IfConditionsErrorSticks(matches: seq<IfClauseMatch>, i: nat, n: nat, path: string, env: UriEnv)
    requires i <= n <= |matches|
    requires IfConditionsOf(matches, i, path, env).Err?
    ensures IfConditionsOf(matches, n, path, env) == Err(Forbidden)
    decreases n - i
  {
    if i < n {
      IfConditionsErrorSticks(matches, i + 1, n, path, env);
    }
  }

  /** A first clause without a URI applies to the request path. */
  lemma FirstClauseWithoutUri(matches: seq<IfClauseMatch>, path: string, env: UriEnv)
    requires |matches| > 0 && !Truthy(matches[0].uri)
    ensures IfConditionsOf(matches, 1, path, env) == Ok([IfCondition(path, [TokenOf(matches[0])])])
  {
    var none: seq<IfCondition> := [];
    assert IfConditionsOf(matches, 0, path, env) == Ok(none);
    assert AddClause(none, matches[0], path, env).value == none + [IfCondition(path, [TokenOf(matches[0])])];
    assert none + [IfCondition(path, [TokenOf(matches[0])])] == [IfCondition(path, [TokenOf(matches[0])])];
    assert IfConditionsOf(matches, 1, path, env) == AddClause(none, matches[0], path, env);
  }

  /** A clause without a URI after the first is added to the previous condition. */
  lemma ClauseWithoutUriJoinsPrevious(matches: seq<IfClauseMatch>, n: nat, path: string, env: UriEnv)
    requires 0 < n < |matches| && !Truthy(matches[n].uri)
    requires IfConditionsOf(matches, n, path, env).Ok?
    ensures var cs := IfConditionsOf(matches, n, path, env).value;
      IfConditionsOf(matches, n + 1, path, env)
        == Ok(cs[..|cs| - 1] + [cs[|cs| - 1].(tokens := cs[|cs| - 1].tokens + [TokenOf(matches[n])])])
  {
  }

  // ------------------------------------------------------------------ the If header

  /** PHP's `==` between an ETag (string or null) and a non-empty string, for digit strings and others. */
  predicate LooseEquals(a: Option<string>, b: string) {
    if a.None? then b == ""
    else if IsDigits(a.value) && IsDigits(b) then DecimalValue(a.value) == DecimalValue(b)
    else a.value == b
  }

  /** One clause of a condition: `(tokenValid && etagValid) xor negate`; the ETag lookup may throw NotFound. */
  function ClauseOutcome(uri: string, t: IfToken, env: Env): (r: Result<bool>)
    ensures r.Err? ==> r.error == NotFound
  {
    var tokenValid := env.tokenIsValid(uri, t.token) || !Truthy(t.token);
    if Truthy(t.etag) && tokenValid then
      match env.lookup(uri)
      case None => Err(NotFound)
      case Some(n) => Ok((n.isFile && LooseEquals(n.etag, t.etag)) != t.negate)
    else
      Ok((tokenValid && !Truthy(t.etag)) != t.negate)
  }

  /** The clauses of a condition from the `i`-th on: the first one that holds ends the search. */
  function ConditionFrom(c: IfCondition, env: Env, i: nat): (r: Result<bool>)
    requires i <= |c.tokens|
    ensures r.Err? ==> r.error == NotFound
    decreases |c.tokens| - i
  {
    if i == |c.tokens| then Ok(false)
    else
      match ClauseOutcome(c.uri, c.tokens[i], env)
      case Err(e) => Err(e)
      case Ok(true) => Ok(true)
      case Ok(false) => ConditionFrom(c, env, i + 1)
  }

  /** The conditions from the `k`-th on: every one must hold, the first that does not fails the request. */
  function ConditionsFrom(cs: seq<IfCondition>, env: Env, k: nat): (r: Result<bool>)
    requires k <= |cs|
    ensures r.Ok? ==> r.value
    ensures r.Err? ==> r.error == NotFound || r.error == PreconditionFailed("If")
    decreases |cs| - k
  {
    if k == |cs| then Ok(true)
    else
      match ConditionFrom(cs[k], env, 0)
      case Err(e) => Err(e)
      case Ok(false) => Err(PreconditionFailed("If"))
      case Ok(true) => ConditionsFrom(cs, env, k + 1)
  }

  /** A condition holds exactly when some clause holds and every clause before it evaluated to false. */
  lemma {:induction false} ConditionHoldsIff(c: IfCondition, env: Env, i: nat)
    requires i <= |c.tokens|
    ensures ConditionFrom(c, env, i) == Ok(true) <==>
      exists j :: i <= j < |c.tokens| && ClauseOutcome(c.uri, c.tokens[j], env) == Ok(true)
        && forall l :: i <= l < j ==> ClauseOutcome(c.uri, c.tokens[l], env) == Ok(false)
    decreases |c.tokens| - i
  {
    if i < |c.tokens| {
      ConditionHoldsIff(c, env, i + 1);
      if ClauseOutcome(c.uri, c.tokens[i], env) == Ok(false) && ConditionFrom(c, env, i + 1) == Ok(true) {
        var j :| i + 1 <= j < |c.tokens| && ClauseOutcome(c.uri, c.tokens[j], env) == Ok(true)
          && forall l :: i + 1 <= l < j ==> ClauseOutcome(c.uri, c.tokens[l], env) == Ok(false);
        assert forall l :: i <= l < j ==> ClauseOutcome(c.uri, c.tokens[l], env) == Ok(false);
      }
    }
  }

  /** The If header passes exactly when every condition from the `k`-th on holds. */
  lemma {:induction false} ConditionsHoldIff(cs: seq<IfCondition>, env: Env, k: nat)
    requires k <= |cs|
    ensures ConditionsFrom(cs, env, k) == Ok(true) <==> forall i :: k <= i < |cs| ==> ConditionFrom(cs[i], env, 0) == Ok(true)
    decreases |cs| - k
  {
    if k < |cs| {
      ConditionsHoldIff(cs, env, k + 1);
    }
  }

  /** A clause without a token and without an ETag always holds, unless negated. */
  lemma EmptyClause(uri: string, env: Env, negate: bool)
    ensures ClauseOutcome(uri, IfToken(negate, "", ""), env) == Ok(!negate)
  {
  }

  /** A clause whose token no plugin validated never holds, whatever its ETag, unless negated. */
  lemma UnvalidatedToken(uri: string, t: IfToken, env: Env)
    requires Truthy(t.token) && !env.tokenIsValid(uri, t.token)
    ensures ClauseOutcome(uri, t, env) == Ok(t.negate)
  {
  }

  // ------------------------------------------------------------------ the entity-tag headers

  /** An If-Match item matches after trimming spaces, also once `\"` is read as `"`. */
  predicate IfMatchItemMatches(item: string, etag: Option<string>) {
    var t := Trim(item, {' '});
    etag.Some? && (t == etag.value || ReplaceAll(t, "\\\"", "\"") == etag.value)
  }

  predicate IfNoneMatchItemMatches(item: string, etag: Option<string>) {
    etag.Some? && Trim(item, {' '}) == etag.value
  }

  /** The loop over the comma-separated If-Match items. */
  method AnyIfMatch(items: seq<string>, etag: Option<string>) returns (haveMatch: bool)
    ensures haveMatch <==> exists i :: 0 <= i < |items| && IfMatchItemMatches(items[i], etag)
  {
    haveMatch := false;
    var i := 0;
    while i < |items|
      invariant 0 <= i <= |items|
      invariant haveMatch <==> exists j :: 0 <= j < i && IfMatchItemMatches(items[j], etag)
    {
      var item := Trim(items[i], {' '});
      if etag.Some? && etag.value == item {
        haveMatch := true;
      } else if etag.Some? && ReplaceAll(item, "\\\"", "\"") == etag.value {
        haveMatch := true;
      }
      i := i + 1;
    }
  }

  /** The loop over the comma-separated If-None-Match items. */
  method AnyIfNoneMatch(items: seq<string>, etag: Option<string>) returns (haveMatch: bool)
    ensures haveMatch <==> exists i :: 0 <= i < |items| && IfNoneMatchItemMatches(items[i], etag)
  {
    haveMatch := false;
    var i := 0;
    while i < |items|
      invariant 0 <= i <= |items|
      invariant haveMatch <==> exists j :: 0 <= j < i && IfNoneMatchItemMatches(items[j], etag)
    {
      if etag.Some? && etag.value == Trim(items[i], {' '}) {
        haveMatch := true;
      }
      i := i + 1;
    }
  }

  /** Some comma-separated item of the If-Match header matches the ETag. */
  predicate IfMatchHits(header: string, etag: Option<string>) {
    var items := Explode(header, ',');
    exists i :: 0 <= i < |items| && IfMatchItemMatches(items[i], etag)
  }

  /** Some comma-separated item of the If-None-Match header matches the ETag. */
  predicate IfNoneMatchHits(header: string, etag: Option<string>) {
    var items := Explode(header, ',');
    exists i :: 0 <= i < |items| && IfNoneMatchItemMatches(items[i], etag)
  }

  // ------------------------------------------------------------------ checkPreconditions

  /** After a stage: go on with the node looked up so far (None = not looked up or missing), or stop with an outcome. */
  datatype Stage = Continue(node: Option<NodeInfo>) | Halt(outcome: Result<bool>)

  function IfMatchStage(rq: Request, env: Env): Stage {
    if !OptTruthy(rq.ifMatch) then Continue(None)
    else
      match env.lookup(rq.path)
      case None => Halt(Err(PreconditionFailed("If-Match")))
      case Some(n) =>
        if rq.ifMatch.value == "*" then Continue(Some(n))
        else if IfMatchHits(rq.ifMatch.value, n.etag) then Continue(Some(n))
        else Halt(Err(PreconditionFailed("If-Match")))
  }

  function IfNoneMatchStage(rq: Request, env: Env, node: Option<NodeInfo>): Stage {
    if !OptTruthy(rq.ifNoneMatch) then Continue(node)
    else
      var found := if node.Some? then node else env.lookup(rq.path);
      if found.None? then Continue(None)
      else if rq.ifNoneMatch.value == "*" || IfNoneMatchHits(rq.ifNoneMatch.value, found.value.etag) then Halt(if rq.httpMethod == "GET" then Ok(false) else Err(PreconditionFailed("If-None-Match")))
      else Continue(found)
  }

  /** A timestamp is used only when it is truthy (not null and not 0). */
  predicate HasLastModified(n: NodeInfo) {
    n.lastModified.Some? && n.lastModified.value != 0
  }

  function IfModifiedSinceStage(rq: Request, env: Env, node: Option<NodeInfo>): Stage {
    if OptTruthy(rq.ifNoneMatch) || !OptTruthy(rq.ifModifiedSince) then Continue(node)
    else
      match env.parseDate(rq.ifModifiedSince.value)
      case None => Continue(node)
      case Some(date) =>
        var found := if node.Some? then node else env.lookup(rq.path);
        if found.None? then Halt(Err(NotFound))
        else if HasLastModified(found.value) && found.value.lastModified.value <= date then Halt(Ok(false))
        else Continue(found)
  }

  function IfUnmodifiedSinceStage(rq: Request, env: Env, node: Option<NodeInfo>): Stage {
    if !OptTruthy(rq.ifUnmodifiedSince) then Continue(node)
    else
      match env.parseDate(rq.ifUnmodifiedSince.value)
      case None => Continue(node)
      case Some(date) =>
        var found := if node.Some? then node else env.lookup(rq.path);
        if found.None? then Halt(Err(NotFound))
        else if HasLastModified(found.value) && found.value.lastModified.value > date then Halt(Err(PreconditionFailed("If-Unmodified-Since")))
        else Continue(found)
  }

  function IfHeaderOutcome(rq: Request, env: Env): Result<bool> {
    match IfConditionsSpec(rq, env.uris)
    case Err(e) => Err(e)
    case Ok(cs) => ConditionsFrom(cs, env, 0)
  }

  /**
   * `checkPreconditions`: Ok(true) to proceed, Ok(false) for 304 Not
   * Modified, or the exception it throws.
   */
  function Preconditions(rq: Request, env: Env): (r: Result<bool>)
    ensures r.Err? ==> r.error in {PreconditionFailed("If-Match"), PreconditionFailed("If-None-Match"),
      PreconditionFailed("If-Unmodified-Since"), PreconditionFailed("If"), NotFound, Forbidden}
  {
    match IfMatchStage(rq, env)
    case Halt(o) => o
    case Continue(n1) =>
      match IfNoneMatchStage(rq, env, n1)
      case Halt(o) => o
      case Continue(n2) =>
        match IfModifiedSinceStage(rq, env, n2)
        case Halt(o) => o
        case Continue(n3) =>
          match IfUnmodifiedSinceStage(rq, env, n3)
          case Halt(o) => o
          case Continue(_) => IfHeaderOutcome(rq, env)
  }

  /** The loops of the If-header evaluation: every condition needs one clause that holds. */
  method EvaluateIfConditions(cs: seq<IfCondition>, env: Env) returns (r: Result<bool>)
    ensures r == ConditionsFrom(cs, env, 0)
  {
    var k := 0;
    while k < |cs|
      invariant 0 <= k <= |cs|
      invariant ConditionsFrom(cs, env, 0) == ConditionsFrom(cs, env, k)
    {
      var c := cs[k];
      var i := 0;
      var holds := false;
      while i < |c.tokens| && !holds
        invariant 0 <= i <= |c.tokens|
        invariant holds ==> ConditionFrom(c, env, 0) == Ok(true)
        invariant !holds ==> ConditionFrom(c, env, 0) == ConditionFrom(c, env, i)
      {
        var outcome := ClauseOutcome(c.uri, c.tokens[i], env);
        if outcome.Err? {
          return Err(outcome.error);
        }
        holds := outcome.value;
        i := i + 1;
      }
      if !holds {
        return Err(PreconditionFailed("If"));
      }
      k := k + 1;
    }
    return Ok(true);
  }

  /** `checkPreconditions`, with the node looked up at most once per header as the code does. */
  method CheckPreconditions(rq: Request, env: Env) returns (r: Result<bool>)
    ensures r == Preconditions(rq, env)
  {
    var node: Option<NodeInfo> := None;
    if OptTruthy(rq.ifMatch) {
      node := env.lookup(rq.path);
      if node.None? {
        return Err(PreconditionFailed("If-Match"));
      }
      if rq.ifMatch.value != "*" {
        var haveMatch := AnyIfMatch(Explode(rq.ifMatch.value, ','), node.value.etag);
        if !haveMatch {
          return Err(PreconditionFailed("If-Match"));
        }
      }
    }
    assert IfMatchStage(rq, env) == Continue(node);
    ghost var n1 := node;

    if OptTruthy(rq.ifNoneMatch) {
      if node.None? {
        node := env.lookup(rq.path);
      }
      if node.Some? {
        var haveMatch := rq.ifNoneMatch.value == "*";
        if !haveMatch {
          haveMatch := AnyIfNoneMatch(Explode(rq.ifNoneMatch.value, ','), node.value.etag);
        }
        if haveMatch {
          if rq.httpMethod == "GET" {
            return Ok(false);
          }
          return Err(PreconditionFailed("If-None-Match"));
        }
      }
    }
    assert IfNoneMatchStage(rq, env, n1) == Continue(node);
    ghost var n2 := node;

    if !OptTruthy(rq.ifNoneMatch) && OptTruthy(rq.ifModifiedSince) {
      var date := env.parseDate(rq.ifModifiedSince.value);
      if date.Some? {
        if node.None? {
          node := env.lookup(rq.path);
          if node.None? {
            return Err(NotFound);
          }
        }
        if HasLastModified(node.value) && node.value.lastModified.value <= date.value {
          return Ok(false);
        }
      }
    }
    assert IfModifiedSinceStage(rq, env, n2) == Continue(node);
    ghost var n3 := node;

    if OptTruthy(rq.ifUnmodifiedSince) {
      var date := env.parseDate(rq.ifUnmodifiedSince.value);
      if date.Some? {
        if node.None? {
          node := env.lookup(rq.path);
          if node.None? {
            return Err(NotFound);
          }
        }
        if HasLastModified(node.value) && node.value.lastModified.value > date.value {
          return Err(PreconditionFailed("If-Unmodified-Since"));
        }
      }
    }
    assert IfUnmodifiedSinceStage(rq, env, n3) == Continue(node);

    var conditions := GetIfConditions(rq, env.uris);
    if conditions.Err? {
      return Err(conditions.error);
    }
    r := EvaluateIfConditions(conditions.value, env);
  }

  // ------------------------------------------------------------------ properties

  /** If-Match on a missing resource fails. */
  lemma IfMatchOnMissing(rq: Request, env: Env)
    requires OptTruthy(rq.ifMatch) && env.lookup(rq.path).None?
    ensures Preconditions(rq, env) == Err(PreconditionFailed("If-Match"))
  {
  }

  /** `If-Match: *` on an existing resource passes that header. */
  lemma IfMatchStar(rq: Request, env: Env)
    requires rq.ifMatch == Some("*") && env.lookup(rq.path).Some?
    ensures IfMatchStage(rq, env) == Continue(env.lookup(rq.path))
  {
  }

  /** An If-None-Match that matches an existing resource gives 304 for GET and 412 for any other method. */
  lemma IfNoneMatchHit(rq: Request, env: Env)
    requires !OptTruthy(rq.ifMatch)
    requires OptTruthy(rq.ifNoneMatch) && env.lookup(rq.path).Some?
    requires rq.ifNoneMatch.value == "*" || IfNoneMatchHits(rq.ifNoneMatch.value, env.lookup(rq.path).value.etag)
    ensures Preconditions(rq, env) == if rq.httpMethod == "GET" then Ok(false) else Err(PreconditionFailed("If-None-Match"))
  {
  }

  /** If-None-Match never fails on a missing resource. */
  lemma IfNoneMatchOnMissing(rq: Request, env: Env)
    requires env.lookup(rq.path).None?
    ensures IfNoneMatchStage(rq, env, None).Continue?
  {
  }

  /** If-Modified-Since is ignored when If-None-Match is present (section 3.3 of RFC 7232). */
  lemma IfModifiedSinceIgnored(rq: Request, env: Env, ims: Option<string>)
    requires OptTruthy(rq.ifNoneMatch)
    ensures Preconditions(rq.(ifModifiedSince := ims), env) == Preconditions(rq, env)
  {
    var rq' := rq.(ifModifiedSince := ims);
    assert IfMatchStage(rq', env) == IfMatchStage(rq, env);
    assert IfConditionsSpec(rq', env.uris) == IfConditionsSpec(rq, env.uris);
  }

  /** An unmodified resource answers a lone If-Modified-Since GET with 304. */
  lemma NotModifiedSince(rq: Request, env: Env, date: int)
    requires !OptTruthy(rq.ifMatch) && !OptTruthy(rq.ifNoneMatch) && OptTruthy(rq.ifModifiedSince)
    requires env.parseDate(rq.ifModifiedSince.value) == Some(date)
    requires env.lookup(rq.path).Some? && HasLastModified(env.lookup(rq.path).value)
    requires env.lookup(rq.path).value.lastModified.value <= date
    ensures Preconditions(rq, env) == Ok(false)
  {
  }

  /** A resource changed after the If-Unmodified-Since date fails with 412. */
  lemma ModifiedSinceUnmodified(rq: Request, env: Env, date: int)
    requires !OptTruthy(rq.ifMatch) && !OptTruthy(rq.ifNoneMatch) && !OptTruthy(rq.ifModifiedSince)
    requires OptTruthy(rq.ifUnmodifiedSince) && env.parseDate(rq.ifUnmodifiedSince.value) == Some(date)
    requires env.lookup(rq.path).Some? && HasLastModified(env.lookup(rq.path).value)
    requires env.lookup(rq.path).value.lastModified.value > date
    ensures Preconditions(rq, env) == Err(PreconditionFailed("If-Unmodified-Since"))
  {
  }

  /** An unparseable date, or a node without a timestamp, skips the date checks. */
  lemma DateChecksSkipped(rq: Request, env: Env, node: NodeInfo)
    requires OptTruthy(rq.ifUnmodifiedSince)
    requires env.parseDate(rq.ifUnmodifiedSince.value).None? || !HasLastModified(node)
    ensures IfUnmodifiedSinceStage(rq, env, Some(node)) == Continue(Some(node))
  {
  }

  /** With no conditional header at all, the request proceeds. */
  lemma NoConditions(rq: Request, env: Env)
    requires !OptTruthy(rq.ifMatch) && !OptTruthy(rq.ifNoneMatch) && !OptTruthy(rq.ifModifiedSince)
    requires !OptTruthy(rq.ifUnmodifiedSince) && !OptTruthy(rq.ifHeader)
    ensures Preconditions(rq, env) == Ok(true)
  {
  }
}
