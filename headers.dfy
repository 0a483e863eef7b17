/**
 * Request-header and URI helpers of the server (lib/DAV/Server.php) and the
 * byte-range arithmetic of GET (lib/DAV/CorePlugin.php).
 */
module DavHeaders {
  import opened Php

  /** `Server::DEPTH_INFINITY`. */
  const DEPTH_INFINITY: int := -1

  // ------------------------------------------------------------------ Depth

  /**
   * `getHTTPDepth($default)`: the Depth header of section 10.2 of RFC 4918.
   * "infinity" is -1, a digit string its value, anything else the default.
   */
  function GetHTTPDepth(header: Option<string>, default: int := DEPTH_INFINITY): (d: int)
    ensures header.None? ==> d == default
    ensures header == Some("infinity") ==> d == DEPTH_INFINITY
    ensures header.Some? && header.value != "infinity" && !IsDigits(header.value) ==> d == default
    ensures header.Some? && IsDigits(header.value) ==> 0 <= d <= PHP_INT_MAX
  {
    if header.None? then default
    else if header.value == "infinity" then
      assert !IsDigit(header.value[0]);
      DEPTH_INFINITY
    else if !IsDigits(header.value) then default
    else IntCast(header.value)
  }

  /** A depth written as a decimal number reads back as that number. */
  lemma DepthRoundTrip(n: nat, default: int)
    requires n <= PHP_INT_MAX
    ensures GetHTTPDepth(Some(NatToString(n)), default) == n
  {
    NatToStringRoundTrip(n);
    assert NatToString(n) != "infinity" by {
      assert IsDigits(NatToString(n));
      assert "infinity"[0] == 'i';
    }
  }

  // ------------------------------------------------------------------ Range

  /** The two offsets of `bytes=first-last`; either may be missing, not both. */
  datatype RangeSpec = RangeSpec(first: Option<string>, last: Option<string>) {
    predicate WellFormed() {
      && (first.Some? ==> IsDigits(first.value))
      && (last.Some? ==> IsDigits(last.value))
      && (first.Some? || last.Some?)
    }
  }

  predicate AllDigits(s: string) {
    forall i :: 0 <= i < |s| ==> IsDigit(s[i])
  }

  function OptionalDigits(s: string): Option<string> {
    if s == "" then None else Some(s)
  }

  /**
   * `getHTTPRange()`: matches `^bytes=([0-9]*)-([0-9]*)$` case-insensitively
   * (the `$` also accepts one final newline); null when the header is missing,
   * does not match, or both numbers are empty.
   */
  function GetHTTPRange(header: Option<string>): (r: Option<RangeSpec>)
    ensures r.Some? ==> r.value.WellFormed()
  {
    if header.None? then None
    else
      var h := header.value;
      var body := if EndsWith(h, "\n") then h[..|h| - 1] else h;
      if |body| < 6 || ToUpper(body[..6]) != "BYTES=" then None
      else
        var rest := body[6..];
        match IndexOf(rest, "-")
        case None => None
        case Some(k) =>
          var a := rest[..k];
          var b := rest[k + 1..];
          if !AllDigits(a) || !AllDigits(b) then None
          else if a == "" && b == "" then None
          else Some(RangeSpec(OptionalDigits(a), OptionalDigits(b)))
  }

  /** A well-formed Range header is read back as its two offsets. */
  lemma RangeRoundTrip(a: string, b: string)
    requires AllDigits(a) && AllDigits(b) && (a != "" || b != "")
    ensures GetHTTPRange(Some("bytes=" + a + "-" + b)) == Some(RangeSpec(OptionalDigits(a), OptionalDigits(b)))
  {
    var h := "bytes=" + a + "-" + b;
    assert !EndsWith(h, "\n") by {
      assert h[|h| - 1] == if b == "" then '-' else b[|b| - 1];
      assert h[|h| - 1..] == [h[|h| - 1]];
    }
    assert h[..6] == "bytes=";
    assert h[6..] == a + "-" + b;
    FirstDash(a, b);
  }

  /** The dash after a run of digits is the first one. */
  lemma FirstDash(a: string, b: string)
    requires AllDigits(a)
    ensures IndexOf(a + "-" + b, "-") == Some(|a|)
    ensures (a + "-" + b)[..|a|] == a && (a + "-" + b)[|a| + 1..] == b
  {
    var rest := a + "-" + b;
    assert OccursAt(rest, "-", |a|);
    forall j | 0 <= j < |a|
      ensures !OccursAt(rest, "-", j)
    {
      assert rest[j] == a[j];
    }
  }

  /** `ToUpper` turns only a lower-case letter into another character, and never into '='. */
  lemma UpperIsEquals(s: string, i: nat)
    requires i < |s|
    ensures ToUpper(s)[i] == '=' <==> s[i] == '='
  {
  }

  /**
   * A header whose unit is anything but `bytes` (in any letter case) is no
   * range, whatever follows the '='.
   */
  lemma RangeRejectsOtherUnits(unit: string, rest: string)
    requires '=' !in unit && ToUpper(unit) != "BYTES"
    ensures GetHTTPRange(Some(unit + "=" + rest)) == None
  {
    var h := unit + "=" + rest;
    var body := if EndsWith(h, "\n") then h[..|h| - 1] else h;
    assert |body| >= |unit| + 1 && body[..|unit| + 1] == unit + "=" by {
      if EndsWith(h, "\n") {
        assert h[|h| - 1] == '\n';
        assert |rest| > 0;
      }
      assert h[..|unit| + 1] == unit + "=";
    }
    if |body| >= 6 {
      var b6 := body[..6];
      if |unit| < 5 {
        assert b6[|unit|] == '=';
        UpperIsEquals(b6, |unit|);
        assert ToUpper(b6)[|unit|] != "BYTES="[|unit|];
      } else if |unit| == 5 {
        assert b6[..5] == unit;
        assert ToUpper(b6)[..5] == ToUpper(unit);
      } else {
        assert b6[5] == unit[5];
        UpperIsEquals(b6, 5);
        assert ToUpper(b6)[5] != "BYTES="[5];
      }
    }
  }

  /** The byte offsets chosen for a partial GET. */
  datatype ByteRange = ByteRange(start: int, end: int)

  /**
   * The offsets `httpGet` computes for a known, non-zero size, exactly as the
   * code does it: an explicit end of "0" is falsy and means the last byte,
   * and a suffix length of 0 yields an empty range starting past the end.
   */
  function RangeOffsetsAsWritten(size: nat, range: RangeSpec): (r: Result<ByteRange>)
    requires size > 0 && range.WellFormed()
  {
    if range.first.Some? then
      var start := DecimalValue(range.first.value);
      var end := if range.last.Some? && Truthy(range.last.value) then DecimalValue(range.last.value) else size - 1;
      if start >= size then Err(RequestedRangeNotSatisfiable)
      else if end < start then Err(RequestedRangeNotSatisfiable)
      else Ok(ByteRange(start, if end >= size then size - 1 else end))
    else
      var start := size - DecimalValue(range.last.value);
      Ok(ByteRange(if start < 0 then 0 else start, size - 1))
  }

  /** The as-written offsets for `bytes=-0`: the range starts after its own end. */
  lemma SuffixZeroAsWritten()
    ensures RangeOffsetsAsWritten(10, RangeSpec(None, Some("0"))) == Ok(ByteRange(10, 9))
  {
    assert DecimalValue("0") == DecimalValue("") * 10 + DigitValue('0');
  }

  /**
   * The offsets with the suffix case corrected: a zero-length suffix is
   * unsatisfiable (section 2.1 of RFC 7233) and answered with 416.
   */
  function RangeOffsets(size: nat, range: RangeSpec): (r: Result<ByteRange>)
    requires size > 0 && range.WellFormed()
    ensures r.Ok? ==> 0 <= r.value.start <= r.value.end < size
    ensures r.Err? ==> r.error == RequestedRangeNotSatisfiable
  {
    if range.first.None? && DecimalValue(range.last.value) == 0 then Err(RequestedRangeNotSatisfiable)
    else RangeOffsetsAsWritten(size, range)
  }

  /** When 416 is answered: start at or past the size, an explicit non-"0" end below the start, or an empty suffix. */
  lemma RangeUnsatisfiableIff(size: nat, range: RangeSpec)
    requires size > 0 && range.WellFormed()
    ensures RangeOffsets(size, range).Err? <==>
      if range.first.Some? then
        DecimalValue(range.first.value) >= size
        || (range.last.Some? && Truthy(range.last.value) && DecimalValue(range.last.value) < DecimalValue(range.first.value))
      else DecimalValue(range.last.value) == 0
  {
  }

  /** An explicit end past the size is clamped to the last byte; a suffix longer than the entity starts at 0. */
  lemma RangeClamps(size: nat, range: RangeSpec)
    requires size > 0 && range.WellFormed() && RangeOffsets(size, range).Ok?
    ensures range.first.Some? ==> RangeOffsets(size, range).value.start == DecimalValue(range.first.value)
    ensures range.first.Some? && range.last.Some? && Truthy(range.last.value) ==>
      RangeOffsets(size, range).value.end == if DecimalValue(range.last.value) >= size then size - 1 else DecimalValue(range.last.value)
    ensures range.first.None? ==>
      RangeOffsets(size, range).value == ByteRange(if DecimalValue(range.last.value) >= size then 0 else size - DecimalValue(range.last.value), size - 1)
  {
  }

  /** The falsy "0" quirk: `bytes=5-0` is served as bytes 5 to the end rather than refused. */
  lemma RangeEndZeroQuirk()
    ensures RangeOffsets(10, RangeSpec(Some("5"), Some("0"))) == Ok(ByteRange(5, 9))
  {
    assert DecimalValue("5") == DecimalValue("") * 10 + DigitValue('5');
  }

  /** The status and headers `httpGet` answers with. */
  datatype GetReply =
    | Partial(range: ByteRange, contentLength: int, contentRange: string)  // 206
    | Whole(wholeLength: Option<nat>)                                       // 200

  function StatusOf(reply: GetReply): int {
    if reply.Partial? then 206 else 200
  }

  /**
   * The text of an offset in Content-Range. PHP concatenates `$start` and
   * `$end` as they are: the header's own digit string when the offset came
   * from it unchanged, the computed integer when it was defaulted or clamped.
   */
  function OffsetText(given: Option<string>, used: nat): (t: string)
    requires given.Some? ==> IsDigits(given.value) && DecimalValue(given.value) == used
    ensures IsDigits(t) && DecimalValue(t) == used
  {
    if given.Some? then given.value else (NatToStringRoundTrip(used); NatToString(used))
  }

  /** The digit string `$end` still holds: an explicit, truthy end that was not clamped. */
  function EndGiven(size: nat, range: RangeSpec): Option<string>
    requires range.WellFormed()
  {
    if range.first.Some? && range.last.Some? && Truthy(range.last.value) && DecimalValue(range.last.value) < size
    then range.last else None
  }

  /**
   * The range handling of `httpGet`: a range is applied only when the size is
   * known and non-zero, a range was given, and If-Range did not cancel it.
   * The offsets are the corrected ones (a zero-length suffix is 416).
   */
  function GetRangeReply(size: Option<nat>, range: Option<RangeSpec>, ignoreRange: bool): (r: Result<GetReply>)
    requires range.Some? ==> range.value.WellFormed()
    ensures r.Ok? && r.value.Partial? ==>
      var b := r.value.range;
      && size.Some? && range.Some? && 0 <= b.start <= b.end < size.value
      && r.value.contentLength == b.end - b.start + 1
      && (range.value.first.Some? ==> b.start == DecimalValue(range.value.first.value))
      && (EndGiven(size.value, range.value).Some? ==> b.end == DecimalValue(range.value.last.value))
      && r.value.contentRange == "bytes " + OffsetText(range.value.first, b.start) + "-"
           + OffsetText(EndGiven(size.value, range.value), b.end) + "/" + NatToString(size.value)
    ensures r.Err? ==> r.error == RequestedRangeNotSatisfiable
    ensures r.Ok? && r.value.Whole? ==> r.value.wholeLength == if size.Some? && size.value != 0 then size else None
    ensures (ignoreRange || size.None? || size == Some(0) || range.None?) <==> r.Ok? && r.value.Whole?
  {
    if !ignoreRange && size.Some? && size.value != 0 && range.Some? then
      match RangeOffsets(size.value, range.value)
      case Err(e) => Err(e)
      case Ok(b) =>
        Ok(Partial(b, b.end - b.start + 1,
          "bytes " + OffsetText(range.value.first, b.start) + "-"
            + OffsetText(EndGiven(size.value, range.value), b.end) + "/" + NatToString(size.value)))
    else
      Ok(Whole(if size.Some? && size.value != 0 then size else None))
  }

  /** The header echoes the client's digits: `bytes=05-08` on ten bytes is answered with `bytes 05-08/10`. */
  lemma ContentRangeKeepsDigits()
    ensures GetRangeReply(Some(10), Some(RangeSpec(Some("05"), Some("08"))), false)
         == Ok(Partial(ByteRange(5, 8), 4, "bytes 05-08/10"))
  {
    assert DecimalValue("0") == 0;
    assert DecimalValue("05") == DecimalValue("0") * 10 + DigitValue('5');
    assert DecimalValue("08") == DecimalValue("0") * 10 + DigitValue('8');
    assert NatToString(10) == NatToString(1) + "0";
    assert Truthy("08");
    var range := RangeSpec(Some("05"), Some("08"));
    assert RangeOffsets(10, range) == Ok(ByteRange(5, 8));
    assert EndGiven(10, range) == Some("08");
    assert OffsetText(Some("05"), 5) == "05";
    assert OffsetText(Some("08"), 8) == "08";
    assert NatToString(1) == "1";
    assert NatToString(10) == "10";
    assert "bytes " + "05" + "-" + "08" + "/" + "10" == "bytes 05-08/10";
    assert GetRangeReply(Some(10), Some(range), false)
        == Ok(Partial(ByteRange(5, 8), 8 - 5 + 1, "bytes " + "05" + "-" + "08" + "/" + NatToString(10)));
  }

  // ------------------------------------------------------------------ Prefer

  /** `getHTTPPrefer()`: the options of draft-snell-http-prefer-14; `wait` is null unless given. */
  datatype Prefer = Prefer(
    returnAsynch: bool,
    returnMinimal: bool,
    returnRepresentation: bool,
    wait: Option<string>,
    strict: bool,
    lenient: bool)

  const NoPreference: Prefer := Prefer(false, false, false, None, false, false)

  predicate TokenChar(c: char) {
    ('a' <= c <= 'z') || IsDigit(c) || c == '-'
  }

  predicate IsToken(s: string) {
    |s| > 0 && forall i :: 0 <= i < |s| ==> TokenChar(s[i])
  }

  /** One trimmed parameter against `^(?P<token>[a-z0-9-]+)(?:=(?P<value>[0-9]+))?$`. */
  function ParsePreference(p: string): (r: Option<(string, Option<string>)>)
    ensures r.Some? ==> IsToken(r.value.0)
    ensures r.Some? && r.value.1.Some? ==> IsDigits(r.value.1.value) && p == r.value.0 + "=" + r.value.1.value
    ensures r.Some? && r.value.1.None? ==> p == r.value.0
  {
    match IndexOf(p, "=")
    case None => if IsToken(p) then Some((p, None)) else None
    case Some(k) =>
      var t := p[..k];
      var v := p[k + 1..];
      assert p == t + "=" + v;
      if IsToken(t) && IsDigits(v) then Some((t, Some(v))) else None
  }

  /** A token, or a token with a numeric value, is parsed back as written. */
  lemma ParsePreferenceRoundTrip(t: string, v: Option<string>)
    requires IsToken(t) && (v.Some? ==> IsDigits(v.value))
    ensures ParsePreference(if v.Some? then t + "=" + v.value else t) == Some((t, v))
  {
    if v.Some? {
      var p := t + "=" + v.value;
      assert OccursAt(p, "=", |t|);
      forall j | 0 <= j < |t|
        ensures !OccursAt(p, "=", j)
      {
        assert p[j] == t[j];
        assert TokenChar(t[j]);
      }
      assert IndexOf(p, "=") == Some(|t|);
      assert p[..|t|] == t;
      assert p[|t| + 1..] == v.value;
    } else {
      forall j | 0 <= j <= |t|
        ensures !OccursAt(t, "=", j)
      {
        if j < |t| {
          assert TokenChar(t[j]);
          assert t[j..j + 1] == [t[j]];
        }
      }
      assert IndexOf(t, "=") == None;
    }
  }

  /** The switch on the token: the five flags are set, `wait` takes the value, other tokens are ignored. */
  function ApplyPreference(acc: Prefer, token: string, value: Option<string>): (r: Prefer)
    ensures r.returnMinimal == (acc.returnMinimal || token == "return-minimal")
    ensures r.wait == if token == "wait" then value else acc.wait
    ensures token !in {"return-asynch", "return-minimal", "return-representation", "strict", "lenient", "wait"} ==> r == acc
  {
    match token
    case "return-asynch" => acc.(returnAsynch := true)
    case "return-minimal" => acc.(returnMinimal := true)
    case "return-representation" => acc.(returnRepresentation := true)
    case "strict" => acc.(strict := true)
    case "lenient" => acc.(lenient := true)
    case "wait" => acc.(wait := value)
    case _ => acc
  }

  /** One comma-separated parameter, trimmed and matched. */
  function Parsed(param: string): Option<(string, Option<string>)> {
    ParsePreference(Trim(param, DefaultTrimChars))
  }

  /** Every parameter, trimmed and matched. */
  function ParsedAll(params: seq<string>): (r: seq<Option<(string, Option<string>)>>)
    ensures |r| == |params|
    ensures forall i :: 0 <= i < |params| ==> r[i] == Parsed(params[i])
  {
    seq(|params|, i requires 0 <= i < |params| => Parsed(params[i]))
  }

  /** The options after the first `n` matched parameters. */
  function PreferencesOf(parsed: seq<Option<(string, Option<string>)>>, n: nat): Prefer
    requires n <= |parsed|
    decreases n
  {
    if n == 0 then NoPreference
    else
      var acc := PreferencesOf(parsed, n - 1);
      match parsed[n - 1]
      case None => acc
      case Some((t, v)) => ApplyPreference(acc, t, v)
  }

  /** The whole of `getHTTPPrefer()`: Prefer when it is truthy, otherwise `Brief: t`. */
  function PreferSpec(prefer: Option<string>, brief: Option<string>): Prefer {
    if OptTruthy(prefer) then
      var params := Explode(prefer.value, ',');
      PreferencesOf(ParsedAll(params), |params|)
    else if brief == Some("t") then NoPreference.(returnMinimal := true)
    else NoPreference
  }

  /** Whether some parameter among the first `n` names the token. */
  predicate Names(parsed: seq<Option<(string, Option<string>)>>, n: nat, token: string)
    requires n <= |parsed|
  {
    exists i :: 0 <= i < n && parsed[i].Some? && parsed[i].value.0 == token
  }

  /** return-minimal is set exactly when some parameter names it (with or without a value). */
  lemma {:induction false} MinimalIffNamed(parsed: seq<Option<(string, Option<string>)>>, n: nat)
    requires n <= |parsed|
    ensures PreferencesOf(parsed, n).returnMinimal <==> Names(parsed, n, "return-minimal")
    decreases n
  {
    if n > 0 {
      MinimalIffNamed(parsed, n - 1);
      if Names(parsed, n, "return-minimal") {
        var i :| 0 <= i < n && parsed[i].Some? && parsed[i].value.0 == "return-minimal";
        if i < n - 1 {
          assert Names(parsed, n - 1, "return-minimal");
        }
      }
    }
  }

  /** `wait` is null unless some parameter names it, and a later `wait` overrides an earlier one. */
  lemma {:induction false} WaitIsLast(parsed: seq<Option<(string, Option<string>)>>, n: nat)
    requires n <= |parsed|
    ensures !Names(parsed, n, "wait") ==> PreferencesOf(parsed, n).wait.None?
    ensures n > 0 && parsed[n - 1].Some? && parsed[n - 1].value.0 == "wait"
      ==> PreferencesOf(parsed, n).wait == parsed[n - 1].value.1
    decreases n
  {
    if n > 0 {
      WaitIsLast(parsed, n - 1);
    }
  }

  lemma PreferencesStep(parsed: seq<Option<(string, Option<string>)>>, i: nat)
    requires i < |parsed|
    ensures PreferencesOf(parsed, i + 1) ==
      if parsed[i].Some? then ApplyPreference(PreferencesOf(parsed, i), parsed[i].value.0, parsed[i].value.1)
      else PreferencesOf(parsed, i)
  {
  }

  /**
   * The loop of `getHTTPPrefer()` over the parameters; each parameter's
   * `preg_match` is taken from `parsed`, the matches of all of them.
   */
  method ApplyPreferences(parsed: seq<Option<(string, Option<string>)>>) returns (r: Prefer)
    ensures r == PreferencesOf(parsed, |parsed|)
  {
    r := NoPreference;
    var i := 0;
    while i < |parsed|
      invariant 0 <= i <= |parsed|
      invariant r == PreferencesOf(parsed, i)
    {
      var p := parsed[i];
      PreferencesStep(parsed, i);
      if p.Some? {
        r := ApplyPreference(r, p.value.0, p.value.1);
      }
      i := i + 1;
    }
  }

  /** `getHTTPPrefer()`. */
  method GetHTTPPrefer(prefer: Option<string>, brief: Option<string>) returns (r: Prefer)
    ensures r == PreferSpec(prefer, brief)
  {
    if OptTruthy(prefer) {
      var params := Explode(prefer.value, ',');
      r := ApplyPreferences(ParsedAll(params));
    } else if brief == Some("t") {
      r := NoPreference.(returnMinimal := true);
    } else {
      r := NoPreference;
    }
  }

  /** `return=minimal` over the whole request: named by a parameter of a truthy Prefer, or `Brief: t` without one. */
  lemma PreferMinimalIff(prefer: Option<string>, brief: Option<string>)
    ensures PreferSpec(prefer, brief).returnMinimal <==>
      if OptTruthy(prefer) then
        var params := Explode(prefer.value, ',');
        Names(ParsedAll(params), |params|, "return-minimal")
      else brief == Some("t")
  {
    if OptTruthy(prefer) {
      var params := Explode(prefer.value, ',');
      MinimalIffNamed(ParsedAll(params), |params|);
    }
  }

  // ------------------------------------------------------------------ base URI

  /** The base URI `setBaseUri` stores: a slash is appended unless the URI already ends in one. */
  function WithTrailingSlash(uri: string): (r: string)
    ensures EndsWith(r, "/")
    ensures r == uri || r == uri + "/"
    ensures r == uri <==> EndsWith(uri, "/")
  {
    if uri != [] && uri[|uri| - 1] == '/' then uri else uri + "/"
  }

  lemma WithTrailingSlashIdempotent(uri: string)
    ensures WithTrailingSlash(WithTrailingSlash(uri)) == WithTrailingSlash(uri)
  {
  }

  /** The server's base URI: set explicitly, or guessed from the request on first use. */
  class BaseUri {
    var baseUri: Option<string>

    constructor()
      ensures baseUri.None?
    {
      baseUri := None;
    }

    method SetBaseUri(uri: string)
      modifies this
      ensures baseUri == Some(WithTrailingSlash(uri))
    {
      if uri == [] || uri[|uri| - 1] != '/' {
        baseUri := Some(uri + "/");
      } else {
        baseUri := Some(uri);
      }
    }

    /** `getBaseUri()`; `guessed` is what `guessBaseUri()` would return. */
    method GetBaseUri(guessed: string) returns (uri: string)
      modifies this
      ensures old(baseUri).Some? ==> uri == old(baseUri).value && baseUri == old(baseUri)
      ensures old(baseUri).None? ==> uri == guessed && baseUri == Some(guessed)
    {
      if baseUri.None? {
        baseUri := Some(guessed);
      }
      uri := baseUri.value;
    }
  }

  // ------------------------------------------------------------------ calculateUri

  /**
   * What `calculateUri` needs from outside: the base URI, `parse_url`'s path
   * component (None when the URL has none) and `URLUtil::decodePath`.
   */
  datatype UriEnv = UriEnv(base: string, urlPath: string -> Option<string>, decodePath: string -> string)

  /** A URI is absolute for `calculateUri` when it does not start with '/' and "://" occurs after position 0. */
  predicate LooksAbsolute(uri: string) {
    (uri == [] || uri[0] != '/') && IndexOf(uri, "://").Some? && IndexOf(uri, "://").value != 0
  }

  /** The path `calculateUri` compares with the base URI: the URL's path for an absolute URL, with "//" collapsed to "/". */
  function NormalisedPath(uri: string, env: UriEnv): string {
    var path := if LooksAbsolute(uri) then (match env.urlPath(uri) case Some(p) => p case None => "") else uri;
    ReplaceAll(path, "//", "/")
  }

  /**
   * `calculateUri($uri)`: the request path relative to the base URI, with
   * slashes trimmed; Forbidden exactly when the path is outside the base URI
   * and is not the base URI without its trailing slash.
   */
  function CalculateUri(uri: string, env: UriEnv): (r: Result<string>)
    ensures r.Ok? ==> r.value == "" || (r.value[0] != '/' && r.value[|r.value| - 1] != '/')
    ensures r.Err? <==> !StartsWith(NormalisedPath(uri, env), env.base) && NormalisedPath(uri, env) + "/" != env.base
    ensures r.Err? ==> r.error == Forbidden
  {
    var u := NormalisedPath(uri, env);
    if StartsWith(u, env.base) then
      var rel := Trim(env.decodePath(u[|env.base|..]), {'/'});
      assert rel == "" || rel[0] != '/' by {
        var left := TrimLeft(env.decodePath(u[|env.base|..]), {'/'});
        assert rel == TrimRight(left, {'/'});
        if rel != "" {
          assert rel[0] == left[0];
        }
      }
      Ok(rel)
    else if u + "/" == env.base then Ok("")
    else Err(Forbidden)
  }

  /** A path below the base URI, with no doubled slash, maps to its decoded remainder. */
  lemma CalculateUriBelowBase(rest: string, env: UriEnv)
    requires |env.base| > 0 && env.base[0] == '/'
    requires forall j :: 0 <= j <= |env.base + rest| ==> !OccursAt(env.base + rest, "//", j)
    ensures CalculateUri(env.base + rest, env) == Ok(Trim(env.decodePath(rest), {'/'}))
  {
    var uri := env.base + rest;
    assert !LooksAbsolute(uri) by { assert uri[0] == '/'; }
    ReplaceAbsent(uri, "//", "/");
    assert StartsWith(uri, env.base) by { assert uri[..|env.base|] == env.base; }
    assert uri[|env.base|..] == rest;
  }

  /** The base URI itself without its trailing slash maps to the root. */
  lemma CalculateUriBaseWithoutSlash(env: UriEnv, uri: string)
    requires env.base == uri + "/" && |uri| > 0 && uri[0] == '/'
    requires forall j :: 0 <= j <= |uri| ==> !OccursAt(uri, "//", j)
    ensures CalculateUri(uri, env) == Ok("")
  {
    ReplaceAbsent(uri, "//", "/");
    assert !StartsWith(uri, env.base);
  }

  // ------------------------------------------------------------------ COPY / MOVE

  /** The Overwrite header of section 10.6 of RFC 4918; missing or falsy means T. */
  function ParseOverwrite(header: Option<string>): (r: Result<bool>)
    ensures r == Ok(true) <==> !OptTruthy(header) || header.value == "t" || header.value == "T"
    ensures r == Ok(false) <==> OptTruthy(header) && (header.value == "f" || header.value == "F")
    ensures r.Err? ==> r.error == BadRequest
  {
    var o := if OptTruthy(header) then header.value else "T";
    if ToUpper(o) == "T" then Ok(true)
    else if ToUpper(o) == "F" then Ok(false)
    else Err(BadRequest)
  }

  /** What `getCopyAndMoveInfo` returns. */
  datatype CopyMoveInfo = CopyMoveInfo(destination: string, destinationExists: bool)

  /**
   * The tree as `getCopyAndMoveInfo` sees it: for a path, None when it does
   * not exist, otherwise whether the node is a collection; `parentOf` is the
   * first half of `URLUtil::splitPath`.
   */
  datatype TreeView = TreeView(lookup: string -> Option<bool>, parentOf: string -> string)

  /**
   * Every check of `getCopyAndMoveInfo` passes for the destination path `d`:
   * the Overwrite header is valid, the parent is an existing collection, an
   * existing destination may be overwritten, and `d` is neither the source
   * nor inside it.
   */
  predicate CopyMoveAllowed(d: string, overwriteHeader: Option<string>, requestPath: string, tree: TreeView) {
    && ParseOverwrite(overwriteHeader).Ok?
    && tree.lookup(tree.parentOf(d)) == Some(true)
    && (tree.lookup(d).Some? ==> ParseOverwrite(overwriteHeader) == Ok(true))
    && d != requestPath
    && !StartsWith(d, requestPath + "/")
  }

  /**
   * `getCopyAndMoveInfo($request)`, with its checks in the order the code
   * makes them; each documented exception is stated under the checks that
   * precede it.
   */
  function GetCopyAndMoveInfo(destinationHeader: Option<string>, overwriteHeader: Option<string>,
                              requestPath: string, env: UriEnv, tree: TreeView): (r: Result<CopyMoveInfo>)
    ensures !OptTruthy(destinationHeader) ==> r == Err(BadRequest)
    ensures OptTruthy(destinationHeader) && CalculateUri(destinationHeader.value, env).Err? ==> r == Err(Forbidden)
    ensures OptTruthy(destinationHeader) && CalculateUri(destinationHeader.value, env).Ok? ==>
      var d := CalculateUri(destinationHeader.value, env).value;
      var parent := tree.lookup(tree.parentOf(d));
      var overwrite := ParseOverwrite(overwriteHeader);
      && (overwrite.Err? ==> r == Err(BadRequest))
      && (overwrite.Ok? && parent.None? ==> r == Err(Conflict))
      && (overwrite.Ok? && parent == Some(false) ==> r == Err(UnsupportedMediaType))
      && (overwrite == Ok(false) && parent == Some(true) && tree.lookup(d).Some? ==> r == Err(PreconditionFailed("Overwrite")))
      && (overwrite.Ok? && parent == Some(true) && (tree.lookup(d).Some? ==> overwrite == Ok(true)) ==>
            && (d == requestPath ==> r == Err(Forbidden))
            && (d != requestPath && StartsWith(d, requestPath + "/") ==> r == Err(Conflict)))
      && (r.Ok? <==> CopyMoveAllowed(d, overwriteHeader, requestPath, tree))
    ensures r.Ok? ==>
      && OptTruthy(destinationHeader)
      && CalculateUri(destinationHeader.value, env) == Ok(r.value.destination)
      && ParseOverwrite(overwriteHeader).Ok?
      && tree.lookup(tree.parentOf(r.value.destination)) == Some(true)
      && r.value.destinationExists == tree.lookup(r.value.destination).Some?
      && (r.value.destinationExists ==> ParseOverwrite(overwriteHeader) == Ok(true))
      && r.value.destination != requestPath
      && !StartsWith(r.value.destination, requestPath + "/")
  {
    if !OptTruthy(destinationHeader) then Err(BadRequest)
    else
      match CalculateUri(destinationHeader.value, env)
      case Err(e) => Err(e)
      case Ok(destination) =>
        match ParseOverwrite(overwriteHeader)
        case Err(e) => Err(e)
        case Ok(overwrite) =>
          var parent := tree.lookup(tree.parentOf(destination));
          if parent.None? then Err(Conflict)
          else if !parent.value then Err(UnsupportedMediaType)
          else if tree.lookup(destination).Some? && !overwrite then Err(PreconditionFailed("Overwrite"))
          else if destination == requestPath then Err(Forbidden)
          else if StartsWith(destination, requestPath + "/") then Err(Conflict)
          else Ok(CopyMoveInfo(destination, tree.lookup(destination).Some?))
  }

  /** Copying or moving a resource into its own subtree is refused with Conflict. */
  lemma CopyIntoOwnSubtree(destinationHeader: string, overwriteHeader: Option<string>, requestPath: string, env: UriEnv, tree: TreeView)
    requires Truthy(destinationHeader)
    requires CalculateUri(destinationHeader, env).Ok?
    requires StartsWith(CalculateUri(destinationHeader, env).value, requestPath + "/")
    requires ParseOverwrite(overwriteHeader) == Ok(true)
    requires tree.lookup(tree.parentOf(CalculateUri(destinationHeader, env).value)) == Some(true)
    ensures GetCopyAndMoveInfo(Some(destinationHeader), overwriteHeader, requestPath, env, tree) == Err(Conflict)
  {
    var d := CalculateUri(destinationHeader, env).value;
    assert d != requestPath by {
      assert |d| >= |requestPath| + 1;
    }
  }
}
