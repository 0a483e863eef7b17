# sabre/dav core, modelled in Dafny

This project models the protocol core of the sabre/dav WebDAV server (PHP):

- the per-request property result map (`PropFind`) with its first-claim-wins `handle`, its `set` override and the read-back into status buckets;
- the PROPFIND depth walk of `Server::getPropertiesForPath` and `addPathNodesRecursively`, with the built-in property handlers of `CorePlugin::propFind` and the node-stored fill of `propFindNode`;
- the conditional-request evaluator `Server::checkPreconditions`: If-Match, If-None-Match, If-Modified-Since and If-Unmodified-Since (sections 3.1 to 3.4 of RFC 7232), plus the WebDAV `If` header (section 10.4 of RFC 4918) and its parser `getIfConditions`;
- the header and URI helpers of `Server`: Depth, Range, Prefer, base URI, `calculateUri`, Destination/Overwrite, resource types and allowed methods;
- the status decisions of `CorePlugin`: byte ranges of GET (section 4.4 of RFC 7233), PROPPATCH, PUT, MKCOL, MOVE and COPY, the protected-property check, and `Server::createCollection`;
- the CardDAV PDO backend's address books, cards and sync-token change ledger, following the sync-collection report of section 3.2 of RFC 6578;
- six XML element codecs over an abstract element tree: `{DAV:}response`, the calendarserver invite, the system-status notification, the calendar-query report, the CardDAV param-filter and the expand-property report.

## How it is laid out

Each file holds one module:

| file | module | models |
|---|---|---|
| `php.dfy` | `Php` | PHP values and built-ins the core relies on: `Option`/`Result`, the exception kinds, truthiness, `trim`, `explode`, `implode`, `str_replace`, digit strings and `(int)` casts, ordered arrays (`Assoc`: keys in insertion order plus a map) and `foreach` as a left fold. |
| `propfind.dfy` | `DavPropFind` | `class PropFind` with the fields `result` and `itemsLeft`, plus the specification functions its methods are proved against. |
| `headers.dfy` | `DavHeaders` | Depth, Range, Prefer, `setBaseUri`, `calculateUri`, `getCopyAndMoveInfo`, and the byte-range arithmetic of `httpGet`. |
| `preconditions.dfy` | `DavPreconditions` | `getIfConditions` and `checkPreconditions`. |
| `core_tree.dfy` | `DavTree` | The node tree, resource types, hrefs, allowed methods, depth clamping and `addPathNodesRecursively`. |
| `core_props.dfy` | `DavCoreProps` | `CorePlugin::propFind`, `propFindNode` and `Server::getPropertiesForPath`. |
| `core_http.dfy` | `DavHttp` | `parsePropPatchRequest`, the protected-property check (`class PropPatch`), and the PROPPATCH, PUT, MKCOL, MOVE and COPY decisions, including `createCollection`. |
| `carddav_pdo.dfy` | `CardDavPdo` | `class Backend`, whose single field holds the three tables and their AUTO_INCREMENT counters. |
| `xml.dfy` | `XmlTree` | The element tree the reader returns, the writer's event stream (`class Writer`), and the proof that the reader reads back what the writer wrote. |
| `xml_*.dfy` | `Xml*` | One module per element codec. |

Code that changes state step by step is modelled imperatively:

- a `class` whose methods carry `modifies`, or a method with a `while` loop;
- each is proved equal to a specification function (`ensures r == Spec(...)`, or `ensures Snapshot() == Handled(old(Snapshot()), ...)`);
- the lemmas state what the source promises about those functions.

Code that only computes is modelled as functions and lemmas.

## Model

| member | source | states |
|---|---|---|
| DavPropFind.PropFind.constructor | lib/DAV/PropFind.php:44-71 | The requested names are the fixed allprop list for ALLPROPS and the given list otherwise. Every requested name is seeded at (404, null) in first-occurrence order. `itemsLeft` is the number of distinct names, and the 404-count invariant holds. |
| DavPropFind.Seed | lib/DAV/PropFind.php:63-67 | The seeded map is a well-formed ordered array whose keys are exactly the requested names, each at (404, null). |
| DavPropFind.SeedConsistent | lib/DAV/PropFind.php:63-69 | After seeding, `itemsLeft` (the number of distinct names) equals the number of 404 entries. |
| DavPropFind.SeedAllNotFound | lib/DAV/PropFind.php:63-69 | Every seeded key is in the 404 list, in key order. |
| DavPropFind.AllPropsSeed | lib/DAV/PropFind.php:51-61 | An ALLPROPS request ignores the given list: it seeds exactly the seven allprop names, seven entries. |
| DavPropFind.SeedKeysDistinctNames | lib/DAV/PropFind.php:63-67 | Distinct requested names become the keys in exactly the request's order. |
| DavPropFind.Handled | lib/DAV/PropFind.php:95-109 | `handle` keeps the ordered array well formed and preserves the invariant "itemsLeft = number of 404 entries". |
| DavPropFind.PropFind.Handle | lib/DAV/PropFind.php:95-109 | The new state is `Handled` of the old one. It acts only when itemsLeft > 0 and the name is requested and still 404. A non-null value becomes (200, value) and decrements itemsLeft. The invariant and the path and depth are kept. |
| DavPropFind.FirstClaimWins | lib/DAV/PropFind.php:97-106 | A 404 name claimed with a value reads back as that value with status 200. Every later `handle` of the same name leaves the whole state unchanged. |
| DavPropFind.HandleNoEffect | lib/DAV/PropFind.php:97-103 | A null value, an unrequested name or a name no longer at 404 leaves the state as it is. |
| DavPropFind.OnlyNamedEntryChanges | lib/DAV/PropFind.php:95-136 | `handle` and `set` leave every other name's value and status, and the key order, unchanged. |
| DavPropFind.Updated | lib/DAV/PropFind.php:122-136 | `set` keeps the array well formed and the 404-count invariant: itemsLeft moves by -1 on a 404-to-other transition and by +1 on the reverse. |
| DavPropFind.PropFind.Set | lib/DAV/PropFind.php:122-136 | The new state is `Updated` of the old one, the invariant holds, and the path and depth are unchanged. |
| DavPropFind.SetStores | lib/DAV/PropFind.php:124-133 | On a requested name, `set` stores the value with the given status. Without a status it stores 200 for a non-null value and 404 for null. |
| DavPropFind.SetUnrequested | lib/DAV/PropFind.php:124 | `set` on a name that was not requested changes nothing. |
| DavPropFind.PropFind.SetPath | lib/DAV/PropFind.php:171-175 | Replaces the path and nothing else. |
| DavPropFind.PropFind.SetDepth | lib/DAV/PropFind.php:205-209 | Replaces the depth and nothing else. |
| DavPropFind.PropFind.Clone | lib/DAV/Server.php:864 | `clone $propFind`: a fresh object with every field of the original. |
| DavPropFind.PropFind.Get404Properties | lib/DAV/PropFind.php:217-230 | Returns exactly the names whose status is 404, in key order. The early return for itemsLeft = 0 gives the same (empty) answer. |
| DavPropFind.WithStatusUpdate | lib/DAV/PropFind.php:103-105 | Replacing one entry changes the count of a status by -1, 0 or +1, according to the old and new status of that entry. |
| DavPropFind.BucketsOf | lib/DAV/PropFind.php:259-262 | The grouping always has buckets 200 and 404, even when they are empty. |
| DavPropFind.BucketsValid | lib/DAV/PropFind.php:257-272 | The grouping never lists a status twice. |
| DavPropFind.BucketsMeaning | lib/DAV/PropFind.php:257-272 | A name is in bucket s, with its value, iff it was requested and its status is s. So every requested name is in exactly one bucket, and no bucket holds anything else. |
| DavPropFind.GroupByStatus | lib/DAV/PropFind.php:263-269 | The loop over the result computes `BucketsOf` over all entries. |
| DavPropFind.PropFind.GetResultForMultiStatus | lib/DAV/PropFind.php:257-272 | Returns the status buckets of the current result. |
| DavHeaders.GetHTTPDepth | lib/DAV/Server.php:562-577 | A missing header gives the default. "infinity" gives -1. A non-digit string gives the default. A digit string gives its (saturated) integer value. |
| DavHeaders.DepthRoundTrip | lib/DAV/Server.php:562-577 | The decimal text of any depth up to PHP_INT_MAX parses back to that depth. |
| DavHeaders.GetHTTPRange | lib/DAV/Server.php:593-609 | A range is returned only when at least one of its two numbers is present, and every number present is all digits. |
| DavHeaders.RangeRoundTrip | lib/DAV/Server.php:593-609 | `bytes=A-B`, with A and B digit strings that are not both empty, parses to (A or null, B or null). |
| DavHeaders.RangeRejectsOtherUnits | lib/DAV/Server.php:600 | Any unit other than `bytes`, in any letter case, gives no range (the unit has no `=` in it). |
| DavHeaders.RangeOffsets | lib/DAV/CorePlugin.php:150-168 | Byte offsets for a known non-zero size: either 0 <= start <= end < size, or RequestedRangeNotSatisfiable (416). An empty suffix range is corrected to 416; see Findings. |
| DavHeaders.RangeUnsatisfiableIff | lib/DAV/CorePlugin.php:150-168 | 416 exactly when: the start is at or beyond the size; or an explicit, truthy end lies below the start; or a suffix length is zero. |
| DavHeaders.RangeClamps | lib/DAV/CorePlugin.php:155-166 | The start is the given start. A truthy end is clamped to size-1. A suffix of n bytes gives start max(0, size-n) and end size-1. |
| DavHeaders.RangeEndZeroQuirk | lib/DAV/CorePlugin.php:154 | An explicit end of "0" is falsy, so it is read as size-1. |
| DavHeaders.SuffixZeroAsWritten | lib/DAV/CorePlugin.php:161-166 | As written, `bytes=-0` on a 10-byte entity gives start 10 and end 9 rather than 416. |
| DavHeaders.OffsetText | lib/DAV/CorePlugin.php:186 | The text an offset is written with in Content-Range is a digit string whose value is the offset. |
| DavHeaders.ContentRangeKeepsDigits | lib/DAV/CorePlugin.php:150-186 | For `bytes=05-08` on a 10-byte body the reply is bytes 5 to 8, 4 bytes long, with Content-Range `bytes 05-08/10`. |
| DavHeaders.GetRangeReply | lib/DAV/CorePlugin.php:147-195 | A partial reply has offsets inside the size, the start and a usable end equal to the values of the header's digits, and Content-Length end-start+1. Content-Range is `bytes start-end/size` with each offset written as the client's digit string where one was used, so leading zeros are kept. The whole body is sent exactly when there is no size or range, or If-Range cancels it; every error is RequestedRangeNotSatisfiable. The suffix-range case is corrected; see Findings. |
| DavHeaders.ParsePreference | lib/DAV/Server.php:659 | A matched parameter is a token of `[a-z0-9-]`, optionally `=digits`, and is the whole trimmed parameter. |
| DavHeaders.ParsePreferenceRoundTrip | lib/DAV/Server.php:659 | `token` and `token=digits` are recognised as themselves. |
| DavHeaders.ApplyPreference | lib/DAV/Server.php:663-675 | `return-minimal` sets returnMinimal, `wait` records its value, and unknown tokens change nothing. |
| DavHeaders.MinimalIffNamed | lib/DAV/Server.php:654-678 | returnMinimal is set iff some matched parameter is `return-minimal`. |
| DavHeaders.WaitIsLast | lib/DAV/Server.php:654-678 | Without a `wait` parameter, wait is null. A final `wait` parameter's value is the one kept. |
| DavHeaders.ApplyPreferences | lib/DAV/Server.php:654-678 | The loop over the parameters computes `PreferencesOf`. |
| DavHeaders.GetHTTPPrefer | lib/DAV/Server.php:637-685 | Computes `PreferSpec`: the Prefer header when it is truthy, otherwise `Brief: t` as return-minimal. |
| DavHeaders.PreferMinimalIff | lib/DAV/Server.php:637-685 | returnMinimal iff Prefer names return-minimal or, without Prefer, Brief is exactly "t". |
| DavHeaders.WithTrailingSlash | lib/DAV/Server.php:325-327 | The result ends in "/", and equals the input iff the input already did. |
| DavHeaders.WithTrailingSlashIdempotent | lib/DAV/Server.php:325-327 | Adding the slash twice is the same as adding it once. |
| DavHeaders.BaseUri.SetBaseUri | lib/DAV/Server.php:323-333 | Stores the URI with a trailing slash. |
| DavHeaders.BaseUri.GetBaseUri | lib/DAV/Server.php:338-345 | Returns the stored base URI. When none is stored, it stores the guessed one and returns that. |
| DavHeaders.CalculateUri | lib/DAV/Server.php:525-551 | The result is the path relative to the base URI with its outer slashes trimmed. It is Forbidden exactly when the normalised path (the path part of an absolute URI, with `//` collapsed) neither starts with the base nor equals the base without its trailing slash. |
| DavHeaders.CalculateUriBelowBase | lib/DAV/Server.php:536-545 | A URI that is the base followed by a rest gives the decoded rest, with slashes trimmed. |
| DavHeaders.CalculateUriBaseWithoutSlash | lib/DAV/Server.php:546-548 | The base URI without its trailing slash gives the root "". |
| DavHeaders.ParseOverwrite | lib/DAV/Server.php:716-721 | A missing header, "t" or "T" means overwrite. "f" or "F" means no overwrite. Anything else is BadRequest. |
| DavHeaders.GetCopyAndMoveInfo | lib/DAV/Server.php:711-764 | Each error in the source's order: no Destination is BadRequest, a destination outside the base is Forbidden, a bad Overwrite is BadRequest, a missing parent is Conflict, a parent that is not a collection is UnsupportedMediaType, an existing destination with Overwrite F is PreconditionFailed, the source itself is Forbidden and a destination inside the source is Conflict. The result is Ok exactly when all checks pass, and then it carries the resolved destination. |
| DavHeaders.CopyIntoOwnSubtree | lib/DAV/Server.php:753-755 | A destination below the source path is a Conflict. |
| DavPreconditions.IfConditionsOf | lib/DAV/Server.php:1553-1601 | The only error is Forbidden (from `calculateUri`). A non-empty match list gives at least one condition. |
| DavPreconditions.AddClause | lib/DAV/Server.php:1565-1597 | One match either opens a condition or joins the previous one. The result is never empty. |
| DavPreconditions.GetIfConditions | lib/DAV/Server.php:1553-1601 | The method computes `IfConditionsSpec`: no (or a falsy) If header gives no conditions. |
| DavPreconditions.BuildConditions | lib/DAV/Server.php:1563-1599 | The foreach over the matches computes `IfConditionsOf` for all of them, stopping at the first Forbidden URI. |
| DavPreconditions.AddClauseTokens | lib/DAV/Server.php:1578-1597 | Each match adds exactly its own clause (negate, token, etag) at the end. |
| DavPreconditions.IfConditionsKeepClauses | lib/DAV/Server.php:1553-1601 | All clauses, read in order across the conditions, are exactly the matches' clauses in order. |
| DavPreconditions.IfConditionsErrorSticks | lib/DAV/Server.php:1566-1570 | Once a URI is Forbidden, the whole header is Forbidden. |
| DavPreconditions.FirstClauseWithoutUri | lib/DAV/Server.php:1578-1579 | A first clause without a URI is a condition on the request path. |
| DavPreconditions.ClauseWithoutUriJoinsPrevious | lib/DAV/Server.php:1570-1575 | A later clause without a URI is appended to the previous condition's tokens. |
| DavPreconditions.ClauseOutcome | lib/DAV/Server.php:1447-1465 | Evaluating a clause can only fail with NotFound (the ETag lookup). |
| DavPreconditions.ConditionsFrom | lib/DAV/Server.php:1439-1477 | The If header either passes, or fails with PreconditionFailed("If") or NotFound. |
| DavPreconditions.ConditionHoldsIff | lib/DAV/Server.php:1443-1470 | A condition holds iff some clause yields true after only false clauses, so it is an OR over its clauses. |
| DavPreconditions.ConditionsHoldIff | lib/DAV/Server.php:1439-1477 | The If header passes iff every condition holds, so it is an AND over the conditions. |
| DavPreconditions.EmptyClause | lib/DAV/Server.php:1447-1465 | A clause with neither token nor etag yields true, XOR negate. |
| DavPreconditions.UnvalidatedToken | lib/DAV/Server.php:1447-1465 | A token that the lock plugins did not validate makes the clause false, XOR negate. |
| DavPreconditions.AnyIfMatch | lib/DAV/Server.php:1293-1311 | True iff some comma-separated, space-trimmed item equals the ETag, directly or after replacing `\"` with `"`. |
| DavPreconditions.AnyIfNoneMatch | lib/DAV/Server.php:1339-1349 | True iff some comma-separated, space-trimmed item equals the ETag. |
| DavPreconditions.Preconditions | lib/DAV/Server.php:1270-1481 | The outcome is proceed, 304 or one of the listed exceptions: PreconditionFailed for If-Match, If-None-Match, If-Unmodified-Since or If; NotFound; or Forbidden. |
| DavPreconditions.CheckPreconditions | lib/DAV/Server.php:1270-1481 | The method computes `Preconditions`. |
| DavPreconditions.EvaluateIfConditions | lib/DAV/Server.php:1439-1477 | The nested loops compute `ConditionsFrom`. |
| DavPreconditions.IfMatchOnMissing | lib/DAV/Server.php:1283-1287 | If-Match on a missing resource is PreconditionFailed. |
| DavPreconditions.IfMatchStar | lib/DAV/Server.php:1290 | `If-Match: *` on an existing resource passes. |
| DavPreconditions.IfNoneMatchHit | lib/DAV/Server.php:1353-1361 | A matching If-None-Match gives 304 for method exactly "GET", and PreconditionFailed for any other method. |
| DavPreconditions.IfNoneMatchOnMissing | lib/DAV/Server.php:1325-1333 | If-None-Match on a missing resource never fails. |
| DavPreconditions.IfModifiedSinceIgnored | lib/DAV/Server.php:1366 | With If-None-Match present, If-Modified-Since has no effect on the outcome. |
| DavPreconditions.NotModifiedSince | lib/DAV/Server.php:1376-1387 | lastModified <= If-Modified-Since gives 304. |
| DavPreconditions.ModifiedSinceUnmodified | lib/DAV/Server.php:1399-1409 | lastModified > If-Unmodified-Since gives PreconditionFailed. |
| DavPreconditions.DateChecksSkipped | lib/DAV/Server.php:1392-1412 | An unparseable date, or no timestamp, skips the If-Unmodified-Since check. |
| DavPreconditions.NoConditions | lib/DAV/Server.php:1270-1481 | Without any conditional header the request proceeds. |
| DavTree.Children | lib/DAV/Server.php:862 | A node that is not a collection has no children, and children are smaller than their parent. |
| DavTree.ResourceTypeForNode | lib/DAV/Server.php:1609-1617 | A type is listed iff the node implements an interface the mapping gives it. |
| DavTree.DefaultResourceType | lib/DAV/Server.php:1609-1617 | With the default mapping, a collection is `{DAV:}collection` and anything else has no type. |
| DavTree.Href | lib/DAV/Server.php:938-941 | The href gets a trailing "/" iff the types include `{DAV:}collection` or `{DAV:}principal`. |
| DavTree.HrefSlashIffCollection | lib/DAV/Server.php:938-941 | With the default mapping, the href ends in "/" iff the node is a collection. |
| DavTree.AllowedMethods | lib/DAV/Server.php:477-505 | The ten base methods come first, then MKCOL for an unmapped path, then the plugins' methods. |
| DavTree.AllowedMethodsKeepDuplicates | lib/DAV/Server.php:501 | The `array_unique` result is discarded, so a plugin method that repeats a base method is listed twice. |
| DavTree.ClampDepth | lib/DAV/Server.php:898 | Without infinity, every depth other than 0 (including -1) becomes 1. With infinity, the depth is kept. |
| DavTree.PropfindDepthDefaults | lib/DAV/CorePlugin.php:321-323 | A missing Depth header means 1. "infinity" means 1 unless infinity is enabled. |
| DavTree.SubPath | lib/DAV/Server.php:866 | A child's path is the parent's path, "/", then the child's name; at the root it is the name. This is the corrected behaviour; see Findings. |
| DavTree.SubPathOfZeroAsWritten | lib/DAV/Server.php:866 | As written, the children of the collection at path "0" lose their parent prefix. |
| DavTree.ChildPropFind | lib/DAV/Server.php:864-867 | The per-child request is a fresh clone with the child's depth and path, the parent's properties and request type, and the parent's result state. |
| DavTree.AddPathNodesRecursively | lib/DAV/Server.php:854-879 | Appends exactly `Descendants`: each child at depth-1 (infinity stays infinity), recursing only into collections while the depth allows it. The child path at the root is corrected; see Findings. |
| DavTree.DepthZeroOnlyTarget | lib/DAV/Server.php:917-924 | Depth 0 visits only the target. |
| DavTree.DepthOneDirectChildren | lib/DAV/Server.php:917-924 | Depth 1 visits the target, then each direct child at depth 0, in order. |
| DavTree.InfinityWholeSubtree | lib/DAV/Server.php:854-879 | At infinite depth every visit is at infinite depth, and the visited nodes are exactly the nodes below the target (`Below`), each once, in pre-order. |
| DavTree.FiniteDepthsDecrease | lib/DAV/Server.php:870-874 | At a finite depth d, every visit below the target has a depth between 0 and d-1. |
| DavCoreProps.HandleAll | lib/DAV/CorePlugin.php:781-826 | A run of handlers keeps the result well formed and the 404-count invariant. |
| DavCoreProps.CorePropFind | lib/DAV/CorePlugin.php:781-826 | The new PropFind state is the core handlers applied in source order. Quota information is fetched at most once, and exactly when the node has a quota and a quota property is still wanted. |
| DavCoreProps.HandleLive | lib/DAV/CorePlugin.php:783-788 | Handles getlastmodified. |
| DavCoreProps.HandleFile | lib/DAV/CorePlugin.php:790-794 | Handles the three file properties for IFile nodes. |
| DavCoreProps.HandleQuota | lib/DAV/CorePlugin.php:796-808 | Handles both quota properties, with at most one `getQuotaInfo` call shared through the cache. |
| DavCoreProps.HandleTail | lib/DAV/CorePlugin.php:810-824 | Handles supported-report-set, resourcetype and supported-method-set. |
| DavCoreProps.FirstOfferWins | lib/DAV/PropFind.php:97-106 | In a run of handlers, the first to offer a value for a 404 name sets it, with status 200, and no later handler changes it. |
| DavCoreProps.HandleAllKeepsClaimed | lib/DAV/PropFind.php:97 | A name that is no longer 404 is untouched by any run of handlers. |
| DavCoreProps.CoreLeavesOtherNames | lib/DAV/CorePlugin.php:781-826 | The core handlers touch no property outside their own names. |
| DavCoreProps.LastModifiedNeedsTimestamp | lib/DAV/CorePlugin.php:783-788 | getlastmodified stays untouched when the node reports no timestamp. |
| DavCoreProps.FilePropertiesOnlyForFiles | lib/DAV/CorePlugin.php:790-794 | getcontentlength, getetag and getcontenttype are untouched for a node that is not an IFile. |
| DavCoreProps.QuotaFromOneAnswer | lib/DAV/CorePlugin.php:796-808 | When both quota properties are wanted, they get entries [0] and [1] of the node's quota information, both with status 200. |
| DavCoreProps.SetAllOk | lib/DAV/CorePlugin.php:844-846 | Setting the node's properties keeps the 404-count invariant. |
| DavCoreProps.PropFindNode | lib/DAV/CorePlugin.php:838-850 | The new PropFind state is `NodeFilled`: an IProperties node with 404 names gets each returned property set with 200. |
| DavCoreProps.SetEach | lib/DAV/CorePlugin.php:844-846 | The loop sets each returned property with status 200. |
| DavCoreProps.SetAllOkClaims | lib/DAV/CorePlugin.php:844-846 | Every requested name that the node returns ends with status 200. |
| DavCoreProps.StoredFillOnlyNotFound | lib/DAV/CorePlugin.php:838-850 | When the node answers only for the names it was asked, names not at 404 are untouched. |
| DavCoreProps.BuiltInsWin | lib/DAV/CorePlugin.php:46-49 | A property set by a built-in handler keeps its value and status 200 after the node-stored fill, which runs later at priority 120. |
| DavCoreProps.ByNode | lib/DAV/Server.php:1007-1011 | Emitting propFind then propFindNode keeps the 404-count invariant. |
| DavCoreProps.GetPropertiesForPath | lib/DAV/Server.php:895-949 | The method computes `PropertiesForPath`: one response per visit of the walk, in walk order. The child path at the root is corrected; see Findings. |
| DavCoreProps.Requests | lib/DAV/Server.php:912-924 | The request list is the target's visit, then its subtree when the depth is positive or infinite (`VisitsFor`). |
| DavCoreProps.NewTarget | lib/DAV/Server.php:902-903 | The target's PropFind is fresh, with the target's path, depth and request type, and every requested name at 404. |
| DavCoreProps.RespondAll | lib/DAV/Server.php:926-946 | The loop over the visits produces their responses, in order. Each request works on a clone of the target's PropFind taken before any handler ran. |
| DavCoreProps.DepthZeroOneResponse | lib/DAV/Server.php:895-949 | Depth 0 gives exactly one response, and it is the target's. |
| DavCoreProps.ResponsesFollowVisits | lib/DAV/Server.php:917-946 | The i-th response is the response for the i-th visit. |
| DavCoreProps.DepthOneResponses | lib/DAV/Server.php:917-946 | Depth 1 gives the target, then one response per direct child, whose path is the child's sub-path. |
| DavCoreProps.ResponseBuckets | lib/DAV/Server.php:926-943 | A response's buckets place every requested name under its final status. |
| DavHttp.ChildPairs | lib/DAV/Server.php:1686-1704 | `set` children give (name, value) pairs, `remove` children give (name, null), and other children give nothing. |
| DavHttp.ParsePropPatchRequest | lib/DAV/Server.php:1677-1708 | The loops build the ordered array of all set/remove pairs in document order, assigned one by one. |
| DavHttp.PatchLastWins | lib/DAV/Server.php:1677-1708 | A property's final value is the one its last mention gave. |
| DavHttp.RemoveLastGivesNull | lib/DAV/Server.php:1696-1700 | A property last mentioned in a remove maps to null. |
| DavHttp.ComputedPropertiesProtected | lib/DAV/Server.php:109-132 | Every property the core handlers compute is in the protected list. |
| DavHttp.PropPatch.constructor | lib/DAV/CorePlugin.php:735-749 | A PropPatch holds its mutations and no result codes yet. |
| DavHttp.PropPatch.SetResultCode | lib/DAV/CorePlugin.php:746 | Gives each listed name the code, and leaves the mutations unchanged. |
| DavHttp.ProtectedMutations | lib/DAV/CorePlugin.php:737-745 | Lists exactly the protected names that are being mutated. |
| DavHttp.ProtectedPropertyCheck | lib/DAV/CorePlugin.php:735-749 | Gives exactly the mutated protected names status 403, and nothing else. |
| DavHttp.GroupPairs | lib/DAV/CorePlugin.php:403-409 | The grouping by result code is a well-formed ordered array. |
| DavHttp.GroupsNonEmpty | lib/DAV/CorePlugin.php:403-409 | Every listed code has at least one name. |
| DavHttp.GroupsPartition | lib/DAV/CorePlugin.php:403-409 | A name is listed under code c iff its result code is c. |
| DavHttp.GroupCodes | lib/DAV/CorePlugin.php:403-409 | The loop computes `GroupPairs`. |
| DavHttp.HttpPropPatch | lib/DAV/CorePlugin.php:376-410 | 204 iff return-minimal is preferred and every result code is at most 299. Otherwise 207, with the names grouped by code. |
| DavHttp.PutStatus | lib/DAV/CorePlugin.php:519-534 | A PUT that was not vetoed has a status. |
| DavHttp.HttpPut | lib/DAV/CorePlugin.php:433-542 | A Content-Range header gives NotImplemented. An update needs an existing file. An ETag is sent only when it is the node's own and truthy. |
| DavHttp.PutOnNonFileConflicts | lib/DAV/CorePlugin.php:508-513 | PUT on an existing non-file is a Conflict. |
| DavHttp.PutStatusFollowsExistence | lib/DAV/CorePlugin.php:519-534 | Updating an existing file answers 204 and creating a new one answers 201. No ETag is sent once a listener modified the body. |
| DavHttp.MergeSetProperties | lib/DAV/CorePlugin.php:577-583 | The loop merges the `set` blocks of the MKCOL body, later ones winning. |
| DavHttp.MergedLastWins | lib/DAV/CorePlugin.php:577-583 | Each property takes the value of its last set. |
| DavHttp.MkcolTargetOf | lib/DAV/CorePlugin.php:559-595 | An empty body means [{DAV:}collection]. A body whose Content-Type is not XML, or whose root is not mkcol, is UnsupportedMediaType. A missing resourcetype is BadRequest. |
| DavHttp.HttpMkcol | lib/DAV/CorePlugin.php:554-616 | Errors in the request body come before any tree operation. A multistatus reply comes after the new collection was deleted. The rollback condition is corrected; see Findings. |
| DavHttp.MkcolWithoutBody | lib/DAV/CorePlugin.php:554-616 | MKCOL without a body under a plain collection creates the directory and answers 201. |
| DavHttp.VetoedMkcolAnswersCreated | lib/DAV/Server.php:1154 | A beforeBind veto returns silently, so MKCOL still answers 201 with nothing created. |
| DavHttp.CollectionChecks | lib/DAV/Server.php:1119-1151 | The checks pass exactly when {DAV:}collection is in the resource type, the parent is an existing collection and the child does not exist. Otherwise the error is InvalidResourceType, then Conflict (no parent, or a parent that is not a collection), then MethodNotAllowed (the child exists), in that order. |
| DavHttp.CreateCollection | lib/DAV/Server.php:1114-1219 | The corrected createCollection: a failed check is passed on as the check's error with no tree change (so without {DAV:}collection it is InvalidResourceType), and it rolls back only when some property update failed. |
| DavHttp.CreateCollectionKeepsSuccess | lib/DAV/Server.php:1176-1186 | When every property update succeeds, the new collection is kept. |
| DavHttp.CreateCollectionAsWritten | lib/DAV/Server.php:1114-1219 | As written, a multistatus reply always comes with the deletion of the new collection. |
| DavHttp.RolledBackOnSuccess | lib/DAV/Server.php:1180 | As written, a collection whose only property update succeeded with 200 is deleted again. |
| DavHttp.HttpMove | lib/DAV/CorePlugin.php:627-655 | MOVE answers 204 over an existing destination and 201 otherwise, unless vetoed. It deletes an existing destination only when unbinding it is allowed. |
| DavHttp.HttpCopy | lib/DAV/CorePlugin.php:667-691 | The same status and deletion rules as MOVE, with a copy. |
| DavHttp.MoveVetoAfterOverwrite | lib/DAV/CorePlugin.php:638-646 | A veto on unbinding the source comes after the destination was already deleted. |
| DavHttp.MoveCopyAgree | lib/DAV/CorePlugin.php:627-691 | When the source may be unbound, MOVE and COPY give the same status and the same number of tree operations. |
| CardDavPdo.Backend.constructor | lib/CardDAV/Backend/PDO.php:50-57 | Starts from empty tables, and the ledger invariant holds. |
| CardDavPdo.Backend.AddChange | lib/CardDAV/Backend/PDO.php:511-525 | Appends (uri, current token, op) for an existing book, then increments that book's token by exactly 1. Nothing else changes, and the ledger invariant is kept. |
| CardDavPdo.LedgerAfterChange | lib/CardDAV/Backend/PDO.php:511-525 | The ledger invariant survives `addChange`: tokens start at 1 and grow, and each book's change rows are in strictly increasing token order below its current token. |
| CardDavPdo.LatestChangeWindow | lib/CardDAV/Backend/PDO.php:511-525 | Right after `addChange`, the window from the old token to the new one holds exactly the new row. |
| CardDavPdo.Backend.CreateAddressBook | lib/CardDAV/Backend/PDO.php:163-192 | Any property other than displayname or addressbook-description is BadRequest, and nothing is written. Otherwise a new book with token 1 is stored under the next id. |
| CardDavPdo.SupportedProperties | lib/CardDAV/Backend/PDO.php:172-185 | Flags an unknown property iff one is present, and otherwise picks the two supported values. |
| CardDavPdo.LedgerAfterCreate | lib/CardDAV/Backend/PDO.php:187-190 | A new book with token 1 under a fresh id keeps the ledger invariant. |
| CardDavPdo.Backend.UpdateAddressBook | lib/CardDAV/Backend/PDO.php:116-151 | Sets the mutated columns, then logs op 2 with URI "" through `addChange`. |
| CardDavPdo.ColumnUpdates | lib/CardDAV/Backend/PDO.php:118-129 | Picks the displayname and description mutations. |
| CardDavPdo.Backend.DeleteAddressBook | lib/CardDAV/Backend/PDO.php:200-211 | Removes the book and its cards, and the change rows whose own row id equals the book id. |
| CardDavPdo.ChangesWithoutRow | lib/CardDAV/Backend/PDO.php:208 | Keeps exactly the change rows whose row id differs from the given id. |
| CardDavPdo.LedgerAfterDelete | lib/CardDAV/Backend/PDO.php:200-211 | Deleting a book keeps the ledger invariant. |
| CardDavPdo.Backend.CreateCard | lib/CardDAV/Backend/PDO.php:319-329 | Inserts the card, logs op 1 for its URI, and returns the data hash in double quotes. |
| CardDavPdo.Backend.UpdateCard | lib/CardDAV/Backend/PDO.php:356-365 | Rewrites the matching cards, logs op 2, and returns the data hash in double quotes. |
| CardDavPdo.CardsUpdated | lib/CardDAV/Backend/PDO.php:358-359 | Only the matching rows get the new data and timestamp. Every other row, and every row's identity, is unchanged. |
| CardDavPdo.Backend.DeleteCard | lib/CardDAV/Backend/PDO.php:374-383 | Deletes the matching cards, logs op 3, and returns true iff exactly one row was removed. |
| CardDavPdo.CardsWithout | lib/CardDAV/Backend/PDO.php:376-377 | Removes exactly the matching rows. The number removed is the number that matched. |
| CardDavPdo.Quoted | lib/CardDAV/Backend/PDO.php:327 | The hash wrapped in literal double quotes. |
| CardDavPdo.Backend.GetCards | lib/CardDAV/Backend/PDO.php:232-240 | Exactly the book's cards. |
| CardDavPdo.FirstCard | lib/CardDAV/Backend/PDO.php:254-263 | A matching card, or false exactly when none matches. |
| CardDavPdo.MultipleCards | lib/CardDAV/Backend/PDO.php:277-281 | One `getCard` answer per requested URI, in order. The SQL below the `return` is never reached. |
| CardDavPdo.Backend.GetAddressBooksForUser | lib/CardDAV/Backend/PDO.php:65-90 | Exactly the principal's books. |
| CardDavPdo.Window | lib/CardDAV/Backend/PDO.php:459 | The rows read are exactly the book's changes with since <= token < current. |
| CardDavPdo.WindowInTokenOrder | lib/CardDAV/Backend/PDO.php:459 | Under the ledger invariant, the window comes in strictly increasing token order. |
| CardDavPdo.Limited | lib/CardDAV/Backend/PDO.php:460 | A positive limit keeps the first `limit` rows. Any other limit keeps them all. |
| CardDavPdo.WindowShape | lib/CardDAV/Backend/PDO.php:459-464 | The rows read belong to the book, lie in [since, current) and are in increasing token order. There are at most `limit` of them, and without a limit all such rows are read. |
| CardDavPdo.CollapseRows | lib/CardDAV/Backend/PDO.php:470-474 | The while loop computes `Collapse`: one entry per URI. |
| CardDavPdo.Bucket | lib/CardDAV/Backend/PDO.php:476-490 | A URI is in the bucket for op iff its collapsed operation is op. The bucket has no duplicates. |
| CardDavPdo.SplitByOperation | lib/CardDAV/Backend/PDO.php:476-490 | The foreach computes the three buckets; other operation codes are skipped. |
| CardDavPdo.LastOperationWins | lib/CardDAV/Backend/PDO.php:466-490 | With a token, a URI is reported as added, modified or deleted iff the last row read for it carries that operation. |
| CardDavPdo.BucketsDistinct | lib/CardDAV/Backend/PDO.php:476-490 | Each bucket lists a URI at most once. |
| CardDavPdo.InitialSyncListsAllCards | lib/CardDAV/Backend/PDO.php:491-498 | Without a token, added is every card URI of the book, modified and deleted are empty, and the token is the current one. |
| CardDavPdo.ChangesCarryCurrentToken | lib/CardDAV/Backend/PDO.php:444-455 | The corrected method answers null exactly for a missing book. Otherwise the change set carries the book's current token. |
| CardDavPdo.SinceOf | lib/CardDAV/Backend/PDO.php:464 | A digit token is compared as its value, and anything else as 0. |
| CardDavPdo.Backend.GetChangesForAddressBook | lib/CardDAV/Backend/PDO.php:441-501 | The method computes `ChangesSince`. The missing-book case is corrected; see Findings. |
| CardDavPdo.FetchToken | lib/CardDAV/Backend/PDO.php:446 | `fetchColumn` gives false exactly when the book does not exist. |
| CardDavPdo.AsWrittenAgreesOnExistingBooks | lib/CardDAV/Backend/PDO.php:441-501 | For an existing book, the as-written and the corrected method give the same token and the same three lists. |
| CardDavPdo.MissingBookReported | lib/CardDAV/Backend/PDO.php:446-448 | For a missing book the as-written method answers a change set with token `false` rather than null, where the corrected one answers null. |
| CardDavPdo.MissingBookNotDetected | lib/CardDAV/Backend/PDO.php:446-448 | As written, `is_null` does not catch the false that a missing book yields: book 7 of an empty database gives token `false` and empty lists, not null. |
| XmlResponse.SerializeXml | lib/Sabre/DAV/XML/Element/Response.php:122-141 | Writes the status (only when set), then the href (base URI followed by href), then one propstat per non-empty bucket. |
| XmlResponse.WritePropstats | lib/Sabre/DAV/XML/Element/Response.php:128-139 | Each non-empty bucket gives one propstat with prop and status. Empty buckets give nothing. |
| XmlResponse.WriteHead | lib/Sabre/DAV/XML/Element/Response.php:124-127 | Writes the status only when it is truthy, then the href. |
| XmlResponse.DeserializeXml | lib/Sabre/DAV/XML/Element/Response.php:164-195 | Computes `ReadResponse`: the last href, the last status code, and per propstat its prop under its code. |
| XmlResponse.StatusCodeOfLine | lib/Sabre/DAV/XML/Element/Response.php:181-186 | The code read from a status line is the second space-separated word, which is the code it was built from. |
| XmlResponse.NotFoundLine | lib/Sabre/DAV/XML/Element/Response.php:181 | "HTTP/1.1 404 Not Found" gives "404". |
| XmlResponse.LaterPropstatReplaces | lib/Sabre/DAV/XML/Element/Response.php:183 | Of two propstats with the same code, the later one replaces the earlier entirely. |
| XmlResponse.RoundTrip | lib/Sabre/DAV/XML/Element/Response.php:122-195 | Reading back a written response gives the href prefixed by the base URI, the status when it was set, and exactly the non-empty buckets. |
| XmlInvite.StatusNamesInverse | lib/Sabre/CalDAV/XML/Property/Invite.php:129-143 | Each known invitation state maps to its element name and back. Any other state has no element. |
| XmlInvite.SerializeXml | lib/Sabre/CalDAV/XML/Property/Invite.php:100-161 | Writes the organizer block only when an organizer is given, then one user element per user, in order. |
| XmlInvite.WriteUser | lib/Sabre/CalDAV/XML/Property/Invite.php:124-157 | A user element holds the href, the common name if truthy, at most one invite-* element, access with `read` or `read-write`, and the summary if truthy. |
| XmlInvite.WriteOrganizer | lib/Sabre/CalDAV/XML/Property/Invite.php:104-118 | The organizer block holds the href, then common-name, first-name and last-name, each only when truthy. |
| XmlInvite.ReadAccess | lib/Sabre/CalDAV/XML/Property/Invite.php:225-229 | Any read child makes the user read-only. Otherwise the user is unchanged. |
| XmlInvite.ReadUserElem | lib/Sabre/CalDAV/XML/Property/Invite.php:195-237 | The loop over a user element computes `ReadUser`. |
| XmlInvite.DeserializeXml | lib/Sabre/CalDAV/XML/Property/Invite.php:184-248 | Computes `ReadInvite`; the organizer is never read back. |
| XmlInvite.ReadUsersMeaning | lib/Sabre/CalDAV/XML/Property/Invite.php:190-244 | The users read are those of the user elements in order, or InvalidArgument when some user has no invite-* child. |
| XmlInvite.OtherChildrenIgnored | lib/Sabre/CalDAV/XML/Property/Invite.php:192-193 | Children that are not cs:user change nothing. |
| XmlInvite.ReadUserStatus | lib/Sabre/CalDAV/XML/Property/Invite.php:205-217 | A user has a state iff it has an invite-* child. |
| XmlInvite.ReadUserReadOnly | lib/Sabre/CalDAV/XML/Property/Invite.php:224-230 | readOnly is true iff some access child holds cs:read, and null (not false) otherwise. |
| XmlInvite.ReadUserWritten | lib/Sabre/CalDAV/XML/Property/Invite.php:122-237 | A written user reads back normalised: falsy strings, unknown states and a false readOnly become null. |
| XmlInvite.RoundTrip | lib/Sabre/CalDAV/XML/Property/Invite.php:100-248 | Reading back a written invite gives the normalised users, or InvalidArgument iff some user has no known state. The organizer is dropped. |
| XmlSystemStatus.TypeNameMeaning | lib/Sabre/CalDAV/XML/Notification/SystemStatus.php:102-113 | 1 is "low", 2 is "medium", and any other value is "high". Each known type survives the attribute. |
| XmlSystemStatus.DefaultIsHigh | lib/Sabre/CalDAV/XML/Notification/SystemStatus.php:75-83 | The default type is TYPE_HIGH (3), with no description and no href. |
| XmlSystemStatus.SerializeXml | lib/Sabre/CalDAV/XML/Notification/SystemStatus.php:100-119 | Writes an empty systemstatus element whose type attribute names the priority. |
| XmlSystemStatus.SerializeFullXml | lib/Sabre/CalDAV/XML/Notification/SystemStatus.php:128-157 | Writes the systemstatus element with the type attribute and the truthy description and href children. |
| XmlSystemStatus.SerializersAgreeOnType | lib/Sabre/CalDAV/XML/Notification/SystemStatus.php:102-113 | Both serializers write the same type attribute. |
| XmlSystemStatus.FullFormDescription | lib/Sabre/CalDAV/XML/Notification/SystemStatus.php:148-150 | The full form holds a description iff it is truthy, and then exactly that description. |
| XmlSystemStatus.FullFormHref | lib/Sabre/CalDAV/XML/Notification/SystemStatus.php:151-153 | The full form holds an href iff it is truthy, and then exactly that href. |
| XmlSystemStatus.DeserializeXml | lib/Sabre/CalDAV/XML/Notification/SystemStatus.php:207-211 | Always fails with CannotDeserialize. |
| XmlCalendarQuery.SerializeXml | lib/Sabre/CalDAV/XML/Request/CalendarQueryReport.php:73-77 | Always fails with CannotSerialize. |
| XmlCalendarQuery.DeserializeXml | lib/Sabre/CalDAV/XML/Request/CalendarQueryReport.php:100-146 | The loops compute `ReadQuery`. |
| XmlCalendarQuery.ReadFilter | lib/Sabre/CalDAV/XML/Request/CalendarQueryReport.php:121-128 | The loop over a filter's children computes the `FilterStep` fold. |
| XmlCalendarQuery.FilterMeaning | lib/Sabre/CalDAV/XML/Request/CalendarQueryReport.php:121-128 | The filter loop gives the last comp-filter, or BadRequest when a comp-filter meets one already set. |
| XmlCalendarQuery.ReadQueryMeaning | lib/Sabre/CalDAV/XML/Request/CalendarQueryReport.php:100-146 | The request reads iff there is a comp-filter and none clashes. The result has the last prop's names (or null), the last comp-filter and the last set expand. Any failure is BadRequest. |
| XmlCalendarQuery.FilterRequired | lib/Sabre/CalDAV/XML/Request/CalendarQueryReport.php:108-137 | No comp-filter, or an inner tree that is not a list of elements, is BadRequest. |
| XmlCalendarQuery.OnlyOneCompFilter | lib/Sabre/CalDAV/XML/Request/CalendarQueryReport.php:123-125 | Two non-null top-level comp-filters are BadRequest, wherever they stand. |
| XmlCalendarQuery.OtherChildrenIgnored | lib/Sabre/CalDAV/XML/Request/CalendarQueryReport.php:112-131 | Children other than prop and filter do not change the outcome. |
| XmlParamFilter.SerializeXml | lib/Sabre/CardDAV/XML/Filter/ParamFilter.php:45-49 | Always fails with CannotSerialize. |
| XmlParamFilter.DeserializeXml | lib/Sabre/CardDAV/XML/Filter/ParamFilter.php:72-116 | The loop computes `ReadParamFilter`. |
| XmlParamFilter.ReadParamFilterMeaning | lib/Sabre/CardDAV/XML/Filter/ParamFilter.php:72-116 | See the notes below this table. |
| XmlParamFilter.MatchOfMeaning | lib/Sabre/CardDAV/XML/Filter/ParamFilter.php:97-107 | negate-condition is true iff the attribute is "yes". collation defaults to "i;unicode-casemap" and match-type to "contains". The value is the element's value. |
| XmlParamFilter.DefaultMatchTypeKnown | lib/Sabre/CardDAV/XML/Filter/ParamFilter.php:97-99 | The default match type is accepted. |
| XmlParamFilter.NoChildrenKeepsDefaults | lib/Sabre/CardDAV/XML/Filter/ParamFilter.php:87-89 | A param-filter without child elements keeps the defaults. |
| XmlExpandProperty.SerializeXml | lib/Sabre/DAVACL/XML/Request/ExpandPropertyReport.php:54-58 | Always fails with CannotSerialize. |
| XmlExpandProperty.TraverseElems | lib/Sabre/DAVACL/XML/Request/ExpandPropertyReport.php:99-126 | The recursive loop computes `Traverse`. |
| XmlExpandProperty.DeserializeXml | lib/Sabre/DAVACL/XML/Request/ExpandPropertyReport.php:81-90 | The properties are the traversal of the inner tree. |
| XmlExpandProperty.TraverseKeys | lib/Sabre/DAVACL/XML/Request/ExpandPropertyReport.php:103-120 | A key is present iff some {DAV:}property element carries it. |
| XmlExpandProperty.TraverseGet | lib/Sabre/DAVACL/XML/Request/ExpandPropertyReport.php:103-120 | A key's value is the one assigned by the last element with that key. |
| XmlExpandProperty.LastElementWins | lib/Sabre/DAVACL/XML/Request/ExpandPropertyReport.php:115-120 | The last element with a key gives the recursive traversal of its children when its value is an array, and null otherwise. |
| XmlExpandProperty.LaterDuplicateWins | lib/Sabre/DAVACL/XML/Request/ExpandPropertyReport.php:120 | Of two elements with the same key, the later wins and the earlier leaves no trace. |
| XmlExpandProperty.OtherElementsSkipped | lib/Sabre/DAVACL/XML/Request/ExpandPropertyReport.php:105-107 | Elements other than {DAV:}property are skipped. |
| XmlExpandProperty.KeyInjective | lib/Sabre/DAVACL/XML/Request/ExpandPropertyReport.php:109-113 | For namespaces without "}", two keys are equal iff their namespaces and names are. |
| XmlExpandProperty.DefaultNamespace | lib/Sabre/DAVACL/XML/Request/ExpandPropertyReport.php:109-111 | Without a namespace attribute, the key is in "DAV:". |
| XmlTree.ReadOfWritten | lib/Sabre/DAV/XML/Element/Response.php:166 | The element tree the reader returns for written events is the reader's view of the tree that was written. |

`XmlParamFilter.ReadParamFilterMeaning` states what a param-filter reads as:

- it reads iff every text-match names a known match type, and any failure is BadRequest;
- the name is the `name` attribute;
- `test` is "allof" exactly when the attribute is exactly "allof", and is absent otherwise;
- is-not-defined is true iff such a child is present;
- text-match is the last text-match child.

## Left out

- Regular expressions: the tokenisation of the If header by `preg_match_all` is not modelled. `getIfConditions` takes the sequence of regex matches as its input. The Range and Prefer patterns are written out by hand.
- Entity-tag comparison in the If header: PHP's loose `==` is modelled only for strict equality and for two all-digit strings compared as numbers. Other numeric-string forms, such as leading "+", exponents and surrounding whitespace, are not modelled.
- Dates: HTTP date parsing and `DateTime` are an oracle (`parseDate`) that returns a timestamp or nothing. The If-Range date detection in `httpGet` is a boolean input.
- Streams: the bodies of GET and PUT (fopen, fseek, stream copies, the first-byte probe) are not modelled. Only the range offsets and status decisions are.
- The XML DOM and the Sabre\XML reader and writer are not modelled. Reader output is the `XmlTree.Elem` tree, and writer output is the event stream of `XmlTree.Writer`. Which elements are read as key/value maps is a parameter. Multistatus generation, `parsePropFindRequest` and the DOM handling of MKCOL and REPORT are not part of this model.
- SQL: PDO execution, `lastInsertId`, `time()` and `md5` are not modelled. The tables are in memory. The timestamp is a parameter, and `md5` is a function the backend is given.
- Sync tokens are converted from the client's string only for all-digit strings; anything else compares as 0. The database's own string-to-integer conversion is not modelled.
- Concurrency: `addChange` is modelled as one sequential step. Atomicity across simultaneous requests is not modelled.
- Events: the EventEmitter, plugin registration and `invokeMethod` are not modelled. Listeners such as `beforeBind`, `beforeUnbind`, `validateTokens` and `propPatch` are oracle predicates or given results.
- The Tree: `Tree::getChildren`, `nodeExists` and the lookup of a path are not part of this model. The tree is an inductive `Node` datatype, and a non-collection has no children.
- `URLUtil::decodePath`, `splitPath` and `parse_url` are uninterpreted functions that are passed in.
- PropFind cloning: `clone $propFind` is `PropFind.Clone`, a copy of every field, followed by `SetDepth` and `SetPath` (`ChildPropFind`). In the model the request loop takes each clone when it reaches the visit, and it takes the target's own request as a clone too. This gives the same state, because the target's PropFind is unchanged until the loop and PHP's shallow copy shares nothing mutable here.
- ChangesSinceAsWritten: the window query binds the fetched `false` as its upper token. The model compares it as 0; how a database compares an integer with the empty string that PDO sends is not modelled.
- Handler callbacks: a callback passed to `PropFind::handle` is modelled as the value it would return, computed only when the name is still wanted. This keeps the lazy quota lookup visible.
- CardDavPdo.Backend.UpdateAddressBook models the callback that `updateAddressBook` registers. Its precondition is that a supported property is among the mutations, which is when `PropPatch::handle` calls it. PropPatch.php is not part of this model.
- Namespace constants: the CalDAV, CardDAV and calendarserver namespace URIs and the sharing status codes (1 to 5) come from plugin classes that are not part of this model. They are written out as constants.
- The calendar-data property's own deserializer is not part of this model. The expand entry is read from whatever key/value map it produced.
- Not modelled: `Server::exec` error rendering, `getHTTPHeaders` and the If-Range header handling, the feature headers of `httpPropfind`, and `guessBaseUri`.
- DavHeaders.GetHTTPDepth: a digit string above PHP_INT_MAX saturates, following `(int)`. This contract states only the bounds for digit strings, and `DepthRoundTrip` states the exact value.

## Findings

| source | as written | input that shows it | evidently intended | confidence | as-written member | corrected member |
|---|---|---|---|---|---|---|
| lib/DAV/CorePlugin.php:161-166 | A suffix range computes start = size - n and end = size - 1, with no check on n. | `Range: bytes=-0` on a 10-byte body gives start 10 and end 9, a 206 with Content-Length 0. | A zero-length suffix is unsatisfiable (section 2.1 of RFC 7233), so the answer is 416. | medium, not executed | DavHeaders.SuffixZeroAsWritten | DavHeaders.RangeUnsatisfiableIff |
| lib/DAV/Server.php:1180 | After creating the directory, `createCollection` rolls back unless `$errorResult` has a key 200. The result maps property names to codes, so no property is named 200. | MKCOL with a displayname whose update succeeds with 200: the new collection is deleted, and a multistatus is returned. | Roll back only when some property update failed (a code above 299). | high, not executed | DavHttp.RolledBackOnSuccess | DavHttp.CreateCollectionKeepsSuccess |
| lib/DAV/Server.php:866 | The child path uses `$path ?` to tell the root from other collections. The path "0" is falsy in PHP. | PROPFIND Depth 1 on the collection "0" with child "a" reports the child's path as "a", not "0/a". | Only the empty root path has no prefix. | high, not executed | DavTree.SubPathOfZeroAsWritten | DavTree.SubPath |
| lib/CardDAV/Backend/PDO.php:446-448 | A missing address book is detected with `is_null` on `fetchColumn(0)`, which returns false when no row matches. | `getChangesForAddressBook` for an id with no row goes on and answers token false with empty lists instead of returning null. | The `is_null` check is evidently there to stop at a book with no row, so return null when the book does not exist. | high, not executed | CardDavPdo.MissingBookNotDetected | CardDavPdo.ChangesCarryCurrentToken |
