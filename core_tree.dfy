/**
 * The node tree as the server sees it, the resource types and allowed methods
 * of a node, and the depth walk of a PROPFIND request
 * (lib/DAV/Server.php: getResourceTypeForNode, getAllowedMethods,
 * addPathNodesRecursively and the depth handling of getPropertiesForPath).
 */
module DavTree {
  import opened Php
  import opened DavPropFind
  import opened DavHeaders

  /** The node interfaces that the modelled code tests with `instanceof`. */
  datatype Interface = ICollection | IExtendedCollection | IFile | IQuota | IProperties | IPrincipal

  /**
   * A node and what its methods return. `getProperties` is the node's own
   * answer to `IProperties::getProperties($names)`: name/value pairs in
   * iteration order.
   */
  datatype Node = Node(
    name: string,
    interfaces: set<Interface>,
    lastModified: Option<int>,
    size: Option<int>,
    etag: Option<string>,
    contentType: Option<string>,
    quotaInfo: (int, int),
    getProperties: seq<string> -> seq<(string, Option<PropValue>)>,
    children: seq<Node>)

  predicate IsCollection(n: Node) {
    ICollection in n.interfaces
  }

  /** `Tree::getChildren`: a node that is not a collection has no children. */
  function Children(n: Node): (cs: seq<Node>)
    ensures !IsCollection(n) ==> cs == []
    ensures forall c :: c in cs ==> c < n
  {
    if IsCollection(n) then n.children else []
  }

  // ------------------------------------------------------------ resource types

  const COLLECTION: string := "{DAV:}collection"
  const PRINCIPAL: string := "{DAV:}principal"

  /** `$resourceTypeMapping` as shipped: collections get `{DAV:}collection`. */
  const DefaultMapping: seq<(Interface, string)> := [(ICollection, COLLECTION)]

  /** `getResourceTypeForNode()`: the mapped type of every interface the node implements, in mapping order. */
  function ResourceTypeForNode(n: Node, mapping: seq<(Interface, string)>): (r: seq<string>)
    ensures |r| <= |mapping|
    ensures forall t :: t in r <==> exists i :: 0 <= i < |mapping| && mapping[i].0 in n.interfaces && mapping[i].1 == t
    decreases |mapping|
  {
    if mapping == [] then []
    else
      var init := ResourceTypeForNode(n, mapping[..|mapping| - 1]);
      var last := mapping[|mapping| - 1];
      assert forall i :: 0 <= i < |mapping| - 1 ==> mapping[..|mapping| - 1][i] == mapping[i];
      if last.0 in n.interfaces then init + [last.1] else init
  }

  /** With the shipped mapping a node's type list is `[{DAV:}collection]` exactly for collections. */
  lemma DefaultResourceType(n: Node)
    ensures ResourceTypeForNode(n, DefaultMapping) == if IsCollection(n) then [COLLECTION] else []
  {
    assert DefaultMapping[..0] == [];
  }

  /** Collections and principals are addressed with a trailing slash. */
  predicate WantsSlash(types: seq<string>) {
    COLLECTION in types || PRINCIPAL in types
  }

  /** The `href` of a response: the path, with "/" appended for collections and principals. */
  function Href(path: string, types: seq<string>): (h: string)
    ensures WantsSlash(types) ==> h == path + "/"
    ensures !WantsSlash(types) ==> h == path
  {
    if WantsSlash(types) then path + "/" else path
  }

  /** With the shipped mapping, an href ends in "/" exactly when the node is a collection. */
  lemma HrefSlashIffCollection(path: string, n: Node)
    requires path == [] || path[|path| - 1] != '/'
    ensures Href(path, ResourceTypeForNode(n, DefaultMapping)) == path + "/" <==> IsCollection(n)
    ensures !IsCollection(n) ==> Href(path, ResourceTypeForNode(n, DefaultMapping)) == path
  {
    DefaultResourceType(n);
    if !IsCollection(n) {
      assert PRINCIPAL != COLLECTION;
      assert |path + "/"| != |path|;
    }
  }

  // ------------------------------------------------------------ allowed methods

  const BaseMethods: seq<string> :=
    ["OPTIONS", "GET", "HEAD", "DELETE", "PROPFIND", "PUT", "PROPPATCH", "COPY", "MOVE", "REPORT"]

  /**
   * `getAllowedMethods($path)`: the ten base methods, MKCOL when nothing is
   * mapped at the path, then every plugin's methods. The result of
   * `array_unique` is discarded, so duplicates stay.
   */
  function AllowedMethods(mapped: bool, pluginMethods: seq<string>): (r: seq<string>)
    ensures |r| == 10 + (if mapped then 0 else 1) + |pluginMethods|
    ensures r[..10] == BaseMethods
    ensures "MKCOL" in r <==> !mapped || "MKCOL" in pluginMethods
    ensures forall m :: m in r <==> m in BaseMethods || (!mapped && m == "MKCOL") || m in pluginMethods
  {
    var r := BaseMethods + (if mapped then [] else ["MKCOL"]) + pluginMethods;
    assert r[..10] == BaseMethods;
    r
  }

  /** A plugin method that is also a base method appears twice. */
  lemma AllowedMethodsKeepDuplicates(mapped: bool, m: string)
    requires m in BaseMethods
    ensures exists i, j ::
      (0 <= i < j < |AllowedMethods(mapped, [m])| &&
       AllowedMethods(mapped, [m])[i] == m && AllowedMethods(mapped, [m])[j] == m)
  {
    var r := AllowedMethods(mapped, [m]);
    var i :| 0 <= i < 10 && BaseMethods[i] == m;
    assert r[i] == m;
    assert r[|r| - 1] == m;
  }

  // ------------------------------------------------------------ depth

  /**
   * The depth PROPFIND works with: unless infinity is enabled, every depth
   * other than 0 (infinity included) becomes 1.
   */
  function ClampDepth(depth: int, enableInfinity: bool): (d: int)
    ensures !enableInfinity ==> (d == 0 || d == 1)
    ensures enableInfinity ==> d == depth
    ensures d == 0 <==> depth == 0
  {
    if !enableInfinity && depth != 0 then 1 else depth
  }

  /** `httpPropfind`: the Depth header with default 1, clamped. */
  function PropfindDepth(header: Option<string>, enableInfinity: bool): int {
    ClampDepth(GetHTTPDepth(header, 1), enableInfinity)
  }

  /** A missing header means depth 1, and `infinity` means 1 unless infinity is enabled. */
  lemma PropfindDepthDefaults(enableInfinity: bool)
    ensures PropfindDepth(None, enableInfinity) == 1
    ensures PropfindDepth(Some("infinity"), enableInfinity) == if enableInfinity then DEPTH_INFINITY else 1
  {
  }

  // ------------------------------------------------------------ child paths

  /**
   * The child path as written: `$path ? $path . '/' . $name : $name`. The
   * path "0" is falsy in PHP, so its children lose their parent.
   */
  function SubPathAsWritten(path: string, name: string): string {
    if Truthy(path) then path + "/" + name else name
  }

  /** A child of the collection at path "0" is given a path outside that collection. */
  lemma SubPathOfZeroAsWritten()
    ensures SubPathAsWritten("0", "a") == "a"
    ensures !StartsWith(SubPathAsWritten("0", "a"), "0/")
  {
  }

  /** The child path, where only the root (the empty path) has no prefix. */
  function SubPath(path: string, name: string): (p: string)
    ensures path == "" ==> p == name
    ensures path != "" ==> StartsWith(p, path + "/") && p[|path| + 1..] == name
  {
    if path != "" then path + "/" + name else name
  }

  // ------------------------------------------------------------ the walk

  /** One entry of `$propFindRequests`: the cloned PropFind's path and depth, and the node. */
  datatype Visit = Visit(path: string, depth: int, node: Node)

  /** The depth given to the children of a node visited at `depth`. */
  function ChildDepth(depth: int): int {
    if depth != DEPTH_INFINITY then depth - 1 else depth
  }

  /** Whether the walk descends into a child reached at `newDepth`. */
  predicate Descends(newDepth: int, child: Node) {
    (newDepth == DEPTH_INFINITY || newDepth >= 1) && IsCollection(child)
  }

  /** What `addPathNodesRecursively` appends for a node visited at `depth`. */
  function Descendants(path: string, depth: int, n: Node): seq<Visit>
    decreases n, 1, 0
  {
    ChildVisits(path, ChildDepth(depth), n, |Children(n)|)
  }

  /** What the first `k` children of `parent` (and their subtrees) contribute. */
  function ChildVisits(path: string, newDepth: int, parent: Node, k: nat): seq<Visit>
    requires k <= |Children(parent)|
    decreases parent, 0, k
  {
    if k == 0 then []
    else
      var c := Children(parent)[k - 1];
      var sub := SubPath(path, c.name);
      ChildVisits(path, newDepth, parent, k - 1) + [Visit(sub, newDepth, c)]
        + (if Descends(newDepth, c) then Descendants(sub, newDepth, c) else [])
  }

  /**
   * The PropFind each child gets: a clone of the parent's, with the child's
   * depth and path. Since the clones are taken before any handler runs, a
   * visit records only that path and depth.
   */
  method ChildPropFind(parent: PropFind, newDepth: int, subPath: string) returns (sub: PropFind)
    ensures fresh(sub)
    ensures sub.path == subPath && sub.depth == newDepth
    ensures sub.properties == parent.properties && sub.requestType == parent.requestType
    ensures sub.Snapshot() == parent.Snapshot()
  {
    sub := new PropFind.Clone(parent);
    sub.SetDepth(newDepth);
    sub.SetPath(subPath);
  }

  /** `addPathNodesRecursively(&$propFindRequests, $propFind)`. */
  method AddPathNodesRecursively(requests: seq<Visit>, path: string, depth: int, n: Node) returns (r: seq<Visit>)
    ensures r == requests + Descendants(path, depth, n)
    decreases n
  {
    var newDepth := depth;
    if newDepth != DEPTH_INFINITY {
      newDepth := newDepth - 1;
    }
    var children := Children(n);
    r := requests;
    var i := 0;
    while i < |children|
      invariant 0 <= i <= |children|
      invariant r == requests + ChildVisits(path, newDepth, n, i)
    {
      ghost var before := r;
      var child := children[i];
      var subPath := SubPath(path, child.name);
      r := r + [Visit(subPath, newDepth, child)];
      if (newDepth == DEPTH_INFINITY || newDepth >= 1) && ICollection in child.interfaces {
        r := AddPathNodesRecursively(r, subPath, newDepth, child);
      }
      ChildVisitsNext(requests, path, newDepth, n, i, before, r);
      i := i + 1;
    }
  }

  /** One more child: its visit, then its subtree when it is descended into. */
  lemma ChildVisitsNext(requests: seq<Visit>, path: string, newDepth: int, parent: Node, k: nat, r: seq<Visit>, r': seq<Visit>)
    requires k < |Children(parent)| && r == requests + ChildVisits(path, newDepth, parent, k)
    requires var c := Children(parent)[k];
             r' == r + [Visit(SubPath(path, c.name), newDepth, c)]
                     + (if Descends(newDepth, c) then Descendants(SubPath(path, c.name), newDepth, c) else [])
    ensures r' == requests + ChildVisits(path, newDepth, parent, k + 1)
  {
  }

  /** The whole request list: the target, then its subtree when the depth is positive or infinite. */
  function VisitsFor(path: string, depth: int, n: Node): seq<Visit> {
    [Visit(path, depth, n)] + (if depth > 0 || depth == DEPTH_INFINITY then Descendants(path, depth, n) else [])
  }

  /** The direct children of a node as visits at depth `d`. */
  function DirectChildren(path: string, d: int, n: Node, k: nat): (vs: seq<Visit>)
    requires k <= |Children(n)|
    ensures |vs| == k
    ensures forall i :: 0 <= i < k ==> vs[i] == Visit(SubPath(path, Children(n)[i].name), d, Children(n)[i])
  {
    if k == 0 then [] else DirectChildren(path, d, n, k - 1) + [Visit(SubPath(path, Children(n)[k - 1].name), d, Children(n)[k - 1])]
  }

  /** Depth 0 yields only the target. */
  lemma DepthZeroOnlyTarget(path: string, n: Node)
    ensures VisitsFor(path, 0, n) == [Visit(path, 0, n)]
    ensures |VisitsFor(path, 0, n)| == 1
  {
  }

  /** Depth 1 yields the target and then each direct child at depth 0, and nothing below them. */
  lemma DepthOneDirectChildren(path: string, n: Node)
    ensures VisitsFor(path, 1, n) == [Visit(path, 1, n)] + DirectChildren(path, 0, n, |Children(n)|)
  {
    DepthOneChildren(path, n, |Children(n)|);
  }

  lemma {:induction false} DepthOneChildren(path: string, n: Node, k: nat)
    requires k <= |Children(n)|
    ensures ChildVisits(path, 0, n, k) == DirectChildren(path, 0, n, k)
  {
    if k > 0 {
      DepthOneChildren(path, n, k - 1);
    }
  }

  /** The number of nodes in a subtree, counting only through collections. */
  function SubtreeSize(n: Node): (s: nat)
    ensures s >= 1
    decreases n, 1, 0
  {
    1 + ForestSize(n, |Children(n)|)
  }

  function ForestSize(parent: Node, k: nat): nat
    requires k <= |Children(parent)|
    decreases parent, 0, k
  {
    if k == 0 then 0 else ForestSize(parent, k - 1) + SubtreeSize(Children(parent)[k - 1])
  }

  /** The nodes strictly below `n`, in pre-order: each child, then the nodes below it. */
  function Below(n: Node): seq<Node>
    decreases n, 1, 0
  {
    BelowForest(n, |Children(n)|)
  }

  /** The first `k` children of `parent`, each followed by the nodes below it. */
  function BelowForest(parent: Node, k: nat): seq<Node>
    requires k <= |Children(parent)|
    decreases parent, 0, k
  {
    if k == 0 then []
    else
      var c := Children(parent)[k - 1];
      BelowForest(parent, k - 1) + [c] + Below(c)
  }

  /** The nodes of a list of visits, in order. */
  function NodesOf(vs: seq<Visit>): (ns: seq<Node>)
    ensures |ns| == |vs|
    ensures forall i :: 0 <= i < |vs| ==> ns[i] == vs[i].node
  {
    seq(|vs|, i requires 0 <= i < |vs| => vs[i].node)
  }

  lemma NodesOfAppend(a: seq<Visit>, b: seq<Visit>)
    ensures NodesOf(a + b) == NodesOf(a) + NodesOf(b)
  {
    assert NodesOf(a + b) == NodesOf(a) + NodesOf(b);
  }

  /**
   * With infinite depth the walk visits every node of the subtree once, in
   * pre-order, all at depth infinity.
   */
  lemma {:induction false} InfinityWholeSubtree(path: string, n: Node)
    ensures NodesOf(Descendants(path, DEPTH_INFINITY, n)) == Below(n)
    ensures |Descendants(path, DEPTH_INFINITY, n)| == SubtreeSize(n) - 1
    ensures forall v :: v in Descendants(path, DEPTH_INFINITY, n) ==> v.depth == DEPTH_INFINITY
    decreases n, 1, 0
  {
    InfinityForest(path, n, |Children(n)|);
  }

  lemma {:induction false} InfinityForest(path: string, parent: Node, k: nat)
    requires k <= |Children(parent)|
    ensures NodesOf(ChildVisits(path, DEPTH_INFINITY, parent, k)) == BelowForest(parent, k)
    ensures |ChildVisits(path, DEPTH_INFINITY, parent, k)| == ForestSize(parent, k)
    ensures forall v :: v in ChildVisits(path, DEPTH_INFINITY, parent, k) ==> v.depth == DEPTH_INFINITY
    decreases parent, 0, k
  {
    if k > 0 {
      InfinityForest(path, parent, k - 1);
      var c := Children(parent)[k - 1];
      var sub := SubPath(path, c.name);
      var prev := ChildVisits(path, DEPTH_INFINITY, parent, k - 1);
      var below := if Descends(DEPTH_INFINITY, c) then Descendants(sub, DEPTH_INFINITY, c) else [];
      if IsCollection(c) {
        InfinityWholeSubtree(sub, c);
      } else {
        assert Children(c) == [];
        assert ForestSize(c, 0) == 0;
        assert Below(c) == [];
      }
      assert NodesOf(below) == Below(c);
      NodesOfAppend(prev, [Visit(sub, DEPTH_INFINITY, c)]);
      NodesOfAppend(prev + [Visit(sub, DEPTH_INFINITY, c)], below);
    }
  }

  /** Below a finite depth d >= 1, every visited node is reached at a depth between 0 and d - 1. */
  lemma {:induction false} FiniteDepthsDecrease(path: string, d: int, n: Node)
    requires d >= 1
    ensures forall v :: v in Descendants(path, d, n) ==> 0 <= v.depth < d
    decreases n, 1, 0
  {
    FiniteDepthsForest(path, d - 1, n, |Children(n)|);
  }

  lemma {:induction false} FiniteDepthsForest(path: string, nd: int, parent: Node, k: nat)
    requires nd >= 0 && k <= |Children(parent)|
    ensures forall v :: v in ChildVisits(path, nd, parent, k) ==> 0 <= v.depth <= nd
    decreases parent, 0, k
  {
    if k > 0 {
      FiniteDepthsForest(path, nd, parent, k - 1);
      var c := Children(parent)[k - 1];
      if Descends(nd, c) {
        FiniteDepthsDecrease(SubPath(path, c.name), nd, c);
      }
    }
  }
}
