/** The picture of a policy, derived from its draft, and the panel each node of the picture opens. */
module Canvas {
  import opened PolicyTypes
  import opened Text

  /** An action as the builder holds it; only a split transfer keeps values private. */
  datatype Action = SplitTransfer(recipients: nat) | OtherAction(kind: string)

  datatype Draft<T, C> = Draft(asset: string, trigger: T, conditions: seq<C>, actions: seq<Action>)

  /** The part of the draft a node shows, or a panel describes. */
  datatype Slice<T, C> =
    | AssetSlice(symbol: string)
    | TriggerSlice(trigger: T)
    | ConditionSlice(condition: C)
    | ConfidentialSlice(count: nat)
    | ActionSlice(action: Action)
    | WholePolicy

  datatype Node<T, C> = Node(id: string, data: Slice<T, C>)
  datatype Edge = Edge(id: string, source: string, target: string)
  datatype Graph<T, C> = Graph(nodes: seq<Node<T, C>>, edges: seq<Edge>)

  // --- ids ----------------------------------------------------------------------------------------

  /** Which node of the picture. */
  datatype Name = AssetNode | TriggerNode | ConditionNode(i: nat) | PrivateNode | ActionNode(i: nat)

  function ConditionId(i: nat): string {
    "condition-" + Decimal(i)
  }

  function ActionId(i: nat): string {
    "action-" + Decimal(i)
  }

  function IdOf(x: Name): string {
    match x
    case AssetNode => "asset"
    case TriggerNode => "trigger"
    case ConditionNode(i) => ConditionId(i)
    case PrivateNode => "confidential"
    case ActionNode(i) => ActionId(i)
  }

  /** How nodes and links are given their ids. What follows from the shape alone is proved for any such scheme. */
  datatype Scheme = Scheme(id: Name -> string, link: (Name, Name) -> string)

  /** The ids of the canvas: a link joins those of its ends by a dash. */
  function CanvasIds(): Scheme {
    Scheme((x: Name) => IdOf(x), (a: Name, b: Name) => IdOf(a) + "-" + IdOf(b))
  }

  function Link(ids: Scheme, a: Name, b: Name): Edge {
    Edge(ids.link(a, b), ids.id(a), ids.id(b))
  }

  // --- the picture --------------------------------------------------------------------------------

  function ConfidentialInputCount(a: Action): nat {
    if a.SplitTransfer? then a.recipients else 0
  }

  function ConfidentialCount(actions: seq<Action>): nat {
    if actions == [] then 0
    else ConfidentialCount(actions[..|actions| - 1]) + ConfidentialInputCount(actions[|actions| - 1])
  }

  /** The count is that of the recipients of all the transfers: part by part, and one for each recipient of a transfer. */
  lemma {:induction false} CountsRecipients(a: seq<Action>, b: seq<Action>, n: nat, kind: string)
    ensures ConfidentialCount(a + b) == ConfidentialCount(a) + ConfidentialCount(b)
    ensures ConfidentialCount([SplitTransfer(n)]) == n
    ensures ConfidentialCount([OtherAction(kind)]) == 0
    decreases |b|
  {
    assert [SplitTransfer(n)][..0] == [] && [OtherAction(kind)][..0] == [];
    if b == [] {
      assert a + b == a;
    } else {
      var m := |b| - 1;
      CountsRecipients(a, b[..m], n, kind);
      assert (a + b)[..|a + b| - 1] == a + b[..m];
    }
  }

  /** So there is a private node exactly when some transfer has a recipient. */
  lemma {:induction false} CountIsPositive(actions: seq<Action>)
    ensures ConfidentialCount(actions) > 0 <==>
              exists i | 0 <= i < |actions| :: actions[i].SplitTransfer? && actions[i].recipients > 0
  {
    if actions != [] {
      var n := |actions| - 1;
      CountIsPositive(actions[..n]);
      assert forall i | 0 <= i < n :: actions[..n][i] == actions[i];
    }
  }

  /** The head of the chain after i conditions. */
  function Upstream(i: nat): Name {
    if i == 0 then TriggerNode else ConditionNode(i - 1)
  }

  function ConditionNodes<T, C>(ids: Scheme, conditions: seq<C>): seq<Node<T, C>> {
    if conditions == [] then []
    else
      var i := |conditions| - 1;
      ConditionNodes(ids, conditions[..i]) + [Node(ids.id(ConditionNode(i)), ConditionSlice(conditions[i]))]
  }

  function ConditionEdges(ids: Scheme, n: nat): seq<Edge> {
    if n == 0 then [] else ConditionEdges(ids, n - 1) + [Link(ids, Upstream(n - 1), ConditionNode(n - 1))]
  }

  function ActionNodes<T, C>(ids: Scheme, actions: seq<Action>): seq<Node<T, C>> {
    if actions == [] then []
    else
      var i := |actions| - 1;
      ActionNodes(ids, actions[..i]) + [Node(ids.id(ActionNode(i)), ActionSlice(actions[i]))]
  }

  function ActionEdges(ids: Scheme, upstream: Name, n: nat): seq<Edge> {
    if n == 0 then [] else ActionEdges(ids, upstream, n - 1) + [Link(ids, upstream, ActionNode(n - 1))]
  }

  function Private<X>(actions: seq<Action>, x: X): seq<X> {
    if ConfidentialCount(actions) > 0 then [x] else []
  }

  function FirstNodes<T, C>(ids: Scheme, ir: Draft<T, C>): seq<Node<T, C>> {
    [Node(ids.id(AssetNode), AssetSlice(ir.asset)), Node(ids.id(TriggerNode), TriggerSlice(ir.trigger))]
  }

  function PrivateNodes<T, C>(ids: Scheme, ir: Draft<T, C>): seq<Node<T, C>> {
    Private(ir.actions, Node(ids.id(PrivateNode), ConfidentialSlice(ConfidentialCount(ir.actions))))
  }

  function NodesOf<T, C>(ids: Scheme, ir: Draft<T, C>): seq<Node<T, C>> {
    FirstNodes(ids, ir) + ConditionNodes(ids, ir.conditions) + PrivateNodes(ids, ir) + ActionNodes(ids, ir.actions)
  }

  function PrivateEdges<T, C>(ids: Scheme, ir: Draft<T, C>): seq<Edge> {
    Private(ir.actions, Link(ids, Upstream(|ir.conditions|), PrivateNode))
  }

  function EdgesOf<T, C>(ids: Scheme, ir: Draft<T, C>): seq<Edge> {
    [Link(ids, AssetNode, TriggerNode)]
    + ConditionEdges(ids, |ir.conditions|)
    + PrivateEdges(ids, ir)
    + ActionEdges(ids, Upstream(|ir.conditions|), |ir.actions|)
  }

  function PictureBy<T, C>(ids: Scheme, ir: Draft<T, C>): Graph<T, C> {
    Graph(NodesOf(ids, ir), EdgesOf(ids, ir))
  }

  function Picture<T, C>(ir: Draft<T, C>): Graph<T, C> {
    PictureBy(CanvasIds(), ir)
  }

  method AddConditions<T, C>(ids: Scheme, conditions: seq<C>)
    returns (nodes: seq<Node<T, C>>, edges: seq<Edge>, upstream: Name)
    ensures nodes == ConditionNodes(ids, conditions)
    ensures edges == ConditionEdges(ids, |conditions|)
    ensures upstream == Upstream(|conditions|)
  {
    nodes, edges, upstream := [], [], TriggerNode;
    for i := 0 to |conditions|
      invariant upstream == Upstream(i)
      invariant nodes == ConditionNodes(ids, conditions[..i])
      invariant edges == ConditionEdges(ids, i)
    {
      assert conditions[..i + 1][..i] == conditions[..i];
      var node := ConditionNode(i);
      nodes := nodes + [Node(ids.id(node), ConditionSlice(conditions[i]))];
      edges := edges + [Link(ids, upstream, node)];
      upstream := node;
    }
    assert conditions[..|conditions|] == conditions;
  }

  method CountConfidential(actions: seq<Action>) returns (count: nat)
    ensures count == ConfidentialCount(actions)
  {
    count := 0;
    for i := 0 to |actions|
      invariant count == ConfidentialCount(actions[..i])
    {
      assert actions[..i + 1][..i] == actions[..i];
      count := count + ConfidentialInputCount(actions[i]);
    }
    assert actions[..|actions|] == actions;
  }

  method AddActions<T, C>(ids: Scheme, actions: seq<Action>, upstream: Name)
    returns (nodes: seq<Node<T, C>>, edges: seq<Edge>)
    ensures nodes == ActionNodes(ids, actions)
    ensures edges == ActionEdges(ids, upstream, |actions|)
  {
    nodes, edges := [], [];
    for i := 0 to |actions|
      invariant nodes == ActionNodes(ids, actions[..i])
      invariant edges == ActionEdges(ids, upstream, i)
    {
      assert actions[..i + 1][..i] == actions[..i];
      var node := ActionNode(i);
      nodes := nodes + [Node(ids.id(node), ActionSlice(actions[i]))];
      edges := edges + [Link(ids, upstream, node)];
    }
    assert actions[..|actions|] == actions;
  }

  /** An asset that is not in the table throws; every other draft has a picture. */
  method GraphFromIr<T, C>(ir: Draft<T, C>, knownAssets: set<string>) returns (g: Option<Graph<T, C>>)
    ensures g == if ir.asset in knownAssets then Some(Picture(ir)) else None
  {
    if ir.asset !in knownAssets {
      return None;
    }
    var ids := CanvasIds();
    var nodes := [Node(ids.id(AssetNode), AssetSlice(ir.asset)), Node(ids.id(TriggerNode), TriggerSlice(ir.trigger))];
    var edges := [Link(ids, AssetNode, TriggerNode)];
    var conditionNodes, conditionEdges, upstream := AddConditions<T, C>(ids, ir.conditions);
    nodes, edges := nodes + conditionNodes, edges + conditionEdges;
    ghost var chain, links := nodes, edges;
    var count := CountConfidential(ir.actions);
    if count > 0 {
      nodes := nodes + [Node(ids.id(PrivateNode), ConfidentialSlice(count))];
      edges := edges + [Link(ids, upstream, PrivateNode)];
    }
    assert nodes == chain + PrivateNodes(ids, ir);
    assert edges == links + PrivateEdges(ids, ir);
    var actionNodes, actionEdges := AddActions<T, C>(ids, ir.actions, upstream);
    nodes, edges := nodes + actionNodes, edges + actionEdges;
    g := Some(Graph(nodes, edges));
  }

  // --- the shape of the picture -------------------------------------------------------------------

  /** Node k: asset, trigger, n conditions, the private node if there is one, the actions. */
  function NameAt(n: nat, private: nat, k: nat): Name {
    if k == 0 then AssetNode
    else if k == 1 then TriggerNode
    else if k < n + 2 then ConditionNode(k - 2)
    else if k < n + 2 + private then PrivateNode
    else ActionNode(k - n - 2 - private)
  }

  lemma NamesDiffer(n: nat, private: nat, j: nat, k: nat)
    requires private <= 1 && NameAt(n, private, j) == NameAt(n, private, k)
    ensures j == k
  {
  }

  function PrivateCount(actions: seq<Action>): nat {
    if ConfidentialCount(actions) > 0 then 1 else 0
  }

  function Size<T, C>(ir: Draft<T, C>): nat {
    |ir.conditions| + 2 + PrivateCount(ir.actions) + |ir.actions|
  }

  function NameIn<T, C>(ir: Draft<T, C>, k: nat): Name {
    NameAt(|ir.conditions|, PrivateCount(ir.actions), k)
  }

  /** What node k shows. */
  function SliceAt<T, C>(ir: Draft<T, C>, k: nat): Slice<T, C>
    requires k < Size(ir)
  {
    match NameIn(ir, k)
    case AssetNode => AssetSlice(ir.asset)
    case TriggerNode => TriggerSlice(ir.trigger)
    case ConditionNode(i) => ConditionSlice(ir.conditions[i])
    case PrivateNode => ConfidentialSlice(ConfidentialCount(ir.actions))
    case ActionNode(i) => ActionSlice(ir.actions[i])
  }

  /** The index of the node that node k hangs from. */
  function ParentOf(n: nat, k: nat): nat
    requires k > 0
  {
    if k <= n + 1 then k - 1 else n + 1
  }

  lemma {:induction false} ConditionNodeAt<T, C>(ids: Scheme, conditions: seq<C>, i: nat)
    ensures |ConditionNodes<T, C>(ids, conditions)| == |conditions|
    ensures i < |conditions| ==>
      ConditionNodes<T, C>(ids, conditions)[i] == Node(ids.id(ConditionNode(i)), ConditionSlice(conditions[i]))
  {
    if conditions != [] {
      ConditionNodeAt<T, C>(ids, conditions[..|conditions| - 1], i);
    }
  }

  lemma {:induction false} ConditionEdgeAt(ids: Scheme, n: nat, i: nat)
    ensures |ConditionEdges(ids, n)| == n
    ensures i < n ==> ConditionEdges(ids, n)[i] == Link(ids, Upstream(i), ConditionNode(i))
  {
    if n > 0 {
      ConditionEdgeAt(ids, n - 1, i);
    }
  }

  lemma {:induction false} ActionNodeAt<T, C>(ids: Scheme, actions: seq<Action>, i: nat)
    ensures |ActionNodes<T, C>(ids, actions)| == |actions|
    ensures i < |actions| ==>
      ActionNodes<T, C>(ids, actions)[i] == Node(ids.id(ActionNode(i)), ActionSlice(actions[i]))
  {
    if actions != [] {
      ActionNodeAt<T, C>(ids, actions[..|actions| - 1], i);
    }
  }

  lemma {:induction false} ActionEdgeAt(ids: Scheme, upstream: Name, n: nat, i: nat)
    ensures |ActionEdges(ids, upstream, n)| == n
    ensures i < n ==> ActionEdges(ids, upstream, n)[i] == Link(ids, upstream, ActionNode(i))
  {
    if n > 0 {
      ActionEdgeAt(ids, upstream, n - 1, i);
    }
  }

  function Pick<X>(a: seq<X>, b: seq<X>, c: seq<X>, d: seq<X>, k: nat): X
    requires k < |a| + |b| + |c| + |d|
  {
    if k < |a| then a[k]
    else if k < |a| + |b| then b[k - |a|]
    else if k < |a| + |b| + |c| then c[k - |a| - |b|]
    else d[k - |a| - |b| - |c|]
  }

  lemma PickFromSum<X>(a: seq<X>, b: seq<X>, c: seq<X>, d: seq<X>, k: nat)
    requires k < |a| + |b| + |c| + |d|
    ensures (a + b + c + d)[k] == Pick(a, b, c, d, k)
  {
  }

  lemma NodeAt<T, C>(ids: Scheme, ir: Draft<T, C>, k: nat)
    requires k < Size(ir)
    ensures |NodesOf(ids, ir)| == Size(ir)
    ensures NodesOf(ids, ir)[k] == Node(ids.id(NameIn(ir, k)), SliceAt(ir, k))
  {
    var n, private := |ir.conditions|, PrivateCount(ir.actions);
    ConditionNodeAt<T, C>(ids, ir.conditions, if 2 <= k then k - 2 else 0);
    ActionNodeAt<T, C>(ids, ir.actions, if n + 2 + private <= k then k - n - 2 - private else 0);
    PickFromSum(FirstNodes(ids, ir), ConditionNodes<T, C>(ids, ir.conditions), PrivateNodes(ids, ir),
                ActionNodes<T, C>(ids, ir.actions), k);
  }

  lemma EdgeAt<T, C>(ids: Scheme, ir: Draft<T, C>, k: nat)
    requires k < Size(ir) - 1
    ensures |EdgesOf(ids, ir)| == Size(ir) - 1
    ensures EdgesOf(ids, ir)[k] == Link(ids, NameIn(ir, ParentOf(|ir.conditions|, k + 1)), NameIn(ir, k + 1))
  {
    var n, private := |ir.conditions|, PrivateCount(ir.actions);
    ConditionEdgeAt(ids, n, if 1 <= k then k - 1 else 0);
    ActionEdgeAt(ids, Upstream(n), |ir.actions|, if n + 1 + private <= k then k - n - 1 - private else 0);
    PickFromSum([Link(ids, AssetNode, TriggerNode)], ConditionEdges(ids, n), PrivateEdges(ids, ir),
                ActionEdges(ids, Upstream(n), |ir.actions|), k);
  }

  // --- ids tell nodes and links apart ---------------------------------------------------------------

  /** Links start at the asset, the trigger or a condition. */
  predicate Starts(a: Name) {
    a.AssetNode? || a.TriggerNode? || a.ConditionNode?
  }

  ghost predicate Apart(ids: Scheme) {
    && (forall x, y | ids.id(x) == ids.id(y) :: x == y)
    && (forall a, b, c, d | Starts(a) && Starts(c) && ids.link(a, b) == ids.link(c, d) :: a == c && b == d)
  }

  lemma DecimalIdsDiffer(i: nat, j: nat)
    requires ConditionId(i) == ConditionId(j) || ActionId(i) == ActionId(j)
    ensures i == j
  {
    assert ConditionId(i)[10..] == Decimal(i) && ConditionId(j)[10..] == Decimal(j);
    assert ActionId(i)[7..] == Decimal(i) && ActionId(j)[7..] == Decimal(j);
    DecimalInjective(i, j);
  }

  lemma IdsAreDistinct(x: Name, y: Name)
    requires IdOf(x) == IdOf(y)
    ensures x == y
  {
    var s, t := IdOf(x), IdOf(y);
    assert s[0] == t[0] && s[1] == t[1] && s[3] == t[3];
    if x.ConditionNode? && y.ConditionNode? {
      DecimalIdsDiffer(x.i, y.i);
    } else if x.ActionNode? && y.ActionNode? {
      DecimalIdsDiffer(x.i, y.i);
    }
  }

  lemma DigitsThenDash(p: string, q: string, x: string, y: string)
    requires AllDigits(p) && AllDigits(q)
    requires p + "-" + x == q + "-" + y
    ensures p == q
  {
    var s := p + "-" + x;
    assert s[|p|] == '-' && s[|q|] == '-';
    assert forall i | 0 <= i < |p| :: s[i] == p[i];
    assert forall i | 0 <= i < |q| :: s[i] == q[i];
    assert s[..|p|] == p && s[..|q|] == q;
  }

  lemma ConditionLinks(i: nat, j: nat, x: string, y: string)
    requires ConditionId(i) + "-" + x == ConditionId(j) + "-" + y
    ensures i == j
  {
    var p, q := Decimal(i), Decimal(j);
    assert (ConditionId(i) + "-" + x)[10..] == p + "-" + x;
    assert (ConditionId(j) + "-" + y)[10..] == q + "-" + y;
    ValueOfDecimal(i);
    ValueOfDecimal(j);
    DigitsThenDash(p, q, x, y);
    DecimalInjective(i, j);
  }

  /** A link's id tells its source, though both halves contain dashes. */
  lemma LinkNamesItsSource(a: Name, c: Name, x: string, y: string)
    requires Starts(a) && Starts(c)
    requires IdOf(a) + "-" + x == IdOf(c) + "-" + y
    ensures a == c
  {
    var s, t := IdOf(a) + "-" + x, IdOf(c) + "-" + y;
    assert s[0] == t[0] == IdOf(a)[0] == IdOf(c)[0];
    if a.ConditionNode? && c.ConditionNode? {
      ConditionLinks(a.i, c.i, x, y);
    }
  }

  lemma SameTail(s: string, x: string, y: string)
    requires s + "-" + x == s + "-" + y
    ensures x == y
  {
    assert (s + "-" + x)[|s| + 1..] == x && (s + "-" + y)[|s| + 1..] == y;
  }

  lemma LinksAreDistinct(a: Name, b: Name, c: Name, d: Name)
    requires Starts(a) && Starts(c) && IdOf(a) + "-" + IdOf(b) == IdOf(c) + "-" + IdOf(d)
    ensures a == c && b == d
  {
    LinkNamesItsSource(a, c, IdOf(b), IdOf(d));
    SameTail(IdOf(a), IdOf(b), IdOf(d));
    IdsAreDistinct(b, d);
  }

  lemma CanvasIdsAreApart()
    ensures Apart(CanvasIds())
  {
    var ids := CanvasIds();
    forall x, y | ids.id(x) == ids.id(y)
      ensures x == y
    {
      IdsAreDistinct(x, y);
    }
    forall a, b, c, d | Starts(a) && Starts(c) && ids.link(a, b) == ids.link(c, d)
      ensures a == c && b == d
    {
      LinksAreDistinct(a, b, c, d);
    }
  }

  lemma NodesApart<T, C>(ids: Scheme, ir: Draft<T, C>, j: nat, k: nat)
    requires Apart(ids) && j < |NodesOf(ids, ir)| && k < |NodesOf(ids, ir)|
    requires NodesOf(ids, ir)[j].id == NodesOf(ids, ir)[k].id
    ensures j == k
  {
    NodeAt(ids, ir, 0);
    NodeAt(ids, ir, j);
    NodeAt(ids, ir, k);
    NamesDiffer(|ir.conditions|, PrivateCount(ir.actions), j, k);
  }

  lemma EdgesApart<T, C>(ids: Scheme, ir: Draft<T, C>, j: nat, k: nat)
    requires Apart(ids) && j < |EdgesOf(ids, ir)| && k < |EdgesOf(ids, ir)|
    requires EdgesOf(ids, ir)[j].id == EdgesOf(ids, ir)[k].id
    ensures j == k
  {
    EdgeAt(ids, ir, 0);
    EdgeAt(ids, ir, j);
    EdgeAt(ids, ir, k);
    assert NameIn(ir, j + 1) == NameIn(ir, k + 1);
    NamesDiffer(|ir.conditions|, PrivateCount(ir.actions), j + 1, k + 1);
  }

  /** The keys of a rendered list: no two nodes of one picture share an id. */
  lemma NodeIdsAreDistinct<T, C>(ir: Draft<T, C>, j: nat, k: nat)
    requires j < |Picture(ir).nodes| && k < |Picture(ir).nodes|
    requires Picture(ir).nodes[j].id == Picture(ir).nodes[k].id
    ensures j == k
  {
    CanvasIdsAreApart();
    NodesApart(CanvasIds(), ir, j, k);
  }

  lemma EdgeIdsAreDistinct<T, C>(ir: Draft<T, C>, j: nat, k: nat)
    requires j < |Picture(ir).edges| && k < |Picture(ir).edges|
    requires Picture(ir).edges[j].id == Picture(ir).edges[k].id
    ensures j == k
  {
    CanvasIdsAreApart();
    EdgesApart(CanvasIds(), ir, j, k);
  }

  // --- a tree -------------------------------------------------------------------------------------

  /** A tree rooted at the asset: exactly one edge into each later node, from an earlier one. */
  lemma PictureIsATree<T, C>(ids: Scheme, ir: Draft<T, C>)
    ensures |EdgesOf(ids, ir)| == |NodesOf(ids, ir)| - 1
    ensures forall k | 0 < k < |NodesOf(ids, ir)| ::
      && ParentOf(|ir.conditions|, k) < k
      && EdgesOf(ids, ir)[k - 1].source == NodesOf(ids, ir)[ParentOf(|ir.conditions|, k)].id
      && EdgesOf(ids, ir)[k - 1].target == NodesOf(ids, ir)[k].id
  {
    NodeAt(ids, ir, 0);
    EdgeAt(ids, ir, 0);
    forall k | 0 < k < |NodesOf(ids, ir)|
      ensures EdgesOf(ids, ir)[k - 1].source == NodesOf(ids, ir)[ParentOf(|ir.conditions|, k)].id
      ensures EdgesOf(ids, ir)[k - 1].target == NodesOf(ids, ir)[k].id
    {
      NodeAt(ids, ir, k);
      NodeAt(ids, ir, ParentOf(|ir.conditions|, k));
      EdgeAt(ids, ir, k - 1);
    }
  }

  // --- the only path ------------------------------------------------------------------------------

  ghost predicate Joined(edges: seq<Edge>, a: string, b: string) {
    exists e | 0 <= e < |edges| :: edges[e].source == a && edges[e].target == b
  }

  ghost predicate IsPath(edges: seq<Edge>, path: seq<string>) {
    && |path| > 0
    && forall i | 0 < i < |path| :: Joined(edges, path[i - 1], path[i])
  }

  lemma PathPrefix(edges: seq<Edge>, path: seq<string>)
    requires IsPath(edges, path) && |path| > 1
    ensures IsPath(edges, path[..|path| - 1])
    ensures Joined(edges, path[|path| - 2], path[|path| - 1])
  {
    var rest := path[..|path| - 1];
    forall i | 0 < i < |rest|
      ensures Joined(edges, rest[i - 1], rest[i])
    {
      assert Joined(edges, path[i - 1], path[i]);
    }
    var last := |path| - 1;
    assert Joined(edges, path[last - 1], path[last]);
  }

  lemma PathExtended(edges: seq<Edge>, path: seq<string>, b: string)
    requires IsPath(edges, path) && Joined(edges, path[|path| - 1], b)
    ensures IsPath(edges, path + [b])
  {
    var longer := path + [b];
    forall i | 0 < i < |longer|
      ensures Joined(edges, longer[i - 1], longer[i])
    {
      assert i < |path| ==> Joined(edges, path[i - 1], path[i]);
    }
  }

  /** Distinct ids, and one edge into each but the first, from its parent. */
  ghost predicate Hangs(n: nat, ids: seq<string>, edges: seq<Edge>) {
    && (forall j, k | 0 <= j < |ids| && 0 <= k < |ids| && ids[j] == ids[k] :: j == k)
    && |edges| + 1 == |ids|
    && (forall k | 0 < k < |ids| :: edges[k - 1].source == ids[ParentOf(n, k)] && edges[k - 1].target == ids[k])
  }

  /** The way down to node k. */
  function Route(n: nat, ids: seq<string>, k: nat): (r: seq<string>)
    requires k < |ids|
    ensures |r| > 0 && r[0] == ids[0] && r[|r| - 1] == ids[k]
  {
    if k == 0 then [ids[0]] else Route(n, ids, ParentOf(n, k)) + [ids[k]]
  }

  /** Only its parent is joined to a node. */
  lemma JoinedToParent(n: nat, ids: seq<string>, edges: seq<Edge>, a: string, k: nat)
    requires Hangs(n, ids, edges) && k < |ids|
    requires Joined(edges, a, ids[k])
    ensures k > 0 && a == ids[ParentOf(n, k)]
  {
    var e :| 0 <= e < |edges| && edges[e].source == a && edges[e].target == ids[k];
    var child := e + 1;
    assert ids[child] == edges[child - 1].target;
  }

  /** From the root there is one way to each node. */
  lemma {:induction false} OnlyRoute(n: nat, ids: seq<string>, edges: seq<Edge>, path: seq<string>, k: nat)
    requires Hangs(n, ids, edges) && k < |ids|
    requires IsPath(edges, path) && path[0] == ids[0] && path[|path| - 1] == ids[k]
    ensures path == Route(n, ids, k)
    decreases |path|
  {
    if |path| > 1 {
      PathPrefix(edges, path);
      JoinedToParent(n, ids, edges, path[|path| - 2], k);
      OnlyRoute(n, ids, edges, path[..|path| - 1], ParentOf(n, k));
      assert path == path[..|path| - 1] + [path[|path| - 1]];
    }
  }

  /** And that way is there. */
  lemma {:induction false} RouteIsPath(n: nat, ids: seq<string>, edges: seq<Edge>, k: nat)
    requires Hangs(n, ids, edges) && k < |ids|
    ensures IsPath(edges, Route(n, ids, k))
  {
    if k > 0 {
      var up := ParentOf(n, k);
      RouteIsPath(n, ids, edges, up);
      assert edges[k - 1].source == ids[up] && edges[k - 1].target == ids[k];
      PathExtended(edges, Route(n, ids, up), ids[k]);
    }
  }

  function IdsOf<T, C>(nodes: seq<Node<T, C>>): seq<string> {
    seq(|nodes|, k requires 0 <= k < |nodes| => nodes[k].id)
  }

  lemma PictureHangs<T, C>(ids: Scheme, ir: Draft<T, C>)
    requires Apart(ids)
    ensures Hangs(|ir.conditions|, IdsOf(NodesOf(ids, ir)), EdgesOf(ids, ir))
  {
    var names := IdsOf(NodesOf(ids, ir));
    forall j, k | 0 <= j < |names| && 0 <= k < |names| && names[j] == names[k]
      ensures j == k
    {
      NodesApart(ids, ir, j, k);
    }
    PictureIsATree(ids, ir);
  }

  function ConditionIds(ids: Scheme, n: nat): seq<string> {
    if n == 0 then [] else ConditionIds(ids, n - 1) + [ids.id(ConditionNode(n - 1))]
  }

  lemma {:induction false} RouteThroughConditions<T, C>(ids: Scheme, ir: Draft<T, C>, i: nat)
    requires i <= |ir.conditions|
    ensures i + 1 < |IdsOf(NodesOf(ids, ir))|
    ensures Route(|ir.conditions|, IdsOf(NodesOf(ids, ir)), i + 1)
         == [ids.id(AssetNode), ids.id(TriggerNode)] + ConditionIds(ids, i)
  {
    var n, names := |ir.conditions|, IdsOf(NodesOf(ids, ir));
    NodeAt(ids, ir, i + 1);
    if i == 0 {
      NodeAt(ids, ir, 0);
      assert Route(n, names, 0) == [ids.id(AssetNode)];
    } else {
      RouteThroughConditions(ids, ir, i - 1);
    }
  }

  /** No action, and no private value, is reached but through the trigger and every condition in order. */
  lemma OnlyThroughConditions<T, C>(ids: Scheme, ir: Draft<T, C>, k: nat, path: seq<string>)
    requires Apart(ids) && |ir.conditions| + 2 <= k < |NodesOf(ids, ir)|
    requires |path| > 0 && path[0] == ids.id(AssetNode) && path[|path| - 1] == NodesOf(ids, ir)[k].id
    ensures IsPath(EdgesOf(ids, ir), path)
      <==> path == [ids.id(AssetNode), ids.id(TriggerNode)] + ConditionIds(ids, |ir.conditions|) + [NodesOf(ids, ir)[k].id]
  {
    var n, names := |ir.conditions|, IdsOf(NodesOf(ids, ir));
    PictureHangs(ids, ir);
    RouteThroughConditions(ids, ir, n);
    RouteIsPath(n, names, EdgesOf(ids, ir), k);
    if IsPath(EdgesOf(ids, ir), path) {
      NodeAt(ids, ir, 0);
      OnlyRoute(n, names, EdgesOf(ids, ir), path, k);
    }
  }

  /** The same of the canvas itself. */
  lemma EveryConditionGatesEveryAction<T, C>(ir: Draft<T, C>, k: nat, path: seq<string>)
    requires |ir.conditions| + 2 <= k < |Picture(ir).nodes|
    requires |path| > 0 && path[0] == "asset" && path[|path| - 1] == Picture(ir).nodes[k].id
    ensures IsPath(Picture(ir).edges, path)
      <==> path == ["asset", "trigger"] + ConditionIds(CanvasIds(), |ir.conditions|) + [Picture(ir).nodes[k].id]
  {
    CanvasIdsAreApart();
    OnlyThroughConditions(CanvasIds(), ir, k, path);
  }

  // --- the panel of a node ------------------------------------------------------------------------

  /** JavaScript's reading of a number; only its values on decimal text matter here. */
  type Numeric = string -> Option<int>

  predicate StartsWith(s: string, prefix: string) {
    |prefix| <= |s| && s[..|prefix|] == prefix
  }

  function IndexOf(number: Numeric, nodeId: string, prefix: string): Option<nat> {
    if !StartsWith(nodeId, prefix) then None
    else
      var index := number(nodeId[|prefix|..]);
      if index.Some? && index.value >= 0 then Some(index.value) else None
  }

  function InspectorFor<T, C>(number: Numeric, nodeId: Option<string>, ir: Draft<T, C>): Slice<T, C> {
    if nodeId == Some("asset") then AssetSlice(ir.asset)
    else if nodeId == Some("trigger") then TriggerSlice(ir.trigger)
    else if nodeId == Some("confidential") then ConfidentialSlice(ConfidentialCount(ir.actions))
    else if nodeId.None? then WholePolicy
    else
      var condition := IndexOf(number, nodeId.value, "condition-");
      if condition.Some? then
        if condition.value < |ir.conditions| then ConditionSlice(ir.conditions[condition.value]) else WholePolicy
      else
        var action := IndexOf(number, nodeId.value, "action-");
        if action.Some? && action.value < |ir.actions| then ActionSlice(ir.actions[action.value]) else WholePolicy
  }

  /** Which panel any id opens: a numbered one only for an index that is there, and the whole policy for anything else. */
  lemma PanelExactly<T, C>(number: Numeric, rest: string, id: string, ir: Draft<T, C>)
    ensures InspectorFor(number, Some("condition-" + rest), ir)
         == var i := number(rest);
            if i.Some? && 0 <= i.value < |ir.conditions| then ConditionSlice(ir.conditions[i.value]) else WholePolicy
    ensures InspectorFor(number, Some("action-" + rest), ir)
         == var i := number(rest);
            if i.Some? && 0 <= i.value < |ir.actions| then ActionSlice(ir.actions[i.value]) else WholePolicy
    ensures InspectorFor(number, None, ir) == WholePolicy
    ensures !StartsWith(id, "condition-") && !StartsWith(id, "action-") ==>
              InspectorFor(number, Some(id), ir)
              == if id == "asset" then AssetSlice(ir.asset)
                 else if id == "trigger" then TriggerSlice(ir.trigger)
                 else if id == "confidential" then ConfidentialSlice(ConfidentialCount(ir.actions))
                 else WholePolicy
  {
    var c, a := "condition-" + rest, "action-" + rest;
    assert c[..10] == "condition-" && c[10..] == rest && c[3] == 'd';
    assert a[..7] == "action-" && a[7..] == rest && a[1] == 'c';
    assert !StartsWith(c, "action-") by {
      assert c[0] != "action-"[0];
    }
    assert !StartsWith(a, "condition-") by {
      assert a[0] != "condition-"[0];
    }
  }

  /** The longest list JavaScript can hold. */
  const ARRAY_LIMIT: nat := 0xFFFF_FFFF

  predicate ReadsDecimals(number: Numeric) {
    forall n: nat | n < ARRAY_LIMIT :: number(Decimal(n)) == Some(n)
  }

  lemma ConditionPanel<T, C>(number: Numeric, ir: Draft<T, C>, i: nat)
    requires ReadsDecimals(number) && i < |ir.conditions| <= ARRAY_LIMIT
    ensures InspectorFor(number, Some(ConditionId(i)), ir) == ConditionSlice(ir.conditions[i])
  {
    var id := ConditionId(i);
    assert id[..10] == "condition-" && id[10..] == Decimal(i) && id[3] == 'd';
  }

  lemma ActionPanel<T, C>(number: Numeric, ir: Draft<T, C>, i: nat)
    requires ReadsDecimals(number) && i < |ir.actions| <= ARRAY_LIMIT
    ensures InspectorFor(number, Some(ActionId(i)), ir) == ActionSlice(ir.actions[i])
  {
    var id := ActionId(i);
    assert id[..7] == "action-" && id[7..] == Decimal(i) && id[1] == 'c';
  }

  /** Every node of the picture opens the panel of the very slice it was drawn from. */
  lemma InspectorFindsTheSlice<T, C>(number: Numeric, ir: Draft<T, C>, node: Node<T, C>)
    requires ReadsDecimals(number)
    requires |ir.conditions| <= ARRAY_LIMIT && |ir.actions| <= ARRAY_LIMIT
    requires node in Picture(ir).nodes
    ensures InspectorFor(number, Some(node.id), ir) == node.data
    ensures node.data != WholePolicy
  {
    var k: nat :| k < |Picture(ir).nodes| && Picture(ir).nodes[k] == node;
    NodeAt(CanvasIds(), ir, 0);
    NodeAt(CanvasIds(), ir, k);
    match NameIn(ir, k) {
      case ConditionNode(i) => ConditionPanel(number, ir, i);
      case ActionNode(i) => ActionPanel(number, ir, i);
      case _ =>
    }
  }
}
