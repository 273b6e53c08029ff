/** The display list of a typed-data tree: the linked FIFO queue (apps/evm_family/eip712_utils.c)
    and the breadth-first builder (apps/evm_family/evm_typed_data_helper.c). */
module TypedDataDisplay {
  import opened TypedData

  datatype Entry = Entry(node: Node, prefix: string)
  datatype Line = Line(title: string, text: string)

  class QueueNode {
    const treeNode: Node
    const prefix: string
    var next: QueueNode?

    constructor (treeNode: Node, prefix: string)
      ensures this.treeNode == treeNode && this.prefix == prefix && next == null
    {
      this.treeNode, this.prefix, next := treeNode, prefix, null;
    }

    function AsEntry(): Entry {
      Entry(treeNode, prefix)
    }
  }

  class Queue {
    var front: QueueNode?
    var rear: QueueNode?
    var count: nat
    ghost var chain: seq<QueueNode>

    ghost predicate Valid()
      reads this, chain
    {
      && count == |chain|
      && front == (if chain == [] then null else chain[0])
      && rear == (if chain == [] then null else chain[|chain| - 1])
      && (forall i, j | 0 <= i && j == i + 1 && j < |chain| :: chain[i].next == chain[j])
      && (chain != [] ==> chain[|chain| - 1].next == null)
      && (forall i, j | 0 <= i < j < |chain| :: chain[i] != chain[j])
    }

    ghost function Nodes(): set<QueueNode>
      reads this
    {
      set n | n in chain
    }

    /** The queue as a sequence, front first. */
    ghost function Contents(): seq<Entry>
      reads this
    {
      seq(|chain|, i requires 0 <= i < |chain| reads this => chain[i].AsEntry())
    }

    constructor ()
      ensures Valid() && Contents() == [] && chain == []
    {
      front, rear, count, chain := null, null, 0, [];
    }

    method Enqueue(treeNode: Node, prefix: string)
      requires Valid()
      modifies this, rear
      ensures Valid() && Contents() == old(Contents()) + [Entry(treeNode, prefix)]
      ensures fresh(Nodes() - old(Nodes()))
    {
      var temp := new QueueNode(treeNode, prefix);
      count := count + 1;
      chain := chain + [temp];
      if rear == null {
        front, rear := temp, temp;
        return;
      }
      rear.next := temp;
      rear := temp;
    }

    method Dequeue() returns (node: QueueNode?)
      requires Valid()
      modifies this
      ensures Valid()
      ensures old(Contents()) == [] ==> node == null && Contents() == []
      ensures old(Contents()) != [] ==>
        node != null && old(Contents()) == [node.AsEntry()] + Contents()
      ensures Nodes() <= old(Nodes())
    {
      if count == 0 {
        return null;
      }
      assert |chain| > 1 ==> chain[0].next == chain[1];
      node := front;
      front := front.next;
      if front == null {
        rear := null;
      }
      count := count - 1;
      chain := chain[1..];
    }
  }

  // ---- The list, as functions of the tree.

  /** What the screen shows of a node besides its title stays uninterpreted. */
  type Describe = Node -> string

  function LineOf(d: Describe, e: Entry): Line {
    Line(e.prefix + e.node.name, d(e.node))
  }

  function EntriesOf(nodes: seq<Node>, prefix: string): (es: seq<Entry>)
    ensures |es| == |nodes| && forall i | 0 <= i < |nodes| :: es[i] == Entry(nodes[i], prefix)
  {
    seq(|nodes|, i requires 0 <= i < |nodes| => Entry(nodes[i], prefix))
  }

  function Kids(e: Entry): seq<Entry> {
    EntriesOf(e.node.children, e.prefix + e.node.name + ".")
  }

  function Lines(d: Describe, level: seq<Entry>): seq<Line> {
    seq(|level|, i requires 0 <= i < |level| => LineOf(d, level[i]))
  }

  function NextLevel(level: seq<Entry>): seq<Entry> {
    if level == [] then [] else Kids(level[0]) + NextLevel(level[1..])
  }

  /** Number of tree nodes. */
  function Size(n: Node): nat {
    1 + Sizes(n.children)
  }

  function Sizes(nodes: seq<Node>): nat {
    if nodes == [] then 0 else Size(nodes[0]) + Sizes(nodes[1..])
  }

  function Weight(level: seq<Entry>): nat {
    if level == [] then 0 else Size(level[0].node) + Weight(level[1..])
  }

  lemma {:induction false} WeightAppend(a: seq<Entry>, b: seq<Entry>)
    ensures Weight(a + b) == Weight(a) + Weight(b)
  {
    if a == [] {
      assert a + b == b;
    } else {
      assert (a + b)[0] == a[0] && (a + b)[1..] == a[1..] + b;
      WeightAppend(a[1..], b);
    }
  }

  lemma {:induction false} WeightOfEntries(nodes: seq<Node>, prefix: string)
    ensures Weight(EntriesOf(nodes, prefix)) == Sizes(nodes)
  {
    if nodes != [] {
      assert EntriesOf(nodes, prefix)[1..] == EntriesOf(nodes[1..], prefix);
      WeightOfEntries(nodes[1..], prefix);
    }
  }

  lemma KidsAreLighter(q: seq<Entry>)
    requires q != []
    ensures Weight(Kids(q[0])) + 1 + Weight(q[1..]) == Weight(q)
    ensures Weight(q[1..] + Kids(q[0])) < Weight(q)
  {
    WeightOfEntries(q[0].node.children, q[0].prefix + q[0].node.name + ".");
    WeightAppend(q[1..], Kids(q[0]));
  }

  /** What remains to be appended to the list when the queue is q. */
  function Breadth(d: Describe, q: seq<Entry>): seq<Line>
    decreases Weight(q)
  {
    if q == [] then [] else
      KidsAreLighter(q);
      [LineOf(d, q[0])] + Breadth(d, q[1..] + Kids(q[0]))
  }

  /** evm_create_typed_data_display_nodes: appends the lines of one tree. */
  method CreateDisplayNodes(d: Describe, root: Node, lines: seq<Line>) returns (out: seq<Line>)
    ensures out == lines + Breadth(d, [Entry(root, "")])
  {
    hide Breadth, Weight, Kids;
    out := lines;
    var q := new Queue();
    q.Enqueue(root, "");
    ghost var all := lines + Breadth(d, [Entry(root, "")]);
    assert q.Contents() == [Entry(root, "")];
    while q.count != 0
      invariant fresh(q) && q.Valid() && fresh(q.Nodes())
      invariant out + Breadth(d, q.Contents()) == all
      decreases Weight(q.Contents())
    {
      var nodeCount := q.count;
      ghost var w, pending := Weight(q.Contents()), nodeCount;
      while nodeCount > 0
        invariant nodeCount <= |q.Contents()| && nodeCount <= pending
        invariant fresh(q) && q.Valid() && fresh(q.Nodes())
        invariant out + Breadth(d, q.Contents()) == all
        invariant if nodeCount == pending then Weight(q.Contents()) == w else Weight(q.Contents()) < w
      {
        out := ShowFront(d, q, out);
        nodeCount := nodeCount - 1;
      }
    }
    assert Breadth(d, []) == [] by { NothingToShow(d); }
    assert q.Contents() == [];
  }

  lemma NothingToShow(d: Describe)
    ensures Breadth(d, []) == []
  {
  }

  /** The body of the loops: one node shown, its children queued. */
  method ShowFront(d: Describe, q: Queue, lines: seq<Line>) returns (out: seq<Line>)
    requires q.Valid() && q.Contents() != []
    modifies q, q.Nodes()
    ensures q.Valid() && fresh(q.Nodes() - old(q.Nodes()))
    ensures out + Breadth(d, q.Contents()) == lines + Breadth(d, old(q.Contents()))
    ensures Weight(q.Contents()) < Weight(old(q.Contents())) && |q.Contents()| + 1 >= |old(q.Contents())|
  {
    hide LineOf, Kids, Weight, Breadth;
    ghost var before := q.Contents();
    BreadthStep(d, before);
    KidsAreLighter(before);
    var node := q.Dequeue();
    var e := node.AsEntry();
    assert before[0] == e && before[1..] == q.Contents();
    out := lines + [LineOf(d, e)];
    EnqueueKids(q, e);
    assert lines + [LineOf(d, e)] + Breadth(d, q.Contents()) == lines + ([LineOf(d, e)] + Breadth(d, q.Contents()));
  }

  lemma BreadthStep(d: Describe, q: seq<Entry>)
    requires q != []
    ensures Breadth(d, q) == [LineOf(d, q[0])] + Breadth(d, q[1..] + Kids(q[0]))
  {
    hide LineOf, Kids;
  }

  method EnqueueKids(q: Queue, e: Entry)
    requires q.Valid()
    modifies q, q.Nodes()
    ensures q.Valid() && q.Contents() == old(q.Contents()) + Kids(e)
    ensures fresh(q.Nodes() - old(q.Nodes()))
  {
    hide Kids;
    var kids := e.node.children;
    ghost var before, all := q.Contents(), Kids(e);
    KidsAre(e);
    for i := 0 to |kids|
      invariant q.Valid() && q.Contents() == before + all[..i]
      invariant fresh(q.Nodes() - old(q.Nodes()))
    {
      assert q.rear != null ==> q.rear in q.Nodes();
      q.Enqueue(kids[i], e.prefix + e.node.name + ".");
      assert before + all[..i] + [all[i]] == before + all[..i + 1];
    }
    assert all[..|kids|] == all;
  }

  lemma KidsAre(e: Entry)
    ensures |Kids(e)| == |e.node.children|
    ensures forall i | 0 <= i < |Kids(e)| :: Kids(e)[i] == Entry(e.node.children[i], e.prefix + e.node.name + ".")
  {
  }

  /** evm_init_typed_data_display_node: two headed lists, the domain's and the message's. */
  method InitDisplay(d: Describe, domain: Node, message: Node) returns (lines: seq<Line>)
    ensures lines == [Line("Verify Domain", "EIP712Domain")] + LevelOrder(d, [Entry(domain, "")])
                   + [Line("Verify Message", message.structName)] + LevelOrder(d, [Entry(message, "")])
  {
    lines := [Line("Verify Domain", "EIP712Domain")];
    lines := CreateDisplayNodes(d, domain, lines);
    lines := lines + [Line("Verify Message", message.structName)];
    lines := CreateDisplayNodes(d, message, lines);
    BreadthIsLevelOrder(d, [Entry(domain, "")]);
    BreadthIsLevelOrder(d, [Entry(message, "")]);
  }

  // ---- The order and the completeness of the list.

  lemma {:induction false} NextLevelIsLighter(level: seq<Entry>)
    ensures Weight(NextLevel(level)) + |level| == Weight(level)
  {
    if level != [] {
      KidsAreLighter(level);
      NextLevelIsLighter(level[1..]);
      WeightAppend(Kids(level[0]), NextLevel(level[1..]));
    }
  }

  /** One level after the other, each from left to right. */
  function LevelOrder(d: Describe, level: seq<Entry>): seq<Line>
    decreases Weight(level)
  {
    if level == [] then [] else
      NextLevelIsLighter(level);
      Lines(d, level) + LevelOrder(d, NextLevel(level))
  }

  lemma {:induction false} BreadthTakesALevel(d: Describe, level: seq<Entry>, below: seq<Entry>)
    ensures Breadth(d, level + below) == Lines(d, level) + Breadth(d, below + NextLevel(level))
    decreases |level|
  {
    hide Kids, LineOf;
    if level == [] {
      assert level + below == below && below + NextLevel(level) == below;
    } else {
      var q := level + below;
      assert q[0] == level[0] && q[1..] + Kids(q[0]) == level[1..] + (below + Kids(level[0]));
      BreadthTakesALevel(d, level[1..], below + Kids(level[0]));
      assert below + Kids(level[0]) + NextLevel(level[1..]) == below + NextLevel(level);
      assert Lines(d, level) == [LineOf(d, level[0])] + Lines(d, level[1..]);
    }
  }

  lemma {:induction false} BreadthIsLevelOrder(d: Describe, level: seq<Entry>)
    ensures Breadth(d, level) == LevelOrder(d, level)
    decreases Weight(level)
  {
    if level != [] {
      assert level + [] == level && [] + NextLevel(level) == NextLevel(level);
      BreadthTakesALevel(d, level, []);
      NextLevelIsLighter(level);
      BreadthIsLevelOrder(d, NextLevel(level));
    }
  }

  /** Depth first: the node, then its children's subtrees, then its right siblings. */
  function PreOrder(d: Describe, nodes: seq<Entry>): seq<Line>
    decreases Weight(nodes)
  {
    if nodes == [] then [] else
      KidsAreLighter(nodes);
      [LineOf(d, nodes[0])] + PreOrder(d, Kids(nodes[0])) + PreOrder(d, nodes[1..])
  }

  lemma {:induction false} PreOrderAppend(d: Describe, a: seq<Entry>, b: seq<Entry>)
    ensures PreOrder(d, a + b) == PreOrder(d, a) + PreOrder(d, b)
  {
    if a == [] {
      assert a + b == b;
    } else {
      assert (a + b)[0] == a[0] && (a + b)[1..] == a[1..] + b;
      PreOrderAppend(d, a[1..], b);
    }
  }

  /** The list holds every node of the trees once, neither more nor less. */
  lemma {:induction false} EveryNodeOnce(d: Describe, q: seq<Entry>)
    ensures multiset(LevelOrder(d, q)) == multiset(PreOrder(d, q))
    ensures |LevelOrder(d, q)| == Weight(q)
    decreases Weight(q)
  {
    BreadthIsLevelOrder(d, q);
    if q != [] {
      var rest := q[1..] + Kids(q[0]);
      KidsAreLighter(q);
      EveryNodeOnce(d, rest);
      BreadthIsLevelOrder(d, rest);
      PreOrderAppend(d, q[1..], Kids(q[0]));
      WeightAppend(q[1..], Kids(q[0]));
    }
  }

  predicate IsPath(n: Node, path: seq<nat>) {
    path == [] || (path[0] < |n.children| && IsPath(n.children[path[0]], path[1..]))
  }

  function NodeAt(n: Node, path: seq<nat>): Node
    requires IsPath(n, path)
  {
    if path == [] then n else NodeAt(n.children[path[0]], path[1..])
  }

  /** The names from the root to the node, joined with dots. */
  function Dotted(n: Node, path: seq<nat>): string
    requires IsPath(n, path)
  {
    if path == [] then n.name else n.name + "." + Dotted(n.children[path[0]], path[1..])
  }

  /** A child's path is its parent's, a dot and its own name. */
  lemma {:induction false} ChildPath(n: Node, path: seq<nat>, i: nat)
    requires IsPath(n, path) && i < |NodeAt(n, path).children|
    ensures IsPath(n, path + [i]) && NodeAt(n, path + [i]) == NodeAt(n, path).children[i]
    ensures Dotted(n, []) == n.name && NodeAt(n, []) == n
    ensures Dotted(n, path + [i]) == Dotted(n, path) + "." + NodeAt(n, path).children[i].name
    decreases |path|
  {
    var all := path + [i];
    if path == [] {
      assert all[1..] == [];
    } else {
      ChildPath(n.children[path[0]], path[1..], i);
      assert all[1..] == path[1..] + [i];
      var rest := Dotted(n.children[path[0]], path[1..]);
      assert n.name + "." + (rest + "." + NodeAt(n, path).children[i].name)
        == n.name + "." + rest + "." + NodeAt(n, path).children[i].name;
    }
  }

  lemma LevelFirst(d: Describe, level: seq<Entry>)
    requires level != []
    ensures LevelOrder(d, level) == Lines(d, level) + LevelOrder(d, NextLevel(level))
  {
    NextLevelIsLighter(level);
  }

  lemma LineAt(d: Describe, level: seq<Entry>, i: nat)
    requires i < |level|
    ensures |LevelOrder(d, level)| >= |level|
    ensures LevelOrder(d, level)[i] == Line(level[i].prefix + level[i].node.name, d(level[i].node))
  {
    hide LevelOrder;
    LevelFirst(d, level);
  }

  lemma SecondLevel(d: Describe, root: Node)
    ensures LevelOrder(d, [Entry(root, "")])
      == [Line(root.name, d(root))] + LevelOrder(d, EntriesOf(root.children, root.name + "."))
  {
    hide LevelOrder;
    var level := [Entry(root, "")];
    LevelFirst(d, level);
    assert level[1..] == [] && "" + root.name == root.name;
    assert NextLevel(level) == EntriesOf(root.children, root.name + ".");
    assert Lines(d, level) == [Line(root.name, d(root))];
  }

  /** The list begins with the root and its children from left to right, then come their children. */
  lemma RootAndChildren(d: Describe, root: Node, i: nat)
    requires i < |root.children|
    ensures var lines, kids := LevelOrder(d, [Entry(root, "")]), root.children;
      && |lines| > |kids| && lines[0] == Line(root.name, d(root))
      && lines[i + 1] == Line(root.name + "." + kids[i].name, d(kids[i]))
    ensures var lines, kids := LevelOrder(d, [Entry(root, "")]), root.children;
      kids[i].children != [] && (forall j | 0 <= j < i :: kids[j].children == []) ==>
        && |lines| > 1 + |kids|
        && lines[1 + |kids|] ==
             Line(root.name + "." + kids[i].name + "." + kids[i].children[0].name, d(kids[i].children[0]))
  {
    hide LevelOrder, NextLevel;
    SecondLevel(d, root);
    var kids := root.children;
    var second := EntriesOf(kids, root.name + ".");
    LineAt(d, second, i);
    if kids[i].children != [] && forall j | 0 <= j < i :: kids[j].children == [] {
      FirstOfNext(second, i);
      LevelFirst(d, second);
      LineAt(d, NextLevel(second), 0);
    }
  }

  lemma {:induction false} FirstOfNext(level: seq<Entry>, i: nat)
    requires i < |level| && level[i].node.children != [] && forall j | 0 <= j < i :: level[j].node.children == []
    ensures NextLevel(level) != []
    ensures NextLevel(level)[0] == Entry(level[i].node.children[0], level[i].prefix + level[i].node.name + ".")
    decreases i
  {
    if i > 0 {
      FirstOfNext(level[1..], i - 1);
    }
  }

  lemma {:induction false} PathIsListed(d: Describe, e: Entry, path: seq<nat>, siblings: seq<Entry>)
    requires IsPath(e.node, path) && e in siblings
    ensures Line(e.prefix + Dotted(e.node, path), d(NodeAt(e.node, path))) in PreOrder(d, siblings)
    decreases |path|, |siblings|
  {
    hide Weight;
    KidsAreLighter(siblings);
    if e != siblings[0] {
      PathIsListed(d, e, path, siblings[1..]);
    } else if path != [] {
      var kid := Kids(e)[path[0]];
      PathIsListed(d, kid, path[1..], Kids(e));
      assert kid.prefix + Dotted(kid.node, path[1..]) == e.prefix + Dotted(e.node, path);
    }
  }

  /** Every node is shown under its dotted ancestor path. */
  lemma EveryPathIsShown(d: Describe, root: Node, path: seq<nat>)
    requires IsPath(root, path)
    ensures Line(Dotted(root, path), d(NodeAt(root, path))) in LevelOrder(d, [Entry(root, "")])
  {
    var e := Entry(root, "");
    PathIsListed(d, e, path, [e]);
    EveryNodeOnce(d, [e]);
    assert "" + Dotted(root, path) == Dotted(root, path);
    assert Line(Dotted(root, path), d(NodeAt(root, path))) in multiset(LevelOrder(d, [e]));
  }
}
