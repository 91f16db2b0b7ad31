/** The tree of log categories that the generator builds from dotted paths. */
module CategoryTrees {
  import opened Strings

  type Path = seq<string>

  /** `category_node`. */
  class Node {
    var name: string
    var comment: string
    var children: seq<Node>
    var parent: Node?

    constructor (name: string, parent: Node?)
      ensures this.name == name && this.parent == parent && children == [] && comment == ""
    {
      this.name, this.parent, children, comment := name, parent, [], "";
    }
  }

  function Front(p: Path): Path
    requires p != []
  {
    p[..|p| - 1]
  }

  function Last(p: Path): string
    requires p != []
  {
    p[|p| - 1]
  }

  // ---------------------------------------------------------------------------------------
  // The shape of a tree: the node of every path, and the names of its children in their order
  // ---------------------------------------------------------------------------------------

  ghost predicate Distinct(names: seq<string>) {
    forall j, k :: 0 <= j < k < |names| ==> names[j] != names[k]
  }

  /** The children of a path are the paths that are longer by one name. */
  ghost predicate Complete(nodes: map<Path, Node>, p: Path, names: seq<string>) {
    && Distinct(names)
    && (forall part :: p + [part] in nodes <==> part in names)
  }

  ghost predicate Shape(nodes: map<Path, Node>, kids: map<Path, seq<string>>) {
    && [] in nodes && kids.Keys == nodes.Keys
    && (forall p :: p in nodes ==> AreNames(p) && (p != [] ==> Front(p) in nodes))
    && (forall p :: p in nodes ==> Complete(nodes, p, kids[p]))
    && (forall p, q :: p in nodes && q in nodes && nodes[p] == nodes[q] ==> p == q)
  }

  lemma ShapeGrows(nodes: map<Path, Node>, kids: map<Path, seq<string>>, p: Path, part: string, child: Node)
    requires Shape(nodes, kids) && p in nodes && p + [part] !in nodes && child !in nodes.Values && IsName(part)
    ensures Shape(nodes[p + [part] := child], kids[p := kids[p] + [part]][p + [part] := []])
  {
    var q := p + [part];
    var nodes', kids' := nodes[q := child], kids[p := kids[p] + [part]][q := []];
    assert Front(q) == p && Last(q) == part;
    assert AreNames(q) by { assert AreNames(p); }
    forall x | x in nodes' ensures Complete(nodes', x, kids'[x]) {
      if x == q {
        forall other ensures q + [other] !in nodes' {
          assert Front(q + [other]) == q;
        }
      } else {
        assert Complete(nodes, x, kids[x]);
        CompleteGrows(nodes, p, part, child, x, kids[x]);
      }
    }
  }

  lemma CompleteGrows(nodes: map<Path, Node>, p: Path, part: string, child: Node, x: Path, names: seq<string>)
    requires Complete(nodes, x, names) && p + [part] !in nodes
    ensures Complete(nodes[p + [part] := child], x, if x == p then names + [part] else names)
  {
    var q := p + [part];
    forall other ensures x + [other] == q <==> x == p && other == part {
      assert Front(q) == p && Last(q) == part;
      assert Front(x + [other]) == x && Last(x + [other]) == other;
    }
    if x == p {
      assert part !in names;
      forall other ensures x + [other] in nodes[q := child] <==> other in names + [part] {}
    }
  }

  /** The fields that the node of a path must have. */
  ghost predicate Fields(nodes: map<Path, Node>, kids: map<Path, seq<string>>, p: Path, name: string, parent: Node?,
                         children: seq<Node>) {
    && name == (if p == [] then "" else Last(p))
    && (if p == [] then parent == null else Front(p) in nodes && parent == nodes[Front(p)])
    && p in kids && |children| == |kids[p]|
    && forall k :: 0 <= k < |kids[p]| ==> p + [kids[p][k]] in nodes && children[k] == nodes[p + [kids[p][k]]]
  }

  /** The fields of the other nodes stay right when a node is added. */
  lemma FieldsStay(nodes: map<Path, Node>, kids: map<Path, seq<string>>, p: Path, part: string, child: Node,
                   x: Path, name: string, parent: Node?, children: seq<Node>)
    requires p in kids && p + [part] !in nodes && x != p + [part] && Fields(nodes, kids, x, name, parent, children)
    ensures var nodes', kids' := nodes[p + [part] := child], kids[p := kids[p] + [part]][p + [part] := []];
            Fields(nodes', kids', x, name, parent, if x == p then children + [child] else children)
  {
  }

  lemma FieldsOfNew(nodes: map<Path, Node>, kids: map<Path, seq<string>>, p: Path, part: string, child: Node)
    requires p in kids && p in nodes && p + [part] !in nodes
    ensures var nodes', kids' := nodes[p + [part] := child], kids[p := kids[p] + [part]][p + [part] := []];
            Fields(nodes', kids', p + [part], part, nodes[p], [])
  {
    assert Front(p + [part]) == p && Last(p + [part]) == part;
  }

  ghost predicate Extends(nodes: map<Path, Node>, nodes': map<Path, Node>) {
    forall p :: p in nodes ==> p in nodes' && nodes'[p] == nodes[p]
  }

  lemma ExtendsSame(nodes: map<Path, Node>)
    ensures Extends(nodes, nodes)
  {
  }

  lemma ExtendsMore(nodes0: map<Path, Node>, nodes: map<Path, Node>, nodes': map<Path, Node>, q: Path, child: Node)
    requires Extends(nodes0, nodes) && nodes' == if q in nodes then nodes else nodes[q := child]
    ensures Extends(nodes0, nodes') && nodes'.Keys == nodes.Keys + {q}
    ensures q in nodes0 ==> nodes' == nodes
  {
  }

  lemma OneOfNames(names: seq<string>, i: nat)
    requires AreNames(names) && i < |names|
    ensures IsName(names[i])
  {
  }

  /** The paths from one path to another one below it. */
  function Ways(at: Path, names: seq<string>): set<Path> {
    set k | 0 <= k <= |names| :: at + names[..k]
  }

  lemma NoWay(at: Path, names: seq<string>)
    ensures at + names[..0] == at && Ways(at, names[..0]) == {at}
  {
    var none := names[..0];
    assert forall k :: 0 <= k <= |none| ==> at + none[..k] == at;
    assert at + none[..0] in Ways(at, none);
  }

  lemma WayStep(at: Path, names: seq<string>, i: nat)
    requires i < |names|
    ensures Ways(at, names[..i + 1]) == Ways(at, names[..i]) + {at + names[..i + 1]}
    ensures (at + names[..i]) + [names[i]] == at + names[..i + 1]
  {
    var more, fewer := names[..i + 1], names[..i];
    assert forall k :: 0 <= k <= i ==> more[..k] == fewer[..k];
    assert more[..i + 1] == more;
  }

  /** Trees contain the paths on the way. */
  lemma ParentThere(nodes: map<Path, Node>, kids: map<Path, seq<string>>, p: Path, part: string)
    requires Shape(nodes, kids)
    ensures p + [part] in nodes ==> p in nodes
  {
    assert Front(p + [part]) == p;
  }

  /** A tree: its root, and its shape. */
  class Tree {
    const root: Node
    ghost var nodes: map<Path, Node>
    ghost var kids: map<Path, seq<string>>

    ghost predicate NodeOk(p: Path)
      reads this, nodes.Values
      requires p in nodes
    {
      Fields(nodes, kids, p, nodes[p].name, nodes[p].parent, nodes[p].children)
    }

    ghost predicate Valid()
      reads this, nodes.Values
    {
      && Shape(nodes, kids)
      && nodes[[]] == root
      && forall p :: p in nodes ==> NodeOk(p)
    }

    constructor ()
      ensures Valid() && nodes.Keys == {[]} && fresh(root)
    {
      root := new Node("", null);
      nodes := map[[] := root];
      kids := map[[] := []];
      new;
      OnlyRoot(nodes, kids, root);
    }

    /** The search for a child with a name. */
    method FindChild(target: Node, ghost p: Path, part: string) returns (found: bool, child: Node)
      requires Valid() && p in nodes && nodes[p] == target
      ensures found <==> p + [part] in nodes
      ensures found ==> nodes[p + [part]] == child
    {
      hide Shape, Fields, Complete;
      child := target;
      KidsOf(p);
      for j := 0 to |target.children|
        invariant forall k :: 0 <= k < j ==> kids[p][k] != part
      {
        ChildName(p, j);
        if target.children[j].name == part {
          return true, target.children[j];
        }
      }
      return false, child;
    }

    /** The names of the children. */
    lemma KidsOf(p: Path)
      requires Valid() && p in nodes
      ensures p in kids && |kids[p]| == |nodes[p].children|
      ensures forall part :: p + [part] in nodes <==> exists k :: 0 <= k < |kids[p]| && kids[p][k] == part
    {
      assert NodeOk(p) && Complete(nodes, p, kids[p]);
    }

    lemma ChildName(p: Path, j: nat)
      requires Valid() && p in nodes && j < |nodes[p].children|
      ensures p in kids && j < |kids[p]| && p + [kids[p][j]] in nodes
      ensures nodes[p].children[j] == nodes[p + [kids[p][j]]] && nodes[p].children[j].name == kids[p][j]
    {
      hide Shape;
      assert NodeOk(p);
      assert NodeOk(p + [kids[p][j]]);
      assert Last(p + [kids[p][j]]) == kids[p][j];
    }

    /** A new node becomes the last child of its parent. */
    method AddChild(target: Node, ghost p: Path, part: string) returns (child: Node)
      requires Valid() && p in nodes && nodes[p] == target && p + [part] !in nodes && IsName(part)
      modifies this, target
      ensures Valid() && nodes == old(nodes)[p + [part] := child] && fresh(child)
      ensures target.children == old(target.children) + [child]
      ensures target.name == old(target.name) && target.parent == old(target.parent)
              && target.comment == old(target.comment)
    {
      hide Shape, Fields;
      ghost var q, nodes0, kids0 := p + [part], nodes, kids;
      ShapeFacts(nodes0, kids0, p, part);
      child := new Node(part, target);
      ShapeGrows(nodes0, kids0, p, part, child);
      target.children := target.children + [child];
      nodes, kids := nodes0[q := child], kids0[p := kids0[p] + [part]][q := []];
      forall x | x in nodes ensures NodeOk(x) {
        if x == q {
          FieldsOfNew(nodes0, kids0, p, part, child);
        } else {
          assert old(NodeOk(x));
          FieldsStay(nodes0, kids0, p, part, child, x, old(nodes0[x].name), old(nodes0[x].parent),
                     old(nodes0[x].children));
        }
      }
    }

    /** The body of the loop over the names. */
    method GetOrAddPart(target: Node, ghost p: Path, part: string) returns (child: Node)
      requires Valid() && p in nodes && nodes[p] == target && IsName(part)
      modifies this, target
      ensures Valid() && nodes == (if p + [part] in old(nodes) then old(nodes) else old(nodes)[p + [part] := child])
      ensures p + [part] in nodes && nodes[p + [part]] == child
      ensures p + [part] in old(nodes) ==> target.children == old(target.children)
      ensures p + [part] !in old(nodes) ==> fresh(child)
      ensures target.comment == old(target.comment)
    {
      hide Shape, Fields;
      var found, there := FindChild(target, p, part);
      child := there;
      if !found {
        child := AddChild(target, p, part);
      }
    }

    /** `get_or_add_child_node`: nodes are added for the names that lead to no node yet. */
    method GetOrAddChildNode(start: Node, ghost at: Path, category: string) returns (target: Node)
      requires Valid() && at in nodes && nodes[at] == start
      modifies this, nodes.Values
      ensures Valid() && Extends(old(nodes), nodes)
      ensures nodes.Keys == old(nodes).Keys + Ways(at, Names(category))
      ensures at + Names(category) in nodes && target == nodes[at + Names(category)]
      ensures forall n :: n in nodes.Values ==> n in old(nodes.Values) || fresh(n)
      ensures forall n :: n in old(nodes.Values) ==> n.comment == old(n.comment)
      ensures at + Names(category) in old(nodes) ==>
                nodes == old(nodes) && forall n :: n in old(nodes.Values) ==> n.children == old(n.children)
    {
      hide Shape, Fields, Ways, Extends, AreNames, NodeOk, Pieces, Kept, Names, Front, Last;
      var parts := Split(category, ".", false);
      KeptNames(category);
      NamesAreNames(category);
      target := start;
      NoWay(at, parts);
      ExtendsSame(nodes);
      ghost var p := at;
      for i := 0 to |parts|
        invariant Valid() && Extends(old(nodes), nodes)
        invariant p == at + parts[..i] && p in nodes && target == nodes[p]
        invariant nodes.Keys == old(nodes).Keys + Ways(at, parts[..i])
        invariant forall n :: n in nodes.Values ==> n in old(nodes.Values) || fresh(n)
        invariant forall n :: n in old(nodes.Values) ==> n.comment == old(n.comment)
        invariant p in old(nodes) ==>
                    nodes == old(nodes) && forall n :: n in old(nodes.Values) ==> n.children == old(n.children)
      {
        var part := parts[i];
        WayStep(at, parts, i);
        ParentThere(old(nodes), old(kids), p, part);
        OneOfNames(parts, i);
        ghost var before := nodes;
        target := GetOrAddPart(target, p, part);
        p := p + [part];
        ExtendsMore(old(nodes), before, nodes, p, target);
      }
      assert parts[..|parts|] == parts;
    }

    /** `full_name`. */
    method FullName(node: Node, ghost p: Path) returns (result: string)
      requires Valid() && p in nodes && nodes[p] == node
      ensures result == Join(p, ".")
    {
      hide Shape, Join, Valid, NodeOk, Front, Last;
      NodeParent(p);
      if node.parent == null {
        NoNames();
        return "";
      }
      result := node.name;
      var target := node.parent;
      ghost var q := Front(p);
      OneName(p);
      while target != null
        invariant q in nodes && |q| < |p| && q == p[..|q|]
        invariant target != null ==> target == nodes[q] && result == Join(p[|q|..], ".")
        invariant target == null ==> result == Join(p, ".")
        decreases |q|, target != null
      {
        NodeParent(q);
        NameAbove(p, q);
        if target.name != "" {
          result := target.name + "." + result;
        }
        target := target.parent;
        q := if q == [] then q else Front(q);
      }
    }

    lemma NodeParent(p: Path)
      requires Valid() && p in nodes
      ensures p == [] ==> nodes[p].parent == null && nodes[p].name == ""
      ensures p != [] ==> Front(p) in nodes && nodes[p].parent == nodes[Front(p)] && nodes[p].name == Last(p) != ""
    {
      assert NodeOk(p);
      assert AreNames(p);
    }

    lemma NamesOf(p: Path)
      requires Valid() && p in nodes
      ensures AreNames(p)
    {
    }

    /** `get_all_nodes_count`: the node and all nodes below it. */
    method GetAllNodesCount(node: Node, ghost p: Path) returns (count: nat)
      requires Valid() && p in nodes && nodes[p] == node
      ensures count == |Below(nodes.Keys, p)|
      decreases |Below(nodes.Keys, p)|
    {
      hide Shape, Below, Under;
      count := 1;
      KidsOf(p);
      NoneUnder(nodes.Keys, p);
      for i := 0 to |node.children|
        invariant count == 1 + |Under(nodes.Keys, p, kids[p][..i])|
      {
        ChildName(p, i);
        ghost var c := p + [kids[p][i]];
        Smaller(nodes.Keys, p, kids[p][i]);
        var n := GetAllNodesCount(node.children[i], c);
        UnderStep(nodes, kids, p, i);
        count := count + n;
      }
      assert kids[p][..|kids[p]|] == kids[p];
      AllUnder(nodes, kids, p);
    }

    /** The full name of a node leads back to it, and nothing changes. */
    method FindByFullName(node: Node, ghost p: Path) returns (target: Node)
      requires Valid() && p in nodes && nodes[p] == node
      modifies this, nodes.Values
      ensures target == node && Valid() && nodes == old(nodes)
      ensures forall n :: n in nodes.Values ==> n.children == old(n.children) && n.comment == old(n.comment)
    {
      hide Shape, Fields;
      var name := FullName(node, p);
      NamesOf(p);
      NamesOfJoin(p);
      RootThere();
      assert [] + p == p;
      target := GetOrAddChildNode(root, [], name);
    }

    lemma RootThere()
      requires Valid()
      ensures [] in nodes && nodes[[]] == root
    {
    }

    /** Adds all categories of a configuration. */
    method AddAll(categories: seq<string>)
      requires Valid()
      modifies this, nodes.Values
      ensures Valid() && nodes.Keys == old(nodes).Keys + AllWays(categories)
    {
      hide Shape, Fields, Ways, AllWays, Names, NodeOk;
      NoWays();
      for i := 0 to |categories|
        invariant Valid() && nodes.Keys == old(nodes).Keys + AllWays(categories[..i])
        invariant forall n :: n in nodes.Values ==> n in old(nodes.Values) || fresh(n)
      {
        RootThere();
        var node := GetOrAddChildNode(root, [], categories[i]);
        MoreWays(categories, i);
      }
      assert categories[..|categories|] == categories;
    }
  }

  lemma OnlyRoot(nodes: map<Path, Node>, kids: map<Path, seq<string>>, root: Node)
    requires nodes == map[[] := root] && kids == map[[] := []]
    ensures Shape(nodes, kids)
  {
    forall part: string ensures [] + [part] !in nodes {
      assert |[] + [part]| == 1;
    }
  }

  lemma ShapeFacts(nodes: map<Path, Node>, kids: map<Path, seq<string>>, p: Path, part: string)
    requires Shape(nodes, kids) && p in nodes && p + [part] !in nodes
    ensures kids.Keys == nodes.Keys && [] in nodes && p in kids
    ensures Front(p + [part]) == p && Last(p + [part]) == part && p + [part] != []
    ensures forall x :: x in nodes ==>
              && x != p + [part] && (x != [] ==> Front(x) in nodes)
              && (nodes[x] == nodes[p] ==> x == p)
  {
  }

  // ---------------------------------------------------------------------------------------
  // Full names
  // ---------------------------------------------------------------------------------------

  lemma NoNames()
    ensures Join([], ".") == ""
  {
  }

  lemma OneName(p: Path)
    requires p != []
    ensures Front(p) == p[..|Front(p)|] && |Front(p)| == |p| - 1
    ensures Join(p[|p| - 1..], ".") == Last(p)
  {
    assert p[|p| - 1..] == [Last(p)];
  }

  /** The name of a node goes before the names that are below it. */
  lemma NameAbove(p: Path, q: Path)
    requires |q| < |p| && q == p[..|q|]
    ensures q == [] ==> p[|q|..] == p
    ensures q != [] ==> Front(q) == p[..|Front(q)|] && |Front(q)| == |q| - 1
    ensures q != [] ==> Join(p[|Front(q)|..], ".") == Last(q) + "." + Join(p[|q|..], ".")
  {
    if q != [] {
      var i := |q|;
      assert p[i - 1..][1..] == p[i..] && p[i - 1..][0] == Last(q);
    }
  }

  // ---------------------------------------------------------------------------------------
  // Counting
  // ---------------------------------------------------------------------------------------

  predicate IsPrefix(p: Path, q: Path) {
    |p| <= |q| && q[..|p|] == p
  }

  /** The paths that begin with a path. */
  function Below(keys: set<Path>, p: Path): set<Path> {
    set q | q in keys && IsPrefix(p, q)
  }

  /** Those that go on with one of some names. */
  function Under(keys: set<Path>, p: Path, names: seq<string>): set<Path> {
    set q | q in keys && IsPrefix(p, q) && |q| > |p| && q[|p|] in names
  }

  lemma NoneUnder(keys: set<Path>, p: Path)
    ensures Under(keys, p, []) == {}
  {
  }

  lemma Smaller(keys: set<Path>, p: Path, part: string)
    requires p in keys
    ensures |Below(keys, p + [part])| < |Below(keys, p)|
  {
    var all, some := Below(keys, p), Below(keys, p + [part]);
    forall q | q in some ensures q in all {
      assert q[..|p|] == q[..|p| + 1][..|p|] == p;
    }
    assert p in all && p !in some;
    SubsetSmaller(some, all, p);
  }

  lemma SubsetSmaller(a: set<Path>, b: set<Path>, x: Path)
    requires a <= b && x in b && x !in a
    ensures |a| < |b|
  {
    assert a <= b - {x};
    SubsetSize(a, b - {x});
  }

  lemma {:induction false} SubsetSize(a: set<Path>, b: set<Path>)
    requires a <= b
    ensures |a| <= |b|
  {
    assert b == a + (b - a);
  }

  lemma UnderStep(nodes: map<Path, Node>, kids: map<Path, seq<string>>, p: Path, i: nat)
    requires Shape(nodes, kids) && p in nodes && p in kids && i < |kids[p]|
    ensures |Under(nodes.Keys, p, kids[p][..i + 1])|
         == |Under(nodes.Keys, p, kids[p][..i])| + |Below(nodes.Keys, p + [kids[p][i]])|
  {
    var names, part := kids[p], kids[p][i];
    assert Complete(nodes, p, names);
    var before, after, more := Under(nodes.Keys, p, names[..i]), Under(nodes.Keys, p, names[..i + 1]),
        Below(nodes.Keys, p + [part]);
    assert names[..i + 1] == names[..i] + [part];
    forall q ensures q in after <==> q in before || q in more {
      BelowMeans(p, part, q);
    }
    forall q | q in before ensures q !in more {
      BelowMeans(p, part, q);
    }
    assert after == before + more && before !! more;
  }

  lemma BelowMeans(p: Path, part: string, q: Path)
    ensures IsPrefix(p + [part], q) <==> IsPrefix(p, q) && |q| > |p| && q[|p|] == part
  {
    if |q| > |p| {
      assert q[..|p| + 1] == q[..|p|] + [q[|p|]];
      assert Front(p + [part]) == p && Last(p + [part]) == part;
      assert Front(q[..|p| + 1]) == q[..|p|] && Last(q[..|p| + 1]) == q[|p|];
    }
  }

  lemma AllUnder(nodes: map<Path, Node>, kids: map<Path, seq<string>>, p: Path)
    requires Shape(nodes, kids) && p in nodes && p in kids
    ensures |Below(nodes.Keys, p)| == 1 + |Under(nodes.Keys, p, kids[p])|
  {
    var all, under := Below(nodes.Keys, p), Under(nodes.Keys, p, kids[p]);
    assert Complete(nodes, p, kids[p]);
    forall q ensures q in all <==> q == p || q in under {
      if q in all && q != p {
        assert |q| > |p|;
        PrefixThere(nodes, kids, q, |p| + 1);
        assert q[..|p| + 1] == p + [q[|p|]];
      }
      if q == p {
        assert q[..|p|] == p;
      }
    }
    assert all == {p} + under && p !in under;
  }

  lemma {:induction false} PrefixThere(nodes: map<Path, Node>, kids: map<Path, seq<string>>, q: Path, i: nat)
    requires Shape(nodes, kids) && q in nodes && i <= |q|
    ensures q[..i] in nodes
    decreases |q|
  {
    if i < |q| {
      PrefixThere(nodes, kids, Front(q), i);
      assert Front(q)[..i] == q[..i];
    } else {
      assert q[..i] == q;
    }
  }

  // ---------------------------------------------------------------------------------------
  // The whole tree of a list of categories
  // ---------------------------------------------------------------------------------------

  /** The paths that a list of categories adds. */
  function AllWays(categories: seq<string>): set<Path> {
    if categories == [] then {}
    else AllWays(categories[..|categories| - 1]) + Ways([], Names(categories[|categories| - 1]))
  }

  lemma NoWays()
    ensures AllWays([]) == {}
  {
  }

  lemma MoreWays(categories: seq<string>, i: nat)
    requires i < |categories|
    ensures AllWays(categories[..i + 1]) == AllWays(categories[..i]) + Ways([], Names(categories[i]))
  {
    assert categories[..i + 1][..i] == categories[..i];
  }

  /** They are the prefixes of the categories, whatever their order. */
  lemma {:induction false} AllWaysMeans(categories: seq<string>, p: Path)
    ensures p in AllWays(categories) <==> exists i :: 0 <= i < |categories| && IsPrefix(p, Names(categories[i]))
  {
    if categories != [] {
      var n := |categories| - 1;
      var front, names := categories[..n], Names(categories[n]);
      AllWaysMeans(front, p);
      assert p in Ways([], names) <==> IsPrefix(p, names) by {
        if p in Ways([], names) {
          var k :| 0 <= k <= |names| && p == [] + names[..k];
        }
        if IsPrefix(p, names) {
          assert p == [] + names[..|p|];
        }
      }
      assert forall i :: 0 <= i < n ==> front[i] == categories[i];
    }
  }

  /** A tree for a list of categories: its paths are the empty one and the prefixes of the
      categories, and the count is one more than the number of those that are not empty. */
  method Build(categories: seq<string>) returns (tree: Tree, count: nat)
    ensures fresh(tree) && tree.Valid()
    ensures forall p :: p in tree.nodes <==>
              p == [] || exists i :: 0 <= i < |categories| && IsPrefix(p, Names(categories[i]))
    ensures count == 1 + |tree.nodes.Keys - {[]}|
  {
    hide Shape, Fields;
    tree := new Tree();
    tree.AddAll(categories);
    tree.RootThere();
    count := tree.GetAllNodesCount(tree.root, []);
    EverythingBelow(tree.nodes.Keys);
    forall p
      ensures p in tree.nodes <==>
              p == [] || exists i :: 0 <= i < |categories| && IsPrefix(p, Names(categories[i]))
    {
      AllWaysMeans(categories, p);
    }
  }

  lemma EverythingBelow(keys: set<Path>)
    requires [] in keys
    ensures |Below(keys, [])| == 1 + |keys - {[]}|
  {
    assert Below(keys, []) == keys;
    assert keys == {[]} + (keys - {[]});
  }

  /** Different nodes have different full names. */
  lemma FullNamesDistinct(p: Path, q: Path)
    requires AreNames(p) && AreNames(q) && p != q
    ensures Join(p, ".") != Join(q, ".")
  {
    if Join(p, ".") == Join(q, ".") {
      JoinInjective(p, q);
    }
  }

  lemma ExampleNames()
    ensures Names("A.B") == ["A", "B"] && Names("A.C") == ["A", "C"]
  {
    assert "A" + "." + "B" == "A.B" && "A" + "." + "C" == "A.C";
    assert Join(["A", "B"], ".") == "A.B" by { assert ["A", "B"][1..] == ["B"]; }
    assert Join(["A", "C"], ".") == "A.C" by { assert ["A", "C"][1..] == ["C"]; }
    NamesOfJoin(["A", "B"]);
    NamesOfJoin(["A", "C"]);
  }

  lemma PrefixesOfTwo(p: Path, a: string, b: string)
    ensures IsPrefix(p, [a, b]) <==> p == [] || p == [a] || p == [a, b]
  {
    if |p| == 1 { assert [a, b][..1] == [a]; }
    if |p| == 2 { assert [a, b][..2] == [a, b]; }
  }

  const CATEGORIES: seq<string> := ["A.B", "A.C"]

  lemma ExamplePath(p: Path)
    ensures p == [] || (exists i :: 0 <= i < |CATEGORIES| && IsPrefix(p, Names(CATEGORIES[i])))
       <==> p in {[], ["A"], ["A", "B"], ["A", "C"]}
  {
    ExampleNames();
    hide Names, IsPrefix;
    PrefixesOfTwo(p, "A", "B");
    PrefixesOfTwo(p, "A", "C");
    assert CATEGORIES[0] == "A.B" && CATEGORIES[1] == "A.C";
  }

  /** Two categories that share their first name: the root and three nodes. */
  method BuildExample() returns (tree: Tree, count: nat)
    ensures tree.nodes.Keys == {[], ["A"], ["A", "B"], ["A", "C"]} && count == 4
  {
    hide Names, IsPrefix;
    tree, count := Build(CATEGORIES);
    ghost var keys := tree.nodes.Keys;
    forall p ensures p in keys <==> p in {[], ["A"], ["A", "B"], ["A", "C"]} { ExamplePath(p); }
    Different();
    FourPaths(keys, ["A"], ["A", "B"], ["A", "C"]);
  }

  lemma FourPaths(keys: set<Path>, p: Path, q: Path, r: Path)
    requires (forall x :: x in keys <==> x in {[], p, q, r}) && p != q && p != r && q != r
    requires p != [] && q != [] && r != []
    ensures keys == {[], p, q, r} && |keys - {[]}| == 3
  {
    assert keys - {[]} == {p, q, r};
  }

  lemma Different()
    ensures ["A"] != ["A", "B"] && ["A"] != ["A", "C"] && ["A", "B"] != ["A", "C"]
  {
    assert ["A", "B"][1] == "B" && ["A", "C"][1] == "C" && "B"[0] == 'B' && "C"[0] == 'C';
  }
}
