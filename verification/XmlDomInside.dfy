// Edits inside a larger tree of nodes: an operation on the children of one
// node leaves the whole tree around it well formed.
module XmlDomInside {
  import opened XmlDom

  /** A path from the root of a shape down to one of the shapes inside. */
  ghost predicate Leads(s: Shape, path: seq<nat>)
    decreases path
  {
    path == [] || (path[0] < |s.subs| && Leads(s.subs[path[0]], path[1..]))
  }

  ghost function At(s: Shape, path: seq<nat>): Shape
    requires Leads(s, path)
    decreases path
  {
    if path == [] then s else At(s.subs[path[0]], path[1..])
  }

  /** The shape with another one at the end of the path. */
  ghost function Put(s: Shape, path: seq<nat>, t: Shape): Shape
    requires Leads(s, path)
    decreases path
  {
    if path == [] then t
    else Shape(s.node, s.subs[..path[0]] + [Put(s.subs[path[0]], path[1..], t)] + s.subs[path[0] + 1..])
  }

  /** The nodes around the end of a path whose links to their own children matter. */
  ghost function Tops(s: Shape, path: seq<nat>): set<TiXmlNode>
    requires Leads(s, path)
    decreases path
  {
    if path == [] then {}
    else {s.node} + AllNodes(s.subs[..path[0]]) + AllNodes(s.subs[path[0] + 1..]) + Tops(s.subs[path[0]], path[1..])
  }

  ghost function RootSet(subs: seq<Shape>): set<TiXmlNode> {
    set k | k in Roots(subs)
  }

  /** The nodes around the end of a path, and at it, whose links to their neighbours matter. */
  ghost function Members(s: Shape, path: seq<nat>): set<TiXmlNode>
    requires Leads(s, path)
    decreases path
  {
    if path == [] then {}
    else RootSet(s.subs) + Below(s.subs[..path[0]]) + Below(s.subs[path[0] + 1..]) + Members(s.subs[path[0]], path[1..])
  }

  /** All links are right, except perhaps inside the shape at the end of the path. */
  ghost predicate Around(s: Shape, path: seq<nat>)
    requires Leads(s, path)
    reads Tops(s, path)`firstChild, Tops(s, path)`lastChild
    reads Members(s, path)`parent, Members(s, path)`prev, Members(s, path)`next
    decreases path
  {
    path == [] ||
    (&& Links(s.node, Roots(s.subs))
     && AllLinked(s.subs[..path[0]]) && AllLinked(s.subs[path[0] + 1..])
     && Around(s.subs[path[0]], path[1..]))
  }

  lemma SplitAt(subs: seq<Shape>, i: nat)
    requires i < |subs|
    ensures subs == subs[..i] + [subs[i]] + subs[i + 1..]
  {}

  /** The links of a tree are those around a shape inside and those of that shape. */
  lemma {:induction false} LinkedByParts(s: Shape, path: seq<nat>)
    requires Leads(s, path)
    ensures Linked(s) <==> Around(s, path) && Linked(At(s, path))
    decreases path
  {
    hide Linked, AllLinked, Links;
    if path != [] {
      var i := path[0];
      LinkedByParts(s.subs[i], path[1..]);
      SplitAt(s.subs, i);
      AllLinkedInsert(s.subs[..i], s.subs[i], s.subs[i + 1..]);
      if Linked(s) {
        TakeApart(s);
      }
      if Links(s.node, Roots(s.subs)) && AllLinked(s.subs) {
        Assemble(s);
      }
    }
  }

  lemma RootsOfPut(s: Shape, i: nat, t: Shape)
    requires i < |s.subs| && t.node == s.subs[i].node
    ensures Roots(s.subs[..i] + [t] + s.subs[i + 1..]) == Roots(s.subs)
  {}

  /** What stands around the end of a path does not depend on what stands there, apart from its node. */
  lemma {:induction false} AroundPut(s: Shape, path: seq<nat>, t: Shape)
    requires Leads(s, path) && t.node == At(s, path).node
    ensures Leads(Put(s, path, t), path) && At(Put(s, path, t), path) == t && Put(s, path, t).node == s.node
    ensures Around(Put(s, path, t), path) <==> Around(s, path)
    decreases path
  {
    hide Links, AllLinked, Roots;
    if path != [] {
      var i := path[0];
      var sub := Put(s.subs[i], path[1..], t);
      AroundPut(s.subs[i], path[1..], t);
      RootsOfPut(s, i, sub);
      var u := Put(s, path, t);
      assert u.subs[i] == sub && u.subs[..i] == s.subs[..i] && u.subs[i + 1..] == s.subs[i + 1..];
    }
  }

  lemma NodesSplit(subs: seq<Shape>, i: nat)
    requires i < |subs|
    ensures AllNodes(subs) == AllNodes(subs[..i]) + Nodes(subs[i]) + AllNodes(subs[i + 1..])
    ensures AllProper(subs) ==>
              && AllProper(subs[..i]) && AllProper(subs[i + 1..]) && Proper(subs[i])
              && AllNodes(subs[..i]) !! Nodes(subs[i]) !! AllNodes(subs[i + 1..])
  {
    var a, m, b := subs[..i], [subs[i]], subs[i + 1..];
    SplitAt(subs, i);
    ConcatNodes(a + m, b);
    ConcatNodes(a, m);
    ConcatProper(a + m, b);
    ConcatProper(a, m);
    OneShape(subs[i]);
  }

  lemma NodesJoin(a: seq<Shape>, t: Shape, b: seq<Shape>)
    ensures AllNodes(a + [t] + b) == AllNodes(a) + Nodes(t) + AllNodes(b)
    ensures AllProper(a) && Proper(t) && AllProper(b) && AllNodes(a) !! Nodes(t) !! AllNodes(b) ==>
              AllProper(a + [t] + b)
  {
    ConcatNodes(a + [t], b);
    ConcatNodes(a, [t]);
    ConcatProper(a + [t], b);
    ConcatProper(a, [t]);
    OneShape(t);
  }

  /** Putting a shape made of old and new nodes at the end of a path keeps the tree proper. */
  lemma {:induction false} ProperPut(s: Shape, path: seq<nat>, t: Shape, news: set<TiXmlNode>)
    requires Leads(s, path) && Proper(s) && Proper(t) && t.node == At(s, path).node
    requires Nodes(t) <= Nodes(At(s, path)) + news && news !! Nodes(s)
    ensures Proper(Put(s, path, t)) && Nodes(Put(s, path, t)) <= Nodes(s) + news
    ensures path != [] ==> AllNodes(Put(s, path, t).subs) <= AllNodes(s.subs) + news
    decreases path
  {
    hide AllProper, AllNodes;
    if path != [] {
      var i := path[0];
      var sub := Put(s.subs[i], path[1..], t);
      NodesSplit(s.subs, i);
      ProperPut(s.subs[i], path[1..], t, news);
      NodesJoin(s.subs[..i], sub, s.subs[i + 1..]);
    }
  }

  lemma {:induction false} BelowConcat(a: seq<Shape>, b: seq<Shape>)
    ensures Below(a + b) == Below(a) + Below(b)
  {
    if a == [] {
      assert a + b == b;
    } else {
      assert (a + b)[1..] == a[1..] + b;
      BelowConcat(a[1..], b);
    }
  }

  lemma BelowSplit(subs: seq<Shape>, i: nat)
    requires i < |subs|
    ensures Below(subs) == Below(subs[..i]) + AllNodes(subs[i].subs) + Below(subs[i + 1..])
  {
    SplitAt(subs, i);
    BelowConcat(subs[..i] + [subs[i]], subs[i + 1..]);
    BelowConcat(subs[..i], [subs[i]]);
    assert [subs[i]][1..] == [];
  }

  lemma {:induction false} BelowInside(subs: seq<Shape>)
    ensures Below(subs) <= AllNodes(subs)
  {
    if subs != [] {
      BelowInside(subs[1..]);
    }
  }

  lemma RootSetApart(s: Shape)
    requires Proper(s)
    ensures RootSet(s.subs) !! Below(s.subs) && RootSet(s.subs) <= AllNodes(s.subs)
    ensures s.node !in AllNodes(s.subs)
  {
    hide Roots, Below, AllNodes;
    TopsApart(s);
  }

  /** What is around the end of a path is apart from what is inside. */
  lemma {:induction false} AroundApart(s: Shape, path: seq<nat>)
    requires Leads(s, path) && Proper(s)
    ensures Tops(s, path) !! Nodes(At(s, path)) && Members(s, path) !! AllNodes(At(s, path).subs)
    ensures Nodes(At(s, path)) <= Nodes(s) && AllNodes(At(s, path).subs) <= AllNodes(s.subs)
    ensures Tops(s, path) <= Nodes(s) && Members(s, path) <= AllNodes(s.subs)
    ensures Proper(At(s, path))
    decreases path
  {
    hide AllProper, AllNodes, Below, RootSet;
    if path != [] {
      var i := path[0];
      var sub := s.subs[i];
      NodesSplit(s.subs, i);
      AroundApart(sub, path[1..]);
      RootSetApart(s);
      BelowSplit(s.subs, i);
      BelowInside(s.subs[..i]);
      BelowInside(s.subs[i + 1..]);
    }
  }

  /** After the edit, the nodes below the root are old ones or nodes below the new shape. */
  lemma {:induction false} PutInside(s: Shape, path: seq<nat>, t: Shape)
    requires Leads(s, path) && t.node == At(s, path).node
    ensures Nodes(Put(s, path, t)) <= Nodes(s) + AllNodes(t.subs)
    ensures AllNodes(Put(s, path, t).subs) <= AllNodes(s.subs) + AllNodes(t.subs)
    decreases path
  {
    hide AllNodes;
    if path != [] {
      var i := path[0];
      var sub := Put(s.subs[i], path[1..], t);
      NodesSplit(s.subs, i);
      PutInside(s.subs[i], path[1..], t);
      NodesJoin(s.subs[..i], sub, s.subs[i + 1..]);
    }
  }

  /** A tree inside a well-formed tree is well formed, and so is everything around it. */
  lemma EnterInside(s: Shape, path: seq<nat>)
    requires Leads(s, path) && Sound(s)
    ensures Around(s, path) && Sound(At(s, path))
    ensures Tops(s, path) !! Nodes(At(s, path)) && Members(s, path) !! AllNodes(At(s, path).subs)
    ensures Tops(s, path) <= Nodes(s) && Members(s, path) <= Nodes(s) && Nodes(At(s, path)) <= Nodes(s)
  {
    hide Around, Linked, Proper, AllNodes, Tops, Members, At, Leads;
    LinkedByParts(s, path);
    AroundApart(s, path);
  }

  /** A well-formed tree in the place of an old one, of its nodes and new ones, makes the whole well formed. */
  lemma LeaveInside(s: Shape, path: seq<nat>, t: Shape, news: set<TiXmlNode>)
    requires Leads(s, path) && Proper(s) && Around(s, path) && Sound(t) && t.node == At(s, path).node
    requires Nodes(t) <= Nodes(At(s, path)) + news && news !! Nodes(s)
    requires forall n :: n in AllNodes(s.subs) ==> !n.data.DocumentData?
    ensures Sound(Put(s, path, t))
  {
    hide Around, Linked, Proper, Nodes, AllNodes, At, Leads, Put;
    AroundPut(s, path, t);
    ProperPut(s, path, t, news);
    PutInside(s, path, t);
    LinkedByParts(Put(s, path, t), path);
  }

  lemma {:induction false} PutBack(s: Shape, path: seq<nat>)
    requires Leads(s, path)
    ensures Put(s, path, At(s, path)) == s
    decreases path
  {
    if path != [] {
      PutBack(s.subs[path[0]], path[1..]);
      SplitAt(s.subs, path[0]);
    }
  }

  /** The same, after an operation that refused. */
  lemma StayInside(s: Shape, path: seq<nat>)
    requires Leads(s, path) && Proper(s) && Around(s, path) && Sound(At(s, path))
    requires forall n :: n in AllNodes(s.subs) ==> !n.data.DocumentData?
    ensures Sound(s)
  {
    hide Around, Proper, Nodes, AllNodes, At, Leads, Put, Sound;
    LeaveInside(s, path, At(s, path), {});
    PutBack(s, path);
  }

  lemma InsertNodes(u: Shape, i: nat, t: Shape)
    requires i <= |u.subs|
    ensures Nodes(Shape(u.node, u.subs[..i] + [t] + u.subs[i..])) <= Nodes(u) + Nodes(t)
  {
    hide AllNodes;
    ConcatNodes(u.subs[..i], u.subs[i..]);
    assert u.subs[..i] + u.subs[i..] == u.subs;
    NodesJoin(u.subs[..i], t, u.subs[i..]);
  }

  lemma ReplaceNodes(u: Shape, i: nat, t: Shape)
    requires i < |u.subs|
    ensures Nodes(Shape(u.node, u.subs[..i] + [t] + u.subs[i + 1..])) <= Nodes(u) + Nodes(t)
  {
    hide AllNodes;
    NodesSplit(u.subs, i);
    NodesJoin(u.subs[..i], t, u.subs[i + 1..]);
  }

  lemma RemoveNodes(u: Shape, i: nat)
    requires i < |u.subs|
    ensures Nodes(Shape(u.node, u.subs[..i] + u.subs[i + 1..])) <= Nodes(u)
  {
    hide AllNodes;
    NodesSplit(u.subs, i);
    ConcatNodes(u.subs[..i], u.subs[i + 1..]);
  }

  /** LinkEndChild on any node of a tree: the whole tree stays well formed, with the other tree at that node. */
  method LinkEndChildInside(n: TiXmlNode, node: TiXmlNode, ghost s: Shape, ghost path: seq<nat>, ghost t: Shape,
      ghost up: seq<TiXmlNode>)
    returns (r: TiXmlNode?)
    requires Leads(s, path) && At(s, path).node == n && Sound(s)
    requires t.node == node && Sound(t) && Nodes(s) !! Nodes(t)
    requires node.data.DocumentData? ==> Ancestry(n, up)
    modifies n`firstChild, n`lastChild, node`parent, node`prev, node`next, AllNodes(At(s, path).subs)`next, up`data
    ensures forall k :: k in up ==>
              k.data == if old(node.data.DocumentData?) then old(Refused(k, up)) else old(k.data)
    ensures old(node.data.DocumentData?) ==> r == null && Sound(s) && Sound(t)
    ensures old(!node.data.DocumentData?) ==> r == node && Sound(Put(s, path, Shape(n, At(s, path).subs + [t])))
  {
    hide Nodes, AllNodes, Proper, AllProper, Roots, Links, Linked, Around, Tops, Members, At, Leads, Put, TreeOf,
         Copied;
    ghost var u := At(s, path);
    assert allocated(Nodes(s)) && allocated(AllNodes(s.subs));
    assert allocated(Tops(s, path)) && allocated(Members(s, path));
    assert allocated(AllNodes(u.subs)) && allocated(Nodes(u));
    EnterInside(s, path);
    RootsInside(u);
    assert allocated(Nodes(t)) && allocated(AllNodes(t.subs));
    RootsInside(t);
    r := n.LinkEndChild(node, u, t, up);
    if r == null {
      StayInside(s, path);
    } else {
      LeaveInside(s, path, Shape(n, u.subs + [t]), Nodes(t));
    }
  }

  /** InsertBeforeChild on any node of a tree. */
  method InsertBeforeChildInside(n: TiXmlNode, beforeThis: TiXmlNode?, addThis: TiXmlNode, ghost s: Shape,
      ghost path: seq<nat>, ghost i: nat, ghost add: Shape, ghost up: seq<TiXmlNode>)
    returns (r: TiXmlNode?, ghost t: Shape)
    requires Leads(s, path) && At(s, path).node == n && Sound(s) && add.node == addThis && Sound(add)
    requires beforeThis != null && beforeThis.parent == n ==>
               i < |At(s, path).subs| && At(s, path).subs[i].node == beforeThis
    requires addThis.data.DocumentData? ==> Ancestry(n, up)
    modifies n`firstChild, AllNodes(At(s, path).subs)`next, AllNodes(At(s, path).subs)`prev, up`data
    ensures forall k :: k in up ==>
              k.data == if old(beforeThis != null && beforeThis.parent == n && addThis.data.DocumentData?)
                        then old(Refused(k, up)) else old(k.data)
    ensures r == null <==> beforeThis == null || old(beforeThis.parent) != n || old(addThis.data.DocumentData?)
    ensures r == null ==> Sound(s)
    ensures r != null ==> t.node == r && fresh(Nodes(t)) && TreeOf(t) == Copied(old(TreeOf(add)))
    ensures r != null ==> Sound(Put(s, path, Shape(n, At(s, path).subs[..i] + [t] + At(s, path).subs[i..])))
  {
    hide Nodes, AllNodes, Proper, AllProper, Roots, Links, Linked, Around, Tops, Members, At, Leads, Put, TreeOf,
         Copied;
    ghost var u := At(s, path);
    assert allocated(Nodes(s)) && allocated(AllNodes(s.subs));
    assert allocated(Tops(s, path)) && allocated(Members(s, path));
    assert allocated(AllNodes(u.subs)) && allocated(Nodes(u));
    EnterInside(s, path);
    RootsInside(u);
    r, t := n.InsertBeforeChild(beforeThis, addThis, u, i, add, up);
    if r == null {
      StayInside(s, path);
    } else {
      InsertNodes(u, i, t);
      LeaveInside(s, path, Shape(n, u.subs[..i] + [t] + u.subs[i..]), Nodes(t));
    }
  }

  /** InsertAfterChild on any node of a tree. */
  method InsertAfterChildInside(n: TiXmlNode, afterThis: TiXmlNode?, addThis: TiXmlNode, ghost s: Shape,
      ghost path: seq<nat>, ghost i: nat, ghost add: Shape, ghost up: seq<TiXmlNode>)
    returns (r: TiXmlNode?, ghost t: Shape)
    requires Leads(s, path) && At(s, path).node == n && Sound(s) && add.node == addThis && Sound(add)
    requires afterThis != null && afterThis.parent == n ==>
               i < |At(s, path).subs| && At(s, path).subs[i].node == afterThis
    requires addThis.data.DocumentData? ==> Ancestry(n, up)
    modifies n`lastChild, AllNodes(At(s, path).subs)`next, AllNodes(At(s, path).subs)`prev, up`data
    ensures forall k :: k in up ==>
              k.data == if old(afterThis != null && afterThis.parent == n && addThis.data.DocumentData?)
                        then old(Refused(k, up)) else old(k.data)
    ensures r == null <==> afterThis == null || old(afterThis.parent) != n || old(addThis.data.DocumentData?)
    ensures r == null ==> Sound(s)
    ensures r != null ==> t.node == r && fresh(Nodes(t)) && TreeOf(t) == Copied(old(TreeOf(add)))
    ensures r != null ==> Sound(Put(s, path, Shape(n, At(s, path).subs[..i + 1] + [t] + At(s, path).subs[i + 1..])))
  {
    hide Nodes, AllNodes, Proper, AllProper, Roots, Links, Linked, Around, Tops, Members, At, Leads, Put, TreeOf,
         Copied;
    ghost var u := At(s, path);
    assert allocated(Nodes(s)) && allocated(AllNodes(s.subs));
    assert allocated(Tops(s, path)) && allocated(Members(s, path));
    assert allocated(AllNodes(u.subs)) && allocated(Nodes(u));
    EnterInside(s, path);
    RootsInside(u);
    r, t := n.InsertAfterChild(afterThis, addThis, u, i, add, up);
    if r == null {
      StayInside(s, path);
    } else {
      InsertNodes(u, i + 1, t);
      LeaveInside(s, path, Shape(n, u.subs[..i + 1] + [t] + u.subs[i + 1..]), Nodes(t));
    }
  }

  /** ReplaceChild on any node of a tree. */
  method ReplaceChildInside(n: TiXmlNode, replaceThis: TiXmlNode?, addThis: TiXmlNode, ghost s: Shape,
      ghost path: seq<nat>, ghost i: nat, ghost add: Shape, ghost up: seq<TiXmlNode>)
    returns (r: TiXmlNode?, ghost t: Shape)
    requires Leads(s, path) && At(s, path).node == n && Sound(s) && add.node == addThis && Sound(add)
    requires replaceThis != null && replaceThis.parent == n ==>
               i < |At(s, path).subs| && At(s, path).subs[i].node == replaceThis
    requires addThis.data.DocumentData? ==> Ancestry(n, up)
    modifies n`firstChild, n`lastChild, AllNodes(At(s, path).subs)`next, AllNodes(At(s, path).subs)`prev, up`data
    ensures forall k :: k in up ==>
              k.data == if old(replaceThis != null && replaceThis.parent == n && addThis.data.DocumentData?)
                        then old(Refused(k, up)) else old(k.data)
    ensures r == null <==> replaceThis == null || old(replaceThis.parent) != n || old(addThis.data.DocumentData?)
    ensures r == null ==> Sound(s)
    ensures r != null ==> t.node == r && fresh(Nodes(t)) && TreeOf(t) == Copied(old(TreeOf(add)))
    ensures r != null ==> Sound(Put(s, path, Shape(n, At(s, path).subs[..i] + [t] + At(s, path).subs[i + 1..])))
  {
    hide Nodes, AllNodes, Proper, AllProper, Roots, Links, Linked, Around, Tops, Members, At, Leads, Put, TreeOf,
         Copied;
    ghost var u := At(s, path);
    assert allocated(Nodes(s)) && allocated(AllNodes(s.subs));
    assert allocated(Tops(s, path)) && allocated(Members(s, path));
    assert allocated(AllNodes(u.subs)) && allocated(Nodes(u));
    EnterInside(s, path);
    RootsInside(u);
    r, t := n.ReplaceChild(replaceThis, addThis, u, i, add, up);
    if r == null {
      StayInside(s, path);
    } else {
      ReplaceNodes(u, i, t);
      LeaveInside(s, path, Shape(n, u.subs[..i] + [t] + u.subs[i + 1..]), Nodes(t));
    }
  }

  /** RemoveChild on any node of a tree. */
  method RemoveChildInside(n: TiXmlNode, removeThis: TiXmlNode?, ghost s: Shape, ghost path: seq<nat>, ghost i: nat)
    returns (r: bool)
    requires Leads(s, path) && At(s, path).node == n && Sound(s)
    requires removeThis != null && removeThis.parent == n ==>
               i < |At(s, path).subs| && At(s, path).subs[i].node == removeThis
    modifies n`firstChild, n`lastChild, AllNodes(At(s, path).subs)`next, AllNodes(At(s, path).subs)`prev
    ensures r <==> removeThis != null && old(removeThis.parent) == n
    ensures !r ==> Sound(s)
    ensures r ==> Sound(Put(s, path, Shape(n, At(s, path).subs[..i] + At(s, path).subs[i + 1..])))
  {
    hide Nodes, AllNodes, Proper, AllProper, Roots, Links, Linked, Around, Tops, Members, At, Leads, Put, TreeOf,
         Copied;
    ghost var u := At(s, path);
    assert allocated(Nodes(s)) && allocated(AllNodes(s.subs));
    assert allocated(Tops(s, path)) && allocated(Members(s, path));
    assert allocated(AllNodes(u.subs)) && allocated(Nodes(u));
    EnterInside(s, path);
    RootsInside(u);
    r := n.RemoveChild(removeThis, u, i);
    if !r {
      StayInside(s, path);
    } else {
      RemoveNodes(u, i);
      LeaveInside(s, path, Shape(n, u.subs[..i] + u.subs[i + 1..]), {});
    }
  }

  /** Clear on any node of a tree. */
  method ClearInside(n: TiXmlNode, ghost s: Shape, ghost path: seq<nat>)
    requires Leads(s, path) && At(s, path).node == n && Sound(s)
    modifies n`firstChild, n`lastChild
    ensures Sound(Put(s, path, Shape(n, [])))
  {
    hide Nodes, AllNodes, Proper, AllProper, Roots, Links, Linked, Around, Tops, Members, At, Leads, Put, TreeOf,
         Copied;
    ghost var u := At(s, path);
    assert allocated(Nodes(s)) && allocated(AllNodes(s.subs));
    assert allocated(Tops(s, path)) && allocated(Members(s, path));
    assert allocated(AllNodes(u.subs)) && allocated(Nodes(u));
    EnterInside(s, path);
    RootsInside(u);
    n.Clear(u);
    NodesOfSingle(Shape(n, []));
    LeaveInside(s, path, Shape(n, []), {});
  }
}
