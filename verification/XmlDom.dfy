// Nodes in memory (tinyxml.cpp): every node points to its parent, its first
// and last child and its neighbours. A ghost shape says which nodes form a
// tree; the operations edit its list of children, and the pointers follow.
module XmlDom {
  import opened Sequences
  import opened XmlParser

  /** What a document carries besides its children: the error recorded, whose number tells its description,
      and two settings. */
  datatype Status =
    Status(error: bool, errorId: nat, errorRow: int, errorColumn: int, tabsize: int, useMicrosoftBOM: bool)

  /** TIXML_ERROR_DOCUMENT_TOP_ONLY. */
  const DOCUMENT_TOP_ONLY: nat := 15

  /** TiXmlDocument::SetError without a place: the first error is kept. */
  function Recorded(status: Status, err: nat): Status {
    if status.error then status
    else status.(error := true, errorId := err, errorRow := -1, errorColumn := -1)
  }

  /** What a node carries, apart from its links. */
  datatype Data =
    | DocumentData(name: string, status: Status)
    | ElementData(name: string, attrs: seq<Attr>)
    | TextData(text: string, cdata: bool)
    | CommentData(text: string)
    | UnknownData(text: string)
    | DeclarationData(version: string, encoding: string, standalone: string)

  /** TiXmlNode::Value. */
  function ValueOf(d: Data): string {
    match d
    case DocumentData(name, _) => name
    case ElementData(name, _) => name
    case TextData(text, _) => text
    case CommentData(text) => text
    case UnknownData(text) => text
    case DeclarationData(_, _, _) => ""
  }

  /** What the user attached to a node, and where in its text the node was read. */
  datatype Origin = Origin(userData: int, row: int, col: int)

  /** The value that a tree of nodes stands for. */
  datatype Tree = Tree(data: Data, origin: Origin, kids: seq<Tree>)

  // ---- Shapes: which nodes form a tree ----

  datatype Shape = Shape(node: TiXmlNode, subs: seq<Shape>)

  ghost function Roots(subs: seq<Shape>): (r: seq<TiXmlNode>)
    ensures |r| == |subs| && forall i :: 0 <= i < |subs| ==> r[i] == subs[i].node
  {
    seq(|subs|, i requires 0 <= i < |subs| => subs[i].node)
  }

  /** The shape and all shapes inside it. */
  ghost function Shapes(s: Shape): set<Shape> {
    {s} + AllShapes(s.subs)
  }

  ghost function AllShapes(subs: seq<Shape>): set<Shape> {
    if subs == [] then {} else Shapes(subs[0]) + AllShapes(subs[1..])
  }

  ghost function Nodes(s: Shape): set<TiXmlNode> {
    {s.node} + AllNodes(s.subs)
  }

  ghost function AllNodes(subs: seq<Shape>): set<TiXmlNode> {
    if subs == [] then {} else Nodes(subs[0]) + AllNodes(subs[1..])
  }

  /** No node stands at two places. */
  ghost predicate Proper(s: Shape) {
    s.node !in AllNodes(s.subs) && AllProper(s.subs)
  }

  ghost predicate AllProper(subs: seq<Shape>) {
    subs == [] || (Proper(subs[0]) && AllProper(subs[1..]) && Nodes(subs[0]) !! AllNodes(subs[1..]))
  }

  lemma {:induction false} SubInside(subs: seq<Shape>, i: nat)
    requires i < |subs|
    ensures Shapes(subs[i]) <= AllShapes(subs) && Nodes(subs[i]) <= AllNodes(subs)
    ensures AllProper(subs) ==> Proper(subs[i])
  {
    if i > 0 {
      SubInside(subs[1..], i - 1);
    }
  }

  lemma {:induction false} FindSub(subs: seq<Shape>, u: Shape) returns (i: nat)
    requires u in AllShapes(subs)
    ensures i < |subs| && u in Shapes(subs[i])
  {
    if u in Shapes(subs[0]) {
      i := 0;
    } else {
      var j := FindSub(subs[1..], u);
      i := j + 1;
    }
  }

  lemma {:induction false} SubsApart(subs: seq<Shape>, i: nat, j: nat)
    requires AllProper(subs) && i < j < |subs|
    ensures Nodes(subs[i]) !! Nodes(subs[j])
  {
    if i == 0 {
      SubInside(subs[1..], j - 1);
    } else {
      SubsApart(subs[1..], i - 1, j - 1);
    }
  }

  lemma {:induction false} ConcatNodes(a: seq<Shape>, b: seq<Shape>)
    ensures AllNodes(a + b) == AllNodes(a) + AllNodes(b)
    ensures AllShapes(a + b) == AllShapes(a) + AllShapes(b)
  {
    if a == [] {
      assert a + b == b;
    } else {
      assert (a + b)[1..] == a[1..] + b;
      ConcatNodes(a[1..], b);
    }
  }

  lemma {:induction false} ConcatProper(a: seq<Shape>, b: seq<Shape>)
    ensures AllProper(a + b) <==> AllProper(a) && AllProper(b) && AllNodes(a) !! AllNodes(b)
  {
    if a == [] {
      assert a + b == b;
    } else {
      assert (a + b)[1..] == a[1..] + b;
      ConcatProper(a[1..], b);
      ConcatNodes(a[1..], b);
    }
  }

  lemma OneShape(t: Shape)
    ensures AllNodes([t]) == Nodes(t) && AllShapes([t]) == Shapes(t) && (AllProper([t]) <==> Proper(t))
  {
    assert [t][1..] == [];
  }

  lemma {:induction false} InShape(s: Shape, u: Shape)
    requires u in Shapes(s)
    ensures Nodes(u) <= Nodes(s) && AllNodes(u.subs) <= AllNodes(s.subs)
    ensures forall k :: k in Roots(u.subs) ==> k in AllNodes(s.subs)
    decreases s
  {
    if u != s {
      var i := FindSub(s.subs, u);
      SubInside(s.subs, i);
      InShape(s.subs[i], u);
    } else {
      forall i | 0 <= i < |s.subs|
        ensures Roots(s.subs)[i] in AllNodes(s.subs)
      {
        SubInside(s.subs, i);
      }
    }
  }

  lemma RootsDiffer(subs: seq<Shape>, i: nat, j: nat)
    requires AllProper(subs) && i < |subs| && j < |subs| && i != j
    ensures subs[i].node != subs[j].node
  {
    if i < j {
      SubsApart(subs, i, j);
    } else {
      SubsApart(subs, j, i);
    }
  }

  // ---- Nodes ----

  /** A stretch of children of `t`, between the neighbours `before` and `after`. */
  ghost predicate Chain(t: TiXmlNode, before: TiXmlNode?, part: seq<TiXmlNode>, after: TiXmlNode?)
    reads part`parent, part`prev, part`next
  {
    && (part != [] ==> part[0].prev == before && part[|part| - 1].next == after)
    && (forall i :: 0 <= i < |part| ==> part[i].parent == t)
    && (forall i, j :: 0 <= i < j < |part| && j == i + 1 ==> part[i].next == part[j] && part[j].prev == part[i])
  }

  /** The links of a node and of its children say that these are its children. */
  ghost predicate Links(t: TiXmlNode, kids: seq<TiXmlNode>)
    reads t`firstChild, t`lastChild, kids`parent, kids`prev, kids`next
  {
    && t.firstChild == FirstOr(kids, null) && t.lastChild == LastOr(kids, null)
    && Chain(t, null, kids, null)
  }

  /** A stretch is linked exactly when its two parts are, each with the other as its neighbour. */
  lemma ChainSplit(t: TiXmlNode, before: TiXmlNode?, a: seq<TiXmlNode>, b: seq<TiXmlNode>, after: TiXmlNode?)
    ensures Chain(t, before, a + b, after) <==>
            Chain(t, before, a, FirstOr(b, after)) && Chain(t, LastOr(a, before), b, after)
    ensures FirstOr(a + b, after) == FirstOr(a, FirstOr(b, after))
    ensures LastOr(a + b, before) == LastOr(b, LastOr(a, before))
  {
    if Chain(t, before, a + b, after) {
      ChainFront(t, before, a, b, after);
      ChainBack(t, before, a, b, after);
    }
    if Chain(t, before, a, FirstOr(b, after)) && Chain(t, LastOr(a, before), b, after) {
      ChainJoin(t, before, a, b, after);
    }
    hide Chain;
    assert (a + b == []) == (a == [] && b == []);
  }

  lemma ChainFront(t: TiXmlNode, before: TiXmlNode?, a: seq<TiXmlNode>, b: seq<TiXmlNode>, after: TiXmlNode?)
    requires Chain(t, before, a + b, after)
    ensures Chain(t, before, a, FirstOr(b, after))
  {
    var all := a + b;
    forall i, j | 0 <= i < j < |a| && j == i + 1
      ensures a[i].next == a[j] && a[j].prev == a[i]
    {
      assert all[i].next == all[j];
    }
    forall i | 0 <= i < |a|
      ensures a[i].parent == t
    {
      assert all[i].parent == t;
    }
    if a != [] && b != [] {
      assert all[|a| - 1].next == all[|a|];
    }
  }

  lemma ChainBack(t: TiXmlNode, before: TiXmlNode?, a: seq<TiXmlNode>, b: seq<TiXmlNode>, after: TiXmlNode?)
    requires Chain(t, before, a + b, after)
    ensures Chain(t, LastOr(a, before), b, after)
  {
    var all := a + b;
    forall i | 0 <= i < |b|
      ensures b[i].parent == t
    {
      assert all[|a| + i].parent == t;
    }
    forall i, j | 0 <= i < j < |b| && j == i + 1
      ensures b[i].next == b[j] && b[j].prev == b[i]
    {
      assert all[|a| + i].next == all[|a| + j];
    }
    if a != [] && b != [] {
      assert all[|a| - 1].next == all[|a|];
    }
  }

  lemma ChainJoin(t: TiXmlNode, before: TiXmlNode?, a: seq<TiXmlNode>, b: seq<TiXmlNode>, after: TiXmlNode?)
    requires Chain(t, before, a, FirstOr(b, after)) && Chain(t, LastOr(a, before), b, after)
    ensures Chain(t, before, a + b, after)
  {
    var all := a + b;
    assert forall i :: 0 <= i < |a| ==> all[i] == a[i];
    assert forall i :: |a| <= i < |all| ==> all[i] == b[i - |a|];
    forall i, j | 0 <= i < j < |all| && j == i + 1
      ensures all[i].next == all[j] && all[j].prev == all[i]
    {
      if j < |a| {
        assert a[i].next == a[j];
      } else if i >= |a| {
        assert b[i - |a|].next == b[j - |a|];
      }
    }
  }

  lemma ChainSplit3(t: TiXmlNode, a: seq<TiXmlNode>, m: seq<TiXmlNode>, b: seq<TiXmlNode>)
    ensures Chain(t, null, a + m + b, null) <==>
            && Chain(t, null, a, FirstOr(m, FirstOr(b, null)))
            && Chain(t, LastOr(a, null), m, FirstOr(b, null))
            && Chain(t, LastOr(m, LastOr(a, null)), b, null)
    ensures FirstOr(a + m + b, null) == FirstOr(a, FirstOr(m, FirstOr(b, null)))
    ensures LastOr(a + m + b, null) == LastOr(b, LastOr(m, LastOr(a, null)))
  {
    hide Chain;
    ChainSplit(t, null, a + m, b, null);
    ChainSplit(t, null, a, m, FirstOr(b, null));
  }

  lemma ChainOne(t: TiXmlNode, before: TiXmlNode?, n: TiXmlNode, after: TiXmlNode?)
    ensures Chain(t, before, [n], after) <==> n.parent == t && n.prev == before && n.next == after
  {}

  lemma ChainTwo(t: TiXmlNode, before: TiXmlNode?, n: TiXmlNode, m: TiXmlNode, after: TiXmlNode?)
    ensures Chain(t, before, [n, m], after) <==>
            n.parent == m.parent == t && n.prev == before && n.next == m && m.prev == n && m.next == after
  {
    var p := [n, m];
    assert p[0] == n && p[1] == m;
  }

  lemma NoChain(t: TiXmlNode, before: TiXmlNode?, after: TiXmlNode?, other: TiXmlNode?)
    ensures Chain(t, before, [], after) && Chain(t, before, [], other)
  {}

  lemma Ends(part: seq<TiXmlNode>, other: TiXmlNode?)
    ensures FirstOr(part, other) == if part == [] then other else part[0]
    ensures LastOr(part, other) == if part == [] then other else part[|part| - 1]
    ensures part != [] ==> part[0] in part && part[|part| - 1] in part
  {}

  /** Everywhere in the shape the links are right, and no document is a child. */
  ghost predicate Linked(s: Shape)
    reads Nodes(s)`firstChild, Nodes(s)`lastChild, AllNodes(s.subs)`parent, AllNodes(s.subs)`prev, AllNodes(s.subs)`next
  {
    forall u :: u in Shapes(s) ==> (InShape(s, u); Links(u.node, Roots(u.subs)))
  }

  /** A well-formed tree of nodes: proper, linked, and with a document at most on top. */
  ghost predicate Sound(s: Shape)
    reads Nodes(s)`firstChild, Nodes(s)`lastChild, AllNodes(s.subs)`parent, AllNodes(s.subs)`prev, AllNodes(s.subs)`next
    reads AllNodes(s.subs)`data
  {
    && Proper(s) && Linked(s)
    && forall n :: n in AllNodes(s.subs) ==> !n.data.DocumentData?
  }

  /** The nodes below the tops of these trees. */
  ghost function Below(subs: seq<Shape>): set<TiXmlNode> {
    if subs == [] then {} else AllNodes(subs[0].subs) + Below(subs[1..])
  }

  ghost predicate AllLinked(subs: seq<Shape>)
    reads AllNodes(subs)`firstChild, AllNodes(subs)`lastChild, Below(subs)`parent, Below(subs)`prev, Below(subs)`next
  {
    subs == [] || (Linked(subs[0]) && AllLinked(subs[1..]))
  }

  lemma {:induction false} AllLinkedAt(subs: seq<Shape>, i: nat)
    requires AllLinked(subs) && i < |subs|
    ensures Linked(subs[i])
  {
    if i > 0 {
      AllLinkedAt(subs[1..], i - 1);
    }
  }

  lemma {:induction false} AllLinkedConcat(a: seq<Shape>, b: seq<Shape>)
    ensures AllLinked(a + b) <==> AllLinked(a) && AllLinked(b)
  {
    hide Linked, Nodes, AllNodes;
    if a == [] {
      assert a + b == b;
    } else {
      assert (a + b)[1..] == a[1..] + b;
      AllLinkedConcat(a[1..], b);
    }
  }

  lemma AllLinkedOne(t: Shape)
    ensures AllLinked([t]) <==> Linked(t)
  {
    hide Linked;
    assert [t][1..] == [];
  }

  lemma AllLinkedInsert(a: seq<Shape>, t: Shape, b: seq<Shape>)
    ensures AllLinked(a + [t] + b) <==> AllLinked(a) && Linked(t) && AllLinked(b)
  {
    hide AllLinked, Linked;
    AllLinkedConcat(a + [t], b);
    AllLinkedConcat(a, [t]);
    AllLinkedOne(t);
  }

  /** What the links of a whole tree come down to: the root and its children, and every tree below. */
  lemma Assemble(s: Shape)
    requires Links(s.node, Roots(s.subs)) && AllLinked(s.subs)
    ensures Linked(s)
  {
    forall u | u in Shapes(s)
      ensures Links(u.node, Roots(u.subs))
    {
      if u != s {
        var i := FindSub(s.subs, u);
        AllLinkedAt(s.subs, i);
      }
    }
  }

  lemma {:induction false} ShapesLinked(subs: seq<Shape>)
    requires forall u :: u in AllShapes(subs) ==> Links(u.node, Roots(u.subs))
    ensures AllLinked(subs)
  {
    hide Links, Roots;
    if subs != [] {
      ShapesLinked(subs[1..]);
    }
  }

  lemma TakeApart(s: Shape)
    requires Linked(s)
    ensures Links(s.node, Roots(s.subs)) && AllLinked(s.subs)
  {
    hide Links, Roots;
    assert s in Shapes(s);
    ShapesLinked(s.subs);
  }

  /** A node among the children is below none of them. */
  lemma RootNotBelow(subs: seq<Shape>, i: nat, j: nat)
    requires AllProper(subs) && i < |subs| && j < |subs|
    ensures subs[i].node !in AllNodes(subs[j].subs)
    ensures subs[i].node in AllNodes(subs)
  {
    SubInside(subs, i);
    if i < j {
      SubsApart(subs, i, j);
    } else if j < i {
      SubsApart(subs, j, i);
    }
  }

  // ---- Values and copies ----

  ghost function TreeOf(s: Shape): Tree
    reads Nodes(s)`data, Nodes(s)`origin
  {
    Tree(s.node.data, s.node.origin, TreesOf(s.subs))
  }

  ghost function TreesOf(subs: seq<Shape>): (r: seq<Tree>)
    reads AllNodes(subs)`data, AllNodes(subs)`origin
    ensures |r| == |subs|
  {
    if subs == [] then [] else [TreeOf(subs[0])] + TreesOf(subs[1..])
  }

  /** TiXmlElement::SetAttribute: the value of the attribute with this name is set, or a new one is added.
      Name and value are C strings, and names are compared as such. */
  function SetAttr(attrs: seq<Attr>, name: string, value: string): seq<Attr> {
    if attrs == [] then [Attr(CString(name), CString(value))]
    else if CString(attrs[0].name) == CString(name) then [Attr(attrs[0].name, CString(value))] + attrs[1..]
    else [attrs[0]] + SetAttr(attrs[1..], name, value)
  }

  function SetAttrs(attrs: seq<Attr>, more: seq<Attr>): seq<Attr>
    decreases more
  {
    if more == [] then attrs else SetAttrs(SetAttr(attrs, more[0].name, more[0].value), more[1..])
  }

  /** The attributes that First() and Next() reach: Next() takes one without name and value for the sentinel. */
  function Reached(attrs: seq<Attr>): seq<Attr> {
    if |attrs| <= 1 then attrs
    else if attrs[1] == Attr("", "") then attrs[..1]
    else [attrs[0]] + Reached(attrs[1..])
  }

  predicate HasKids(d: Data) {
    d.ElementData? || d.DocumentData?
  }

  /** The value goes through a C string, and so do attributes; the fields of a declaration do not. */
  function CopiedData(d: Data): Data {
    match d
    case DocumentData(name, status) => DocumentData(CString(name), status)
    case ElementData(name, attrs) => ElementData(CString(name), SetAttrs([], Reached(attrs)))
    case TextData(text, cdata) => TextData(CString(text), cdata)
    case CommentData(text) => CommentData(CString(text))
    case UnknownData(text) => UnknownData(CString(text))
    case DeclarationData(_, _, _) => d
  }

  /** What Clone makes of a tree: only elements and documents copy their children. */
  function Copied(t: Tree): Tree {
    Tree(CopiedData(t.data), t.origin, if HasKids(t.data) then AllCopied(t.kids) else [])
  }

  function AllCopied(kids: seq<Tree>): (r: seq<Tree>)
    ensures |r| == |kids|
  {
    if kids == [] then [] else [Copied(kids[0])] + AllCopied(kids[1..])
  }

  /** No two names are the same C string. */
  predicate DistinctNames(attrs: seq<Attr>) {
    forall i, j :: 0 <= i < j < |attrs| ==> CString(attrs[i].name) != CString(attrs[j].name)
  }

  lemma {:induction false} SetAttrNew(attrs: seq<Attr>, name: string, value: string)
    requires forall i :: 0 <= i < |attrs| ==> CString(attrs[i].name) != CString(name)
    ensures SetAttr(attrs, name, value) == attrs + [Attr(CString(name), CString(value))]
  {
    hide CString;
    if attrs != [] {
      SetAttrNew(attrs[1..], name, value);
      var a := Attr(CString(name), CString(value));
      assert [attrs[0]] + (attrs[1..] + [a]) == attrs + [a];
    }
  }

  lemma {:induction false} SetAttrAt(attrs: seq<Attr>, k: nat, name: string, value: string)
    requires DistinctNames(attrs) && k < |attrs| && CString(attrs[k].name) == CString(name)
    ensures SetAttr(attrs, name, value) == attrs[k := Attr(attrs[k].name, CString(value))]
  {
    hide CString;
    if k > 0 {
      var t := attrs[1..];
      assert t[k - 1] == attrs[k] && CString(attrs[0].name) != CString(attrs[k].name);
      SetAttrAt(t, k - 1, name, value);
    }
  }

  /** Setting an attribute keeps the names distinct and in their order. */
  lemma {:induction false} SetAttrKeeps(attrs: seq<Attr>, name: string, value: string)
    requires DistinctNames(attrs)
    ensures var r := SetAttr(attrs, name, value);
            && DistinctNames(r) && |attrs| <= |r| <= |attrs| + 1
            && (forall i :: 0 <= i < |attrs| ==> r[i].name == attrs[i].name)
            && (|r| > |attrs| ==> r[|attrs|].name == CString(name))
            && (AllNulFree(attrs) ==> AllNulFree(r))
  {
    hide SetAttr, CString;
    CStringIs(name);
    CStringIs(value);
    if exists k :: 0 <= k < |attrs| && CString(attrs[k].name) == CString(name) {
      var k :| 0 <= k < |attrs| && CString(attrs[k].name) == CString(name);
      SetAttrAt(attrs, k, name, value);
    } else {
      SetAttrNew(attrs, name, value);
    }
  }

  predicate AllNulFree(attrs: seq<Attr>) {
    forall i :: 0 <= i < |attrs| ==> NulFree(attrs[i].name) && NulFree(attrs[i].value)
  }

  lemma {:induction false} SetAttrsKeeps(attrs: seq<Attr>, more: seq<Attr>)
    requires DistinctNames(attrs) && AllNulFree(attrs)
    ensures DistinctNames(SetAttrs(attrs, more)) && AllNulFree(SetAttrs(attrs, more))
    decreases more
  {
    if more != [] {
      SetAttrKeeps(attrs, more[0].name, more[0].value);
      SetAttrsKeeps(SetAttr(attrs, more[0].name, more[0].value), more[1..]);
    }
  }

  /** The attributes as C strings. */
  function Cut(attrs: seq<Attr>): (r: seq<Attr>)
    ensures |r| == |attrs|
    ensures forall i :: 0 <= i < |r| ==> r[i] == Attr(CString(attrs[i].name), CString(attrs[i].value))
  {
    seq(|attrs|, i requires 0 <= i < |attrs| => Attr(CString(attrs[i].name), CString(attrs[i].value)))
  }

  lemma {:induction false} SetAttrsAppends(attrs: seq<Attr>, more: seq<Attr>)
    requires DistinctNames(attrs + more)
    ensures SetAttrs(attrs, more) == attrs + Cut(more)
    decreases more
  {
    if more == [] {
      assert attrs + Cut(more) == attrs;
    } else {
      hide CString, SetAttr, Cut, DistinctNames;
      var a := more[0];
      NextDistinct(attrs, more);
      SetAttrNew(attrs, a.name, a.value);
      SetAttrsAppends(attrs + [Attr(CString(a.name), CString(a.value))], more[1..]);
    }
  }

  lemma NextDistinct(attrs: seq<Attr>, more: seq<Attr>)
    requires DistinctNames(attrs + more) && more != []
    ensures var c := Attr(CString(more[0].name), CString(more[0].value));
            && (forall i :: 0 <= i < |attrs| ==> CString(attrs[i].name) != CString(more[0].name))
            && DistinctNames(attrs + [c] + more[1..]) && attrs + [c] + Cut(more[1..]) == attrs + Cut(more)
  {
    hide CString;
    var c := Attr(CString(more[0].name), CString(more[0].value));
    CStringIs(more[0].name);
    var all, next := attrs + more, attrs + [c] + more[1..];
    assert forall i :: 0 <= i < |attrs| ==> all[i] == attrs[i];
    assert all[|attrs|] == more[0];
    assert forall i :: 0 <= i < |next| ==> CString(next[i].name) == CString(all[i].name);
  }

  lemma {:induction false} ReachedIsPrefix(attrs: seq<Attr>)
    ensures |Reached(attrs)| <= |attrs| && Reached(attrs) == attrs[..|Reached(attrs)|]
    ensures Reached(attrs) == attrs <==> forall i :: 0 < i < |attrs| ==> attrs[i] != Attr("", "")
  {
    if |attrs| > 1 && attrs[1] != Attr("", "") {
      var t := attrs[1..];
      ReachedIsPrefix(t);
      assert Reached(attrs)[1..] == Reached(t);
      assert forall i :: 0 < i < |t| ==> t[i] == attrs[i + 1];
      if forall i :: 0 < i < |t| ==> t[i] != Attr("", "") {
        forall i | 0 < i < |attrs|
          ensures attrs[i] != Attr("", "")
        {
          assert i > 1 ==> attrs[i] == t[i - 1];
        }
      }
    }
  }

  /** Copied attributes have distinct names and no NUL; from distinct names they are those reached, cut. */
  lemma AttrsCopied(attrs: seq<Attr>)
    ensures DistinctNames(SetAttrs([], Reached(attrs))) && AllNulFree(SetAttrs([], Reached(attrs)))
    ensures DistinctNames(attrs) ==> SetAttrs([], Reached(attrs)) == Cut(Reached(attrs))
  {
    NoAttrs();
    hide *;
    var r := Reached(attrs);
    SetAttrsKeeps([], r);
    ReachedIsPrefix(attrs);
    assert [] + r == r && [] + Cut(r) == Cut(r);
    if DistinctNames(attrs) {
      DistinctPrefix(attrs, |r|);
      SetAttrsAppends([], r);
    }
  }

  lemma NoAttrs()
    ensures DistinctNames([]) && AllNulFree([])
  {}

  lemma DistinctPrefix(attrs: seq<Attr>, n: nat)
    requires DistinctNames(attrs) && n <= |attrs|
    ensures DistinctNames(attrs[..n])
  {
    hide CString;
  }

  lemma CutIsIdentity(attrs: seq<Attr>)
    requires AllNulFree(attrs)
    ensures Cut(attrs) == attrs
  {
    hide CString;
    forall i | 0 <= i < |attrs|
      ensures Cut(attrs)[i] == attrs[i]
    {
      CStringIs(attrs[i].name);
      CStringIs(attrs[i].value);
    }
  }

  /** Attributes are copied equal exactly if no two names and no NUL get in the way, and all are reached. */
  lemma AttrsEqual(attrs: seq<Attr>)
    ensures SetAttrs([], Reached(attrs)) == attrs <==>
            DistinctNames(attrs) && AllNulFree(attrs) && forall i :: 0 < i < |attrs| ==> attrs[i] != Attr("", "")
  {
    hide SetAttrs, CString, NulFree;
    AttrsCopied(attrs);
    ReachedIsPrefix(attrs);
    if DistinctNames(attrs) && AllNulFree(attrs) {
      CutIsIdentity(Reached(attrs));
    }
  }

  /** What a tree must be like for its copy to be equal to it. */
  predicate Copyable(t: Tree) {
    && NulFree(ValueOf(t.data))
    && (t.data.ElementData? ==>
          && DistinctNames(t.data.attrs) && AllNulFree(t.data.attrs)
          && forall i :: 0 < i < |t.data.attrs| ==> t.data.attrs[i] != Attr("", ""))
    && (!HasKids(t.data) ==> t.kids == [])
    && AllCopyable(t.kids)
  }

  predicate AllCopyable(kids: seq<Tree>) {
    kids == [] || (Copyable(kids[0]) && AllCopyable(kids[1..]))
  }

  lemma DataIsEqual(d: Data)
    ensures CopiedData(d) == d <==>
            && NulFree(ValueOf(d))
            && (d.ElementData? ==>
                  && DistinctNames(d.attrs) && AllNulFree(d.attrs)
                  && forall i :: 0 < i < |d.attrs| ==> d.attrs[i] != Attr("", ""))
  {
    CStringIs(ValueOf(d));
    if d.ElementData? {
      AttrsEqual(d.attrs);
    }
    hide CString, SetAttrs, Reached, DistinctNames, AllNulFree;
  }

  lemma {:induction false} CopyIsEqual(t: Tree)
    ensures Copied(t) == t <==> Copyable(t)
    decreases t, 1
  {
    AllCopiesAreEqual(t.kids);
    DataIsEqual(t.data);
    hide CopiedData, DistinctNames, AllNulFree, NulFree, ValueOf;
  }

  lemma {:induction false} AllCopiesAreEqual(kids: seq<Tree>)
    ensures AllCopied(kids) == kids <==> AllCopyable(kids)
    decreases kids, 0
  {
    if kids != [] {
      CopyIsEqual(kids[0]);
      AllCopiesAreEqual(kids[1..]);
      var c := AllCopied(kids);
      assert c[1..] == AllCopied(kids[1..]) && c[0] == Copied(kids[0]);
      assert c == kids <==> c[0] == kids[0] && c[1..] == kids[1..];
    }
  }

  lemma SubsSound(s: Shape)
    requires Sound(s)
    ensures forall i :: 0 <= i < |s.subs| ==> Sound(s.subs[i]) && !s.subs[i].node.data.DocumentData?
  {
    TakeApart(s);
    forall i | 0 <= i < |s.subs|
      ensures Sound(s.subs[i]) && !s.subs[i].node.data.DocumentData?
    {
      AllLinkedAt(s.subs, i);
      SubInside(s.subs, i);
    }
  }

  lemma SingleSound(t: Shape)
    requires t.subs == [] && Links(t.node, [])
    ensures Sound(t) && Nodes(t) == {t.node}
  {
    assert Roots(t.subs) == [];
  }

  lemma LinksAt(t: TiXmlNode, kids: seq<TiXmlNode>, i: nat)
    requires Links(t, kids) && i < |kids|
    ensures kids[i].parent == t
    ensures i == 0 ==> kids[i].prev == null
    ensures i > 0 ==> kids[i].prev == kids[i - 1]
    ensures i == |kids| - 1 ==> kids[i].next == null
    ensures i < |kids| - 1 ==> kids[i].next == kids[i + 1]
  {}

  /** Walking along the children by their links. */
  lemma Siblings(s: Shape)
    requires Sound(s)
    ensures s.node.firstChild == (if s.subs == [] then null else s.subs[0].node)
    ensures s.node.lastChild == (if s.subs == [] then null else s.subs[|s.subs| - 1].node)
    ensures forall i :: 0 <= i < |s.subs| ==>
              && s.subs[i].node.parent == s.node
              && s.subs[i].node.next == (if i == |s.subs| - 1 then null else s.subs[i + 1].node)
  {
    TakeApart(s);
    var kids := Roots(s.subs);
    forall i | 0 <= i < |s.subs|
      ensures s.subs[i].node.parent == s.node
      ensures s.subs[i].node.next == (if i == |s.subs| - 1 then null else s.subs[i + 1].node)
    {
      hide *;
      LinksAt(s.node, kids, i);
      assert kids[i] == s.subs[i].node && (i < |s.subs| - 1 ==> kids[i + 1] == s.subs[i + 1].node);
    }
  }

  lemma SiblingAt(s: Shape, i: nat)
    requires Sound(s) && i < |s.subs|
    ensures s.subs[i].node.next == if i + 1 < |s.subs| then s.subs[i + 1].node else null
  {
    Siblings(s);
    hide *;
  }

  lemma NodesOfSingle(t: Shape)
    requires t.subs == []
    ensures Nodes(t) == {t.node}
  {}

  lemma RootApart(s: Shape)
    requires Sound(s)
    ensures s.node !in AllNodes(s.subs)
  {}

  lemma TreesAt(subs: seq<Shape>, i: nat)
    requires i < |subs|
    ensures TreesOf(subs)[i] == TreeOf(subs[i])
  {
    if i > 0 {
      TreesAt(subs[1..], i - 1);
    }
  }

  lemma RootsInside(s: Shape)
    ensures forall k :: k in Roots(s.subs) ==> k in Nodes(s)
    ensures forall k :: k in Roots(s.subs) ==> k in AllNodes(s.subs)
    ensures AllNodes(s.subs) <= Nodes(s) && s.node in Nodes(s)
  {
    forall i | 0 <= i < |s.subs|
      ensures Roots(s.subs)[i] in AllNodes(s.subs)
    {
      SubInside(s.subs, i);
    }
  }

  lemma {:induction false} TreesAppend(subs: seq<Shape>, t: Shape)
    ensures TreesOf(subs + [t]) == TreesOf(subs) + [TreeOf(t)]
  {
    if subs == [] {
      assert subs + [t] == [t] && [t][1..] == [];
    } else {
      assert (subs + [t])[1..] == subs[1..] + [t];
      TreesAppend(subs[1..], t);
    }
  }

  lemma {:induction false} CopiedAppend(kids: seq<Tree>, t: Tree)
    ensures AllCopied(kids + [t]) == AllCopied(kids) + [Copied(t)]
  {
    if kids == [] {
      assert kids + [t] == [t] && [t][1..] == [];
    } else {
      assert (kids + [t])[1..] == kids[1..] + [t];
      CopiedAppend(kids[1..], t);
    }
  }

  lemma NextCopied(trees: seq<Tree>, i: nat)
    requires i < |trees|
    ensures AllCopied(trees[..i + 1]) == AllCopied(trees[..i]) + [Copied(trees[i])]
  {
    assert trees[..i + 1] == trees[..i] + [trees[i]];
    CopiedAppend(trees[..i], trees[i]);
  }

  lemma NothingCopied(trees: seq<Tree>)
    ensures TreesOf([]) == [] == AllCopied(trees[..0])
  {}

  lemma CopiedTree(s: Shape, t: Shape)
    requires t.node.data == CopiedData(s.node.data) && t.node.origin == s.node.origin
    requires TreesOf(t.subs) == if HasKids(s.node.data) then AllCopied(TreesOf(s.subs)) else []
    ensures TreeOf(t) == Copied(TreeOf(s))
  {}

  lemma NodesInside(s: Shape, i: nat)
    requires i < |s.subs|
    ensures Nodes(s.subs[i]) <= Nodes(s) && s.subs[i].node in Nodes(s)
  {
    SubInside(s.subs, i);
  }

  // ---- The document above a node ----

  /** The nodes from `n` up to the root. */
  ghost predicate Ancestry(n: TiXmlNode, up: seq<TiXmlNode>)
    reads up`parent
  {
    && up != [] && up[0] == n && up[|up| - 1].parent == null
    && forall i, j :: 0 <= i < j < |up| && j == i + 1 ==> up[i].parent == up[j]
  }

  /** The nearest document on the way up. */
  ghost function Nearest(up: seq<TiXmlNode>): (r: TiXmlNode?)
    reads up`data
    ensures r != null ==> r in up && r.data.DocumentData?
  {
    if up == [] then null else if up[0].data.DocumentData? then up[0] else Nearest(up[1..])
  }

  /** What a node on the way up carries once a document was refused as a child. */
  ghost function Refused(k: TiXmlNode, up: seq<TiXmlNode>): (d: Data)
    reads up`data, k`data
    ensures d.DocumentData? == k.data.DocumentData?
  {
    if k == Nearest(up) then k.data.(status := Recorded(k.data.status, DOCUMENT_TOP_ONLY)) else k.data
  }

  /** The first document on the way up takes error 15 with no place, unless it has an error already; nothing else of it
      changes, and no other node does. Without a document nothing is recorded. */
  lemma {:induction false} RefusingRecords(up: seq<TiXmlNode>, k: TiXmlNode, i: nat)
    requires i <= |up| && (i < |up| ==> up[i].data.DocumentData?)
    requires forall j :: 0 <= j < i ==> !up[j].data.DocumentData?
    ensures Refused(k, up) ==
            if i == |up| || k != up[i] || k.data.status.error then k.data
            else DocumentData(k.data.name,
                              Status(true, 15, -1, -1, k.data.status.tabsize, k.data.status.useMicrosoftBOM))
    decreases i
  {
    if i > 0 {
      assert up != [] && Nearest(up) == Nearest(up[1..]);
      assert forall j :: 0 <= j < i - 1 ==> up[1..][j] == up[j + 1];
      RefusingRecords(up[1..], k, i - 1);
    }
  }

  class TiXmlNode {
    var data: Data
    var origin: Origin
    var parent: TiXmlNode?
    var firstChild: TiXmlNode?
    var lastChild: TiXmlNode?
    var prev: TiXmlNode?
    var next: TiXmlNode?

    constructor (d: Data)
      ensures data == d && origin == Origin(0, -1, -1) && parent == null && prev == null && next == null
      ensures Links(this, [])
    {
      data, origin := d, Origin(0, -1, -1);
      parent, firstChild, lastChild, prev, next := null, null, null, null, null;
    }

    /** GetDocument: the walk up to the nearest document. */
    method GetDocument(ghost up: seq<TiXmlNode>) returns (r: TiXmlNode?)
      requires Ancestry(this, up)
      ensures r == Nearest(up)
    {
      r := this;
      ghost var i := 0;
      assert up[0..] == up;
      while r != null
        invariant r != null ==> i < |up| && r == up[i] && Nearest(up[i..]) == Nearest(up)
        invariant r == null ==> Nearest(up) == null
        decreases |up| - i
      {
        if r.data.DocumentData? {
          return;
        }
        assert up[i..][1..] == up[i + 1..];
        r := r.parent;
        i := i + 1;
      }
    }

    /** A document is refused as a child: the document above, if there is one, records it. */
    method Refuse(ghost up: seq<TiXmlNode>, ghost s: Shape, ghost t: Shape)
      requires Ancestry(this, up) && Sound(s) && Sound(t)
      modifies up`data
      ensures forall k :: k in up ==> k.data == old(Refused(k, up))
      ensures Sound(s) && Sound(t)
    {
      hide Proper, Linked, Nodes, AllNodes, Ancestry;
      assert allocated(Nodes(s)) && allocated(AllNodes(s.subs)) && allocated(Nodes(t)) && allocated(AllNodes(t.subs));
      var document := GetDocument(up);
      if document != null {
        document.data := document.data.(status := Recorded(document.data.status, DOCUMENT_TOP_ONLY));
      }
    }

    /** The pointers that LinkEndChild sets. */
    method LinkLast(node: TiXmlNode, ghost kids: seq<TiXmlNode>)
      requires Links(this, kids) && Distinct(kids) && node !in kids
      modifies this`firstChild, this`lastChild, node`parent, node`prev, node`next, kids`next
      ensures Links(this, kids + [node])
    {
      node.parent := this;
      node.prev := lastChild;
      node.next := null;
      if lastChild != null {
        lastChild.next := node;
      } else {
        firstChild := node;
      }
      lastChild := node;
    }

    /** The first of a stretch gets a new neighbour in front. */
    method SetPrev(node: TiXmlNode?, ghost t: TiXmlNode, ghost before: TiXmlNode?, ghost part: seq<TiXmlNode>,
                   ghost after: TiXmlNode?)
      requires Chain(t, before, part, after) && Distinct(part) && part != [] && part[0] == this
      modifies this`prev
      ensures prev == node && Chain(t, node, part, after)
    {
      prev := node;
    }

    /** The last of a stretch gets a new neighbour behind. */
    method SetNext(node: TiXmlNode?, ghost t: TiXmlNode, ghost before: TiXmlNode?, ghost part: seq<TiXmlNode>,
                   ghost after: TiXmlNode?)
      requires Chain(t, before, part, after) && Distinct(part) && part != [] && part[|part| - 1] == this
      modifies this`next
      ensures next == node && Chain(t, before, part, node)
    {
      next := node;
    }

    /** The pointers that InsertBeforeChild sets. */
    method LinkBefore(beforeThis: TiXmlNode, node: TiXmlNode, ghost a: seq<TiXmlNode>, ghost b: seq<TiXmlNode>)
      requires Links(this, a + [beforeThis] + b) && Distinct(a + [beforeThis] + b)
      requires node !in a + [beforeThis] + b
      modifies this`firstChild, node`parent, node`prev, node`next, beforeThis`prev, a`next
      ensures Links(this, a + [node, beforeThis] + b)
    {
      hide Chain, Distinct;
      DistinctParts(a, beforeThis, b);
      Ends(a, null);
      Ends(b, null);
      ChainSplit3(this, a, [beforeThis], b);
      ChainOne(this, LastOr(a, null), beforeThis, FirstOr(b, null));
      node.parent := this;
      node.next := beforeThis;
      node.prev := beforeThis.prev;
      if beforeThis.prev != null {
        beforeThis.prev.SetNext(node, this, null, a, beforeThis);
      } else {
        firstChild := node;
        NoChain(this, null, beforeThis, node);
      }
      beforeThis.prev := node;
      ChainTwo(this, LastOr(a, null), node, beforeThis, FirstOr(b, null));
      ChainSplit3(this, a, [node, beforeThis], b);
    }

    /** The pointers that InsertAfterChild sets. */
    method LinkAfter(afterThis: TiXmlNode, node: TiXmlNode, ghost a: seq<TiXmlNode>, ghost b: seq<TiXmlNode>)
      requires Links(this, a + [afterThis] + b) && Distinct(a + [afterThis] + b)
      requires node !in a + [afterThis] + b
      modifies this`lastChild, node`parent, node`prev, node`next, afterThis`next, b`prev
      ensures Links(this, a + [afterThis, node] + b)
    {
      hide Chain, Distinct;
      DistinctParts(a, afterThis, b);
      Ends(a, null);
      Ends(b, null);
      ChainSplit3(this, a, [afterThis], b);
      ChainOne(this, LastOr(a, null), afterThis, FirstOr(b, null));
      node.parent := this;
      node.prev := afterThis;
      node.next := afterThis.next;
      if afterThis.next != null {
        afterThis.next.SetPrev(node, this, afterThis, b, null);
      } else {
        lastChild := node;
        NoChain(this, node, null, null);
      }
      afterThis.next := node;
      ChainTwo(this, LastOr(a, null), afterThis, node, FirstOr(b, null));
      ChainSplit3(this, a, [afterThis, node], b);
    }

    /** The pointers that ReplaceChild sets. */
    method LinkInstead(replaceThis: TiXmlNode, node: TiXmlNode, ghost a: seq<TiXmlNode>, ghost b: seq<TiXmlNode>)
      requires Links(this, a + [replaceThis] + b) && Distinct(a + [replaceThis] + b)
      requires node !in a + [replaceThis] + b
      modifies this`firstChild, this`lastChild, node`parent, node`prev, node`next, a`next, b`prev
      ensures Links(this, a + [node] + b)
    {
      hide Chain, Distinct;
      DistinctParts(a, replaceThis, b);
      Ends(a, null);
      Ends(b, null);
      ChainSplit3(this, a, [replaceThis], b);
      ChainOne(this, LastOr(a, null), replaceThis, FirstOr(b, null));
      node.next := replaceThis.next;
      node.prev := replaceThis.prev;
      if replaceThis.next != null {
        replaceThis.next.SetPrev(node, this, replaceThis, b, null);
      } else {
        lastChild := node;
        NoChain(this, node, null, null);
      }
      if replaceThis.prev != null {
        replaceThis.prev.SetNext(node, this, null, a, replaceThis);
      } else {
        firstChild := node;
        NoChain(this, null, replaceThis, node);
      }
      node.parent := this;
      ChainOne(this, LastOr(a, null), node, FirstOr(b, null));
      ChainSplit3(this, a, [node], b);
    }

    /** The pointers that RemoveChild sets. */
    method Unlink(removeThis: TiXmlNode, ghost a: seq<TiXmlNode>, ghost b: seq<TiXmlNode>)
      requires Links(this, a + [removeThis] + b) && Distinct(a + [removeThis] + b)
      modifies this`firstChild, this`lastChild, a`next, b`prev
      ensures Links(this, a + [] + b)
    {
      hide Chain, Distinct;
      DistinctParts(a, removeThis, b);
      Ends(a, null);
      Ends(b, null);
      ChainSplit3(this, a, [removeThis], b);
      ChainOne(this, LastOr(a, null), removeThis, FirstOr(b, null));
      if removeThis.next != null {
        removeThis.next.SetPrev(removeThis.prev, this, removeThis, b, null);
      } else {
        lastChild := removeThis.prev;
        NoChain(this, removeThis.prev, null, null);
      }
      if removeThis.prev != null {
        removeThis.prev.SetNext(removeThis.next, this, null, a, removeThis);
      } else {
        firstChild := removeThis.next;
        NoChain(this, null, removeThis, removeThis.next);
      }
      NoChain(this, LastOr(a, null), FirstOr(b, null), null);
      ChainSplit3(this, a, [], b);
    }

    /** Clone: a new tree of new nodes. */
    method Clone(ghost s: Shape) returns (r: TiXmlNode, ghost t: Shape)
      requires s.node == this && Sound(s)
      ensures t.node == r && fresh(Nodes(t)) && Sound(t) && r.parent == null && r.prev == null && r.next == null
      ensures TreeOf(t) == Copied(TreeOf(s)) && r.data.DocumentData? == data.DocumentData?
      decreases s, 3
    {
      hide Shapes, AllShapes, Nodes, AllNodes, Proper, AllProper, Roots, Links, Chain, Linked, Sound, TreeOf, Copied;
      assert allocated(Nodes(s)) && allocated(AllNodes(s.subs));
      r := new TiXmlNode(TextData("", false));
      t := CopyTo(r, s);
    }

    /** CopyTo: the data, and for elements and documents the children too. */
    method CopyTo(target: TiXmlNode, ghost s: Shape) returns (ghost t: Shape)
      requires s.node == this && Sound(s) && Links(target, []) && target !in Nodes(s)
      modifies target`data, target`origin, target`firstChild, target`lastChild
      ensures t.node == target && Sound(t) && target.data == CopiedData(data) && target.origin == origin
      ensures forall n :: n in Nodes(t) ==> n == target || fresh(n)
      ensures TreeOf(t) == Copied(old(TreeOf(s)))
      decreases s, 2
    {
      hide Shapes, AllShapes, Nodes, AllNodes, Proper, AllProper, Roots, Links, Chain, Linked, Sound, TreeOf, Copied;
      assert allocated(Nodes(s)) && allocated(AllNodes(s.subs));
      RootsInside(s);
      var value := CString(ValueOf(data));
      match data {
        case DocumentData(_, status) => target.data := DocumentData(value, status);
        case ElementData(_, attrs) =>
          var copy := CopyAttributes(attrs);
          target.data := ElementData(value, copy);
        case TextData(_, cdata) => target.data := TextData(value, cdata);
        case CommentData(_) => target.data := CommentData(value);
        case UnknownData(_) => target.data := UnknownData(value);
        case DeclarationData(_, _, _) => target.data := data;
      }
      target.origin := origin;
      t := Shape(target, []);
      SingleSound(t);
      if HasKids(data) {
        t := CopyKids(target, s);
      }
      CopiedTree(s, t);
    }

    /** The loop of CopyTo. */
    method CopyKids(target: TiXmlNode, ghost s: Shape) returns (ghost t: Shape)
      requires s.node == this && Sound(s) && Sound(Shape(target, [])) && target !in Nodes(s)
      modifies target`firstChild, target`lastChild
      ensures t.node == target && Sound(t)
      ensures forall n :: n in Nodes(t) ==> n == target || fresh(n)
      ensures TreesOf(t.subs) == AllCopied(old(TreesOf(s.subs)))
      decreases s, 1
    {
      hide *;
      assert allocated(Nodes(s)) && allocated(AllNodes(s.subs));
      RootsInside(s);
      ghost var trees := TreesOf(s.subs);
      t := Shape(target, []);
      NodesOfSingle(t);
      NothingCopied(trees);
      ghost var i := 0;
      var node := firstChild;
      Siblings(s);
      while node != null
        invariant 0 <= i <= |s.subs| && node == if i < |s.subs| then s.subs[i].node else null
        invariant Sound(s) && TreesOf(s.subs) == trees
        invariant t.node == target && Sound(t)
        invariant forall n :: n in Nodes(t) ==> n == target || fresh(n)
        invariant TreesOf(t.subs) == AllCopied(trees[..i])
        decreases |s.subs| - i
      {
        ghost var ct;
        assert allocated(Nodes(t)) && allocated(AllNodes(t.subs));
        RootsInside(t);
        RootApart(t);
        node, ct := node.CopyChild(target, s, i, t);
        NextCopied(trees, i);
        t := Shape(target, t.subs + [ct]);
        i := i + 1;
      }
      assert trees[..i] == trees;
    }

    /** One pass of the loop of CopyTo: the copy of a child is linked to the target. */
    method CopyChild(target: TiXmlNode, ghost s: Shape, ghost i: nat, ghost t: Shape)
      returns (sibling: TiXmlNode?, ghost ct: Shape)
      requires Sound(s) && i < |s.subs| && s.subs[i].node == this
      requires t.node == target && Sound(t) && Nodes(s) !! Nodes(t)
      modifies target`firstChild, target`lastChild, AllNodes(t.subs)`next
      ensures sibling == if i + 1 < |s.subs| then s.subs[i + 1].node else null
      ensures fresh(Nodes(ct)) && Sound(Shape(target, t.subs + [ct]))
      ensures Nodes(Shape(target, t.subs + [ct])) == Nodes(t) + Nodes(ct)
      ensures TreesOf(t.subs + [ct]) == TreesOf(t.subs) + [Copied(old(TreesOf(s.subs))[i])]
      decreases s, 0
    {
      hide Shapes, AllShapes, Nodes, AllNodes, Proper, AllProper, Roots, Links, Chain, Linked, Sound, TreeOf, Copied;
      assert allocated(Nodes(t)) && allocated(AllNodes(t.subs)) && allocated(Nodes(s));
      RootsInside(t);
      RootsInside(s.subs[i]);
      NodesInside(s, i);
      SubsSound(s);
      SiblingAt(s, i);
      TreesAt(s.subs, i);
      var copy;
      copy, ct := Clone(s.subs[i]);
      assert allocated(Nodes(ct));
      RootsInside(ct);
      assert this !in Nodes(t) && this != copy;
      var linked := target.LinkEndChild(copy, t, ct, []);
      TreesAppend(t.subs, ct);
      sibling := next;
    }

    /** LinkEndChild: a document is refused and the error recorded; any other tree becomes the last child. */
    method LinkEndChild(node: TiXmlNode, ghost s: Shape, ghost t: Shape, ghost up: seq<TiXmlNode>)
      returns (r: TiXmlNode?)
      requires s.node == this && t.node == node && Sound(s) && Sound(t) && Nodes(s) !! Nodes(t)
      requires node.data.DocumentData? ==> Ancestry(this, up)
      modifies this`firstChild, this`lastChild, node`parent, node`prev, node`next, Roots(s.subs)`next, up`data
      ensures forall k :: k in up ==>
                k.data == if old(node.data.DocumentData?) then old(Refused(k, up)) else old(k.data)
      ensures old(node.data.DocumentData?) ==> r == null && Sound(s) && Sound(t)
      ensures old(!node.data.DocumentData?) ==> r == node && Sound(Shape(this, s.subs + [t]))
      ensures Nodes(Shape(this, s.subs + [t])) == Nodes(s) + Nodes(t)
    {
      hide Shapes, AllShapes, Nodes, AllNodes, Below, Proper, AllProper, Roots, Links, Chain, Linked, AllLinked,
           Distinct;
      AppendProper(s, t);
      if node.data.DocumentData? {
        Refuse(up, s, t);
        return null;
      }
      assert allocated(AllNodes(s.subs)) && allocated(Below(s.subs));
      assert allocated(Nodes(t)) && allocated(AllNodes(t.subs));
      ghost var kids := Roots(s.subs);
      TakeApart(s);
      TopsApart(s);
      RootsInside(s);
      RootsInside(t);
      RootApart(t);
      LinkLast(node, kids);
      RootsAppend(s.subs, t);
      AllLinkedConcat(s.subs, [t]);
      AllLinkedOne(t);
      Assemble(Shape(this, s.subs + [t]));
      return node;
    }

    /** InsertEndChild: a copy of `addThis` becomes the last child. */
    method InsertEndChild(addThis: TiXmlNode, ghost s: Shape, ghost add: Shape,
        ghost up: seq<TiXmlNode>)
      returns (r: TiXmlNode?, ghost t: Shape)
      requires s.node == this && Sound(s) && add.node == addThis && Sound(add)
      requires addThis.data.DocumentData? ==> Ancestry(this, up)
      modifies this`firstChild, this`lastChild, Roots(s.subs)`next, up`data
      ensures forall k :: k in up ==>
                k.data == if old(addThis.data.DocumentData?) then old(Refused(k, up)) else old(k.data)
      ensures r == null <==> old(addThis.data.DocumentData?)
      ensures r == null ==> Sound(s)
      ensures r != null ==> t.node == r && fresh(Nodes(t)) && TreeOf(t) == Copied(old(TreeOf(add)))
      ensures r != null ==> Sound(Shape(this, s.subs + [t]))
    {
      hide Shapes, AllShapes, Nodes, AllNodes, Proper, AllProper, Roots, Links, Chain, Linked, Sound, TreeOf, Copied;
      if addThis.data.DocumentData? {
        Refuse(up, s, add);
        return null, add;
      }
      assert allocated(Nodes(s)) && allocated(AllNodes(s.subs)) && allocated(Nodes(add));
      RootsInside(s);
      var node;
      node, t := addThis.Clone(add);
      assert allocated(Nodes(t));
      RootsInside(t);
      r := LinkEndChild(node, s, t, []);
    }

    /** InsertBeforeChild: a copy of `addThis` goes in front of a child. */
    method InsertBeforeChild(beforeThis: TiXmlNode?, addThis: TiXmlNode, ghost s: Shape, ghost i: nat, ghost add: Shape,
        ghost up: seq<TiXmlNode>)
      returns (r: TiXmlNode?, ghost t: Shape)
      requires s.node == this && Sound(s) && add.node == addThis && Sound(add)
      requires beforeThis != null && beforeThis.parent == this ==> i < |s.subs| && s.subs[i].node == beforeThis
      requires addThis.data.DocumentData? ==> Ancestry(this, up)
      modifies this`firstChild, Roots(s.subs)`next, Roots(s.subs)`prev, up`data
      ensures forall k :: k in up ==>
                k.data == if old(beforeThis != null && beforeThis.parent == this && addThis.data.DocumentData?)
                          then old(Refused(k, up)) else old(k.data)
      ensures r == null <==> beforeThis == null || old(beforeThis.parent) != this || old(addThis.data.DocumentData?)
      ensures r == null ==> Sound(s)
      ensures r != null ==> t.node == r && fresh(Nodes(t)) && TreeOf(t) == Copied(old(TreeOf(add)))
      ensures r != null ==> Sound(Shape(this, s.subs[..i] + [t] + s.subs[i..]))
    {
      hide Shapes, AllShapes, Nodes, AllNodes, Below, Proper, AllProper, Roots, Links, Chain, Linked, AllLinked, Copied,
           Distinct, TreeOf;
      t := add;
      if beforeThis == null || beforeThis.parent != this {
        return null, add;
      }
      if addThis.data.DocumentData? {
        Refuse(up, s, add);
        return null, add;
      }
      assert allocated(Nodes(s)) && allocated(AllNodes(s.subs)) && allocated(Below(s.subs)) && allocated(Nodes(add));
      ghost var a, b := s.subs[..i], s.subs[i + 1..];
      TakeApart(s);
      TopsApart(s);
      RootsInside(s);
      RootsAround(s.subs, i);
      var node;
      node, t := addThis.Clone(add);
      assert allocated(Nodes(t)) && allocated(AllNodes(t.subs));
      RootsInside(t);
      RootApart(t);
      LinkBefore(beforeThis, node, Roots(a), Roots(b));
      InsertProper(s, i, t);
      InsertLinked(s, i, t);
      Assemble(Shape(this, s.subs[..i] + [t] + s.subs[i..]));
      r := node;
    }

    /** InsertAfterChild: a copy of `addThis` goes behind a child. */
    method InsertAfterChild(afterThis: TiXmlNode?, addThis: TiXmlNode, ghost s: Shape, ghost i: nat, ghost add: Shape,
        ghost up: seq<TiXmlNode>)
      returns (r: TiXmlNode?, ghost t: Shape)
      requires s.node == this && Sound(s) && add.node == addThis && Sound(add)
      requires afterThis != null && afterThis.parent == this ==> i < |s.subs| && s.subs[i].node == afterThis
      requires addThis.data.DocumentData? ==> Ancestry(this, up)
      modifies this`lastChild, Roots(s.subs)`next, Roots(s.subs)`prev, up`data
      ensures forall k :: k in up ==>
                k.data == if old(afterThis != null && afterThis.parent == this && addThis.data.DocumentData?)
                          then old(Refused(k, up)) else old(k.data)
      ensures r == null <==> afterThis == null || old(afterThis.parent) != this || old(addThis.data.DocumentData?)
      ensures r == null ==> Sound(s)
      ensures r != null ==> t.node == r && fresh(Nodes(t)) && TreeOf(t) == Copied(old(TreeOf(add)))
      ensures r != null ==> Sound(Shape(this, s.subs[..i + 1] + [t] + s.subs[i + 1..]))
    {
      hide Shapes, AllShapes, Nodes, AllNodes, Below, Proper, AllProper, Roots, Links, Chain, Linked, AllLinked, Copied,
           Distinct, TreeOf;
      t := add;
      if afterThis == null || afterThis.parent != this {
        return null, add;
      }
      if addThis.data.DocumentData? {
        Refuse(up, s, add);
        return null, add;
      }
      assert allocated(Nodes(s)) && allocated(AllNodes(s.subs)) && allocated(Below(s.subs)) && allocated(Nodes(add));
      ghost var a, b := s.subs[..i], s.subs[i + 1..];
      TakeApart(s);
      TopsApart(s);
      RootsInside(s);
      RootsAround(s.subs, i);
      var node;
      node, t := addThis.Clone(add);
      assert allocated(Nodes(t)) && allocated(AllNodes(t.subs));
      RootsInside(t);
      RootApart(t);
      LinkAfter(afterThis, node, Roots(a), Roots(b));
      InsertProper(s, i + 1, t);
      InsertLinkedAfter(s, i, t);
      Assemble(Shape(this, s.subs[..i + 1] + [t] + s.subs[i + 1..]));
      r := node;
    }

    /** ReplaceChild: a copy of `withThis` takes the place of a child. */
    method ReplaceChild(replaceThis: TiXmlNode?, withThis: TiXmlNode, ghost s: Shape, ghost i: nat, ghost with: Shape,
        ghost up: seq<TiXmlNode>)
      returns (r: TiXmlNode?, ghost t: Shape)
      requires s.node == this && Sound(s) && with.node == withThis && Sound(with)
      requires replaceThis != null && replaceThis.parent == this ==> i < |s.subs| && s.subs[i].node == replaceThis
      requires withThis.data.DocumentData? ==> Ancestry(this, up)
      modifies this`firstChild, this`lastChild, Roots(s.subs)`next, Roots(s.subs)`prev, up`data
      ensures forall k :: k in up ==>
                k.data == if old(replaceThis != null && replaceThis.parent == this && withThis.data.DocumentData?)
                          then old(Refused(k, up)) else old(k.data)
      ensures r == null <==> replaceThis == null || old(replaceThis.parent) != this || old(withThis.data.DocumentData?)
      ensures r == null ==> Sound(s)
      ensures r != null ==> t.node == r && fresh(Nodes(t)) && TreeOf(t) == Copied(old(TreeOf(with)))
      ensures r != null ==> Sound(Shape(this, s.subs[..i] + [t] + s.subs[i + 1..]))
    {
      hide Shapes, AllShapes, Nodes, AllNodes, Below, Proper, AllProper, Roots, Links, Chain, Linked, AllLinked, Copied,
           Distinct, TreeOf;
      t := with;
      if replaceThis == null || replaceThis.parent != this {
        return null, with;
      }
      if withThis.data.DocumentData? {
        Refuse(up, s, with);
        return null, with;
      }
      assert allocated(Nodes(s)) && allocated(AllNodes(s.subs)) && allocated(Below(s.subs)) && allocated(Nodes(with));
      ghost var a, b := s.subs[..i], s.subs[i + 1..];
      TakeApart(s);
      TopsApart(s);
      RootsInside(s);
      RootsAround(s.subs, i);
      var node;
      node, t := withThis.Clone(with);
      assert allocated(Nodes(t)) && allocated(AllNodes(t.subs));
      RootsInside(t);
      RootApart(t);
      LinkInstead(replaceThis, node, Roots(a), Roots(b));
      ReplaceProper(s, i, t);
      ReplaceLinked(s, i, t);
      Assemble(Shape(this, s.subs[..i] + [t] + s.subs[i + 1..]));
      r := node;
    }

    /** RemoveChild: the child and its tree leave the list. */
    method RemoveChild(removeThis: TiXmlNode?, ghost s: Shape, ghost i: nat) returns (r: bool)
      requires s.node == this && Sound(s)
      requires removeThis != null && removeThis.parent == this ==> i < |s.subs| && s.subs[i].node == removeThis
      modifies this`firstChild, this`lastChild, Roots(s.subs)`next, Roots(s.subs)`prev
      ensures r <==> removeThis != null && old(removeThis.parent) == this
      ensures !r ==> Sound(s)
      ensures r ==> Sound(Shape(this, s.subs[..i] + s.subs[i + 1..]))
    {
      hide Shapes, AllShapes, Nodes, AllNodes, Below, Proper, AllProper, Roots, Links, Chain, Linked, AllLinked,
           Distinct;
      if removeThis == null || removeThis.parent != this {
        return false;
      }
      assert allocated(Nodes(s)) && allocated(AllNodes(s.subs)) && allocated(Below(s.subs));
      TakeApart(s);
      TopsApart(s);
      RootsInside(s);
      RootsAround(s.subs, i);
      Unlink(removeThis, Roots(s.subs[..i]), Roots(s.subs[i + 1..]));
      RemoveProper(s, i);
      RemoveLinked(s, i);
      Assemble(Shape(this, s.subs[..i] + s.subs[i + 1..]));
      r := true;
    }

    /** Clear: no children are left. */
    method Clear(ghost s: Shape)
      requires s.node == this && Sound(s)
      modifies this`firstChild, this`lastChild
      ensures Sound(Shape(this, []))
    {
      firstChild := null;
      lastChild := null;
      assert Roots([]) == [];
      SingleSound(Shape(this, []));
    }

    /** FirstChild: the first child with this value, compared by strcmp. */
    method FirstChild(value: string, ghost s: Shape) returns (r: TiXmlNode?)
      requires s.node == this && Sound(s)
      ensures r == null ==> forall i :: 0 <= i < |s.subs| ==> CString(ValueOf(s.subs[i].node.data)) != CString(value)
      ensures r != null ==> CString(ValueOf(r.data)) == CString(value) &&
                            exists i :: 0 <= i < |s.subs| && r == s.subs[i].node &&
                              forall j :: 0 <= j < i ==> CString(ValueOf(s.subs[j].node.data)) != CString(value)
    {
      hide Sound, ValueOf, CString;
      Siblings(s);
      ghost var i := 0;
      r := firstChild;
      while r != null
        invariant Sound(s) && 0 <= i <= |s.subs| && r == if i < |s.subs| then s.subs[i].node else null
        invariant forall j :: 0 <= j < i ==> CString(ValueOf(s.subs[j].node.data)) != CString(value)
        decreases |s.subs| - i
      {
        if CString(ValueOf(r.data)) == CString(value) {
          return;
        }
        SiblingAt(s, i);
        r := r.next;
        i := i + 1;
      }
    }
  }

  lemma {:induction false} FindBelow(subs: seq<Shape>, n: TiXmlNode) returns (i: nat)
    requires n in Below(subs)
    ensures i < |subs| && n in AllNodes(subs[i].subs)
  {
    if n in AllNodes(subs[0].subs) {
      i := 0;
    } else {
      var j := FindBelow(subs[1..], n);
      i := j + 1;
    }
  }

  /** The root and its children are not below any child, so that their links can be set freely. */
  lemma TopsApart(s: Shape)
    requires Proper(s)
    ensures s.node !in AllNodes(s.subs) && s.node !in Below(s.subs)
    ensures Below(s.subs) <= AllNodes(s.subs)
    ensures forall k :: k in Roots(s.subs) ==> k in AllNodes(s.subs) && k !in Below(s.subs)
    ensures Distinct(Roots(s.subs))
  {
    var subs := s.subs;
    forall n | n in Below(subs)
      ensures n in AllNodes(subs) && n !in Roots(subs)
    {
      var i := FindBelow(subs, n);
      SubInside(subs, i);
      forall j | 0 <= j < |subs|
        ensures Roots(subs)[j] != n
      {
        RootNotBelow(subs, j, i);
      }
    }
    forall i | 0 <= i < |subs|
      ensures Roots(subs)[i] in AllNodes(subs)
    {
      RootNotBelow(subs, i, i);
    }
    forall i, j | 0 <= i < j < |subs|
      ensures Roots(subs)[i] != Roots(subs)[j]
    {
      RootsDiffer(subs, i, j);
    }
  }

  lemma RootsAppend(subs: seq<Shape>, t: Shape)
    ensures Roots(subs + [t]) == Roots(subs) + [t.node]
  {}

  /** The children around one of them. */
  lemma RootsAround(subs: seq<Shape>, i: nat)
    requires i < |subs|
    ensures Roots(subs) == Roots(subs[..i]) + [subs[i].node] + Roots(subs[i + 1..])
    ensures forall k :: k in Roots(subs[..i]) || k in Roots(subs[i + 1..]) ==> k in Roots(subs)
  {
    var a, b := Roots(subs[..i]), Roots(subs[i + 1..]);
    assert forall j :: 0 <= j < |a| ==> a[j] == Roots(subs)[j];
    assert forall j :: 0 <= j < |b| ==> b[j] == Roots(subs)[i + 1 + j];
  }

  /** The trees below are linked after an insertion, and these are the children. */
  lemma InsertLinked(s: Shape, i: nat, t: Shape)
    requires i < |s.subs| && AllLinked(s.subs) && Linked(t)
    ensures AllLinked(s.subs[..i] + [t] + s.subs[i..])
    ensures Roots(s.subs[..i] + [t] + s.subs[i..]) ==
            Roots(s.subs[..i]) + [t.node, s.subs[i].node] + Roots(s.subs[i + 1..])
  {
    hide AllLinked, Linked;
    assert s.subs[..i] + s.subs[i..] == s.subs;
    AllLinkedConcat(s.subs[..i], s.subs[i..]);
    AllLinkedInsert(s.subs[..i], t, s.subs[i..]);
  }

  lemma InsertLinkedAfter(s: Shape, i: nat, t: Shape)
    requires i < |s.subs| && AllLinked(s.subs) && Linked(t)
    ensures AllLinked(s.subs[..i + 1] + [t] + s.subs[i + 1..])
    ensures Roots(s.subs[..i + 1] + [t] + s.subs[i + 1..]) ==
            Roots(s.subs[..i]) + [s.subs[i].node, t.node] + Roots(s.subs[i + 1..])
  {
    hide AllLinked, Linked;
    assert s.subs[..i + 1] + s.subs[i + 1..] == s.subs;
    AllLinkedConcat(s.subs[..i + 1], s.subs[i + 1..]);
    AllLinkedInsert(s.subs[..i + 1], t, s.subs[i + 1..]);
  }

  lemma ReplaceLinked(s: Shape, i: nat, t: Shape)
    requires i < |s.subs| && AllLinked(s.subs) && Linked(t)
    ensures AllLinked(s.subs[..i] + [t] + s.subs[i + 1..])
    ensures Roots(s.subs[..i] + [t] + s.subs[i + 1..]) == Roots(s.subs[..i]) + [t.node] + Roots(s.subs[i + 1..])
  {
    hide AllLinked, Linked;
    assert s.subs[..i] + [s.subs[i]] + s.subs[i + 1..] == s.subs;
    AllLinkedInsert(s.subs[..i], s.subs[i], s.subs[i + 1..]);
    AllLinkedInsert(s.subs[..i], t, s.subs[i + 1..]);
  }

  lemma RemoveLinked(s: Shape, i: nat)
    requires i < |s.subs| && AllLinked(s.subs)
    ensures AllLinked(s.subs[..i] + s.subs[i + 1..])
    ensures Roots(s.subs[..i] + s.subs[i + 1..]) == Roots(s.subs[..i]) + [] + Roots(s.subs[i + 1..])
  {
    hide AllLinked, Linked;
    assert s.subs[..i] + [s.subs[i]] + s.subs[i + 1..] == s.subs;
    AllLinkedInsert(s.subs[..i], s.subs[i], s.subs[i + 1..]);
    AllLinkedConcat(s.subs[..i], s.subs[i + 1..]);
  }

  lemma RemoveProper(s: Shape, i: nat)
    requires Proper(s) && i < |s.subs|
    ensures var subs := s.subs[..i] + s.subs[i + 1..];
            Proper(Shape(s.node, subs)) && AllNodes(subs) <= AllNodes(s.subs)
  {
    var a, m, b := s.subs[..i], [s.subs[i]], s.subs[i + 1..];
    assert a + m + b == s.subs;
    ConcatProper(a + m, b);
    ConcatNodes(a + m, b);
    ConcatProper(a, m);
    ConcatNodes(a, m);
    ConcatProper(a, b);
    ConcatNodes(a, b);
  }

  lemma ReplaceProper(s: Shape, i: nat, t: Shape)
    requires Proper(s) && Proper(t) && Nodes(s) !! Nodes(t) && i < |s.subs|
    ensures var subs := s.subs[..i] + [t] + s.subs[i + 1..];
            Proper(Shape(s.node, subs)) && AllNodes(subs) <= AllNodes(s.subs) + {t.node} + AllNodes(t.subs)
  {
    RemoveProper(s, i);
    var u := Shape(s.node, s.subs[..i] + s.subs[i + 1..]);
    assert u.subs[..i] == s.subs[..i] && u.subs[i..] == s.subs[i + 1..];
    InsertProper(u, i, t);
  }

  lemma InsertProper(s: Shape, i: nat, t: Shape)
    requires Proper(s) && Proper(t) && Nodes(s) !! Nodes(t) && i <= |s.subs|
    ensures var subs := s.subs[..i] + [t] + s.subs[i..];
            Proper(Shape(s.node, subs)) && AllNodes(subs) == AllNodes(s.subs) + {t.node} + AllNodes(t.subs)
  {
    var a, b := s.subs[..i], s.subs[i..];
    assert a + b == s.subs;
    ConcatProper(a, b);
    ConcatNodes(a, b);
    ConcatProper(a, [t]);
    ConcatNodes(a, [t]);
    ConcatProper(a + [t], b);
    ConcatNodes(a + [t], b);
    OneShape(t);
  }

  /** The attribute part of TiXmlElement::CopyTo. */
  method CopyAttributes(attrs: seq<Attr>) returns (copy: seq<Attr>)
    ensures copy == SetAttrs([], Reached(attrs))
  {
    copy := [];
    var i := 0;
    var attribute := attrs != [];
    ghost var todo := Reached(attrs);
    assert attrs[0..] == attrs;
    while attribute
      invariant attribute ==> i < |attrs| && todo == Reached(attrs[i..])
      invariant !attribute ==> todo == []
      invariant SetAttrs(copy, todo) == SetAttrs([], Reached(attrs))
      decreases |attrs| - i, attribute
    {
      assert attrs[i..][1..] == attrs[i + 1..];
      assert todo[0] == attrs[i];
      copy := SetAttr(copy, attrs[i].name, attrs[i].value);
      todo := todo[1..];
      i := i + 1;
      attribute := i < |attrs| && !(attrs[i].value == "" && attrs[i].name == "");
    }
  }

  /** A tree beside this one can become its last branch. */
  lemma AppendProper(s: Shape, t: Shape)
    requires Proper(s) && Proper(t) && Nodes(s) !! Nodes(t)
    ensures Proper(Shape(s.node, s.subs + [t]))
    ensures AllNodes(s.subs + [t]) == AllNodes(s.subs) + {t.node} + AllNodes(t.subs)
    ensures Nodes(Shape(s.node, s.subs + [t])) == Nodes(s) + Nodes(t)
  {
    ConcatNodes(s.subs, [t]);
    ConcatProper(s.subs, [t]);
    OneShape(t);
  }
}
