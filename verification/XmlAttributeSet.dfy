// The attributes of an element (tinyxml.cpp): a doubly linked ring around a
// sentinel, which holds them in the order in which they were added.
module XmlAttributeSet {
  import opened Sequences
  import opened XmlParser
  import D = XmlDom

  class TiXmlAttribute {
    var name: string
    var value: string
    var prev: TiXmlAttribute?
    var next: TiXmlAttribute?

    constructor ()
      ensures name == "" && value == "" && prev == null && next == null
    {
      name, value, prev, next := "", "", null, null;
    }
  }

  /** A stretch of the ring between two neighbours. */
  ghost predicate Chain(before: TiXmlAttribute, part: seq<TiXmlAttribute>, after: TiXmlAttribute)
    reads part`prev, part`next
  {
    && (part != [] ==> part[0].prev == before && part[|part| - 1].next == after)
    && (forall i, j :: 0 <= i < j < |part| && j == i + 1 ==> part[i].next == part[j] && part[j].prev == part[i])
  }

  lemma ChainSplit(before: TiXmlAttribute, a: seq<TiXmlAttribute>, b: seq<TiXmlAttribute>, after: TiXmlAttribute)
    ensures Chain(before, a + b, after) <==> Chain(before, a, FirstOr(b, after)) && Chain(LastOr(a, before), b, after)
    ensures FirstOr(a + b, after) == FirstOr(a, FirstOr(b, after))
    ensures LastOr(a + b, before) == LastOr(b, LastOr(a, before))
  {
    var all := a + b;
    assert forall i :: 0 <= i < |a| ==> all[i] == a[i];
    assert forall i :: 0 <= i < |b| ==> all[|a| + i] == b[i];
    if Chain(before, all, after) {
      forall i, j | 0 <= i < j < |b| && j == i + 1
        ensures b[i].next == b[j] && b[j].prev == b[i]
      {
        assert all[|a| + i].next == all[|a| + j];
      }
      if a != [] && b != [] {
        assert all[|a| - 1].next == all[|a|];
      }
    }
    if Chain(before, a, FirstOr(b, after)) && Chain(LastOr(a, before), b, after) {
      forall i, j | 0 <= i < j < |all| && j == i + 1
        ensures all[i].next == all[j] && all[j].prev == all[i]
      {
        if j < |a| {
          assert a[i].next == a[j];
        } else if i >= |a| {
          assert b[i - |a|].next == b[j - |a|];
        }
      }
    }
  }

  /** What a list of attributes holds. */
  ghost function Held(list: seq<TiXmlAttribute>): (c: seq<Attr>)
    reads list`name, list`value
    ensures |c| == |list| && forall i :: 0 <= i < |c| ==> c[i] == Attr(list[i].name, list[i].value)
  {
    if list == [] then [] else [Attr(list[0].name, list[0].value)] + Held(list[1..])
  }

  class TiXmlAttributeSet {
    const sentinel: TiXmlAttribute
    ghost var list: seq<TiXmlAttribute>

    /** The ring holds exactly the list, in order. */
    ghost predicate Ring(list: seq<TiXmlAttribute>)
      reads sentinel`prev, sentinel`next, list`prev, list`next
    {
      && sentinel !in list && Distinct(list)
      && sentinel.next == FirstOr(list, sentinel) && sentinel.prev == LastOr(list, sentinel)
      && Chain(sentinel, list, sentinel)
    }

    ghost predicate Valid()
      reads this`list, sentinel`prev, sentinel`next, list`prev, list`next, list`name, list`value
    {
      Ring(list) && D.DistinctNames(Held(list))
    }

    constructor ()
      ensures Valid() && fresh(sentinel) && list == []
    {
      sentinel := new TiXmlAttribute();
      list := [];
      new;
      sentinel.next := sentinel;
      sentinel.prev := sentinel;
    }

    /** Find: the attribute with this name, compared by strcmp, if there is one. */
    method Find(name: string) returns (r: TiXmlAttribute?)
      requires Valid()
      ensures r == null ==> forall i :: 0 <= i < |list| ==> CString(list[i].name) != CString(name)
      ensures r != null ==> r in list && CString(r.name) == CString(name)
    {
      ghost var i := 0;
      var node := sentinel.next;
      while node != sentinel
        invariant 0 <= i <= |list| && node == if i < |list| then list[i] else sentinel
        invariant forall j :: 0 <= j < i ==> CString(list[j].name) != CString(name)
        decreases |list| - i
      {
        if CString(node.name) == CString(name) {
          return node;
        }
        assert i + 1 < |list| ==> list[i].next == list[i + 1];
        node := node.next;
        i := i + 1;
      }
      return null;
    }

    /** Add: behind all others. */
    method Add(addMe: TiXmlAttribute)
      requires Ring(list) && addMe != sentinel && addMe !in list
      modifies this`list, addMe`prev, addMe`next, sentinel`prev, sentinel`next, list`next
      ensures Ring(list) && list == old(list) + [addMe]
    {
      addMe.next := sentinel;
      addMe.prev := sentinel.prev;
      sentinel.prev.next := addMe;
      sentinel.prev := addMe;
      ChainSplit(sentinel, list, [addMe], sentinel);
      list := list + [addMe];
    }

    /** Remove: the attribute leaves the ring; the others keep their order. */
    method Remove(removeMe: TiXmlAttribute, ghost a: seq<TiXmlAttribute>, ghost b: seq<TiXmlAttribute>)
      requires Ring(list) && list == a + [removeMe] + b
      modifies this`list, sentinel`prev, sentinel`next, list`prev, list`next
      ensures Ring(list) && list == a + b
      ensures removeMe.next == null && removeMe.prev == null
    {
      var node := FindLinked(removeMe, a, b);
      Unhook(node, a, b);
      node.next := null;
      node.prev := null;
      list := a + b;
    }

    /** The neighbours of the attribute are linked to each other. */
    method Unhook(node: TiXmlAttribute, ghost a: seq<TiXmlAttribute>, ghost b: seq<TiXmlAttribute>)
      requires Ring(list) && list == a + [node] + b
      modifies sentinel`prev, sentinel`next, list`prev, list`next
      ensures Ring(a + b) && node !in a + b && node in list && node != sentinel
    {
      DistinctParts(a, node, b);
      ChainSplit(sentinel, a + [node], b, sentinel);
      ChainSplit(sentinel, a, [node], FirstOr(b, sentinel));
      assert node.prev == LastOr(a, sentinel) && node.next == FirstOr(b, sentinel);
      assert a != [] ==> a[|a| - 1] in list;
      assert b != [] ==> b[0] in list;
      node.prev.next := node.next;
      node.next.prev := node.prev;
      ChainSplit(sentinel, a, b, sentinel);
    }

    /** The search loop of Remove ends at the attribute. */
    method FindLinked(removeMe: TiXmlAttribute, ghost a: seq<TiXmlAttribute>, ghost b: seq<TiXmlAttribute>)
      returns (node: TiXmlAttribute)
      requires Ring(list) && list == a + [removeMe] + b
      ensures node == removeMe
    {
      ghost var i := 0;
      node := sentinel.next;
      while node != sentinel && node != removeMe
        invariant 0 <= i <= |a| && node == list[i]
        decreases |a| - i
      {
        assert list[i].next == list[i + 1];
        node := node.next;
        i := i + 1;
      }
    }

    /** FindOrCreate: an attribute with this name, new and without a value if there was none. */
    method FindOrCreate(name: string) returns (r: TiXmlAttribute)
      requires Valid()
      modifies this`list, sentinel`prev, sentinel`next, list`next
      ensures Valid() && r in list && CString(r.name) == CString(name)
      ensures r in old(list) ==> list == old(list) && Held(list) == old(Held(list))
      ensures r !in old(list) ==> list == old(list) + [r] && Held(list) == old(Held(list)) + [Attr(CString(name), "")]
      ensures r in old(list) || fresh(r)
    {
      hide Ring, Chain, D.DistinctNames, Held, CString;
      RingFacts();
      var attrib := Find(name);
      if attrib == null {
        attrib := new TiXmlAttribute();
        Add(attrib);
        attrib.name := CString(name);
        CStringIs(name);
        HeldAppend(old(list), attrib);
        NamesAppend(old(Held(list)), Attr(CString(name), ""));
      }
      return attrib;
    }

    lemma RingFacts()
      requires Ring(list)
      ensures sentinel !in list && Distinct(list)
    {}

    /** TiXmlElement::SetAttribute: the set changes as the sequence of its attributes does. */
    method SetAttribute(name: string, value: string)
      requires Valid()
      modifies this`list, sentinel`prev, sentinel`next, list`next, list`value
      ensures Valid() && Held(list) == D.SetAttr(old(Held(list)), name, value)
    {
      hide Ring, Chain, Held, D.DistinctNames, D.SetAttr, CString;
      ghost var was := Held(list);
      var attrib := FindOrCreate(name);
      ghost var now := Held(list);
      ghost var k: nat :| k < |list| && list[k] == attrib;
      RingFacts();
      attrib.value := CString(value);
      forall i | 0 <= i < |list| && i != k
        ensures Held(list)[i] == now[i]
      {
        assert list[i] != list[k];
      }
      assert Held(list) == now[k := Attr(now[k].name, CString(value))];
      if attrib in old(list) {
        D.SetAttrAt(was, k, name, value);
      } else {
        CStringIs(name);
        NewIsLast(was, Attr(CString(name), ""));
        D.SetAttrNew(was, name, value);
        assert list[|was|] == attrib;
        assert now[k := Attr(CString(name), CString(value))] == was + [Attr(CString(name), CString(value))];
      }
      D.SetAttrKeeps(was, name, value);
    }
  }

  lemma HeldAppend(list: seq<TiXmlAttribute>, a: TiXmlAttribute)
    ensures Held(list + [a]) == Held(list) + [Attr(a.name, a.value)]
  {}

  lemma NewIsLast(attrs: seq<Attr>, a: Attr)
    requires D.DistinctNames(attrs + [a])
    ensures forall i :: 0 <= i < |attrs| ==> CString(attrs[i].name) != CString(a.name)
  {
    assert (attrs + [a])[|attrs|] == a;
    assert forall i :: 0 <= i < |attrs| ==> (attrs + [a])[i] == attrs[i];
  }

  lemma NamesAppend(attrs: seq<Attr>, a: Attr)
    requires D.DistinctNames(attrs) && forall i :: 0 <= i < |attrs| ==> CString(attrs[i].name) != CString(a.name)
    ensures D.DistinctNames(attrs + [a])
  {}
}
