// TiXmlString (tinystr.cpp, tinystr.h): a growing buffer with a length, a
// capacity and a closing NUL.
module XmlString {
  import opened Sequences

  class Rep {
    var size: nat
    const capacity: nat
    const str: array<char>

    constructor (sz: nat, cap: nat)
      requires sz <= cap
      ensures size == sz && capacity == cap && fresh(str) && str.Length == cap + 1 && str[sz] == '\0'
    {
      size, capacity := sz, cap;
      var a := new char[cap + 1];
      str := a;
      new;
      str[sz] := '\0';
    }
  }

  class TiXmlString {
    var rep: Rep
    /** How many characters reserve has copied so far. */
    ghost var copied: nat

    ghost predicate Valid()
      reads this, rep, rep.str
    {
      && rep.size <= rep.capacity && rep.str.Length == rep.capacity + 1
      && rep.str[rep.size] == '\0'
    }

    ghost function Contents(): string
      reads this, rep, rep.str
      requires Valid()
    {
      rep.str[..rep.size]
    }

    /** What holds of a string that has only ever been appended to. */
    ghost predicate Grown()
      reads this, rep
    {
      copied <= rep.capacity && (rep.capacity == 0 || rep.capacity < 2 * rep.size)
    }

    constructor ()
      ensures Valid() && Contents() == "" && rep.capacity == 0 && fresh(rep) && fresh(rep.str) && Grown()
    {
      rep := new Rep(0, 0);
      copied := 0;
    }

    /** set_size. */
    method SetSize(sz: nat)
      requires rep.str.Length == rep.capacity + 1 && sz <= rep.capacity
      modifies rep`size, rep.str
      ensures Valid() && rep.size == sz
      ensures forall i :: 0 <= i < sz ==> rep.str[i] == old(rep.str[i])
    {
      rep.size := sz;
      rep.str[sz] := '\0';
    }

    /** reserve: a larger buffer with the same contents; a smaller capacity changes nothing. */
    method Reserve(cap: nat)
      requires Valid()
      modifies this
      ensures Valid() && Contents() == old(Contents())
      ensures rep.capacity == if cap > old(rep.capacity) then cap else old(rep.capacity)
      ensures if cap > old(rep.capacity) then fresh(rep) && fresh(rep.str) && copied == old(copied) + old(rep.size)
              else rep == old(rep) && copied == old(copied)
    {
      if cap > rep.capacity {
        ghost var was := Contents();
        var tmp := new Rep(rep.size, cap);
        MemCpy(tmp.str, 0, rep.str[..rep.size]);
        copied := copied + rep.size;
        rep := tmp;
        assert rep.str[0..rep.size] == rep.str[..rep.size] == was;
      }
    }

    /** append: doubling growth keeps the work in proportion to the text. */
    method Append(s: string)
      requires Valid()
      modifies this, rep, rep.str
      ensures Valid() && Contents() == old(Contents()) + s
      ensures rep == old(rep) || (fresh(rep) && fresh(rep.str))
      ensures old(Grown()) ==> Grown()
    {
      ghost var was := Contents();
      var newsize := rep.size + |s|;
      if newsize > rep.capacity {
        Reserve(newsize + rep.capacity);
      }
      MemCpy(rep.str, rep.size, s);
      Grow(rep.str, rep.size, newsize, was, s);
      SetSize(newsize);
      assert rep.str[..newsize] == was + s;
    }

    /** assign: the text replaces the contents; a buffer that is far too large is given up. */
    method Assign(s: string)
      requires Valid()
      modifies this, rep, rep.str
      ensures Valid() && Contents() == s
      ensures rep == old(rep) || (fresh(rep) && fresh(rep.str))
      ensures |s| <= rep.capacity <= 3 * (|s| + 8)
    {
      var cap := rep.capacity;
      if |s| > cap || cap > 3 * (|s| + 8) {
        var tmp := new Rep(|s|, |s|);
        MemCpy(tmp.str, 0, s);
        rep := tmp;
        assert rep.str[0..rep.size] == rep.str[..rep.size] == s;
      } else {
        MemCpy(rep.str, 0, s);
        assert rep.str[0..|s|] == rep.str[..|s|] == s;
        SetSize(|s|);
        assert rep.str[..|s|] == s;
      }
    }

    method Clear()
      requires Valid()
      modifies this
      ensures Valid() && Contents() == "" && rep.capacity == 0 && fresh(rep) && fresh(rep.str)
    {
      rep := new Rep(0, 0);
    }

    /** find: the first occurrence from an offset on, but never behind a NUL. */
    method Find(tofind: char, offset: nat) returns (found: bool, at: nat)
      requires Valid()
      ensures found ==> offset <= at < rep.size && rep.str[at] == tofind && tofind != '\0'
                        && forall i :: offset <= i < at ==> rep.str[i] != tofind && rep.str[i] != '\0'
      ensures !found && offset < rep.size ==>
                exists n :: offset <= n <= rep.size && rep.str[n] == '\0' && tofind !in rep.str[offset..n]
    {
      found, at := false, offset;
      if offset >= rep.size {
        return;
      }
      while rep.str[at] != '\0'
        invariant offset <= at <= rep.size
        invariant forall i :: offset <= i < at ==> rep.str[i] != tofind && rep.str[i] != '\0'
        decreases rep.size - at
      {
        if rep.str[at] == tofind {
          return true, at;
        }
        at := at + 1;
      }
    }
  }

  /** Any number of appends to a new string: the contents are the concatenation, the
      characters copied stay within the capacity, and the capacity below twice the length. */
  method AppendAll(parts: seq<string>) returns (t: TiXmlString)
    ensures fresh(t) && t.Valid() && t.Contents() == Concat(parts)
    ensures t.copied <= t.rep.capacity <= 2 * |Concat(parts)|
    ensures |Concat(parts)| > 0 ==> t.rep.capacity < 2 * |Concat(parts)|
  {
    t := new TiXmlString();
    var i := 0;
    while i < |parts|
      invariant 0 <= i <= |parts|
      invariant fresh(t) && fresh(t.rep) && fresh(t.rep.str) && t.Valid() && t.Grown()
      invariant t.Contents() == Concat(parts[..i])
    {
      assert parts[..i + 1] == parts[..i] + [parts[i]];
      ConcatSum(parts[..i], [parts[i]]);
      ConcatOne(parts[i]);
      t.Append(parts[i]);
      i := i + 1;
    }
    assert parts[..i] == parts;
  }
}
