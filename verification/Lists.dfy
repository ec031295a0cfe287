/** threads/list.cc: singly linked nodes refining a sequence of keyed items. */
module Lists {

  datatype Elem<+T> = Elem(key: int, item: T)

  datatype Removal<+T> = Nothing | Removed(key: int, item: T)

  predicate Sorted<T>(s: seq<Elem<T>>) {
    forall i, j :: 0 <= i < j < |s| ==> s[i].key <= s[j].key
  }

  /** e before the first element with a greater key. */
  function Inserted<T>(s: seq<Elem<T>>, e: Elem<T>): (r: seq<Elem<T>>)
    ensures |r| == |s| + 1
  {
    if s == [] then [e]
    else if e.key < s[0].key then [e] + s
    else [s[0]] + Inserted(s[1..], e)
  }

  lemma {:induction false} InsertedAt<T>(s: seq<Elem<T>>, e: Elem<T>, i: nat)
    requires i <= |s| && (forall j :: 0 <= j < i ==> s[j].key <= e.key) && (i < |s| ==> e.key < s[i].key)
    ensures Inserted(s, e) == s[..i] + [e] + s[i..]
  {
    if i > 0 {
      InsertedAt(s[1..], e, i - 1);
      assert s[..i] == [s[0]] + s[1..][..i - 1] && s[1..][i - 1..] == s[i..];
    }
  }

  lemma {:induction false} InsertedItems<T>(s: seq<Elem<T>>, e: Elem<T>)
    ensures multiset(Inserted(s, e)) == multiset(s) + multiset{e}
  {
    if s != [] {
      InsertedItems(s[1..], e);
      assert s == [s[0]] + s[1..];
    }
  }

  /** r is s with e behind everything before the first greater key. */
  ghost predicate Behind<T>(s: seq<Elem<T>>, e: Elem<T>, r: seq<Elem<T>>) {
    exists i ::
      && 0 <= i <= |s| && r == s[..i] + [e] + s[i..]
      && (forall j :: 0 <= j < i ==> s[j].key <= e.key) && (i < |s| ==> e.key < s[i].key)
  }

  lemma {:induction false} FirstGreater<T>(s: seq<Elem<T>>, e: Elem<T>) returns (i: nat)
    ensures Behind(s, e, Inserted(s, e))
    ensures i <= |s| && Inserted(s, e) == s[..i] + [e] + s[i..]
    ensures (forall j :: 0 <= j < i ==> s[j].key <= e.key) && (i < |s| ==> e.key < s[i].key)
  {
    if s == [] || e.key < s[0].key {
      i := 0;
    } else {
      var k := FirstGreater(s[1..], e);
      i := k + 1;
    }
    InsertedAt(s, e, i);
  }

  predicate InPlace<T>(s: seq<Elem<T>>, e: Elem<T>, i: int) {
    && 0 <= i <= |s|
    && (forall j :: 0 <= j < i ==> s[j].key <= e.key) && (forall j :: i <= j < |s| ==> e.key < s[j].key)
  }

  /** Insertion keeps the order, and puts e last among its equals. */
  lemma {:induction false} InsertedSorted<T>(s: seq<Elem<T>>, e: Elem<T>)
    requires Sorted(s)
    ensures Sorted(Inserted(s, e))
    ensures exists i :: InPlace(s, e, i) && Inserted(s, e) == s[..i] + [e] + s[i..]
  {
    var i := Place(s, e);
    InsertedAt(s, e, i);
  }

  lemma {:induction false} Place<T>(s: seq<Elem<T>>, e: Elem<T>) returns (i: nat)
    requires Sorted(s)
    ensures InPlace(s, e, i)
  {
    if s == [] || e.key < s[0].key {
      i := 0;
    } else {
      var k := Place(s[1..], e);
      i := k + 1;
    }
  }

  class ListElement<T> {
    var next: ListElement?<T>
    var key: int
    var item: T

    constructor (item: T, key: int)
      ensures this.item == item && this.key == key && next == null
    {
      this.item, this.key, next := item, key, null;
    }
  }

  class List<T> {
    var first: ListElement?<T>
    var last: ListElement?<T>
    /** The elements in order. */
    ghost var nodes: seq<ListElement<T>>
    /** The elements this list has allocated. */
    ghost var repr: set<ListElement<T>>

    ghost predicate Valid()
      reads this, nodes
    {
      && (forall i :: 0 <= i < |nodes| ==> nodes[i] in repr)
      && (forall i, j :: 0 <= i < j < |nodes| ==> nodes[i] != nodes[j])
      && (forall i, j :: 0 <= i < j < |nodes| && j == i + 1 ==> nodes[i].next == nodes[j])
      && if nodes == [] then first == null && last == null
         else first == nodes[0] && last == nodes[|nodes| - 1] && nodes[|nodes| - 1].next == null
    }

    ghost function View(): (s: seq<Elem<T>>)
      reads this, nodes
      ensures |s| == |nodes|
    {
      seq(|nodes|, i requires 0 <= i < |nodes| reads this, nodes => Elem(nodes[i].key, nodes[i].item))
    }

    constructor ()
      ensures Valid() && View() == [] && repr == {}
    {
      first, last, nodes, repr := null, null, [], {};
    }

    method IsEmpty() returns (empty: bool)
      requires Valid()
      ensures empty <==> View() == []
    {
      empty := first == null;
    }

    /** The new element becomes the last one. */
    method PutLast(element: ListElement<T>)
      requires Valid() && element !in nodes && element.next == null
      modifies this, repr
      ensures Valid() && nodes == old(nodes) + [element] && repr == old(repr) + {element}
      ensures View() == old(View()) + [Elem(element.key, element.item)]
    {
      if first == null {
        first, last := element, element;
      } else {
        last.next := element;
        last := element;
      }
      nodes, repr := nodes + [element], repr + {element};
    }

    /** What next leads to. */
    lemma Link(i: nat)
      requires Valid() && i < |nodes|
      ensures nodes[i].next == if i + 1 < |nodes| then nodes[i + 1] else null
    {
      if i + 1 < |nodes| { assert nodes[i].next == nodes[i + 1]; }
    }

    method PutFirst(element: ListElement<T>)
      requires Valid() && element !in nodes && element.next == null
      modifies this, element
      ensures Valid() && nodes == [element] + old(nodes) && repr == old(repr) + {element}
      ensures View() == [Elem(old(element.key), old(element.item))] + old(View())
    {
      if first == null {
        first, last := element, element;
      } else {
        element.next := first;
        first := element;
      }
      nodes, repr := [element] + nodes, repr + {element};
    }

    /** The new element goes behind ptr, which is not the last one. */
    method PutAfter(ptr: ListElement<T>, element: ListElement<T>, ghost i: nat)
      requires Valid() && element !in nodes && i + 1 < |nodes| && ptr == nodes[i]
      modifies this, ptr, element
      ensures Valid() && nodes == old(nodes)[..i + 1] + [element] + old(nodes)[i + 1..] && repr == old(repr) + {element}
      ensures View() == old(View())[..i + 1] + [Elem(old(element.key), old(element.item))] + old(View())[i + 1..]
    {
      assert nodes[i].next == nodes[i + 1];
      element.next := ptr.next;
      ptr.next := element;
      nodes, repr := nodes[..i + 1] + [element] + nodes[i + 1..], repr + {element};
    }

    method Append(item: T)
      requires Valid()
      modifies this, repr
      ensures Valid() && View() == old(View()) + [Elem(0, item)]
      ensures fresh(repr - old(repr))
    {
      var element := new ListElement(item, 0);
      PutLast(element);
    }

    method Prepend(item: T)
      requires Valid()
      modifies this, repr
      ensures Valid() && View() == [Elem(0, item)] + old(View())
      ensures fresh(repr - old(repr))
    {
      var element := new ListElement(item, 0);
      PutFirst(element);
    }

    /** Walks to the last element before the first with a greater key. */
    method FindPlace(sortKey: int) returns (ptr: ListElement<T>, ghost i: nat)
      requires Valid() && nodes != [] && first != null && first.key <= sortKey
      ensures i < |nodes| && ptr == nodes[i]
      ensures ptr in nodes && ptr.key <= sortKey && (ptr.next != null ==> sortKey < ptr.next.key)
      ensures forall j :: 0 <= j <= i ==> View()[j].key <= sortKey
      ensures ptr.next != null ==> i + 1 < |nodes| && sortKey < View()[i + 1].key
      ensures ptr.next == null ==> i + 1 == |nodes|
    {
      ptr, i := first, 0;
      Link(0);
      while ptr.next != null
        invariant 0 <= i < |nodes| && ptr == nodes[i] && ptr.key <= sortKey && (ptr.next == null <==> i + 1 == |nodes|)
        invariant forall j :: 0 <= j <= i ==> View()[j].key <= sortKey
        decreases |nodes| - i
      {
        Link(i);
        if sortKey < ptr.next.key { return; }
        ptr, i := ptr.next, i + 1;
        Link(i);
      }
    }

    /** Before the first element with a greater key. */
    method SortedInsert(item: T, sortKey: int)
      requires Valid()
      modifies this, repr
      ensures Valid() && View() == Inserted(old(View()), Elem(sortKey, item))
      ensures Behind(old(View()), Elem(sortKey, item), View())
      ensures fresh(repr - old(repr))
    {
      hide Inserted, Behind;
      ghost var s, e := View(), Elem(sortKey, item);
      ghost var place := FirstGreater(s, e);
      var element := new ListElement(item, sortKey);
      if first == null {
        PutLast(element);
      } else if sortKey < first.key {
        assert s[0].key == first.key && place == 0;
        PutFirst(element);
      } else {
        var ptr, i := FindPlace(sortKey);
        assert View() == s;
        assert place == i + 1;
        if ptr.next != null {
          PutAfter(ptr, element, i);
        } else {
          PutLast(element);
        }
      }
    }

    /** Takes the first element off, with its key. */
    method SortedRemove() returns (r: Removal<T>)
      requires Valid()
      modifies this
      ensures Valid()
      ensures old(View()) == [] ==> r == Nothing && View() == []
      ensures old(View()) != [] ==> r == Removed(old(View())[0].key, old(View())[0].item) && View() == old(View())[1..]
      ensures repr == old(repr)
    {
      if first == null { return Nothing; }
      r := Removed(first.key, first.item);
      if first == last {
        first, last := null, null;
      } else {
        first := first.next;
      }
      nodes := nodes[1..];
    }

    method Remove() returns (r: Removal<T>)
      requires Valid()
      modifies this
      ensures Valid()
      ensures old(View()) == [] ==> r == Nothing && View() == []
      ensures old(View()) != [] ==> r.Removed? && r.item == old(View())[0].item && View() == old(View())[1..]
      ensures repr == old(repr)
    {
      r := SortedRemove();
    }
  }
}
