/** The singly linked list of CWList.c, which holds the received fragments. */
module CWList {
  import opened Wire

  class ListElement<T> {
    const data: T
    var next: ListElement?<T>

    constructor (data: T, next: ListElement?<T>)
      ensures this.data == data && this.next == next
    {
      this.data := data;
      this.next := next;
    }
  }

  /** The list head a caller keeps; `spine` is the chain of nodes behind it, `contents` their data. */
  class List<T> {
    var head: ListElement?<T>
    ghost var spine: seq<ListElement<T>>
    ghost var contents: seq<T>

    ghost predicate Valid()
      reads this, spine
    {
      && (forall i, j :: 0 <= i < j < |spine| ==> spine[i] != spine[j])
      && head == NodeAt(0)
      && (forall i :: 0 <= i < |spine| ==> spine[i].next == NodeAt(i + 1))
      && |contents| == |spine|
      && (forall i :: 0 <= i < |spine| ==> spine[i].data == contents[i])
    }

    /** The i-th node, or null past the end. */
    ghost function NodeAt(i: nat): ListElement?<T>
      reads this
    {
      if i < |spine| then spine[i] else null
    }

    /** CW_LIST_INIT */
    constructor ()
      ensures Valid() && contents == [] && spine == []
    {
      head := null;
      spine, contents := [], [];
    }

    /** CWAddElementToList: adds at the head. */
    method AddElement(element: T)
      requires Valid()
      modifies this
      ensures Valid() && fresh(set n | n in spine && n !in old(spine))
      ensures |spine| == |old(spine)| + 1 && fresh(spine[0]) && spine[1..] == old(spine)
      ensures contents == [element] + old(contents)
    {
      head := new ListElement(element, head);
      spine, contents := [head] + spine, [element] + contents;
    }

    /** The walk to the last node. */
    method LastElement() returns (el: ListElement<T>)
      requires Valid() && spine != []
      ensures el == spine[|spine| - 1]
    {
      el := head;
      ghost var i := 0;
      while el.next != null
        invariant 0 <= i < |spine| && el == spine[i]
        decreases |spine| - i
      {
        el := el.next;
        i := i + 1;
      }
    }

    /** CWAddElementToListTail: walks to the last node and links after it. */
    method AddElementTail(element: T)
      requires Valid()
      modifies this, spine
      ensures Valid()
      ensures |spine| == |old(spine)| + 1 && fresh(spine[|spine| - 1]) && spine[..|spine| - 1] == old(spine)
      ensures contents == old(contents) + [element]
    {
      if head == null {
        head := new ListElement(element, null);
        spine, contents := [head], [element];
        return;
      }
      var el := LastElement();
      var added := new ListElement(element, null);
      el.next := added;
      spine, contents := spine + [added], contents + [element];
    }

    /** CWListGetFirstElem: unlinks the head. */
    method GetFirstElem() returns (r: Option<T>)
      requires Valid()
      modifies this, spine
      ensures Valid()
      ensures old(contents) == [] ==> r == None && contents == []
      ensures old(contents) != [] ==> r == Some(old(contents)[0]) && contents == old(contents)[1..]
    {
      if head == null {
        return None;
      }
      var first := head;
      head := head.next;
      first.next := null;
      r := Some(first.data);
      spine, contents := spine[1..], contents[1..];
    }

    /** CWSearchInList: the first element the comparison accepts. */
    method Search(base: T, compare: (T, T) -> bool) returns (r: Option<T>)
      requires Valid()
      ensures r == First(base, compare, contents)
    {
      var el := head;
      ghost var i := 0;
      while el != null
        invariant 0 <= i <= |spine| && el == NodeAt(i)
        invariant First(base, compare, contents) == First(base, compare, contents[i..])
        decreases |spine| - i
      {
        if compare(base, el.data) {
          return Some(el.data);
        }
        assert contents[i..][1..] == contents[i + 1..];
        el := el.next;
        i := i + 1;
      }
      r := None;
    }

    /** The relinking of CWDeleteInList: takes the i-th node out of the chain. */
    method Unlink(el: ListElement<T>, oldEl: ListElement?<T>, ghost i: nat)
      requires Valid() && i < |spine| && el == spine[i]
      requires i == 0 ==> oldEl == null
      requires i > 0 ==> oldEl == spine[i - 1]
      modifies this, spine
      ensures Valid()
      ensures contents == Splice(old(contents), i)
    {
      if oldEl != null {
        oldEl.next := el.next;
      } else {
        head := el.next;
      }
      spine, contents := Splice(spine, i), Splice(contents, i);
      forall k | 0 <= k < |spine|
        ensures spine[k].next == NodeAt(k + 1)
      {
        if k == i - 1 {
          assert spine[k] == oldEl;
        } else {
          assert spine[k] != oldEl;
        }
      }
    }

    /** CWDeleteInList: unlinks the first element the comparison accepts. */
    method DeleteIn(base: T, compare: (T, T) -> bool) returns (r: Option<T>)
      requires Valid()
      modifies this, spine
      ensures Valid()
      ensures r == First(base, compare, old(contents))
      ensures contents == WithoutFirst(base, compare, old(contents))
    {
      var el, oldEl := head, null;
      ghost var i := 0;
      while el != null
        invariant 0 <= i <= |spine| && el == NodeAt(i)
        invariant oldEl == if i == 0 then null else spine[i - 1]
        invariant Valid() && unchanged(this) && unchanged(spine)
        invariant forall k :: 0 <= k < i ==> !compare(base, contents[k])
        decreases |spine| - i
      {
        if compare(base, el.data) {
          FirstMatch(base, compare, contents, i);
          r := Some(el.data);
          Unlink(el, oldEl, i);
          return;
        }
        el, oldEl := el.next, el;
        i := i + 1;
      }
      NoMatch(base, compare, contents);
      r := None;
    }

    /** CWDeleteList; `deleted` records the calls of deleteFunc. */
    method DeleteAll() returns (deleted: seq<T>)
      requires Valid()
      modifies this
      ensures Valid() && contents == [] && spine == []
      ensures deleted == old(contents)
    {
      deleted := [];
      ghost var i := 0;
      while head != null
        invariant 0 <= i <= |old(spine)| && spine == old(spine)[i..] && contents == old(contents)[i..] && Valid()
        invariant deleted == old(contents)[..i]
        decreases |old(spine)| - i
      {
        var el := head;
        assert el == old(spine)[i];
        head := head.next;
        spine, contents := spine[1..], contents[1..];
        deleted := deleted + [el.data];
        i := i + 1;
      }
    }

    /** CWCountElementInList */
    method Count() returns (count: nat)
      requires Valid()
      ensures count == |contents|
    {
      count := 0;
      var current := head;
      while current != null
        invariant 0 <= count <= |spine| && current == NodeAt(count)
        decreases |spine| - count
      {
        count := count + 1;
        current := current.next;
      }
    }
  }

  /** s without its i-th element. */
  function Splice<T>(s: seq<T>, i: nat): (r: seq<T>)
    requires i < |s|
    ensures |r| == |s| - 1
    ensures forall k :: 0 <= k < |r| ==> r[k] == s[if k < i then k else k + 1]
  {
    s[..i] + s[i + 1..]
  }

  function First<T>(base: T, compare: (T, T) -> bool, s: seq<T>): Option<T> {
    if s == [] then None
    else if compare(base, s[0]) then Some(s[0])
    else First(base, compare, s[1..])
  }

  function WithoutFirst<T>(base: T, compare: (T, T) -> bool, s: seq<T>): seq<T> {
    if s == [] then []
    else if compare(base, s[0]) then s[1..]
    else [s[0]] + WithoutFirst(base, compare, s[1..])
  }

  lemma {:induction false} FirstMatch<T>(base: T, compare: (T, T) -> bool, s: seq<T>, i: nat)
    requires i < |s| && compare(base, s[i])
    requires forall k :: 0 <= k < i ==> !compare(base, s[k])
    ensures First(base, compare, s) == Some(s[i])
    ensures WithoutFirst(base, compare, s) == Splice(s, i)
  {
    if i > 0 {
      FirstMatch(base, compare, s[1..], i - 1);
      assert Splice(s, i) == [s[0]] + Splice(s[1..], i - 1);
    }
  }

  lemma {:induction false} NoMatch<T>(base: T, compare: (T, T) -> bool, s: seq<T>)
    requires forall k :: 0 <= k < |s| ==> !compare(base, s[k])
    ensures First(base, compare, s) == None && WithoutFirst(base, compare, s) == s
  {
    if s != [] {
      NoMatch(base, compare, s[1..]);
    }
  }

  /** A search fails exactly when nothing in the list matches, and finds a match otherwise. */
  lemma {:induction false} FirstFinds<T>(base: T, compare: (T, T) -> bool, s: seq<T>)
    ensures First(base, compare, s).None? <==> forall x :: x in s ==> !compare(base, x)
    ensures First(base, compare, s).Some? ==>
      First(base, compare, s).value in s && compare(base, First(base, compare, s).value)
  {
    if s != [] {
      FirstFinds(base, compare, s[1..]);
      assert s == [s[0]] + s[1..];
    }
  }

  lemma HeadAndTail<T>(s: seq<T>)
    requires s != []
    ensures multiset(s) == multiset{s[0]} + multiset(s[1..])
  {
    assert s == [s[0]] + s[1..];
  }

  /** Deleting removes the element a search finds, once, and nothing else. */
  lemma {:induction false} DeletionRemovesTheFound<T>(base: T, compare: (T, T) -> bool, s: seq<T>)
    ensures First(base, compare, s).None? ==> WithoutFirst(base, compare, s) == s
    ensures First(base, compare, s).Some? ==>
      multiset(s) == multiset(WithoutFirst(base, compare, s)) + multiset{First(base, compare, s).value}
  {
    if s != [] {
      DeletionRemovesTheFound(base, compare, s[1..]);
      HeadAndTail(s);
      if !compare(base, s[0]) {
        HeadAndTail(WithoutFirst(base, compare, s));
      }
    }
  }
}
