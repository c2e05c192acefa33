/** Singly linked free lists threaded through an array of link fields, as the kernel keeps
    them in PageInfo.pp_link and Env.env_link. A link is an index; NULL stands for no element. */
module IntrusiveList {
  const NULL := -1

  /** Following `links` from `head` visits exactly the elements of `list`, in order, then NULL. */
  ghost predicate IsChain(links: seq<int>, head: int, list: seq<int>)
    decreases |list|
  {
    if list == [] then head == NULL
    else head == list[0] && 0 <= head < |links| && IsChain(links, links[head], list[1..])
  }

  ghost predicate Distinct<T>(list: seq<T>) {
    forall i, j :: 0 <= i < j < |list| ==> list[i] != list[j]
  }

  lemma {:induction false} ChainIsUnique(links: seq<int>, head: int, list: seq<int>, other: seq<int>)
    requires IsChain(links, head, list) && IsChain(links, head, other)
    ensures list == other
    decreases |list|
  {
    if list != [] && other != [] {
      ChainIsUnique(links, links[head], list[1..], other[1..]);
      assert list == [list[0]] + list[1..] && other == [other[0]] + other[1..];
    }
  }

  lemma {:induction false} ChainSuffix(links: seq<int>, head: int, list: seq<int>, i: nat)
    requires IsChain(links, head, list) && i < |list|
    ensures IsChain(links, list[i], list[i..]) && 0 <= list[i] < |links|
    decreases i
  {
    if i > 0 {
      ChainSuffix(links, links[head], list[1..], i - 1);
      assert list[1..][i - 1..] == list[i..];
    } else {
      assert list[0..] == list;
    }
  }

  /** A list that ends is acyclic: no element is visited twice. */
  lemma {:induction false} ChainIsDistinct(links: seq<int>, head: int, list: seq<int>)
    requires IsChain(links, head, list)
    ensures Distinct(list)
    ensures forall x :: x in list ==> 0 <= x < |links|
  {
    forall i, j | 0 <= i < j < |list| ensures list[i] != list[j] {
      ChainSuffix(links, head, list, i);
      ChainSuffix(links, head, list, j);
      assert |list[i..]| != |list[j..]|;
      if list[i] == list[j] {
        ChainIsUnique(links, list[i], list[i..], list[j..]);
      }
    }
    forall x | x in list ensures 0 <= x < |links| {
      var i :| 0 <= i < |list| && list[i] == x;
      ChainSuffix(links, head, list, i);
    }
  }

  /** Links of elements outside the list do not matter. */
  lemma {:induction false} ChainFrame(links: seq<int>, links': seq<int>, head: int, list: seq<int>)
    requires IsChain(links, head, list) && |links'| == |links|
    requires forall x :: x in list && 0 <= x < |links| ==> links'[x] == links[x]
    ensures IsChain(links', head, list)
    decreases |list|
  {
    if list != [] {
      assert forall x :: x in list[1..] ==> x in list;
      assert head in list;
      ChainFrame(links, links', links[head], list[1..]);
    }
  }

  /** Links that never leave a set of elements never end. */
  lemma {:induction false} NoEnd(links: seq<int>, head: int, within: seq<int>, list: seq<int>)
    requires head in within && forall x :: x in within ==> x != NULL && 0 <= x < |links| && links[x] in within
    ensures !IsChain(links, head, list)
    decreases |list|
  {
    if list != [] && head == list[0] { NoEnd(links, links[head], within, list[1..]); }
  }

  /** Putting the last element of a list in front once more closes a cycle: what follows is no list. */
  lemma TailInFrontAgain(links: seq<int>, head: int, list: seq<int>, other: seq<int>)
    requires IsChain(links, head, list) && list != []
    ensures 0 <= list[|list| - 1] < |links|
    ensures !IsChain(links[list[|list| - 1] := head], list[|list| - 1], other)
  {
    var p := list[|list| - 1];
    ChainIsDistinct(links, head, list);
    assert p in list && head in list;
    var links' := links[p := head];
    forall x | x in list ensures x != NULL && 0 <= x < |links'| && links'[x] in list {
      var i :| 0 <= i < |list| && list[i] == x;
      if i + 1 < |list| {
        ChainSuffix(links, head, list, i);
        ChainSuffix(links, head, list, i + 1);
        assert list[i..][1..] == list[i + 1..];
        assert links'[x] == list[i + 1];
      }
    }
    NoEnd(links', p, list, other);
  }
}
