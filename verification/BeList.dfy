/**
  Persistent doubly linked lists.  The head of a list has the layout of a link
  and closes the ring: its first pointer is the first element, its second the
  last one.
 */
module BeList {
  import opened Prelude

  class Link {
    var next: Link
    var prev: Link

    /** A link that is in no list points to itself. */
    constructor ()
      ensures next == this == prev
    {
      next, prev := this, this;
    }

    predicate InList()
      reads this
    {
      prev != this
    }
  }

  ghost predicate Distinct(s: seq<Link>) {
    forall i, j :: 0 <= i < j < |s| ==> s[i] != s[j]
  }

  /** Link number `i` of the ring; the head stands at both ends. */
  function Ring(head: Link, items: seq<Link>, i: int): Link {
    if 0 < i <= |items| then items[i - 1] else head
  }

  /** Two neighbours of the ring point to each other. */
  ghost predicate Joined(head: Link, items: seq<Link>, i: int)
    reads Ring(head, items, i), Ring(head, items, i + 1)
  {
    && Ring(head, items, i).next == Ring(head, items, i + 1)
    && Ring(head, items, i + 1).prev == Ring(head, items, i)
  }

  /** The items that are kept when `drop` says which ones go. */
  function Kept(items: seq<Link>, drop: seq<bool>): seq<Link>
    requires |drop| == |items|
  {
    if items == [] then []
    else (if drop[0] then [] else [items[0]]) + Kept(items[1..], drop[1..])
  }

  class List {
    const head: Link
    ghost var items: seq<Link>

    /** Both chains of pointers run through the items in order and back to the head. */
    ghost predicate Valid()
      reads this, head, items
    {
      && head !in items && Distinct(items)
      && forall i :: 0 <= i <= |items| ==> Joined(head, items, i)
    }

    constructor ()
      ensures Valid() && items == [] && fresh(head)
    {
      head := new Link();
      items := [];
    }

    predicate IsEmpty()
      reads head
    {
      head.next == head
    }

    lemma EmptyMeans()
      requires Valid()
      ensures IsEmpty() <==> items == []
    {
      assert Joined(head, items, 0);
    }

    /** A link that points back to itself is none of the items. */
    lemma DetachedMeans(link: Link)
      requires Valid() && link != head
      ensures link in items ==> link.InList()
    {
      if link in items {
        var k :| 0 <= k < |items| && items[k] == link;
        assert Joined(head, items, k);
      }
    }

    /** The pointers determine the items: no other sequence fits the ring. */
    lemma SameItems(other: seq<Link>)
      requires Valid() && head !in other
      requires forall i :: 0 <= i <= |other| ==> Joined(head, other, i)
      ensures other == items
    {
      var n := if |items| < |other| then |items| else |other|;
      SamePrefix(other, n);
      forall i | 0 <= i < n ensures other[i] == items[i] {
        assert Ring(head, other, i + 1) == Ring(head, items, i + 1);
      }
      assert Joined(head, items, n) && Joined(head, other, n);
      assert Ring(head, other, n) == Ring(head, items, n);
    }

    lemma {:induction false} SamePrefix(other: seq<Link>, n: nat)
      requires Valid() && n <= |items| && n <= |other|
      requires forall i :: 0 <= i <= |other| ==> Joined(head, other, i)
      ensures forall i :: 0 <= i <= n ==> Ring(head, other, i) == Ring(head, items, i)
    {
      if n > 0 {
        SamePrefix(other, n - 1);
        assert Joined(head, items, n - 1) && Joined(head, other, n - 1);
      }
    }

    /** All neighbours point to each other except those at place `k`, between which `link` was put. */
    ghost predicate Spliced(was: seq<Link>, k: nat, link: Link)
      requires k <= |was|
      reads head, was, link
    {
      && Ring(head, was, k).next == link && link.prev == Ring(head, was, k)
      && Ring(head, was, k + 1).prev == link && link.next == Ring(head, was, k + 1)
      && forall i :: 0 <= i <= |was| && i != k ==> Joined(head, was, i)
    }

    lemma SplicedValid(was: seq<Link>, k: nat, link: Link)
      requires k <= |was| && head !in was && Distinct(was) && link !in was && link != head
      requires Spliced(was, k, link) && items == was[..k] + [link] + was[k..]
      ensures Valid()
    {
      forall i | 0 <= i <= |items| ensures Joined(head, items, i) {
        if i < k {
          assert Joined(head, was, i);
        } else if i > k + 1 {
          assert Joined(head, was, i - 1);
        }
      }
    }

    /** The items without the one at place `k`, whose neighbours point past it. */
    lemma CutValid(was: seq<Link>, k: nat)
      requires k < |was| && head !in was && Distinct(was)
      requires items == was[..k] + was[k + 1..]
      requires Ring(head, was, k).next == Ring(head, was, k + 2) && Ring(head, was, k + 2).prev == Ring(head, was, k)
      requires forall i :: 0 <= i <= |was| && i != k && i != k + 1 ==> Joined(head, was, i)
      ensures Valid()
    {
      forall i | 0 <= i <= |items| ensures Joined(head, items, i) {
        if i < k {
          assert Joined(head, was, i);
        } else if i > k {
          assert Joined(head, was, i + 1);
        }
      }
    }

    /** Insert in front of all items. */
    method Add(link: Link)
      requires Valid() && link != head && !link.InList()
      modifies this, head, head.next, link
      ensures Valid() && items == [link] + old(items)
    {
      ghost var was := items;
      DetachedMeans(link);
      EmptyMeans();
      assert Joined(head, was, 0) && Joined(head, was, |was|);
      if IsEmpty() {
        head.prev := link;
      } else {
        head.next.prev := link;
      }
      link.prev := head;
      link.next := head.next;
      head.next := link;
      items := [link] + items;
      forall i | 0 < i <= |was| ensures Joined(head, was, i) { assert old(Joined(head, was, i)); }
      assert items == was[..0] + [link] + was[0..];
      SplicedValid(was, 0, link);
    }

    /** Insert behind the item at place `k`. */
    method AddAfter(after: Link, link: Link, ghost k: nat)
      requires Valid() && link != head && !link.InList() && k < |items| && items[k] == after
      modifies this, after, after.next, link
      ensures Valid() && items == old(items)[..k + 1] + [link] + old(items)[k + 1..]
    {
      ghost var was := items;
      DetachedMeans(link);
      assert Joined(head, was, k + 1) && Joined(head, was, k);
      if after.next == head {
        head.prev := link;
      } else {
        after.next.prev := link;
      }
      link.prev := after;
      link.next := after.next;
      after.next := link;
      items := was[..k + 1] + [link] + was[k + 1..];
      forall i | 0 <= i <= |was| && i != k + 1 ensures Joined(head, was, i) { assert old(Joined(head, was, i)); }
      SplicedValid(was, k + 1, link);
    }

    /** Insert in front of the item at place `k`. */
    method AddBefore(before: Link, link: Link, ghost k: nat)
      requires Valid() && link != head && !link.InList() && k < |items| && items[k] == before
      modifies this, before, before.prev, link
      ensures Valid() && items == old(items)[..k] + [link] + old(items)[k..]
    {
      ghost var was := items;
      DetachedMeans(link);
      assert Joined(head, was, k + 1) && Joined(head, was, k);
      if before.prev == head {
        head.next := link;
      } else {
        before.prev.next := link;
      }
      link.prev := before.prev;
      link.next := before;
      before.prev := link;
      items := was[..k] + [link] + was[k..];
      forall i | 0 <= i <= |was| && i != k ensures Joined(head, was, i) { assert old(Joined(head, was, i)); }
      SplicedValid(was, k, link);
    }

    /** Insert behind all items. */
    method AddTail(link: Link)
      requires Valid() && link != head && !link.InList()
      modifies this, head, head.prev, link
      ensures Valid() && items == old(items) + [link]
    {
      ghost var was := items;
      DetachedMeans(link);
      EmptyMeans();
      assert Joined(head, was, |was|) && Joined(head, was, 0);
      if IsEmpty() {
        head.next := link;
      } else {
        head.prev.next := link;
      }
      link.prev := head.prev;
      link.next := head;
      head.prev := link;
      items := items + [link];
      forall i | 0 <= i < |was| ensures Joined(head, was, i) { assert old(Joined(head, was, i)); }
      assert items == was[..|was|] + [link] + was[|was|..];
      SplicedValid(was, |was|, link);
    }

    /** Take the item at place `k` out. */
    method Del(link: Link, ghost k: nat)
      requires Valid() && k < |items| && items[k] == link
      modifies this, link, link.prev, link.next
      ensures Valid() && items == old(items)[..k] + old(items)[k + 1..]
      ensures !link.InList() && link.next == link
    {
      ghost var was := items;
      assert Joined(head, was, k) && Joined(head, was, k + 1);
      if link.prev == head {
        head.next := link.next;
      } else {
        link.prev.next := link.next;
      }
      if link.next == head {
        head.prev := link.prev;
      } else {
        link.next.prev := link.prev;
      }
      link.prev := link;
      link.next := link;
      items := was[..k] + was[k + 1..];
      forall i | 0 <= i <= |was| && i != k && i != k + 1 ensures Joined(head, was, i) { assert old(Joined(head, was, i)); }
      CutValid(was, k);
    }

    /** The first item. */
    method Head() returns (r: Link?)
      requires Valid()
      ensures r == if items == [] then null else items[0]
    {
      EmptyMeans();
      assert Joined(head, items, 0);
      r := if IsEmpty() then null else head.next;
    }

    /** The last item. */
    method Tail() returns (r: Link?)
      requires Valid()
      ensures r == if items == [] then null else items[|items| - 1]
    {
      EmptyMeans();
      assert Joined(head, items, |items|);
      r := if IsEmpty() then null else head.prev;
    }

    /** The item behind the one at place `k`. */
    method Next(link: Link, ghost k: nat) returns (r: Link?)
      requires Valid() && k < |items| && items[k] == link
      ensures r == if k + 1 < |items| then items[k + 1] else null
    {
      assert Joined(head, items, k + 1);
      r := if link.next == head then null else link.next;
    }

    /** The item in front of the one at place `k`. */
    method Prev(link: Link, ghost k: nat) returns (r: Link?)
      requires Valid() && k < |items| && items[k] == link
      ensures r == if k > 0 then items[k - 1] else null
    {
      assert Joined(head, items, k);
      r := if link.prev == head then null else link.prev;
    }

    /** One turn of the iteration: fetch the successor, then let the body delete the item if it wants to. */
    method Visit(obj: Link, drop: bool, ghost done: seq<Link>, ghost rest: seq<Link>, ghost all: set<Link>)
      returns (next: Link?)
      requires Valid() && items == done + ([obj] + rest) && forall x :: x in items ==> x in all
      modifies this, head, all
      ensures Valid() && items == done + ((if drop then [] else [obj]) + rest)
      ensures next == if rest == [] then null else rest[0]
      ensures drop ==> !obj.InList() && obj !in items && obj != head
    {
      assert items[|done|] == obj;
      next := Next(obj, |done|);
      if drop {
        assert items[..|done|] == done && items[|done| + 1..] == rest;
        assert obj !in done && obj !in rest;
        assert Joined(head, items, |done|) && Joined(head, items, |done| + 1);
        assert obj.prev == head || obj.prev in all;
        assert obj.next == head || obj.next in all;
        Del(obj, |done|);
        assert done + rest == done + ([] + rest);
      }
    }

    /**
      The iteration pattern: the successor is fetched before the body runs, so
      the body may delete the current item.  `drop[i]` tells whether it deletes
      the `i`-th one.
     */
    method ForEach(drop: seq<bool>, ghost all: set<Link>) returns (visited: seq<Link>)
      requires Valid() && |drop| == |items| && forall x :: x in items ==> x in all
      modifies this, head, all
      ensures Valid() && visited == old(items) && items == Kept(old(items), drop)
    {
      hide List.Valid, Kept;
      ghost var was := items;
      visited := [];
      var i := 0;
      var obj := Head();
      ghost var done, rest: seq<Link> := [], items;
      KeptStart(items, drop);
      while obj != null
        invariant 0 <= i <= |drop| && |drop| - i == |rest| && Valid()
        invariant visited + rest == was && items == done + rest
        invariant done + Kept(rest, drop[i..]) == Kept(was, drop)
        invariant obj == if rest == [] then null else rest[0]
        invariant forall x :: x in items ==> x in all
        decreases |rest|
      {
        KeptStep(visited, done, rest, drop, i);
        visited := visited + [obj];
        obj := Visit(obj, drop[i], done, rest[1..], all);
        done, rest, i := done + (if drop[i] then [] else [rest[0]]), rest[1..], i + 1;
      }
      KeptEnd(visited, done, drop, i);
    }
  }

  lemma KeptStart(items: seq<Link>, drop: seq<bool>)
    requires |drop| == |items|
    ensures [] + items == items && [] + Kept(items, drop[0..]) == Kept(items, drop)
  {
    assert drop[0..] == drop;
  }

  lemma KeptEnd(visited: seq<Link>, done: seq<Link>, drop: seq<bool>, i: nat)
    requires i == |drop|
    ensures visited + [] == visited && done + [] == done && Kept([], drop[i..]) == []
  {}

  lemma KeptStep(visited: seq<Link>, done: seq<Link>, rest: seq<Link>, drop: seq<bool>, i: nat)
    requires rest != [] && i < |drop| && |drop| - i == |rest|
    ensures var x := if drop[i] then [] else [rest[0]];
            && done + rest == done + ([rest[0]] + rest[1..])
            && (done + x) + rest[1..] == done + (x + rest[1..])
            && visited + rest == (visited + [rest[0]]) + rest[1..]
            && done + Kept(rest, drop[i..]) == (done + x) + Kept(rest[1..], drop[i + 1..])
  {
    hide Kept;
    var x := if drop[i] then [] else [rest[0]];
    assert rest == [rest[0]] + rest[1..];
    Regroup(visited, [rest[0]], rest[1..]);
    Regroup(done, x, rest[1..]);
    Regroup(done, x, Kept(rest[1..], drop[i + 1..]));
    KeptFirst(rest, drop, i);
  }

  lemma KeptFirst(rest: seq<Link>, drop: seq<bool>, i: nat)
    requires rest != [] && i < |drop| && |drop| - i == |rest|
    ensures Kept(rest, drop[i..]) == (if drop[i] then [] else [rest[0]]) + Kept(rest[1..], drop[i + 1..])
  {
    assert drop[i..][1..] == drop[i + 1..];
  }
}
