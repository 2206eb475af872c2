/** The intrusive circular doubly linked list, and the queues built on it. */
module RingList {
  import opened Bytes

  /** A link embedded in an entry; the head of a list is a link without entry. */
  class Link<T> {
    var next: Link<T>
    var prev: Link<T>
    const entry: Option<T>

    constructor (entry: Option<T>)
      ensures next == prev == this && this.entry == entry
    {
      next, prev, this.entry := this, this, entry;
    }
  }

  /** Position i of the ring: the head, the entries in order, and the head again. */
  ghost function At<T>(head: Link<T>, s: seq<Link<T>>, i: nat): Link<T>
    requires i <= |s| + 1
  {
    if 0 < i <= |s| then s[i - 1] else head
  }

  /** Neighbours on the ring point to each other. */
  ghost predicate Ring<T>(head: Link<T>, s: seq<Link<T>>)
    reads head, s
  {
    && head !in s
    && (forall i, j :: 0 <= i < j < |s| ==> s[i] != s[j])
    && forall i: nat :: i <= |s| ==> Joined(head, s, i)
  }

  ghost predicate Joined<T>(head: Link<T>, s: seq<Link<T>>, i: nat)
    requires i <= |s|
    reads head, s
  {
    At(head, s, i).next == At(head, s, i + 1) && At(head, s, i + 1).prev == At(head, s, i)
  }

  method AddTail<T>(head: Link<T>, entry: Link<T>, ghost s: seq<Link<T>>)
    requires Ring(head, s) && entry != head && entry !in s
    modifies head, head.prev, entry
    ensures Ring(head, s + [entry])
  {
    assert Joined(head, s, |s|);
    ghost var t := s + [entry];
    head.prev.next := entry;
    entry.prev := head.prev;
    entry.next := head;
    head.prev := entry;
    forall i: nat | i <= |t| ensures Joined(head, t, i) {
      if i < |s| {
        assert old(Joined(head, s, i)) && old(Joined(head, s, |s|));
        assert At(head, t, i) == At(head, s, i) && At(head, t, i + 1) == At(head, s, i + 1);
      }
    }
  }

  method Del<T>(entry: Link<T>, ghost head: Link<T>, ghost s: seq<Link<T>>, ghost k: nat)
    requires Ring(head, s) && k < |s| && s[k] == entry
    modifies entry, entry.next, entry.prev
    ensures Ring(head, s[..k] + s[k + 1..]) && entry.next == entry.prev == entry
  {
    assert Joined(head, s, k) && Joined(head, s, k + 1);
    ghost var t := s[..k] + s[k + 1..];
    entry.next.prev := entry.prev;
    entry.prev.next := entry.next;
    entry.next := entry;
    entry.prev := entry;
    forall i: nat | i <= |t| ensures Joined(head, t, i) {
      assert old(Joined(head, s, i)) && old(Joined(head, s, i + 1));
      assert old(Joined(head, s, k)) && old(Joined(head, s, k + 1));
      assert At(head, t, i) == At(head, s, if i <= k then i else i + 1);
      assert At(head, t, i + 1) == At(head, s, if i < k then i + 1 else i + 2);
    }
  }

  method IsEmpty<T>(head: Link<T>, ghost s: seq<Link<T>>) returns (empty: bool)
    requires Ring(head, s)
    ensures empty <==> s == []
  {
    assert Joined(head, s, 0);
    return head.next == head;
  }

  method First<T>(head: Link<T>, ghost s: seq<Link<T>>) returns (first: Link<T>)
    requires Ring(head, s)
    ensures first == if s == [] then head else s[0]
  {
    assert Joined(head, s, 0);
    return head.next;
  }

  ghost function Entries<T>(s: seq<Link<T>>): (c: seq<T>)
    requires forall i :: 0 <= i < |s| ==> s[i].entry.Some?
    ensures |c| == |s| && forall i :: 0 <= i < |s| ==> c[i] == s[i].entry.value
  {
    seq(|s|, i requires 0 <= i < |s| => s[i].entry.value)
  }

  /** A queue of entries: what was put in first comes out first. */
  class WorkQueue<T> {
    const head: Link<T>
    ghost var links: seq<Link<T>>
    ghost var footprint: set<Link<T>>

    ghost predicate Valid()
      reads this, head, footprint
    {
      && (forall i :: 0 <= i < |links| ==> links[i] in footprint && links[i].entry.Some?)
      && Ring(head, links)
    }

    ghost function Contents(): seq<T>
      requires Valid()
      reads this, head, footprint
    {
      Entries(links)
    }

    constructor ()
      ensures Valid() && Contents() == [] && fresh(head) && footprint == {}
    {
      head := new Link<T>(None);
      links, footprint := [], {};
    }

    method Put(x: T)
      requires Valid()
      modifies this, head, footprint
      ensures Valid() && Contents() == old(Contents()) + [x] && fresh(footprint - old(footprint))
    {
      var link := new Link<T>(Some(x));
      assert Joined(head, links, |links|);
      AddTail(head, link, links);
      links, footprint := links + [link], footprint + {link};
    }

    /** The oldest entry, taken out of the queue. */
    method Take() returns (x: Option<T>)
      requires Valid()
      modifies this, head, footprint
      ensures Valid() && footprint == old(footprint)
      ensures if old(Contents()) == [] then x == None && Contents() == []
              else x == Some(old(Contents())[0]) && Contents() == old(Contents())[1..]
    {
      var empty := IsEmpty(head, links);
      if empty {
        return None;
      }
      var link := First(head, links);
      assert Joined(head, links, 0) && Joined(head, links, 1);
      Del(link, head, links, 0);
      links := links[..0] + links[1..];
      return link.entry;
    }

    /** Takes at most n entries, oldest first. */
    method TakeSome(n: nat) returns (taken: seq<T>)
      requires Valid()
      modifies this, head, footprint
      ensures Valid() && |taken| == Min(n, |old(Contents())|)
      ensures old(Contents()) == taken + Contents()
    {
      hide Ring, Entries;
      taken := [];
      for i := 0 to n
        invariant Valid() && footprint == old(footprint) && |taken| == i && old(Contents()) == taken + Contents()
      {
        var x := Take();
        if x.None? {
          break;
        }
        taken := taken + [x.value];
      }
    }
  }
}
