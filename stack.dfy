/**
 * The intrusive LIFO stack (`struct ff_stack`): a singly linked list of
 * entries whose `data` pointers are compared by identity.
 */
module Stacks {
  import opened Common

  /** `s` with its first occurrence of `d` (counting from the top) taken out. */
  function RemoveFirst<T(==)>(s: seq<T>, d: T): seq<T>
  {
    if s == [] then []
    else if s[0] == d then s[1..]
    else [s[0]] + RemoveFirst(s[1..], d)
  }

  /** When the first occurrence of `d` is at index `i`, exactly that element goes. */
  lemma {:induction false} RemoveFirstAt<T>(s: seq<T>, d: T, i: nat)
    requires i < |s| && s[i] == d && d !in s[..i]
    ensures RemoveFirst(s, d) == s[..i] + s[i + 1..]
  {
    if i > 0 {
      assert s[1..][..i - 1] == s[1..i];
      assert d !in s[1..][..i - 1];
      RemoveFirstAt(s[1..], d, i - 1);
      assert s[..i] == [s[0]] + s[1..][..i - 1];
    }
  }

  /** Removing an absent element changes nothing. */
  lemma {:induction false} RemoveFirstAbsent<T>(s: seq<T>, d: T)
    requires d !in s
    ensures RemoveFirst(s, d) == s
  {
    if s != [] {
      assert s[0] != d;
      RemoveFirstAbsent(s[1..], d);
    }
  }

  /** Removal takes out exactly one copy of `d` when there is one, and nothing else. */
  lemma {:induction false} RemoveFirstMultiset<T>(s: seq<T>, d: T)
    ensures multiset(RemoveFirst(s, d)) == if d in s then multiset(s) - multiset{d} else multiset(s)
    ensures |RemoveFirst(s, d)| == if d in s then |s| - 1 else |s|
  {
    if s != [] {
      assert s == [s[0]] + s[1..];
      if s[0] != d {
        RemoveFirstMultiset(s[1..], d);
        assert d in s <==> d in s[1..];
      }
    }
  }

  /** Dropping the element at `i` from a sequence without repeats drops it from its set. */
  lemma SetOfDrop<U>(s: seq<U>, i: nat, r: seq<U>)
    requires i < |s| && r == s[..i] + s[i + 1..]
    requires forall j :: 0 <= j < |s| && j != i ==> s[j] != s[i]
    ensures (set n | n in r) == (set n | n in s) - {s[i]}
  {
    forall n | n in s && n != s[i] ensures n in r {
      var j :| 0 <= j < |s| && s[j] == n;
      if j < i {
        assert r[j] == n;
      } else {
        assert r[j - 1] == n;
      }
    }
  }

  /** `struct stack_entry`. */
  class Entry<T> {
    var next: Entry?<T>
    const data: T

    constructor (data: T, next: Entry?<T>)
      ensures this.data == data && this.next == next
    {
      this.data := data;
      this.next := next;
    }
  }

  /** In a chain listed from the top down, the entry below depth `i` (null under the bottom one). */
  function Below<T>(nodes: seq<Entry<T>>, i: int): Entry?<T>
  {
    if 0 <= i && i + 1 < |nodes| then nodes[i + 1] else null
  }

  /** No entry occurs twice in the chain. */
  ghost predicate Distinct<T>(nodes: seq<Entry<T>>)
  {
    forall i, j :: 0 <= i < j < |nodes| ==> nodes[i] != nodes[j]
  }

  /** The entries carry `contents`, one datum each, in order. */
  ghost predicate Carries<T>(nodes: seq<Entry<T>>, contents: seq<T>)
  {
    |nodes| == |contents| && forall i :: 0 <= i < |nodes| ==> nodes[i].data == contents[i]
  }

  /** Each entry's `next` is the one listed below it, and the bottom one's is null. */
  ghost predicate Linked<T>(nodes: seq<Entry<T>>)
    reads set i | 0 <= i < |nodes| :: nodes[i]
  {
    forall i :: 0 <= i < |nodes| ==> nodes[i].next == Below(nodes, i)
  }

  /** Dropping the entry at depth `i` keeps the rest distinct and carrying the rest of the data. */
  lemma DropEntry<T>(nodes: seq<Entry<T>>, contents: seq<T>, i: nat)
    requires i < |nodes| && Distinct(nodes) && Carries(nodes, contents)
    ensures Distinct(nodes[..i] + nodes[i + 1..])
    ensures Carries(nodes[..i] + nodes[i + 1..], contents[..i] + contents[i + 1..])
  {
    var r := nodes[..i] + nodes[i + 1..];
    forall k | 0 <= k < |r|
      ensures r[k] == nodes[if k < i then k else k + 1]
    {
    }
  }

  /** A new entry on top of a chain, pointing at its old top, extends it by one. */
  lemma PrependEntry<T>(nodes: seq<Entry<T>>, contents: seq<T>, e: Entry<T>, d: T)
    requires Distinct(nodes) && Carries(nodes, contents) && Linked(nodes)
    requires e !in nodes && e.data == d && e.next == (if nodes == [] then null else nodes[0])
    ensures Distinct([e] + nodes) && Carries([e] + nodes, [d] + contents) && Linked([e] + nodes)
    ensures (set n | n in [e] + nodes) == {e} + (set n | n in nodes)
  {
    var r := [e] + nodes;
    forall k | 0 <= k < |r|
      ensures r[k].next == Below(r, k)
    {
      if k > 0 {
        assert r[k] == nodes[k - 1];
      }
    }
    assert forall n :: n in r <==> n == e || n in nodes;
  }

  /**
   * Once the link above depth `i` has been redirected to the entry below it,
   * the chain without that entry is linked again.
   */
  lemma ChainSkipping<T>(nodes: seq<Entry<T>>, i: nat, r: seq<Entry<T>>)
    requires i < |nodes| && r == nodes[..i] + nodes[i + 1..]
    requires forall j :: 0 <= j < |nodes| && j != i - 1 ==> nodes[j].next == Below(nodes, j)
    requires i > 0 ==> nodes[i - 1].next == Below(nodes, i)
    ensures Linked(r)
  {
    forall k | 0 <= k < |r|
      ensures r[k].next == Below(r, k)
    {
      if k < i {
        assert r[k] == nodes[k];
      } else {
        assert r[k] == nodes[k + 1];
      }
    }
  }

  /**
   * `struct ff_stack`. `Nodes` lists the entries from the top down and
   * `Contents` their data; `Entries` is the set of entries.
   */
  class Stack<T(==)> {
    var top: Entry?<T>
    ghost var Contents: seq<T>
    ghost var Nodes: seq<Entry<T>>
    ghost var Entries: set<Entry<T>>

    ghost predicate Valid()
      reads this, Entries
    {
      && Entries == (set n | n in Nodes)
      && top == (if Nodes == [] then null else Nodes[0])
      && Carries(Nodes, Contents)
      && Distinct(Nodes)
      && Linked(Nodes)
    }

    /** `ff_stack_create`: a new, empty stack. */
    constructor ()
      ensures Valid() && fresh(Entries)
      ensures Contents == []
    {
      top := null;
      Contents := [];
      Nodes := [];
      Entries := {};
    }

    /** `ff_stack_delete`: only an empty stack may be freed, so no entry is left behind. */
    method Delete()
      requires Valid() && Contents == []
      ensures top == null && Entries == {}
    {
    }

    /** `ff_stack_push`. */
    method Push(d: T)
      requires Valid()
      modifies this
      ensures Valid() && fresh(top) && Entries == old(Entries) + {top}
      ensures Contents == [d] + old(Contents)
    {
      ghost var nodes := Nodes;
      var entry := new Entry(d, top);
      PrependEntry(nodes, Contents, entry, d);
      top := entry;
      Nodes := [entry] + nodes;
      Contents := [d] + Contents;
      Entries := Entries + {entry};
    }

    /** `ff_stack_is_empty`: 1 for an empty stack, 0 otherwise. */
    method IsEmpty() returns (isEmpty: int)
      requires Valid()
      ensures isEmpty == 0 || isEmpty == 1
      ensures isEmpty == 1 <==> Contents == []
    {
      isEmpty := if top == null then 1 else 0;
    }

    /** `ff_stack_top`: the most recently pushed element still on the stack. */
    method Top() returns (d: T)
      requires Valid() && Contents != []
      ensures d == Contents[0]
    {
      d := top.data;
    }

    /** `ff_stack_pop`: `stack->top = entry->next`, i.e. the entry at depth 0 is unlinked. */
    method Pop()
      requires Valid() && Contents != []
      modifies this
      ensures Valid() && Entries == old(Entries) - {old(top)}
      ensures Contents == old(Contents)[1..]
    {
      var entry := top;
      Unlink(null, entry, 0);
      assert old(Contents)[..0] + old(Contents)[1..] == old(Contents)[1..];
    }

    /**
     * `*entry_ptr = entry->next` on the entry at depth `i`: the link that
     * pointed at it (`top` when `prev` is null, else `prev.next`) now skips it.
     */
    method Unlink(prev: Entry?<T>, entry: Entry<T>, ghost i: nat)
      requires Valid() && i < |Nodes| && entry == Nodes[i]
      requires prev == if i == 0 then null else Nodes[i - 1]
      modifies this, prev
      ensures Valid()
      ensures Nodes == old(Nodes)[..i] + old(Nodes)[i + 1..]
      ensures Contents == old(Contents)[..i] + old(Contents)[i + 1..]
      ensures Entries == old(Entries) - {entry}
    {
      ghost var nodes := Nodes;
      SetOfDrop(nodes, i, nodes[..i] + nodes[i + 1..]);
      DropEntry(nodes, Contents, i);
      assert forall j :: 0 <= j < |nodes| ==> nodes[j].next == Below(nodes, j);
      var next := entry.next;
      if prev == null {
        top := next;
      } else {
        prev.next := next;
      }
      Nodes := nodes[..i] + nodes[i + 1..];
      Contents := Contents[..i] + Contents[i + 1..];
      Entries := Entries - {entry};
      forall j | 0 <= j < |nodes| && j != i - 1
        ensures nodes[j].next == Below(nodes, j)
      {
        assert nodes[j] != prev;
      }
      ChainSkipping(nodes, i, Nodes);
    }

    /**
     * `ff_stack_remove_entry`: unlink the first entry from the top whose data
     * is `d`. `prev` stands for the C `entry_ptr`: null while it points at
     * `stack->top`, otherwise the entry whose `next` field it points at.
     */
    method RemoveEntry(d: T) returns (result: FfResult)
      requires Valid()
      modifies this, Entries
      ensures Valid() && Entries <= old(Entries)
      ensures result == Success <==> d in old(Contents)
      ensures Contents == RemoveFirst(old(Contents), d)
    {
      var prev: Entry?<T> := null;
      var entry := top;
      ghost var i := 0;
      while entry != null
        invariant Valid() && Entries == old(Entries)
        invariant Nodes == old(Nodes) && Contents == old(Contents)
        invariant 0 <= i <= |Nodes|
        invariant entry == if i < |Nodes| then Nodes[i] else null
        invariant prev == if i == 0 then null else Nodes[i - 1]
        invariant d !in Contents[..i]
        decreases |Nodes| - i
      {
        if entry.data == d {
          RemoveFirstAt(Contents, d, i);
          Unlink(prev, entry, i);
          return Success;
        }
        assert Contents[..i + 1] == Contents[..i] + [Contents[i]];
        prev := entry;
        entry := entry.next;
        i := i + 1;
      }
      assert Contents[..i] == Contents;
      RemoveFirstAbsent(Contents, d);
      result := Failure;
    }
  }
}
