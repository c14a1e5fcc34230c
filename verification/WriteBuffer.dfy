/** The queue of eventlog chunks of write_buffer.c: a heap-allocated singly linked list with
    pointers to its head and its last item. */
module WriteBuffer {
  import opened Bytes

  class Item {
    const orig: array<byte>   // the allocation, which is what gets freed
    var data: nat             // where in it the unsent bytes start
    var size: nat
    var next: Item?
    ghost const place: nat    // how many items were pushed before this one

    constructor (orig: array<byte>, ghost place: nat)
      ensures this.orig == orig && data == 0 && size == orig.Length && next == null && this.place == place
    {
      this.orig, data, size, next, this.place := orig, 0, orig.Length, null, place;
    }

    /** The unsent bytes are a non-empty suffix of the allocation. */
    ghost predicate IsSuffix()
      reads this
    {
      size > 0 && data + size == orig.Length
    }

    ghost function Unsent(): seq<byte>
      requires IsSuffix()
      reads this, orig
    {
      orig[data..]
    }
  }

  ghost function ItemAt(items: seq<Item>, i: nat): Item? {
    if i < |items| then items[i] else null
  }

  /** The item is in its place in a well linked list, after this many earlier items. */
  ghost predicate IsLinked(item: Item, items: seq<Item>, i: nat, popped: nat)
    reads item
  {
    item.next == ItemAt(items, i + 1) && item.place == popped + i && item.IsSuffix()
  }

  class Buffer {
    var head: Item?
    var last: Item?
    ghost var items: seq<Item>    // the items, in list order
    ghost var popped: nat         // how many items were ever popped
    ghost var Repr: set<object>

    /** Head and last are both null or both set, last is the end of the list that starts at
        head, no item is in it twice, and every item holds some unsent bytes. */
    ghost predicate Valid()
      reads this, Repr
    {
      && this in Repr
      && head == ItemAt(items, 0)
      && last == (if items == [] then null else items[|items| - 1])
      && (forall i :: 0 <= i < |items| ==> items[i] in Repr && items[i].orig in Repr)
      && (forall i {:trigger IsLinked(items[i], items, i, popped)} :: 0 <= i < |items| ==>
            IsLinked(items[i], items, i, popped))
    }

    /** The queued byte strings, first to be sent first. */
    ghost function Contents(): (r: seq<seq<byte>>)
      requires Valid()
      reads this, Repr
      ensures |r| == |items|
      ensures forall i :: 0 <= i < |items| ==> IsLinked(items[i], items, i, popped) && r[i] == items[i].Unsent()
    {
      var nodes: seq<Item> := items;
      var before := popped;
      seq(|nodes|, i reads this, Repr
                     requires 0 <= i < |nodes| && nodes[i] in Repr && nodes[i].orig in Repr
                     requires IsLinked(nodes[i], nodes, i, before)
                     => nodes[i].Unsent())
    }

    constructor ()
      ensures Valid() && fresh(Repr) && Contents() == []
    {
      head, last, items, popped := null, null, [], 0;
      Repr := {this};
    }

    /** es_write_buffer_push: copies size bytes of data, from index start on. */
    method Push(data: array<byte>, start: nat, size: nat)
      requires Valid() && size > 0 && start + size <= data.Length
      modifies this, last
      ensures Valid() && fresh(Repr - old(Repr))
      ensures Contents() == old(Contents()) + [old(data[start..start + size])]
    {
      var item := NewItem(data, start, size, popped + |items|);
      Link(item);
    }

    /** The allocation of an item with a copy of the data. */
    method NewItem(data: array<byte>, start: nat, size: nat, ghost place: nat) returns (item: Item)
      requires size > 0 && start + size <= data.Length
      ensures fresh(item) && fresh(item.orig) && item.next == null && item.place == place
      ensures item.IsSuffix() && item.Unsent() == data[start..start + size]
    {
      var copy := new byte[size](k requires 0 <= k < size && start + size <= data.Length reads data => data[start + k]);
      item := new Item(copy, place);
      assert copy[..] == data[start..start + size];
    }

    /** The part of es_write_buffer_push that appends the new item. */
    method Link(item: Item)
      requires Valid() && item !in Repr && item.IsSuffix()
      requires item.next == null && item.place == popped + |items|
      modifies this, last
      ensures Valid() && Repr == old(Repr) + {item, item.orig}
      ensures Contents() == old(Contents()) + [old(item.Unsent())]
    {
      ghost var before := items;
      ghost var contents := Contents();
      Relink(item);
      assert items[|before|] == item;
      forall i | 0 <= i < |before|
        ensures Contents()[i] == contents[i]
      {
        assert items[i] == before[i] && before[i] in before;
        assert old(IsLinked(before[i], before, i, popped)) && IsLinked(items[i], items, i, popped);
        assert contents[i] == old(before[i].Unsent()) == items[i].Unsent();
      }
    }

    /** The change of the links; every item keeps what it holds. */
    method Relink(item: Item)
      requires Valid() && item !in Repr && item.IsSuffix()
      requires item.next == null && item.place == popped + |items|
      modifies this, last
      ensures Valid() && Repr == old(Repr) + {item, item.orig}
      ensures items == old(items) + [item]
      ensures item.data == old(item.data)
      ensures forall other :: other in old(items) ==> other.data == old(other.data)
    {
      ghost var before := items;
      if last == null {
        head, last := item, item;
      } else {
        assert IsLinked(last, items, |items| - 1, popped);
        last.next := item;
        last := item;
      }
      items, Repr := before + [item], Repr + {item, item.orig};
      forall i | 0 <= i < |items|
        ensures IsLinked(items[i], items, i, popped)
      {
        assert i < |before| ==> old(IsLinked(before[i], before, i, popped));
      }
    }

    /** es_write_buffer_pop. */
    method Pop()
      requires Valid()
      modifies this
      ensures Valid() && Repr == old(Repr)
      ensures Contents() == if old(Contents()) == [] then [] else old(Contents())[1..]
    {
      if head == null {
        return;
      }
      ghost var before := items;
      assert IsLinked(items[0], items, 0, popped);
      var first := head;
      head := first.next;
      if last == first {
        assert IsLinked(last, items, |items| - 1, popped);
        last := null;
      }
      items, popped := items[1..], popped + 1;
      forall i | 0 <= i < |items|
        ensures IsLinked(items[i], items, i, popped)
      {
        assert old(IsLinked(before[i + 1], before, i + 1, popped));
      }
    }

    /** es_write_buffer_free. */
    method Free()
      requires Valid()
      modifies this
      ensures Valid() && Repr == old(Repr) && Contents() == []
    {
      while head != null
        invariant Valid() && Repr == old(Repr)
        decreases |items|
      {
        Pop();
      }
    }

    /** The update of a partly written item in es_worker_step_write. */
    method Consume(n: nat)
      requires Valid() && head != null && n < head.size
      modifies head
      ensures Valid()
      ensures Contents() == old(Contents())[0 := old(Contents())[0][n..]]
    {
      assert IsLinked(head, items, 0, popped);
      head.size := head.size - n;
      head.data := head.data + n;
      forall i | 0 <= i < |items|
        ensures IsLinked(items[i], items, i, popped)
      {
        assert old(IsLinked(items[i], items, i, popped));
      }
    }
  }
}
