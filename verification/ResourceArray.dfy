/** Resource maps in an array of slots, the first of which is the header. */
module ResourceArray {
  import opened MachineWords
  import opened ResourceMap

  /** The slots from r on have moved up by one. */
  lemma {:induction false} Inserted(a: seq<Entry>, b: seq<Entry>, r: nat, limit: nat)
    requires |a| == |b| && 1 <= r <= limit + 1 < |a|
    requires forall k :: 1 <= k < r ==> b[k] == a[k]
    requires forall k :: r < k <= limit + 1 ==> b[k] == a[k - 1]
    ensures b[1..limit + 2] == Insert(a[1..limit + 1], r - 1, b[r])
  {
    var before, after := a[1..limit + 1], b[1..limit + 2];
    forall k | 0 <= k < |after| ensures after[k] == Insert(before, r - 1, b[r])[k] {
    }
  }

  /** The slots above r have moved down by one. */
  lemma {:induction false} Deleted(a: seq<Entry>, b: seq<Entry>, r: nat, limit: nat)
    requires |a| == |b| && 1 <= r <= limit < |a|
    requires forall k :: 1 <= k < r ==> b[k] == a[k]
    requires forall k :: r <= k < limit ==> b[k] == a[k + 1]
    ensures b[1..limit] == Delete(a[1..limit + 1], r - 1)
  {
    var before, after := a[1..limit + 1], b[1..limit];
    forall k | 0 <= k < |after| ensures after[k] == Delete(before, r - 1)[k] {
    }
  }

  class RMap {
    /** Slot 0 holds the number of runs as its offset and the number of slots as its size. */
    const slots: array<Entry>
    var lost: Word

    ghost predicate Shape()
      reads this, slots
    {
      slots.Length > 0 && slots.Length == slots[0].size + 1 && slots[0].offset <= slots[0].size
    }

    ghost function Value(): (m: Map)
      requires Shape()
      reads this, slots
      ensures |m.entries| <= m.slots
    {
      Map(slots[1..slots[0].offset + 1], slots[0].size, lost)
    }

    constructor (size: Word)
      requires size > 0
      ensures Shape() && Value() == Map([], size - 1, 0)
    {
      slots := new Entry[size](_ => Entry(0, 0));
      lost := 0;
      new;
      slots[0] := Entry(0, size - 1);
    }

    /** memmove within the slots. */
    method Move(dst: nat, src: nat, n: nat)
      requires dst + n <= slots.Length && src + n <= slots.Length
      modifies slots
      ensures forall k :: 0 <= k < slots.Length ==>
        slots[k] == if dst <= k < dst + n then old(slots[src + (k - dst)]) else old(slots[k])
    {
      forall k | 0 <= k < n {
        slots[dst + k] := slots[src + k];
      }
    }

    method Put(r: nat, e: Entry)
      requires Shape() && 1 <= r <= slots[0].offset
      modifies slots
      ensures Shape() && Value() == old(Value()).(entries := old(Value()).entries[r - 1 := e])
    {
      slots[r] := e;
    }

    /** Makes room for a new slot before slot r, which keeps what it held. */
    method MakeSpace(r: nat) returns (full: bool)
      requires Shape() && 1 <= r <= slots[0].offset + 1
      modifies slots
      ensures Shape() && full == (|old(Value()).entries| == Value().slots)
      ensures full ==> Value() == old(Value())
      ensures !full ==> r <= slots[0].offset && Value() == old(Value()).(entries := Insert(old(Value()).entries, r - 1, slots[r]))
      ensures !full && r < slots[0].offset ==> slots[r] == old(slots[r])
    {
      var limit: int := slots[0].offset;
      if slots[0].size == slots[0].offset {
        return true;
      }
      slots[0] := slots[0].(offset := limit + 1);
      if r <= limit {
        Move(r + 1, r, limit - r + 1);
      }
      Inserted(old(slots[..]), slots[..], r, limit);
      return false;
    }

    /** Makes slot r disappear. */
    method Collapse(r: nat)
      requires Shape() && 1 <= r <= slots[0].offset
      modifies slots
      ensures Shape() && Value() == old(Value()).(entries := Delete(old(Value()).entries, r - 1))
    {
      var limit: int := slots[0].offset;
      slots[0] := slots[0].(offset := limit - 1);
      if r < limit {
        Move(r, r + 1, limit - r);
      }
      Deleted(old(slots[..]), slots[..], r, limit);
    }

    method Alloc(size: Word) returns (idx: Word)
      requires Shape()
      modifies this, slots
      ensures Shape() && (Value(), idx) == ResourceMap.Alloc(old(Value()), size)
    {
      var limit: int := slots[0].offset;
      var r := 1;
      ghost var s := Value().entries;
      while r <= limit && slots[r].size < size
        invariant 1 <= r <= limit + 1
        invariant FirstFit(s, size, 0) == FirstFit(s, size, r - 1)
      {
        r := r + 1;
      }
      if r > limit {
        return 0;
      }
      var e := slots[r];
      idx := e.offset;
      if e.size > size {
        Put(r, Entry(Add(e.offset, size), e.size - size));
      } else {
        Collapse(r);
      }
    }

    /** The first slot whose run starts beyond the offset or holds it. */
    method Scan(offset: Word) returns (r: nat)
      requires Shape()
      ensures 1 <= r <= slots[0].offset + 1 && r - 1 == Holder(Value().entries, offset, 0)
    {
      var limit: int := slots[0].offset;
      ghost var s := Value().entries;
      r := 1;
      while r <= limit && slots[r].offset <= offset && slots[r].Top() <= offset
        invariant 1 <= r <= limit + 1
        invariant Holder(s, offset, 0) == Holder(s, offset, r - 1)
      {
        r := r + 1;
      }
    }

    method Reserve(offset: Word, size: Word) returns (ok: bool)
      requires Shape()
      modifies this, slots
      ensures Shape() && (Value(), ok) == ResourceMap.Reserve(old(Value()), offset, size)
    {
      var r := Scan(offset);
      if r > slots[0].offset || slots[r].offset > offset {
        return false;
      }
      ok := Cut(r, offset, size);
    }

    method Cut(r: nat, offset: Word, size: Word) returns (ok: bool)
      requires Shape() && 1 <= r <= slots[0].offset
      modifies this, slots
      ensures Shape() && (Value(), ok) == ResourceMap.Cut(old(Value()), r - 1, offset, size)
    {
      var e := slots[r];
      var top, rtop := e.Top(), Add(offset, size);
      if rtop > top {
        return false;
      }
      if offset == e.offset {
        var rest := Entry(Add(e.offset, size), Sub(e.size, size));
        Put(r, rest);
        if rest.size == 0 {
          Collapse(r);
          assert Value().entries == Delete(old(Value()).entries, r - 1);
        }
      } else if rtop == top {
        Put(r, Entry(e.offset, Sub(e.size, size)));
      } else {
        Split(r, offset, rtop, top, size);
      }
      return true;
    }

    method Split(r: nat, offset: Word, rtop: Word, top: Word, size: Word)
      requires Shape() && 1 <= r <= slots[0].offset
      modifies this, slots
      ensures Shape() && Value() == ResourceMap.Split(old(Value()), r - 1, offset, rtop, top, size)
    {
      var e := slots[r];
      var above := Entry(rtop, Sub(top, rtop));
      var full := MakeSpace(r);
      if full {
        Put(r, above);
        lost := Add(lost, Sub(Sub(e.size, above.size), size));
      } else {
        Put(r, Entry(e.offset, Sub(offset, e.offset)));
        Put(r + 1, above);
        assert Value().entries == ResourceMap.Split(old(Value()), r - 1, offset, rtop, top, size).entries;
      }
    }

    method Status(offset: Word, size: Word) returns (status: int)
      requires Shape()
      ensures status == ResourceMap.Status(Value(), offset, size)
    {
      var r := Scan(offset);
      if r > slots[0].offset {
        return 1;
      }
      if slots[r].offset > offset {
        return if Add(offset, size) > slots[r].offset then -1 else 1;
      }
      return if Add(offset, size) < slots[r].Top() then 0 else -1;
    }

    method AllocAlign(size: Word, align: Word) returns (idx: Word)
      requires Shape() && align > 0
      modifies this, slots
      ensures Shape() && (Value(), idx) == ResourceMap.AllocAlign(old(Value()), size, align)
    {
      var limit: int := slots[0].offset;
      var r := 1;
      ghost var s := Value().entries;
      while r <= limit && slots[r].size < Add(size, Gap(slots[r].offset, align))
        invariant 1 <= r <= limit + 1
        invariant FirstAligned(s, size, align, 0) == FirstAligned(s, size, align, r - 1)
      {
        r := r + 1;
      }
      if r > limit {
        return 0;
      }
      idx := Add(slots[r].offset, Gap(slots[r].offset, align));
      var ok := Reserve(idx, size);
      if !ok {
        idx := 0;
      }
    }

    method Free(offset: Word, size: Word)
      requires Shape()
      modifies this, slots
      ensures Shape() && Value() == ResourceMap.Free(old(Value()), offset, size)
    {
      var limit: int := slots[0].offset;
      var r := 1;
      ghost var s := Value().entries;
      while r <= limit && slots[r].Top() != offset && Add(offset, size) != slots[r].offset && offset >= slots[r].offset
        invariant 1 <= r <= limit + 1
        invariant Neighbour(s, offset, size, 0) == Neighbour(s, offset, size, r - 1)
      {
        r := r + 1;
      }
      if r <= limit && slots[r].Top() == offset {
        Grow(r, size);
      } else if r <= limit && Add(offset, size) == slots[r].offset {
        Put(r, Entry(offset, Add(slots[r].size, size)));
      } else {
        Place(r, Entry(offset, size));
      }
    }

    /** Puts a run in the place of two. */
    method Join(r: nat, e: Entry)
      requires Shape() && 1 <= r < slots[0].offset
      modifies slots
      ensures Shape() && Value() == old(Value()).(entries := Delete(old(Value()).entries[r - 1 := e], r))
    {
      Put(r, e);
      Collapse(r + 1);
    }

    method Grow(r: nat, size: Word)
      requires Shape() && 1 <= r <= slots[0].offset
      modifies this, slots
      ensures Shape() && Value() == old(Value()).(entries := ResourceMap.Grow(old(Value()).entries, r - 1, size))
    {
      ghost var s := Value().entries;
      assert slots[r] == s[r - 1];
      var limit: int := slots[0].offset;
      var grown := Entry(slots[r].offset, Add(slots[r].size, size));
      if r < limit && grown.Top() == slots[r + 1].offset {
        assert slots[r + 1] == s[r];
        Join(r, Entry(grown.offset, Add(grown.size, slots[r + 1].size)));
      } else {
        assert r < limit ==> slots[r + 1] == s[r];
        Put(r, grown);
      }
    }

    method Place(r: nat, e: Entry)
      requires Shape() && 1 <= r <= slots[0].offset + 1
      modifies this, slots
      ensures Shape() && Value() == ResourceMap.Place(old(Value()), r - 1, e)
    {
      var full := MakeSpace(r);
      if full {
        lost := Add(lost, e.size);
      } else {
        Put(r, e);
        assert Value().entries == Insert(old(Value()).entries, r - 1, e);
      }
    }
  }
}
