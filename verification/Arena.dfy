/**
 The append-only storage behind decoded map keys and values. Views of it are handed out as immutable
 strings, so no later append may change what they show, nor may two of them overlap.
 */
module Arena {
  import opened Wire

  /** A Go slice of arena memory: where it starts, the bytes it showed when it was handed out, its capacity. */
  datatype ArenaView = ArenaView(mem: array<byte>, start: nat, text: bytes, cap: nat) {
    ghost predicate Intact()
      reads mem
    {
      |text| <= cap && start + cap <= mem.Length && mem[start..start + |text|] == text
    }

    /** Cut to its length, so that an append through it has no room. */
    predicate Tight() {
      cap == |text|
    }

    function End(): nat {
      start + |text|
    }
  }

  /** Earlier windows on one memory end before later ones start. */
  ghost predicate Disjoint(views: seq<ArenaView>) {
    forall i, j :: 0 <= i < j < |views| && views[i].mem == views[j].mem ==> views[i].End() <= views[j].start
  }

  lemma DisjointAppend(views: seq<ArenaView>, view: ArenaView)
    requires Disjoint(views)
    requires forall v :: v in views && v.mem == view.mem ==> v.End() <= view.start
    ensures Disjoint(views + [view])
  {
  }

  const MAX_ARENA := 0x1_0000

  /** A Go `[]byte` used as an arena: `mem` is null for nil, and its length is the capacity. */
  class Arena {
    var mem: array?<byte>
    var used: nat
    ghost var views: seq<ArenaView>  // every view ever handed out

    constructor ()
      ensures Valid() && mem == null && views == []
    {
      mem, used, views := null, 0, [];
    }

    ghost function Memories(): set<object>
      reads this
    {
      set v | v in views :: v.mem as object
    }

    ghost predicate Valid()
      reads this, Memories()
    {
      && (forall v :: v in views ==> v.Intact() && v.Tight())
      && Disjoint(views)
      && (mem != null ==> used <= mem.Length && forall v :: v in views && v.mem == mem ==> v.End() <= used)
    }

    /** Makes the arena available, unless there is nothing left to read. */
    method Open(remaining: nat) returns (open: bool)
      requires Valid()
      modifies this`mem, this`used
      ensures Valid() && views == old(views)
      ensures open == (mem != null) == (old(mem) != null || remaining > 0)
      ensures mem == old(mem) || fresh(mem)
      ensures old(mem) != null ==> mem == old(mem) && used == old(used)
    {
      if mem != null {
        return true;
      }
      if remaining == 0 {
        return false;
      }
      mem := new byte[if remaining <= MAX_ARENA then remaining else MAX_ARENA](_ => 0);
      used := 0;
      return true;
    }

    /** Forgets the storage; the views keep it alive. */
    method Drop()
      requires Valid()
      modifies this`mem, this`used
      ensures Valid() && views == old(views) && mem == null
    {
      mem, used := null, 0;
    }

    /** Lists the views another decoder handed out of memory of its own. */
    ghost method Adopt(more: seq<ArenaView>)
      requires Valid() && Disjoint(more)
      requires forall v :: v in more ==> v.Intact() && v.Tight() && v.mem != mem && v.mem as object !in Memories()
      modifies this`views
      ensures Valid() && views == old(views) + more
    {
      views := views + more;
    }

    /** A program appends through a view: all views, this one included, still show their bytes. */
    method Extend(view: ArenaView, more: bytes) returns (grown: ArenaView)
      requires Valid() && view in views
      modifies view.mem
      ensures Valid() && views == old(views)
      ensures grown.Intact() && grown.text == view.text + more && (more != [] ==> fresh(grown.mem))
    {
      ghost var was := view.mem[..];
      grown := GoAppend(view, more);
      assert view.mem[..] == was;
      forall v | v in views
        ensures v.Intact()
      {
        if v.mem == view.mem {
          assert v.mem[v.start..v.End()] == was[v.start..v.End()];
        }
      }
    }

    /**
     Appends `src` and hands out a view of it. The memory is extended in place while its capacity
     lasts, and copied to a larger one after that.
     */
    method Append(src: bytes) returns (view: ArenaView)
      requires Valid() && mem != null
      modifies this, mem
      ensures Valid() && mem != null && (mem == old(mem) || fresh(mem))
      ensures view == ArenaView(mem, old(used), src, |src|)
      ensures views == old(views) + [view]
    {
      if used + |src| > mem.Length {
        Grow(used + |src|);
      }
      WriteAt(used, src);
      view := HandOut(src);
    }

    /** `arena[start:end:end]` over the bytes just written: the capacity stops where the view does. */
    method HandOut(src: bytes) returns (view: ArenaView)
      requires Valid() && mem != null && used + |src| <= mem.Length && mem[used..used + |src|] == src
      modifies this`used, this`views
      ensures Valid() && view == ArenaView(mem, old(used), src, |src|)
      ensures views == old(views) + [view]
    {
      view := ArenaView(mem, used, src, |src|);
      assert view.Intact();
      hide ArenaView.Intact, Disjoint;
      DisjointAppend(views, view);
      used, views := used + |src|, views + [view];
    }

    /** Overwrites unused memory; every view lies before it and is left intact. */
    method WriteAt(start: nat, src: bytes)
      requires Valid() && mem != null && start == used && used + |src| <= mem.Length
      modifies mem
      ensures mem[start..start + |src|] == src
      ensures Valid()
    {
      forall k | 0 <= k < |src| {
        mem[start + k] := src[k];
      }
      forall v | v in views
        ensures v.Intact()
      {
        if v.mem == mem {
          assert mem[v.start..v.End()] == old(mem[v.start..v.End()]);
        }
      }
    }

    /** Moves to a larger memory with at least `need` bytes; how much larger is Go's choice. */
    method Grow(need: nat)
      requires Valid() && mem != null && need > mem.Length
      modifies this`mem
      ensures Valid() && fresh(mem) && mem.Length >= need
      ensures forall v :: v in views ==> v.mem != mem
    {
      var capacity: nat :| capacity >= need;
      var bigger := new byte[capacity](_ => 0);
      for k := 0 to used
        modifies bigger
        invariant bigger[..k] == mem[..k]
      {
        bigger[k] := mem[k];
      }
      mem := bigger;
    }
  }

  /**
   Go's `append`: in place while the capacity lasts, over whatever lies there, and otherwise in new
   memory of a capacity that is Go's choice.
   */
  method GoAppend(view: ArenaView, more: bytes) returns (grown: ArenaView)
    requires view.Intact()
    modifies view.mem
    ensures grown.Intact() && grown.text == view.text + more
    ensures |view.text| + |more| <= view.cap ==> grown == ArenaView(view.mem, view.start, view.text + more, view.cap)
    ensures |view.text| + |more| > view.cap ==> fresh(grown.mem)
    ensures forall k :: 0 <= k < view.mem.Length ==>
      || (view.End() <= k < view.End() + |more| <= view.start + view.cap)
      || view.mem[k] == old(view.mem[k])
  {
    var n, all := |view.text| + |more|, view.text + more;
    if n <= view.cap {
      WriteBehind(view, more);
      Shows(view.mem, view.start, all);
      return ArenaView(view.mem, view.start, all, view.cap);
    }
    var capacity: nat :| capacity >= n;
    var moved := new byte[capacity](k requires 0 <= k => if k < n then all[k] else 0);
    Shows(moved, 0, all);
    return ArenaView(moved, 0, all, capacity);
  }

  method WriteBehind(view: ArenaView, more: bytes)
    requires view.Intact() && |view.text| + |more| <= view.cap
    modifies view.mem
    ensures forall k :: 0 <= k < view.mem.Length && !(view.End() <= k < view.End() + |more|) ==>
      view.mem[k] == old(view.mem[k])
    ensures forall k :: 0 <= k < |view.text| + |more| ==> view.mem[view.start + k] == (view.text + more)[k]
  {
    forall k | 0 <= k < |view.text|
      ensures view.mem[view.start + k] == view.text[k]
    {
      ByteAt(view, k);
    }
    forall k | 0 <= k < |more| {
      view.mem[view.End() + k] := more[k];
    }
    forall k | 0 <= k < |view.text| + |more|
      ensures view.mem[view.start + k] == (view.text + more)[k]
    {
      if k >= |view.text| {
        var j := k - |view.text|;
        assert view.start + k == view.End() + j && (view.text + more)[k] == more[j];
      }
    }
  }

  lemma Shows(mem: array<byte>, start: nat, text: bytes)
    requires start + |text| <= mem.Length && forall k :: 0 <= k < |text| ==> mem[start + k] == text[k]
    ensures mem[start..start + |text|] == text
  {
  }

  /** Room behind a view is what makes appending dangerous: the neighbour is overwritten. */
  method RoomyAppend(first: ArenaView, second: ArenaView, more: bytes) returns (grown: ArenaView)
    requires first.Intact() && second.Intact() && first.mem == second.mem && second.start == first.End()
    requires |first.text| + |more| <= first.cap
    requires more != [] && second.text != [] && more[0] != second.text[0]
    modifies first.mem
    ensures grown.text == first.text + more && !second.Intact()
  {
    grown := GoAppend(first, more);
    ByteAt(grown, |first.text|);
    OtherByte(second);
  }

  lemma ByteAt(view: ArenaView, k: nat)
    requires view.Intact() && k < |view.text|
    ensures view.mem[view.start + k] == view.text[k]
  {
    assert view.mem[view.start..view.start + |view.text|][k] == view.mem[view.start + k];
  }

  lemma OtherByte(view: ArenaView)
    requires view.text != [] && view.start < view.mem.Length && view.mem[view.start] != view.text[0]
    ensures !view.Intact()
  {
    if view.start + |view.text| <= view.mem.Length {
      assert view.mem[view.start..view.start + |view.text|][0] == view.mem[view.start];
    }
  }
}
