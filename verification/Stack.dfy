/** The stack allocator: blocks are taken at the top of the arena and given back in any order. */
module Stack {
  import opened Bytes
  import opened Align
  import opened StackChain

  /** Block j is the one a caller names by its pointer and size. */
  ghost predicate Names(blocks: seq<Block>, j: nat, ptr: nat, bytes: nat) {
    j < |blocks| && blocks[j].ptr == ptr && blocks[j].bytes == bytes
  }

  /** The range check of a deallocation. */
  predicate InArena(base: nat, size: nat, ptr: nat, bytes: nat) {
    ptr >= base && ptr + bytes + NODE_SIZE <= base + size
  }

  /** A block of this size and alignment has room above the top. */
  ghost predicate Fits(end: nat, top: nat, bytes: nat, k: nat) {
    RoundUp(top, Pow2(k)) + bytes + NODE_SIZE <= end
  }

  /** No block of at least a byte has room. */
  ghost predicate NothingFits(end: nat, top: nat) {
    forall bytes: nat, k: nat :: bytes >= 1 ==> !Fits(end, top, bytes, k)
  }

  lemma ChainedAtStart(base: nat, mem: seq<byte>)
    requires |mem| >= NODE_SIZE && Addressable(base, |mem|)
    ensures Chained(base, SetLinks(mem, NODE_SIZE, Links(0, 0)), [])
  {
    hide SetLinks, GetLinks;
    assert WORD >= 1;
    SetThenGet(mem, NODE_SIZE, Links(0, 0));
  }

  lemma TopBelowWord(base: nat, mem: seq<byte>, blocks: seq<Block>)
    requires Chained(base, mem, blocks)
    ensures NodeAt(base, blocks, |blocks|) < WORD && base + |mem| < WORD
  {
    WordBound(base, |mem|, blocks, |blocks|);
  }

  lemma KeptSelf(base: nat, mem: seq<byte>, blocks: seq<Block>)
    requires LaidOut(base, |mem|, blocks)
    ensures AllKept(base, mem, mem, blocks)
  {
    forall m: nat | m < |blocks|
      ensures Kept(base, mem, mem, blocks[m])
    {
      BlockInside(base, |mem|, blocks, m);
    }
  }

  lemma KeptLess(base: nat, mem: seq<byte>, mem': seq<byte>, blocks: seq<Block>, j: nat)
    requires AllKept(base, mem, mem', blocks) && j < |blocks|
    ensures AllKept(base, mem, mem', RemoveAt(blocks, j))
  {
    hide Kept;
    forall m: nat | m < |blocks| - 1
      ensures Kept(base, mem, mem', RemoveAt(blocks, j)[m])
    {
      assert RemoveAt(blocks, j)[m] == blocks[if m < j then m else m + 1];
    }
  }

  /** The node behind a live block holds its neighbours. */
  lemma LinksOfBlock(base: nat, mem: seq<byte>, blocks: seq<Block>, j: nat)
    requires Chained(base, mem, blocks) && j < |blocks|
    ensures InArena(base, |mem|, blocks[j].ptr, blocks[j].bytes)
    ensures GetLinks(mem, blocks[j].ptr + blocks[j].bytes + NODE_SIZE - base) == LinksAt(base, blocks, j + 1)
  {
    BlockInside(base, |mem|, blocks, j);
    assert Stored(base, mem, blocks, j + 1);
  }

  /** The top moves only when the last block goes. */
  lemma NewTop(base: nat, size: nat, blocks: seq<Block>, j: nat)
    requires LaidOut(base, size, blocks) && j < |blocks|
    ensures var l := LinksAt(base, blocks, j + 1);
            NodeAt(base, RemoveAt(blocks, j), |blocks| - 1)
            == if l.next == 0 then l.prev else NodeAt(base, blocks, |blocks|)
  {
    RemoveOrdered(base, size, blocks, j);
  }

  /** The resource is full exactly when no block of at least a byte fits, whatever its alignment. */
  lemma FullMeans(end: nat, top: nat)
    requires top <= end
    ensures end - top <= NODE_SIZE <==> NothingFits(end, top)
  {
    hide RoundUp;
    if end - top <= NODE_SIZE {
      forall bytes: nat, k: nat | bytes >= 1
        ensures !Fits(end, top, bytes, k)
      {
        RoundUpLeast(top, Pow2(k), 0);
      }
    } else {
      RoundUpLeast(top, 1, top);
      assert Fits(end, top, 1, 0);
    }
  }

  /** A block of no bytes is the exception: it fits a full resource with exactly a node's room. */
  lemma EmptyBlockFitsFull(end: nat, top: nat)
    requires top <= end
    ensures end - top <= NODE_SIZE && Fits(end, top, 0, 0) <==> end - top == NODE_SIZE
  {
    hide RoundUp;
    RoundUpLeast(top, 1, top);
  }

  /** A pointer and a size name at most one live block. */
  lemma NamesOne(base: nat, mem: seq<byte>, blocks: seq<Block>, i: nat, j: nat)
    requires Chained(base, mem, blocks) && i < |blocks| && j < |blocks|
    requires blocks[i].ptr == blocks[j].ptr
    ensures i == j
  {
    if i < j {
      BlocksApart(base, |mem|, blocks, i, j);
    } else if j < i {
      BlocksApart(base, |mem|, blocks, j, i);
    }
  }

  lemma FindBlock(order: seq<Block>, i: nat, blocks: seq<Block>) returns (j: nat)
    requires i < |order| && multiset(order[i..]) == multiset(blocks)
    ensures j < |blocks| && blocks[j] == order[i]
  {
    assert order[i] == order[i..][0];
    assert order[i] in multiset(blocks);
    j :| j < |blocks| && blocks[j] == order[i];
  }

  lemma OneLess(order: seq<Block>, i: nat, blocks: seq<Block>, j: nat)
    requires i < |order| && multiset(order[i..]) == multiset(blocks)
    requires j < |blocks| && blocks[j] == order[i]
    ensures multiset(order[i + 1..]) == multiset(RemoveAt(blocks, j))
  {
    assert order[i..] == [order[i]] + order[i + 1..];
    RemoveAtMultiset(blocks, j);
  }

  lemma NothingLeft(order: seq<Block>, blocks: seq<Block>)
    requires multiset(order[|order|..]) == multiset(blocks)
    ensures blocks == []
  {
    assert |blocks| == |multiset(blocks)| == 0;
  }

  lemma RemoveAtMultiset(blocks: seq<Block>, j: nat)
    requires j < |blocks|
    ensures multiset(RemoveAt(blocks, j)) == multiset(blocks) - multiset{blocks[j]}
  {
    assert blocks == blocks[..j] + [blocks[j]] + blocks[j + 1..];
  }

  class StackResource {
    const buff: array<byte>
    /** The address of the arena. */
    const base: nat
    var top: nat
    /** The live blocks in address order. */
    ghost var blocks: seq<Block>

    ghost predicate Valid()
      reads this, buff
    {
      && Chained(base, buff[..], blocks)
      && top == NodeAt(base, blocks, |blocks|)
    }

    constructor (capacity: nat, base: nat)
      requires capacity >= NODE_SIZE && Addressable(base, capacity)
      ensures Valid() && fresh(buff)
      ensures buff.Length == capacity && this.base == base && blocks == [] && top == base + NODE_SIZE
    {
      hide WORD;
      buff := new byte[capacity](_ => 0);
      this.base := base;
      top := base + NODE_SIZE;
      blocks := [];
      new;
      ghost var mem := buff[..];
      SetNode(top, Links(0, 0));
      ChainedAtStart(base, mem);
    }

    method GetNode(ptr: nat) returns (l: Links)
      requires base + NODE_SIZE <= ptr <= base + buff.Length
      ensures l == GetLinks(buff[..], ptr - base)
    {
      hide FromLittle;
      var at := ptr - base;
      l := Links(FromLittle(buff[at - 8..at]), FromLittle(buff[at - 16..at - 8]));
      assert buff[..][at - 8..at] == buff[at - 8..at] && buff[..][at - 16..at - 8] == buff[at - 16..at - 8];
    }

    method StoreBytes(at: nat, data: seq<byte>)
      requires at + |data| <= buff.Length
      modifies buff
      ensures buff[..] == Splice(old(buff[..]), at, data)
    {
      forall k | 0 <= k < |data| {
        buff[at + k] := data[k];
      }
      SpliceAt(old(buff[..]), at, data);
      assert buff[..][at..at + |data|] == data;
    }

    method SetNode(ptr: nat, l: Links)
      requires base + NODE_SIZE <= ptr <= base + buff.Length
      modifies buff
      ensures buff[..] == SetLinks(old(buff[..]), ptr - base, l)
    {
      hide ToLittle;
      StoreBytes(ptr - base - 8, ToLittle(8, l.prev));
      StoreBytes(ptr - base - 16, ToLittle(8, l.next));
    }

    method FreeSpace() returns (space: nat)
      requires Valid()
      ensures space == base + buff.Length - top
    {
      NodeInside(base, buff.Length, blocks, |blocks|);
      space := base + buff.Length - top;
    }

    /** Gives the lowest aligned address at or above the top, exactly when the block and a node fit
        behind it; a failure changes nothing. */
    method Allocate(bytes: nat, alignment: nat, ghost k: nat) returns (p: Option<nat>)
      requires Valid() && bytes < WORD && k < 64 && alignment == Pow2(k)
      modifies this`top, this`blocks, buff
      ensures Valid()
      ensures p.Some? <==> RoundUp(old(top), alignment) + bytes + NODE_SIZE <= base + buff.Length
      ensures p.Some? ==> p.value == RoundUp(old(top), alignment)
      ensures p.Some? ==> blocks == old(blocks) + [Block(p.value, bytes, alignment)]
      ensures p.Some? ==> AllKept(base, old(buff[..]), buff[..], old(blocks))
      ensures p.None? ==> blocks == old(blocks) && top == old(top) && buff[..] == old(buff[..])
    {
      hide RoundUp, WORD, Pow2, AlignAddr, Stored, SetLinks, GetLinks, AllKept, Addressable, AllAligned;
      ghost var mem := buff[..];
      NodeInside(base, |mem|, blocks, |blocks|);
      TopBelowWord(base, mem, blocks);
      var prevPtr := top;
      var prevNode := GetNode(prevPtr);
      AlignAddrExact(top, k);
      RoundUpLeast(top, alignment, 0);
      var padding := Wrap(AlignAddr(top, alignment) - top);
      var space := FreeSpace();
      if bytes > space || padding + NODE_SIZE > space - bytes {
        return None;
      }
      var q := top + padding;
      ghost var b := Block(q, bytes, alignment);
      PushChained(base, mem, blocks, b);
      PushKeeps(base, mem, blocks, b);
      top := q + bytes + NODE_SIZE;
      SetNode(top, Links(prevPtr, 0));
      SetNode(prevPtr, Links(prevNode.prev, top));
      blocks := blocks + [b];
      p := Some(q);
    }

    /** Refuses ranges that cannot be a block of the arena; gives back a live block, wherever it is. */
    method Deallocate(ptr: nat, bytes: nat) returns (ok: bool)
      requires Valid()
      requires InArena(base, buff.Length, ptr, bytes) ==> exists j :: Names(blocks, j, ptr, bytes)
      modifies this`top, this`blocks, buff
      ensures Valid()
      ensures ok <==> InArena(base, buff.Length, ptr, bytes)
      ensures ok ==> exists j :: Names(old(blocks), j, ptr, bytes) && blocks == RemoveAt(old(blocks), j)
      ensures AllKept(base, old(buff[..]), buff[..], blocks)
      ensures !ok ==> blocks == old(blocks) && top == old(top) && buff[..] == old(buff[..])
    {
      hide WORD, Stored, SetLinks, GetLinks, AllKept, Addressable, AllAligned;
      ghost var mem := buff[..];
      if ptr < base || ptr - base > buff.Length {
        KeptSelf(base, mem, blocks);
        return false;
      }
      var rest := buff.Length - (ptr - base);
      if bytes > rest || NODE_SIZE > rest - bytes {
        KeptSelf(base, mem, blocks);
        return false;
      }
      ghost var j :| Names(blocks, j, ptr, bytes);
      LinksOfBlock(base, mem, blocks, j);
      UnlinkChained(base, mem, blocks, j);
      UnlinkKeeps(base, mem, blocks, j);
      NewTop(base, |mem|, blocks, j);
      var node := GetNode(ptr + bytes + NODE_SIZE);
      var prevNode := GetNode(node.prev);
      SetNode(node.prev, Links(prevNode.prev, node.next));
      if node.next == 0 {
        top := node.prev;
      } else {
        var nextNode := GetNode(node.next);
        SetNode(node.next, Links(node.prev, nextNode.next));
      }
      KeptLess(base, mem, buff[..], blocks, j);
      blocks := RemoveAt(blocks, j);
      ok := true;
    }

    method IsFull() returns (full: bool)
      requires Valid()
      ensures full <==> NothingFits(base + buff.Length, top)
    {
      var space := FreeSpace();
      full := space <= NODE_SIZE;
      FullMeans(base + buff.Length, top);
    }

    /** A caller's store into a live block. */
    method Store(ghost m: nat, ptr: nat, k: nat, x: byte)
      requires Valid() && m < |blocks| && blocks[m].ptr == ptr && k < blocks[m].bytes
      modifies buff
      ensures Valid()
      ensures ptr >= base && ptr - base + k < buff.Length
      ensures buff[..] == old(buff[..])[ptr - base + k := x]
      ensures forall j: nat :: j < |blocks| && j != m ==> Kept(base, old(buff[..]), buff[..], blocks[j])
    {
      hide Stored, Kept;
      UserStore(base, buff[..], blocks, m, k, x);
      buff[ptr - base + k] := x;
      assert buff[..] == old(buff[..])[ptr - base + k := x];
    }

    /** Giving back every live block, in whatever order, leaves the arena as it was at the start. */
    method ReleaseAll(order: seq<Block>)
      requires Valid() && multiset(order) == multiset(blocks)
      modifies this`top, this`blocks, buff
      ensures Valid() && blocks == [] && top == base + NODE_SIZE
    {
      hide WORD, Chained, AllKept, NodeAt, RemoveAt;
      var i := 0;
      assert order[0..] == order;
      while i < |order|
        invariant i <= |order| && Valid() && multiset(order[i..]) == multiset(blocks)
      {
        ghost var j := FindBlock(order, i, blocks);
        LinksOfBlock(base, buff[..], blocks, j);
        assert Names(blocks, j, order[i].ptr, order[i].bytes);
        ghost var was, mem := blocks, buff[..];
        var ok := Deallocate(order[i].ptr, order[i].bytes);
        ghost var j' :| Names(was, j', order[i].ptr, order[i].bytes) && blocks == RemoveAt(was, j');
        NamesOne(base, mem, was, j, j');
        OneLess(order, i, was, j);
        i := i + 1;
      }
      NothingLeft(order, blocks);
      NodeRoot(base, blocks);
    }
  }
}
