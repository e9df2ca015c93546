/** The chain of nodes that the stack allocator keeps inside its arena: where the nodes are, what they
    store, and what adding or unlinking a block does to them. */
module StackChain {
  import opened Bytes
  import opened Align

  /** Two stored pointers, each of eight bytes; a null pointer is stored as 0. */
  const NODE_SIZE: nat := 16

  datatype Links = Links(prev: nat, next: nat)

  datatype Block = Block(ptr: nat, bytes: nat, alignment: nat)

  // ------------------------------------------------------------------ one node in memory

  /** A node is addressed by its end: the previous pointer is right before it, the next one before that. */
  function GetLinks(mem: seq<byte>, end: nat): Links
    requires NODE_SIZE <= end <= |mem|
  {
    Links(FromLittle(mem[end - 8..end]), FromLittle(mem[end - 16..end - 8]))
  }

  function SetLinks(mem: seq<byte>, end: nat, l: Links): (r: seq<byte>)
    requires NODE_SIZE <= end <= |mem|
    ensures |r| == |mem|
  {
    Splice(Splice(mem, end - 8, ToLittle(8, l.prev)), end - 16, ToLittle(8, l.next))
  }

  lemma SetLinksFrame(mem: seq<byte>, end: nat, l: Links)
    requires NODE_SIZE <= end <= |mem|
    ensures SameOutside(mem, SetLinks(mem, end, l), end - NODE_SIZE, end)
  {
    hide ToLittle;
  }

  lemma SetThenGet(mem: seq<byte>, end: nat, l: Links)
    requires NODE_SIZE <= end <= |mem|
    requires l.prev < WORD && l.next < WORD
    ensures GetLinks(SetLinks(mem, end, l), end) == l
  {
    hide ToLittle, FromLittle;
    var mid := Splice(mem, end - 8, ToLittle(8, l.prev));
    var after := SetLinks(mem, end, l);
    SpliceAt(mem, end - 8, ToLittle(8, l.prev));
    SpliceAt(mid, end - 16, ToLittle(8, l.next));
    assert after[end - 8..end] == mid[end - 8..end];
    assert after[end - 16..end - 8] == ToLittle(8, l.next);
    StoredWord(l.prev);
    StoredWord(l.next);
  }

  /** In front of the address that names a node lies the previous pointer, and in front of that the next. */
  lemma NodeBytes(mem: seq<byte>, end: nat, l: Links)
    requires NODE_SIZE <= end <= |mem|
    ensures SetLinks(mem, end, l)[end - 8..end] == ToLittle(8, l.prev)
    ensures SetLinks(mem, end, l)[end - 16..end - 8] == ToLittle(8, l.next)
  {
    hide ToLittle;
    var mid := Splice(mem, end - 8, ToLittle(8, l.prev));
    SpliceAt(mem, end - 8, ToLittle(8, l.prev));
    SpliceAt(mid, end - 16, ToLittle(8, l.next));
    assert SetLinks(mem, end, l)[end - 8..end] == mid[end - 8..end];
  }

  lemma StoredWord(x: nat)
    requires x < WORD
    ensures FromLittle(ToLittle(8, x)) == x
  {
    hide Pow2, Pow256, ToLittle, FromLittle;
    Pow2Bytes(8);
    FromToLittle(8, x);
    ModUnique(x, WORD, 0, x);
  }

  /** A node out of reach of a change keeps its links. */
  lemma LinksFrame(mem: seq<byte>, mem': seq<byte>, lo: nat, hi: nat, end: nat)
    requires SameOutside(mem, mem', lo, hi)
    requires NODE_SIZE <= end <= |mem|
    requires end <= lo || hi <= end - NODE_SIZE
    ensures GetLinks(mem', end) == GetLinks(mem, end)
  {
    hide FromLittle;
    assert mem'[end - 8..end] == mem[end - 8..end];
    assert mem'[end - 16..end - 8] == mem[end - 16..end - 8];
  }

  // ------------------------------------------------------------------ the chain

  /** Address of the i-th node: the root's, or the one behind the block before it. */
  function NodeAt(base: nat, blocks: seq<Block>, i: nat): nat
    requires i <= |blocks|
  {
    if i == 0 then base + NODE_SIZE else blocks[i - 1].ptr + blocks[i - 1].bytes + NODE_SIZE
  }

  function LinksAt(base: nat, blocks: seq<Block>, i: nat): Links
    requires i <= |blocks|
  {
    Links(if i == 0 then 0 else NodeAt(base, blocks, i - 1),
          if i == |blocks| then 0 else NodeAt(base, blocks, i + 1))
  }

  /** Blocks in address order, each behind the node before it, all inside the arena. */
  ghost predicate LaidOut(base: nat, size: nat, blocks: seq<Block>) {
    && (forall i: nat {:trigger NodeAt(base, blocks, i)} :: i < |blocks| ==> NodeAt(base, blocks, i) <= blocks[i].ptr)
    && (forall i: nat {:trigger NodeAt(base, blocks, i)} :: i <= |blocks| ==> NodeAt(base, blocks, i) <= base + size)
  }

  ghost predicate AllAligned(blocks: seq<Block>) {
    forall i: nat :: i < |blocks| ==> Aligned(blocks[i].ptr, blocks[i].alignment)
  }

  /** The arena has addresses, none of them null. */
  ghost predicate Addressable(base: nat, size: nat) {
    base >= 1 && base + size < WORD
  }

  ghost predicate Stored(base: nat, mem: seq<byte>, blocks: seq<Block>, i: nat)
    requires i <= |blocks|
  {
    && base + NODE_SIZE <= NodeAt(base, blocks, i) <= base + |mem|
    && GetLinks(mem, NodeAt(base, blocks, i) - base) == LinksAt(base, blocks, i)
  }

  /** The nodes in the arena are exactly the live blocks' in address order. */
  ghost predicate Chained(base: nat, mem: seq<byte>, blocks: seq<Block>) {
    && Addressable(base, |mem|) && LaidOut(base, |mem|, blocks) && AllAligned(blocks)
    && forall i: nat {:trigger Stored(base, mem, blocks, i)} :: i <= |blocks| ==> Stored(base, mem, blocks, i)
  }

  lemma {:induction false} Ascending(base: nat, size: nat, blocks: seq<Block>, i: nat, j: nat)
    requires LaidOut(base, size, blocks) && i < j <= |blocks|
    ensures NodeAt(base, blocks, i) + NODE_SIZE <= NodeAt(base, blocks, j)
    decreases j
  {
    assert NodeAt(base, blocks, j - 1) <= blocks[j - 1].ptr;
    if i < j - 1 {
      Ascending(base, size, blocks, i, j - 1);
    }
  }

  /** Every node lies in the arena, behind the root's place. */
  lemma NodeInside(base: nat, size: nat, blocks: seq<Block>, i: nat)
    requires LaidOut(base, size, blocks) && i <= |blocks|
    ensures base + NODE_SIZE <= NodeAt(base, blocks, i) <= base + size
  {
    hide NodeAt;
    if i > 0 {
      Ascending(base, size, blocks, 0, i);
    }
    assert NodeAt(base, blocks, 0) == base + NODE_SIZE by { NodeRoot(base, blocks); }
  }

  lemma NodeRoot(base: nat, blocks: seq<Block>)
    ensures NodeAt(base, blocks, 0) == base + NODE_SIZE
  {
  }

  /** No block meets a node. */
  lemma BlockMissesNode(base: nat, size: nat, blocks: seq<Block>, m: nat, i: nat)
    requires LaidOut(base, size, blocks) && m < |blocks| && i <= |blocks|
    ensures NodeAt(base, blocks, i) <= blocks[m].ptr
            || blocks[m].ptr + blocks[m].bytes <= NodeAt(base, blocks, i) - NODE_SIZE
  {
    assert NodeAt(base, blocks, m) <= blocks[m].ptr;
    if i < m {
      Ascending(base, size, blocks, i, m);
    } else if i > m + 1 {
      Ascending(base, size, blocks, m + 1, i);
    }
  }

  /** No two blocks meet, and a node lies between them. */
  lemma BlocksApart(base: nat, size: nat, blocks: seq<Block>, i: nat, j: nat)
    requires LaidOut(base, size, blocks) && i < j < |blocks|
    ensures blocks[i].ptr + blocks[i].bytes + NODE_SIZE <= blocks[j].ptr
    ensures blocks[j].ptr + blocks[j].bytes + NODE_SIZE <= base + size
  {
    assert NodeAt(base, blocks, j) <= blocks[j].ptr;
    assert NodeAt(base, blocks, j + 1) <= base + size;
    if i + 1 < j {
      Ascending(base, size, blocks, i + 1, j);
    }
  }

  // ------------------------------------------------------------------ what callers store

  function UserBytes(base: nat, mem: seq<byte>, b: Block): (r: seq<byte>)
    requires base <= b.ptr && b.ptr + b.bytes <= base + |mem|
  {
    mem[b.ptr - base..b.ptr - base + b.bytes]
  }

  ghost predicate Inside(base: nat, size: nat, b: Block) {
    base + NODE_SIZE <= b.ptr && b.ptr + b.bytes + NODE_SIZE <= base + size
  }

  lemma BlockInside(base: nat, size: nat, blocks: seq<Block>, m: nat)
    requires LaidOut(base, size, blocks) && m < |blocks|
    ensures Inside(base, size, blocks[m])
  {
    NodeInside(base, size, blocks, m);
    assert NodeAt(base, blocks, m + 1) <= base + size;
  }

  /** The bytes of a block are the same in two memories. */
  ghost predicate Kept(base: nat, mem: seq<byte>, mem': seq<byte>, b: Block) {
    && |mem'| == |mem| && Inside(base, |mem|, b)
    && UserBytes(base, mem', b) == UserBytes(base, mem, b)
  }

  ghost predicate AllKept(base: nat, mem: seq<byte>, mem': seq<byte>, blocks: seq<Block>) {
    forall m: nat :: m < |blocks| ==> Kept(base, mem, mem', blocks[m])
  }

  /** Writing a node of the chain leaves every block alone. */
  lemma SetKeepsBlocks(base: nat, mem: seq<byte>, blocks: seq<Block>, i: nat, l: Links)
    requires LaidOut(base, |mem|, blocks) && i <= |blocks|
    requires base + NODE_SIZE <= NodeAt(base, blocks, i) <= base + |mem|
    ensures AllKept(base, mem, SetLinks(mem, NodeAt(base, blocks, i) - base, l), blocks)
  {
    hide SetLinks;
    var end := NodeAt(base, blocks, i) - base;
    var mem' := SetLinks(mem, end, l);
    SetLinksFrame(mem, end, l);
    forall m: nat | m < |blocks|
      ensures Kept(base, mem, mem', blocks[m])
    {
      BlockInside(base, |mem|, blocks, m);
      BlockMissesNode(base, |mem|, blocks, m, i);
      assert UserBytes(base, mem', blocks[m]) == UserBytes(base, mem, blocks[m]);
    }
  }

  lemma AllKeptTrans(base: nat, a: seq<byte>, b: seq<byte>, c: seq<byte>, blocks: seq<Block>)
    requires AllKept(base, a, b, blocks) && AllKept(base, b, c, blocks)
    ensures AllKept(base, a, c, blocks)
  {
    forall m: nat | m < |blocks|
      ensures Kept(base, a, c, blocks[m])
    {
      assert Kept(base, a, b, blocks[m]) && Kept(base, b, c, blocks[m]);
    }
  }

  /** A store into a block touches neither the chain nor any other block. */
  lemma UserStore(base: nat, mem: seq<byte>, blocks: seq<Block>, m: nat, k: nat, x: byte)
    requires Chained(base, mem, blocks) && m < |blocks| && k < blocks[m].bytes
    ensures Inside(base, |mem|, blocks[m])
    ensures Chained(base, mem[blocks[m].ptr - base + k := x], blocks)
    ensures forall j: nat :: j < |blocks| && j != m ==>
              Kept(base, mem, mem[blocks[m].ptr - base + k := x], blocks[j])
  {
    hide GetLinks, NodeAt, LinksAt, Addressable, AllAligned, Kept;
    BlockInside(base, |mem|, blocks, m);
    var at := blocks[m].ptr - base + k;
    var mem' := mem[at := x];
    forall i: nat | i <= |blocks|
      ensures Stored(base, mem', blocks, i)
    {
      assert Stored(base, mem, blocks, i);
      BlockMissesNode(base, |mem|, blocks, m, i);
      LinksFrame(mem, mem', at, at + 1, NodeAt(base, blocks, i) - base);
    }
    forall j: nat | j < |blocks| && j != m
      ensures Kept(base, mem, mem', blocks[j])
    {
      UserStoreKeeps(base, mem, blocks, m, j, at, x);
    }
  }

  lemma UserStoreKeeps(base: nat, mem: seq<byte>, blocks: seq<Block>, m: nat, j: nat, at: nat, x: byte)
    requires LaidOut(base, |mem|, blocks) && m < |blocks| && j < |blocks| && j != m
    requires base <= blocks[m].ptr && blocks[m].ptr - base <= at < blocks[m].ptr - base + blocks[m].bytes
    requires at < |mem|
    ensures Kept(base, mem, mem[at := x], blocks[j])
  {
    BlockInside(base, |mem|, blocks, j);
    if j < m { BlocksApart(base, |mem|, blocks, j, m); } else { BlocksApart(base, |mem|, blocks, m, j); }
    assert UserBytes(base, mem[at := x], blocks[j]) == UserBytes(base, mem, blocks[j]);
  }

  // ------------------------------------------------------------------ adding and unlinking

  /** The two stores of an allocation: the new node, then the link from the old top. */
  function Pushed(base: nat, mem: seq<byte>, top: nat, top': nat): (r: seq<byte>)
    requires base + NODE_SIZE <= top <= base + |mem| && base + NODE_SIZE <= top' <= base + |mem|
    ensures |r| == |mem|
  {
    SetLinks(SetLinks(mem, top' - base, Links(top, 0)), top - base,
             Links(GetLinks(mem, top - base).prev, top'))
  }

  lemma PushOrdered(base: nat, size: nat, blocks: seq<Block>, b: Block)
    requires LaidOut(base, size, blocks)
    requires NodeAt(base, blocks, |blocks|) <= b.ptr && b.ptr + b.bytes + NODE_SIZE <= base + size
    ensures LaidOut(base, size, blocks + [b])
    ensures forall i: nat :: i <= |blocks| ==> NodeAt(base, blocks + [b], i) == NodeAt(base, blocks, i)
    ensures NodeAt(base, blocks + [b], |blocks| + 1) == b.ptr + b.bytes + NODE_SIZE
  {
    var more := blocks + [b];
    assert forall i: nat :: i < |blocks| ==> more[i] == blocks[i];
    assert forall i: nat :: i <= |blocks| ==> NodeAt(base, more, i) == NodeAt(base, blocks, i);
  }

  /** Allocation keeps the chain exact. */
  lemma PushChained(base: nat, mem: seq<byte>, blocks: seq<Block>, b: Block)
    requires Chained(base, mem, blocks)
    requires NodeAt(base, blocks, |blocks|) <= b.ptr && b.ptr + b.bytes + NODE_SIZE <= base + |mem|
    requires Aligned(b.ptr, b.alignment)
    ensures base + NODE_SIZE <= NodeAt(base, blocks, |blocks|) <= base + |mem|
    ensures Chained(base, Pushed(base, mem, NodeAt(base, blocks, |blocks|), b.ptr + b.bytes + NODE_SIZE), blocks + [b])
  {
    hide SetLinks, GetLinks, Aligned, Addressable, NodeAt, LaidOut, Pushed;
    NodeInside(base, |mem|, blocks, |blocks|);
    PushOrdered(base, |mem|, blocks, b);
    var mem' := Pushed(base, mem, NodeAt(base, blocks, |blocks|), b.ptr + b.bytes + NODE_SIZE);
    PushTop(base, mem, blocks, b);
    forall i: nat | i < |blocks|
      ensures Stored(base, mem', blocks + [b], i)
    {
      PushBelow(base, mem, blocks, b, i);
    }
  }

  /** The new node and the old top. */
  lemma PushTop(base: nat, mem: seq<byte>, blocks: seq<Block>, b: Block)
    requires Chained(base, mem, blocks) && LaidOut(base, |mem|, blocks + [b])
    requires base + NODE_SIZE <= NodeAt(base, blocks, |blocks|) <= base + |mem|
    requires NodeAt(base, blocks, |blocks|) <= b.ptr && b.ptr + b.bytes + NODE_SIZE <= base + |mem|
    requires forall i: nat :: i <= |blocks| ==> NodeAt(base, blocks + [b], i) == NodeAt(base, blocks, i)
    requires NodeAt(base, blocks + [b], |blocks| + 1) == b.ptr + b.bytes + NODE_SIZE
    ensures var mem' := Pushed(base, mem, NodeAt(base, blocks, |blocks|), b.ptr + b.bytes + NODE_SIZE);
            Stored(base, mem', blocks + [b], |blocks|) && Stored(base, mem', blocks + [b], |blocks| + 1)
  {
    hide SetLinks, GetLinks, Aligned, Addressable, NodeAt, LaidOut;
    var n, more := |blocks|, blocks + [b];
    assert Stored(base, mem, blocks, n);
    var top, top' := NodeAt(base, blocks, n), NodeAt(base, more, n + 1);
    var mid := SetLinks(mem, top' - base, Links(top, 0));
    var l := Links(GetLinks(mem, top - base).prev, top');
    SetLinksFrame(mem, top' - base, Links(top, 0));
    SetLinksFrame(mid, top - base, l);
    WordBound(base, |mem|, more, n);
    WordBound(base, |mem|, more, n + 1);
    if n > 0 { WordBound(base, |mem|, more, n - 1); }
    SetThenGet(mem, top' - base, Links(top, 0));
    SetThenGet(mid, top - base, l);
    LinksFrame(mid, SetLinks(mid, top - base, l), top - base - NODE_SIZE, top - base, top' - base);
  }

  /** Every node below is as it was. */
  lemma PushBelow(base: nat, mem: seq<byte>, blocks: seq<Block>, b: Block, i: nat)
    requires Chained(base, mem, blocks) && i < |blocks|
    requires base + NODE_SIZE <= NodeAt(base, blocks, |blocks|) <= base + |mem|
    requires NodeAt(base, blocks, |blocks|) <= b.ptr && b.ptr + b.bytes + NODE_SIZE <= base + |mem|
    requires forall i: nat :: i <= |blocks| ==> NodeAt(base, blocks + [b], i) == NodeAt(base, blocks, i)
    ensures var last := NodeAt(base, blocks, |blocks|);
            Stored(base, Pushed(base, mem, last, b.ptr + b.bytes + NODE_SIZE), blocks + [b], i)
  {
    hide SetLinks, GetLinks, Addressable, NodeAt, LaidOut, AllAligned;
    var top, top' := NodeAt(base, blocks, |blocks|), b.ptr + b.bytes + NODE_SIZE;
    var mid := SetLinks(mem, top' - base, Links(top, 0));
    var l := Links(GetLinks(mem, top - base).prev, top');
    SetLinksFrame(mem, top' - base, Links(top, 0));
    SetLinksFrame(mid, top - base, l);
    assert Stored(base, mem, blocks, i);
    Ascending(base, |mem|, blocks, i, |blocks|);
    LinksFrame(mem, mid, top' - base - NODE_SIZE, top' - base, NodeAt(base, blocks, i) - base);
    LinksFrame(mid, SetLinks(mid, top - base, l), top - base - NODE_SIZE, top - base, NodeAt(base, blocks, i) - base);
  }

  /** Allocation keeps every other block's bytes. */
  lemma PushKeeps(base: nat, mem: seq<byte>, blocks: seq<Block>, b: Block)
    requires LaidOut(base, |mem|, blocks)
    requires NodeAt(base, blocks, |blocks|) <= b.ptr && b.ptr + b.bytes + NODE_SIZE <= base + |mem|
    ensures base + NODE_SIZE <= NodeAt(base, blocks, |blocks|) <= base + |mem|
    ensures AllKept(base, mem, Pushed(base, mem, NodeAt(base, blocks, |blocks|), b.ptr + b.bytes + NODE_SIZE), blocks)
  {
    hide SetLinks, GetLinks, NodeAt, LaidOut, Kept;
    var n, more := |blocks|, blocks + [b];
    NodeInside(base, |mem|, blocks, n);
    PushOrdered(base, |mem|, blocks, b);
    var top, top' := NodeAt(base, blocks, n), NodeAt(base, more, n + 1);
    var mid := SetLinks(mem, top' - base, Links(top, 0));
    var l := Links(GetLinks(mem, top - base).prev, top');
    SetKeepsBlocks(base, mem, more, n + 1, Links(top, 0));
    SetKeepsBlocks(base, mid, more, n, l);
    AllKeptTrans(base, mem, mid, SetLinks(mid, top - base, l), more);
    assert forall m: nat :: m < n ==> more[m] == blocks[m];
  }

  lemma WordBound(base: nat, size: nat, blocks: seq<Block>, i: nat)
    requires LaidOut(base, size, blocks) && Addressable(base, size) && i <= |blocks|
    ensures NodeAt(base, blocks, i) < WORD
  {
  }

  function RemoveAt(blocks: seq<Block>, j: nat): seq<Block>
    requires j < |blocks|
  {
    blocks[..j] + blocks[j + 1..]
  }

  /** The stores of a deallocation: around the node behind block j. */
  function Unlinked(base: nat, mem: seq<byte>, prev: nat, next: nat): (r: seq<byte>)
    requires base + NODE_SIZE <= prev <= base + |mem|
    requires next == 0 || base + NODE_SIZE <= next <= base + |mem|
    ensures |r| == |mem|
  {
    var mid := SetLinks(mem, prev - base, Links(GetLinks(mem, prev - base).prev, next));
    if next == 0 then mid else SetLinks(mid, next - base, Links(prev, GetLinks(mid, next - base).next))
  }

  lemma RemoveOrdered(base: nat, size: nat, blocks: seq<Block>, j: nat)
    requires LaidOut(base, size, blocks) && j < |blocks|
    ensures LaidOut(base, size, RemoveAt(blocks, j))
    ensures NodesAfterRemoval(base, blocks, j)
  {
    var less := RemoveAt(blocks, j);
    assert forall i: nat :: i < |less| ==> less[i] == blocks[if i < j then i else i + 1];
    forall i: nat | i < |blocks|
      ensures NodeAt(base, less, i) == NodeAt(base, blocks, if i <= j then i else i + 1)
    {
    }
    Ascending(base, size, blocks, j, j + 1);
    forall i: nat | i < |less|
      ensures NodeAt(base, less, i) <= less[i].ptr
    {
      var k: nat := if i < j then i else i + 1;
      assert NodeAt(base, blocks, k) <= blocks[k].ptr;
    }
  }

  /** Unlinking the last block: the node before it becomes the last one. */
  lemma UnlinkTop(base: nat, mem: seq<byte>, blocks: seq<Block>)
    requires Chained(base, mem, blocks) && blocks != []
    requires NodesAfterRemoval(base, blocks, |blocks| - 1)
    ensures Unlinkable(base, mem, blocks, |blocks| - 1)
    ensures Stored(base, Unlink(base, mem, blocks, |blocks| - 1), RemoveAt(blocks, |blocks| - 1), |blocks| - 1)
  {
    hide SetLinks, GetLinks, Addressable, NodeAt, LaidOut, AllAligned;
    var j := |blocks| - 1;
    assert Stored(base, mem, blocks, j) && Stored(base, mem, blocks, j + 1);
    var prev := NodeAt(base, blocks, j);
    if j > 0 { WordBound(base, |mem|, blocks, j - 1); }
    SetThenGet(mem, prev - base, Links(GetLinks(mem, prev - base).prev, 0));
  }

  /** Unlinking any other block: the neighbours' links come out right. */
  lemma UnlinkAround(base: nat, mem: seq<byte>, blocks: seq<Block>, j: nat)
    requires Chained(base, mem, blocks) && j + 1 < |blocks|
    requires NodesAfterRemoval(base, blocks, j)
    ensures Unlinkable(base, mem, blocks, j)
    ensures var mem' := Unlink(base, mem, blocks, j);
            Stored(base, mem', RemoveAt(blocks, j), j) && Stored(base, mem', RemoveAt(blocks, j), j + 1)
  {
    hide SetLinks, GetLinks, Addressable, NodeAt, LaidOut, AllAligned;
    assert Stored(base, mem, blocks, j) && Stored(base, mem, blocks, j + 1) && Stored(base, mem, blocks, j + 2);
    WordBound(base, |mem|, blocks, j);
    WordBound(base, |mem|, blocks, j + 2);
    if j > 0 { WordBound(base, |mem|, blocks, j - 1); }
    if j + 2 < |blocks| { WordBound(base, |mem|, blocks, j + 3); }
    var prev, next := NodeAt(base, blocks, j), NodeAt(base, blocks, j + 2);
    Ascending(base, |mem|, blocks, j, j + 2);
    SetPair(base, mem, prev, next);
  }

  /** Two nodes apart, relinked to each other: each keeps its outer link. */
  lemma SetPair(base: nat, mem: seq<byte>, prev: nat, next: nat)
    requires base + NODE_SIZE <= prev && prev + NODE_SIZE <= next <= base + |mem|
    requires prev < WORD && next < WORD
    requires GetLinks(mem, prev - base).prev < WORD && GetLinks(mem, next - base).next < WORD
    ensures var mem' := Unlinked(base, mem, prev, next);
            GetLinks(mem', prev - base) == Links(GetLinks(mem, prev - base).prev, next)
            && GetLinks(mem', next - base) == Links(prev, GetLinks(mem, next - base).next)
  {
    hide SetLinks, GetLinks;
    var one := Links(GetLinks(mem, prev - base).prev, next);
    var mid := SetLinks(mem, prev - base, one);
    SetThenGet(mem, prev - base, one);
    SetLinksFrame(mem, prev - base, one);
    LinksFrame(mem, mid, prev - base - NODE_SIZE, prev - base, next - base);
    var two := Links(prev, GetLinks(mid, next - base).next);
    SetThenGet(mid, next - base, two);
    SetLinksFrame(mid, next - base, two);
    LinksFrame(mid, SetLinks(mid, next - base, two), next - base - NODE_SIZE, next - base, prev - base);
  }

  ghost predicate NodesAfterRemoval(base: nat, blocks: seq<Block>, j: nat)
    requires j < |blocks|
  {
    forall i: nat {:trigger NodeAt(base, RemoveAt(blocks, j), i)} :: i < |blocks| ==>
      NodeAt(base, RemoveAt(blocks, j), i) == NodeAt(base, blocks, if i <= j then i else i + 1)
  }

  /** The nodes around the one behind block j are in the arena. */
  ghost predicate Unlinkable(base: nat, mem: seq<byte>, blocks: seq<Block>, j: nat)
    requires j < |blocks|
  {
    var l := LinksAt(base, blocks, j + 1);
    && base + NODE_SIZE <= l.prev <= base + |mem|
    && (l.next == 0 || base + NODE_SIZE <= l.next <= base + |mem|)
  }

  ghost function Unlink(base: nat, mem: seq<byte>, blocks: seq<Block>, j: nat): (r: seq<byte>)
    requires j < |blocks| && Unlinkable(base, mem, blocks, j)
    ensures |r| == |mem|
  {
    Unlinked(base, mem, LinksAt(base, blocks, j + 1).prev, LinksAt(base, blocks, j + 1).next)
  }

  /** Every node further away is as it was. */
  lemma UnlinkElsewhere(base: nat, mem: seq<byte>, blocks: seq<Block>, j: nat, i: nat)
    requires Chained(base, mem, blocks) && j < |blocks| && Unlinkable(base, mem, blocks, j)
    requires NodesAfterRemoval(base, blocks, j)
    requires i < j || j + 1 < i < |blocks|
    ensures Stored(base, Unlink(base, mem, blocks, j), RemoveAt(blocks, j), i)
  {
    hide SetLinks, GetLinks, Addressable, NodeAt, LaidOut, AllAligned;
    var l := LinksAt(base, blocks, j + 1);
    var prev, k := l.prev, if i < j then i else i + 1;
    var one := Links(GetLinks(mem, prev - base).prev, l.next);
    var mid := SetLinks(mem, prev - base, one);
    assert Stored(base, mem, blocks, k);
    if i < j { Ascending(base, |mem|, blocks, k, j); } else { Ascending(base, |mem|, blocks, j, k); }
    SetLinksFrame(mem, prev - base, one);
    LinksFrame(mem, mid, prev - base - NODE_SIZE, prev - base, NodeAt(base, blocks, k) - base);
    if l.next != 0 {
      var two := Links(prev, GetLinks(mid, l.next - base).next);
      if i < j { Ascending(base, |mem|, blocks, k, j + 2); } else { Ascending(base, |mem|, blocks, j + 2, k); }
      SetLinksFrame(mid, l.next - base, two);
      LinksFrame(mid, SetLinks(mid, l.next - base, two), l.next - base - NODE_SIZE, l.next - base,
                 NodeAt(base, blocks, k) - base);
    }
  }

  /** Deallocation, in any order, keeps the chain exact. */
  lemma UnlinkChained(base: nat, mem: seq<byte>, blocks: seq<Block>, j: nat)
    requires Chained(base, mem, blocks) && j < |blocks|
    ensures Unlinkable(base, mem, blocks, j)
    ensures Chained(base, Unlink(base, mem, blocks, j), RemoveAt(blocks, j))
  {
    hide Stored, Addressable, NodeAt, LaidOut, Unlink, LinksAt, Aligned;
    RemoveOrdered(base, |mem|, blocks, j);
    if j + 1 < |blocks| {
      UnlinkAround(base, mem, blocks, j);
    } else {
      UnlinkTop(base, mem, blocks);
    }
    var less := RemoveAt(blocks, j);
    forall i: nat | i <= |less|
      ensures Stored(base, Unlink(base, mem, blocks, j), less, i)
    {
      if i < j || j + 1 < i {
        UnlinkElsewhere(base, mem, blocks, j, i);
      }
    }
    assert forall i: nat :: i < |less| ==> less[i] == blocks[if i < j then i else i + 1];
  }

  /** Deallocation keeps every block's bytes. */
  lemma UnlinkKeeps(base: nat, mem: seq<byte>, blocks: seq<Block>, j: nat)
    requires LaidOut(base, |mem|, blocks) && j < |blocks| && Unlinkable(base, mem, blocks, j)
    ensures AllKept(base, mem, Unlink(base, mem, blocks, j), blocks)
  {
    hide SetLinks, GetLinks, NodeAt, LaidOut, AllKept;
    var l := LinksAt(base, blocks, j + 1);
    var one := Links(GetLinks(mem, l.prev - base).prev, l.next);
    var mid := SetLinks(mem, l.prev - base, one);
    SetKeepsBlocks(base, mem, blocks, j, one);
    if l.next != 0 {
      var two := Links(l.prev, GetLinks(mid, l.next - base).next);
      SetKeepsBlocks(base, mid, blocks, j + 2, two);
      AllKeptTrans(base, mem, mid, SetLinks(mid, l.next - base, two), blocks);
    }
  }
}
