/**
 arena.h and arena.cc: a bump allocator over reusable blocks.

 Addresses are integers below 2^64; preconditions say that nothing overflows. `newAt` is the address operator new
 returns if it is called: aligned for max_align_t and disjoint from the blocks in use.
 */
module Arena {
  import opened Bits

  const MAX_ALIGN: nat := 16
  /** The address of g_empty_block's empty range. */
  const EMPTY: nat := 8

  datatype Options = Options(minBlock: nat, maxBlock: nat, allocThreshold: nat)

  datatype Block = Block(start: nat, tip: nat, end: nat) {
    ghost predicate Ok() { 0 < start && start % MAX_ALIGN == 0 && start <= tip <= end && start < end }
    function Size(): int { end - start }
  }

  /** A live allocation. */
  datatype Alloc = Alloc(p: nat, size: nat)

  ghost predicate Apart(a: Block, b: Block) { a.end <= b.start || b.end <= a.start }

  ghost predicate ApartAllocs(a: Alloc, b: Alloc) {
    a.size == 0 || b.size == 0 || a.p + a.size <= b.p || b.p + b.size <= a.p
  }

  ghost predicate BlocksOk(blocks: seq<Block>) {
    && (forall i :: 0 <= i < |blocks| ==> blocks[i].Ok())
    && (forall i, j :: 0 <= i < j < |blocks| ==> Apart(blocks[i], blocks[j]))
  }

  /** The first `reusable` blocks share one size, strictly above all others. */
  ghost predicate SizesOk(blocks: seq<Block>, reusable: nat) {
    && (if blocks == [] then reusable == 0 else 1 <= reusable <= |blocks|)
    && forall i :: 0 <= i < |blocks| ==>
         if i < reusable then blocks[i].Size() == blocks[0].Size() else blocks[i].Size() < blocks[0].Size()
  }

  /** top_: -1 is &g_empty_block. */
  ghost predicate TopOk(blocks: seq<Block>, reusable: nat, top: int) {
    && (top == -1 <==> blocks == [])
    && (top == -1 || top == |blocks| - 1 || 0 <= top < reusable)
  }

  /** Reusable blocks after the top one hold nothing yet. */
  predicate InUse(reusable: nat, top: int, i: nat) { !(top < i < reusable) }

  ghost predicate Inside(blocks: seq<Block>, i: nat, a: Alloc)
    requires i < |blocks|
  {
    blocks[i].start <= a.p && a.p + a.size <= blocks[i].tip
  }

  ghost predicate LiveOk(blocks: seq<Block>, reusable: nat, top: int, live: set<Alloc>) {
    && (forall a :: a in live && a.size > 0 ==>
          exists i :: 0 <= i < |blocks| && InUse(reusable, top, i) && Inside(blocks, i, a))
    && (forall a, b :: a in live && b in live && a != b ==> ApartAllocs(a, b))
  }

  /** The memory that the arena must free some day. */
  ghost function Owned(blocks: seq<Block>): set<(nat, nat)> { set i | 0 <= i < |blocks| :: (blocks[i].start, blocks[i].end) }

  /* ---- block sizes ---- */

  function Clamp(lo: nat, v: nat, hi: nat): nat { if v < lo then (if lo < hi then lo else hi) else if v < hi then v else hi }

  /** The size AddBlock looks for: room for the worst misalignment. */
  function Needed(size: nat, m: nat): nat { if m > MAX_ALIGN then size + m - 1 else if size < m then m else size }

  /** The size AddBlock asks operator new for. */
  function NewSize(opt: Options, topSize: nat, size: nat, m: nat): (r: nat)
    requires topSize + 1 < Pow2(WORD)
    ensures r >= Needed(size, m)
  {
    var n := Needed(size, m);
    if n <= opt.allocThreshold then
      var c := Clamp(opt.minBlock, NextPow2(topSize + 1), opt.maxBlock);
      if n < c then c else n
    else n
  }

  /**
   What operator new is asked for: exactly the room needed for a large request; otherwise at least that, and at least the
   least power of two above the top block's size, kept between the two limits.
   */
  lemma NewSizeIs(opt: Options, topSize: nat, size: nat, m: nat) returns (k: nat)
    requires opt.minBlock <= opt.maxBlock && topSize + 1 <= Pow2(WORD - 1)
    ensures topSize + 1 < Pow2(WORD) && topSize < Pow2(k) && forall j :: topSize < Pow2(j) ==> Pow2(k) <= Pow2(j)
    ensures var need := if m > 16 then size + m - 1 else if size < m then m else size;
            var block := if Pow2(k) < opt.minBlock then opt.minBlock else if Pow2(k) > opt.maxBlock then opt.maxBlock else Pow2(k);
            && Needed(size, m) == need
            && NewSize(opt, topSize, size, m) ==
               if need > opt.allocThreshold then need else if need < block then block else need
  {
    hide Pow2;
    k := NextPow2IsLeast(topSize + 1);
  }

  /** The first block is min_block_size; later ones double until they reach max_block_size. */
  lemma BlocksDouble(opt: Options, size: nat, m: nat, j: nat)
    requires opt.minBlock <= opt.maxBlock && Needed(size, m) <= opt.allocThreshold && j + 1 < WORD
    ensures 1 < Pow2(WORD) && Needed(size, m) <= opt.minBlock && opt.minBlock > 0 ==> NewSize(opt, 0, size, m) == opt.minBlock
    ensures Pow2(j) + 1 < Pow2(WORD)
    ensures Needed(size, m) <= Pow2(j + 1) && opt.minBlock <= Pow2(j + 1) <= opt.maxBlock ==>
              NewSize(opt, Pow2(j), size, m) == 2 * Pow2(j)
    ensures Needed(size, m) <= opt.maxBlock <= Pow2(j + 1) ==> NewSize(opt, Pow2(j), size, m) == opt.maxBlock
  {
    hide Pow2;
    NextPow2AfterPower(j);
    Doubles(j);
  }

  /** A block of the needed size whose start is aligned for max_align_t fits the aligned request. */
  lemma BlockFits(start: nat, blockSize: nat, size: nat, k: nat)
    requires k <= WORD && start % MAX_ALIGN == 0 && start + Pow2(k) - 1 < Pow2(WORD)
    requires Needed(size, Pow2(k)) <= blockSize
    ensures Pow2(k) <= Pow2(WORD) && Align(start, Pow2(k)) + size <= start + blockSize
  {
    hide And, Align;
    AlignIsLeastMultiple(start, k);
    if Pow2(k) <= MAX_ALIGN {
      SmallPowersDivide(start, k);
    }
  }

  lemma SmallPowersDivide(start: nat, k: nat)
    requires start % MAX_ALIGN == 0 && Pow2(k) <= MAX_ALIGN
    ensures start % Pow2(k) == 0
  {
    hide Pow2;
    SmallPowers();
    if k > 4 { Pow2Monotone(5, k); }
    FactorsOf16(start);
    assert k == 0 || k == 1 || k == 2 || k == 3 || k == 4;
  }

  lemma FactorsOf16(x: nat)
    requires x % 16 == 0
    ensures x % 1 == 0 && x % 2 == 0 && x % 4 == 0 && x % 8 == 0
  {
    var q := x / 16;
    DivModUnique(x, 2, 8 * q, 0);
    DivModUnique(x, 4, 4 * q, 0);
    DivModUnique(x, 8, 2 * q, 0);
  }

  lemma SmallPowers()
    ensures Pow2(0) == 1 && Pow2(1) == 2 && Pow2(2) == 4 && Pow2(3) == 8 && Pow2(4) == 16 && Pow2(5) == 32
  {
  }

  /* ---- what each step keeps ---- */

  /** Everything in use lies below the tip of its block, so what is above the tip of the top block is free. */
  lemma AboveTipIsFree(blocks: seq<Block>, reusable: nat, top: nat, live: set<Alloc>, a: Alloc, b: Alloc)
    requires BlocksOk(blocks) && top < |blocks| && LiveOk(blocks, reusable, top, live) && b in live
    requires blocks[top].tip <= a.p && a.p + a.size <= blocks[top].end
    ensures ApartAllocs(a, b)
  {
    if b.size > 0 && a.size > 0 {
      var i :| 0 <= i < |blocks| && InUse(reusable, top, i) && Inside(blocks, i, b);
      assert blocks[i].Ok();
      if i < top { assert Apart(blocks[i], blocks[top]); } else if top < i { assert Apart(blocks[top], blocks[i]); }
    }
  }

  lemma BumpKeepsBlocks(blocks: seq<Block>, top: nat, tip: nat)
    requires BlocksOk(blocks) && top < |blocks| && blocks[top].start <= tip <= blocks[top].end
    ensures BlocksOk(blocks[top := blocks[top].(tip := tip)])
  {
    var r := blocks[top := blocks[top].(tip := tip)];
    forall i, j | 0 <= i < j < |r| ensures Apart(r[i], r[j]) { assert Apart(blocks[i], blocks[j]); }
    forall i | 0 <= i < |r| ensures r[i].Ok() { assert blocks[i].Ok(); }
  }

  lemma BumpKeepsLive(blocks: seq<Block>, reusable: nat, top: nat, live: set<Alloc>, a: Alloc)
    requires BlocksOk(blocks) && top < |blocks| && LiveOk(blocks, reusable, top, live)
    requires blocks[top].tip <= a.p && a.p + a.size <= blocks[top].end
    ensures LiveOk(blocks[top := blocks[top].(tip := a.p + a.size)], reusable, top, live + {a})
  {
    assert blocks[top].Ok();
    var r := blocks[top := blocks[top].(tip := a.p + a.size)];
    forall b | b in live ensures ApartAllocs(a, b) && ApartAllocs(b, a) {
      AboveTipIsFree(blocks, reusable, top, live, a, b);
    }
    hide BlocksOk, ApartAllocs;
    forall b | b in live + {a} && b.size > 0
      ensures exists i :: 0 <= i < |r| && InUse(reusable, top, i) && Inside(r, i, b)
    {
      if b == a {
        assert InUse(reusable, top, top) && Inside(r, top, a);
      } else {
        var i :| 0 <= i < |blocks| && InUse(reusable, top, i) && Inside(blocks, i, b);
        assert Inside(r, i, b);
      }
    }
  }

  /** ++top_: the next reusable block is empty, so its tip can be reset. */
  lemma AdvanceKeepsLive(blocks: seq<Block>, reusable: nat, top: nat, live: set<Alloc>)
    requires top + 1 < reusable <= |blocks| && LiveOk(blocks, reusable, top, live)
    ensures LiveOk(blocks[top + 1 := blocks[top + 1].(tip := blocks[top + 1].start)], reusable, top + 1, live)
  {
    var r := blocks[top + 1 := blocks[top + 1].(tip := blocks[top + 1].start)];
    forall b | b in live && b.size > 0
      ensures exists i :: 0 <= i < |r| && InUse(reusable, top + 1, i) && Inside(r, i, b)
    {
      var i :| 0 <= i < |blocks| && InUse(reusable, top, i) && Inside(blocks, i, b);
      assert InUse(reusable, top + 1, i) && Inside(r, i, b);
    }
  }

  /** The blocks after AddBlock pushes a new one and swaps it to its place. */
  function Pushed(blocks: seq<Block>, at: nat, n: Block): seq<Block>
    requires at <= |blocks|
  {
    if at == |blocks| then blocks + [n] else blocks[at := n] + [blocks[at]]
  }

  lemma PushKeepsBlocks(blocks: seq<Block>, at: nat, n: Block)
    requires BlocksOk(blocks) && at <= |blocks| && n.Ok() && forall i :: 0 <= i < |blocks| ==> Apart(n, blocks[i])
    ensures BlocksOk(Pushed(blocks, at, n))
  {
  }

  lemma PushKeepsLive(blocks: seq<Block>, reusable: nat, top: int, live: set<Alloc>, at: nat, n: Block, reusable': nat, top': int)
    requires at <= |blocks| && LiveOk(blocks, reusable, top, live)
    requires forall i :: 0 <= i <= |blocks| ==> InUse(reusable', top', i)
    ensures LiveOk(Pushed(blocks, at, n), reusable', top', live)
  {
    var r := Pushed(blocks, at, n);
    forall b | b in live && b.size > 0
      ensures exists i :: 0 <= i < |r| && InUse(reusable', top', i) && Inside(r, i, b)
    {
      var i :| 0 <= i < |blocks| && InUse(reusable, top, i) && Inside(blocks, i, b);
      var j := if i == at then |blocks| else i;
      assert r[j] == blocks[i];
      assert InUse(reusable', top', j) && Inside(r, j, b);
    }
  }

  class Arena {
    var opt: Options
    var blocks: seq<Block>
    var reusable: nat
    var top: int
    ghost var live: set<Alloc>

    /** The invariants stated in arena.h, and what they are for. */
    ghost predicate Valid()
      reads this
    {
      && opt.minBlock <= opt.maxBlock
      && BlocksOk(blocks) && SizesOk(blocks, reusable) && TopOk(blocks, reusable, top)
      && LiveOk(blocks, reusable, top, live)
    }

    constructor (opt: Options)
      requires opt.minBlock <= opt.maxBlock
      ensures Valid() && blocks == [] && live == {} && this.opt == opt
    {
      this.opt := opt;
      blocks, reusable, top, live := [], 0, -1, {};
    }

    function Top(): Block
      reads this
    {
      if 0 <= top < |blocks| then blocks[top] else Block(EMPTY, EMPTY, EMPTY)
    }

    function TopSize(): nat
      reads this
    {
      var b := Top();
      if b.start <= b.end then b.end - b.start else 0
    }

    /** Nothing that Allocate computes for this request leaves the address space. */
    ghost predicate NoOverflow(size: nat, k: nat, newAt: nat)
      reads this
    {
      && k < WORD && TopSize() + 1 < Pow2(WORD)
      && (forall i :: 0 <= i < |blocks| ==> blocks[i].end + Pow2(k) + size < Pow2(WORD))
      && EMPTY + Pow2(k) + size < Pow2(WORD)
      && newAt + NewSize(opt, TopSize(), size, Pow2(k)) + Pow2(k) + size < Pow2(WORD)
    }

    /** operator new returns aligned memory that overlaps no block. */
    ghost predicate FreshMemory(newAt: nat, n: nat)
      reads this
    {
      && 0 < newAt && newAt % MAX_ALIGN == 0
      && forall i :: 0 <= i < |blocks| ==> newAt + n <= blocks[i].start || blocks[i].end <= newAt
    }

    ghost predicate Fits(size: nat, m: nat)
      reads this
    {
      0 < m <= Pow2(WORD) && Align(Top().tip, m) + size <= Top().end
    }

    /** Arena::AddBlock: advance to the next reusable block or push a new one. */
    method AddBlock(size: nat, k: nat, newAt: nat)
      requires Valid() && NoOverflow(size, k, newAt)
      requires FreshMemory(newAt, NewSize(opt, TopSize(), size, Pow2(k)))
      modifies this
      ensures Valid() && opt == old(opt) && live == old(live) && blocks != []
      ensures Top().tip == Top().start && Needed(size, Pow2(k)) <= Top().Size() && Top().Ok()
      ensures Top().start + Pow2(k) - 1 < Pow2(WORD)
      ensures if Needed(size, Pow2(k)) <= old(TopSize()) && old(top) < old(reusable) - 1
              then top == old(top) + 1 && reusable == old(reusable) && Owned(blocks) == old(Owned(blocks))
              else && Top().start == newAt && Top().Size() == old(NewSize(opt, TopSize(), size, Pow2(k)))
                   && Owned(blocks) == old(Owned(blocks)) + {(newAt, Top().end)}
    {
      hide Pow2, And, NextPow2, NewSize, SizesOk, BlocksOk, LiveOk, TopOk, Owned;
      var m := Pow2(k);
      var need := Needed(size, m);
      TopInRange();
      if need <= TopSize() && top < reusable - 1 {
        AdvanceKeeps(blocks, reusable, top, live);
        OwnedBump(blocks, top + 1, blocks[top + 1].start);
        top := top + 1;
        blocks := blocks[top := blocks[top].(tip := blocks[top].start)];
        return;
      }
      var n := NewSize(opt, TopSize(), size, m);
      var b := Block(newAt, newAt, newAt + n);
      OwnedPush(blocks, b);
      if reusable > 0 && n < blocks[0].Size() {
        PushSmall(blocks, reusable, top, live, b);
        blocks := Pushed(blocks, |blocks|, b);
        top := |blocks| - 1;
        return;
      }
      var at := if reusable > 0 && n > blocks[0].Size() then 0 else reusable;
      PushLarge(blocks, reusable, top, live, b);
      blocks := Pushed(blocks, at, b);
      reusable := at + 1;
      top := at;
    }

    lemma TopInRange()
      requires Valid()
      ensures top == -1 || 0 <= top < |blocks|
      ensures blocks == [] <==> top == -1
      ensures reusable <= |blocks| && (blocks != [] ==> reusable > 0)
    {
    }

    /**
     Arena::Allocate. The result is aligned, lies in an owned block and overlaps no live allocation. If the request fits
     the top block, it is placed at the first aligned address at or after the tip and nothing else changes.
     */
    method Allocate(size: nat, k: nat, newAt: nat) returns (p: nat)
      requires Valid() && NoOverflow(size, k, newAt)
      requires FreshMemory(newAt, NewSize(opt, TopSize(), size, Pow2(k)))
      modifies this
      ensures Valid() && opt == old(opt)
      ensures p % Pow2(k) == 0
      ensures live == old(live) + {Alloc(p, size)}
      ensures size > 0 ==> exists i :: 0 <= i < |blocks| && Inside(blocks, i, Alloc(p, size))
      ensures forall a :: a in old(live) ==> ApartAllocs(Alloc(p, size), a)
      ensures old(Fits(size, Pow2(k))) ==>
                && p == Align(old(Top().tip), Pow2(k)) && reusable == old(reusable) && top == old(top)
                && blocks == if top == -1 then [] else old(blocks)[top := old(blocks)[top].(tip := p + size)]
    {
      hide Pow2, And, Align, NextPow2, NewSize, SizesOk, BlocksOk, LiveOk, TopOk;
      TopInRange();
      TipInRange(size, k);
      AlignIsLeastMultiple(Top().tip, k);
      p := Align(Top().tip, Pow2(k));
      if p + size <= Top().end {
        if top == -1 {
          EmptyAllocation(live, Alloc(p, size));
          live := live + {Alloc(p, size)};
        } else {
          p := PlaceAtTip(size, k);
        }
        return;
      }
      p := AllocateSlow(size, k, newAt);
    }

    lemma TipInRange(size: nat, k: nat)
      requires Valid() && k < WORD
      requires forall i :: 0 <= i < |blocks| ==> blocks[i].end + Pow2(k) + size < Pow2(WORD)
      requires EMPTY + Pow2(k) + size < Pow2(WORD)
      ensures Top().tip + Pow2(k) - 1 < Pow2(WORD) && Top().tip <= Top().end
    {
      hide Pow2;
    }

    /** Arena::AllocateSlow: after AddBlock the retry always succeeds. */
    method AllocateSlow(size: nat, k: nat, newAt: nat) returns (p: nat)
      requires Valid() && NoOverflow(size, k, newAt) && !Fits(size, Pow2(k))
      requires FreshMemory(newAt, NewSize(opt, TopSize(), size, Pow2(k)))
      modifies this
      ensures Valid() && opt == old(opt)
      ensures p % Pow2(k) == 0
      ensures live == old(live) + {Alloc(p, size)}
      ensures size > 0 ==> exists i :: 0 <= i < |blocks| && Inside(blocks, i, Alloc(p, size))
      ensures forall a :: a in old(live) ==> ApartAllocs(Alloc(p, size), a)
    {
      hide Pow2, And, Align, NextPow2, NewSize, SizesOk, BlocksOk, LiveOk, TopOk;
      AddBlock(size, k, newAt);
      BlockFits(Top().start, Top().Size(), size, k);
      assert Fits(size, Pow2(k));
      p := PlaceAtTip(size, k);
    }

    /** The fast path of Allocate, which is also its retry: the request fits the top block. */
    method PlaceAtTip(size: nat, k: nat) returns (p: nat)
      requires Valid() && k < WORD && blocks != [] && Top().tip + Pow2(k) - 1 < Pow2(WORD) && Fits(size, Pow2(k))
      modifies this
      ensures Valid() && opt == old(opt)
      ensures p == Align(old(Top().tip), Pow2(k)) && p % Pow2(k) == 0
      ensures reusable == old(reusable) && top == old(top)
      ensures 0 <= top < |old(blocks)| && blocks == old(blocks)[top := old(blocks)[top].(tip := p + size)]
      ensures live == old(live) + {Alloc(p, size)}
      ensures size > 0 ==> exists i :: 0 <= i < |blocks| && Inside(blocks, i, Alloc(p, size))
      ensures forall a :: a in old(live) ==> ApartAllocs(Alloc(p, size), a)
    {
      hide Pow2, And, Align, SizesOk, BlocksOk, LiveOk, TopOk;
      TopInRange();
      AlignIsLeastMultiple(Top().tip, k);
      p := Align(Top().tip, Pow2(k));
      var e := p + size;
      forall a | a in live ensures ApartAllocs(Alloc(p, size), a) {
        AboveTipIsFree(blocks, reusable, top, live, Alloc(p, size), a);
      }
      TopIsOk(blocks, top);
      BumpKeepsLive(blocks, reusable, top, live, Alloc(p, size));
      BumpKeepsBlocks(blocks, top, e);
      BumpKeepsSizes(blocks, reusable, top, e);
      BumpKeepsTop(blocks, reusable, top, blocks[top := blocks[top].(tip := e)]);
      blocks := blocks[top := blocks[top].(tip := e)];
      live := live + {Alloc(p, size)};
      assert Inside(blocks, top, Alloc(p, size));
    }

    /** Arena::Reuse: every allocation ends, at most numBlocks blocks are kept, the others are freed. */
    method Reuse(numBlocks: nat) returns (ghost freed: seq<Block>)
      requires Valid()
      modifies this
      ensures Valid() && live == {} && opt == old(opt)
      ensures reusable == (if old(reusable) < numBlocks then old(reusable) else numBlocks) && |blocks| == reusable
      ensures freed == old(blocks)[reusable..] && Owned(blocks) + Owned(freed) == old(Owned(blocks))
      ensures forall i :: 0 <= i < |blocks| ==> blocks[i].start == old(blocks)[i].start && blocks[i].end == old(blocks)[i].end
      ensures blocks != [] ==> top == 0 && Top().tip == Top().start
    {
      if numBlocks < reusable { reusable := numBlocks; }
      freed := blocks[reusable..];
      blocks := blocks[..reusable];
      live := {};
      if reusable > 0 {
        top := 0;
        blocks := blocks[0 := blocks[0].(tip := blocks[0].start)];
      } else {
        top := -1;
      }
      OwnedSplit(old(blocks), reusable);
      if reusable > 0 { OwnedBump(old(blocks)[..reusable], 0, blocks[0].start); }
    }

    /** Move assignment between different arenas. */
    method MoveFrom(other: Arena)
      requires Valid() && other.Valid() && other != this
      modifies this, other
      ensures Valid() && other.Valid()
      ensures blocks == old(other.blocks) && reusable == old(other.reusable) && live == old(other.live) && opt == old(other.opt)
      ensures old(other.blocks) != [] ==> top == old(other.top)
      ensures other.blocks == [] && other.live == {}
      ensures blocks + other.blocks == old(blocks) + old(other.blocks) <==> old(blocks) == []
    {
      opt := other.opt;
      blocks := other.blocks;
      reusable := other.reusable;
      top := if reusable > 0 then other.top else -1;
      live := other.live;
      other.blocks, other.reusable, other.top, other.live := [], 0, -1, {};
    }
  }

  lemma BumpKeepsSizes(blocks: seq<Block>, reusable: nat, top: nat, tip: nat)
    requires SizesOk(blocks, reusable) && top < |blocks|
    ensures SizesOk(blocks[top := blocks[top].(tip := tip)], reusable)
  {
    var r := blocks[top := blocks[top].(tip := tip)];
    assert forall i :: 0 <= i < |blocks| ==> r[i].Size() == blocks[i].Size();
  }

  lemma OwnedBump(blocks: seq<Block>, i: nat, tip: nat)
    requires i < |blocks|
    ensures Owned(blocks[i := blocks[i].(tip := tip)]) == Owned(blocks)
  {
    var r := blocks[i := blocks[i].(tip := tip)];
    assert forall j :: 0 <= j < |blocks| ==> (r[j].start, r[j].end) == (blocks[j].start, blocks[j].end);
  }

  lemma OwnedSplit(blocks: seq<Block>, n: nat)
    requires n <= |blocks|
    ensures Owned(blocks[..n]) + Owned(blocks[n..]) == Owned(blocks)
  {
    forall x | x in Owned(blocks) ensures x in Owned(blocks[..n]) + Owned(blocks[n..]) {
      var i :| 0 <= i < |blocks| && x == (blocks[i].start, blocks[i].end);
      if i < n { assert blocks[..n][i] == blocks[i]; } else { assert blocks[n..][i - n] == blocks[i]; }
    }
  }

  lemma OwnedPush(blocks: seq<Block>, b: Block)
    ensures forall at: nat :: at <= |blocks| ==> Owned(Pushed(blocks, at, b)) == Owned(blocks) + {(b.start, b.end)}
  {
    forall at: nat | at <= |blocks| ensures Owned(Pushed(blocks, at, b)) == Owned(blocks) + {(b.start, b.end)} {
      var r := Pushed(blocks, at, b);
      assert r[at] == b && (at < |blocks| ==> r[|blocks|] == blocks[at]);
      forall x | x in Owned(blocks) ensures x in Owned(r) {
        var i :| 0 <= i < |blocks| && x == (blocks[i].start, blocks[i].end);
        var j := if i == at then |blocks| else i;
        assert r[j] == blocks[i];
      }
      assert (r[at].start, r[at].end) in Owned(r);
      forall x | x in Owned(r) ensures x in Owned(blocks) + {(b.start, b.end)} {
        var j :| 0 <= j < |r| && x == (r[j].start, r[j].end);
        if j != at {
          var i := if j == |blocks| then at else j;
          assert r[j] == blocks[i];
        }
      }
    }
  }

  lemma BumpKeepsTop(blocks: seq<Block>, reusable: nat, top: int, r: seq<Block>)
    requires TopOk(blocks, reusable, top) && |r| == |blocks|
    ensures TopOk(r, reusable, top)
  {
  }

  lemma TopIsOk(blocks: seq<Block>, top: nat)
    requires BlocksOk(blocks) && top < |blocks|
    ensures blocks[top].Ok()
  {
  }

  /** Everything Valid() says, after ++top_. */
  lemma AdvanceKeeps(blocks: seq<Block>, reusable: nat, top: int, live: set<Alloc>)
    requires BlocksOk(blocks) && SizesOk(blocks, reusable) && TopOk(blocks, reusable, top) && LiveOk(blocks, reusable, top, live)
    requires 0 <= top < reusable - 1
    ensures top + 1 < |blocks| && blocks[top + 1].Size() == blocks[top].Size() && blocks[top + 1].Ok()
    ensures var r := blocks[top + 1 := blocks[top + 1].(tip := blocks[top + 1].start)];
            BlocksOk(r) && SizesOk(r, reusable) && TopOk(r, reusable, top + 1) && LiveOk(r, reusable, top + 1, live)
  {
    assert top + 1 < |blocks|;
    assert blocks[top + 1].Size() == blocks[0].Size() && blocks[top].Size() == blocks[0].Size();
    TopIsOk(blocks, top + 1);
    hide LiveOk;
    AdvanceKeepsLive(blocks, reusable, top, live);
    BumpKeepsBlocks(blocks, top + 1, blocks[top + 1].start);
    BumpKeepsSizes(blocks, reusable, top + 1, blocks[top + 1].start);
  }

  /** A block smaller than the reusable ones goes to the end. */
  lemma PushSmall(blocks: seq<Block>, reusable: nat, top: int, live: set<Alloc>, b: Block)
    requires BlocksOk(blocks) && SizesOk(blocks, reusable) && LiveOk(blocks, reusable, top, live)
    requires b.Ok() && (forall i :: 0 <= i < |blocks| ==> Apart(b, blocks[i]))
    requires blocks != [] && b.Size() < blocks[0].Size()
    ensures var r := Pushed(blocks, |blocks|, b);
            BlocksOk(r) && SizesOk(r, reusable) && TopOk(r, reusable, |blocks|) && LiveOk(r, reusable, |blocks|, live)
  {
    PushKeepsBlocks(blocks, |blocks|, b);
    PushKeepsLive(blocks, reusable, top, live, |blocks|, b, reusable, |blocks|);
    hide BlocksOk, LiveOk;
  }

  /** A block as large as the reusable ones joins them; a larger one makes them ordinary and stands alone. */
  lemma PushLarge(blocks: seq<Block>, reusable: nat, top: int, live: set<Alloc>, b: Block)
    requires BlocksOk(blocks) && SizesOk(blocks, reusable) && LiveOk(blocks, reusable, top, live)
    requires b.Ok() && (forall i :: 0 <= i < |blocks| ==> Apart(b, blocks[i]))
    requires blocks != [] ==> blocks[0].Size() <= b.Size()
    ensures var at := if reusable > 0 && b.Size() > blocks[0].Size() then 0 else reusable;
            && at <= |blocks|
            && var r := Pushed(blocks, at, b);
            BlocksOk(r) && SizesOk(r, at + 1) && TopOk(r, at + 1, at) && LiveOk(r, at + 1, at, live)
  {
    var at := if reusable > 0 && b.Size() > blocks[0].Size() then 0 else reusable;
    PushKeepsBlocks(blocks, at, b);
    PushKeepsLive(blocks, reusable, top, live, at, b, at + 1, at);
    hide BlocksOk, LiveOk;
  }

  lemma EmptyAllocation(live: set<Alloc>, a: Alloc)
    requires LiveOk([], 0, -1, live) && a.size == 0
    ensures LiveOk([], 0, -1, live + {a})
  {
  }
}
