/**
 String pools: strings are built one after another in blocks of memory. The string being built may move to another block
 when it grows; finished strings never do. Blocks are kept in two linked lists, those in use and those to be recycled.
 Allocation may fail at any point.
 */
module StringPools {
  const INIT_BLOCK_SIZE := 1024

  class Block {
    var next: Block?
    /** The characters; their number is the size of the block. */
    const s: array<char>

    constructor (size: nat)
      ensures fresh(s) && s.Length == size && next == null
    {
      s := new char[size];
      next := null;
    }
  }

  /** The blocks `list`, linked in this order, beginning with `first`. */
  ghost predicate Chain(first: Block?, list: seq<Block>)
    reads list
  {
    if list == [] then first == null
    else first == list[0] && Chain(list[0].next, list[1..])
  }

  /** A finished string: where it is, and what it says. */
  datatype Finished = Finished(block: Block, offset: nat, text: string)

  ghost predicate Intact(f: Finished)
    reads f.block.s
  {
    f.offset + |f.text| <= f.block.s.Length && f.block.s[f.offset..f.offset + |f.text|] == f.text
  }

  class StringPool {
    var blocks: Block?
    var freeBlocks: Block?
    /** The memory of the string being built; null before the first block. The positions are those of its first
        character, of the next character, and of the end of the memory. */
    var buf: array?<char>
    var start: nat
    var ptr: nat
    var end: nat
    ghost var inUse: seq<Block>
    ghost var free: seq<Block>
    /** Blocks that are allocated but in neither list. */
    ghost var leaked: seq<Block>
    /** All blocks that have been allocated and not been given back. */
    ghost var owned: set<Block>
    ghost var current: Block?
    ghost var finished: seq<Finished>
    ghost var memory: set<array<char>>

    ghost predicate Lists()
      reads this`blocks, this`freeBlocks, this`inUse, this`free, this`leaked, this`owned, inUse, free
    {
      && Chain(blocks, inUse) && Chain(freeBlocks, free)
      && multiset(inUse) + multiset(free) + multiset(leaked) == multiset(owned)
    }

    /** Blocks do not share memory. */
    ghost predicate Memory()
      reads this`owned, this`memory
    {
      && (forall b :: b in owned ==> b.s in memory && b.s.Length > 0)
      && (forall b, c :: b in owned && c in owned && b.s == c.s ==> b == c)
    }

    ghost predicate Position()
      reads this`buf, this`start, this`ptr, this`end, this`current, this`inUse, this`leaked
    {
      && start <= ptr <= end
      && (buf == null ==> inUse == [] && end == 0 && current == null)
      && (buf != null ==> current != null && buf == current.s && end == buf.Length > 0 &&
                          (if inUse == [] then current in leaked else current == inUse[0]))
    }

    /** Finished strings are in blocks that will not be recycled, before the string being built. */
    ghost predicate Strings()
      reads this`finished, this`inUse, this`leaked, this`current, this`start, this`memory, memory
    {
      forall f :: f in finished ==>
        && (f.block in inUse || f.block in leaked) && f.block.s in memory && Intact(f)
        && f.text != [] && (f.block == current ==> f.offset + |f.text| <= start)
    }

    /** The string being built does not begin where its block begins only if another one in that block was finished. */
    ghost predicate Begun()
      reads this`finished, this`current, this`start
    {
      start > 0 ==> exists f :: f in finished && f.block == current
    }

    ghost predicate Valid()
      reads this, inUse, free, memory
    {
      Lists() && Memory() && Position() && Strings() && Begun()
    }

    /** The first block holds the string being built and nothing else. */
    ghost predicate Alone()
      reads this`blocks, this`buf, this`start
    {
      blocks != null && buf == blocks.s && start == 0
    }

    /** The string being built. */
    ghost function Current(): string
      requires Position()
      reads this`buf, this`start, this`ptr, this`end, this`current, this`inUse, this`leaked, buf
    {
      if buf == null then [] else buf[start..ptr]
    }

    constructor ()
      ensures Valid() && Current() == [] && finished == [] && owned == {} && leaked == [] && memory == {}
    {
      blocks, freeBlocks, buf, start, ptr, end := null, null, null, 0, 0, 0;
      inUse, free, leaked, owned, current, finished, memory := [], [], [], {}, null, [], {};
    }

    /** poolFinish. */
    method Finish()
      requires Valid()
      modifies this`start, this`finished
      ensures Valid() && Current() == []
      ensures finished == old(finished) + if old(Current()) == [] then [] else [Finished(current, old(start), old(Current()))]
    {
      hide Chain, Lists, Memory;
      CurrentIsOwned();
      ghost var text := Current();
      if text != [] { finished := finished + [Finished(current, start, text)]; }
      start := ptr;
    }

    /** poolDiscard. */
    method Discard()
      requires Valid()
      modifies this`ptr
      ensures Valid() && Current() == []
    {
      ptr := start;
    }

    /** poolChop. */
    method Chop()
      requires Valid() && Current() != []
      modifies this`ptr
      ensures Valid() && Current() == old(Current())[..|old(Current())| - 1]
    {
      ptr := ptr - 1;
    }

    lemma CurrentIsOwned()
      requires Lists() && Memory() && Position()
      ensures current != null ==> current in owned && current.s in memory && current !in free
    {
      if current != null { Listed(inUse, free, leaked, owned, current); }
    }

    /** What growing does not change, and what it is for: room for one more character. */
    twostate predicate Grown(ok: bool)
      requires old(Position()) && Position()
      reads this, buf
    {
      && Current() == old(Current()) && finished == old(finished)
      && (if ok then ptr < end && leaked == old(leaked) else current == old(current))
      && fresh(owned - old(owned)) && fresh(memory - old(memory)) && memory >= old(memory)
    }

    /** The first block to be recycled becomes the first block in use. */
    method MoveBlock() returns (b: Block)
      requires Lists() && freeBlocks != null
      modifies this`blocks, this`freeBlocks, this`inUse, this`free, free
      ensures Lists() && old(free) != [] && b == old(free)[0] == blocks
      ensures inUse == [b] + old(inUse) && free == old(free)[1..]
      ensures b !in old(inUse) && b !in leaked && b in owned
    {
      b := freeBlocks;
      MoveCount(inUse, free, leaked, owned);
      var tem := b.next;
      b.next := blocks;
      blocks := b;
      freeBlocks := tem;
      inUse, free := [b] + inUse, free[1..];
      assert ([b] + old(inUse))[1..] == old(inUse);
    }

    /** Finished strings are intact and none of them is in block `b`. */
    ghost predicate StringsOutside(b: Block)
      reads this`finished, this`inUse, this`leaked, this`memory, memory
    {
      forall f :: f in finished ==>
        (f.block in inUse || f.block in leaked) && f.block.s in memory && Intact(f) && f.text != [] && f.block != b
    }

    /** The string being built, of `n` characters, goes on at the beginning of the first block. */
    method Enter(b: Block, n: nat)
      requires inUse != [] && b == inUse[0] && b.s.Length > n && StringsOutside(b)
      modifies this`buf, this`start, this`ptr, this`end, this`current
      ensures Position() && Strings() && Begun() && Current() == b.s[..n] && ptr < end
    {
      hide Intact;
      buf, current := b.s, b;
      start, ptr, end := 0, n, b.s.Length;
    }

    /** The first branch of poolGrow: the first block is a recycled one. */
    method TakeRecycled()
      requires Valid() && freeBlocks != null && buf == null
      modifies this, free
      ensures Valid() && Grown(true)
    {
      hide Chain, Intact, Lists;
      FirstFree();
      var b := MoveBlock();
      Enter(b, 0);
    }

    /** Finished strings are not in recycled blocks, so they are in other memory. */
    lemma StringsElsewhere(b: Block)
      requires Lists() && Memory() && Strings() && b in owned && b !in inUse && b !in leaked
      ensures forall f :: f in finished ==> f.block.s != b.s
    {
      forall f | f in finished ensures f.block.s != b.s { Listed(inUse, free, leaked, owned, f.block); }
    }

    /** The second branch: the string being built moves to a larger block that is to be recycled. */
    method MoveToRecycled()
      requires Valid() && freeBlocks != null && buf != null && end - start < freeBlocks.s.Length
      modifies this, free, memory
      ensures Valid() && Grown(true)
    {
      hide Chain, Lists, Intact, Memory;
      var n := ptr - start;
      FirstFree();
      MemoryHas(freeBlocks);
      CopyString(freeBlocks, end - start);
      var b := MoveBlock();
      assert StringsOutside(b);
      Enter(b, n);
      assert Current() == old(Current());
      assert Memory();
      assert Lists();
    }

    lemma MemoryHas(b: Block)
      requires Memory() && b in owned
      ensures b.s in memory
    {
    }

    /** The string being built is copied to the beginning of a block that is not in use. */
    method CopyString(b: Block, n: nat)
      requires Lists() && Memory() && Position() && Strings()
      requires buf != null && b in owned && b !in inUse && b !in leaked && ptr - start <= n <= end - start && n <= b.s.Length
      modifies b.s
      ensures b.s[..ptr - start] == Current() == old(Current()) && Strings()
    {
      hide Chain, Lists, Intact, Memory;
      StringsElsewhere(b);
      CurrentIsOwned();
      OtherMemory(b);
      ghost var text := Current();
      CopyCharacters(buf, start, n, b.s);
      assert b.s[..ptr - start] == text;
    }

    lemma OtherMemory(b: Block)
      requires Lists() && Memory() && Position() && buf != null && b in owned && b !in inUse && b !in leaked
      ensures buf != b.s
    {
      CurrentIsOwned();
    }

    lemma FirstFree()
      requires Lists() && freeBlocks != null
      ensures free != [] && freeBlocks == free[0] && freeBlocks in owned && freeBlocks !in inUse && freeBlocks !in leaked
    {
      MoveCount(inUse, free, leaked, owned);
    }

    /** The third branch: the only string in the first block is the one being built, so the block itself is reallocated.
        If that fails, the list of blocks is lost. */
    method ReallocFirst() returns (ok: bool)
      requires Valid() && Alone()
      modifies this
      ensures Valid() && Grown(ok) && (!ok ==> leaked == old(leaked) + old(inUse) && old(inUse) != [])
    {
      hide Chain, Intact, Memory, Lists;
      CurrentIsFirst();
      ok := *;
      if !ok {
        Lose();
        return;
      }
      ghost var text := Current();
      var n := ptr;
      var b := Copied(2 * end);
      assert StringsOutside(inUse[0]);
      Replace(b);
      Enter(b, n);
      assert Current() == text;
      assert Memory() && Lists();
    }

    /** The failed reallocation has overwritten the head of the list; the blocks themselves are still there. */
    method Lose()
      requires Valid() && inUse != []
      modifies this`blocks, this`leaked, this`inUse
      ensures Valid() && Current() == old(Current()) && inUse == [] && leaked == old(leaked) + old(inUse)
    {
      hide Intact;
      LoseCount(inUse, free, leaked, owned);
      blocks := null;
      leaked, inUse := leaked + inUse, [];
    }

    lemma CurrentIsFirst()
      requires Valid() && blocks != null && buf == blocks.s
      ensures inUse != [] && blocks == inUse[0] == current && blocks in owned && blocks !in leaked && blocks !in inUse[1..]
      ensures forall f :: f in finished && start == 0 ==> f.block != blocks
    {
      hide Intact;
      assert inUse != [] && blocks == inUse[0];
      Listed(inUse, free, leaked, owned, blocks);
      FirstOnce(inUse, free, leaked, owned);
    }

    /** The reallocated block takes the place of the first one. */
    method Replace(b: Block)
      requires Lists() && Memory() && inUse != [] && StringsOutside(inUse[0])
      requires b !in owned && b.s !in memory && b.s.Length > 0
      modifies this`blocks, this`inUse, this`owned, this`memory, b
      ensures Lists() && Memory() && inUse == [b] + old(inUse)[1..] && StringsOutside(b)
      ensures owned == old(owned) - {old(inUse)[0]} + {b} && memory == old(memory) + {b.s}
    {
      hide Intact;
      ReplaceCount(inUse, free, leaked, owned, b);
      Listed(inUse, free, leaked, owned, b);
      assert ([b] + inUse[1..])[1..] == inUse[1..];
      forall f | f in finished ensures f.block != b { Listed(inUse, free, leaked, owned, f.block); }
      b.next := blocks.next;
      owned := owned - {blocks} + {b};
      memory := memory + {b.s};
      blocks := b;
      inUse := [b] + inUse[1..];
    }

    /** The last branch: a new block. */
    method NewFirst() returns (ok: bool)
      requires Valid()
      modifies this
      ensures Valid() && Grown(ok) && leaked == old(leaked)
    {
      hide Chain, Intact, Lists, Memory, Strings, StringsOutside;
      ok := *;
      if !ok { return; }
      var blockSize := end - start;
      if blockSize < INIT_BLOCK_SIZE { blockSize := INIT_BLOCK_SIZE; } else { blockSize := blockSize * 2; }
      var n := ptr - start;
      var tem := Copied(blockSize);
      Insert(tem);
      Enter(tem, n);
      assert Current() == old(Current());
    }

    /** New memory that begins with the string being built. */
    method Copied(size: nat) returns (b: Block)
      requires Position() && ptr - start < size
      ensures fresh(b) && fresh(b.s) && b.next == null && b.s.Length == size && b.s[..ptr - start] == Current()
    {
      b := new Block(size);
      if ptr != start { CopyCharacters(buf, start, ptr - start, b.s); }
    }

    /** A new block becomes the first one. */
    method Insert(b: Block)
      requires Lists() && Memory() && Strings() && b !in owned && b.s !in memory && b.s.Length > 0
      modifies this`blocks, this`inUse, this`owned, this`memory, b
      ensures Lists() && Memory() && inUse == [b] + old(inUse) && StringsOutside(b)
      ensures owned == old(owned) + {b} && memory == old(memory) + {b.s}
    {
      hide Intact;
      InsertCount(inUse, free, leaked, owned, b);
      forall f | f in finished ensures f.block != b { Listed(inUse, free, leaked, owned, f.block); }
      b.next := blocks;
      blocks := b;
      owned, memory := owned + {b}, memory + {b.s};
      inUse := [b] + inUse;
      assert inUse[1..] == old(inUse);
    }

    lemma AloneInUse()
      requires Valid()
      ensures Alone() ==> inUse != []
    {
      hide Intact;
    }

    /** poolGrow: whatever it does, the string being built and the finished strings stay as they are, and if it succeeds
        there is room for one more character. If it fails, the blocks in use are lost exactly if the first of them holds the
        string being built and nothing else. */
    method Grow() returns (ok: bool)
      requires Valid()
      modifies this, free, memory
      ensures Valid() && Grown(ok) && (old(Alone()) ==> old(inUse) != [])
      ensures leaked == old(leaked) + if !ok && old(Alone()) then old(inUse) else []
    {
      AloneInUse();
      hide Chain, Intact, Lists, Memory, Position, Strings;
      if freeBlocks != null {
        if buf == null {
          TakeRecycled();
          return true;
        }
        if end - start < freeBlocks.s.Length {
          MoveToRecycled();
          return true;
        }
      }
      assert old(leaked) + [] == old(leaked);
      if blocks != null && buf == blocks.s && start == 0 { ok := ReallocFirst(); } else { ok := NewFirst(); }
    }

    /** poolAppendChar. */
    method AppendChar(c: char) returns (ok: bool)
      requires Valid()
      modifies this, free, memory
      ensures Valid() && finished == old(finished)
      ensures Current() == if ok then old(Current()) + [c] else old(Current())
      ensures leaked == old(leaked) + (if !ok && old(Alone()) then old(inUse) else []) && (old(Alone()) ==> old(inUse) != [])
      ensures !ok ==> current == old(current)
      ensures fresh(owned - old(owned)) && fresh(memory - old(memory)) && memory >= old(memory)
    {
      AloneInUse();
      hide Chain, Lists, Memory;
      ok := true;
      if ptr == end {
        ok := Grow();
        if !ok { return; }
      }
      Put(c);
    }

    lemma OthersElsewhere()
      requires Lists() && Memory() && Position() && Strings()
      ensures forall f :: f in finished && f.block != current ==> f.block.s != buf
    {
      hide Intact;
      CurrentIsOwned();
      forall f | f in finished ensures f.block in owned { Listed(inUse, free, leaked, owned, f.block); }
    }

    method Put(c: char)
      requires Valid() && ptr < end
      modifies this`ptr, memory
      ensures Valid() && Current() == old(Current()) + [c]
    {
      hide Chain, Lists;
      CurrentIsOwned();
      OthersElsewhere();
      buf[ptr] := c;
      ptr := ptr + 1;
    }

    /** poolClear: all blocks are to be recycled, and no string remains. */
    method Clear()
      requires Valid()
      modifies this, inUse
      ensures Valid() && Current() == [] && finished == [] && inUse == []
      ensures owned == old(owned) && leaked == old(leaked) && memory == old(memory)
    {
      hide Intact, Memory, Strings, Position;
      if freeBlocks == null {
        freeBlocks := blocks;
        free, inUse := inUse, [];
      } else {
        RecycleAll();
      }
      blocks := null;
      Reset();
    }

    method Reset()
      requires inUse == []
      modifies this`buf, this`start, this`ptr, this`end, this`current, this`finished
      ensures Position() && Strings() && Begun() && Current() == [] && finished == []
    {
      finished := [];
      buf, start, ptr, end, current := null, 0, 0, 0, null;
    }

    /** The loop of poolClear. */
    method RecycleAll()
      requires Lists()
      modifies this`freeBlocks, this`inUse, this`free, inUse
      ensures Chain(freeBlocks, free) && inUse == []
      ensures multiset([]) + multiset(free) + multiset(leaked) == multiset(owned)
    {
      ghost var inUse0 := inUse;
      var p := blocks;
      while p != null
        invariant Chain(p, inUse) && Chain(freeBlocks, free)
        invariant multiset(inUse) + multiset(free) + multiset(leaked) == multiset(owned)
        invariant forall b :: b in inUse ==> b in inUse0
        decreases |inUse|
      {
        assert inUse[0] in inUse;
        p := RecycleOne(p);
      }
    }

    /** One step of the loop: the first block of what is left goes to the front of the list of free blocks. */
    method RecycleOne(p: Block) returns (tem: Block?)
      requires Chain(p, inUse) && Chain(freeBlocks, free)
      requires multiset(inUse) + multiset(free) + multiset(leaked) == multiset(owned)
      modifies this`freeBlocks, this`inUse, this`free, p
      ensures Chain(tem, inUse) && Chain(freeBlocks, free)
      ensures multiset(inUse) + multiset(free) + multiset(leaked) == multiset(owned)
      ensures old(inUse) != [] && inUse == old(inUse)[1..] && free == [p] + old(free)
    {
      RecycleCount(inUse, free, leaked, owned);
      assert ([inUse[0]] + free)[1..] == free;
      tem := p.next;
      p.next := freeBlocks;
      freeBlocks := p;
      free, inUse := [p] + free, inUse[1..];
    }

    /** The loop that gives back the blocks of a list. */
    method FreeList(first: Block?, ghost list: seq<Block>) returns (ghost freed: seq<Block>)
      requires Chain(first, list)
      ensures freed == list
    {
      freed := [];
      ghost var rest := list;
      var p := first;
      while p != null
        invariant Chain(p, rest) && freed + rest == list
        decreases |rest|
      {
        freed, rest := freed + [p], rest[1..];
        p := p.next;
      }
    }

    /** poolDestroy: gives back the blocks of both lists, each of them once. What has been lost stays allocated. */
    method Destroy() returns (ghost freed: seq<Block>)
      requires Valid()
      modifies this
      ensures freed == old(inUse) + old(free) && multiset(freed) <= multiset(old(owned))
      ensures (forall b :: b in owned <==> b in old(owned) && b !in freed) && (forall b :: b in owned <==> b in old(leaked))
      ensures owned == {} <==> old(leaked) == []
    {
      hide Intact, Memory, Strings, Position, Chain;
      freed := FreeList(blocks, inUse);
      blocks := null;
      ghost var others := FreeList(freeBlocks, free);
      freed := freed + others;
      freeBlocks := null;
      buf, start, ptr, end := null, 0, 0, 0;
      FreedOnce(inUse, free, leaked, owned);
      owned := owned - set b | b in freed;
      Remaining(owned, leaked);
    }

    lemma ListsOwned()
      requires Lists()
      ensures forall b :: b in inUse || b in free ==> b in owned
    {
      forall b | b in inUse || b in free ensures b in owned { Listed(inUse, free, leaked, owned, b); }
    }

    /** What a user of the pool can read. */
    ghost function View(): Texts
      requires Position()
      reads this`buf, this`start, this`ptr, this`end, this`current, this`inUse, this`leaked, this`finished, buf
    {
      Texts(TextsOf(finished), Current())
    }

    /** The string being built has a block to itself, and this was not lost before. */
    ghost predicate LostOnFailure(lostBefore: seq<Block>)
      reads this`current, this`finished
    {
      current != null && current !in lostBefore && forall f :: f in finished ==> f.block != current
    }

    lemma AloneMeans()
      requires Valid()
      ensures Alone() <==> LostOnFailure(leaked)
    {
      hide Intact;
      if buf != null { Listed(inUse, free, leaked, owned, current); }
    }

    /** One operation; only appending can fail, and then nothing has changed for the user. But memory is lost exactly if the
        string being built has a block to itself. */
    method Perform(op: Op) returns (ok: bool)
      requires Valid() && Allowed(View(), op)
      modifies this, owned, memory
      ensures Valid() && View() == (if ok then After(old(View()), op) else old(View()))
      ensures ok ==> leaked == old(leaked)
      ensures op != ClearOp ==> old(finished) <= finished
      ensures !ok ==> op.AppendOp? && (leaked != old(leaked) <==> LostOnFailure(old(leaked)))
      ensures fresh(owned - old(owned)) && fresh(memory - old(memory))
    {
      hide Chain, Memory, Strings, Lists, Intact, TextsOf;
      ListsOwned();
      NoTexts();
      AloneMeans();
      ok := true;
      match op
      case AppendOp(c) => ok := AppendChar(c);
      case FinishOp =>
        ghost var text := Current();
        if text != [] { TextsSnoc(finished, Finished(current, start, text)); }
        Finish();
        if text == [] { assert finished == old(finished); }
      case DiscardOp => Discard();
      case ChopOp => Chop();
      case ClearOp => Clear();
    }

    /** Any sequence of operations, up to the first that fails. Until the pool is cleared, a finished string stays where it
        is. Memory is lost exactly if an operation failed while the string being built had a block to itself. */
    method Run(ops: seq<Op>) returns (done: nat)
      requires Valid() && AllAllowed(View(), ops)
      modifies this, owned, memory
      ensures Valid() && done <= |ops| && View() == AfterAll(old(View()), ops[..done])
      ensures done < |ops| ==> ops[done].AppendOp?
      ensures leaked != old(leaked) <==> done < |ops| && LostOnFailure(old(leaked))
      ensures ClearOp !in ops[..done] ==> old(finished) <= finished
      ensures fresh(owned - old(owned)) && fresh(memory - old(memory))
    {
      hide Lists, Memory, Position, Strings, TextsOf, After, Current;
      done := 0;
      ghost var start := View();
      assert ops[..0] == [] && ops[0..] == ops;
      while done < |ops|
        invariant done <= |ops| && Valid() && leaked == old(leaked)
        invariant Position() && View() == AfterAll(start, ops[..done]) && AllAllowed(View(), ops[done..])
        invariant fresh(owned - old(owned)) && fresh(memory - old(memory))
        invariant ClearOp !in ops[..done] ==> old(finished) <= finished
      {
        assert ops[..done + 1] == ops[..done] + [ops[done]];
        assert ops[done..][0] == ops[done] && ops[done..][1..] == ops[done + 1..];
        var ok := Perform(ops[done]);
        if !ok { return; }
        AfterSnoc(start, ops[..done], ops[done]);
        done := done + 1;
      }
      assert ops[..done] == ops;
    }
  }

  datatype Op = AppendOp(c: char) | FinishOp | DiscardOp | ChopOp | ClearOp

  datatype Texts = Texts(finished: seq<string>, current: string)

  ghost function TextsOf(fs: seq<Finished>): seq<string> {
    if fs == [] then [] else TextsOf(fs[..|fs| - 1]) + [fs[|fs| - 1].text]
  }

  lemma NoTexts()
    ensures TextsOf([]) == []
  {
  }

  lemma TextsSnoc(fs: seq<Finished>, f: Finished)
    ensures TextsOf(fs + [f]) == TextsOf(fs) + [f.text]
  {
    assert (fs + [f])[..|fs|] == fs;
  }

  predicate Allowed(t: Texts, op: Op) {
    op == ChopOp ==> t.current != []
  }

  /** Strings as they would be without blocks: a list of finished ones and one being built. */
  function After(t: Texts, op: Op): Texts {
    match op
    case AppendOp(c) => t.(current := t.current + [c])
    case FinishOp => if t.current == [] then t else Texts(t.finished + [t.current], [])
    case DiscardOp => t.(current := [])
    case ChopOp => if t.current == [] then t else t.(current := t.current[..|t.current| - 1])
    case ClearOp => Texts([], [])
  }

  function AfterAll(t: Texts, ops: seq<Op>): Texts
    decreases |ops|
  {
    if ops == [] then t else AfterAll(After(t, ops[0]), ops[1..])
  }

  predicate AllAllowed(t: Texts, ops: seq<Op>)
    decreases |ops|
  {
    ops == [] || (Allowed(t, ops[0]) && AllAllowed(After(t, ops[0]), ops[1..]))
  }

  lemma {:induction false} AfterSnoc(t: Texts, ops: seq<Op>, op: Op)
    ensures AfterAll(t, ops + [op]) == After(AfterAll(t, ops), op)
    decreases |ops|
  {
    if ops == [] {
      assert ops + [op] == [op] && [op][1..] == [];
    } else {
      assert (ops + [op])[1..] == ops[1..] + [op];
      AfterSnoc(After(t, ops[0]), ops[1..], op);
    }
  }

  /** Until the pool is cleared, finished strings stay, in their order. */
  lemma {:induction false} FinishedStays(t: Texts, ops: seq<Op>)
    requires ClearOp !in ops
    ensures t.finished <= AfterAll(t, ops).finished
    decreases |ops|
  {
    if ops != [] {
      FinishedStays(After(t, ops[0]), ops[1..]);
    }
  }

  lemma Remaining(owned: set<Block>, leaked: seq<Block>)
    requires forall b :: b in owned <==> b in leaked
    ensures owned == {} <==> leaked == []
  {
    if leaked != [] { assert leaked[0] in leaked; }
  }

  lemma RecycleCount(inUse: seq<Block>, free: seq<Block>, leaked: seq<Block>, owned: set<Block>)
    requires multiset(inUse) + multiset(free) + multiset(leaked) == multiset(owned)
    ensures inUse != [] ==>
              && multiset(inUse[1..]) + multiset([inUse[0]] + free) + multiset(leaked) == multiset(owned)
              && inUse[0] !in inUse[1..] && inUse[0] !in free
  {
    if inUse != [] {
      MoveCount(free, inUse, leaked, owned);
    }
  }

  lemma FreedOnce(inUse: seq<Block>, free: seq<Block>, leaked: seq<Block>, owned: set<Block>)
    requires multiset(inUse) + multiset(free) + multiset(leaked) == multiset(owned)
    ensures multiset(inUse + free) <= multiset(owned)
    ensures forall b :: b in owned - (set c | c in inUse + free) <==> b in leaked
  {
    assert multiset(inUse + free) == multiset(inUse) + multiset(free);
    forall b ensures b in owned - (set c | c in inUse + free) <==> b in leaked {
      Listed(inUse, free, leaked, owned, b);
      assert b in owned <==> b in multiset(owned);
      assert (b in inUse <==> b in multiset(inUse)) && (b in free <==> b in multiset(free)) && (b in leaked <==> b in multiset(leaked));
    }
  }

  lemma LoseCount(inUse: seq<Block>, free: seq<Block>, leaked: seq<Block>, owned: set<Block>)
    requires multiset(inUse) + multiset(free) + multiset(leaked) == multiset(owned)
    ensures multiset([]) + multiset(free) + multiset(leaked + inUse) == multiset(owned)
  {
  }

  lemma FirstOnce(inUse: seq<Block>, free: seq<Block>, leaked: seq<Block>, owned: set<Block>)
    requires multiset(inUse) + multiset(free) + multiset(leaked) == multiset(owned)
    ensures inUse != [] ==> inUse[0] !in inUse[1..]
  {
    if inUse != [] {
      assert inUse == [inUse[0]] + inUse[1..];
      assert multiset(inUse) == multiset{inUse[0]} + multiset(inUse[1..]);
      assert (multiset(inUse) + multiset(free) + multiset(leaked))[inUse[0]] <= 1;
      assert inUse[0] in inUse[1..] <==> inUse[0] in multiset(inUse[1..]);
    }
  }

  lemma ReplaceCount(inUse: seq<Block>, free: seq<Block>, leaked: seq<Block>, owned: set<Block>, b: Block)
    requires multiset(inUse) + multiset(free) + multiset(leaked) == multiset(owned) && inUse != [] && b !in owned
    ensures multiset([b] + inUse[1..]) + multiset(free) + multiset(leaked) == multiset(owned - {inUse[0]} + {b})
    ensures inUse[0] in owned && inUse[0] !in inUse[1..]
  {
    var a := inUse[0];
    Listed(inUse, free, leaked, owned, a);
    FirstOnce(inUse, free, leaked, owned);
    assert inUse == [a] + inUse[1..];
    assert multiset(inUse) == multiset{a} + multiset(inUse[1..]);
    assert multiset([b] + inUse[1..]) == multiset{b} + multiset(inUse[1..]);
    assert multiset(owned) == multiset(owned - {a}) + multiset{a};
    assert multiset(inUse[1..]) + multiset(free) + multiset(leaked) == multiset(owned) - multiset{a};
    var rest := multiset(inUse[1..]) + multiset(free) + multiset(leaked);
    assert rest == multiset(owned - {a});
    assert multiset(owned - {a} + {b}) == rest + multiset{b};
    assert multiset{b} + multiset(inUse[1..]) + multiset(free) + multiset(leaked) == rest + multiset{b};
  }

  lemma InsertCount(inUse: seq<Block>, free: seq<Block>, leaked: seq<Block>, owned: set<Block>, b: Block)
    requires multiset(inUse) + multiset(free) + multiset(leaked) == multiset(owned) && b !in owned
    ensures multiset([b] + inUse) + multiset(free) + multiset(leaked) == multiset(owned + {b})
    ensures b !in inUse && b !in free && b !in leaked
  {
    Listed(inUse, free, leaked, owned, b);
    assert multiset([b] + inUse) == multiset{b} + multiset(inUse);
    assert multiset(owned + {b}) == multiset(owned) + multiset{b};
  }

  /** memcpy between different blocks. */
  method CopyCharacters(from: array<char>, start: nat, n: nat, to: array<char>)
    requires from != to && start + n <= from.Length && n <= to.Length
    modifies to
    ensures to[..n] == from[start..start + n]
    ensures forall k :: 0 <= k <= n ==> to[..k] == from[start..start + k]
  {
    forall i | 0 <= i < n { to[i] := from[start + i]; }
  }

  /** Every block is in one list at most. */
  lemma Listed(inUse: seq<Block>, free: seq<Block>, leaked: seq<Block>, owned: set<Block>, b: Block)
    requires multiset(inUse) + multiset(free) + multiset(leaked) == multiset(owned)
    ensures b in inUse || b in free || b in leaked ==> b in owned
    ensures !(b in inUse && b in free) && !(b in inUse && b in leaked) && !(b in free && b in leaked)
  {
    assert (b in inUse <==> b in multiset(inUse)) && (b in free <==> b in multiset(free)) && (b in leaked <==> b in multiset(leaked));
    assert multiset(owned)[b] <= 1;
    assert (multiset(inUse) + multiset(free) + multiset(leaked))[b] <= 1;
  }

  lemma MoveCount(inUse: seq<Block>, free: seq<Block>, leaked: seq<Block>, owned: set<Block>)
    requires multiset(inUse) + multiset(free) + multiset(leaked) == multiset(owned)
    ensures free != [] ==>
              && multiset([free[0]] + inUse) + multiset(free[1..]) + multiset(leaked) == multiset(owned)
              && free[0] !in inUse && free[0] !in free[1..] && free[0] !in leaked && free[0] in owned
  {
    if free != [] {
      var b := free[0];
      Listed(inUse, free, leaked, owned, b);
      assert free == [b] + free[1..];
      assert multiset(free) == multiset{b} + multiset(free[1..]);
      assert multiset([b] + inUse) == multiset{b} + multiset(inUse);
      assert (multiset(inUse) + multiset(free) + multiset(leaked))[b] <= 1;
      assert b in free[1..] <==> b in multiset(free[1..]);
    }
  }
}
