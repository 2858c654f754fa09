/**
The pool allocator (`include/lstd/memory.h`, lines 541-632). Memory is a map from addresses to
the pointer-sized words stored there; words of different chunks and headers never overlap,
because elements have room for at least one word.
 */
module PoolAllocator {
  import opened Powers

  /** The size of a word, and of the two words of the header in front of the chunks of a block, in bytes. */
  const WORD: nat := 8
  const HEADER: nat := 2 * WORD

  /** A block given to the pool; `size` does not count the header. */
  datatype Block = Block(addr: nat, size: nat)

  type Memory = map<nat, nat>

  function WordAt(mem: Memory, a: nat): nat {
    if a in mem then mem[a] else 0
  }

  // Chunks

  /** The addresses of `n` chunks of `es` bytes, one after the other. */
  ghost function Chain(start: nat, n: nat, es: nat): (s: seq<nat>)
    ensures |s| == n
    decreases n
  {
    if n == 0 then [] else [start] + Chain(start + es, n - 1, es)
  }

  ghost predicate Inside(c: nat, start: nat, size: nat, es: nat) {
    start <= c && c + es <= start + size
  }

  /** Chunks of a chain lie inside it and do not overlap. */
  lemma {:induction false} ChainLayout(start: nat, n: nat, es: nat, size: nat)
    requires size == n * es
    ensures forall k :: 0 <= k < n ==> Inside(Chain(start, n, es)[k], start, size, es)
    ensures forall k :: 0 <= k < n - 1 ==> Chain(start, n, es)[k + 1] == Chain(start, n, es)[k] + es
    ensures n > 0 ==> Chain(start, n, es)[0] == start
    ensures Spaced(Chain(start, n, es), es)
    decreases n
  {
    if n > 0 {
      Distribute(es, n - 1, 1);
      MulMono(0, n - 1, es);
      ChainLayout(start + es, n - 1, es, size - es);
      var s, t := Chain(start, n, es), Chain(start + es, n - 1, es);
      assert forall k :: 1 <= k < n ==> s[k] == t[k - 1];
      forall k | 0 <= k < n ensures Inside(s[k], start, size, es) {
        if k > 0 { assert Inside(t[k - 1], start + es, size - es, es); }
      }
    }
  }

  /** No two chunks overlap. */
  ghost predicate Spaced(s: seq<nat>, es: nat) {
    forall j, k :: 0 <= j < k < |s| ==> s[j] + es <= s[k] || s[k] + es <= s[j]
  }

  ghost function ChunksOf(b: Block, es: nat): seq<nat>
    requires es > 0
  {
    Chain(b.addr + HEADER, b.size / es, es)
  }

  ghost function AllChunks(blocks: seq<Block>, es: nat): seq<nat>
    requires es > 0
  {
    if blocks == [] then [] else ChunksOf(blocks[0], es) + AllChunks(blocks[1..], es)
  }

  ghost predicate Disjoint(b: Block, d: Block) {
    b.addr + HEADER + b.size <= d.addr || d.addr + HEADER + d.size <= b.addr
  }

  ghost predicate ProperBlock(b: Block, es: nat)
    requires es > 0
  {
    b.addr > 0 && b.size >= es && b.size % es == 0
  }

  /** Blocks made of whole chunks, apart from one another. */
  ghost predicate Laid(blocks: seq<Block>, es: nat)
    requires es > 0
  {
    && (forall i :: 0 <= i < |blocks| ==> ProperBlock(blocks[i], es))
    && (forall i, j :: 0 <= i < j < |blocks| ==> Disjoint(blocks[i], blocks[j]))
  }

  ghost predicate InBlock(c: nat, b: Block, es: nat) {
    Inside(c, b.addr + HEADER, b.size, es)
  }

  lemma BlockLayout(b: Block, es: nat)
    requires es > 0 && ProperBlock(b, es)
    ensures forall k :: 0 <= k < |ChunksOf(b, es)| ==> InBlock(ChunksOf(b, es)[k], b, es)
    ensures Spaced(ChunksOf(b, es), es)
  {
    hide Chain;
    DivModLaw(b.size, es);
    ChainLayout(b.addr + HEADER, b.size / es, es, b.size);
  }

  /** Chunks one after the other, from `start` up to exactly `end`. */
  ghost predicate Fills(c: seq<nat>, start: nat, end: nat, es: nat) {
    && |c| > 0 && start + |c| * es == end && c[0] == start && c[|c| - 1] + es == end
    && forall k :: 0 <= k < |c| - 1 ==> c[k + 1] == c[k] + es
  }

  /** The chunks follow the header without a gap, up to the end of the block. */
  lemma ChunksFillBlock(b: Block, es: nat)
    requires es > 0 && ProperBlock(b, es)
    ensures Fills(ChunksOf(b, es), b.addr + 2 * WORD, b.addr + 2 * WORD + b.size, es)
  {
    hide Chain;
    DivModLaw(b.size, es);
    AtLeastOne(b.size, es);
    ChainLayout(b.addr + HEADER, b.size / es, es, b.size);
    ChainEnd(b.addr + HEADER, b.size / es, es);
  }

  /** Every chunk lies in some block. */
  lemma {:induction false} ChunkHasBlock(blocks: seq<Block>, es: nat, c: nat) returns (i: nat)
    requires es > 0 && Laid(blocks, es) && c in AllChunks(blocks, es)
    ensures i < |blocks| && InBlock(c, blocks[i], es)
  {
    hide ChunksOf;
    BlockLayout(blocks[0], es);
    if c in ChunksOf(blocks[0], es) {
      i := 0;
    } else {
      i := ChunkHasBlock(blocks[1..], es, c);
      i := i + 1;
    }
  }

  /** No two chunks of the pool overlap. */
  lemma {:induction false} AllSpaced(blocks: seq<Block>, es: nat)
    requires es > 0 && Laid(blocks, es)
    ensures Spaced(AllChunks(blocks, es), es)
  {
    hide ChunksOf;
    if blocks != [] {
      BlockLayout(blocks[0], es);
      AllSpaced(blocks[1..], es);
      var s, t := ChunksOf(blocks[0], es), AllChunks(blocks[1..], es);
      forall j, k | 0 <= j < k < |s + t|
        ensures (s + t)[j] + es <= (s + t)[k] || (s + t)[k] + es <= (s + t)[j]
      {
        if j < |s| <= k {
          var i := ChunkHasBlock(blocks[1..], es, t[k - |s|]);
          assert InBlock(s[j], blocks[0], es) && Disjoint(blocks[0], blocks[i + 1]);
        } else if k < |s| {
          assert s[j] + es <= s[k] || s[k] + es <= s[j];
        } else {
          assert t[j - |s|] + es <= t[k - |s|] || t[k - |s|] + es <= t[j - |s|];
        }
      }
    }
  }

  lemma {:induction false} SpacedOnce(s: seq<nat>, es: nat)
    requires es > 0 && Spaced(s, es)
    ensures forall c :: multiset(s)[c] <= 1
  {
    if s != [] {
      var n := |s| - 1;
      SpacedOnce(s[..n], es);
      assert s == s[..n] + [s[n]];
      assert s[n] !in s[..n];
    }
  }

  lemma SpacedApart(s: seq<nat>, es: nat, c: nat, d: nat)
    requires Spaced(s, es) && c in s && d in s && c != d
    ensures c + es <= d || d + es <= c
  {
    var j :| 0 <= j < |s| && s[j] == c;
    var k :| 0 <= k < |s| && s[k] == d;
    if j > k { assert s[k] + es <= s[j] || s[j] + es <= s[k]; }
  }

  // Lists in memory

  /** The null-terminated list of chunks from `head`. */
  ghost predicate Linked(mem: Memory, head: nat, list: seq<nat>) {
    && head == (if list == [] then 0 else list[0])
    && (forall k :: 0 <= k < |list| ==> list[k] != 0 && WordAt(mem, list[k]) == NextIn(list, k))
  }

  ghost function NextIn(list: seq<nat>, k: nat): nat {
    if k + 1 < |list| then list[k + 1] else 0
  }

  ghost function NextBlock(blocks: seq<Block>, k: nat): nat {
    if k + 1 < |blocks| then blocks[k + 1].addr else 0
  }

  /** The list of blocks, with their headers. */
  ghost predicate LinkedBlocks(mem: Memory, head: nat, blocks: seq<Block>) {
    && head == (if blocks == [] then 0 else blocks[0].addr)
    && (forall k :: 0 <= k < |blocks| ==> Header(mem, blocks[k], NextBlock(blocks, k)))
  }

  ghost predicate Header(mem: Memory, b: Block, next: nat) {
    WordAt(mem, b.addr) == next && WordAt(mem, b.addr + WORD) == b.size
  }

  /** Nothing but words of the given chunks has changed. */
  ghost predicate OnlyChunks(was: Memory, now: Memory, chunks: seq<nat>) {
    forall a :: a !in chunks ==> WordAt(now, a) == WordAt(was, a)
  }

  /** Nothing but the header of a block and the words of its chunks has changed. */
  ghost predicate OnlyBlock(was: Memory, now: Memory, b: Block, es: nat) {
    es > 0 && OnlyChunks(was, now, [b.addr, b.addr + WORD] + ChunksOf(b, es))
  }

  /** Nothing but words of chunks has changed. */
  ghost predicate OnlyAll(was: Memory, now: Memory, blocks: seq<Block>, es: nat) {
    es > 0 && OnlyChunks(was, now, AllChunks(blocks, es))
  }

  lemma OnlyAllStart(mem: Memory, blocks: seq<Block>, es: nat)
    requires es > 0
    ensures OnlyAll(mem, mem, blocks, es)
  {
  }

  lemma OnlyAllStep(was: Memory, mem: Memory, now: Memory, blocks: seq<Block>, es: nat, chunks: seq<nat>)
    requires es > 0 && OnlyAll(was, mem, blocks, es) && OnlyChunks(mem, now, chunks)
    requires forall c :: c in chunks ==> c in AllChunks(blocks, es)
    ensures OnlyAll(was, now, blocks, es)
  {
    hide AllChunks;
  }

  lemma OnlyBlockWritten(was: Memory, mem: Memory, now: Memory, b: Block, base: nat, es: nat)
    requires es > 0 && mem == was[b.addr + WORD := b.size][b.addr := base] && OnlyChunks(mem, now, ChunksOf(b, es))
    ensures OnlyBlock(was, now, b, es)
  {
    hide ChunksOf;
  }

  lemma LinkedKept(was: Memory, now: Memory, chunks: seq<nat>, head: nat, list: seq<nat>)
    requires Linked(was, head, list) && OnlyChunks(was, now, chunks)
    requires forall k :: 0 <= k < |list| ==> list[k] !in chunks
    ensures Linked(now, head, list)
  {
  }

  /** Headers are not chunks, so chunks may be written without disturbing the blocks. */
  lemma HeadersKept(was: Memory, now: Memory, chunks: seq<nat>, head: nat, blocks: seq<Block>, es: nat)
    requires es >= WORD && Laid(blocks, es) && LinkedBlocks(was, head, blocks)
    requires OnlyChunks(was, now, chunks)
    requires forall c :: c in chunks ==> c in AllChunks(blocks, es)
    ensures LinkedBlocks(now, head, blocks)
  {
    hide AllChunks;
    forall k | 0 <= k < |blocks|
      ensures Header(now, blocks[k], NextBlock(blocks, k))
    {
      HeaderIsNoChunk(blocks, es, k);
      assert Header(was, blocks[k], NextBlock(blocks, k));
    }
  }

  lemma HeaderIsNoChunk(blocks: seq<Block>, es: nat, k: nat)
    requires es >= WORD && Laid(blocks, es) && k < |blocks|
    ensures forall a :: blocks[k].addr <= a < blocks[k].addr + HEADER ==> a !in AllChunks(blocks, es)
  {
    hide AllChunks;
    forall a | blocks[k].addr <= a < blocks[k].addr + HEADER ensures a !in AllChunks(blocks, es) {
      if a in AllChunks(blocks, es) {
        var i := ChunkHasBlock(blocks, es, a);
      }
    }
  }

  // Elements shorter than a word

  /** The words written at the chunks stay in their own chunks exactly when one fits. */
  lemma LinksApart(start: nat, n: nat, es: nat)
    requires es > 0 && n >= 2
    ensures es >= WORD <==>
      forall j, k :: 0 <= j < n && 0 <= k < n && j != k ==>
        Chain(start, n, es)[j] + WORD <= Chain(start, n, es)[k] || Chain(start, n, es)[k] + es <= Chain(start, n, es)[j]
  {
    hide Chain;
    ChainLayout(start, n, es, n * es);
    var c := Chain(start, n, es);
    if es >= WORD {
      forall j, k | 0 <= j < n && 0 <= k < n && j != k ensures c[j] + WORD <= c[k] || c[k] + es <= c[j] {
        ChainOrder(start, n, es, j, k);
      }
    } else {
      assert c[1] == c[0] + es;
    }
  }

  /** The word written at the last chunk leaves the block exactly when an element is shorter. */
  lemma LastLinkInside(start: nat, n: nat, es: nat)
    requires es > 0 && n >= 1
    ensures Chain(start, n, es)[n - 1] + WORD <= start + n * es <==> es >= WORD
  {
    hide Chain;
    ChainEnd(start, n, es);
  }

  lemma {:induction false} ChainEnd(start: nat, n: nat, es: nat)
    requires n >= 1
    ensures Chain(start, n, es)[n - 1] + es == start + n * es
    decreases n
  {
    Distribute(es, n - 1, 1);
    if n > 1 { ChainEnd(start + es, n - 1, es); }
  }

  lemma ChainOrder(start: nat, n: nat, es: nat, j: nat, k: nat)
    requires es > 0 && j < n && k < n && j != k
    ensures var c := Chain(start, n, es); c[j] + es <= c[k] || c[k] + es <= c[j]
  {
    hide Chain;
    ChainLayout(start, n, es, n * es);
    var c := Chain(start, n, es);
    if j < k { assert c[j] + es <= c[k] || c[k] + es <= c[j]; }
    else { assert c[k] + es <= c[j] || c[j] + es <= c[k]; }
  }

  /** The lowest `n` bytes of a word, the lowest first, and the number that bytes stand for. */
  function Bytes(w: nat, n: nat): (s: seq<nat>)
    ensures |s| == n
    decreases n
  {
    if n == 0 then [] else [w % 0x100] + Bytes(w / 0x100, n - 1)
  }

  function OfBytes(s: seq<nat>): nat {
    if s == [] then 0 else s[0] + 0x100 * OfBytes(s[1..])
  }

  /** The first `k` bytes of a word in front of zeros are the word's remainder. */
  lemma {:induction false} BytesThenZeros(w: nat, n: nat, k: nat, zeros: nat)
    requires k <= n
    ensures OfBytes(Bytes(w, n)[..k] + Bytes(0, zeros)) == w % Pow(0x100, k)
    decreases n
  {
    var s := Bytes(w, n)[..k] + Bytes(0, zeros);
    if k == 0 {
      assert s == Bytes(0, zeros);
      ZeroBytes(zeros);
    } else {
      var t := Bytes(w / 0x100, n - 1)[..k - 1] + Bytes(0, zeros);
      assert s == [w % 0x100] + t && s[1..] == t;
      BytesThenZeros(w / 0x100, n - 1, k - 1, zeros);
      RemainderInTwo(w, Pow(0x100, k - 1));
    }
  }

  lemma {:induction false} ZeroBytes(n: nat)
    ensures OfBytes(Bytes(0, n)) == 0
    decreases n
  {
    if n > 0 {
      assert Bytes(0, n)[1..] == Bytes(0, n - 1);
      ZeroBytes(n - 1);
    }
  }

  lemma RemainderInTwo(w: nat, p: nat)
    requires p > 0
    ensures w % (0x100 * p) == w % 0x100 + 0x100 * ((w / 0x100) % p)
  {
    var q, r := (w / 0x100) / p, (w / 0x100) % p;
    DivModLaw(w / 0x100, p);
    MulSwap(q, 0x100, p);
    DivModUnique(w, 0x100 * p, q, w % 0x100 + 0x100 * r);
  }

  method WriteWord(bytes: array<nat>, a: nat, w: nat)
    requires a + WORD <= bytes.Length
    modifies bytes
    ensures bytes[a..a + WORD] == Bytes(w, WORD)
    ensures bytes[..a] == old(bytes[..a]) && bytes[a + WORD..] == old(bytes[a + WORD..])
  {
    forall k | 0 <= k < WORD { bytes[a + k] := Bytes(w, WORD)[k]; }
  }

  /** Two chunks linked in memory of bytes. For elements shorter than a word, the null link of the
      second overwrites the upper bytes of the first: the second chunk is still found exactly when
      its address has no such bytes. */
  method LinkTwoChunks(bytes: array<nat>, start: nat, es: nat) returns (next: nat)
    requires es > 0 && start + es + WORD <= bytes.Length && start + es < TWO64
    modifies bytes
    ensures next == start + es <==> es >= WORD || start + es < Pow(0x100, es)
  {
    hide Pow, Bytes;
    WriteWord(bytes, start, start + es);
    ghost var b1 := bytes[..];
    assert b1[start..start + WORD] == Bytes(start + es, WORD);
    WriteWord(bytes, start + es, 0);
    ghost var b2 := bytes[..];
    assert b2[..start + es] == b1[..start + es] && b2[start + es..start + es + WORD] == Bytes(0, WORD);
    next := OfBytes(bytes[start..start + WORD]);
    assert bytes[start..start + WORD] == b2[start..start + WORD];
    FirstLink(b1, b2, start, es);
  }

  lemma FirstLink(b1: seq<nat>, b2: seq<nat>, start: nat, es: nat)
    requires es > 0 && start + es + WORD <= |b1| == |b2| && start + es < TWO64
    requires b1[start..start + WORD] == Bytes(start + es, WORD)
    requires b2[..start + es] == b1[..start + es] && b2[start + es..start + es + WORD] == Bytes(0, WORD)
    ensures OfBytes(b2[start..start + WORD]) == start + es <==> es >= WORD || start + es < Pow(0x100, es)
  {
    hide Pow, Bytes, OfBytes;
    var w := start + es;
    var kept := if es < WORD then es else WORD;
    Overwritten(b1, b2, start, w, kept, Bytes(w, WORD), Bytes(0, WORD));
    ZeroPrefix(WORD, WORD - kept);
    BytesThenZeros(w, WORD, kept, WORD - kept);
    ModKeeps(w, Pow(0x100, kept));
    if es >= WORD { WordOfBytes(); }
  }

  /** A word at `a` whose bytes from `b` on have been overwritten by another word. */
  lemma Overwritten(b1: seq<nat>, b2: seq<nat>, a: nat, b: nat, kept: nat, x: seq<nat>, y: seq<nat>)
    requires a + kept <= b && kept <= WORD && (kept < WORD ==> a + kept == b)
    requires b + WORD <= |b1| == |b2| && |x| == |y| == WORD
    requires b1[a..a + WORD] == x && b2[..b] == b1[..b] && b2[b..b + WORD] == y
    ensures b2[a..a + WORD] == x[..kept] + y[..WORD - kept]
  {
    var s, t := b2[a..a + WORD], x[..kept] + y[..WORD - kept];
    forall i | 0 <= i < WORD ensures s[i] == t[i] {
      if i < kept {
        assert b2[..b][a + i] == b1[..b][a + i] && b1[a..a + WORD][i] == x[i];
      } else {
        assert b2[b..b + WORD][i - kept] == y[i - kept];
      }
    }
    assert s == t;
  }

  lemma {:induction false} ZeroPrefix(n: nat, k: nat)
    requires k <= n
    ensures Bytes(0, n)[..k] == Bytes(0, k)
    decreases n
  {
    if k > 0 { ZeroPrefix(n - 1, k - 1); }
  }

  lemma ModKeeps(w: nat, p: nat)
    requires p > 0
    ensures w % p == w <==> w < p
  {
    DivModLaw(w, p);
    if w < p { DivModUnique(w, p, 0, w); }
  }

  lemma WordOfBytes()
    ensures Pow(0x100, WORD) == TWO64
  {
    assert Pow(0x100, 1) == 0x100 * Pow(0x100, 0) == 0x100;
    hide Pow;
    PowAdd(0x100, 1, 1);
    PowAdd(0x100, 2, 2);
    PowAdd(0x100, 4, 4);
  }

  // The pool

  lemma ChainAgain(start: nat, n: nat, es: nat, k: nat)
    requires es > 0 && k + 1 < n
    ensures Chain(start, n, es)[k + 1] == Chain(start, n, es)[k] + es
  {
    hide Chain;
    ChainLayout(start, n, es, n * es);
  }

  ghost function LinkTarget(chain: seq<nat>, k: nat, head: nat): nat {
    if k + 1 < |chain| then chain[k + 1] else head
  }

  /** The first `i` chunks of the chain are linked, the last of the chain to `head`. */
  ghost predicate LinkedUpTo(was: Memory, now: Memory, chain: seq<nat>, i: nat, head: nat) {
    && OnlyChunks(was, now, chain) && i <= |chain|
    && (forall k :: 0 <= k < i ==> WordAt(now, chain[k]) == LinkTarget(chain, k, head))
  }

  /** The chain linked up, in front of the list that was there. */
  lemma ChainLinked(was: Memory, now: Memory, start: nat, n: nat, es: nat, head: nat, list: seq<nat>)
    requires es > 0 && n > 0 && start > 0 && Linked(was, head, list)
    requires var c := Chain(start, n, es);
      LinkedUpTo(was, now, c, n, head) && forall k :: 0 <= k < |list| ==> list[k] !in c
    ensures Linked(now, start, Chain(start, n, es) + list)
  {
    hide Chain, LinkTarget, Spaced, NextIn, Inside;
    ChainLayout(start, n, es, n * es);
    var c := Chain(start, n, es);
    var all := c + list;
    forall k | 0 <= k < |all| ensures all[k] != 0 && WordAt(now, all[k]) == NextIn(all, k) {
      NextInJoined(c, list, head, k);
      if k < n {
        assert all[k] == c[k];
        NotNull(c[k], start, n * es, es);
      } else {
        assert all[k] == list[k - n] && list[k - n] !in c;
      }
    }
  }

  lemma NotNull(c: nat, start: nat, size: nat, es: nat)
    requires Inside(c, start, size, es) && start > 0
    ensures c != 0
  {
  }

  lemma NextInJoined(chain: seq<nat>, list: seq<nat>, head: nat, k: nat)
    requires k < |chain + list| && head == if list == [] then 0 else list[0]
    ensures NextIn(chain + list, k) == if k < |chain| then LinkTarget(chain, k, head) else NextIn(list, k - |chain|)
  {
  }

  /** A new block's header and chunks lie apart from all others. */
  lemma NewBlockApart(blocks: seq<Block>, b: Block, es: nat)
    requires es >= WORD && Laid(blocks, es) && ProperBlock(b, es)
    requires forall i :: 0 <= i < |blocks| ==> Disjoint(b, blocks[i])
    ensures Laid([b] + blocks, es)
    ensures AllChunks([b] + blocks, es) == ChunksOf(b, es) + AllChunks(blocks, es)
    ensures forall c :: c in AllChunks(blocks, es) ==> c != b.addr && c != b.addr + WORD && c !in ChunksOf(b, es)
  {
    var all := [b] + blocks;
    assert all[1..] == blocks;
    hide ChunksOf, AllChunks;
    forall i, j | 0 <= i < j < |all| ensures Disjoint(all[i], all[j]) {
      if i > 0 { assert Disjoint(blocks[i - 1], blocks[j - 1]); }
    }
    BlockLayout(b, es);
    forall c | c in AllChunks(blocks, es) ensures c != b.addr && c != b.addr + WORD && c !in ChunksOf(b, es) {
      var i := ChunkHasBlock(blocks, es, c);
      assert Disjoint(b, blocks[i]);
    }
  }

  /** Writing the header of a new block keeps both lists. */
  lemma NewHeader(was: Memory, now: Memory, base: nat, head: nat, list: seq<nat>, blocks: seq<Block>, b: Block, es: nat)
    requires es >= WORD && Laid(blocks, es) && ProperBlock(b, es)
    requires forall i :: 0 <= i < |blocks| ==> Disjoint(b, blocks[i])
    requires LinkedBlocks(was, base, blocks) && Linked(was, head, list)
    requires forall k :: 0 <= k < |list| ==> list[k] in AllChunks(blocks, es)
    requires now == was[b.addr + WORD := b.size][b.addr := base]
    ensures LinkedBlocks(now, b.addr, [b] + blocks) && Linked(now, head, list)
  {
    hide ChunksOf, AllChunks, Laid, Disjoint, LinkedBlocks, Linked;
    NewBlockApart(blocks, b, es);
    assert OnlyChunks(was, now, [b.addr, b.addr + WORD]);
    LinkedKept(was, now, [b.addr, b.addr + WORD], head, list);
    NewHeaderFirst(was, now, base, blocks, b, es);
  }

  lemma NewHeaderFirst(was: Memory, now: Memory, base: nat, blocks: seq<Block>, b: Block, es: nat)
    requires es >= WORD && Laid(blocks, es) && LinkedBlocks(was, base, blocks)
    requires forall i :: 0 <= i < |blocks| ==> Disjoint(b, blocks[i])
    requires now == was[b.addr + WORD := b.size][b.addr := base]
    ensures LinkedBlocks(now, b.addr, [b] + blocks)
  {
    hide Header, Disjoint;
    var all := [b] + blocks;
    NewHeaderItself(was, now, base, b);
    forall k | 0 <= k < |all| ensures Header(now, all[k], NextBlock(all, k)) {
      if k > 0 {
        var d := blocks[k - 1];
        assert all[k] == d && NextBlock(all, k) == NextBlock(blocks, k - 1);
        assert Disjoint(b, d) && ProperBlock(d, es) && Header(was, d, NextBlock(blocks, k - 1));
        HeaderApart(was, now, base, b, d, NextBlock(blocks, k - 1));
      }
    }
  }

  lemma NewHeaderItself(was: Memory, now: Memory, base: nat, b: Block)
    requires now == was[b.addr + WORD := b.size][b.addr := base]
    ensures Header(now, b, base)
  {
  }

  lemma HeaderApart(was: Memory, now: Memory, base: nat, b: Block, d: Block, next: nat)
    requires now == was[b.addr + WORD := b.size][b.addr := base]
    requires Disjoint(b, d) && Header(was, d, next)
    ensures Header(now, d, next)
  {
  }

  /** What the partition says of single chunks. */
  lemma Partition(available: seq<nat>, live: set<nat>, all: seq<nat>, es: nat)
    requires es > 0 && Spaced(all, es) && multiset(available) + multiset(live) == multiset(all)
    ensures forall c :: c in available ==> c in all && c !in live
    ensures forall c :: c in live ==> c in all && c !in available
    ensures forall j, k :: 0 <= j < k < |available| ==> available[j] != available[k]
  {
    SpacedOnce(all, es);
    forall c | c in available ensures c in all && c !in live {
      assert c in multiset(available) && c in multiset(all);
    }
    forall c | c in live ensures c in all && c !in available {
      assert c in multiset(live) && c in multiset(all);
    }
    forall j, k | 0 <= j < k < |available| ensures available[j] != available[k] {
      assert available == available[..k] + available[k..];
      assert multiset(available) == multiset(available[..k]) + multiset(available[k..]);
      assert available[..k][j] == available[j] && available[k..][0] == available[k];
      assert multiset(available)[available[j]] >= 1 + (if available[k] == available[j] then 1 else 0);
      assert multiset(all)[available[j]] <= 1;
    }
  }

  class Pool {
    var ElementSize: nat
    var Base: nat
    var FreeList: nat
    var Mem: Memory
    /** The blocks provided, the chunks of the free list in order, and those handed out. */
    ghost var Blocks: seq<Block>
    ghost var Available: seq<nat>
    ghost var Live: set<nat>

    /** The free list and the live chunks are exactly the chunks of all blocks, each once. */
    ghost predicate Valid()
      reads this
    {
      && ElementSize >= WORD
      && Laid(Blocks, ElementSize) && LinkedBlocks(Mem, Base, Blocks)
      && Linked(Mem, FreeList, Available)
      && multiset(Available) + multiset(Live) == multiset(AllChunks(Blocks, ElementSize))
    }

    constructor (elementSize: nat)
      requires elementSize >= WORD
      ensures Valid() && ElementSize == elementSize && Blocks == [] && Available == [] && Live == {}
    {
      ElementSize, Base, FreeList, Mem := elementSize, 0, 0, map[];
      Blocks, Available, Live := [], [], {};
    }

    /** `pool_allocator_add_free_chunks`. */
    method AddFreeChunks(start: nat, size: nat, ghost list: seq<nat>)
      requires ElementSize > 0 && size >= ElementSize && size % ElementSize == 0 && start > 0
      requires Linked(Mem, FreeList, list)
      requires forall k :: 0 <= k < |list| ==> list[k] !in Chain(start, size / ElementSize, ElementSize)
      modifies this`FreeList, this`Mem
      ensures Linked(Mem, FreeList, Chain(start, size / ElementSize, ElementSize) + list)
      ensures OnlyChunks(old(Mem), Mem, Chain(start, size / ElementSize, ElementSize))
    {
      hide Chain, Linked, LinkedUpTo, Spaced, Inside, OnlyChunks;
      ghost var mem := Mem;
      AtLeastOne(size, ElementSize);
      var n: nat := size / ElementSize;
      ghost var chain := Chain(start, n, ElementSize);
      ChainLayout(start, n, ElementSize, n * ElementSize);
      var c := start;
      var oldFreeList := FreeList;
      FreeList := c;
      NothingLinked(mem, chain, oldFreeList);
      for i := 0 to n - 1
        invariant c == chain[i] && FreeList == start
        invariant LinkedUpTo(mem, Mem, chain, i, oldFreeList)
      {
        ChainAgain(start, n, ElementSize, i);
        LinkOne(mem, Mem, chain, i, ElementSize, oldFreeList);
        Mem := Mem[c := c + ElementSize];
        c := c + ElementSize;
      }
      LinkOne(mem, Mem, chain, n - 1, ElementSize, oldFreeList);
      Mem := Mem[c := oldFreeList];
      ChainLinked(mem, Mem, start, n, ElementSize, oldFreeList, list);
    }

    /** `pool_allocator_provide_block`. */
    method ProvideBlock(block: nat, size: nat)
      requires Valid() && block > 0
      requires size >= HEADER + ElementSize && (size - HEADER) % ElementSize == 0
      requires forall i :: 0 <= i < |Blocks| ==> Disjoint(Block(block, size - HEADER), Blocks[i])
      modifies this
      ensures Valid() && ElementSize == old(ElementSize) && Live == old(Live)
      ensures Blocks == [Block(block, size - HEADER)] + old(Blocks)
      ensures Available == ChunksOf(Block(block, size - HEADER), ElementSize) + old(Available)
      ensures exists c :: Fills(c, block + 2 * WORD, block + size, ElementSize) && Available == c + old(Available)
      ensures OnlyBlock(old(Mem), Mem, Blocks[0], ElementSize)
    {
      hide Linked, LinkedBlocks, Laid, AllChunks, Disjoint, Chain, Spaced, Fills, OnlyBlock;
      ghost var b, mem, was, base := Block(block, size - HEADER), Mem, Mem, Base;
      AllSpaced(Blocks, ElementSize);
      Partition(Available, Live, AllChunks(Blocks, ElementSize), ElementSize);
      NewBlockApart(Blocks, b, ElementSize);
      Mem := Mem[block + WORD := size - HEADER];
      Mem := Mem[block := Base];
      NewHeader(mem, Mem, Base, FreeList, Available, Blocks, b, ElementSize);
      Base := block;
      mem := Mem;
      AddFreeChunks(block + HEADER, size - HEADER, Available);
      Blocks := [b] + Blocks;
      HeadersKept(mem, Mem, ChunksOf(b, ElementSize), Base, Blocks, ElementSize);
      ChunksFillBlock(b, ElementSize);
      OnlyBlockWritten(was, mem, Mem, b, base, ElementSize);
      Available := ChunksOf(b, ElementSize) + Available;
    }

    /** `ALLOCATE`: a chunk that was free, and overlaps no live one, or null when there is none. */
    method Allocate() returns (chunk: nat)
      requires Valid()
      modifies this
      ensures Valid() && ElementSize == old(ElementSize) && Blocks == old(Blocks) && Mem == old(Mem)
      ensures chunk == 0 <==> old(Available) == []
      ensures chunk == 0 ==> Available == [] && Live == old(Live)
      ensures chunk != 0 ==> chunk == old(Available)[0] && Available == old(Available)[1..]
      ensures chunk != 0 ==> chunk !in old(Live) && Live == old(Live) + {chunk}
      ensures chunk != 0 ==> chunk in AllChunks(Blocks, ElementSize)
      ensures chunk != 0 ==> forall c :: c in old(Live) ==> c + ElementSize <= chunk || chunk + ElementSize <= c
    {
      hide LinkedBlocks, Laid, AllChunks, Spaced, Linked;
      NullHead(Mem, FreeList, Available);
      if FreeList != 0 {
        ghost var all := AllChunks(Blocks, ElementSize);
        AllSpaced(Blocks, ElementSize);
        chunk := FreeList;
        FreeList := WordAt(Mem, chunk);
        TakeFirst(Mem, chunk, Available, Live, all, ElementSize);
        Available, Live := Available[1..], Live + {chunk};
      } else {
        chunk := 0;
      }
    }

    /** `FREE` of a live chunk. */
    method Free(chunk: nat)
      requires Valid() && chunk in Live
      modifies this
      ensures Valid() && ElementSize == old(ElementSize) && Blocks == old(Blocks)
      ensures Available == [chunk] + old(Available) && Live == old(Live) - {chunk}
      ensures OnlyChunks(old(Mem), Mem, [chunk])
    {
      hide Laid, AllChunks, Spaced, LinkedBlocks;
      ghost var all, mem, head := AllChunks(Blocks, ElementSize), Mem, FreeList;
      AllSpaced(Blocks, ElementSize);
      Partition(Available, Live, all, ElementSize);
      ChunkIsNotNull(Blocks, ElementSize, chunk);
      Mem := Mem[chunk := FreeList];
      FreeList := chunk;
      HeadersKept(mem, Mem, [chunk], Base, Blocks, ElementSize);
      PutFirst(mem, Mem, head, chunk, Available);
      assert multiset(Live) == multiset(Live - {chunk}) + multiset{chunk};
      Available, Live := [chunk] + Available, Live - {chunk};
    }

    /** `FREE_ALL`: every chunk is free again. */
    method FreeAll()
      requires Valid()
      modifies this
      ensures Valid() && ElementSize == old(ElementSize) && Blocks == old(Blocks)
      ensures Live == {} && multiset(Available) == multiset(AllChunks(Blocks, ElementSize))
      ensures Available == Freed(Blocks, |Blocks|, ElementSize)
      ensures OnlyAll(old(Mem), Mem, Blocks, ElementSize)
    {
      hide Linked, LinkedBlocks, Laid, AllChunks, Chain, Freed, OnlyAll;
      OnlyAllStart(Mem, Blocks, ElementSize);
      FreeList := 0;
      NothingFreed(Mem, Blocks, ElementSize);
      var b := Base;
      ghost var i := 0;
      FirstBlock(Mem, Base, Blocks, ElementSize);
      while b != 0
        invariant ElementSize == old(ElementSize) && Blocks == old(Blocks) && Base == old(Base)
        invariant i <= |Blocks| && b == BlockAt(Blocks, i) && (b == 0 <==> i == |Blocks|)
        invariant LinkedBlocks(Mem, Base, Blocks)
        invariant Linked(Mem, FreeList, Freed(Blocks, i, ElementSize))
        invariant OnlyAll(old(Mem), Mem, Blocks, ElementSize)
        decreases |Blocks| - i
      {
        ghost var mem := Mem;
        FreedApart(Blocks, i, ElementSize);
        BlockHeader(Mem, Base, Blocks, i, ElementSize);
        AddFreeChunks(b + HEADER, WordAt(Mem, b + WORD), Freed(Blocks, i, ElementSize));
        HeadersKept(mem, Mem, ChunksOf(Blocks[i], ElementSize), Base, Blocks, ElementSize);
        OnlyAllStep(old(Mem), mem, Mem, Blocks, ElementSize, ChunksOf(Blocks[i], ElementSize));
        BlockHeader(Mem, Base, Blocks, i, ElementSize);
        b := WordAt(Mem, b);
        i := i + 1;
      }
      FreedAll(Blocks, ElementSize);
      Available, Live := Freed(Blocks, i, ElementSize), {};
    }

    /** A client writing a word inside a chunk it holds disturbs nothing. */
    method WriteToLive(chunk: nat, a: nat, word: nat)
      requires Valid() && chunk in Live && chunk <= a && a + WORD <= chunk + ElementSize
      modifies this`Mem
      ensures Valid() && Mem == old(Mem)[a := word]
    {
      hide Laid, AllChunks, Spaced, LinkedBlocks, Linked;
      ghost var all, mem := AllChunks(Blocks, ElementSize), Mem;
      AllSpaced(Blocks, ElementSize);
      Partition(Available, Live, all, ElementSize);
      Mem := Mem[a := word];
      NotInChunk(Available, all, ElementSize, chunk, a);
      LinkedKept(mem, Mem, [a], FreeList, Available);
      HeadersElsewhere(mem, Mem, Base, Blocks, ElementSize, chunk, a);
    }
  }

  lemma NullHead(mem: Memory, head: nat, list: seq<nat>)
    requires Linked(mem, head, list)
    ensures head == 0 <==> list == []
  {
  }

  lemma TakeFirst(mem: Memory, head: nat, list: seq<nat>, live: set<nat>, all: seq<nat>, es: nat)
    requires head != 0 && Linked(mem, head, list) && es > 0 && Spaced(all, es)
    requires multiset(list) + multiset(live) == multiset(all)
    ensures list != [] && head == list[0] && head in all && head !in live
    ensures Linked(mem, WordAt(mem, head), list[1..])
    ensures multiset(list[1..]) + multiset(live + {head}) == multiset(all)
    ensures forall c :: c in live ==> c + es <= head || head + es <= c
  {
    Partition(list, live, all, es);
    assert list == [list[0]] + list[1..];
    assert head in list;
    var rest := list[1..];
    forall k | 0 <= k < |rest| ensures rest[k] != 0 && WordAt(mem, rest[k]) == NextIn(rest, k) {
      assert rest[k] == list[k + 1] && NextIn(rest, k) == NextIn(list, k + 1);
    }
    assert multiset(live + {head}) == multiset(live) + multiset{head};
    forall c | c in live ensures c + es <= head || head + es <= c {
      SpacedApart(all, es, c, head);
    }
  }

  lemma PutFirst(was: Memory, now: Memory, head: nat, c: nat, list: seq<nat>)
    requires c != 0 && Linked(was, head, list) && c !in list && now == was[c := head]
    ensures Linked(now, c, [c] + list)
  {
    var all := [c] + list;
    forall k | 0 <= k < |all| ensures all[k] != 0 && WordAt(now, all[k]) == NextIn(all, k) {
      if k > 0 { assert all[k] == list[k - 1] && NextIn(all, k) == NextIn(list, k - 1); }
    }
  }

  lemma ChunkIsNotNull(blocks: seq<Block>, es: nat, c: nat)
    requires es > 0 && Laid(blocks, es) && c in AllChunks(blocks, es)
    ensures c != 0
  {
    hide AllChunks, Laid;
    var i := ChunkHasBlock(blocks, es, c);
  }

  lemma NotInChunk(list: seq<nat>, all: seq<nat>, es: nat, chunk: nat, a: nat)
    requires Spaced(all, es) && chunk in all && chunk !in list && chunk <= a < chunk + es
    requires forall c :: c in list ==> c in all
    ensures a !in list
  {
    hide Spaced;
    if a in list { SpacedApart(all, es, chunk, a); }
  }

  /** A word inside a chunk is no word of a header. */
  lemma HeadersElsewhere(was: Memory, now: Memory, base: nat, blocks: seq<Block>, es: nat, chunk: nat, a: nat)
    requires es >= WORD && Laid(blocks, es) && LinkedBlocks(was, base, blocks) && chunk in AllChunks(blocks, es)
    requires chunk <= a < chunk + es && OnlyChunks(was, now, [a])
    ensures LinkedBlocks(now, base, blocks)
  {
    hide AllChunks;
    var i := ChunkHasBlock(blocks, es, chunk);
    forall k | 0 <= k < |blocks| ensures Header(now, blocks[k], NextBlock(blocks, k)) {
      assert Header(was, blocks[k], NextBlock(blocks, k));
      if k < i { assert Disjoint(blocks[k], blocks[i]); }
      if i < k { assert Disjoint(blocks[i], blocks[k]); }
      assert blocks[k].addr !in [a] && blocks[k].addr + WORD !in [a];
    }
  }

  // Freeing everything

  /** The free list after the first `i` blocks have been freed. */
  ghost function Freed(blocks: seq<Block>, i: nat, es: nat): seq<nat>
    requires es > 0 && i <= |blocks|
  {
    if i == 0 then [] else ChunksOf(blocks[i - 1], es) + Freed(blocks, i - 1, es)
  }

  ghost function BlockAt(blocks: seq<Block>, i: nat): nat {
    if i < |blocks| then blocks[i].addr else 0
  }

  lemma NothingFreed(mem: Memory, blocks: seq<Block>, es: nat)
    requires es > 0
    ensures Linked(mem, 0, Freed(blocks, 0, es))
  {
  }

  lemma FirstBlock(mem: Memory, base: nat, blocks: seq<Block>, es: nat)
    requires es > 0 && Laid(blocks, es) && LinkedBlocks(mem, base, blocks)
    ensures base == BlockAt(blocks, 0) && (base == 0 <==> blocks == [])
  {
  }

  lemma BlockHeader(mem: Memory, base: nat, blocks: seq<Block>, i: nat, es: nat)
    requires es > 0 && Laid(blocks, es) && LinkedBlocks(mem, base, blocks) && i < |blocks|
    ensures WordAt(mem, blocks[i].addr) == BlockAt(blocks, i + 1)
    ensures BlockAt(blocks, i + 1) == 0 <==> i + 1 == |blocks|
    ensures WordAt(mem, blocks[i].addr + WORD) == blocks[i].size && ProperBlock(blocks[i], es)
  {
    assert Header(mem, blocks[i], NextBlock(blocks, i));
  }

  /** The chunks of the next block are not yet in the list. */
  lemma FreedApart(blocks: seq<Block>, i: nat, es: nat)
    requires es > 0 && Laid(blocks, es) && i < |blocks|
    ensures forall c :: c in Freed(blocks, i, es) ==> c !in ChunksOf(blocks[i], es)
    ensures Freed(blocks, i + 1, es) == ChunksOf(blocks[i], es) + Freed(blocks, i, es)
    ensures forall c :: c in ChunksOf(blocks[i], es) ==> c in AllChunks(blocks, es)
  {
    hide ChunksOf;
    ChunksAmongAll(blocks, i, es);
    forall c | c in Freed(blocks, i, es) ensures c !in ChunksOf(blocks[i], es) {
      var j := FreedHasBlock(blocks, i, es, c);
      assert Disjoint(blocks[j], blocks[i]);
      BlockLayout(blocks[i], es);
    }
  }

  lemma {:induction false} FreedHasBlock(blocks: seq<Block>, i: nat, es: nat, c: nat) returns (j: nat)
    requires es > 0 && Laid(blocks, es) && i <= |blocks| && c in Freed(blocks, i, es)
    ensures j < i && InBlock(c, blocks[j], es)
  {
    hide ChunksOf;
    BlockLayout(blocks[i - 1], es);
    if c in ChunksOf(blocks[i - 1], es) { j := i - 1; } else { j := FreedHasBlock(blocks, i - 1, es, c); }
  }

  lemma {:induction false} ChunksAmongAll(blocks: seq<Block>, i: nat, es: nat)
    requires es > 0 && i < |blocks|
    ensures forall c :: c in ChunksOf(blocks[i], es) ==> c in AllChunks(blocks, es)
  {
    hide ChunksOf;
    if i > 0 {
      ChunksAmongAll(blocks[1..], i - 1, es);
    }
  }

  /** In the end every chunk is in the list exactly once. */
  lemma FreedAll(blocks: seq<Block>, es: nat)
    requires es > 0
    ensures multiset(Freed(blocks, |blocks|, es)) == multiset(AllChunks(blocks, es))
  {
    hide Freed, AllChunks;
    FreedPrefix(blocks, |blocks|, es);
    assert blocks[..|blocks|] == blocks;
  }

  lemma FreedUnfold(blocks: seq<Block>, i: nat, es: nat)
    requires es > 0 && i <= |blocks|
    ensures i > 0 ==> Freed(blocks, i, es) == ChunksOf(blocks[i - 1], es) + Freed(blocks, i - 1, es)
    ensures Freed(blocks, 0, es) == [] == AllChunks([], es)
  {
  }

  lemma {:induction false} FreedPrefix(blocks: seq<Block>, i: nat, es: nat)
    requires es > 0 && i <= |blocks|
    ensures multiset(Freed(blocks, i, es)) == multiset(AllChunks(blocks[..i], es))
  {
    hide ChunksOf, AllChunks, Freed;
    FreedUnfold(blocks, i, es);
    if i > 0 {
      FreedPrefix(blocks, i - 1, es);
      AllChunksLast(blocks[..i - 1], blocks[i - 1], es);
      assert blocks[..i] == blocks[..i - 1] + [blocks[i - 1]];
    } else {
      assert blocks[..0] == [];
    }
  }

  lemma {:induction false} AllChunksLast(blocks: seq<Block>, b: Block, es: nat)
    requires es > 0
    ensures multiset(AllChunks(blocks + [b], es)) == multiset(AllChunks(blocks, es)) + multiset(ChunksOf(b, es))
  {
    hide ChunksOf;
    var all := blocks + [b];
    if blocks == [] {
      assert all[1..] == [];
    } else {
      assert all[1..] == blocks[1..] + [b] && all[0] == blocks[0];
      AllChunksLast(blocks[1..], b, es);
    }
  }

  lemma AtLeastOne(size: nat, es: nat)
    requires es > 0 && size >= es
    ensures size / es >= 1
  {
    DivModLaw(size, es);
    if size / es <= 0 { MulMono(size / es, 0, es); }
  }

  lemma NothingLinked(mem: Memory, chain: seq<nat>, head: nat)
    ensures LinkedUpTo(mem, mem, chain, 0, head)
  {
  }

  /** One more link does not disturb the links before it. */
  lemma LinkOne(was: Memory, now: Memory, chain: seq<nat>, i: nat, es: nat, head: nat)
    requires es > 0 && Spaced(chain, es) && i < |chain| && LinkedUpTo(was, now, chain, i, head)
    ensures LinkedUpTo(was, now[chain[i] := LinkTarget(chain, i, head)], chain, i + 1, head)
  {
    assert forall k :: 0 <= k < i ==> chain[k] != chain[i];
  }
}
