/**
The exponential array (`include/lstd/xar.h`) and the string builder on top of it
(`include/lstd/string_builder.h`, lines 28-88), below 2^31 elements. Shifts by `k` bits are
products with and quotients by 2^k.
 */
module ExponentialArray {
  import opened Powers
  import opened Bits

  const LIMIT: nat := 0x8000_0000

  // The layout of the chunks

  /** The first two chunks have 2^b elements, each later one twice as many as the one before it. */
  function ChunkSize(b: nat, i: nat): (n: nat)
    ensures n > 0
  {
    if i <= 1 then Pow(2, b) else Pow(2, b + i - 1)
  }

  /** The index of the first element of chunk `i`; also the capacity of the chunks before it. */
  function ChunkStart(b: nat, i: nat): nat {
    if i == 0 then 0 else Pow(2, b + i - 1)
  }

  lemma NextChunk(b: nat, i: nat)
    ensures ChunkStart(b, i + 1) == ChunkStart(b, i) + ChunkSize(b, i)
  {
    if i >= 1 { assert Pow(2, b + i) == 2 * Pow(2, b + i - 1); }
  }

  lemma {:induction false} StartsGrow(b: nat, i: nat, j: nat)
    requires i < j
    ensures ChunkStart(b, i) + ChunkSize(b, i) <= ChunkStart(b, j)
  {
    hide ChunkStart, ChunkSize;
    NextChunk(b, j - 1);
    if i < j - 1 { StartsGrow(b, i, j - 1); }
  }

  /** The chunk and the offset that `get` computes for an index. */
  function Locate(b: nat, index: nat): (r: (nat, nat))
    ensures ChunkStart(b, r.0) + r.1 == index && r.1 < ChunkSize(b, r.0)
  {
    var shifted := ChunkUnits(b, index);
    if shifted > 0 then
      var chunk := Msb(shifted);
      InUpperChunk(b, index, chunk);
      (chunk + 1, index - Pow(2, chunk + b))
    else (0, index)
  }

  /** `index >> BASE_SHIFT`. */
  function ChunkUnits(b: nat, index: nat): (n: nat)
    ensures n == 0 <==> index < Pow(2, b)
    ensures n * Pow(2, b) <= index < (n + 1) * Pow(2, b)
  {
    QuotientBounds(index, Pow(2, b));
    index / Pow(2, b)
  }

  lemma InUpperChunk(b: nat, index: nat, chunk: nat)
    requires var n := ChunkUnits(b, index); n > 0 && chunk == Msb(n)
    ensures Pow(2, chunk + b) <= index < 2 * Pow(2, chunk + b)
    ensures ChunkStart(b, chunk + 1) == Pow(2, chunk + b) == ChunkSize(b, chunk + 1)
  {
    var n, p := ChunkUnits(b, index), Pow(2, b);
    hide ChunkUnits, Msb;
    assert Pow(2, chunk) <= n && n + 1 <= 2 * Pow(2, chunk);
    PowAdd(2, chunk, b);
    MulMono(Pow(2, chunk), n, p);
    MulMono(n + 1, 2 * Pow(2, chunk), p);
    MulAssoc(2, Pow(2, chunk), p);
    if chunk == 0 { assert Pow(2, 0) == 1; }
  }

  /** Where an element is, in powers of two: the first 2^b elements are in chunk 0, and the elements
      from 2^(b + c - 1) up to 2^(b + c) in chunk c, in order. */
  lemma LocateByPowers(b: nat, index: nat)
    ensures var (c, o) := Locate(b, index);
      if index < Pow(2, b) then c == 0 && o == index
      else c > 0 && Pow(2, b + c - 1) <= index < Pow(2, b + c) && o == index - Pow(2, b + c - 1)
  {
    hide Pow, Msb;
    var n := ChunkUnits(b, index);
    if n > 0 {
      InUpperChunk(b, index, Msb(n));
      PowTwice(b + Msb(n));
    }
  }

  lemma PowTwice(n: nat)
    ensures Pow(2, n + 1) == 2 * Pow(2, n)
  {
  }

  /** Each position of each chunk belongs to exactly one index. */
  lemma LocateIsBijective(b: nat, c: nat, o: nat)
    requires o < ChunkSize(b, c)
    ensures Locate(b, ChunkStart(b, c) + o) == (c, o)
  {
    hide ChunkStart, ChunkSize, Locate;
    var (d, u) := Locate(b, ChunkStart(b, c) + o);
    if d < c { StartsGrow(b, d, c); }
    if c < d { StartsGrow(b, c, d); }
  }

  lemma ShiftedIsOne(b: nat, index: nat)
    requires Pow(2, b) <= index < 2 * Pow(2, b)
    ensures ChunkUnits(b, index) == 1
  {
    DivModUnique(index, Pow(2, b), 1, index - Pow(2, b));
  }

  /** The chunk that the string builder appends to when it holds `count` elements. */
  function BuilderChunk(b: nat, count: nat): (c: nat)
    ensures c == Locate(b, count).0
  {
    if count < Pow(2, b) then 0
    else if count < 2 * Pow(2, b) then
      ShiftedIsOne(b, count);
      1
    else Msb(ChunkUnits(b, count)) + 1
  }

  /** Chunks are only allocated for elements below the limit, so that their sizes are words. */
  ghost predicate Reached(b: nat, k: nat) {
    k > 0 ==> ChunkStart(b, k - 1) < LIMIT
  }

  /** `1u << k`. */
  function Shl32(k: nat): nat
    requires k < 32
  {
    Pow(2, k)
  }

  lemma ShiftFits(b: nat, k: nat, i: nat)
    requires 1 <= i < k && Reached(b, k)
    ensures b + i - 1 < 32 && Shl32(b + i - 1) == ChunkStart(b, i)
  {
    hide Pow;
    if i < k - 1 { StartsGrow(b, i, k - 1); }
    if b + i - 1 >= 31 {
      PowMonotone(2, 31, b + i - 1);
      PowTop();
    }
  }

  lemma PowTop()
    ensures Pow(2, 31) == LIMIT
  {
    hide Pow;
    Pow2Word();
    PowAdd(2, 31, 1);
    PowAdd(2, 1, 0);
    Pow2Small();
  }

  // What the chunks hold

  ghost function Flat<T>(cells: seq<seq<T>>): seq<T> {
    if cells == [] then [] else Flat(cells[..|cells| - 1]) + cells[|cells| - 1]
  }

  ghost predicate Shaped<T>(cells: seq<seq<T>>, b: nat) {
    forall i :: 0 <= i < |cells| ==> |cells[i]| == ChunkSize(b, i)
  }

  lemma {:induction false} FlatLength<T>(cells: seq<seq<T>>, b: nat)
    requires Shaped(cells, b)
    ensures |Flat(cells)| == ChunkStart(b, |cells|)
  {
    hide ChunkSize;
    if cells != [] {
      var n := |cells| - 1;
      FlatLength(cells[..n], b);
      NextChunk(b, n);
    }
  }

  lemma FlatUnfold<T>(cells: seq<seq<T>>, x: seq<T>)
    ensures Flat(cells + [x]) == Flat(cells) + x
  {
    assert (cells + [x])[..|cells|] == cells;
  }

  /** Growing by whole chunks moves nothing. */
  lemma {:induction false} FlatPrefix<T>(cells: seq<seq<T>>, i: nat)
    requires i <= |cells|
    ensures Flat(cells[..i]) <= Flat(cells)
  {
    if i < |cells| {
      var n := |cells| - 1;
      FlatPrefix(cells[..n], i);
      assert cells[..n][..i] == cells[..i];
    } else {
      assert cells[..i] == cells;
    }
  }

  /** A chunk is found in the whole behind the chunks before it. */
  lemma FlatChunk<T>(cells: seq<seq<T>>, b: nat, c: nat)
    requires Shaped(cells, b) && c < |cells|
    ensures ChunkStart(b, c) + |cells[c]| <= |Flat(cells)|
    ensures Flat(cells)[..ChunkStart(b, c)] == Flat(cells[..c])
    ensures Flat(cells)[ChunkStart(b, c)..ChunkStart(b, c) + |cells[c]|] == cells[c]
  {
    hide ChunkStart, ChunkSize, Flat;
    FlatPrefix(cells, c + 1);
    FlatLength(cells[..c], b);
    assert cells[..c + 1] == cells[..c] + [cells[c]];
    FlatUnfold(cells[..c], cells[c]);
    var whole, n := Flat(cells), ChunkStart(b, c);
    assert whole[..n + |cells[c]|] == Flat(cells[..c]) + cells[c];
    assert whole[..n] == whole[..n + |cells[c]|][..n];
    assert whole[n..n + |cells[c]|] == whole[..n + |cells[c]|][n..];
  }

  /** Overwriting a stretch of one chunk overwrites that stretch of the whole. */
  lemma {:induction false} FlatWrite<T>(cells: seq<seq<T>>, now: seq<seq<T>>, b: nat, c: nat, o: nat, w: seq<T>)
    requires Shaped(cells, b) && c < |cells| == |now| && o + |w| <= |cells[c]|
    requires forall i :: 0 <= i < |cells| && i != c ==> now[i] == cells[i]
    requires now[c] == cells[c][..o] + w + cells[c][o + |w|..]
    ensures ChunkStart(b, c) + o + |w| <= |Flat(cells)|
    ensures Flat(now) == Flat(cells)[..ChunkStart(b, c) + o] + w + Flat(cells)[ChunkStart(b, c) + o + |w|..]
  {
    hide ChunkStart, ChunkSize, Flat;
    var n, at := |cells| - 1, ChunkStart(b, c) + o;
    assert cells == cells[..n] + [cells[n]] && now == now[..n] + [now[n]];
    FlatUnfold(cells[..n], cells[n]);
    FlatUnfold(now[..n], now[n]);
    if c < n {
      FlatWrite(cells[..n], now[..n], b, c, o, w);
      JoinAfter(Flat(cells[..n]), cells[n], at, w);
    } else {
      assert now[..n] == cells[..n];
      FlatLength(cells[..n], b);
      JoinBefore(Flat(cells[..n]), cells[n], o, w);
    }
  }

  lemma JoinAfter<T>(low: seq<T>, high: seq<T>, at: nat, w: seq<T>)
    requires at + |w| <= |low|
    ensures (low[..at] + w + low[at + |w|..]) + high == (low + high)[..at] + w + (low + high)[at + |w|..]
  {
  }

  lemma JoinBefore<T>(low: seq<T>, high: seq<T>, o: nat, w: seq<T>)
    requires o + |w| <= |high|
    ensures var at := |low| + o;
      low + (high[..o] + w + high[o + |w|..]) == (low + high)[..at] + w + (low + high)[at + |w|..]
  {
  }

  // The array

  function PtrOf<T>(chunks: seq<array?<T>>, first: array<T>, stackFirst: bool, i: nat): array?<T>
    requires i < |chunks|
  {
    if stackFirst && i == 0 then first else chunks[i]
  }

  /** The chunks there are come first, are all different, and have their sizes. */
  ghost predicate Laid<T>(chunks: seq<array?<T>>, first: array<T>, stackFirst: bool, have: seq<array<T>>, b: nat) {
    && |have| <= |chunks|
    && (stackFirst ==> |have| >= 1 && chunks[0] == null)
    && (forall i :: 0 <= i < |chunks| ==> PtrOf(chunks, first, stackFirst, i) == if i < |have| then have[i] else null)
    && (forall i :: 0 <= i < |have| ==> have[i].Length == ChunkSize(b, i))
    && (forall i, j :: 0 <= i < j < |have| ==> have[i] != have[j])
  }

  lemma LaidMore<T>(chunks: seq<array?<T>>, first: array<T>, stackFirst: bool, have: seq<array<T>>, b: nat,
                    chunk: array<T>)
    requires Laid(chunks, first, stackFirst, have, b) && |have| < |chunks|
    requires chunk !in have && chunk.Length == ChunkSize(b, |have|)
    ensures Laid(chunks[|have| := chunk], first, stackFirst, have + [chunk], b)
  {
    hide ChunkSize;
    var now := chunks[|have| := chunk];
    forall i | 0 <= i < |now|
      ensures PtrOf(now, first, stackFirst, i) == if i < |have| + 1 then (have + [chunk])[i] else null
    {
      assert PtrOf(chunks, first, stackFirst, i) == if i < |have| then have[i] else null;
    }
  }

  class XArray<T(0)> {
    const N: nat
    const BASE_SHIFT: nat
    const STACK_FIRST: bool
    /** The chunk kept inline; empty unless `STACK_FIRST`, and then `Chunks[0]` is always null. */
    const FirstChunk: array<T>
    var Chunks: seq<array?<T>>
    var Count: nat
    /** The chunks there are, in order. */
    ghost var Have: seq<array<T>>

    constructor (n: nat, baseShift: nat, stackFirst: bool)
      requires n >= 1
      ensures Valid() && Contents() == [] && N == n && BASE_SHIFT == baseShift && STACK_FIRST == stackFirst
      ensures |Have| == (if stackFirst then 1 else 0) && forall i :: 0 <= i < |Have| ==> fresh(Have[i])
    {
      N, BASE_SHIFT, STACK_FIRST := n, baseShift, stackFirst;
      var filler: T := *;
      var first := new T[if stackFirst then Pow(2, baseShift) else 0](_ => filler);
      FirstChunk := first;
      Chunks := seq(n, _ => null);
      Count := 0;
      Have := if stackFirst then [first] else [];
    }

    /** `get_chunk_ptr`. */
    function ChunkPtr(i: nat): array?<T>
      requires i < |Chunks|
      reads this
    {
      PtrOf(Chunks, FirstChunk, STACK_FIRST, i)
    }

    ghost predicate Layout()
      reads this
    {
      |Chunks| == N && N >= 1 && Laid(Chunks, FirstChunk, STACK_FIRST, Have, BASE_SHIFT)
    }

    ghost predicate Valid()
      reads this
    {
      Layout() && Count <= ChunkStart(BASE_SHIFT, |Have|) && Reached(BASE_SHIFT, |Have|)
    }

    ghost function Cells(): (cells: seq<seq<T>>)
      requires Valid()
      reads this, Have
      ensures |cells| == |Have| && Shaped(cells, BASE_SHIFT)
      ensures forall i :: 0 <= i < |Have| ==> cells[i] == Have[i][..]
    {
      seq(|Have|, i requires 0 <= i < |Have| reads this, Have => Have[i][..])
    }

    ghost function Contents(): (s: seq<T>)
      requires Valid()
      reads this, Have
      ensures |s| == Count
    {
      FlatLength(Cells(), BASE_SHIFT);
      Flat(Cells())[..Count]
    }

    /** `get`; negative indices count from the end. */
    method Get(index: int) returns (x: T)
      requires Valid() && -(Count as int) <= index < Count <= LIMIT
      ensures x == Contents()[if index < 0 then Count + index else index]
    {
      var i := if index < 0 then Count + index else index;
      hide Locate, ChunkStart, ChunkSize, Flat;
      var (c, o) := Locate(BASE_SHIFT, i);
      InRange(BASE_SHIFT, i, |Have|);
      CellAt(Cells(), BASE_SHIFT, c, o);
      var chunk := ChunkPtr(c);
      x := chunk[o];
    }

    /** The first half of `reserve`: how much the chunks hold, and the first one missing. */
    method Capacity() returns (capacity: nat, next: nat)
      requires Valid()
      ensures next == |Have| <= N && capacity == ChunkStart(BASE_SHIFT, next)
    {
      hide ChunkStart, ChunkSize, Reached;
      BaseChunks(BASE_SHIFT);
      ghost var k := |Have|;
      capacity, next := 0, 0;
      if STACK_FIRST {
        capacity, next := capacity + Pow(2, BASE_SHIFT), 1;
      } else if Chunks[0] != null {
        assert ChunkPtr(0) == Chunks[0];
        capacity, next := capacity + Pow(2, BASE_SHIFT), 1;
      } else {
        assert ChunkPtr(0) == Chunks[0];
      }
      if next <= 1 && N > 1 {
        assert ChunkPtr(1) == Chunks[1];
        if Chunks[1] != null { capacity, next := capacity + Pow(2, BASE_SHIFT), 2; }
      }
      var i := 2;
      while i < N
        invariant 2 <= i && next == (if k <= 2 then k else i) && next <= k
        invariant capacity == ChunkStart(BASE_SHIFT, next)
      {
        assert ChunkPtr(i) == Chunks[i];
        if Chunks[i] == null { break; }
        ShiftFits(BASE_SHIFT, k, i);
        LaterChunk(BASE_SHIFT, i);
        capacity := capacity + Shl32(BASE_SHIFT + i - 1);
        i := i + 1;
        next := i;
      }
    }

    /** One more chunk, of the size that `reserve` gives it. */
    method AddChunk(i: nat)
      requires Valid() && i == |Have| < N && ChunkStart(BASE_SHIFT, i) < LIMIT
      modifies this
      ensures Valid() && Count == old(Count) && Contents() == old(Contents())
      ensures |Have| == i + 1 && Have[..i] == old(Have) && fresh(Have[i])
    {
      hide ChunkStart, ChunkSize, Flat, Laid, Reached;
      BaseChunks(BASE_SHIFT);
      NextChunk(BASE_SHIFT, i);
      ghost var cells := Cells();
      SizeOfNew(BASE_SHIFT, i);
      var filler: T := *;
      var size := if i <= 1 then Pow(2, BASE_SHIFT) else Shl32(BASE_SHIFT + i - 1);
      var chunk := new T[size](_ => filler);
      LaidMore(Chunks, FirstChunk, STACK_FIRST, Have, BASE_SHIFT, chunk);
      Chunks := Chunks[i := chunk];
      Have := Have + [chunk];
      assert Cells() == cells + [chunk[..]];
      FlatUnfold(cells, chunk[..]);
      FlatLength(cells, BASE_SHIFT);
      assert (Flat(cells) + chunk[..])[..Count] == Flat(cells)[..Count];
    }

    /** `reserve`: chunks are added until `newSize` elements fit; those there are stay where they are. */
    method Reserve(newSize: nat)
      requires Valid() && newSize <= LIMIT && newSize <= ChunkStart(BASE_SHIFT, N)
      modifies this
      ensures Valid() && Count == old(Count) && Contents() == old(Contents())
      ensures newSize <= ChunkStart(BASE_SHIFT, |Have|)
      ensures old(Have) <= Have && forall i :: |old(Have)| <= i < |Have| ==> fresh(Have[i])
      ensures |Have| > |old(Have)| ==> newSize > ChunkStart(BASE_SHIFT, |Have| - 1)
    {
      hide ChunkStart, ChunkSize, Flat, Layout, Reached;
      if newSize <= Count { return; }
      var capacity, i := Capacity();
      if newSize <= capacity { return; }
      while i < N && capacity < newSize
        invariant Valid() && i == |Have| <= N && capacity == ChunkStart(BASE_SHIFT, i)
        invariant Count == old(Count) && Contents() == old(Contents())
        invariant old(Have) <= Have && forall j :: |old(Have)| <= j < |Have| ==> fresh(Have[j])
        invariant |Have| > |old(Have)| ==> newSize > ChunkStart(BASE_SHIFT, |Have| - 1)
      {
        ghost var have := Have;
        AddChunk(i);
        assert Have[..i] == have;
        NextChunk(BASE_SHIFT, i);
        capacity := capacity + ChunkSize(BASE_SHIFT, i);
        i := i + 1;
      }
    }

    /** A `memcpy` into chunk `c`. */
    method CopyInto(c: nat, o: nat, data: seq<T>)
      requires Valid() && c < |Have| && o + |data| <= Have[c].Length
      modifies Have[c]
      ensures Valid()
      ensures var at := ChunkStart(BASE_SHIFT, c) + o;
        at + |data| <= |old(Flat(Cells()))|
        && Flat(Cells()) == old(Flat(Cells()))[..at] + data + old(Flat(Cells()))[at + |data|..]
    {
      hide ChunkStart, ChunkSize, Flat, Reached;
      ghost var cells := Cells();
      var chunk := ChunkPtr(c);
      forall k | 0 <= k < |data| { chunk[o + k] := data[k]; }
      assert chunk[..] == cells[c][..o] + data + cells[c][o + |data|..];
      FlatWrite(cells, Cells(), BASE_SHIFT, c, o, data);
    }

    /** `add` of one element. */
    method Add(element: T)
      requires Valid() && Count + 1 <= LIMIT && Count + 1 <= ChunkStart(BASE_SHIFT, N)
      modifies this, Have
      ensures Valid() && Contents() == old(Contents()) + [element]
      ensures old(Have) <= Have && forall j :: |old(Have)| <= j < |Have| ==> fresh(Have[j])
      ensures |Have| > |old(Have)| ==> Count > ChunkStart(BASE_SHIFT, |Have| - 1)
    {
      hide ChunkStart, ChunkSize, Flat, Laid, Reached, Locate;
      Reserve(Count + 1);
      var (c, o) := Locate(BASE_SHIFT, Count);
      InRange(BASE_SHIFT, Count, |Have|);
      ghost var whole := Flat(Cells());
      assert Cells()[c] == Have[c][..];
      CopyInto(c, o, [element]);
      StartsGrow(BASE_SHIFT, c, |Have|);
      ghost var cells := Cells();
      Count := Count + 1;
      assert Cells() == cells;
      Appended(whole, Flat(cells), Count - 1, [element]);
    }

    /** The bulk `add` of the string builder. */
    method AddAll(data: seq<T>)
      requires Valid() && Count + |data| <= LIMIT && Count + |data| <= ChunkStart(BASE_SHIFT, N)
      modifies this, Have
      ensures Valid() && Contents() == old(Contents()) + data
      ensures old(Have) <= Have && forall j :: |old(Have)| <= j < |Have| ==> fresh(Have[j])
      ensures |Have| > |old(Have)| ==> Count > ChunkStart(BASE_SHIFT, |Have| - 1)
    {
      hide ChunkStart, ChunkSize, Flat, Layout, Reached, Locate, BuilderChunk;
      if |data| <= 0 { return; }
      ghost var before := Contents();
      Reserve(Count + |data|);
      ghost var have, count := Have, Count;
      var i := 0;
      while i < |data|
        invariant 0 <= i <= |data| && Count == count + i && Have == have
        invariant Valid() && Contents() == before + data[..i]
      {
        var chunkIdx := BuilderChunk(BASE_SHIFT, Count);
        InRange(BASE_SHIFT, Count, |Have|);
        var chunkSize, chunkStart := ChunkSize(BASE_SHIFT, chunkIdx), ChunkStart(BASE_SHIFT, chunkIdx);
        var offsetInChunk := Count - chunkStart;
        var spaceLeft := chunkSize - offsetInChunk;
        assert spaceLeft > 0;
        var toCopy := if spaceLeft < |data| - i then spaceLeft else |data| - i;
        AppendSome(chunkIdx, offsetInChunk, data[i..i + toCopy]);
        assert data[..i] + data[i..i + toCopy] == data[..i + toCopy];
        i := i + toCopy;
      }
      assert data[..i] == data;
    }

    /** One turn of the bulk `add`: elements copied behind those there are. */
    method AppendSome(c: nat, o: nat, data: seq<T>)
      requires Valid() && c < |Have| && Count == ChunkStart(BASE_SHIFT, c) + o && o + |data| <= ChunkSize(BASE_SHIFT, c)
      modifies this`Count, Have[c]
      ensures Valid() && Count == old(Count) + |data| && Contents() == old(Contents()) + data
    {
      hide ChunkStart, ChunkSize, Flat, Laid, Reached;
      ghost var whole := Flat(Cells());
      assert Cells()[c] == Have[c][..];
      CopyInto(c, o, data);
      StartsGrow(BASE_SHIFT, c, |Have|);
      ghost var cells := Cells();
      Count := Count + |data|;
      assert Cells() == cells;
      Appended(whole, Flat(cells), Count - |data|, data);
    }

    /** `builder_to_string`: the visited parts of the chunks, one after the other. */
    method ToSequence() returns (result: seq<T>)
      requires Valid()
      ensures result == Contents()
    {
      hide ChunkStart, ChunkSize, Flat, Reached, Laid;
      result := [];
      var processed: nat, i: nat := 0, 0;
      FlatLength(Cells(), BASE_SHIFT);
      BaseChunks(BASE_SHIFT);
      LaidFits(Chunks, FirstChunk, STACK_FIRST, Have, BASE_SHIFT);
      while i < N && processed < Count
        invariant i <= N && processed <= Count && result == Contents()[..processed]
        invariant processed == Count || processed == ChunkStart(BASE_SHIFT, i)
      {
        Visited(Chunks, FirstChunk, STACK_FIRST, Have, BASE_SHIFT, i);
        var chunkSize, ptr := ChunkSize(BASE_SHIFT, i), ChunkPtr(i);
        CapacityLeft(BASE_SHIFT, i, |Have|);
        if ptr == null { break; }
        var elements := if chunkSize < Count - processed then chunkSize else Count - processed;
        FlatChunk(Cells(), BASE_SHIFT, i);
        NextPart(Flat(Cells()), Count, processed, ptr[..], elements);
        NextChunk(BASE_SHIFT, i);
        result := result + ptr[..elements];
        processed := processed + elements;
        i := i + 1;
      }
      if processed < Count { CapacityLeft(BASE_SHIFT, i, |Have|); }
      assert Contents()[..Count] == Contents();
    }
  }

  lemma Appended<T>(was: seq<T>, now: seq<T>, count: nat, data: seq<T>)
    requires count + |data| <= |was| && now == was[..count] + data + was[count + |data|..]
    ensures now[..count + |data|] == was[..count] + data
  {
  }

  lemma NextPart<T>(whole: seq<T>, count: nat, at: nat, chunk: seq<T>, n: nat)
    requires at + n <= count <= |whole| && n <= |chunk| && at + |chunk| <= |whole|
    requires whole[at..at + |chunk|] == chunk
    ensures whole[..count][..at + n] == whole[..count][..at] + chunk[..n]
  {
    assert chunk[..n] == whole[at..at + n];
  }

  lemma Visited<T>(chunks: seq<array?<T>>, first: array<T>, stackFirst: bool, have: seq<array<T>>, b: nat, i: nat)
    requires Laid(chunks, first, stackFirst, have, b) && i < |chunks|
    ensures PtrOf(chunks, first, stackFirst, i) == if i < |have| then have[i] else null
    ensures i < |have| ==> have[i].Length == ChunkSize(b, i)
  {
  }

  lemma LaidFits<T>(chunks: seq<array?<T>>, first: array<T>, stackFirst: bool, have: seq<array<T>>, b: nat)
    requires Laid(chunks, first, stackFirst, have, b)
    ensures |have| <= |chunks|
  {
  }

  /** Past the last chunk there is no capacity left. */
  lemma CapacityLeft(b: nat, i: nat, k: nat)
    ensures i >= k ==> ChunkStart(b, k) <= ChunkStart(b, i)
  {
    hide ChunkStart, ChunkSize;
    if k < i { StartsGrow(b, k, i); }
  }

  lemma BaseChunks(b: nat)
    ensures ChunkStart(b, 0) == 0 && ChunkStart(b, 1) == Pow(2, b) && ChunkStart(b, 2) == Pow(2, b) + Pow(2, b)
    ensures ChunkSize(b, 0) == ChunkSize(b, 1) == Pow(2, b)
  {
  }

  lemma LaterChunk(b: nat, i: nat)
    requires i >= 2
    ensures ChunkStart(b, i + 1) == ChunkStart(b, i) + ChunkStart(b, i)
  {
    NextChunk(b, i);
  }

  lemma SizeOfNew(b: nat, i: nat)
    requires ChunkStart(b, i) < LIMIT
    ensures i > 1 ==> b + i - 1 < 32 && Shl32(b + i - 1) == ChunkSize(b, i)
    ensures i <= 1 ==> Pow(2, b) == ChunkSize(b, i)
    ensures Reached(b, i + 1)
  {
    if i > 1 { ShiftFits(b, i + 1, i); }
  }

  /** An index below the capacity of `k` chunks lies in one of them. */
  lemma InRange(b: nat, index: nat, k: nat)
    requires index < ChunkStart(b, k)
    ensures Locate(b, index).0 < k
  {
    hide ChunkStart, ChunkSize, Locate;
    var c := Locate(b, index).0;
    if k < c { StartsGrow(b, k, c); }
  }

  lemma CellAt<T>(cells: seq<seq<T>>, b: nat, c: nat, o: nat)
    requires Shaped(cells, b) && c < |cells| && o < |cells[c]|
    ensures ChunkStart(b, c) + o < |Flat(cells)| && Flat(cells)[ChunkStart(b, c) + o] == cells[c][o]
  {
    hide ChunkStart, ChunkSize, Flat;
    FlatChunk(cells, b, c);
    var n := ChunkStart(b, c);
    assert Flat(cells)[n..n + |cells[c]|][o] == Flat(cells)[n + o];
  }
}
