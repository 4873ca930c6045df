/** The arena allocator of `src/mpool.c`, for requests that fit into a chunk with their header. */
module Mpool {
  import opened Bits
  import opened Options

  type Byte = x: int | 0 <= x < 256

  const HEADER: nat := 8

  /** `sz` rounded up to a multiple of 8. */
  function Rounded(sz: nat): (r: nat)
    ensures sz <= r < sz + 8 && r % 8 == 0
  {
    if sz % 8 == 0 then sz else sz + (8 - sz % 8)
  }

  predicate Fits(chunksz: nat, sz: nat) {
    Rounded(sz) + HEADER <= chunksz
  }

  /** A block that was handed out: the chunk, where its header begins and how many bytes follow the header. */
  datatype Block = Block(chunk: nat, at: nat, size: nat) {
    function Data(): nat { at + HEADER }

    function End(): nat { at + HEADER + size }
  }

  predicate Disjoint(b: Block, c: Block) {
    b.chunk != c.chunk || b.End() <= c.at || c.End() <= b.at
  }

  /** Where the next block will come from. */
  datatype Cursor = Cursor(chunk: nat, pos: nat)

  function Place(chunksz: nat, c: Cursor, sz: nat): Block {
    if chunksz - c.pos < Rounded(sz) + HEADER then Block(c.chunk + 1, 0, Rounded(sz))
      else Block(c.chunk, c.pos, Rounded(sz))
  }

  function Next(chunksz: nat, c: Cursor, sz: nat): Cursor {
    Cursor(Place(chunksz, c, sz).chunk, Place(chunksz, c, sz).End())
  }

  /** The cursor and the blocks after a sequence of requests to a fresh or reset pool. */
  function CursorAfter(chunksz: nat, requests: seq<nat>): Cursor {
    if requests == [] then Cursor(0, 0)
    else Next(chunksz, CursorAfter(chunksz, requests[..|requests| - 1]), requests[|requests| - 1])
  }

  function Handed(chunksz: nat, requests: seq<nat>): seq<Block> {
    if requests == [] then []
    else
      var before := requests[..|requests| - 1];
      Handed(chunksz, before) + [Place(chunksz, CursorAfter(chunksz, before), requests[|requests| - 1])]
  }

  /** All blocks lie within their chunks, before the cursor, and do not overlap, headers included. */
  lemma {:induction false} HandedApart(chunksz: nat, requests: seq<nat>)
    requires forall r :: r in requests ==> Fits(chunksz, r)
    ensures CursorAfter(chunksz, requests).pos <= chunksz
    ensures |Handed(chunksz, requests)| == |requests|
    ensures forall b :: b in Handed(chunksz, requests) ==>
      && b.chunk <= CursorAfter(chunksz, requests).chunk && b.End() <= chunksz
      && (b.chunk == CursorAfter(chunksz, requests).chunk ==> b.End() <= CursorAfter(chunksz, requests).pos)
    ensures forall i, j :: 0 <= i < j < |requests| ==>
      Disjoint(Handed(chunksz, requests)[i], Handed(chunksz, requests)[j])
    decreases |requests|
  {
    if requests != [] {
      var before := requests[..|requests| - 1];
      HandedApart(chunksz, before);
      assert Fits(chunksz, requests[|requests| - 1]);
    }
  }

  /** The chunks of the earlier requests are among those of the later ones. */
  lemma HandedMore(chunksz: nat, requests: seq<nat>, sz: nat)
    ensures var more := requests + [sz];
      && CursorAfter(chunksz, more) == Next(chunksz, CursorAfter(chunksz, requests), sz)
      && Handed(chunksz, more) == Handed(chunksz, requests) + [Place(chunksz, CursorAfter(chunksz, requests), sz)]
  {
    assert (requests + [sz])[..|requests|] == requests;
  }

  /** Where a block for `sz` bytes stands: right behind the block handed out last when it fits there in its chunk, and
      else at the beginning of the next chunk. */
  predicate Packed(chunksz: nat, blocks: seq<Block>, b: Block, sz: nat) {
    b == if blocks == [] then Block(0, 0, Rounded(sz))
         else
           var last := blocks[|blocks| - 1];
           if last.End() + HEADER + Rounded(sz) <= chunksz then Block(last.chunk, last.End(), Rounded(sz))
           else Block(last.chunk + 1, 0, Rounded(sz))
  }

  lemma PlacePacks(chunksz: nat, requests: seq<nat>, sz: nat)
    requires (forall r :: r in requests ==> Fits(chunksz, r)) && Fits(chunksz, sz)
    ensures Packed(chunksz, Handed(chunksz, requests), Place(chunksz, CursorAfter(chunksz, requests), sz), sz)
  {
    if requests != [] {
      var n := |requests| - 1;
      assert requests == requests[..n] + [requests[n]];
      HandedMore(chunksz, requests[..n], requests[n]);
    }
  }

  /** The bytes of a word, the lowest first. */
  function WordBytes(x: nat, n: nat): (d: seq<Byte>)
    ensures |d| == n
  {
    if n == 0 then [] else [x % 256] + WordBytes(x / 256, n - 1)
  }

  function WordOf(d: seq<Byte>): nat {
    if d == [] then 0 else d[0] + 256 * WordOf(d[1..])
  }

  /** How many values `n` bytes have. */
  function Capacity(n: nat): nat {
    if n == 0 then 1 else 256 * Capacity(n - 1)
  }

  /** A word that fits reads back from its bytes. */
  lemma {:induction false} WordReadsBack(x: nat, n: nat)
    requires x < Capacity(n)
    ensures WordOf(WordBytes(x, n)) == x
    decreases n
  {
    if n > 0 {
      WordReadsBack(x / 256, n - 1);
      assert WordBytes(x, n)[1..] == WordBytes(x / 256, n - 1);
    }
  }

  lemma HeaderCapacity()
    ensures Capacity(HEADER) == WORD_LIMIT
  {
    assert Capacity(4) == 256 * (256 * (256 * (256 * Capacity(0))));
    assert Capacity(8) == 256 * (256 * (256 * (256 * Capacity(4))));
  }

  /** The bytes of all chunks. */
  type Memory = seq<seq<Byte>>

  predicate InBounds(m: Memory, b: Block) {
    b.chunk < |m| && b.End() <= |m[b.chunk]|
  }

  /** The size word in the header of a block. */
  function SizeWord(m: Memory, b: Block): nat
    requires InBounds(m, b)
  {
    WordOf(m[b.chunk][b.at..b.Data()])
  }

  /** Header and data of a block. */
  function Contents(m: Memory, b: Block): seq<Byte>
    requires InBounds(m, b)
  {
    m[b.chunk][b.at..b.End()]
  }

  /** The first `n` bytes of data. */
  function DataBytes(m: Memory, b: Block, n: nat): seq<Byte>
    requires InBounds(m, b) && n <= b.size
  {
    m[b.chunk][b.Data()..b.Data() + n]
  }

  /** Every block lies in its chunk and its header holds its size. */
  ghost predicate Headed(m: Memory, blocks: seq<Block>) {
    forall b {:trigger InBounds(m, b)} :: b in blocks ==> InBounds(m, b) && SizeWord(m, b) == b.size
  }

  /** From `m` to `m'` there may be more chunks, and bytes `lo` up to `hi` of one chunk may be others. */
  ghost predicate OnlyWithin(m: Memory, m': Memory, chunk: nat, lo: nat, hi: nat) {
    && |m| <= |m'|
    && forall i {:trigger m'[i]} {:trigger m[i]} :: 0 <= i < |m| ==>
         && |m'[i]| == |m[i]|
         && forall k :: 0 <= k < |m[i]| && !(i == chunk && lo <= k < hi) ==> m'[i][k] == m[i][k]
  }

  lemma WithinBoth(m: Memory, m1: Memory, m2: Memory, chunk: nat, lo: nat, mid: nat, hi: nat)
    requires OnlyWithin(m, m1, chunk, lo, mid) && OnlyWithin(m1, m2, chunk, mid, hi) && lo <= mid <= hi
    ensures OnlyWithin(m, m2, chunk, lo, hi)
  {
  }

  /** What is written elsewhere leaves a block as it is. */
  lemma ContentsStay(m: Memory, m': Memory, b: Block, chunk: nat, lo: nat, hi: nat)
    requires InBounds(m, b) && OnlyWithin(m, m', chunk, lo, hi)
    requires b.chunk != chunk || b.End() <= lo || hi <= b.at
    ensures InBounds(m', b) && Contents(m', b) == Contents(m, b)
  {
    assert |m'[b.chunk]| == |m[b.chunk]|;
  }

  /** The header and the data are parts of the contents. */
  lemma SizeStays(m: Memory, m': Memory, b: Block)
    requires InBounds(m, b) && InBounds(m', b) && Contents(m', b) == Contents(m, b)
    ensures SizeWord(m', b) == SizeWord(m, b)
  {
    SliceOfSlice(m[b.chunk], b.at, b.End(), b.at, b.Data());
    SliceOfSlice(m'[b.chunk], b.at, b.End(), b.at, b.Data());
  }

  lemma DataStay(m: Memory, m': Memory, b: Block, n: nat)
    requires InBounds(m, b) && InBounds(m', b) && Contents(m', b) == Contents(m, b) && n <= b.size
    ensures DataBytes(m', b, n) == DataBytes(m, b, n)
  {
    SliceOfSlice(m[b.chunk], b.at, b.End(), b.Data(), b.Data() + n);
    SliceOfSlice(m'[b.chunk], b.at, b.End(), b.Data(), b.Data() + n);
  }

  lemma SliceOfSlice(s: seq<Byte>, from: nat, to: nat, lo: nat, hi: nat)
    requires from <= lo <= hi <= to <= |s|
    ensures s[lo..hi] == s[from..to][lo - from..hi - from]
  {
    var c := s[from..to];
    assert forall k :: lo <= k < hi ==> c[k - from] == s[k];
  }

  ghost predicate Kept(m: Memory, m': Memory, b: Block) {
    InBounds(m, b) && InBounds(m', b) && Contents(m', b) == Contents(m, b)
  }

  /** Writing to the data of one of the blocks leaves all other blocks as they are. */
  lemma OthersStay(chunksz: nat, requests: seq<nat>, m: Memory, m': Memory, b: Block, lo: nat, c: Block)
    requires (forall r :: r in requests ==> Fits(chunksz, r)) && Headed(m, Handed(chunksz, requests))
    requires b in Handed(chunksz, requests) && c in Handed(chunksz, requests) && c != b
    requires b.Data() <= lo && OnlyWithin(m, m', b.chunk, lo, b.End())
    ensures Kept(m, m', c) && SizeWord(m', c) == c.size
  {
    HandedApart(chunksz, requests);
    assert InBounds(m, c);
    ContentsStay(m, m', c, b.chunk, lo, b.End());
    SizeStays(m, m', c);
  }

  /** The bytes in front of what is written stay. */
  lemma FrontStays(m: Memory, m': Memory, b: Block, lo: nat)
    requires InBounds(m, b) && b.Data() <= lo <= b.End() && OnlyWithin(m, m', b.chunk, lo, b.End())
    ensures InBounds(m', b) && SizeWord(m', b) == SizeWord(m, b)
    ensures DataBytes(m', b, lo - b.Data()) == DataBytes(m, b, lo - b.Data())
  {
    assert |m'[b.chunk]| == |m[b.chunk]|;
    assert m'[b.chunk][b.at..b.Data()] == m[b.chunk][b.at..b.Data()];
    assert m'[b.chunk][b.Data()..lo] == m[b.chunk][b.Data()..lo];
  }

  lemma WrittenHeaded(chunksz: nat, requests: seq<nat>, m: Memory, m': Memory, b: Block, lo: nat)
    requires (forall r :: r in requests ==> Fits(chunksz, r)) && b in Handed(chunksz, requests)
    requires Headed(m, Handed(chunksz, requests))
    requires b.Data() <= lo <= b.End() && OnlyWithin(m, m', b.chunk, lo, b.End())
    ensures Headed(m', Handed(chunksz, requests)) && InBounds(m, b)
    ensures forall c :: c in Handed(chunksz, requests) && c != b ==> Kept(m, m', c)
  {
    var blocks := Handed(chunksz, requests);
    assert InBounds(m, b);
    FrontStays(m, m', b, lo);
    forall c | c in blocks && c != b
      ensures Kept(m, m', c) && SizeWord(m', c) == c.size
    {
      OthersStay(chunksz, requests, m, m', b, lo, c);
    }
  }

  /** A new block, its header and its filling: all headers are right, and all other blocks stay. */
  lemma AddedHeaded(blocks: seq<Block>, m: Memory, m0: Memory, m1: Memory, m2: Memory, b: Block)
    requires Headed(m, blocks) && forall c :: c in blocks ==> Disjoint(c, b)
    requires |m| <= |m0| && m0[..|m|] == m && InBounds(m0, b)
    requires OnlyWithin(m0, m1, b.chunk, b.at, b.Data()) && InBounds(m1, b) && SizeWord(m1, b) == b.size
    requires OnlyWithin(m1, m2, b.chunk, b.Data(), b.End())
    ensures Headed(m2, blocks + [b]) && OnlyWithin(m, m2, b.chunk, b.at, b.End())
    ensures forall c :: c in blocks ==> Kept(m, m2, c)
  {
    WithinBoth(m0, m1, m2, b.chunk, b.at, b.Data(), b.End());
    assert forall i :: 0 <= i < |m| ==> m0[i] == m[i];
    forall c | c in blocks
      ensures Kept(m, m2, c) && SizeWord(m2, c) == c.size
    {
      assert InBounds(m, c);
      ContentsStay(m, m2, c, b.chunk, b.at, b.End());
      SizeStays(m, m2, c);
    }
    assert |m2[b.chunk]| == |m1[b.chunk]|;
    assert m2[b.chunk][b.at..b.Data()] == m1[b.chunk][b.at..b.Data()];
  }

  lemma KeptBoth(blocks: seq<Block>, m: Memory, m1: Memory, m2: Memory, b: Block)
    requires b !in blocks && OnlyWithin(m, m1, b.chunk, b.at, b.End()) && OnlyWithin(m1, m2, b.chunk, b.Data(), b.End())
    requires forall c :: c in blocks ==> Kept(m, m1, c)
    requires forall c :: c in blocks ==> Kept(m1, m2, c)
    ensures OnlyWithin(m, m2, b.chunk, b.at, b.End()) && forall c :: c in blocks ==> Kept(m, m2, c)
  {
  }

  class Pool {
    const chunksz: Word
    /** How many chunks the arena has room for. */
    var slots: nat
    var currentChunk: nat
    var lastChunk: nat
    var currentPos: nat
    /** All chunks ever allocated. */
    var arena: seq<array<Byte>>
    var freed: seq<array<Byte>>
    /** The requests since the last reset. */
    ghost var requests: seq<nat>

    /** The pointers handed out since the last reset are those of the requests alone. */
    ghost predicate Booked()
      reads this
    {
      && ArenaOk()
      && (forall r :: r in requests ==> Fits(chunksz, r))
      && Cursor(currentChunk, currentPos) == CursorAfter(chunksz, requests)
      && freed == []
    }

    ghost predicate Valid()
      reads this, Chunks()
    {
      Booked() && Headed(Bytes(), Blocks())
    }

    /** The chunks are all different, and the arena has room for them. */
    ghost predicate ArenaOk()
      reads this`arena, this`slots, this`currentChunk, this`lastChunk
    {
      && |arena| == Max(currentChunk, lastChunk) + 1 <= slots
      && (forall i :: 0 <= i < |arena| ==> arena[i].Length == chunksz as nat)
      && Distinct()
    }

    ghost predicate Distinct()
      reads this`arena
    {
      forall i, j :: 0 <= i < j < |arena| ==> arena[i] != arena[j]
    }

    ghost function Blocks(): seq<Block>
      reads this`requests
    {
      Handed(chunksz, requests)
    }

    ghost function Chunks(): set<object>
      reads this`arena
    {
      set c | c in arena
    }

    ghost function Bytes(): (m: Memory)
      reads this`arena, arena
      ensures |m| == |arena| && forall i {:trigger m[i]} :: 0 <= i < |m| ==> m[i] == arena[i][..]
    {
      var chunks := arena;
      seq(|chunks|, i requires 0 <= i < |chunks| reads chunks => chunks[i][..])
    }

    /** `mpool_ctx_init` */
    constructor (chunksz: Word)
      ensures Valid() && requests == [] && this.chunksz == chunksz && fresh(Chunks())
    {
      this.chunksz := chunksz;
      slots := 1;
      currentChunk, lastChunk, currentPos := 0, 0, 0;
      var chunk := new Byte[chunksz](_ => 0);
      arena := [chunk];
      freed := [];
      requests := [];
    }

    /** `mpool_ctx_reset`: keeps all chunks. */
    method Reset()
      requires Valid()
      modifies this
      ensures Valid() && requests == [] && arena == old(arena)
    {
      lastChunk := Max(lastChunk, currentChunk);
      currentChunk := 0;
      currentPos := 0;
      requests := [];
    }

    /** `new_chunk` for a chunk of the usual size. */
    method NewChunk()
      requires ArenaOk()
      modifies this`slots, this`currentChunk, this`currentPos, this`arena
      ensures ArenaOk() && currentChunk == old(currentChunk) + 1 && currentPos == 0
      ensures old(arena) <= arena && fresh(Chunks() - old(Chunks()))
    {
      if currentChunk >= lastChunk {
        currentChunk := currentChunk + 1;
        if currentChunk == slots {
          slots := slots * 2;
        }
        assert currentChunk == |arena| < slots;
        var chunk := new Byte[chunksz](_ => 0);
        arena := arena + [chunk];
      } else {
        currentChunk := currentChunk + 1;
      }
      currentPos := 0;
    }

    /** The bookkeeping of `mpool_malloc`. */
    method Take(sz: nat) returns (res: Block)
      requires Booked() && Fits(chunksz, sz)
      modifies this
      ensures Booked() && requests == old(requests) + [sz] && Blocks() == old(Blocks()) + [res]
      ensures old(arena) <= arena && fresh(Chunks() - old(Chunks()))
      ensures res == Place(chunksz, CursorAfter(chunksz, old(requests)), sz)
      ensures res.chunk < |arena| && res.End() <= chunksz as nat
    {
      CursorBound(chunksz, requests);
      HandedMore(chunksz, requests, sz);
      var size := Rounded(sz);
      if chunksz - currentPos < size + HEADER {
        NewChunk();
      }
      res := Block(currentChunk, currentPos, size);
      currentPos := currentPos + size + HEADER;
      requests := requests + [sz];
    }

    /** The header of a block. */
    method WriteHeader(b: Block)
      requires Distinct() && b.chunk < |arena| && b.End() <= arena[b.chunk].Length < WORD_LIMIT
      modifies arena[b.chunk]
      ensures OnlyWithin(old(Bytes()), Bytes(), b.chunk, b.at, b.Data())
      ensures InBounds(Bytes(), b) && SizeWord(Bytes(), b) == b.size
    {
      var chunk, word := arena[b.chunk], WordBytes(b.size, HEADER);
      forall k | 0 <= k < HEADER {
        chunk[b.at + k] := word[k];
      }
      assert chunk[b.at..b.Data()] == word;
      HeaderCapacity();
      WordReadsBack(b.size, HEADER);
    }

    method ReadHeader(b: Block) returns (size: nat)
      requires InBounds(Bytes(), b)
      ensures size == SizeWord(Bytes(), b)
    {
      size := WordOf(arena[b.chunk][b.at..b.at + HEADER]);
    }

    /** `memset` on the data of a block, from offset `from` on. */
    method Fill(b: Block, from: nat, value: Byte)
      requires Distinct() && b.chunk < |arena| && b.End() <= arena[b.chunk].Length
      modifies arena[b.chunk]
      ensures OnlyWithin(old(Bytes()), Bytes(), b.chunk, b.Data() + from, b.End())
    {
      var chunk := arena[b.chunk];
      forall k | b.Data() + from <= k < b.End() {
        chunk[k] := value;
      }
    }

    /** `memcpy` of the data of a block to a longer one. */
    method Copy(p: Block, q: Block)
      requires Distinct() && InBounds(Bytes(), p) && InBounds(Bytes(), q) && p.size <= q.size && Disjoint(p, q)
      modifies arena[q.chunk]
      ensures OnlyWithin(old(Bytes()), Bytes(), q.chunk, q.Data(), q.End()) && InBounds(Bytes(), q)
      ensures DataBytes(Bytes(), q, p.size) == old(DataBytes(Bytes(), p, p.size))
    {
      var from, to := arena[p.chunk], arena[q.chunk];
      forall k | 0 <= k < p.size {
        to[q.Data() + k] := from[p.Data() + k];
      }
      assert to[q.Data()..q.Data() + p.size] == old(from[p.Data()..p.End()]);
    }

    /** `mpool_malloc`: the block is a function of the requests since the last reset, its header holds its size, and no
        byte outside of it changes, in particular none of another block. */
    method Malloc(sz: nat) returns (res: Block)
      requires Valid() && Fits(chunksz, sz)
      modifies this, Chunks()
      ensures Valid() && requests == old(requests) + [sz] && Blocks() == old(Blocks()) + [res]
      ensures Packed(chunksz, old(Blocks()), res, sz)
      ensures old(arena) <= arena && fresh(Chunks() - old(Chunks()))
      ensures res == Place(chunksz, CursorAfter(chunksz, old(requests)), sz)
      ensures OnlyWithin(old(Bytes()), Bytes(), res.chunk, res.at, res.End())
      ensures forall b :: b in old(Blocks()) ==> Kept(old(Bytes()), Bytes(), b)
    {
      ghost var m, blocks := Bytes(), Blocks();
      AllApart(chunksz, requests, sz);
      PlacePacks(chunksz, requests, sz);
      res := Take(sz);
      ghost var m0 := Bytes();
      WriteHeader(res);
      ghost var m1 := Bytes();
      Fill(res, 0, 0xA5);
      AddedHeaded(blocks, m, m0, m1, Bytes(), res);
    }

    /** `mpool_realloc`, `None` being the null pointer.  A block that is too small is copied to a new one, any other
        stays where it is; its data is the same as far as both go, and all other blocks stay as they are. */
    method Realloc(p: Option<Block>, sz: nat) returns (res: Block)
      requires Valid() && Fits(chunksz, sz) && (p.Some? ==> p.value in Blocks())
      modifies this, Chunks()
      ensures var grows := p.None? || p.value.size < sz;
        && requests == (if grows then old(requests) + [sz] else old(requests))
        && res == (if grows then Place(chunksz, CursorAfter(chunksz, old(requests)), sz) else p.value)
        && Blocks() == (if grows then old(Blocks()) + [res] else old(Blocks()))
      ensures Valid() && res.size >= sz && InBounds(Bytes(), res)
      ensures old(arena) <= arena && fresh(Chunks() - old(Chunks()))
      ensures p.Some? ==> InBounds(old(Bytes()), p.value)
      ensures p.Some? ==> var n := if p.value.size < sz then p.value.size else sz;
        DataBytes(Bytes(), res, n) == DataBytes(old(Bytes()), p.value, n)
      ensures OnlyWithin(old(Bytes()), Bytes(), res.chunk, res.at, res.End())
      ensures forall b :: b in old(Blocks()) && b != res ==> Kept(old(Bytes()), Bytes(), b)
    {
      if p.None? {
        res := Malloc(sz);
        return;
      }
      res := Resize(p.value, sz);
    }

    lemma HeaderRight(p: Block)
      requires Valid() && p in Blocks()
      ensures InBounds(Bytes(), p) && SizeWord(Bytes(), p) == p.size
    {
      assert InBounds(Bytes(), p);
    }

    /** `mpool_realloc` of a block. */
    method Resize(p: Block, sz: nat) returns (res: Block)
      requires Valid() && Fits(chunksz, sz) && p in Blocks()
      modifies this, Chunks()
      ensures requests == (if p.size < sz then old(requests) + [sz] else old(requests))
      ensures res == (if p.size < sz then Place(chunksz, CursorAfter(chunksz, old(requests)), sz) else p)
      ensures Blocks() == (if p.size < sz then old(Blocks()) + [res] else old(Blocks()))
      ensures Valid() && InBounds(Bytes(), res) && InBounds(old(Bytes()), p)
      ensures old(arena) <= arena && fresh(Chunks() - old(Chunks()))
      ensures var n := if p.size < sz then p.size else sz;
        n <= res.size && DataBytes(Bytes(), res, n) == DataBytes(old(Bytes()), p, n)
      ensures OnlyWithin(old(Bytes()), Bytes(), res.chunk, res.at, res.End())
      ensures forall b :: b in old(Blocks()) && b != res ==> Kept(old(Bytes()), Bytes(), b)
    {
      HeaderRight(p);
      var size := ReadHeader(p);
      if size < sz {
        res := Grow(p, sz);
      } else {
        res := Shrink(p, sz);
      }
    }

    /** A block that is too small: a new one, and its data copied there. */
    method Grow(p: Block, sz: nat) returns (res: Block)
      requires Valid() && Fits(chunksz, sz) && p in Blocks() && p.size < sz
      modifies this, Chunks()
      ensures Valid() && requests == old(requests) + [sz] && Blocks() == old(Blocks()) + [res]
      ensures old(arena) <= arena && fresh(Chunks() - old(Chunks()))
      ensures res == Place(chunksz, CursorAfter(chunksz, old(requests)), sz)
      ensures InBounds(old(Bytes()), p) && InBounds(Bytes(), res)
      ensures DataBytes(Bytes(), res, p.size) == DataBytes(old(Bytes()), p, p.size)
      ensures OnlyWithin(old(Bytes()), Bytes(), res.chunk, res.at, res.End())
      ensures forall b :: b in old(Blocks()) ==> Kept(old(Bytes()), Bytes(), b)
    {
      ghost var m, rs := Bytes(), requests;
      AllApart(chunksz, rs, sz);
      res := Malloc(sz);
      ghost var m1 := Bytes();
      DataStay(m, m1, p, p.size);
      Copy(p, res);
      WrittenHeaded(chunksz, requests, m1, Bytes(), res, res.Data());
      KeptBoth(Handed(chunksz, rs), m, m1, Bytes(), res);
    }

    /** A block that is large enough stays, and what is behind the request is overwritten. */
    method Shrink(p: Block, sz: nat) returns (res: Block)
      requires Valid() && p in Blocks() && p.size >= sz
      modifies Chunks()
      ensures Valid() && res == p && InBounds(old(Bytes()), p) && InBounds(Bytes(), p)
      ensures DataBytes(Bytes(), p, sz) == DataBytes(old(Bytes()), p, sz)
      ensures OnlyWithin(old(Bytes()), Bytes(), p.chunk, p.Data() + sz, p.End())
      ensures forall b :: b in Blocks() && b != p ==> Kept(old(Bytes()), Bytes(), b)
    {
      ghost var m := Bytes();
      assert InBounds(m, p);
      Fill(p, sz, 0xA5);
      WrittenHeaded(chunksz, requests, m, Bytes(), p, p.Data() + sz);
      FrontStays(m, Bytes(), p, p.Data() + sz);
      res := p;
    }

    /** The blocks for a sequence of requests, one after the other. */
    method MallocAll(rs: seq<nat>) returns (blocks: seq<Block>)
      requires Valid() && forall r :: r in rs ==> Fits(chunksz, r)
      modifies this, Chunks()
      ensures Valid() && requests == old(requests) + rs && Blocks() == old(Blocks()) + blocks
      ensures old(arena) <= arena && fresh(Chunks() - old(Chunks()))
    {
      if rs == [] {
        return [];
      }
      var n := |rs| - 1;
      ghost var handed, asked := Blocks(), requests;
      blocks := MallocAll(rs[..n]);
      var b := Malloc(rs[n]);
      assert (handed + blocks) + [b] == handed + (blocks + [b]);
      assert (asked + rs[..n]) + [rs[n]] == asked + rs;
      blocks := blocks + [b];
    }

    /** The requests of any run since the last reset, replayed after a reset: the same blocks in the same chunks. */
    method Replay(rs: seq<nat>) returns (blocks: seq<Block>)
      requires Valid() && rs == requests
      modifies this, Chunks()
      ensures Valid() && requests == rs && blocks == old(Blocks())
      ensures old(arena) <= arena
    {
      Reset();
      blocks := MallocAll(rs);
    }

    /** `mpool_ctx_fini`: every chunk that was ever allocated is freed exactly once. */
    method Fini()
      requires Valid()
      modifies this
      ensures |freed| == |old(arena)| && (forall c :: c in freed <==> c in old(arena))
      ensures forall i, j :: 0 <= i < j < |freed| ==> freed[i] != freed[j]
      ensures arena == []
    {
      lastChunk := Max(lastChunk, currentChunk);
      var i: int := lastChunk;
      while i >= 0
        invariant -1 <= i < |arena| && arena == old(arena) && |freed| == |arena| - 1 - i
        invariant forall k :: 0 <= k < |freed| ==> freed[k] == arena[|arena| - 1 - k]
      {
        freed := freed + [arena[i]];
        i := i - 1;
      }
      forall c | c in arena
        ensures c in freed
      {
        var k :| 0 <= k < |arena| && arena[k] == c;
        assert freed[|arena| - 1 - k] == c;
      }
      arena := [];
    }
  }

  lemma CursorBound(chunksz: nat, requests: seq<nat>)
    requires forall r :: r in requests ==> Fits(chunksz, r)
    ensures CursorAfter(chunksz, requests).pos <= chunksz
  {
    HandedApart(chunksz, requests);
  }

  /** A block that was handed out lies apart from the next one. */
  lemma Apart(chunksz: nat, requests: seq<nat>, sz: nat, b: Block)
    requires (forall r :: r in requests ==> Fits(chunksz, r)) && Fits(chunksz, sz) && b in Handed(chunksz, requests)
    ensures b.chunk <= CursorAfter(chunksz, requests).chunk && b.End() <= chunksz
    ensures Disjoint(b, Place(chunksz, CursorAfter(chunksz, requests), sz))
      && b != Place(chunksz, CursorAfter(chunksz, requests), sz)
  {
    HandedApart(chunksz, requests);
  }

  lemma AllApart(chunksz: nat, requests: seq<nat>, sz: nat)
    requires (forall r :: r in requests ==> Fits(chunksz, r)) && Fits(chunksz, sz)
    ensures forall b :: b in Handed(chunksz, requests) ==>
      Disjoint(b, Place(chunksz, CursorAfter(chunksz, requests), sz))
    ensures Place(chunksz, CursorAfter(chunksz, requests), sz) !in Handed(chunksz, requests)
  {
    forall b | b in Handed(chunksz, requests)
      ensures Disjoint(b, Place(chunksz, CursorAfter(chunksz, requests), sz))
      ensures b != Place(chunksz, CursorAfter(chunksz, requests), sz)
    {
      Apart(chunksz, requests, sz, b);
    }
  }
}
