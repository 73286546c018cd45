/**
 The network thread's cutting of a byte stream into transport blocks, and what it copies out of
 each block: in MBMS mode the block, otherwise the first half of it for either codeword.
 */
module NetStream {
  import opened Bits

  const DATA_BUFF_SZ := 1024 * 1024

  /** Octets of a transport block of `tbs` bits. The source divides with truncation, so that a
      block of no bits still takes one octet. */
  function BlockBytes(tbs: nat): (n: nat)
    ensures n >= 1 && (tbs >= 1 ==> n == CeilDiv(tbs, 8))
  {
    if tbs == 0 then 1 else 1 + (tbs - 1) / 8
  }

  /** The stream cut into blocks of `n` octets from the front. */
  function Blocks(stream: seq<byte>, n: nat): (r: seq<seq<byte>>)
    requires n > 0
    ensures forall i | 0 <= i < |r| :: |r[i]| == n
    decreases |stream|
  {
    if |stream| < n then [] else [stream[..n]] + Blocks(stream[n..], n)
  }

  /** What remains behind the last whole block. */
  function Leftover(stream: seq<byte>, n: nat): (r: seq<byte>)
    requires n > 0
    ensures |r| < n
    decreases |stream|
  {
    if |stream| < n then stream else Leftover(stream[n..], n)
  }

  function Concat(blocks: seq<seq<byte>>): seq<byte> {
    if blocks == [] then [] else blocks[0] + Concat(blocks[1..])
  }

  /** The cutting loses, repeats and moves no octet. */
  lemma {:induction false} Conservation(stream: seq<byte>, n: nat)
    requires n > 0
    ensures Concat(Blocks(stream, n)) + Leftover(stream, n) == stream
    decreases |stream|
  {
    if |stream| >= n {
      Conservation(stream[n..], n);
      var rest := Blocks(stream[n..], n);
      assert ([stream[..n]] + rest)[1..] == rest;
      assert stream == stream[..n] + stream[n..];
    }
  }

  /** What goes to the transport buffers for one block. */
  function CopiedOut(mbms: bool, block: seq<byte>): (r: seq<byte>)
    ensures |r| <= |block|
  {
    if mbms then block else block[..|block| / 2] + block[..|block| / 2]
  }

  function AllCopied(mbms: bool, blocks: seq<seq<byte>>): (r: seq<seq<byte>>)
    ensures |r| == |blocks|
    ensures forall i | 0 <= i < |r| :: r[i] == CopiedOut(mbms, blocks[i])
  {
    if blocks == [] then [] else [CopiedOut(mbms, blocks[0])] + AllCopied(mbms, blocks[1..])
  }

  lemma AllCopiedAppend(mbms: bool, blocks: seq<seq<byte>>, block: seq<byte>)
    ensures AllCopied(mbms, blocks + [block]) == AllCopied(mbms, blocks) + [CopiedOut(mbms, block)]
  {
  }

  /** A block that consists of the same octets twice. */
  predicate Doubled(block: seq<byte>) {
    |block| % 2 == 0 && block[..|block| / 2] == block[|block| / 2..]
  }

  lemma CopiedOutExactly(mbms: bool, block: seq<byte>)
    ensures CopiedOut(mbms, block) == block <==> mbms || Doubled(block)
  {
    var h := |block| / 2;
    if !mbms && CopiedOut(false, block) == block {
      assert block[h..2 * h] == (block[..h] + block[..h])[h..2 * h];
    }
    assert block == block[..h] + block[h..];
  }

  /** Where everything that is copied out comes from: for the `i`-th stretch of `n` octets of the
      stream, the stretch itself in MBMS mode, otherwise its first half twice; for every whole
      stretch, and nothing else. */
  lemma CopiedOctets(mbms: bool, stream: seq<byte>, n: nat, i: nat)
    requires n > 0 && i * n + n <= |stream|
    ensures i < |AllCopied(mbms, Blocks(stream, n))|
    ensures |AllCopied(mbms, Blocks(stream, n))| * n <= |stream| < |AllCopied(mbms, Blocks(stream, n))| * n + n
    ensures AllCopied(mbms, Blocks(stream, n))[i]
         == if mbms then stream[i * n..i * n + n]
            else stream[i * n..i * n + n / 2] + stream[i * n..i * n + n / 2]
  {
    hide Blocks, AllCopied;
    BlockAt(stream, n, i);
    BlockCount(stream, n);
    var block := stream[i * n..i * n + n];
    assert AllCopied(mbms, Blocks(stream, n))[i] == CopiedOut(mbms, block);
    assert block[..n / 2] == stream[i * n..i * n + n / 2];
  }

  lemma {:induction false} BlockAt(stream: seq<byte>, n: nat, i: nat)
    requires n > 0 && i * n + n <= |stream|
    ensures i < |Blocks(stream, n)| && Blocks(stream, n)[i] == stream[i * n..i * n + n]
    decreases i
  {
    if i > 0 {
      assert i * n == (i - 1) * n + n;
      BlockAt(stream[n..], n, i - 1);
      assert stream[n..][(i - 1) * n..(i - 1) * n + n] == stream[i * n..i * n + n];
    }
  }

  lemma {:induction false} BlockCount(stream: seq<byte>, n: nat)
    requires n > 0
    ensures |Blocks(stream, n)| * n <= |stream| < |Blocks(stream, n)| * n + n
    decreases |stream|
  {
    if |stream| >= n {
      BlockCount(stream[n..], n);
      var k := |Blocks(stream[n..], n)|;
      assert |Blocks(stream, n)| == k + 1;
      assert (k + 1) * n == k * n + n;
    }
  }

  lemma {:induction false} CopiedLength(mbms: bool, blocks: seq<seq<byte>>)
    ensures |Concat(AllCopied(mbms, blocks))| <= |Concat(blocks)|
  {
    if blocks != [] {
      CopiedLength(mbms, blocks[1..]);
      var c := AllCopied(mbms, blocks);
      assert c[1..] == AllCopied(mbms, blocks[1..]);
    }
  }

  predicate AllDoubled(blocks: seq<seq<byte>>) {
    forall i | 0 <= i < |blocks| :: Doubled(blocks[i])
  }

  /** The octets copied out, followed by the remainder, are the stream if and only if the mode is
      MBMS or every block consists of the same octets twice: outside MBMS mode the second half
      of each block is lost. */
  lemma {:induction false} ConservationExactly(mbms: bool, stream: seq<byte>, n: nat)
    requires n > 0
    ensures Concat(AllCopied(mbms, Blocks(stream, n))) + Leftover(stream, n) == stream
       <==> mbms || AllDoubled(Blocks(stream, n))
    decreases |stream|
  {
    hide Blocks, Leftover, AllCopied, CopiedOut, Concat, AllDoubled, Doubled;
    assert stream[0..] == stream;
    if |stream| < n {
      CutNone(stream, n);
      NoBlocks(mbms);
    } else {
      CutOne(stream, 0, n);
      var first, rest := stream[..n], Blocks(stream[n..], n);
      var c, copied := CopiedOut(mbms, first), Concat(AllCopied(mbms, rest));
      var tail := copied + Leftover(stream[n..], n);
      ConservationExactly(mbms, stream[n..], n);
      CopiedOutExactly(mbms, first);
      CopiedLength(mbms, rest);
      Conservation(stream[n..], n);
      assert |Concat(rest)| + |Leftover(stream[n..], n)| == |stream| - n;
      CopiedCons(mbms, first, rest);
      assert (c + copied) + Leftover(stream, n) == c + tail;
      SplitEqual(stream, n, c, tail);
      FirstAndRest(first, rest);
    }
  }

  lemma NoBlocks(mbms: bool)
    ensures Concat(AllCopied(mbms, [])) == [] && AllDoubled([])
  {
  }

  lemma CopiedCons(mbms: bool, first: seq<byte>, rest: seq<seq<byte>>)
    ensures Concat(AllCopied(mbms, [first] + rest)) == CopiedOut(mbms, first) + Concat(AllCopied(mbms, rest))
  {
    hide CopiedOut;
    var all := AllCopied(mbms, [first] + rest);
    assert ([first] + rest)[1..] == rest;
    assert all[1..] == AllCopied(mbms, rest);
  }

  /** A stream is two parts, neither of which is too long, exactly when it splits into them. */
  lemma SplitEqual(stream: seq<byte>, n: nat, a: seq<byte>, b: seq<byte>)
    requires n <= |stream| && |a| <= n && |b| <= |stream| - n
    ensures a + b == stream <==> a == stream[..n] && b == stream[n..]
  {
    if a + b == stream {
      assert |a| == n;
      assert (a + b)[..n] == a && (a + b)[n..] == b;
    }
  }

  lemma FirstAndRest(first: seq<byte>, rest: seq<seq<byte>>)
    ensures AllDoubled([first] + rest) <==> Doubled(first) && AllDoubled(rest)
  {
    hide Doubled;
    var all := [first] + rest;
    assert all[0] == first && forall i | 0 <= i < |rest| :: all[i + 1] == rest[i];
  }

  /** Octets that arrive later do not change the blocks that are already complete. */
  lemma {:induction false} BlocksExtend(a: seq<byte>, b: seq<byte>, n: nat)
    requires n > 0
    ensures Blocks(a + b, n) == Blocks(a, n) + Blocks(Leftover(a, n) + b, n)
    ensures Leftover(a + b, n) == Leftover(Leftover(a, n) + b, n)
    decreases |a|
  {
    if |a| >= n {
      assert (a + b)[..n] == a[..n] && (a + b)[n..] == a[n..] + b;
      BlocksExtend(a[n..], b, n);
    }
  }

  class Receiver {
    const data2: array<byte>
    var rpm: nat

    ghost predicate Valid()
      reads this
    {
      rpm <= data2.Length
    }

    /** The octets received that no block has taken yet. */
    ghost function Held(): seq<byte>
      reads this, data2
      requires Valid()
    {
      data2[..rpm]
    }

    constructor ()
      ensures Valid() && Held() == [] && data2.Length == 1048576 && fresh(data2)
    {
      data2 := new byte[DATA_BUFF_SZ];
      rpm := 0;
    }

    /** One turn of the receive loop with a read of `chunk`; the blocks are handed over in order.
        An empty read discards what is held. */
    method Receive(chunk: seq<byte>, nbytes: nat, mbms: bool) returns (copied: seq<seq<byte>>)
      requires Valid() && nbytes >= 1 && |chunk| <= data2.Length - rpm
      modifies this, data2
      ensures Valid()
      ensures chunk == [] ==> copied == [] && Held() == []
      ensures chunk != [] ==>
                && copied == AllCopied(mbms, Blocks(old(Held()) + chunk, nbytes))
                && Held() == Leftover(old(Held()) + chunk, nbytes)
    {
      hide Blocks, Leftover;
      copied := [];
      if |chunk| == 0 {
        rpm := 0;
        return;
      }
      StoreRead(chunk);
      ghost var stream := old(Held()) + chunk;
      rpm := rpm + |chunk|;
      var wpm;
      copied, wpm := HandOver(nbytes, mbms, stream);
      if wpm > 0 {
        // the remainder is shorter than a block, so source and destination do not overlap
        MemCpy(0, wpm, rpm);
        assert data2[0..rpm] == data2[..rpm];
      } else {
        assert data2[0..0 + rpm] == data2[..rpm];
      }
    }

    /** The inner loop: whole blocks are taken from the front of what was received. */
    method HandOver(nbytes: nat, mbms: bool, ghost stream: seq<byte>) returns (copied: seq<seq<byte>>, wpm: nat)
      requires nbytes >= 1 && Valid() && data2[..rpm] == stream
      modifies this
      ensures copied == AllCopied(mbms, Blocks(stream, nbytes))
      ensures wpm + rpm == |stream| && rpm < nbytes && (wpm == 0 || wpm >= nbytes)
      ensures data2[wpm..wpm + rpm] == Leftover(stream, nbytes)
    {
      hide Blocks, Leftover, AllCopied, CopiedOut;
      copied, wpm := [], 0;
      ghost var blocks: seq<seq<byte>> := [];
      assert stream[0..] == stream && data2[0..rpm] == stream;
      assert [] + Blocks(stream, nbytes) == Blocks(stream, nbytes);
      while rpm >= nbytes
        invariant wpm + rpm == |stream| <= data2.Length
        invariant data2[wpm..wpm + rpm] == stream[wpm..]
        invariant blocks + Blocks(stream[wpm..], nbytes) == Blocks(stream, nbytes)
        invariant copied == AllCopied(mbms, blocks)
        invariant Leftover(stream[wpm..], nbytes) == Leftover(stream, nbytes)
        invariant wpm == 0 || wpm >= nbytes
      {
        var block := data2[wpm..wpm + nbytes];
        assert block == data2[wpm..wpm + rpm][..nbytes];
        assert data2[wpm + nbytes..wpm + rpm] == data2[wpm..wpm + rpm][nbytes..];
        CutOne(stream, wpm, nbytes);
        ghost var rest := Blocks(stream[wpm + nbytes..], nbytes);
        assert blocks + ([block] + rest) == blocks + [block] + rest;
        AllCopiedAppend(mbms, blocks, block);
        blocks := blocks + [block];
        copied := copied + [CopiedOut(mbms, block)];
        rpm := rpm - nbytes;
        wpm := wpm + nbytes;
      }
      CutNone(stream[wpm..], nbytes);
      assert blocks + [] == blocks;
    }

    /** The read puts its octets behind those that are held. */
    method StoreRead(chunk: seq<byte>)
      requires rpm + |chunk| <= data2.Length
      modifies data2
      ensures data2[..rpm + |chunk|] == old(data2[..rpm]) + chunk
    {
      for i := 0 to |chunk|
        invariant forall j | 0 <= j < rpm :: data2[j] == old(data2[j])
        invariant forall j | rpm <= j < rpm + i :: data2[j] == chunk[j - rpm]
      {
        data2[rpm + i] := chunk[i];
      }
    }

    method MemCpy(dst: nat, src: nat, n: nat)
      requires dst + n <= data2.Length && src + n <= data2.Length
      requires dst + n <= src || src + n <= dst
      modifies data2
      ensures data2[dst..dst + n] == old(data2[src..src + n])
    {
      for i := 0 to n
        invariant forall j | 0 <= j < data2.Length && !(dst <= j < dst + i) :: data2[j] == old(data2[j])
        invariant forall j | dst <= j < dst + i :: data2[j] == old(data2[src + (j - dst)])
      {
        data2[dst + i] := data2[src + i];
      }
    }
  }

  lemma CutOne(stream: seq<byte>, w: nat, n: nat)
    requires n > 0 && w + n <= |stream|
    ensures Blocks(stream[w..], n) == [stream[w..][..n]] + Blocks(stream[w + n..], n)
    ensures Leftover(stream[w..], n) == Leftover(stream[w + n..], n)
    ensures stream[w..][n..] == stream[w + n..]
  {
    assert stream[w..][n..] == stream[w + n..];
  }

  lemma CutNone(stream: seq<byte>, n: nat)
    requires |stream| < n
    ensures Blocks(stream, n) == [] && Leftover(stream, n) == stream
  {
  }

  /** The blocks handed over in a row of non-empty reads. */
  function Handed(held: seq<byte>, chunks: seq<seq<byte>>, n: nat): seq<seq<byte>>
    requires n > 0
    decreases |chunks|
  {
    if chunks == [] then []
    else Blocks(held + chunks[0], n) + Handed(Leftover(held + chunks[0], n), chunks[1..], n)
  }

  function HeldAfter(held: seq<byte>, chunks: seq<seq<byte>>, n: nat): seq<byte>
    requires n > 0
    decreases |chunks|
  {
    if chunks == [] then held
    else HeldAfter(Leftover(held + chunks[0], n), chunks[1..], n)
  }

  /** The blocks depend on the stream alone, not on where the reads cut it. */
  lemma {:induction false} ChunkingIrrelevant(held: seq<byte>, chunks: seq<seq<byte>>, n: nat)
    requires n > 0 && |held| < n
    ensures Handed(held, chunks, n) == Blocks(held + Concat(chunks), n)
    ensures HeldAfter(held, chunks, n) == Leftover(held + Concat(chunks), n)
    decreases |chunks|
  {
    if chunks == [] {
      assert held + [] == held;
    } else {
      var first := held + chunks[0];
      ChunkingIrrelevant(Leftover(first, n), chunks[1..], n);
      BlocksExtend(first, Concat(chunks[1..]), n);
      assert held + Concat(chunks) == first + Concat(chunks[1..]);
    }
  }
}
