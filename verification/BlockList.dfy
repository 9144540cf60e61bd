/**
 The buffer that `stomp_read_line` and `stomp_read_buffer` fill one byte at a time: a
 linked list of 1024-byte blocks, flattened into one array once its size is known.
 */
module BlockList {
  import opened CValues

  const BLOCK_SIZE := 1024

  /** `data_block_list`. */
  class Block {
    const data: array<char>
    var next: Block?

    constructor ()
      ensures data.Length == 1024 && next == null && fresh(data)
      ensures forall k :: 0 <= k < 1024 ==> data[k] == '\0'
    {
      data := new char[BLOCK_SIZE](_ => '\0');
      next := null;
    }
  }

  /** `memcpy(dst + p, src, len)`. */
  method CopyInto(dst: array<char>, p: nat, src: array<char>, len: nat)
    requires p + len <= dst.Length && len <= src.Length && dst != src
    modifies dst
    ensures dst[..p + len] == old(dst[..p]) + src[..len]
  {
    forall k | 0 <= k < len {
      dst[p + k] := src[k];
    }
  }

  /** The local variables `head`, `tail`, `i` and `bytesRead` of the two reading loops. */
  class BlockList {
    const head: Block
    var tail: Block
    var i: nat
    var bytesRead: nat
    ghost var blocks: seq<Block>
    ghost var contents: string
    ghost var Repr: set<object>

    ghost predicate Linked()
      reads this, Repr
    {
      && this in Repr
      && |blocks| > 0 && head == blocks[0] && tail == blocks[|blocks| - 1] && tail in Repr && tail.next == null
      && (forall j :: 0 <= j < |blocks| ==>
            blocks[j] in Repr && blocks[j].data in Repr && blocks[j].data.Length == BLOCK_SIZE)
      && (forall j, k :: 0 <= j < k < |blocks| ==> blocks[j] != blocks[k] && blocks[j].data != blocks[k].data)
      && (forall j :: 0 <= j < |blocks| - 1 ==> blocks[j].next == blocks[j + 1])
    }

    /** All blocks but the last are full, and the list holds `contents` in order. */
    ghost predicate Valid()
      reads this, Repr
    {
      && Linked()
      && bytesRead == |contents| == BLOCK_SIZE * (|blocks| - 1) + i && i <= BLOCK_SIZE
      && (forall j :: 0 <= j < |blocks| - 1 ==> blocks[j].data[..] == contents[BLOCK_SIZE * j..BLOCK_SIZE * (j + 1)])
      && tail.data[..i] == contents[BLOCK_SIZE * (|blocks| - 1)..]
    }

    constructor ()
      ensures Valid() && fresh(Repr) && contents == "" && i == 0
    {
      var b := new Block();
      head, tail, i, bytesRead := b, b, 0, 0;
      blocks, contents := [b], "";
      new;
      Repr := {this, b, b.data};
    }

    /** A byte received into `tail->data + i`. */
    method Store(c: char)
      requires Valid() && i < BLOCK_SIZE
      modifies Repr
      ensures Valid() && Repr == old(Repr)
      ensures contents == old(contents) + [c] && i == old(i) + 1
    {
      ghost var start := BLOCK_SIZE * (|blocks| - 1);
      tail.data[i] := c;
      i, bytesRead := i + 1, bytesRead + 1;
      contents := contents + [c];
      assert tail.data[..i] == old(tail.data[..i]) + [c];
      assert contents[start..] == old(contents[start..]) + [c];
      forall j | 0 <= j < |blocks| - 1
        ensures blocks[j].data[..] == contents[BLOCK_SIZE * j..BLOCK_SIZE * (j + 1)]
      {
        assert blocks[j].data != tail.data;
        assert blocks[j].data[..] == old(blocks[j].data[..]);
      }
    }

    /** `tail->data[i - 1] = 0`. */
    method ReplaceLast(c: char)
      requires Valid() && 0 < i
      modifies Repr
      ensures Valid() && Repr == old(Repr) && i == old(i)
      ensures contents == old(contents)[..|old(contents)| - 1] + [c]
    {
      ghost var start := BLOCK_SIZE * (|blocks| - 1);
      tail.data[i - 1] := c;
      contents := contents[..|contents| - 1] + [c];
      assert tail.data[..i] == old(tail.data[..i])[..i - 1] + [c];
      assert contents[start..] == old(contents[start..])[..i - 1] + [c];
      forall j | 0 <= j < |blocks| - 1
        ensures blocks[j].data[..] == contents[BLOCK_SIZE * j..BLOCK_SIZE * (j + 1)]
      {
        assert blocks[j].data != tail.data;
        assert blocks[j].data[..] == old(blocks[j].data[..]);
      }
    }

    /** Appends a block once the last one is full. */
    method Grow()
      requires Valid()
      modifies Repr
      ensures Valid() && fresh(Repr - old(Repr)) && old(Repr) <= Repr
      ensures contents == old(contents) && i < BLOCK_SIZE
    {
      if i >= BLOCK_SIZE {
        var b := new Block();
        tail.next := b;
        tail, i := b, 0;
        blocks := blocks + [b];
        Repr := Repr + {b, b.data};
        assert forall j :: 0 <= j < |old(blocks)| ==> blocks[j] == old(blocks)[j];
        assert tail.data[..i] == contents[BLOCK_SIZE * (|blocks| - 1)..];
      }
    }

    /** Block `j` holds its chunk of the contents, and only the last chunk may be short. */
    lemma Chunk(j: nat)
      requires Valid() && 0 < i && j < |blocks|
      ensures var p := BLOCK_SIZE * j;
              var len := Min(BLOCK_SIZE, bytesRead - p);
              0 < len && blocks[j].data[..len] == contents[p..p + len]
              && (j == |blocks| - 1 ==> p + len == bytesRead)
    {
      if j == |blocks| - 1 {
        assert contents[BLOCK_SIZE * j..] == contents[BLOCK_SIZE * j..bytesRead];
      } else {
        assert blocks[j].data[..BLOCK_SIZE] == blocks[j].data[..];
      }
    }

    /**
     Copies the blocks behind each other into one array. The last block holds at least
     one byte, so that every block contributes and the sizes of the chunks sum to
     `bytesRead`.
     */
    method Flatten() returns (data: array<char>)
      requires Valid() && 0 < i
      ensures fresh(data) && data[..] == contents
    {
      data := new char[bytesRead];
      var p, left := 0, bytesRead;
      var block: Block? := head;
      ghost var j := 0;
      while block != null
        invariant 0 <= j <= |blocks|
        invariant block == if j < |blocks| then blocks[j] else null
        invariant p == Min(BLOCK_SIZE * j, bytesRead) && left == bytesRead - p
        invariant data[..p] == contents[..p]
        decreases |blocks| - j
      {
        var len := if left > BLOCK_SIZE then BLOCK_SIZE else left;
        Chunk(j);
        CopyInto(data, p, block.data, len);
        assert contents[..p + len] == contents[..p] + contents[p..p + len];
        p, left := p + len, left - len;
        block := block.next;
        j := j + 1;
      }
      assert p == bytesRead;
    }
  }
}
