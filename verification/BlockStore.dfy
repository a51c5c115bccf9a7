/** The flat block store that stands for the block cache library: numbered buffers of 32-bit words. */
module BlockStore {
  import opened Words

  type Block = seq<Word>

  /** The bytes of a block, least significant byte of each word first. */
  function BytesOf(ws: Block): (bs: seq<Byte>)
    ensures |bs| == 4 * |ws|
  {
    seq(4 * |ws|, k requires 0 <= k < 4 * |ws| => ByteOf(ws[k / 4], k % 4))
  }

  function WordsOf(bs: seq<Byte>): (ws: Block)
    requires |bs| % 4 == 0
    ensures 4 * |ws| == |bs|
  {
    seq(|bs| / 4, w requires 0 <= w < |bs| / 4 =>
      WordOf(bs[4 * w], bs[4 * w + 1], bs[4 * w + 2], bs[4 * w + 3]))
  }

  lemma BytesOfWordsOf(bs: seq<Byte>)
    requires |bs| % 4 == 0
    ensures BytesOf(WordsOf(bs)) == bs
  {
    forall k | 0 <= k < |bs| ensures BytesOf(WordsOf(bs))[k] == bs[k] {
      var w := k / 4;
      ByteOfWordOf(bs[4 * w], bs[4 * w + 1], bs[4 * w + 2], bs[4 * w + 3]);
      assert k == 4 * w + k % 4;
    }
  }

  /** The sequence with the bytes of data put in from index off on. */
  function Splice<T>(s: seq<T>, off: nat, data: seq<T>): (r: seq<T>)
    requires off + |data| <= |s|
    ensures |r| == |s|
  {
    s[..off] + data + s[off + |data|..]
  }

  /** old_ with data put over it from pos on; a gap between the two is zero. */
  function Overlay(old_: seq<Byte>, pos: nat, data: seq<Byte>): (r: seq<Byte>)
    ensures |r| == if pos + |data| > |old_| then pos + |data| else |old_|
  {
    seq(if pos + |data| > |old_| then pos + |data| else |old_|,
        k requires 0 <= k =>
          if pos <= k < pos + |data| then data[k - pos] else if k < |old_| then old_[k] else 0)
  }

  /** A block's words after data has been copied to byte offset off of its buffer. */
  function WithBytes(ws: Block, off: nat, data: seq<Byte>): (r: Block)
    requires off + |data| <= 4 * |ws|
    ensures |r| == |ws|
  {
    WordsOf(Splice(BytesOf(ws), off, data))
  }

  /** Byte k of a block; 0 past its end. */
  function ByteAt(ws: Block, k: nat): Byte {
    if k / 4 < |ws| then ByteOf(ws[k / 4], k % 4) else 0
  }

  lemma BytesOfAt(ws: Block, k: nat)
    requires k < 4 * |ws|
    ensures BytesOf(ws)[k] == ByteAt(ws, k)
  {
    hide ByteOf;
  }

  /** Word w of a block is its bytes 4w to 4w + 3, the first of them the least significant. */
  lemma WordInBytes(ws: Block, w: nat)
    requires w < |ws|
    ensures ws[w] == ByteAt(ws, 4 * w) + 0x100 * ByteAt(ws, 4 * w + 1)
                     + 0x1_0000 * ByteAt(ws, 4 * w + 2) + 0x100_0000 * ByteAt(ws, 4 * w + 3)
  {
    WordFromBytes(ws[w]);
    hide ByteOf;
    assert (4 * w + 1) / 4 == w && (4 * w + 2) / 4 == w && (4 * w + 3) / 4 == w;
  }

  lemma SpliceAt<T>(s: seq<T>, off: nat, data: seq<T>, k: nat)
    requires off + |data| <= |s| && k < |s|
    ensures Splice(s, off, data)[k] == if off <= k < off + |data| then data[k - off] else s[k]
  {
  }

  /** A part of a sequence into which, or beside which, something was spliced. */
  lemma SplicePart<T>(s: seq<T>, p: nat, data: seq<T>, a: nat, n: nat)
    requires p + |data| <= |s| && a + n <= |s|
    ensures a <= p && p + |data| <= a + n ==> Splice(s, p, data)[a..a + n] == Splice(s[a..a + n], p - a, data)
    ensures p + |data| <= a || a + n <= p ==> Splice(s, p, data)[a..a + n] == s[a..a + n]
  {
    var u, v := Splice(s, p, data)[a..a + n], s[a..a + n];
    if a <= p && p + |data| <= a + n {
      var w := Splice(v, p - a, data);
      forall k | 0 <= k < n ensures u[k] == w[k] {
        SpliceAt(s, p, data, a + k);
        SpliceAt(v, p - a, data, k);
      }
    } else if p + |data| <= a || a + n <= p {
      forall k | 0 <= k < n ensures u[k] == v[k] {
        SpliceAt(s, p, data, a + k);
      }
    }
  }

  lemma WithBytesAt(ws: Block, off: nat, data: seq<Byte>, k: nat)
    requires off + |data| <= 4 * |ws| && k < 4 * |ws|
    ensures ByteAt(WithBytes(ws, off, data), k) == if off <= k < off + |data| then data[k - off] else ByteAt(ws, k)
  {
    hide BytesOf, WordsOf, ByteAt, Splice;
    var bs := Splice(BytesOf(ws), off, data);
    BytesOfWordsOf(bs);
    BytesOfAt(WordsOf(bs), k);
    BytesOfAt(ws, k);
    SpliceAt(BytesOf(ws), off, data, k);
  }

  lemma ZerosAt(n: nat, k: nat)
    ensures ByteAt(Zeros(n), k) == 0
  {
  }

  function Zeros(n: nat): (z: seq<nat>)
    ensures |z| == n && forall k :: 0 <= k < n ==> z[k] == 0
  {
    seq(n, _ => 0)
  }

  /** The blocks with word k of block b replaced. */
  function PutWord(st: seq<Block>, b: nat, k: nat, v: Word): (r: seq<Block>)
    requires b < |st| && k < |st[b]|
    ensures |r| == |st|
  {
    var blk: Block := st[b][k := v];
    st[b := blk]
  }

  class Store {
    const blockWords: nat
    const blocks: seq<array<Word>>

    constructor Of(blockWords: nat, blocks: seq<array<Word>>)
      ensures this.blockWords == blockWords && this.blocks == blocks
    {
      this.blockWords, this.blocks := blockWords, blocks;
    }

    ghost predicate Valid() {
      && (forall b :: 0 <= b < |blocks| ==> blocks[b].Length == blockWords)
      && (forall b, c :: 0 <= b < c < |blocks| ==> blocks[b] != blocks[c])
    }

    ghost function Bufs(): set<array<Word>> {
      set a | a in blocks
    }

    ghost function Content(): (c: seq<Block>)
      requires Valid()
      reads Bufs()
      ensures |c| == |blocks|
      ensures forall b :: 0 <= b < |c| ==> c[b] == blocks[b][..] && |c[b]| == blockWords
    {
      seq(|blocks|, b requires 0 <= b < |blocks| reads Bufs() => blocks[b][..])
    }

    /** A change to one buffer is a change of one block of the content. */
    twostate lemma OneBlockChanged(b: nat)
      requires Valid() && b < |blocks|
      requires forall c :: 0 <= c < |blocks| && c != b ==> blocks[c][..] == old(blocks[c][..])
      ensures Content() == old(Content())[b := blocks[b][..]]
    {
    }

    /** write_indirect_block_entry. */
    method WriteWord(b: nat, k: nat, v: Word)
      requires Valid() && b < |blocks| && k < blockWords
      modifies blocks[b]
      ensures Content() == PutWord(old(Content()), b, k, v)
    {
      blocks[b][k] := v;
      OneBlockChanged(b);
    }

    /** get_block with BLK_CLEAR: the buffer comes back zero-filled. */
    method Clear(b: nat)
      requires Valid() && b < |blocks|
      modifies blocks[b]
      ensures Content() == old(Content())[b := Zeros(blockWords)]
    {
      var buf := blocks[b];
      forall k | 0 <= k < buf.Length {
        buf[k] := 0;
      }
      assert buf[..] == Zeros(blockWords);
      OneBlockChanged(b);
    }

    /** readmsg into a block's buffer at a byte offset. */
    method CopyIn(b: nat, off: nat, data: seq<Byte>)
      requires Valid() && b < |blocks| && off + |data| <= 4 * blockWords
      modifies blocks[b]
      ensures Content() == old(Content())[b := WithBytes(old(Content())[b], off, data)]
    {
      var buf := blocks[b];
      var words := WithBytes(buf[..], off, data);
      forall k | 0 <= k < buf.Length {
        buf[k] := words[k];
      }
      assert buf[..] == words;
      OneBlockChanged(b);
    }
  }
}
