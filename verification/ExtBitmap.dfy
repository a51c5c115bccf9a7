/** extfs/bitmap.c: allocation bitmaps held in a block of 32-bit words. */
module ExtBitmap {
  import opened Words

  /** Whether bit k of the bitmap is set; bits past the end of the block read as set. */
  predicate BitAt(bm: seq<Word>, k: nat) {
    k / 32 < |bm| ==> TestBit(bm[k / 32], k % 32)
  }

  /** The clear bits below n. */
  ghost function FreeBits(bm: seq<Word>, n: nat): set<nat> {
    set k | 0 <= k < n && !BitAt(bm, k)
  }

  /** The bitmap with bit k set. */
  function WithBit(bm: seq<Word>, k: nat): seq<Word>
    requires k / 32 < |bm|
  {
    SetBitInWord(bm[k / 32], k % 32);
    bm[k / 32 := SetBit(bm[k / 32], k % 32)]
  }

  /** The bitmap with bit k clear. */
  function WithoutBit(bm: seq<Word>, k: nat): seq<Word>
    requires k / 32 < |bm|
  {
    SetBitInWord(bm[k / 32], k % 32);
    bm[k / 32 := ClearBit(bm[k / 32], k % 32)]
  }

  lemma SetBitInWord(w: Word, b: nat)
    requires b < 32
    ensures SetBit(w, b) < U32 && ClearBit(w, b) < U32
  {
    Pow2Of32();
    BitOpsStayInWidth(w, b, 32);
  }

  /** Bit k is bit k % 32 of word k / 32; setting or clearing it adds or subtracts its weight in that word. */
  lemma BitInWord(bm: seq<Word>, k: nat)
    requires k / 32 < |bm|
    ensures BitAt(bm, k) <==> bm[k / 32] / Pow2(k % 32) % 2 == 1
    ensures !BitAt(bm, k) ==> WithBit(bm, k) == bm[..k / 32] + [bm[k / 32] + Pow2(k % 32)] + bm[k / 32 + 1..]
    ensures BitAt(bm, k) ==> WithoutBit(bm, k) == bm[..k / 32] + [bm[k / 32] - Pow2(k % 32)] + bm[k / 32 + 1..]
  {
    BitWeight(bm[k / 32], k % 32);
  }

  lemma WithBitAt(bm: seq<Word>, k: nat, j: nat)
    requires k / 32 < |bm|
    ensures BitAt(WithBit(bm, k), j) == (j == k || BitAt(bm, j))
  {
    if j / 32 == k / 32 {
      TestAfterSet(bm[k / 32], k % 32, j % 32);
      assert j % 32 == k % 32 ==> j == k;
    }
  }

  lemma WithoutBitAt(bm: seq<Word>, k: nat, j: nat)
    requires k / 32 < |bm|
    ensures BitAt(WithoutBit(bm, k), j) == (j != k && BitAt(bm, j))
  {
    if j / 32 == k / 32 {
      TestAfterClear(bm[k / 32], k % 32, j % 32);
      assert j % 32 == k % 32 ==> j == k;
    }
  }

  /** Allocating bit k takes exactly k out of the free bits. */
  lemma WithBitFree(bm: seq<Word>, k: nat, n: nat)
    requires k / 32 < |bm| && k < n
    ensures FreeBits(WithBit(bm, k), n) == FreeBits(bm, n) - {k}
    ensures !BitAt(bm, k) ==> |FreeBits(bm, n)| == |FreeBits(WithBit(bm, k), n)| + 1
  {
    forall j: nat ensures BitAt(WithBit(bm, k), j) == (j == k || BitAt(bm, j)) {
      WithBitAt(bm, k, j);
    }
  }

  /** Releasing bit k adds exactly k to the free bits. */
  lemma WithoutBitFree(bm: seq<Word>, k: nat, n: nat)
    requires k / 32 < |bm| && k < n
    ensures FreeBits(WithoutBit(bm, k), n) == FreeBits(bm, n) + {k}
    ensures BitAt(bm, k) ==> |FreeBits(WithoutBit(bm, k), n)| == |FreeBits(bm, n)| + 1
  {
    forall j: nat ensures BitAt(WithoutBit(bm, k), j) == (j != k && BitAt(bm, j)) {
      WithoutBitAt(bm, k, j);
    }
  }

  /** Allocating a clear bit and releasing it restores every word of the bitmap. */
  lemma AllocThenClear(bm: seq<Word>, k: nat)
    requires k / 32 < |bm| && !BitAt(bm, k)
    ensures WithoutBit(WithBit(bm, k), k) == bm
  {
    SetThenClear(bm[k / 32], k % 32);
  }

  /** A full word holds no clear bit, so the scan may step over it. */
  lemma FullWordHasNoFreeBit(bm: seq<Word>, w: nat)
    requires w < |bm| && bm[w] == 0xFFFF_FFFF
    ensures forall k: nat :: 32 * w <= k < 32 * w + 32 ==> BitAt(bm, k)
  {
    Pow2Of32();
    forall k: nat | 32 * w <= k < 32 * w + 32 ensures BitAt(bm, k) {
      AllOnesHasEveryBit(bm[w], k % 32, 32);
    }
  }

  /** Sets the lowest clear bit at or after the start word; -1 when there is none. */
  method AllocBit(bitmap: array<Word>, maxBits: nat, startWord: nat) returns (bit: int)
    requires maxBits <= 32 * bitmap.Length
    modifies bitmap
    ensures bit == -1 ==> bitmap[..] == old(bitmap[..])
    ensures bit == -1 ==> forall k: nat :: 32 * startWord <= k < maxBits ==> BitAt(old(bitmap[..]), k)
    ensures bit != -1 ==> 32 * startWord <= bit < maxBits && !BitAt(old(bitmap[..]), bit)
    ensures bit != -1 ==> forall k: nat :: 32 * startWord <= k < bit ==> BitAt(old(bitmap[..]), k)
    ensures bit != -1 ==> bitmap[..] == WithBit(old(bitmap[..]), bit)
  {
    ghost var bm := bitmap[..];
    var w := startWord;
    while w * 32 < maxBits
      invariant startWord <= w
      invariant bitmap[..] == bm
      invariant forall k: nat :: 32 * startWord <= k < 32 * w && k < maxBits ==> BitAt(bm, k)
    {
      if bitmap[w] == 0xFFFF_FFFF {
        FullWordHasNoFreeBit(bm, w);
        w := w + 1;
        continue;
      }
      var b := 0;
      while b < 32 && w * 32 + b < maxBits
        invariant b <= 32
        invariant bitmap[..] == bm
        invariant forall k: nat :: 32 * startWord <= k < 32 * w + b && k < maxBits ==> BitAt(bm, k)
      {
        assert (w * 32 + b) / 32 == w && (w * 32 + b) % 32 == b;
        if !TestBit(bitmap[w], b) {
          SetBitInWord(bitmap[w], b);
          bitmap[w] := SetBit(bitmap[w], b);
          return w * 32 + b;
        }
        assert BitAt(bm, w * 32 + b);
        b := b + 1;
      }
      w := w + 1;
    }
    return -1;
  }

  /** Clears a set bit; reports failure, changing nothing, when it is clear already. */
  method ReleaseBit(bitmap: array<Word>, index: nat) returns (sc: int)
    requires index < 32 * bitmap.Length
    modifies bitmap
    ensures sc == (if BitAt(old(bitmap[..]), index) then 0 else -1)
    ensures sc == 0 ==> bitmap[..] == WithoutBit(old(bitmap[..]), index)
    ensures sc != 0 ==> bitmap[..] == old(bitmap[..])
  {
    var word, b := index / 32, index % 32;
    if !TestBit(bitmap[word], b) {
      return -1;
    }
    SetBitInWord(bitmap[word], b);
    bitmap[word] := ClearBit(bitmap[word], b);
    return 0;
  }
}
