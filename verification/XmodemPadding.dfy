/** What the sender makes of a source: whole blocks, with CTRLZ behind the last byte, from which the source comes
    back. */
module XmodemPadding {
  import opened Gf256
  import opened XmodemPort
  import opened XmodemSender

  function Blocks(src: seq<byte>): nat {
    |src| / BLOCK + 1
  }

  function Padded(src: seq<byte>): (p: seq<byte>)
    ensures |p| == BLOCK * Blocks(src)
  {
    src + [CTRLZ] + ZeroBytes(BLOCK * Blocks(src) - |src| - 1)
  }

  lemma BlockOfPadded(src: seq<byte>, j: nat)
    requires BLOCK * j <= |src|
    ensures j < Blocks(src)
    ensures Block(src, BLOCK * j) == Padded(src)[BLOCK * j..BLOCK * j + BLOCK]
  {
    var p := Padded(src);
    var c := |src| - BLOCK * j;
    if c >= BLOCK {
      assert p[BLOCK * j..BLOCK * j + BLOCK] == src[BLOCK * j..BLOCK * j + BLOCK];
    } else {
      assert Blocks(src) == j + 1;
      assert p[BLOCK * j..] == src[BLOCK * j..] + [CTRLZ] + ZeroBytes(BLOCK - 1 - c);
      assert p[BLOCK * j..BLOCK * j + BLOCK] == p[BLOCK * j..];
    }
  }

  lemma MoreBlocksIff(src: seq<byte>, j: nat)
    ensures BLOCK * j <= |src| <==> j < Blocks(src)
  {
  }

  /** The end of the shorter source shows. */
  lemma LongerDiffers(s: seq<byte>, t: seq<byte>)
    requires |s| < |t| && Blocks(s) == Blocks(t)
    ensures Padded(s)[|t|] == 0 && Padded(t)[|t|] == CTRLZ
  {
  }

  /** The source is determined by what was sent. */
  lemma PaddedInjective(s: seq<byte>, t: seq<byte>)
    ensures Padded(s) == Padded(t) <==> s == t
  {
    if Padded(s) == Padded(t) {
      assert |Padded(s)| == |Padded(t)|;
      if |s| < |t| {
        LongerDiffers(s, t);
      } else if |t| < |s| {
        LongerDiffers(t, s);
      }
      assert s == Padded(s)[..|s|] && t == Padded(t)[..|t|];
    }
  }
}
