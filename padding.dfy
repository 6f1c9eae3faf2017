/** The block padding helpers of the DES wrapper: PKCS #5 padding, whose
    pad bytes each hold the pad length, and zero padding. The cipher
    itself is not modelled. */
module Padding {
  import opened Bytes
  import opened Encoding

  /** The pad length both schemes add: enough to reach the next multiple
      of `blockSize`, and a whole block when `n` already is one. */
  function PadLength(n: nat, blockSize: int): (p: int)
    requires blockSize > 0
    ensures 1 <= p <= blockSize && (n + p) % blockSize == 0
  {
    var p := blockSize - n % blockSize;
    DivModDecompose(n, blockSize);
    DivModUnique(n + p, blockSize, n / blockSize + 1, 0);
    p
  }

  /** `PKCS5Padding`: `src` followed by `p` copies of the byte `p`, where
      `p` is the pad length. The byte conversion keeps the low eight bits,
      so a pad of 256 or more is written with the wrong count. */
  function PKCS5Padding(src: seq<byte>, blockSize: int): (r: seq<byte>)
    requires blockSize > 0
    ensures |src| < |r| <= |src| + blockSize && |r| % blockSize == 0
    ensures r[..|src|] == src
    ensures AllAre(r[|src|..], (|r| - |src|) % 256)
  {
    var p := PadLength(|src|, blockSize);
    var r := src + Repeat(p % 256, p);
    assert r[|src|..] == Repeat(p % 256, p);
    r
  }

  /** `PKCS5UnPadding`: drop as many trailing bytes as the last byte says.
      The source indexes the last byte and slices without checking, so an
      empty input or a count above the length panics; those inputs are
      excluded here. */
  function PKCS5UnPadding(src: seq<byte>): (r: seq<byte>)
    requires |src| > 0 && src[|src| - 1] <= |src|
    ensures |r| <= |src| && r == src[..|r|] && |src| - |r| == src[|src| - 1]
  {
    src[..|src| - src[|src| - 1]]
  }

  /** Padded output can always be unpadded, and unpadding gives back the
      input exactly when the pad length fits in a byte; so the round trip
      holds for every block size from 1 to 255. */
  lemma PKCS5RoundTrip(src: seq<byte>, blockSize: int)
    requires blockSize > 0
    ensures var r := PKCS5Padding(src, blockSize); r[|r| - 1] <= |r|
    ensures PKCS5UnPadding(PKCS5Padding(src, blockSize)) == src <==> PadLength(|src|, blockSize) < 256
    ensures blockSize < 256 ==> PKCS5UnPadding(PKCS5Padding(src, blockSize)) == src
  {
    var r := PKCS5Padding(src, blockSize);
    var p := |r| - |src|;
    assert r[|r| - 1] == r[|src|..][p - 1];
    var u := PKCS5UnPadding(r);
    if p >= 256 {
      assert |u| > |src|;
    }
  }

  /** `ZeroPadding`: `src` followed by as many zero bytes as the pad
      length. */
  function ZeroPadding(src: seq<byte>, blockSize: int): (r: seq<byte>)
    requires blockSize > 0
    ensures |src| < |r| <= |src| + blockSize && |r| % blockSize == 0
    ensures r[..|src|] == src && AllAre(r[|src|..], 0)
  {
    var r := src + Zeros(PadLength(|src|, blockSize));
    assert r[|src|..] == Zeros(PadLength(|src|, blockSize));
    r
  }

  /** `ZeroUnPadding`: `bytes.TrimFunc` with a test for the zero rune,
      which strips zero bytes from both ends (a zero byte is never part of
      a longer UTF-8 sequence). What is left is a slice of `src` with only
      zero bytes around it, and neither starts nor ends with zero. */
  function ZeroUnPadding(src: seq<byte>): (r: seq<byte>)
    ensures |r| <= |src|
    ensures r == [] || (r[0] != 0 && r[|r| - 1] != 0)
    ensures exists i :: (0 <= i <= |src| - |r| && src[i..][..|r|] == r &&
                         AllAre(src[..i], 0) && AllAre(src[i..][|r|..], 0))
  {
    var l := TrimLeft(src, 0);
    var r := TrimRight(l, 0);
    var i := |src| - |l|;
    assert src[i..] == l;
    assert r != [] ==> r[0] == l[0];
    r
  }

  /** Zero padding is undone exactly when the input neither starts nor
      ends with a zero byte: the pad is trimmed, but so would be such a
      byte of the input. */
  lemma ZeroRoundTrip(src: seq<byte>, blockSize: int)
    requires blockSize > 0
    ensures ZeroUnPadding(ZeroPadding(src, blockSize)) == src <==>
      src == [] || (src[0] != 0 && src[|src| - 1] != 0)
  {
    var z := Zeros(PadLength(|src|, blockSize));
    assert ZeroPadding(src, blockSize) == src + z;
    if src == [] {
      assert src + z == z;
    } else if src[0] != 0 && src[|src| - 1] != 0 {
      TrimLeftNoop(src + z, 0);
      TrimRightPadded(src, z, 0);
      TrimRightNoop(src, 0);
    }
  }
}
