/** Byte sequences, and the few operations of Go's `bytes` and `strings`
    packages that the codec and the padding helpers rely on: `Repeat` of a
    single byte, `TrimRight`/`TrimLeft` of a single character, and the
    codec's own `reverse`. */
module Bytes {

  /** A Go `byte`. */
  type byte = x: int | 0 <= x < 256

  /** Every element of `s` is `c`. */
  predicate AllAre<T(==)>(s: seq<T>, c: T) {
    forall k :: 0 <= k < |s| ==> s[k] == c
  }

  /** `bytes.Repeat([]byte{c}, n)`. */
  function Repeat(c: byte, n: nat): (r: seq<byte>)
    ensures |r| == n && AllAre(r, c)
  {
    seq(n, _ => c)
  }

  /** `bytes.Repeat([]byte{0}, n)`, also `strings.Repeat("\x00", n)`. */
  function Zeros(n: nat): (r: seq<byte>)
    ensures |r| == n && AllAre(r, 0)
  {
    Repeat(0, n)
  }

  /** `s` read back to front. */
  function Reversed<T>(s: seq<T>): (r: seq<T>)
    ensures |r| == |s|
    ensures forall k :: 0 <= k < |s| ==> r[k] == s[|s| - 1 - k]
  {
    seq(|s|, k requires 0 <= k < |s| => s[|s| - 1 - k])
  }

  lemma ReversedTwice<T>(s: seq<T>)
    ensures Reversed(Reversed(s)) == s
  {
  }

  lemma ReversedConcat<T>(a: seq<T>, b: seq<T>)
    ensures Reversed(a + b) == Reversed(b) + Reversed(a)
  {
  }

  lemma AppendAssociates<T>(x: seq<T>, y: seq<T>, z: seq<T>)
    ensures x + (y + z) == (x + y) + z
  {
  }

  /** `strings.TrimRight(s, c)` for a one-character cutset: drop every
      trailing `c`. The result is the longest prefix of `s` that does not
      end in `c`, and what was dropped is all `c`. */
  function TrimRight<T(==)>(s: seq<T>, c: T): (r: seq<T>)
    ensures |r| <= |s| && r == s[..|r|]
    ensures AllAre(s[|r|..], c)
    ensures r == [] || r[|r| - 1] != c
  {
    if s != [] && s[|s| - 1] == c then
      var r := TrimRight(s[..|s| - 1], c);
      assert s[|r|..] == s[..|s| - 1][|r|..] + [c];
      r
    else s
  }

  /** `bytes.TrimLeftFunc(s, func(r) bool { return r == c })` for an ASCII
      `c`: drop every leading `c`. */
  function TrimLeft<T(==)>(s: seq<T>, c: T): (r: seq<T>)
    ensures |r| <= |s| && r == s[|s| - |r|..]
    ensures AllAre(s[..|s| - |r|], c)
    ensures r == [] || r[0] != c
  {
    if s != [] && s[0] == c then
      var r := TrimLeft(s[1..], c);
      assert s[..|s| - |r|] == [c] + s[1..][..|s[1..]| - |r|];
      r
    else s
  }

  /** Trimming ignores any run of `c` appended to the input. */
  lemma {:induction false} TrimRightPadded<T>(s: seq<T>, z: seq<T>, c: T)
    requires AllAre(z, c)
    ensures TrimRight(s + z, c) == TrimRight(s, c)
  {
    if z == [] {
      assert s + z == s;
    } else {
      var z' := z[..|z| - 1];
      assert (s + z)[..|s + z| - 1] == s + z';
      TrimRightPadded(s, z', c);
    }
  }

  /** A sequence that does not end in `c` is left alone by `TrimRight`. */
  lemma TrimRightNoop<T>(s: seq<T>, c: T)
    requires s == [] || s[|s| - 1] != c
    ensures TrimRight(s, c) == s
  {
  }

  /** A sequence that does not start with `c` is left alone by `TrimLeft`. */
  lemma TrimLeftNoop<T>(s: seq<T>, c: T)
    requires s == [] || s[0] != c
    ensures TrimLeft(s, c) == s
  {
  }

  /** The codec's `reverse`: the characters of `s` are written into a fresh
      buffer from its last slot down to its first. Characters are bytes
      here, which for ASCII is the same as the source's runes. */
  method Reverse(s: seq<byte>) returns (r: seq<byte>)
    ensures r == Reversed(s)
  {
    var cs := new byte[|s|];
    var i := cs.Length;
    var k := 0;
    while k < |s|
      invariant 0 <= k <= |s| && i == |s| - k
      invariant forall j :: i <= j < |s| ==> cs[j] == s[|s| - 1 - j]
    {
      i := i - 1;
      cs[i] := s[k];
      k := k + 1;
    }
    r := cs[..];
  }
}
