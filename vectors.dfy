/** Worked examples: formats and messages whose sizes and encodings are
    fixed by the contracts of the model. */
module Vectors {
  import opened Bytes
  import opened Encoding
  import opened Format
  import opened PackEngine
  import opened UnpackEngine

  /** Fixed-string lengths come from the digits before the trailing 's';
      a token without digits has length 0, and one without an 's' that is
      not in the grammar is unknown. */
  lemma ClassifyExamples()
    ensures Classify("4s") == StrSlot(4) && Classify("10s") == StrSlot(10)
    ensures Classify("s") == StrSlot(0) && Classify("a") == Unknown
  {
    assert TrimRight("4s", 's') == "4" && TrimRight("10s", 's') == "10";
    assert TrimRight("s", 's') == "";
  }

  /** The format `I I I 4s` parses as three 4-byte integers and a 4-byte
      string, which take 16 bytes. */
  lemma SizeExample()
    ensures SizeOf(Parse(["I", "I", "I", "4s"])) == Outcome(16, None)
  {
    ClassifyExamples();
    var ts := Parse(["I", "I", "I", "4s"]);
    assert ts == [IntSlot(4), IntSlot(4), IntSlot(4), StrSlot(4)];
    assert ts[1..] == [IntSlot(4), IntSlot(4), StrSlot(4)] && ts[1..][1..] == [IntSlot(4), StrSlot(4)];
    assert ts[1..][1..][1..] == [StrSlot(4)] && ts[1..][1..][1..][1..] == [];
  }

  /** Big-endian short fields read as signed values: 0xFFFB is
      sign-extended to -5. */
  lemma SignedShortFields()
    ensures DecodeField(IntSlot(2), [0, 0], BigEndian) == Int(0)
    ensures DecodeField(IntSlot(2), [0, 5], BigEndian) == Int(5)
    ensures DecodeField(IntSlot(2), [255, 251], BigEndian) == Int(-5)
  {
    Pow256Widths();
    assert Reversed([0, 0]) == [0, 0] && Reversed([0, 5]) == [5, 0] && Reversed([255, 251]) == [251, 255];
    assert LittleValue([0, 0]) == 0 && LittleValue([5, 0]) == 5 && LittleValue([251, 255]) == 65531;
  }

  /** Three signed shorts read big-endian. */
  lemma SignedShorts()
    ensures UnpackFrom([IntSlot(2), IntSlot(2), IntSlot(2)], [0, 0, 0, 5, 255, 251], BigEndian) ==
      [Int(0), Int(5), Int(-5)]
  {
    SignedShortFields();
    var ts := [IntSlot(2), IntSlot(2), IntSlot(2)];
    var b: seq<byte> := [0, 0, 0, 5, 255, 251];
    assert b[..2] == [0, 0] && b[2..][..2] == [0, 5] && b[2..][2..][..2] == [255, 251];
    assert ts[1..] == [IntSlot(2), IntSlot(2)] && ts[1..][1..] == [IntSlot(2)] && ts[1..][1..][1..] == [];
    assert SizeOf(ts[1..][1..]) == Outcome(2, None) && SizeOf(ts[1..]) == Outcome(4, None);
    assert UnpackFrom(ts[1..][1..], b[2..][2..], BigEndian) == [Int(-5)];
    assert UnpackFrom(ts[1..], b[2..], BigEndian) == [Int(5), Int(-5)];
  }

  /** `UnPack` of the format `! h h h` reads the bytes 0 0 0 5 255 251 as
      the big-endian shorts 0, 5 and -5. */
  lemma UnpackSignedExample()
    ensures var format := ["!", "h", "h", "h"];
      NonNegativeLengths(Parse(format)) &&
      Unpacked(format, [0, 0, 0, 5, 255, 251]) == Outcome([Int(0), Int(5), Int(-5)], None)
  {
    var ts := Parse(["!", "h", "h", "h"]);
    assert ts == [Marker(BigEndian), IntSlot(2), IntSlot(2), IntSlot(2)];
    assert ts[1..] == [IntSlot(2), IntSlot(2), IntSlot(2)];
    assert SizeOf(ts[1..][1..][1..]) == Outcome(2, None) && SizeOf(ts[1..][1..]) == Outcome(4, None);
    assert SizeOf(ts) == SizeOf(ts[1..]) == Outcome(6, None);
    SignedShorts();
  }

  /** A string that fills its slot is written back to front under
      big-endian order. */
  lemma FullStringBigEndian(s: seq<byte>)
    ensures FixedString(s, |s|, BigEndian) == Reversed(s)
  {
    assert s[..|s|] == s && Zeros(0) == [];
  }

  /** A string slot of `n` bytes in front of other tokens writes the
      string's layout, then the rest. */
  lemma StrFieldFirst(n: nat, s: seq<byte>, ts: seq<Token>, msg: seq<Value>)
    requires WellFormed(ts) && ValuesRead(ts) <= |msg|
    ensures WellFormed([StrSlot(n)] + ts) && ValuesRead([StrSlot(n)] + ts) <= |[Str(s)] + msg|
    ensures PackFrom([StrSlot(n)] + ts, [Str(s)] + msg, BigEndian) ==
      Prepend(FixedString(s, n, BigEndian), PackFrom(ts, msg, BigEndian))
  {
    var u := [StrSlot(n)] + ts;
    assert u[0] == StrSlot(n) && u[1..] == ts && ([Str(s)] + msg)[1..] == msg;
  }

  lemma ClassifyStrings()
    ensures Classify("1s") == StrSlot(1) && Classify("2s") == StrSlot(2) && Classify("10s") == StrSlot(10)
  {
    assert TrimRight("1s", 's') == "1" && TrimRight("2s", 's') == "2" && TrimRight("10s", 's') == "10";
  }

  /** The format `> 1s 2s 10s` parses as a big-endian marker and string
      slots of 1, 2 and 10 bytes, and claims three values. */
  lemma ParseStrings()
    ensures Parse([">", "1s", "2s", "10s"]) == [Marker(BigEndian), StrSlot(1), StrSlot(2), StrSlot(10)]
    ensures ValueSlots([">", "1s", "2s", "10s"]) == 3
  {
    ClassifyStrings();
    var f := [">", "1s", "2s", "10s"];
    assert f[1..] == ["1s", "2s", "10s"] && f[1..][1..] == ["2s", "10s"] && f[1..][1..][1..] == ["10s"];
  }

  /** The three strings of the example, back to front. */
  lemma ReversedStrings()
    ensures var r: seq<byte> := Reversed([97]) + (Reversed([98, 101]) +
      (Reversed([49, 50, 51, 52, 53, 54, 55, 56, 57, 48]) + []));
      r == [97, 101, 98, 48, 57, 56, 55, 54, 53, 52, 51, 50, 49]
  {
    var c: seq<byte> := [49, 50, 51, 52, 53, 54, 55, 56, 57, 48];
    assert Reversed(c) == [48, 57, 56, 55, 54, 53, 52, 51, 50, 49];
    assert Reversed([97]) == [97] && Reversed([98, 101]) == [101, 98];
  }

  /** The string slots of 1, 2 and 10 bytes, big-endian. */
  lemma PackStringsWalk()
    ensures PackFrom([StrSlot(1), StrSlot(2), StrSlot(10)],
                     [Str([97]), Str([98, 101]), Str([49, 50, 51, 52, 53, 54, 55, 56, 57, 48])], BigEndian) ==
      Outcome([97, 101, 98, 48, 57, 56, 55, 54, 53, 52, 51, 50, 49], None)
  {
    var a: seq<byte>, b: seq<byte>, c: seq<byte> := [97], [98, 101], [49, 50, 51, 52, 53, 54, 55, 56, 57, 48];
    FullStringBigEndian(a);
    FullStringBigEndian(b);
    FullStringBigEndian(c);
    StrFieldFirst(10, c, [], []);
    assert [StrSlot(10)] + [] == [StrSlot(10)] && [Str(c)] + [] == [Str(c)];
    StrFieldFirst(2, b, [StrSlot(10)], [Str(c)]);
    StrFieldFirst(1, a, [StrSlot(2), StrSlot(10)], [Str(b), Str(c)]);
    ReversedStrings();
  }

  /** `Pack` of the format `> 1s 2s 10s` writes each string reversed, in
      its own slot. */
  lemma PackStringsExample()
    ensures var format := [">", "1s", "2s", "10s"];
      NonNegativeLengths(Parse(format)) &&
      Packed(format, [Str([97]), Str([98, 101]), Str([49, 50, 51, 52, 53, 54, 55, 56, 57, 48])]) ==
      Outcome([97, 101, 98, 48, 57, 56, 55, 54, 53, 52, 51, 50, 49], None)
  {
    var ts := Parse([">", "1s", "2s", "10s"]);
    ParseStrings();
    PackStringsWalk();
    assert ts[0] == Marker(BigEndian) && ts[1..] == [StrSlot(1), StrSlot(2), StrSlot(10)];
  }
}
