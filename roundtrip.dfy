/** What `UnPack` gives back for what `Pack` wrote, and the other way
    round. */
module RoundTrip {
  import opened Bytes
  import opened Encoding
  import opened Format
  import opened PackEngine
  import opened UnpackEngine

  function Min(a: int, b: int): int {
    if a < b then a else b
  }

  /** What a value of the token's kind comes back as after a pack and an
      unpack: an integer as the sign extension of its low `size` bytes, a
      string cut to `n` bytes and stripped of trailing NUL bytes, and
      anything else unchanged. */
  function Normalize(t: Token, v: Value): (r: Value)
    ensures Fits(t, v) ==> Fits(t, r)
  {
    if !(IsField(t) && Fits(t, v)) then v
    else match t
      case IntSlot(size) =>
        Pow256Widths();
        Int(SignExtend(v.i % Pow256(size), size))
      case StrSlot(n) => Str(TrimRight(v.s[..Min(n, |v.s|)], 0))
      case _ => v
  }

  /** `Normalize` applied to each data token and its value. */
  function Normalized(ds: seq<Token>, vs: seq<Value>): (r: seq<Value>)
    requires |ds| <= |vs|
    ensures |r| == |ds|
    ensures forall j :: 0 <= j < |ds| ==> r[j] == Normalize(ds[j], vs[j])
  {
    if ds == [] then []
    else
      var r := [Normalize(ds[0], vs[0])] + Normalized(ds[1..], vs[1..]);
      assert forall j :: 1 <= j < |ds| ==> r[j] == Normalize(ds[1..][j - 1], vs[1..][j - 1]);
      r
  }

  /** A value that survives a round trip unchanged: an integer that fits
      the slot's signed range, a string no longer than the slot that does
      not end in a NUL byte; bools and floats always do. */
  predicate Canonical(t: Token, v: Value) {
    match t
    case IntSlot(size) => v.Int? && IsIntWidth(size) ==> -Pow256(size) / 2 <= v.i < Pow256(size) / 2
    case StrSlot(n) => v.Str? ==> |v.s| <= n && (v.s == [] || v.s[|v.s| - 1] != 0)
    case _ => true
  }

  /** The values a round trip leaves alone are exactly the canonical ones. */
  lemma NormalizeFixedPoint(t: Token, v: Value)
    requires IsField(t) && Fits(t, v)
    ensures Normalize(t, v) == v <==> Canonical(t, v)
  {
    match t
    case IntSlot(size) =>
      if Canonical(t, v) {
        SignExtendInRange(v.i, size);
      }
    case StrSlot(n) =>
      var m := Min(n, |v.s|);
      if Canonical(t, v) {
        assert v.s[..m] == v.s;
        TrimRightNoop(v.s, 0);
      }
    case _ =>
  }

  /** Reading back one field gives the normalized value, in either order. */
  lemma FieldRoundTrip(t: Token, v: Value, order: Order)
    requires IsField(t) && Fits(t, v)
    ensures DecodeField(t, EncodeField(t, v, order).value, order) == Normalize(t, v)
  {
    match t
    case BoolSlot =>
    case IntSlot(size) => Int64RoundTrip(v.i, size, order);
    case Float32Slot => FloatRoundTrip(v.bits32, 0, order);
    case Float64Slot => FloatRoundTrip(0, v.bits64, order);
    case StrSlot(n) =>
      var m := Min(n, |v.s|);
      var z := Zeros(n - m);
      if order == LittleEndian {
        assert FixedString(v.s, n, order) == v.s[..m] + z;
        TrimRightPadded(v.s[..m], z, 0);
      } else {
        assert FixedString(v.s, n, order) == z + Reversed(v.s[..m]);
        ReversedConcat(z, Reversed(v.s[..m]));
        ReversedTwice(v.s[..m]);
        TrimRightPadded(v.s[..m], Reversed(z), 0);
      }
  }

  /** A little-endian string field read back and written again gives the
      same bytes: the NUL bytes trimmed off are the padding. */
  lemma StrRewriteLittle(n: nat, c: seq<byte>)
    requires |c| == n
    ensures FixedString(TrimRight(c, 0), n, LittleEndian) == c
  {
    var s := TrimRight(c, 0);
    assert c == s + Zeros(n - |s|);
  }

  /** The same in either order, a big-endian field being the little-endian
      one read back to front. */
  lemma {:induction false} StrRewrite(n: nat, b: seq<byte>, order: Order)
    requires |b| == n
    ensures FixedString(TrimRight(InOrder(b, order), 0), n, order) == b
  {
    var c := InOrder(b, order);
    StrRewriteLittle(n, c);
    if order == BigEndian {
      FixedStringBigEndian(TrimRight(c, 0), n);
      ReversedTwice(b);
    }
  }

  /** A bool byte read and written back is unchanged exactly when it is 0
      or 1. */
  lemma BoolRewrite(b: seq<byte>, order: Order)
    requires |b| == 1
    ensures EncodeField(BoolSlot, DecodeField(BoolSlot, b, order), order).value == b <==> b[0] <= 1
  {
    var x := BytesToBool(b, order);
    var e := BoolToBytes(x, order);
    assert EncodeField(BoolSlot, DecodeField(BoolSlot, b, order), order).value == e;
    assert b == [b[0]] && e == [if x then 1 else 0];
    if b[0] <= 1 {
      assert e[0] == b[0];
    } else {
      assert e[0] != b[0];
    }
  }

  /** An integer field read and written back is unchanged. */
  lemma IntRewrite(size: nat, b: seq<byte>, order: Order)
    requires IsIntWidth(size) && |b| == size
    ensures EncodeField(IntSlot(size), DecodeField(IntSlot(size), b, order), order).value == b
  {
    assert EncodeField(IntSlot(size), DecodeField(IntSlot(size), b, order), order).value ==
      Int64ToBytes(BytesToInt64(b, order), |b|, order);
    BytesToInt64Encodes(b, order);
  }

  /** A float field read and written back is unchanged. */
  lemma FloatRewrite(t: Token, b: seq<byte>, order: Order)
    requires (t == Float32Slot && |b| == 4) || (t == Float64Slot && |b| == 8)
    ensures EncodeField(t, DecodeField(t, b, order), order).value == b
  {
    if t == Float32Slot {
      assert EncodeField(t, DecodeField(t, b, order), order).value ==
        Float32ToBytes(BytesToFloat32(b, order), order);
      FloatBytesEncode(b, Zeros(8), order);
    } else {
      assert EncodeField(t, DecodeField(t, b, order), order).value ==
        Float64ToBytes(BytesToFloat64(b, order), order);
      FloatBytesEncode(Zeros(4), b, order);
    }
  }

  /** Reading a field and writing it back gives the same bytes, except for
      a bool byte other than 0 or 1, which is written back as 0 or 1. */
  lemma FieldRewrite(t: Token, b: seq<byte>, order: Order)
    requires IsField(t) && |b| == Width(t)
    ensures EncodeField(t, DecodeField(t, b, order), order).value == b <==> (t.BoolSlot? ==> b[0] <= 1)
  {
    match t
    case BoolSlot => BoolRewrite(b, order);
    case IntSlot(size) => IntRewrite(size, b, order);
    case Float32Slot => FloatRewrite(t, b, order);
    case Float64Slot => FloatRewrite(t, b, order);
    case StrSlot(n) =>
      assert EncodeField(t, DecodeField(t, b, order), order).value ==
        FixedString(TrimRight(InOrder(b, order), 0), n, order);
      StrRewrite(n, b, order);
  }

  lemma NormalizedCons(t: Token, ds: seq<Token>, vs: seq<Value>)
    requires 1 + |ds| <= |vs|
    ensures Normalized([t] + ds, vs) == [Normalize(t, vs[0])] + Normalized(ds, vs[1..])
  {
    assert ([t] + ds)[1..] == ds;
  }

  /** The walk's bytes for a format that starts with a field whose value
      fits: that field's bytes, then the rest. */
  lemma PackFieldFirst(ts: seq<Token>, msg: seq<Value>, order: Order)
    requires ts != [] && WellFormed(ts) && ValuesRead(ts) <= |msg|
    requires IsField(ts[0]) && |msg| > 0 && Fits(ts[0], msg[0])
    ensures WellFormed(ts[1..]) && ValuesRead(ts[1..]) <= |msg[1..]|
    ensures PackFrom(ts, msg, order).value ==
      EncodeField(ts[0], msg[0], order).value + PackFrom(ts[1..], msg[1..], order).value
  {
    assert WellFormed(ts[1..]);
  }

  /** Unpacking a format that starts with a field: that field's value from
      the first bytes, then the rest. */
  lemma UnpackFieldFirst(ts: seq<Token>, e: seq<byte>, p: seq<byte>, order: Order)
    requires ts != [] && WellFormed(ts) && SizeOf(ts).err.None? && SizeOf(ts).value <= |e + p|
    requires IsField(ts[0]) && |e| == Width(ts[0])
    ensures WellFormed(ts[1..]) && SizeOf(ts[1..]).err.None? && SizeOf(ts[1..]).value <= |p|
    ensures UnpackFrom(ts, e + p, order) == [DecodeField(ts[0], e, order)] + UnpackFrom(ts[1..], p, order)
  {
    assert WellFormed(ts[1..]);
    assert (e + p)[..|e|] == e && (e + p)[|e|..] == p;
  }

  /** The round trip over the tokens `ts`: the walk packs `msg` without
      error, into at least `CalcSize` bytes, and unpacking those bytes
      gives back the normalized values, one per data token. */
  ghost predicate RoundTrips(ts: seq<Token>, msg: seq<Value>, order: Order) {
    WellFormed(ts) && ValuesRead(ts) <= |msg| && SizeOf(ts).err.None? && |DataTokens(ts)| <= |msg| &&
    PackFrom(ts, msg, order).err.None? && SizeOf(ts).value <= |PackFrom(ts, msg, order).value| &&
    UnpackFrom(ts, PackFrom(ts, msg, order).value, order) == Normalized(DataTokens(ts), msg)
  }

  /** A field whose value fits, in front of tokens that round trip. */
  lemma RoundTripsField(ts: seq<Token>, msg: seq<Value>, order: Order)
    requires ts != [] && WellFormed(ts) && IsField(ts[0]) && |msg| > 0 && Fits(ts[0], msg[0])
    requires RoundTrips(ts[1..], msg[1..], order)
    ensures RoundTrips(ts, msg, order)
  {
    var t := ts[0];
    assert DataTokens(ts) == [t] + DataTokens(ts[1..]);
    PackFieldFirst(ts, msg, order);
    var e := EncodeField(t, msg[0], order).value;
    var p := PackFrom(ts[1..], msg[1..], order).value;
    UnpackFieldFirst(ts, e, p, order);
    FieldRoundTrip(t, msg[0], order);
    NormalizedCons(t, DataTokens(ts[1..]), msg);
  }

  /** A marker in front of tokens that round trip in its order. */
  lemma RoundTripsMarker(ts: seq<Token>, msg: seq<Value>, order: Order)
    requires ts != [] && WellFormed(ts) && ts[0].Marker?
    requires RoundTrips(ts[1..], msg, ts[0].order)
    ensures RoundTrips(ts, msg, order)
  {
    assert ValuesRead(ts) == ValuesRead(ts[1..]) && SizeOf(ts) == SizeOf(ts[1..]);
    assert DataTokens(ts) == DataTokens(ts[1..]);
    var p := PackFrom(ts[1..], msg, ts[0].order);
    assert PackFrom(ts, msg, order) == p;
    assert UnpackFrom(ts, p.value, order) == UnpackFrom(ts[1..], p.value, ts[0].order);
  }

  /** Every format `CalcSize` accepts round trips every message whose
      values have the kinds its data tokens expect. */
  lemma {:induction false} PackUnpack(ts: seq<Token>, msg: seq<Value>, order: Order)
    requires WellFormed(ts) && SizeOf(ts).err.None? && WellTyped(DataTokens(ts), msg)
    ensures RoundTrips(ts, msg, order)
  {
    if ts == [] {
      assert Normalized([], msg) == [];
    } else {
      assert WellFormed(ts[1..]);
      if ts[0].Marker? {
        PackUnpack(ts[1..], msg, ts[0].order);
        RoundTripsMarker(ts, msg, order);
      } else {
        WellTypedCons(ts[0], DataTokens(ts[1..]), msg);
        assert DataTokens(ts) == [ts[0]] + DataTokens(ts[1..]);
        PackUnpack(ts[1..], msg[1..], order);
        RoundTripsField(ts, msg, order);
      }
    }
  }

  /** `UnPack` of what `Pack` returned without error gives back the
      normalized values of the message, one per value the format claims. */
  lemma PackThenUnpack(format: seq<string>, msg: seq<Value>)
    requires NonNegativeLengths(Parse(format)) && Packed(format, msg).err.None?
    ensures ValueSlots(format) == |DataTokens(Parse(format))| <= |msg|
    ensures Unpacked(format, Packed(format, msg).value) ==
      Outcome(Normalized(DataTokens(Parse(format)), msg), None)
  {
    PackedResult(format, msg);
    ValueSlotsCoverWalk(format);
    ParseWellFormed(format);
    PackUnpack(Parse(format), msg, LittleEndian);
  }

  /** When every value is canonical the round trip is exact. */
  lemma PackThenUnpackExact(format: seq<string>, msg: seq<Value>)
    requires NonNegativeLengths(Parse(format)) && Packed(format, msg).err.None?
    requires forall j :: 0 <= j < |DataTokens(Parse(format))| && j < |msg| ==>
      Canonical(DataTokens(Parse(format))[j], msg[j])
    ensures ValueSlots(format) <= |msg|
    ensures Unpacked(format, Packed(format, msg).value) == Outcome(msg[..ValueSlots(format)], None)
  {
    PackThenUnpack(format, msg);
    PackedResult(format, msg);
    ParseWellFormed(format);
    var ds := DataTokens(Parse(format));
    DataTokensAreFields(Parse(format));
    forall j | 0 <= j < |ds|
      ensures Normalize(ds[j], msg[j]) == msg[j]
    {
      NormalizeFixedPoint(ds[j], msg[j]);
    }
    assert Normalized(ds, msg) == msg[..|ds|];
  }
}
