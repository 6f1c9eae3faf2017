/** `UnPack` of library/binarypack/bp.go: after checking the format with
    `CalcSize` and the message length against its result, each data token
    reads the next bytes of the message in the byte order in force. */
module UnpackEngine {
  import opened Bytes
  import opened Encoding
  import opened Format

  /** The value a field slot holds, read from its `Width(t)` bytes. A
      fixed string is read in the byte order (reversed when big-endian)
      and loses its trailing NUL bytes. */
  function DecodeField(t: Token, b: seq<byte>, order: Order): (v: Value)
    requires IsField(t) && |b| == Width(t)
    ensures Fits(t, v)
  {
    match t
    case BoolSlot => Bool(BytesToBool(b, order))
    case IntSlot(_) => Int(BytesToInt64(b, order))
    case Float32Slot => Float32(BytesToFloat32(b, order))
    case Float64Slot => Float64(BytesToFloat64(b, order))
    case StrSlot(_) => Str(TrimRight(InOrder(b, order), 0))
  }

  /** What a format `CalcSize` accepts reads from `msg`: one value per data
      token, of that token's kind, each from the bytes after the previous
      one's, in the byte order set by the last marker before it. */
  function UnpackFrom(ts: seq<Token>, msg: seq<byte>, order: Order): (vs: seq<Value>)
    requires WellFormed(ts) && SizeOf(ts).err.None? && SizeOf(ts).value <= |msg|
    ensures |vs| == |DataTokens(ts)|
  {
    if ts == [] then []
    else
      assert WellFormed(ts[1..]) && NonNegativeLengths(ts[1..]);
      SizeOfNonNegative(ts[1..]);
      if ts[0].Marker? then UnpackFrom(ts[1..], msg, ts[0].order)
      else
        var w := Width(ts[0]);
        var rest := UnpackFrom(ts[1..], msg[w..], order);
        assert DataTokens(ts) == [ts[0]] + DataTokens(ts[1..]);
        [DecodeField(ts[0], msg[..w], order)] + rest
  }

  /** Each value the walk reads has the kind of its data token. */
  lemma {:induction false} UnpackFromWellTyped(ts: seq<Token>, msg: seq<byte>, order: Order)
    requires WellFormed(ts) && SizeOf(ts).err.None? && SizeOf(ts).value <= |msg|
    ensures WellTyped(DataTokens(ts), UnpackFrom(ts, msg, order))
  {
    if ts != [] {
      assert WellFormed(ts[1..]) && NonNegativeLengths(ts[1..]);
      SizeOfNonNegative(ts[1..]);
      if ts[0].Marker? {
        UnpackFromWellTyped(ts[1..], msg, ts[0].order);
      } else {
        var w := Width(ts[0]);
        var rest := UnpackFrom(ts[1..], msg[w..], order);
        UnpackFromWellTyped(ts[1..], msg[w..], order);
        assert DataTokens(ts) == [ts[0]] + DataTokens(ts[1..]);
        assert UnpackFrom(ts, msg, order)[1..] == rest;
        WellTypedCons(ts[0], DataTokens(ts[1..]), UnpackFrom(ts, msg, order));
      }
    }
  }

  /** What `UnPack` returns: `CalcSize`'s error when the format has an
      unknown token, `BufferTooShort` when the message is shorter than
      `CalcSize`, and otherwise the values read little-endian first. */
  function Unpacked(format: seq<string>, msg: seq<byte>): Outcome<seq<Value>>
    requires NonNegativeLengths(Parse(format))
  {
    var size := SizeOf(Parse(format));
    if size.err.Some? then Outcome([], size.err)
    else if size.value > |msg| then Outcome([], Some(BufferTooShort))
    else
      ParseWellFormed(format);
      Outcome(UnpackFrom(Parse(format), msg, LittleEndian), None)
  }

  /** `UnPack` fails with `UnknownToken` exactly when `CalcSize` does, with
      `BufferTooShort` exactly when the message is shorter than `CalcSize`,
      and otherwise gives one value of the right kind per data token. */
  lemma UnpackedResult(format: seq<string>, msg: seq<byte>)
    requires NonNegativeLengths(Parse(format))
    ensures Unpacked(format, msg).err == Some(UnknownToken) <==> SizeOf(Parse(format)).err.Some?
    ensures Unpacked(format, msg).err == Some(BufferTooShort) <==>
      SizeOf(Parse(format)).err.None? && SizeOf(Parse(format)).value > |msg|
    ensures Unpacked(format, msg).err.None? ==>
      |Unpacked(format, msg).value| == ValueSlots(format) &&
      WellTyped(DataTokens(Parse(format)), Unpacked(format, msg).value)
  {
    ValueSlotsCoverWalk(format);
    if SizeOf(Parse(format)).err.None? && SizeOf(Parse(format)).value <= |msg| {
      ParseWellFormed(format);
      UnpackFromWellTyped(Parse(format), msg, LittleEndian);
    }
  }

  /** `UnPack` reads exactly the first `CalcSize` bytes of the message:
      anything after them is ignored. */
  lemma {:induction false} UnpackReadsPrefix(ts: seq<Token>, msg: seq<byte>, order: Order)
    requires WellFormed(ts) && SizeOf(ts).err.None? && SizeOf(ts).value <= |msg|
    ensures 0 <= SizeOf(ts).value
    ensures UnpackFrom(ts, msg, order) == UnpackFrom(ts, msg[..SizeOf(ts).value], order)
  {
    assert NonNegativeLengths(ts);
    SizeOfNonNegative(ts);
    if ts != [] {
      assert WellFormed(ts[1..]) && NonNegativeLengths(ts[1..]);
      SizeOfNonNegative(ts[1..]);
      if ts[0].Marker? {
        UnpackReadsPrefix(ts[1..], msg, ts[0].order);
        assert msg[..SizeOf(ts).value] == msg[..SizeOf(ts[1..]).value];
      } else {
        var w := Width(ts[0]);
        var p := msg[..SizeOf(ts).value];
        assert p[..w] == msg[..w];
        assert p[w..] == msg[w..][..SizeOf(ts[1..]).value];
        UnpackReadsPrefix(ts[1..], msg[w..], order);
        UnpackReadsPrefix(ts[1..], p[w..], order);
      }
    }
  }

  /** The walk at token `k`, with `msg` the bytes not yet read, has read
      `res` so far, and its final result is `whole`. */
  ghost predicate Reading(ts: seq<Token>, k: nat, msg: seq<byte>, order: Order,
                          res: seq<Value>, whole: seq<Value>)
  {
    k <= |ts| && WellFormed(ts[k..]) && SizeOf(ts[k..]).err.None? && SizeOf(ts[k..]).value <= |msg| &&
    whole == res + UnpackFrom(ts[k..], msg, order)
  }

  /** A marker reads nothing and sets the order of the tokens after it.
      The walk's new state is given as `msg2`, `order2` and `res2`. */
  lemma ReadMarker(ts: seq<Token>, k: nat, msg: seq<byte>, order: Order, res: seq<Value>, whole: seq<Value>,
                   msg2: seq<byte>, order2: Order, res2: seq<Value>)
    requires Reading(ts, k, msg, order, res, whole) && k < |ts| && ts[k] == Marker(order2)
    requires msg2 == msg && res2 == res
    ensures Reading(ts, k + 1, msg2, order2, res2, whole)
  {
    assert ts[k..][0] == ts[k] && ts[k..][1..] == ts[k + 1..];
    assert WellFormed(ts[k..][1..]) && NonNegativeLengths(ts[k..][1..]);
    SizeOfNonNegative(ts[k + 1..]);
  }

  /** The walk over a format that starts with a field reads that field's
      width from the front of the message, then goes on with the rest. */
  lemma UnpackFromCons(u: seq<Token>, msg: seq<byte>, order: Order)
    requires u != [] && !u[0].Marker? && WellFormed(u) && SizeOf(u).err.None? && SizeOf(u).value <= |msg|
    ensures IsField(u[0]) && Width(u[0]) <= |msg|
    ensures WellFormed(u[1..]) && SizeOf(u[1..]).err.None? && SizeOf(u[1..]).value <= |msg| - Width(u[0])
    ensures UnpackFrom(u, msg, order) ==
      [DecodeField(u[0], msg[..Width(u[0])], order)] + UnpackFrom(u[1..], msg[Width(u[0])..], order)
  {
    assert WellFormed(u[1..]) && NonNegativeLengths(u[1..]);
    SizeOfNonNegative(u[1..]);
  }

  /** A field reads its width from the front of the message and appends
      its value. */
  lemma ReadField(ts: seq<Token>, k: nat, msg: seq<byte>, order: Order, res: seq<Value>, whole: seq<Value>)
    requires Reading(ts, k, msg, order, res, whole) && k < |ts| && !ts[k].Marker?
    ensures IsField(ts[k]) && Width(ts[k]) <= |msg|
    ensures Reading(ts, k + 1, msg[Width(ts[k])..], order,
                    res + [DecodeField(ts[k], msg[..Width(ts[k])], order)], whole)
  {
    var u := ts[k..];
    assert u[0] == ts[k] && u[1..] == ts[k + 1..];
    UnpackFromCons(u, msg, order);
    var w := Width(ts[k]);
    AppendAssociates(res, [DecodeField(ts[k], msg[..w], order)], UnpackFrom(ts[k + 1..], msg[w..], order));
  }

  /** Past the last token the walk has read everything. */
  lemma ReadDone(ts: seq<Token>, k: nat, msg: seq<byte>, order: Order, res: seq<Value>, whole: seq<Value>)
    requires Reading(ts, k, msg, order, res, whole) && k == |ts|
    ensures whole == res
  {
    assert ts[k..] == [];
    assert res + [] == res;
  }

  /** The data cases of `UnPack`'s switch for the token `f`: the value read
      from the front of `msg`, and how many bytes it took. */
  method UnpackToken(f: string, msg: seq<byte>, order: Order) returns (v: Value, w: nat)
    requires IsField(Classify(f)) && Width(Classify(f)) <= |msg|
    ensures w == Width(Classify(f))
    ensures v == DecodeField(Classify(f), msg[..w], order)
  {
    if f == "?" {
      assert Classify(f) == BoolSlot;
      v, w := Bool(BytesToBool(msg[..1], order)), 1;
    } else if f == "h" || f == "H" {
      assert Classify(f) == IntSlot(2);
      v, w := Int(BytesToInt64(msg[..2], order)), 2;
    } else if f == "i" || f == "I" || f == "l" || f == "L" {
      assert Classify(f) == IntSlot(4);
      v, w := Int(BytesToInt64(msg[..4], order)), 4;
    } else if f == "q" || f == "Q" {
      assert Classify(f) == IntSlot(8);
      v, w := Int(BytesToInt64(msg[..8], order)), 8;
    } else if f == "f" {
      assert Classify(f) == Float32Slot;
      v, w := Float32(BytesToFloat32(msg[..4], order)), 4;
    } else if f == "d" {
      assert Classify(f) == Float64Slot;
      v, w := Float64(BytesToFloat64(msg[..8], order)), 8;
    } else {
      // Every other field token contains an 's'; the token outside the
      // grammar has already been rejected by `CalcSize`.
      assert 's' in f && Classify(f) == StrSlot(StrLen(f));
      var n := StrLen(f);
      if order == BigEndian {
        var r := Reverse(msg[..n]);
        v := Str(TrimRight(r, 0));
      } else {
        v := Str(TrimRight(msg[..n], 0));
      }
      w := n;
    }
  }

  /** One pass of `UnPack`'s loop body for the token `f`. */
  method UnpackOne(f: string, msg: seq<byte>, order: Order, ghost ts: seq<Token>, ghost k: nat,
                   ghost res: seq<Value>, ghost whole: seq<Value>)
    returns (read: seq<Value>, msg': seq<byte>, order': Order)
    requires Reading(ts, k, msg, order, res, whole) && k < |ts| && ts[k] == Classify(f)
    ensures Reading(ts, k + 1, msg', order', res + read, whole)
  {
    if f == "<" || f == ">" || f == "!" {
      order' := if f == "<" then LittleEndian else BigEndian;
      read, msg' := [], msg;
      assert ts[k] == Marker(order') && res + read == res;
      ReadMarker(ts, k, msg, order, res, whole, msg', order', res + read);
    } else {
      ClassifyFacts(f);
      ReadField(ts, k, msg, order, res, whole);
      var v, w := UnpackToken(f, msg, order);
      read, msg', order' := [v], msg[w..], order;
    }
  }

  /** `UnPack`: `CalcSize` first, then the length check, then the walk. */
  method UnPack(format: seq<string>, msg: seq<byte>) returns (res: seq<Value>, err: Option<Error>)
    requires NonNegativeLengths(Parse(format))
    ensures Outcome(res, err) == Unpacked(format, msg)
  {
    var expectedSize, e := CalcSize(format);
    if e.Some? {
      return [], e;
    }
    if expectedSize > |msg| {
      return [], Some(BufferTooShort);
    }
    ghost var ts := Parse(format);
    ParseWellFormed(format);
    assert ts[0..] == ts && [] + UnpackFrom(ts, msg, LittleEndian) == UnpackFrom(ts, msg, LittleEndian);
    res := UnpackLoop(format, msg, ts, UnpackFrom(ts, msg, LittleEndian));
    err := None;
  }

  /** The loop of `UnPack` over the format, consuming the message from the
      front. */
  method UnpackLoop(format: seq<string>, msg: seq<byte>, ghost ts: seq<Token>, ghost whole: seq<Value>)
    returns (res: seq<Value>)
    requires |ts| == |format| && forall j :: 0 <= j < |format| ==> ts[j] == Classify(format[j])
    requires Reading(ts, 0, msg, LittleEndian, [], whole)
    ensures res == whole
  {
    res := [];
    var rest := msg;
    var order := LittleEndian;
    var k := 0;
    while k < |format|
      invariant k <= |format|
      invariant Reading(ts, k, rest, order, res, whole)
    {
      var read, rest', order' := UnpackOne(format[k], rest, order, ts, k, res, whole);
      res, rest, order := res + read, rest', order';
      k := k + 1;
    }
    ReadDone(ts, k, rest, order, res, whole);
  }
}
