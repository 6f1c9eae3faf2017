/** `Pack` of library/binarypack/bp.go: the values of a message are laid
    out one after the other as the format says, each in the byte order
    set by the last marker before it. */
module PackEngine {
  import opened Bytes
  import opened Encoding
  import opened Format

  /** The layout of a string in an `"Ns"` slot of `n` bytes. Little-endian:
      the first `n` bytes of the string, then zero bytes up to `n`.
      Big-endian: the zero bytes first, then those string bytes reversed. */
  function FixedString(s: seq<byte>, n: nat, order: Order): (r: seq<byte>)
    ensures |r| == n
    ensures order == LittleEndian ==>
      forall k :: 0 <= k < n ==> r[k] == if k < |s| then s[k] else 0
    ensures order == BigEndian ==>
      forall k :: 0 <= k < n ==> r[k] == if k < n - |s| then 0 else s[n - 1 - k]
  {
    var pad := if n > |s| then n - |s| else 0;
    if order == BigEndian then Zeros(pad) + Reversed(s[..n - pad])
    else s[..n - pad] + Zeros(pad)
  }

  /** The big-endian layout of a string is the little-endian one read back
      to front. */
  lemma FixedStringBigEndian(s: seq<byte>, n: nat)
    ensures FixedString(s, n, BigEndian) == Reversed(FixedString(s, n, LittleEndian))
  {
  }

  /** The bytes of one value in a field slot, or `None` when the value is
      not of the kind the slot expects. */
  function EncodeField(t: Token, v: Value, order: Order): (r: Option<seq<byte>>)
    requires IsField(t)
    ensures r.Some? <==> Fits(t, v)
    ensures r.Some? ==> |r.value| == Width(t)
  {
    match t
    case BoolSlot => if v.Bool? then Some(BoolToBytes(v.b, order)) else None
    case IntSlot(size) => if v.Int? then Some(Int64ToBytes(v.i, size, order)) else None
    case Float32Slot => if v.Float32? then Some(Float32ToBytes(v.bits32, order)) else None
    case Float64Slot => if v.Float64? then Some(Float64ToBytes(v.bits64, order)) else None
    case StrSlot(n) => if v.Str? then Some(FixedString(v.s, n, order)) else None
  }

  /** Every field's big-endian bytes are its little-endian bytes reversed. */
  lemma EncodeFieldBigEndian(t: Token, v: Value)
    requires IsField(t) && Fits(t, v)
    ensures EncodeField(t, v, BigEndian).value == Reversed(EncodeField(t, v, LittleEndian).value)
  {
    match t
    case IntSlot(size) => BigEndianIsReversed(v.i, size, 0, 0);
    case Float32Slot => BigEndianIsReversed(0, 0, v.bits32, 0);
    case Float64Slot => BigEndianIsReversed(0, 0, 0, v.bits64);
    case StrSlot(n) => FixedStringBigEndian(v.s, n);
    case BoolSlot =>
  }

  /** `p` followed by the output of `o`, with `o`'s error. */
  function Prepend(p: seq<byte>, o: Outcome<seq<byte>>): Outcome<seq<byte>> {
    Outcome(p + o.value, o.err)
  }

  /** One non-marker token of `Pack`'s walk, with `msg` the values not yet
      consumed: an unknown token fails with `UnknownToken` without looking
      at a value; a field encodes the first value, or fails with
      `TypeMismatch` when it is of the wrong kind. */
  function PackField(t: Token, msg: seq<Value>, order: Order): (r: Outcome<seq<byte>>)
    requires t.Unknown? || (IsField(t) && |msg| > 0)
    ensures r.err.None? <==> !t.Unknown? && Fits(t, msg[0])
    ensures r.err.None? ==> |r.value| == Width(t)
    ensures r.err.Some? ==> r.value == []
  {
    if t.Unknown? then Outcome([], Some(UnknownToken))
    else
      var e := EncodeField(t, msg[0], order);
      if e.None? then Outcome([], Some(TypeMismatch)) else Outcome(e.value, None)
  }

  /** The walk of `Pack` over the tokens `ts`, in byte order `order`, with
      `msg` the values not yet consumed: a marker switches the order and
      consumes nothing; a field consumes one value; the first failing token
      stops the walk, and the bytes written before it stay in the result. */
  function PackFrom(ts: seq<Token>, msg: seq<Value>, order: Order): Outcome<seq<byte>>
    requires WellFormed(ts) && ValuesRead(ts) <= |msg|
  {
    if ts == [] then Outcome([], None)
    else
      assert WellFormed(ts[1..]);
      if ts[0].Marker? then PackFrom(ts[1..], msg, ts[0].order)
      else
        var o := PackField(ts[0], msg, order);
        if o.err.Some? then o else Prepend(o.value, PackFrom(ts[1..], msg[1..], order))
  }

  /** What `Pack` returns: `FormatTooLong` (and no bytes) when the format
      claims more values than the message has, and otherwise the walk over
      the whole format starting little-endian. */
  function Packed(format: seq<string>, msg: seq<Value>): Outcome<seq<byte>>
    requires NonNegativeLengths(Parse(format))
  {
    if ValueSlots(format) > |msg| then Outcome([], Some(FormatTooLong))
    else
      ValueSlotsCoverWalk(format);
      ParseWellFormed(format);
      PackFrom(Parse(format), msg, LittleEndian)
  }

  /** The walk succeeds exactly when no token is unknown and every data
      token has a value of its kind; it then writes exactly `CalcSize`
      bytes. It only ever fails with `UnknownToken` or `TypeMismatch`. */
  lemma {:induction false} PackFromResult(ts: seq<Token>, msg: seq<Value>, order: Order)
    requires WellFormed(ts) && ValuesRead(ts) <= |msg|
    ensures PackFrom(ts, msg, order).err.None? <==> SizeOf(ts).err.None? && WellTyped(DataTokens(ts), msg)
    ensures PackFrom(ts, msg, order).err.None? ==> |PackFrom(ts, msg, order).value| == SizeOf(ts).value
    ensures PackFrom(ts, msg, order).err in {None, Some(UnknownToken), Some(TypeMismatch)}
  {
    if ts != [] {
      assert WellFormed(ts[1..]);
      if ts[0].Marker? {
        PackFromResult(ts[1..], msg, ts[0].order);
      } else if !ts[0].Unknown? {
        WellTypedCons(ts[0], DataTokens(ts[1..]), msg);
        assert DataTokens(ts) == [ts[0]] + DataTokens(ts[1..]);
        PackFromResult(ts[1..], msg[1..], order);
      }
    }
  }

  /** Values beyond those the walk reads are ignored. */
  lemma {:induction false} PackFromSurplus(ts: seq<Token>, msg: seq<Value>, extra: seq<Value>, order: Order)
    requires WellFormed(ts) && ValuesRead(ts) <= |msg|
    ensures PackFrom(ts, msg + extra, order) == PackFrom(ts, msg, order)
  {
    if ts != [] {
      assert WellFormed(ts[1..]);
      if ts[0].Marker? {
        PackFromSurplus(ts[1..], msg, extra, ts[0].order);
      } else if !ts[0].Unknown? {
        assert (msg + extra)[0] == msg[0] && (msg + extra)[1..] == msg[1..] + extra;
        PackFromSurplus(ts[1..], msg[1..], extra, order);
      }
    }
  }

  /** The byte order in force after the tokens `ts`: that of the last
      marker among them, or `order` when there is none. */
  function FinalOrder(ts: seq<Token>, order: Order): (r: Order)
    ensures (forall j :: 0 <= j < |ts| ==> !ts[j].Marker?) ==> r == order
  {
    if ts == [] then order
    else FinalOrder(ts[1..], if ts[0].Marker? then ts[0].order else order)
  }

  /** The walk over `a + b` is the walk over `a` followed by the walk over
      `b`, from the values `a` did not consume and in the order `a` left in
      force. */
  ghost predicate Splits(a: seq<Token>, b: seq<Token>, msg: seq<Value>, order: Order) {
    WellFormed(a + b) && ValuesRead(a + b) <= |msg| &&
    WellFormed(a) && ValuesRead(a) <= |msg| && |DataTokens(a)| <= |msg| &&
    WellFormed(b) && ValuesRead(b) <= |msg| - |DataTokens(a)| &&
    PackFrom(a + b, msg, order) ==
      Prepend(PackFrom(a, msg, order).value, PackFrom(b, msg[|DataTokens(a)|..], FinalOrder(a, order)))
  }

  /** A marker in front of `a` switches the order both walks start in. */
  lemma SplitsMarker(a: seq<Token>, b: seq<Token>, msg: seq<Value>, order: Order)
    requires a != [] && a[0].Marker? && WellFormed(a + b) && Splits(a[1..], b, msg, a[0].order)
    ensures Splits(a, b, msg, order)
  {
    var ab := a + b;
    assert ab[0] == a[0] && ab[1..] == a[1..] + b;
    WellFormedPrefix(a, b);
    assert ValuesRead(a) == ValuesRead(a[1..]) && ValuesRead(ab) == ValuesRead(ab[1..]);
    assert DataTokens(a) == DataTokens(a[1..]);
    assert FinalOrder(a, order) == FinalOrder(a[1..], a[0].order);
    assert PackFrom(a, msg, order) == PackFrom(a[1..], msg, a[0].order);
    assert PackFrom(ab, msg, order) == PackFrom(ab[1..], msg, a[0].order);
  }

  /** A field whose value fits, in front of `a`, writes its bytes before
      both walks. */
  lemma SplitsField(a: seq<Token>, b: seq<Token>, msg: seq<Value>, order: Order)
    requires a != [] && IsField(a[0]) && |msg| > 0 && Fits(a[0], msg[0])
    requires WellFormed(a + b) && Splits(a[1..], b, msg[1..], order)
    ensures Splits(a, b, msg, order)
  {
    var ab := a + b;
    assert ab[0] == a[0] && ab[1..] == a[1..] + b;
    WellFormedPrefix(a, b);
    assert DataTokens(a) == [a[0]] + DataTokens(a[1..]);
    assert msg[1..][|DataTokens(a[1..])|..] == msg[|DataTokens(a)|..];
    var o := PackField(a[0], msg, order);
    var ra := PackFrom(a[1..], msg[1..], order);
    var rb := PackFrom(b, msg[|DataTokens(a)|..], FinalOrder(a, order));
    AppendAssociates(o.value, ra.value, rb.value);
  }

  lemma {:induction false} ConcatSplits(a: seq<Token>, b: seq<Token>, msg: seq<Value>, order: Order)
    requires WellFormed(a + b) && ValuesRead(a + b) <= |msg|
    requires SizeOf(a).err.None? && WellTyped(DataTokens(a), msg)
    ensures Splits(a, b, msg, order)
  {
    if a == [] {
      assert a + b == b && msg[0..] == msg;
      assert [] + PackFrom(b, msg, order).value == PackFrom(b, msg, order).value;
    } else {
      var ab := a + b;
      assert ab[0] == a[0] && ab[1..] == a[1..] + b;
      assert WellFormed(ab[1..]);
      if a[0].Marker? {
        assert ValuesRead(ab) == ValuesRead(ab[1..]);
        assert SizeOf(a) == SizeOf(a[1..]) && DataTokens(a) == DataTokens(a[1..]);
        ConcatSplits(a[1..], b, msg, a[0].order);
        SplitsMarker(a, b, msg, order);
      } else {
        assert !a[0].Unknown? && IsField(a[0]);
        assert ValuesRead(ab) == 1 + ValuesRead(ab[1..]) && SizeOf(a[1..]).err.None?;
        WellTypedCons(a[0], DataTokens(a[1..]), msg);
        assert DataTokens(a) == [a[0]] + DataTokens(a[1..]);
        ConcatSplits(a[1..], b, msg[1..], order);
        SplitsField(a, b, msg, order);
      }
    }
  }

  /** Packing two formats one after the other: the second starts where the
      first stopped, with the values the first did not consume and in the
      byte order the first left in force. A marker therefore affects the
      tokens after it and no others. */
  lemma PackFromConcat(a: seq<Token>, b: seq<Token>, msg: seq<Value>, order: Order)
    requires WellFormed(a + b) && ValuesRead(a + b) <= |msg|
    requires SizeOf(a).err.None? && WellTyped(DataTokens(a), msg)
    ensures WellFormed(a) && ValuesRead(a) <= |msg|
    ensures WellFormed(b) && ValuesRead(b) <= |msg| - |DataTokens(a)|
    ensures PackFrom(a + b, msg, order) ==
      Prepend(PackFrom(a, msg, order).value, PackFrom(b, msg[|DataTokens(a)|..], FinalOrder(a, order)))
  {
    ConcatSplits(a, b, msg, order);
  }

  /** `Pack` fails with `FormatTooLong` exactly when `formatLen` exceeds
      the number of values; it succeeds exactly when every token is known
      and every data token has a value of its kind, and its output is then
      `CalcSize` bytes long. */
  lemma PackedResult(format: seq<string>, msg: seq<Value>)
    requires NonNegativeLengths(Parse(format))
    ensures Packed(format, msg).err == Some(FormatTooLong) <==> ValueSlots(format) > |msg|
    ensures Packed(format, msg).err.None? <==>
      SizeOf(Parse(format)).err.None? && WellTyped(DataTokens(Parse(format)), msg)
    ensures Packed(format, msg).err.None? ==> |Packed(format, msg).value| == SizeOf(Parse(format)).value
  {
    ValueSlotsCoverWalk(format);
    ParseWellFormed(format);
    if ValueSlots(format) <= |msg| {
      PackFromResult(Parse(format), msg, LittleEndian);
    }
  }

  /** Values beyond those the format claims do not change the result. */
  lemma PackedIgnoresSurplus(format: seq<string>, msg: seq<Value>, extra: seq<Value>)
    requires NonNegativeLengths(Parse(format)) && ValueSlots(format) <= |msg|
    ensures Packed(format, msg + extra) == Packed(format, msg)
  {
    ValueSlotsCoverWalk(format);
    ParseWellFormed(format);
    PackFromSurplus(Parse(format), msg, extra, LittleEndian);
  }

  /** The walk at token `k` and value `i` has produced `res` so far, and
      its final outcome is `whole`. */
  ghost predicate Walking(ts: seq<Token>, k: nat, msg: seq<Value>, i: nat, order: Order,
                          res: seq<byte>, whole: Outcome<seq<byte>>)
  {
    k <= |ts| && i <= |msg| && WellFormed(ts[k..]) && ValuesRead(ts[k..]) <= |msg| - i &&
    whole == Prepend(res, PackFrom(ts[k..], msg[i..], order))
  }

  /** After the length check the walk starts at the first token and the
      first value, little-endian, with nothing written. */
  lemma PackStart(format: seq<string>, msg: seq<Value>)
    requires NonNegativeLengths(Parse(format)) && ValueSlots(format) <= |msg|
    ensures Walking(Parse(format), 0, msg, 0, LittleEndian, [], Packed(format, msg))
  {
    var ts := Parse(format);
    ValueSlotsCoverWalk(format);
    ParseWellFormed(format);
    assert ts[0..] == ts && msg[0..] == msg;
    assert [] + Packed(format, msg).value == Packed(format, msg).value;
  }

  /** A marker consumes no value and sets the order of the tokens after
      it. The walk's new state is given as `i2`, `order2` and `res2`. */
  lemma MarkerStep(ts: seq<Token>, k: nat, msg: seq<Value>, i: nat, order: Order,
                   res: seq<byte>, whole: Outcome<seq<byte>>, i2: nat, order2: Order, res2: seq<byte>)
    requires Walking(ts, k, msg, i, order, res, whole) && k < |ts| && ts[k] == Marker(order2)
    requires i2 == i && res2 == res
    ensures Walking(ts, k + 1, msg, i2, order2, res2, whole)
  {
    assert ts[k..][0] == ts[k] && ts[k..][1..] == ts[k + 1..];
    assert WellFormed(ts[k..][1..]);
  }

  /** Any other token either fails without a value (an unknown token) or
      is a field with a value left for it. */
  lemma FieldReady(ts: seq<Token>, k: nat, msg: seq<Value>, i: nat, order: Order,
                   res: seq<byte>, whole: Outcome<seq<byte>>)
    requires Walking(ts, k, msg, i, order, res, whole) && k < |ts| && !ts[k].Marker?
    ensures ts[k].Unknown? || (IsField(ts[k]) && i < |msg|)
  {
    assert ts[k..][0] == ts[k];
  }

  /** A field that encodes appends its bytes and consumes one value. */
  lemma FieldStep(ts: seq<Token>, k: nat, msg: seq<Value>, i: nat, order: Order,
                  res: seq<byte>, whole: Outcome<seq<byte>>, out: seq<byte>)
    requires Walking(ts, k, msg, i, order, res, whole) && k < |ts| && !ts[k].Marker?
    requires ts[k].Unknown? || (IsField(ts[k]) && i < |msg|)
    requires PackField(ts[k], msg[i..], order) == Outcome(out, None)
    ensures i < |msg| && Walking(ts, k + 1, msg, i + 1, order, res + out, whole)
  {
    assert ts[k..][0] == ts[k] && ts[k..][1..] == ts[k + 1..];
    assert WellFormed(ts[k..][1..]);
    assert msg[i..][1..] == msg[i + 1..];
    var rest := PackFrom(ts[k + 1..], msg[i + 1..], order);
    AppendAssociates(res, out, rest.value);
  }

  /** Past the last token the walk has written everything. */
  lemma WalkDone(ts: seq<Token>, k: nat, msg: seq<Value>, i: nat, order: Order,
                 res: seq<byte>, whole: Outcome<seq<byte>>)
    requires Walking(ts, k, msg, i, order, res, whole) && k == |ts|
    ensures whole == Outcome(res, None)
  {
    assert ts[k..] == [];
    assert res + [] == res;
  }

  /** A token that fails ends the walk with the bytes written so far. */
  lemma FieldStop(ts: seq<Token>, k: nat, msg: seq<Value>, i: nat, order: Order,
                  res: seq<byte>, whole: Outcome<seq<byte>>, out: seq<byte>, e: Error)
    requires Walking(ts, k, msg, i, order, res, whole) && k < |ts| && !ts[k].Marker?
    requires ts[k].Unknown? || (IsField(ts[k]) && i < |msg|)
    requires PackField(ts[k], msg[i..], order) == Outcome(out, Some(e))
    ensures whole == Outcome(res, Some(e))
  {
    assert ts[k..][0] == ts[k];
    assert res + [] == res;
  }

  /** The data cases of `Pack`'s switch, for the token `f` and the value
      `msg[i]`: the bytes to append, or the error that stops `Pack`. An
      unknown token is rejected without looking at `msg[i]`. */
  method PackToken(f: string, msg: seq<Value>, i: nat, order: Order) returns (out: seq<byte>, err: Option<Error>)
    requires i <= |msg|
    requires Classify(f).Unknown? || (IsField(Classify(f)) && i < |msg|)
    ensures Outcome(out, err) == PackField(Classify(f), msg[i..], order)
  {
    out, err := [], None;
    if i < |msg| {
      assert msg[i..][0] == msg[i];
    }
    if f == "?" {
      assert Classify(f) == BoolSlot;
      if !msg[i].Bool? {
        return [], Some(TypeMismatch);
      }
      out := BoolToBytes(msg[i].b, order);
    } else if f == "h" || f == "H" {
      assert Classify(f) == IntSlot(2);
      if !msg[i].Int? {
        return [], Some(TypeMismatch);
      }
      out := Int64ToBytes(msg[i].i, 2, order);
    } else if f == "i" || f == "I" || f == "l" || f == "L" {
      assert Classify(f) == IntSlot(4);
      if !msg[i].Int? {
        return [], Some(TypeMismatch);
      }
      out := Int64ToBytes(msg[i].i, 4, order);
    } else if f == "q" || f == "Q" {
      assert Classify(f) == IntSlot(8);
      if !msg[i].Int? {
        return [], Some(TypeMismatch);
      }
      out := Int64ToBytes(msg[i].i, 8, order);
    } else if f == "f" {
      assert Classify(f) == Float32Slot;
      if !msg[i].Float32? {
        return [], Some(TypeMismatch);
      }
      out := Float32ToBytes(msg[i].bits32, order);
    } else if f == "d" {
      assert Classify(f) == Float64Slot;
      if !msg[i].Float64? {
        return [], Some(TypeMismatch);
      }
      out := Float64ToBytes(msg[i].bits64, order);
    } else if 's' in f {
      assert Classify(f) == StrSlot(StrLen(f));
      if !msg[i].Str? {
        return [], Some(TypeMismatch);
      }
      var s := msg[i].s;
      var n := StrLen(f);
      var size := 0;
      if n > |s| {
        size := n - |s|;
      }
      if order == BigEndian {
        var r := Reverse(s[..n - size]);
        out := Zeros(size) + r;
      } else {
        out := s[..n - size] + Zeros(size);
      }
    } else {
      assert Classify(f).Unknown?;
      return [], Some(UnknownToken);
    }
  }

  /** A data token of the walk: the switch on `f`, and where it leaves the
      walk. */
  method PackNext(f: string, msg: seq<Value>, i: nat, order: Order, ghost ts: seq<Token>, ghost k: nat,
                  ghost res: seq<byte>, ghost whole: Outcome<seq<byte>>)
    returns (out: seq<byte>, err: Option<Error>)
    requires Walking(ts, k, msg, i, order, res, whole) && k < |ts| && ts[k] == Classify(f) && !ts[k].Marker?
    ensures err.Some? ==> whole == Outcome(res, err)
    ensures err.None? ==> i < |msg| && Walking(ts, k + 1, msg, i + 1, order, res + out, whole)
  {
    FieldReady(ts, k, msg, i, order, res, whole);
    out, err := PackToken(f, msg, i, order);
    if err.Some? {
      FieldStop(ts, k, msg, i, order, res, whole, out, err.value);
    } else {
      FieldStep(ts, k, msg, i, order, res, whole, out);
    }
  }

  /** `Pack`: checks the value count with `formatLen`, then walks the
      format. */
  method Pack(format: seq<string>, msg: seq<Value>) returns (res: seq<byte>, err: Option<Error>)
    requires NonNegativeLengths(Parse(format))
    ensures Outcome(res, err) == Packed(format, msg)
  {
    var length := FormatLen(format);
    if length > |msg| {
      return [], Some(FormatTooLong);
    }
    PackStart(format, msg);
    res, err := PackLoop(format, msg, Parse(format), Packed(format, msg));
  }

  /** One pass of `Pack`'s loop body for the token `f`: a marker sets the
      order and steps the value index back (the loop steps it forward
      again); any other token is handled by `PackNext`. */
  method PackOne(f: string, msg: seq<Value>, i: nat, order: Order, ghost ts: seq<Token>, ghost k: nat,
                 ghost res: seq<byte>, ghost whole: Outcome<seq<byte>>)
    returns (out: seq<byte>, err: Option<Error>, order': Order, i': int)
    requires Walking(ts, k, msg, i, order, res, whole) && k < |ts| && ts[k] == Classify(f)
    ensures err.Some? ==> whole == Outcome(res, err)
    ensures err.None? ==> 0 <= i' + 1 && Walking(ts, k + 1, msg, i' + 1, order', res + out, whole)
  {
    order', i' := order, i;
    out, err := [], None;
    if f == "<" || f == ">" || f == "!" {
      order' := if f == "<" then LittleEndian else BigEndian;
      i' := i - 1;
      assert ts[k] == Marker(order') && res + out == res;
      MarkerStep(ts, k, msg, i, order, res, whole, i' + 1, order', res + out);
    } else {
      ClassifyFacts(f);
      out, err := PackNext(f, msg, i, order, ts, k, res, whole);
    }
  }

  /** The loop of `Pack` over the format, from the first token and value,
      little-endian. */
  method PackLoop(format: seq<string>, msg: seq<Value>, ghost ts: seq<Token>, ghost whole: Outcome<seq<byte>>)
    returns (res: seq<byte>, err: Option<Error>)
    requires |ts| == |format| && forall j :: 0 <= j < |format| ==> ts[j] == Classify(format[j])
    requires Walking(ts, 0, msg, 0, LittleEndian, [], whole)
    ensures Outcome(res, err) == whole
  {
    res := [];
    var order := LittleEndian;
    var i := 0;
    var k := 0;
    while k < |format|
      invariant k <= |format| && 0 <= i
      invariant Walking(ts, k, msg, i, order, res, whole)
    {
      var out, e, o, j := PackOne(format[k], msg, i, order, ts, k, res, whole);
      if e.Some? {
        return res, e;
      }
      res, order := res + out, o;
      i := j + 1;
      k := k + 1;
    }
    WalkDone(ts, k, msg, i, order, res, whole);
    err := None;
  }
}
