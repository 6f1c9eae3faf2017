/** The token model and the size calculator of library/binarypack/bp.go:
    how a format token string is classified, how many bytes each kind of
    token occupies (`CalcSize`), how many values a format claims
    (`formatLen`), and the typed values and errors the codec deals in. */
module Format {
  import opened Bytes
  import opened Encoding

  /** The codec's error results; the message texts are not modelled. */
  datatype Error = FormatTooLong | TypeMismatch | UnknownToken | BufferTooShort

  datatype Option<T> = None | Some(value: T)

  /** A Go `(value, err)` result pair. */
  datatype Outcome<T> = Outcome(value: T, err: Option<Error>)

  /** The values a caller may put in the `[]interface{}` list and that
      `UnPack` gives back: a bool, an int64, the bit pattern of a float32
      or a float64, a string as bytes, or a value of any other Go type
      (an `int`, a `uint16`, ...), which no token accepts. */
  datatype Value =
    | Bool(b: bool)
    | Int(i: int64)
    | Float32(bits32: uint32)
    | Float64(bits64: uint64)
    | Str(s: seq<byte>)
    | Other

  /** What a format token string means. */
  datatype Token =
    | Marker(order: Order)
    | BoolSlot
    | IntSlot(size: nat)
    | Float32Slot
    | Float64Slot
    | StrSlot(n: int)
    | Unknown

  predicate IsDigit(c: char) {
    '0' <= c <= '9'
  }

  predicate IsDigits(s: string) {
    |s| > 0 && forall k :: 0 <= k < |s| ==> IsDigit(s[k])
  }

  /** The decimal value of a string of digits. */
  function DigitsValue(s: string): (v: nat)
    requires forall k :: 0 <= k < |s| ==> IsDigit(s[k])
  {
    if s == [] then 0
    else
      assert IsDigit(s[|s| - 1]);
      10 * DigitsValue(s[..|s| - 1]) + (s[|s| - 1] as int - '0' as int)
  }

  /** `strconv.Atoi` with its error dropped, as the codec drops it: an
      optional sign and then decimal digits give their value; any other
      string is a syntax error and gives 0. */
  function Atoi(s: string): (n: int)
    ensures n < 0 ==> |s| > 1 && s[0] == '-'
    ensures n != 0 ==> exists k :: 0 <= k < |s| && IsDigit(s[k]) && s[k] != '0'
    ensures !(IsDigits(s) || (|s| > 1 && (s[0] == '+' || s[0] == '-') && IsDigits(s[1..]))) ==> n == 0
  {
    if IsDigits(s) then
      DigitsNonZero(s);
      DigitsValue(s)
    else if |s| > 1 && (s[0] == '+' || s[0] == '-') && IsDigits(s[1..]) then
      DigitsNonZero(s[1..]);
      if s[0] == '-' then -(DigitsValue(s[1..]) as int) else DigitsValue(s[1..])
    else
      0
  }

  /** Digits that are all '0' have the value 0. */
  lemma {:induction false} DigitsNonZero(s: string)
    requires forall k :: 0 <= k < |s| ==> IsDigit(s[k])
    ensures DigitsValue(s) != 0 ==> exists k :: 0 <= k < |s| && s[k] != '0'
  {
    if s != [] && DigitsValue(s) != 0 {
      if s[|s| - 1] == '0' {
        DigitsNonZero(s[..|s| - 1]);
        var k :| 0 <= k < |s| - 1 && s[..|s| - 1][k] != '0';
        assert s[k] != '0';
      }
    }
  }

  /** The decimal digit of `d`. */
  function Digit(d: nat): (c: char)
    requires d < 10
    ensures IsDigit(c)
  {
    ('0' as int + d) as char
  }

  /** The decimal spelling of `n`, without leading zeros. */
  function Decimal(n: nat): (s: string)
    ensures IsDigits(s)
  {
    if n < 10 then [Digit(n)] else Decimal(n / 10) + [Digit(n % 10)]
  }

  /** The digits of the decimal spelling of `n` have the value `n`. */
  lemma {:induction false} DecimalValue(n: nat)
    ensures DigitsValue(Decimal(n)) == n
  {
    var s := Decimal(n);
    var d := s[|s| - 1];
    if n < 10 {
      assert s[..0] == [] && d == Digit(n);
    } else {
      DecimalValue(n / 10);
      assert s[..|s| - 1] == Decimal(n / 10) && d == Digit(n % 10);
    }
  }

  /** The decimal spelling of `n` reads back as `n`, with or without a sign. */
  lemma AtoiDecimal(n: nat)
    ensures Atoi(Decimal(n)) == n
    ensures Atoi("+" + Decimal(n)) == n && Atoi("-" + Decimal(n)) == -(n as int)
  {
    var s := Decimal(n);
    DecimalValue(n);
    assert ("+" + s)[1..] == s && ("-" + s)[1..] == s;
    assert !IsDigit(("+" + s)[0]) && !IsDigit(("-" + s)[0]);
  }

  /** The declared length `N` of a fixed-string token `"Ns"`:
      `strconv.Atoi(strings.TrimRight(f, "s"))`. */
  function StrLen(f: string): (n: int)
    ensures n != 0 ==> exists k :: 0 <= k < |f| && IsDigit(f[k]) && f[k] != '0'
  {
    var t := TrimRight(f, 's');
    assert forall k :: 0 <= k < |t| ==> t[k] == f[k];
    Atoi(t)
  }

  /** A token made of the decimal spelling of `n` and an 's' declares a
      fixed string of `n` bytes. */
  lemma StrLenDecimal(n: nat)
    ensures Classify(Decimal(n) + "s") == StrSlot(n)
  {
    var d := Decimal(n);
    TrimRightPadded(d, "s", 's');
    TrimRightNoop(d, 's');
    AtoiDecimal(n);
    assert (d + "s")[|d|] == 's';
  }

  /** The one-character tokens other than "s" that the grammar spells out. */
  const SingleTokens: set<string> :=
    {"<", ">", "!", "?", "h", "H", "i", "I", "l", "L", "q", "Q", "f", "d"}

  /** The token grammar shared by `Pack`, `UnPack` and `CalcSize`: the
      exact spellings first, then any token containing an 's' is a fixed
      string, and anything else is unknown. */
  function Classify(f: string): (t: Token)
    ensures t.Unknown? <==> 's' !in f && f !in SingleTokens
    ensures t.StrSlot? <==> 's' in f && f !in SingleTokens
    ensures t.StrSlot? ==> t.n == StrLen(f)
  {
    if |f| == 1 then
      assert f == [f[0]];
      match f[0]
      case '<' => Marker(LittleEndian)
      case '>' => Marker(BigEndian)
      case '!' => Marker(BigEndian)
      case '?' => BoolSlot
      case 'h' => IntSlot(2)
      case 'H' => IntSlot(2)
      case 'i' => IntSlot(4)
      case 'I' => IntSlot(4)
      case 'l' => IntSlot(4)
      case 'L' => IntSlot(4)
      case 'q' => IntSlot(8)
      case 'Q' => IntSlot(8)
      case 'f' => Float32Slot
      case 'd' => Float64Slot
      case 's' => StrSlot(StrLen(f))
      case _ => Unknown
    else if 's' in f then StrSlot(StrLen(f))
    else Unknown
  }

  /** What the grammar says of a single token: the markers are exactly
      "<", ">" and "!", fixed strings are exactly the other tokens with an
      's', integers are 2, 4 or 8 bytes wide, and "@" and "=" are unknown. */
  lemma ClassifyFacts(f: string)
    ensures Classify(f).Marker? <==> f == "<" || f == ">" || f == "!"
    ensures Classify(f).StrSlot? ==> 's' in f
    ensures Classify(f).IntSlot? ==> IsIntWidth(Classify(f).size)
    ensures f == "@" || f == "=" ==> Classify(f).Unknown?
  {
    if f == "@" || f == "=" {
      assert 's' !in f;
    }
  }

  /** A token that takes a value and has a well-defined width. */
  predicate IsField(t: Token) {
    match t
    case BoolSlot => true
    case IntSlot(size) => IsIntWidth(size)
    case Float32Slot => true
    case Float64Slot => true
    case StrSlot(n) => n >= 0
    case _ => false
  }

  /** The number of bytes a token occupies. */
  function Width(t: Token): int {
    match t
    case Marker(_) => 0
    case BoolSlot => 1
    case IntSlot(size) => size
    case Float32Slot => 4
    case Float64Slot => 8
    case StrSlot(n) => n
    case Unknown => 0
  }

  /** The format, token by token. */
  function Parse(format: seq<string>): (ts: seq<Token>)
    ensures |ts| == |format|
    ensures forall j :: 0 <= j < |format| ==> ts[j] == Classify(format[j])
  {
    seq(|format|, j requires 0 <= j < |format| => Classify(format[j]))
  }

  lemma ParseSuffix(format: seq<string>, k: nat)
    requires k <= |format|
    ensures Parse(format)[k..] == Parse(format[k..])
  {
  }

  /** No fixed-string token declares a negative length (a `"-3s"` token
      makes the source slice with a negative bound, which panics). */
  predicate NonNegativeLengths(ts: seq<Token>) {
    forall j :: 0 <= j < |ts| ==> (ts[j].StrSlot? ==> ts[j].n >= 0)
  }

  /** Every token is a byte-order marker, an unknown token, or a field
      of well-defined width. */
  predicate WellFormed(ts: seq<Token>) {
    forall j :: 0 <= j < |ts| ==> ts[j].Marker? || ts[j].Unknown? || IsField(ts[j])
  }

  /** The front part of a well-formed sequence of tokens is well formed. */
  lemma WellFormedPrefix(a: seq<Token>, b: seq<Token>)
    requires WellFormed(a + b)
    ensures WellFormed(a)
  {
    forall j | 0 <= j < |a| ensures a[j].Marker? || a[j].Unknown? || IsField(a[j]) {
      assert (a + b)[j] == a[j];
    }
  }

  /** The grammar only produces integers of width 2, 4 or 8, so a parsed
      format is well formed exactly when no length is negative. */
  lemma ParseWellFormed(format: seq<string>)
    ensures WellFormed(Parse(format)) <==> NonNegativeLengths(Parse(format))
  {
    var ts := Parse(format);
    forall j | 0 <= j < |ts|
      ensures ts[j].IntSlot? ==> IsIntWidth(ts[j].size)
    {
      ClassifyFacts(format[j]);
    }
  }

  /** What `CalcSize` returns: the sum of the widths of the tokens, or
      `(0, UnknownToken)` as soon as a token is outside the grammar. */
  function SizeOf(ts: seq<Token>): (r: Outcome<int>)
    ensures r.err.Some? ==> r == Outcome(0, Some(UnknownToken))
  {
    if ts == [] then Outcome(0, None)
    else if ts[0].Unknown? then Outcome(0, Some(UnknownToken))
    else
      var rest := SizeOf(ts[1..]);
      if rest.err.Some? then rest else Outcome(Width(ts[0]) + rest.value, None)
  }

  /** `CalcSize` fails exactly when some token is outside the grammar. */
  lemma {:induction false} SizeOfFails(ts: seq<Token>)
    ensures SizeOf(ts).err.Some? <==> exists j :: 0 <= j < |ts| && ts[j].Unknown?
  {
    if ts != [] {
      SizeOfFails(ts[1..]);
      if SizeOf(ts[1..]).err.Some? {
        var j :| 0 <= j < |ts[1..]| && ts[1..][j].Unknown?;
        assert ts[j + 1].Unknown?;
      }
      if exists j :: 0 <= j < |ts| && ts[j].Unknown? {
        var j :| 0 <= j < |ts| && ts[j].Unknown?;
        if j > 0 {
          assert ts[1..][j - 1].Unknown?;
        }
      }
    }
  }

  /** Without negative lengths the size is never negative. */
  lemma {:induction false} SizeOfNonNegative(ts: seq<Token>)
    requires NonNegativeLengths(ts)
    ensures SizeOf(ts).value >= 0
  {
    if ts != [] {
      assert NonNegativeLengths(ts[1..]);
      SizeOfNonNegative(ts[1..]);
    }
  }

  /** The size of two formats one after the other is the sum of their
      sizes, and it is an error exactly when either is. */
  lemma {:induction false} SizeOfConcat(a: seq<Token>, b: seq<Token>)
    ensures SizeOf(a + b) ==
      if SizeOf(a).err.None? && SizeOf(b).err.None? then Outcome(SizeOf(a).value + SizeOf(b).value, None)
      else Outcome(0, Some(UnknownToken))
  {
    if a == [] {
      assert a + b == b;
    } else {
      assert (a + b)[0] == a[0];
      assert (a + b)[1..] == a[1..] + b;
      SizeOfConcat(a[1..], b);
    }
  }

  /** The state of `CalcSize`'s loop before token `k`: `size` is the sum
      of the widths so far, and the size of the rest, if any, makes up the
      size of the whole format. */
  ghost predicate Summing(ts: seq<Token>, k: nat, size: int) {
    k <= |ts| &&
    (SizeOf(ts[k..]).err.Some? ==> SizeOf(ts).err.Some?) &&
    (SizeOf(ts[k..]).err.None? ==> SizeOf(ts) == Outcome(size + SizeOf(ts[k..]).value, None))
  }

  /** A token of the grammar adds its width. */
  lemma SumStep(ts: seq<Token>, k: nat, size: int)
    requires Summing(ts, k, size) && k < |ts| && !ts[k].Unknown?
    ensures Summing(ts, k + 1, size + Width(ts[k]))
  {
    assert ts[k..][0] == ts[k] && ts[k..][1..] == ts[k + 1..];
  }

  /** A token outside the grammar makes the whole format fail. */
  lemma SumStop(ts: seq<Token>, k: nat, size: int)
    requires Summing(ts, k, size) && k < |ts| && ts[k].Unknown?
    ensures SizeOf(ts) == Outcome(0, Some(UnknownToken))
  {
    assert ts[k..][0] == ts[k];
  }

  /** Past the last token the sum is the size. */
  lemma SumDone(ts: seq<Token>, k: nat, size: int)
    requires Summing(ts, k, size) && k == |ts|
    ensures SizeOf(ts) == Outcome(size, None)
  {
    assert ts[k..] == [];
  }

  /** The body of `CalcSize`'s loop: the switch on one token, giving its
      width, or `ok == false` for a token outside the grammar. */
  method TokenSize(f: string) returns (w: int, ok: bool)
    ensures ok <==> !Classify(f).Unknown?
    ensures ok ==> w == Width(Classify(f))
  {
    ok := true;
    if f == "<" || f == ">" || f == "!" {
      w := 0;
    } else if f == "?" {
      w := 1;
    } else if f == "h" || f == "H" {
      w := 2;
    } else if f == "i" || f == "I" || f == "l" || f == "L" || f == "f" {
      w := 4;
    } else if f == "q" || f == "Q" || f == "d" {
      w := 8;
    } else if 's' in f {
      w := StrLen(f);
    } else {
      w, ok := 0, false;
    }
  }

  /** `CalcSize`: walks the format adding each token's width to `size`,
      and stops with `(0, UnknownToken)` at a token outside the grammar. */
  method CalcSize(format: seq<string>) returns (size: int, err: Option<Error>)
    ensures Outcome(size, err) == SizeOf(Parse(format))
  {
    ghost var ts := Parse(format);
    size := 0;
    var k := 0;
    assert ts[0..] == ts;
    while k < |format|
      invariant k <= |format| && Summing(ts, k, size)
    {
      var w, ok := TokenSize(format[k]);
      assert ts[k] == Classify(format[k]);
      if !ok {
        SumStop(ts, k, size);
        return 0, Some(UnknownToken);
      }
      SumStep(ts, k, size);
      size := size + w;
      k := k + 1;
    }
    SumDone(ts, k, size);
    err := None;
  }

  /** Whether `formatLen` counts a token as claiming a value: every token
      except "@", "=", "<", ">" and "!". */
  predicate ClaimsValue(f: string) {
    !(f == "@" || f == "=" || f == "<" || f == ">" || f == "!")
  }

  /** What `formatLen` returns: how many tokens claim a value. */
  function ValueSlots(format: seq<string>): (n: nat)
    ensures n <= |format|
    decreases |format|
  {
    if format == [] then 0
    else (if ClaimsValue(format[0]) then 1 else 0) + ValueSlots(format[1..])
  }

  /** `formatLen`: counts the tokens that claim a value. */
  method FormatLen(format: seq<string>) returns (length: nat)
    ensures length == ValueSlots(format)
  {
    length := 0;
    var k := 0;
    while k < |format|
      invariant 0 <= k <= |format|
      invariant length + ValueSlots(format[k..]) == ValueSlots(format)
    {
      var f := format[k];
      assert format[k..][0] == f && format[k..][1..] == format[k + 1..];
      if f == "@" || f == "=" || f == "<" || f == ">" || f == "!" {
        length := length + 0;
      } else {
        length := length + 1;
      }
      k := k + 1;
    }
    assert format[k..] == [];
  }

  /** The tokens other than the byte-order markers, in order: the slots
      that take one value each. */
  function DataTokens(ts: seq<Token>): (ds: seq<Token>)
    ensures |ds| <= |ts|
    ensures forall j :: 0 <= j < |ds| ==> !ds[j].Marker?
  {
    if ts == [] then []
    else (if ts[0].Marker? then [] else [ts[0]]) + DataTokens(ts[1..])
  }

  /** How many values a walk over `ts` reads before it either ends or
      stops at an unknown token. */
  function ValuesRead(ts: seq<Token>): (n: nat)
    ensures n <= |DataTokens(ts)|
  {
    if ts == [] || ts[0].Unknown? then 0
    else (if ts[0].Marker? then 0 else 1) + ValuesRead(ts[1..])
  }

  /** `formatLen` counts at least the values a walk reads, and in a format
      `CalcSize` accepts it counts exactly the data tokens, each of which
      is then a field of well-defined width. */
  lemma {:induction false} ValueSlotsCoverWalk(format: seq<string>)
    ensures ValuesRead(Parse(format)) <= ValueSlots(format)
    ensures SizeOf(Parse(format)).err.None? ==>
      ValueSlots(format) == ValuesRead(Parse(format)) == |DataTokens(Parse(format))|
    decreases |format|
  {
    if format != [] {
      var ts := Parse(format);
      ParseSuffix(format, 1);
      ValueSlotsCoverWalk(format[1..]);
      ClassifyFacts(format[0]);
      assert ts[0] == Classify(format[0]);
      assert !ts[0].Unknown? ==> (ClaimsValue(format[0]) <==> !ts[0].Marker?);
    }
  }

  /** Every data token of a well-formed format `CalcSize` accepts is a
      field. */
  lemma {:induction false} DataTokensAreFields(ts: seq<Token>)
    requires SizeOf(ts).err.None? && WellFormed(ts)
    ensures forall j :: 0 <= j < |DataTokens(ts)| ==> IsField(DataTokens(ts)[j])
  {
    if ts != [] {
      assert WellFormed(ts[1..]);
      DataTokensAreFields(ts[1..]);
      assert !ts[0].Unknown?;
    }
  }

  /** In a format without unknown tokens the walk reads one value per data
      token. */
  lemma {:induction false} ValuesReadAll(ts: seq<Token>)
    requires SizeOf(ts).err.None?
    ensures ValuesRead(ts) == |DataTokens(ts)|
  {
    if ts != [] {
      ValuesReadAll(ts[1..]);
    }
  }

  /** The data tokens of two formats one after the other. */
  lemma {:induction false} DataTokensConcat(a: seq<Token>, b: seq<Token>)
    ensures DataTokens(a + b) == DataTokens(a) + DataTokens(b)
  {
    if a == [] {
      assert a + b == b;
    } else {
      assert (a + b)[0] == a[0] && (a + b)[1..] == a[1..] + b;
      DataTokensConcat(a[1..], b);
    }
  }

  /** The value's kind is the one the token expects. */
  predicate Fits(t: Token, v: Value) {
    match t
    case BoolSlot => v.Bool?
    case IntSlot(_) => v.Int?
    case Float32Slot => v.Float32?
    case Float64Slot => v.Float64?
    case StrSlot(_) => v.Str?
    case _ => false
  }

  /** Every data token has a value of its kind at the same position. */
  predicate WellTyped(ds: seq<Token>, vs: seq<Value>) {
    |ds| <= |vs| && forall j :: 0 <= j < |ds| ==> Fits(ds[j], vs[j])
  }

  lemma WellTypedCons(t: Token, ds: seq<Token>, vs: seq<Value>)
    ensures WellTyped([t] + ds, vs) <==> |vs| > 0 && Fits(t, vs[0]) && WellTyped(ds, vs[1..])
  {
    if |vs| > 0 && Fits(t, vs[0]) && WellTyped(ds, vs[1..]) {
      forall j | 0 <= j < |[t] + ds|
        ensures Fits(([t] + ds)[j], vs[j])
      {
        if j > 0 {
          assert ([t] + ds)[j] == ds[j - 1] && vs[j] == vs[1..][j - 1];
        }
      }
    }
    if WellTyped([t] + ds, vs) {
      assert ([t] + ds)[0] == t;
      forall j | 0 <= j < |ds|
        ensures Fits(ds[j], vs[1..][j])
      {
        assert ([t] + ds)[j + 1] == ds[j];
      }
    }
  }
}
