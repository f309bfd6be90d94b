/** Base62 numbers and the sortable ids made of them (agent-core/pkg/tsbase62/tsbase62.go). */
module Base62 {
  import opened Bytes
  import opened Results

  const DECIMALS := "0123456789"
  const UPPER := "ABCDEFGHIJKLMNOPQRSTUVWXYZ"
  const LOWER := "abcdefghijklmnopqrstuvwxyz"
  const ALPHABET := DECIMALS + UPPER + LOWER
  const BASE := 62
  const FIXED_WIDTH := 11
  const MAX_UINT64 := 0xFFFF_FFFF_FFFF_FFFF

  datatype Base62Error =
    | EmptyString | TooLong | OverflowUint64 | InvalidCharacter(c: char)
    | InvalidSuffix | IDTooShort | BeforeUnixEpoch | TimeOutOfRange | InvalidSuffixWidth | WrongIDLength
    | SequenceExhausted | StillWaiting

  // ---------------------------------------------------------------------------------------------
  // Digits
  // ---------------------------------------------------------------------------------------------

  /** The character of a digit. */
  function Symbol(digit: nat): char
    requires digit < BASE
  {
    if digit < 10 then '0' + digit as char
    else if digit < 36 then 'A' + (digit - 10) as char
    else 'a' + (digit - 36) as char
  }

  /** The digit of a character, or -1: what the decode table holds. */
  function Digit(c: char): (d: int)
    ensures -1 <= d < BASE
    ensures d >= 0 ==> Symbol(d) == c
  {
    if '0' <= c <= '9' then c as int - '0' as int
    else if 'A' <= c <= 'Z' then c as int - 'A' as int + 10
    else if 'a' <= c <= 'z' then c as int - 'a' as int + 36
    else -1
  }

  /** Larger digits have larger characters. */
  lemma SymbolOrder(d: nat, e: nat)
    requires d < BASE && e < BASE
    ensures Digit(Symbol(d)) == d
    ensures d < e <==> Symbol(d) < Symbol(e)
  {
  }

  lemma DecimalAt(d: nat)
    requires d < 10
    ensures DECIMALS[d] == '0' + d as char
  {
  }

  lemma UpperAt(d: nat)
    requires d < 26
    ensures UPPER[d] == 'A' + d as char
  {
  }

  lemma LowerAt(d: nat)
    requires d < 26
    ensures LOWER[d] == 'a' + d as char
  {
  }

  /** The alphabet lists the digits' characters, so in increasing order. */
  lemma AlphabetLists(d: nat)
    requires d < BASE
    ensures ALPHABET[d] == Symbol(d)
  {
    if d < 10 {
      DecimalAt(d);
      assert ALPHABET[d] == DECIMALS[d];
    } else if d < 36 {
      UpperAt(d - 10);
      assert ALPHABET[d] == UPPER[d - 10];
    } else {
      LowerAt(d - 36);
      assert ALPHABET[d] == LOWER[d - 36];
    }
  }

  ghost predicate IsDecodeTable(table: array<int>)
    reads table
  {
    table.Length == 128 && forall c: char :: c as int < 128 ==> table[c as int] == Digit(c)
  }

  /** Fills the decode table from the alphabet. */
  method BuildDecodeTable() returns (table: array<int>)
    ensures IsDecodeTable(table)
  {
    table := new int[128](_ => -1);
    for i := 0 to |ALPHABET|
      invariant forall j :: 0 <= j < 128 ==>
                  table[j] == if 0 <= Digit(j as char) < i then Digit(j as char) else -1
    {
      AlphabetLists(i);
      SymbolOrder(i, i);
      table[ALPHABET[i] as int] := i;
    }
  }

  function Power(n: nat): (r: nat)
    ensures r > 0
  {
    if n == 0 then 1 else Power(n - 1) * BASE
  }

  lemma PowerMonotone(m: nat, n: nat)
    requires m <= n
    ensures Power(m) <= Power(n)
  {
  }

  /** 62^10 does not cover the 64-bit numbers but 62^11 does. */
  lemma ElevenDigits()
    ensures Power(10) <= MAX_UINT64 < Power(11)
  {
    assert Power(4) == 62 * 62 * 62 * 62;
    assert Power(7) == Power(4) * 62 * 62 * 62;
    assert Power(10) == Power(7) * 62 * 62 * 62;
  }

  predicate IsBase62(s: string) {
    forall i :: 0 <= i < |s| ==> Digit(s[i]) >= 0
  }

  /** The number a string of digits denotes, most significant digit first. */
  function Value(s: string): nat
    requires IsBase62(s)
  {
    if s == "" then 0 else Value(s[..|s| - 1]) * BASE + Digit(s[|s| - 1])
  }

  /** The `width` low-order digits of `n`. */
  function Digits(n: nat, width: nat): (s: string)
    ensures |s| == width && IsBase62(s)
  {
    if width == 0 then "" else Digits(n / BASE, width - 1) + [Symbol(n % BASE)]
  }

  /** The digits of `n` without leading zeros. */
  function Shortest(n: nat): (s: string)
    ensures IsBase62(s)
  {
    if n == 0 then "" else Shortest(n / BASE) + [Symbol(n % BASE)]
  }

  function Fixed(n: uint64): string {
    Digits(n, FIXED_WIDTH)
  }

  function Variable(n: uint64): string {
    if n == 0 then "0" else Shortest(n)
  }

  // ---------------------------------------------------------------------------------------------
  // Encoders
  // ---------------------------------------------------------------------------------------------

  method EncodeFixedWidth(n: nat, width: nat) returns (s: string)
    ensures s == Digits(n, width)
  {
    var buf := new char[width](_ => '0');
    var rest: nat := n;
    var i: nat := width;
    while i > 0
      invariant i <= width
      invariant Digits(n, width) == Digits(rest, i) + buf[i..]
    {
      i := i - 1;
      buf[i] := Symbol(rest % BASE);
      rest := rest / BASE;
    }
    s := buf[..];
  }

  lemma OneMoreDigit(rest: nat, pos: nat, done: string)
    requires 0 < rest < Power(pos)
    ensures pos > 0 && rest / BASE < Power(pos - 1)
    ensures Shortest(rest) + done == Shortest(rest / BASE) + ([Symbol(rest % BASE)] + done)
  {
    assert Shortest(rest) == Shortest(rest / BASE) + [Symbol(rest % BASE)];
  }

  method EncodeUint64(n: uint64) returns (s: string)
    ensures s == Variable(n)
  {
    if n == 0 {
      return "0";
    }
    var buf := new char[FIXED_WIDTH](_ => '0');
    var pos := FIXED_WIDTH;
    var rest: nat := n;
    ElevenDigits();
    while rest > 0
      invariant 0 <= pos <= FIXED_WIDTH && rest < Power(pos)
      invariant Shortest(n) == Shortest(rest) + buf[pos..]
    {
      ghost var done := buf[pos..];
      OneMoreDigit(rest, pos, done);
      pos := pos - 1;
      buf[pos] := Symbol(rest % BASE);
      assert buf[pos..] == [Symbol(rest % BASE)] + done;
      rest := rest / BASE;
    }
    s := buf[pos..];
  }

  method EncodeFixed(n: uint64) returns (s: string)
    ensures s == Fixed(n)
  {
    s := EncodeFixedWidth(n, FIXED_WIDTH);
  }

  // ---------------------------------------------------------------------------------------------
  // Decoder
  // ---------------------------------------------------------------------------------------------

  /** How many characters before the first one that is not a digit. */
  function ValidPrefix(s: string): (n: nat)
    ensures n <= |s| && IsBase62(s[..n])
    ensures n < |s| ==> Digit(s[n]) < 0
  {
    if s == "" || Digit(s[0]) < 0 then 0
    else
      var n := 1 + ValidPrefix(s[1..]);
      assert forall i :: 1 <= i < n ==> s[i] == s[1..][..n - 1][i - 1];
      n
  }

  /**
   Decoding reports overflow exactly when the digits read before any bad character denote more than 2^64 - 1, and
   otherwise the first bad character or the value.
   */
  function Decode(s: string): Result<uint64, Base62Error> {
    var n := ValidPrefix(s);
    if s == "" then Err(EmptyString)
    else if |s| > FIXED_WIDTH then Err(TooLong)
    else if Value(s[..n]) > MAX_UINT64 then Err(OverflowUint64)
    else if n < |s| then Err(InvalidCharacter(s[n]))
    else
      assert s[..n] == s;
      Ok(Value(s))
  }

  lemma ValueSnoc(s: string, i: nat)
    requires i < |s| && IsBase62(s[..i + 1])
    ensures IsBase62(s[..i]) && Value(s[..i + 1]) == Value(s[..i]) * BASE + Digit(s[i])
  {
    assert s[..i + 1][..i] == s[..i];
    forall j | 0 <= j < i
      ensures Digit(s[..i][j]) >= 0
    {
      assert s[..i][j] == s[..i + 1][j];
    }
  }

  /** Longer prefixes denote larger numbers, so an overflow once seen does not go away. */
  lemma ValueGrows(s: string, i: nat, j: nat)
    requires i <= j <= |s| && IsBase62(s[..j])
    ensures IsBase62(s[..i]) && Value(s[..i]) <= Value(s[..j])
  {
    if i < j {
      ValueSnoc(s, j - 1);
      ValueGrows(s, i, j - 1);
    }
  }

  lemma ValidPrefixIs(s: string, n: nat)
    requires n <= |s| && IsBase62(s[..n]) && (n < |s| ==> Digit(s[n]) < 0)
    ensures ValidPrefix(s) == n
  {
    PrefixDigits(s, n);
    PrefixDigits(s, ValidPrefix(s));
  }

  lemma PrefixDigits(s: string, n: nat)
    requires n <= |s| && IsBase62(s[..n])
    ensures forall i :: 0 <= i < n ==> Digit(s[i]) >= 0
  {
    assert forall i :: 0 <= i < n ==> s[i] == s[..n][i];
  }

  lemma OneMoreValid(s: string, i: nat)
    requires i < |s| && IsBase62(s[..i]) && Digit(s[i]) >= 0
    ensures IsBase62(s[..i + 1]) && Value(s[..i + 1]) == Value(s[..i]) * BASE + Digit(s[i])
  {
    assert s[..i + 1] == s[..i] + [s[i]];
    ValueSnoc(s, i);
  }

  /** The check is made before multiplying, and misses no overflow. */
  lemma OverflowCheck(n: uint64, digit: nat)
    requires digit < BASE
    ensures n > (MAX_UINT64 - digit) / BASE <==> n * BASE + digit > MAX_UINT64
  {
  }

  /** Reads the decode table; overflow is reported exactly where the number read so far leaves 64 bits. */
  method DecodeUint64(decodeTable: array<int>, s: string) returns (r: Result<uint64, Base62Error>)
    requires IsDecodeTable(decodeTable)
    ensures r == Decode(s)
    ensures 1 <= |s| <= FIXED_WIDTH && IsBase62(s) ==>
              r == if Value(s) > MAX_UINT64 then Err(OverflowUint64) else Ok(Value(s))
  {
    r := Accumulate(decodeTable, s);
    if 1 <= |s| <= FIXED_WIDTH && IsBase62(s) {
      OverflowIsExact(s);
    }
  }

  /** The checks on the length, and the loop. */
  method Accumulate(decodeTable: array<int>, s: string) returns (r: Result<uint64, Base62Error>)
    requires IsDecodeTable(decodeTable)
    ensures r == Decode(s)
  {
    if |s| == 0 {
      return Err(EmptyString);
    }
    if |s| > FIXED_WIDTH {
      return Err(TooLong);
    }
    var n: uint64 := 0;
    for i := 0 to |s|
      invariant IsBase62(s[..i]) && n == Value(s[..i])
    {
      if s[i] as int >= 128 || decodeTable[s[i] as int] < 0 {
        ValidPrefixIs(s, i);
        return Err(InvalidCharacter(s[i]));
      }
      var digit := decodeTable[s[i] as int];
      OneMoreValid(s, i);
      OverflowCheck(n, digit);
      if n > (MAX_UINT64 - digit) / BASE {
        OverflowStays(s, i + 1);
        return Err(OverflowUint64);
      }
      n := n * BASE + digit;
    }
    assert s[..|s|] == s;
    ValidPrefixIs(s, |s|);
    r := Ok(n);
  }

  lemma OverflowStays(s: string, i: nat)
    requires 0 < i <= |s| <= FIXED_WIDTH && IsBase62(s[..i]) && Value(s[..i]) > MAX_UINT64
    ensures Decode(s) == Err(OverflowUint64)
  {
    PrefixDigits(s, i);
    ValueGrows(s, i, ValidPrefix(s));
  }

  // ---------------------------------------------------------------------------------------------
  // Round trips and order
  // ---------------------------------------------------------------------------------------------

  lemma {:induction false} ValueOfDigits(n: nat, width: nat)
    requires n < Power(width)
    ensures Value(Digits(n, width)) == n
  {
    if width > 0 {
      ValueOfDigits(n / BASE, width - 1);
      var s := Digits(n, width);
      assert s[..|s| - 1] == Digits(n / BASE, width - 1);
      SymbolOrder(n % BASE, 0);
    }
  }

  lemma {:induction false} DigitsOfValue(s: string)
    requires IsBase62(s)
    ensures Value(s) < Power(|s|) && Digits(Value(s), |s|) == s
  {
    if s != "" {
      var front, last := s[..|s| - 1], s[|s| - 1];
      DigitsOfValue(front);
      assert Value(s) / BASE == Value(front) && Value(s) % BASE == Digit(last);
      assert s == front + [last];
    }
  }

  lemma {:induction false} ShortestIsDigits(n: nat)
    ensures n < Power(|Shortest(n)|) && Shortest(n) == Digits(n, |Shortest(n)|)
    ensures n > 0 ==> n >= Power(|Shortest(n)| - 1)
    decreases n
  {
    if n > 0 {
      ShortestIsDigits(n / BASE);
    }
  }

  lemma LengthBound(n: nat, length: nat, width: nat)
    requires n < Power(width) && (n > 0 ==> length > 0 && n >= Power(length - 1)) && (n == 0 ==> length == 0)
    ensures length <= width
  {
    if length > width {
      PowerMonotone(width, length - 1);
    }
  }

  lemma DecodeDigits(n: uint64, width: nat)
    requires 0 < width <= FIXED_WIDTH && n < Power(width)
    ensures Decode(Digits(n, width)) == Ok(n)
  {
    var s := Digits(n, width);
    ValueOfDigits(n, width);
    assert s[..width] == s;
    ValidPrefixIs(s, width);
  }

  /** Decoding inverts both encoders on every 64-bit number. */
  lemma DecodeInvertsEncode(n: uint64)
    ensures Decode(Fixed(n)) == Ok(n)
    ensures Decode(Variable(n)) == Ok(n)
    ensures |Fixed(n)| == FIXED_WIDTH && 1 <= |Variable(n)| <= FIXED_WIDTH
  {
    ElevenDigits();
    DecodeDigits(n, FIXED_WIDTH);
    if n == 0 {
      assert Digits(0, 1) == "0";
      DecodeDigits(0, 1);
    } else {
      ShortestIsDigits(n);
      LengthBound(n, |Shortest(n)|, FIXED_WIDTH);
      DecodeDigits(n, |Shortest(n)|);
    }
  }

  /** Encoding inverts decoding: an 11-digit string that decodes is the fixed-width form of its value. */
  lemma EncodeInvertsDecode(s: string)
    requires |s| == FIXED_WIDTH && Decode(s).Ok?
    ensures Fixed(Decode(s).value) == s
  {
    assert s[..|s|] == s;
    DigitsOfValue(s);
  }

  /** On strings of 1 to 11 digits the decoder reports overflow exactly when the number exceeds 2^64 - 1. */
  lemma OverflowIsExact(s: string)
    requires 1 <= |s| <= FIXED_WIDTH && IsBase62(s)
    ensures Decode(s) == Err(OverflowUint64) <==> Value(s) > MAX_UINT64
    ensures Decode(s) == if Value(s) > MAX_UINT64 then Err(OverflowUint64) else Ok(Value(s))
  {
    assert s[..|s|] == s;
    ValidPrefixIs(s, |s|);
  }

  /** Byte-lexicographic order. */
  predicate Before(a: string, b: string) {
    b != "" && (a == "" || a[0] < b[0] || (a[0] == b[0] && Before(a[1..], b[1..])))
  }

  lemma {:induction false} BeforeSnoc(a: string, b: string, x: char, y: char)
    requires |a| == |b|
    ensures Before(a + [x], b + [y]) <==> Before(a, b) || (a == b && x < y)
  {
    if a == "" {
      assert (a + [x])[1..] == "" && (b + [y])[1..] == "";
    } else {
      assert (a + [x])[1..] == a[1..] + [x] && (b + [y])[1..] == b[1..] + [y];
      BeforeSnoc(a[1..], b[1..], x, y);
      assert a == b <==> a[0] == b[0] && a[1..] == b[1..] by {
        assert a == [a[0]] + a[1..] && b == [b[0]] + b[1..];
      }
    }
  }

  lemma {:induction false} BeforeAppend(a: string, b: string, c: string, d: string)
    requires |a| == |b|
    ensures Before(a + c, b + d) <==> Before(a, b) || (a == b && Before(c, d))
  {
    if a == "" {
      assert a + c == c && b + d == d;
    } else {
      assert (a + c)[1..] == a[1..] + c && (b + d)[1..] == b[1..] + d;
      BeforeAppend(a[1..], b[1..], c, d);
      assert a == b <==> a[0] == b[0] && a[1..] == b[1..] by {
        assert a == [a[0]] + a[1..] && b == [b[0]] + b[1..];
      }
    }
  }

  lemma {:induction false} DigitsOrder(m: nat, n: nat, width: nat)
    requires m < Power(width) && n < Power(width)
    ensures Before(Digits(m, width), Digits(n, width)) <==> m < n
    ensures Digits(m, width) == Digits(n, width) <==> m == n
  {
    ValueOfDigits(m, width);
    ValueOfDigits(n, width);
    if width > 0 {
      DigitsOrder(m / BASE, n / BASE, width - 1);
      BeforeSnoc(Digits(m / BASE, width - 1), Digits(n / BASE, width - 1), Symbol(m % BASE), Symbol(n % BASE));
      SymbolOrder(m % BASE, n % BASE);
    }
  }

  /** The fixed-width form is an order isomorphism between 64-bit numbers and their strings. */
  lemma FixedOrder(m: uint64, n: uint64)
    ensures Before(Fixed(m), Fixed(n)) <==> m < n
    ensures Fixed(m) == Fixed(n) <==> m == n
  {
    ElevenDigits();
    DigitsOrder(m, n, FIXED_WIDTH);
  }

  /** `n` without its last `k` digits. */
  function Shift(n: nat, k: nat): nat {
    if k == 0 then n else Shift(n / BASE, k - 1)
  }

  lemma {:induction false} DigitsSplit(n: nat, width: nat, k: nat)
    requires k <= width
    ensures Digits(n, width) == Digits(Shift(n, k), width - k) + Digits(n, k)
    ensures n < Power(width) ==> Shift(n, k) < Power(width - k)
  {
    if k > 0 {
      DigitsSplit(n / BASE, width - 1, k - 1);
      assert Digits(n, width) == Digits(n / BASE, width - 1) + [Symbol(n % BASE)];
    }
  }

  lemma VariableIsDigits(n: uint64)
    ensures var length := |Variable(n)|;
            length > 0 && n < Power(length) && Variable(n) == Digits(n, length) && (n > 0 ==> n >= Power(length - 1))
  {
    ShortestIsDigits(n);
    if n == 0 {
      assert Digits(0, 1) == Digits(0, 0) + [Symbol(0)] == "0";
      assert Power(1) == Power(0) * BASE;
    }
  }

  /** Smaller numbers are not longer. */
  lemma VariableLength(m: uint64, n: uint64)
    requires m < n
    ensures |Variable(m)| <= |Variable(n)|
  {
    VariableIsDigits(m);
    VariableIsDigits(n);
    if |Variable(m)| > |Variable(n)| {
      PowerMonotone(|Variable(n)|, |Variable(m)| - 1);
    }
  }

  /**
   The variable-width form keeps the order of two numbers exactly if they have equally many digits, or the smaller one
   is at most what the leading digits of the other, as many as it has itself, denote. (So 2 < 62, but "10" is before
   "2".)
   */
  lemma VariableOrder(m: uint64, n: uint64)
    requires m < n
    ensures Before(Variable(m), Variable(n))
            <==> || |Variable(m)| == |Variable(n)|
                 || (|Variable(m)| < |Variable(n)| && m <= Shift(n, |Variable(n)| - |Variable(m)|))
  {
    VariableLength(m, n);
    VariableIsDigits(m);
    VariableIsDigits(n);
    var short, extra := |Variable(m)|, |Variable(n)| - |Variable(m)|;
    DigitsSplit(n, |Variable(n)|, extra);
    BeforeAppend(Digits(m, short), Digits(Shift(n, extra), short), "", Digits(n, extra));
    DigitsOrder(m, Shift(n, extra), short);
    assert Digits(m, short) + "" == Variable(m);
  }

  /** So it is not monotone. */
  lemma VariableIsNotOrdered()
    ensures Before(Variable(62), Variable(2))
  {
    assert Shortest(62) == Shortest(1) + "0" == "1" + "0";
    assert Shortest(2) == "2";
  }

  // ---------------------------------------------------------------------------------------------
  // Generator
  // ---------------------------------------------------------------------------------------------

  /** The last timestamp used and the sequence number within it. */
  datatype GeneratorState = GeneratorState(lastNS: uint64, seqNo: nat)

  function MakeID(st: GeneratorState, width: nat): string {
    Fixed(st.lastNS) + Digits(st.seqNo, width)
  }

  /** One attempt to make an id at clock reading `now` (nanoseconds since the epoch). */
  function Attempt(st: GeneratorState, width: nat, now: int64): (GeneratorState, Result<string, Base62Error>)
  {
    if now < 0 then (st, Err(BeforeUnixEpoch))
    else if now > st.lastNS then
      var next := GeneratorState(now, 0);
      (next, Ok(MakeID(next, width)))
    else if st.seqNo + 1 >= Power(width) then (st, Err(SequenceExhausted))
    else
      var next := st.(seqNo := st.seqNo + 1);
      (next, Ok(MakeID(next, width)))
  }

  /** Next: attempts at successive clock readings until one gives an id; `used` readings are consumed. */
  function Spin(st: GeneratorState, width: nat, readings: seq<int64>): (GeneratorState, Result<string, Base62Error>) {
    if readings == [] then (st, Err(StillWaiting))
    else
      var (next, r) := Attempt(st, width, readings[0]);
      if r == Err(SequenceExhausted) then Spin(next, width, readings[1..]) else (next, r)
  }

  predicate ValidState(st: GeneratorState, width: nat) {
    0 < width <= 10 && st.lastNS <= MAX_INT64 && st.seqNo < Power(width)
  }

  predicate Later(a: GeneratorState, b: GeneratorState) {
    a.lastNS < b.lastNS || (a.lastNS == b.lastNS && a.seqNo < b.seqNo)
  }

  /** Later states give later ids. */
  lemma IDOrder(a: GeneratorState, b: GeneratorState, width: nat)
    requires ValidState(a, width) && ValidState(b, width)
    ensures Before(MakeID(a, width), MakeID(b, width)) <==> Later(a, b)
  {
    FixedOrder(a.lastNS, b.lastNS);
    DigitsOrder(a.seqNo, b.seqNo, width);
    BeforeAppend(Fixed(a.lastNS), Fixed(b.lastNS), Digits(a.seqNo, width), Digits(b.seqNo, width));
  }

  /** A call with the readings it sees; NextWithTime sees exactly one. */
  datatype Call = Next(readings: seq<int64>) | NextWithTime(now: int64)

  function Step(st: GeneratorState, width: nat, call: Call): (GeneratorState, Result<string, Base62Error>) {
    match call
    case Next(readings) => Spin(st, width, readings)
    case NextWithTime(now) => Attempt(st, width, now)
  }

  lemma {:induction false} SpinAdvances(st: GeneratorState, width: nat, readings: seq<int64>)
    requires ValidState(st, width)
    ensures var (next, r) := Spin(st, width, readings);
            && ValidState(next, width)
            && (if r.Ok? then Later(st, next) && r.value == MakeID(next, width) else next == st)
  {
    if readings != [] {
      var (next, r) := Attempt(st, width, readings[0]);
      if r == Err(SequenceExhausted) {
        SpinAdvances(next, width, readings[1..]);
      }
    }
  }

  lemma StepAdvances(st: GeneratorState, width: nat, call: Call)
    requires ValidState(st, width)
    ensures var (next, r) := Step(st, width, call);
            && ValidState(next, width)
            && (if r.Ok? then Later(st, next) && r.value == MakeID(next, width) else next == st)
  {
    if call.Next? {
      SpinAdvances(st, width, call.readings);
    }
  }

  function After(st: GeneratorState, width: nat, calls: seq<Call>, k: nat): GeneratorState
    requires k <= |calls|
  {
    if k == 0 then st else Step(After(st, width, calls, k - 1), width, calls[k - 1]).0
  }

  function ResultAt(st: GeneratorState, width: nat, calls: seq<Call>, k: nat): Result<string, Base62Error>
    requires k < |calls|
  {
    Step(After(st, width, calls, k), width, calls[k]).1
  }

  lemma {:induction false} RunAdvances(st: GeneratorState, width: nat, calls: seq<Call>, j: nat, k: nat)
    requires ValidState(st, width) && j <= k <= |calls|
    ensures ValidState(After(st, width, calls, k), width) && ValidState(After(st, width, calls, j), width)
    ensures After(st, width, calls, j) == After(st, width, calls, k)
            || Later(After(st, width, calls, j), After(st, width, calls, k))
    decreases k
  {
    if j < k {
      RunAdvances(st, width, calls, j, k - 1);
      StepAdvances(After(st, width, calls, k - 1), width, calls[k - 1]);
    } else if k > 0 {
      RunAdvances(st, width, calls, k - 1, k - 1);
      StepAdvances(After(st, width, calls, k - 1), width, calls[k - 1]);
    }
  }

  /**
   Whatever the clock does, standing still or running backwards included, the ids a generator hands out are strictly
   increasing as byte strings.
   */
  lemma StrictlyIncreasing(st: GeneratorState, width: nat, calls: seq<Call>, j: nat, k: nat)
    requires ValidState(st, width) && j < k < |calls|
    requires ResultAt(st, width, calls, j).Ok? && ResultAt(st, width, calls, k).Ok?
    ensures Before(ResultAt(st, width, calls, j).value, ResultAt(st, width, calls, k).value)
  {
    RunAdvances(st, width, calls, j, k);
    RunAdvances(st, width, calls, j + 1, k);
    StepAdvances(After(st, width, calls, j), width, calls[j]);
    StepAdvances(After(st, width, calls, k), width, calls[k]);
    IDOrder(After(st, width, calls, j + 1), Step(After(st, width, calls, k), width, calls[k]).0, width);
  }

  /** The inverse of MakeID, with the checks SplitGeneratedID makes. */
  function SplitGeneratedID(id: string, width: int): Result<(uint64, nat), Base62Error> {
    if width <= 0 || width > 10 then Err(InvalidSuffixWidth)
    else if |id| != FIXED_WIDTH + width then Err(WrongIDLength)
    else
      match Decode(id[..FIXED_WIDTH])
      case Err(e) => Err(e)
      case Ok(ns) =>
        if ns > MAX_INT64 then Err(TimeOutOfRange)
        else if !IsBase62(id[FIXED_WIDTH..]) then Err(InvalidSuffix)
        else
          match Decode(id[FIXED_WIDTH..])
          case Err(e) => Err(e)
          case Ok(seqNo) => Ok((ns, seqNo))
  }

  /** Splitting an id of a reachable generator state recovers the timestamp and the sequence number in it. */
  lemma SplitInvertsMake(st: GeneratorState, width: nat)
    requires ValidState(st, width)
    ensures SplitGeneratedID(MakeID(st, width), width) == Ok((st.lastNS, st.seqNo))
  {
    var id := MakeID(st, width);
    assert id[..FIXED_WIDTH] == Fixed(st.lastNS) && id[FIXED_WIDTH..] == Digits(st.seqNo, width);
    DecodeInvertsEncode(st.lastNS);
    ElevenDigits();
    PowerMonotone(width, 10);
    DecodeDigits(st.seqNo, width);
  }

  /** The ids that split into a timestamp and a number are exactly those made of them, in that width. */
  lemma SplitExactly(id: string, width: int, ns: uint64, seqNo: nat)
    ensures SplitGeneratedID(id, width) == Ok((ns, seqNo))
       <==> && 0 < width <= 10 && ValidState(GeneratorState(ns, seqNo), width)
            && id == MakeID(GeneratorState(ns, seqNo), width)
  {
    if SplitGeneratedID(id, width) == Ok((ns, seqNo)) {
      assert id == id[..FIXED_WIDTH] + id[FIXED_WIDTH..];
      EncodeInvertsDecode(id[..FIXED_WIDTH]);
      DigitsOfValue(id[FIXED_WIDTH..]);
      OverflowIsExact(id[FIXED_WIDTH..]);
    } else if 0 < width <= 10 && ValidState(GeneratorState(ns, seqNo), width) {
      SplitInvertsMake(GeneratorState(ns, seqNo), width);
    }
  }

  /** Every id handed out splits into the state that made it, and that state is never earlier than the first. */
  lemma IssuedIDsSplit(st: GeneratorState, width: nat, calls: seq<Call>, k: nat)
    requires ValidState(st, width) && k < |calls| && ResultAt(st, width, calls, k).Ok?
    ensures var made := After(st, width, calls, k + 1);
            SplitGeneratedID(ResultAt(st, width, calls, k).value, width) == Ok((made.lastNS, made.seqNo))
            && Later(st, made)
  {
    RunAdvances(st, width, calls, 0, k);
    StepAdvances(After(st, width, calls, k), width, calls[k]);
    SplitInvertsMake(After(st, width, calls, k + 1), width);
  }

  // ---------------------------------------------------------------------------------------------
  // Ids and the clock
  // ---------------------------------------------------------------------------------------------

  /** No id can be made at this reading: the clock has not moved on and the sequence is used up. */
  predicate Stuck(st: GeneratorState, width: nat, now: int64) {
    0 <= now <= st.lastNS && st.seqNo + 1 == Power(width)
  }

  /**
   An attempt fails before the epoch or when it is stuck, and in no other case. The id it gives carries the reading and
   number 0 if the clock has moved on, and the last timestamp with the next number otherwise.
   */
  lemma AttemptOutcome(st: GeneratorState, width: nat, now: int64)
    requires ValidState(st, width)
    ensures var (next, r) := Attempt(st, width, now);
            && (r == Err(BeforeUnixEpoch) <==> now < 0)
            && (r == Err(SequenceExhausted) <==> Stuck(st, width, now))
            && (r.Ok? <==> now >= 0 && !Stuck(st, width, now))
            && (r.Err? ==> next == st)
            && (r.Ok? ==> SplitGeneratedID(r.value, width) == Ok((next.lastNS, next.seqNo)))
            && (r.Ok? && now > st.lastNS ==> next == GeneratorState(now, 0))
            && (r.Ok? && now <= st.lastNS ==> next == GeneratorState(st.lastNS, st.seqNo + 1))
  {
    StepAdvances(st, width, NextWithTime(now));
    SplitInvertsMake(Attempt(st, width, now).0, width);
    if now > st.lastNS {
      PowerMonotone(0, width);
    }
  }

  /** How many readings Next passes over. */
  function FirstUsable(st: GeneratorState, width: nat, readings: seq<int64>): nat {
    if readings == [] || !Stuck(st, width, readings[0]) then 0 else 1 + FirstUsable(st, width, readings[1..])
  }

  /** Next gives what an attempt gives at the first of its readings that is not stuck; until then nothing changes. */
  lemma {:induction false} NextOutcome(st: GeneratorState, width: nat, readings: seq<int64>)
    requires ValidState(st, width)
    ensures var i := FirstUsable(st, width, readings);
            && i <= |readings| && (forall j :: 0 <= j < i ==> Stuck(st, width, readings[j]))
            && (i == |readings| ==> Spin(st, width, readings) == (st, Err(StillWaiting)))
            && (i < |readings| ==>
                  !Stuck(st, width, readings[i]) && Spin(st, width, readings) == Attempt(st, width, readings[i]))
  {
    if readings != [] {
      AttemptOutcome(st, width, readings[0]);
      if Stuck(st, width, readings[0]) {
        NextOutcome(st, width, readings[1..]);
      }
    }
  }

  /** The reading at which a call comes to an end, if it does. */
  function DecidingReading(st: GeneratorState, width: nat, call: Call): Option<int64> {
    match call
    case NextWithTime(now) => Some(now)
    case Next(readings) =>
      var i := FirstUsable(st, width, readings);
      if i < |readings| then Some(readings[i]) else None
  }

  lemma StepOutcome(st: GeneratorState, width: nat, call: Call)
    requires ValidState(st, width)
    ensures Step(st, width, call) == match DecidingReading(st, width, call)
                                     case None => (st, Err(StillWaiting))
                                     case Some(now) => Attempt(st, width, now)
  {
    if call.Next? {
      NextOutcome(st, width, call.readings);
    }
  }

  /** The latest of the readings that decided the first `k` calls, and of the timestamp at the start. */
  function Latest(st: GeneratorState, width: nat, calls: seq<Call>, k: nat): int
    requires k <= |calls|
  {
    if k == 0 then st.lastNS
    else
      Max(Latest(st, width, calls, k - 1), Decided(After(st, width, calls, k - 1), width, calls[k - 1]))
  }

  /** The deciding reading; 0, the epoch, if there is none. */
  function Decided(st: GeneratorState, width: nat, call: Call): int {
    match DecidingReading(st, width, call)
    case None => 0
    case Some(now) => now
  }

  /** How many of the first `k` calls gave an id with that timestamp. */
  function IssuedAt(st: GeneratorState, width: nat, calls: seq<Call>, k: nat, timestamp: uint64): nat
    requires k <= |calls|
  {
    if k == 0 then 0
    else
      IssuedAt(st, width, calls, k - 1, timestamp)
      + if ResultAt(st, width, calls, k - 1).Ok? && After(st, width, calls, k).lastNS == timestamp then 1 else 0
  }

  lemma {:induction false} NoneIssuedLater(st: GeneratorState, width: nat, calls: seq<Call>, k: nat, timestamp: uint64)
    requires ValidState(st, width) && k <= |calls| && timestamp > After(st, width, calls, k).lastNS
    ensures IssuedAt(st, width, calls, k, timestamp) == 0
  {
    if k > 0 {
      RunAdvances(st, width, calls, k - 1, k);
      NoneIssuedLater(st, width, calls, k - 1, timestamp);
    }
  }

  /**
   The clock in a run: the timestamp in use is the latest reading so far, and the ids of one timestamp are numbered from
   0 on without gaps (those of the timestamp at the start from its number on).
   */
  lemma {:induction false} TimestampsFollowClock(st: GeneratorState, width: nat, calls: seq<Call>, k: nat)
    requires ValidState(st, width) && k <= |calls|
    ensures var now := After(st, width, calls, k);
            && now.lastNS == Latest(st, width, calls, k)
            && IssuedAt(st, width, calls, k, now.lastNS)
               == if now.lastNS == st.lastNS then now.seqNo - st.seqNo else now.seqNo + 1
  {
    if k > 0 {
      TimestampsFollowClock(st, width, calls, k - 1);
      RunAdvances(st, width, calls, 0, k - 1);
      CallFollowsClock(st, width, calls, k - 1);
    }
  }

  /** What one call of a run does to timestamp, number and counts. */
  lemma CallFollowsClock(st: GeneratorState, width: nat, calls: seq<Call>, k: nat)
    requires k < |calls| && ValidState(st, width) && ValidState(After(st, width, calls, k), width)
    ensures var before, now := After(st, width, calls, k), After(st, width, calls, k + 1);
            && (now.lastNS == before.lastNS ==>
                  && now.lastNS >= Decided(before, width, calls[k])
                  && IssuedAt(st, width, calls, k + 1, now.lastNS)
                     == IssuedAt(st, width, calls, k, now.lastNS) + now.seqNo - before.seqNo)
            && (now.lastNS != before.lastNS ==>
                  && before.lastNS < now.lastNS == Decided(before, width, calls[k])
                  && now.seqNo == 0 && IssuedAt(st, width, calls, k + 1, now.lastNS) == 1)
  {
    var before := After(st, width, calls, k);
    StepOutcome(before, width, calls[k]);
    var deciding := DecidingReading(before, width, calls[k]);
    if deciding.Some? {
      AttemptOutcome(before, width, deciding.value);
      if deciding.value > before.lastNS {
        NoneIssuedLater(st, width, calls, k, deciding.value);
      }
    }
  }

  function Max(x: int, y: int): int {
    if x < y then y else x
  }

  class Generator {
    const seqWidth: nat
    const seqMax: uint64
    var lastNS: uint64
    var seqNo: uint64

    ghost predicate Valid()
      reads this
    {
      seqMax == Power(seqWidth) && ValidState(State(), seqWidth)
    }

    function State(): GeneratorState
      reads this
    {
      GeneratorState(lastNS, seqNo)
    }

    constructor (seqWidth: nat)
      requires 0 < seqWidth <= 10
      ensures Valid() && this.seqWidth == seqWidth && State() == GeneratorState(0, 0)
    {
      var max := 1;
      ElevenDigits();
      for i := 0 to seqWidth
        invariant max == Power(i)
      {
        PowerMonotone(i + 1, 10);
        max := max * BASE;
      }
      this.seqWidth, seqMax := seqWidth, max;
      lastNS, seqNo := 0, 0;
    }

    method NextWithTime(now: int64) returns (r: Result<string, Base62Error>)
      requires Valid()
      modifies this
      ensures Valid()
      ensures State() == Attempt(old(State()), seqWidth, now).0
      ensures r == Attempt(old(State()), seqWidth, now).1
    {
      if now < 0 {
        return Err(BeforeUnixEpoch);
      }
      if now > lastNS {
        lastNS, seqNo := now, 0;
        var time := EncodeFixed(lastNS);
        var number := EncodeFixedWidth(seqNo, seqWidth);
        return Ok(time + number);
      }
      if seqNo + 1 >= seqMax {
        return Err(SequenceExhausted);
      }
      seqNo := seqNo + 1;
      var time := EncodeFixed(lastNS);
      var number := EncodeFixedWidth(seqNo, seqWidth);
      r := Ok(time + number);
    }

    /** Reads the clock until an id can be made; here the clock shows `readings` and then nothing more. */
    method Next(readings: seq<int64>) returns (r: Result<string, Base62Error>)
      requires Valid()
      modifies this
      ensures Valid()
      ensures State() == Spin(old(State()), seqWidth, readings).0
      ensures r == Spin(old(State()), seqWidth, readings).1
    {
      var i := 0;
      while i < |readings|
        invariant Valid() && i <= |readings|
        invariant Spin(State(), seqWidth, readings[i..]) == Spin(old(State()), seqWidth, readings)
      {
        r := NextWithTime(readings[i]);
        if r != Err(SequenceExhausted) {
          return;
        }
        i := i + 1;
      }
      r := Err(StillWaiting);
    }
  }

  method NewGenerator(seqWidth: int) returns (r: Result<Generator, Base62Error>)
    ensures r.Ok? <==> 0 < seqWidth <= 10
    ensures r.Ok? ==> fresh(r.value) && r.value.Valid() && r.value.seqWidth == seqWidth
                      && r.value.State() == GeneratorState(0, 0)
  {
    if seqWidth <= 0 || seqWidth > 10 {
      return Err(InvalidSuffixWidth);
    }
    var g := new Generator(seqWidth);
    r := Ok(g);
  }
}
