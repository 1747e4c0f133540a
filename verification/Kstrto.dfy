/** The kernel-compatibility integer parsers. */
module Kstrto {
  import opened Types

  /** The bytes of a C string before its terminating NUL. */
  type CString = s: seq<byte> | NoNul(s)

  predicate NoNul(s: seq<byte>) {
    forall i :: 0 <= i < |s| ==> s[i] != 0
  }

  const EINVAL := 22
  const ERANGE := 34
  const ULLONG_MAX := 0xFFFF_FFFF_FFFF_FFFF
  const UINT_MAX := 0xFFFF_FFFF

  datatype Result = Ok(value: nat) | Err(code: int)

  /** Reading a C string; index |s| is the NUL, and nothing beyond it may be read. */
  function At(s: CString, i: nat): byte
    requires i <= |s|
  {
    if i < |s| then s[i] else 0
  }

  /** c | 0x20 */
  function ToLower(c: byte): byte {
    if c / 32 % 2 == 0 then c + 32 else c
  }

  predicate IsXDigit(c: byte) {
    '0' as int <= c <= '9' as int || 'a' as int <= c <= 'f' as int || 'A' as int <= c <= 'F' as int
  }

  /** The value of a hexadecimal digit of either case; 16 for every other character. */
  function DigitValue(c: byte): nat {
    if '0' as int <= c <= '9' as int then c - '0' as int
    else if 'a' as int <= c <= 'f' as int then c - 'a' as int + 10
    else if 'A' as int <= c <= 'F' as int then c - 'A' as int + 10
    else 16
  }

  predicate GoodDigit(c: byte, base: nat) {
    DigitValue(c) < 16 && DigitValue(c) < base
  }

  /** The number a run of digits denotes, most significant digit first. */
  function NumValue(t: seq<byte>, base: nat): nat {
    if t == [] then 0 else NumValue(t[..|t| - 1], base) * base + DigitValue(t[|t| - 1])
  }

  /** The length of the longest prefix of good digits. */
  function GoodRun(t: seq<byte>, base: nat): (g: nat)
    ensures g <= |t|
    ensures forall i :: 0 <= i < g ==> GoodDigit(t[i], base)
    ensures g < |t| ==> !GoodDigit(t[g], base)
  {
    if t == [] || !GoodDigit(t[0], base) then 0 else 1 + GoodRun(t[1..], base)
  }

  lemma {:induction false} GoodRunIs(t: seq<byte>, base: nat, g: nat)
    requires g <= |t|
    requires forall i :: 0 <= i < g ==> GoodDigit(t[i], base)
    requires g < |t| ==> !GoodDigit(t[g], base)
    ensures GoodRun(t, base) == g
  {
    if g > 0 {
      GoodRunIs(t[1..], base, g - 1);
    }
  }

  // ---------------------------------------------------------------- what parsing means

  predicate HexPrefix(s: CString) {
    |s| >= 2 && s[0] == '0' as int && (s[1] == 'x' as int || s[1] == 'X' as int)
  }

  /** Base 0 stands for the base the text announces. */
  function Base(s: CString, base: nat): nat {
    if base != 0 then base
    else if HexPrefix(s) && |s| >= 3 && IsXDigit(s[2]) then 16
    else if s != [] && s[0] == '0' as int then 8
    else 10
  }

  /** The text left for the digits: one 0x prefix may go first when the base is 16. */
  function Digits(s: CString, base: nat): CString {
    if Base(s, base) == 16 && HexPrefix(s) then s[2..] else s
  }

  /** The leading run of digits decides: too large a value is a range error; otherwise the run must
      be nonempty and followed by nothing but at most one newline. */
  function Judge(t: CString, b: nat): Result {
    var g := GoodRun(t, b);
    var v := NumValue(t[..g], b);
    if v > ULLONG_MAX then Err(-ERANGE)
    else if g > 0 && (g == |t| || (g == |t| - 1 && t[g] == '\n' as int)) then Ok(v)
    else Err(-EINVAL)
  }

  function Parse(s: CString, base: nat): Result {
    Judge(Digits(s, base), Base(s, base))
  }

  /** The judgement once the run of good digits is known to end at n. */
  lemma JudgeEnd(t: CString, b: nat, n: nat)
    requires n <= |t| && NumValue(t[..n], b) <= ULLONG_MAX
    requires forall i :: 0 <= i < n ==> GoodDigit(t[i], b)
    requires n < |t| ==> !GoodDigit(t[n], b)
    ensures Judge(t, b) ==
            if n > 0 && (n == |t| || (n == |t| - 1 && t[n] == '\n' as int)) then Ok(NumValue(t[..n], b))
            else Err(-EINVAL)
  {
    GoodRunIs(t, b, n);
  }

  lemma {:induction false} NumValueGrows(t: seq<byte>, base: nat, i: nat)
    requires i <= |t| && base > 0
    ensures NumValue(t[..i], base) <= NumValue(t, base)
  {
    if i == |t| {
      assert t[..i] == t;
    } else {
      var t' := t[..|t| - 1];
      NumValueGrows(t', base, i);
      assert t'[..i] == t[..i];
      Grow(NumValue(t', base), base);
    }
  }

  lemma Grow(x: nat, base: nat)
    requires base > 0
    ensures x * base >= x
  {
  }

  /** Extending a run of digits by one. */
  lemma NumValueStep(t: seq<byte>, base: nat, i: nat)
    requires i < |t|
    ensures NumValue(t[..i + 1], base) == NumValue(t[..i], base) * base + DigitValue(t[i])
  {
    assert t[..i + 1][..i] == t[..i];
  }

  /** The test made before multiplying is exact: it fires if and only if the result would not fit. */
  lemma OverflowTest(acc: nat, val: nat, base: nat)
    requires base > 0 && val <= ULLONG_MAX
    ensures acc > (ULLONG_MAX - val) / base <==> acc * base + val > ULLONG_MAX
  {
    var x := ULLONG_MAX - val;
    var q, r := x / base, x % base;
    assert x == q * base + r;
    if acc > q {
      assert acc * base >= (q + 1) * base;
    } else {
      assert acc * base <= q * base;
    }
  }

  // ---------------------------------------------------------------- the parsers

  /** One digit more, unless the result would not fit. */
  method Accumulate(acc: nat, val: nat, b: nat) returns (fits: bool, next: nat)
    requires b > 0 && acc <= ULLONG_MAX && val < 16
    ensures fits <==> acc * b + val <= ULLONG_MAX
    ensures fits ==> next == acc * b + val
  {
    OverflowTest(acc, val, b);
    if acc > (ULLONG_MAX - val) / b {
      return false, acc;
    }
    return true, acc * b + val;
  }

  /** The digit branches of the loop: a digit's value, the end of the text, or a bad character. */
  method ReadDigit(t: CString, i: nat) returns (val: nat, end: bool)
    requires i < |t|
    ensures val == DigitValue(t[i])
    ensures end <==> t[i] == '\n' as int && i + 1 == |t|
  {
    var c := At(t, i);
    if '0' as int <= c <= '9' as int {
      return c - '0' as int, false;
    } else if 'a' as int <= ToLower(c) <= 'f' as int {
      return ToLower(c) - 'a' as int + 10, false;
    } else if c == '\n' as int && At(t, i + 1) == 0 {
      return 16, true;
    } else {
      return 16, false;
    }
  }

  /** The opening of _kstrtoull: the base in use and where the digits start. */
  method DetectBase(s: CString, base: nat) returns (b: nat, p: nat)
    ensures p <= |s| && b == Base(s, base) > 0 && s[p..] == Digits(s, base)
    ensures base != 0 ==> b == base
    ensures base == 0 && (s == [] || s[0] != '0' as int) ==> b == 10
    ensures base == 0 && s != [] && s[0] == '0' as int ==>
              b == if |s| >= 3 && s[1] in {'x' as int, 'X' as int} && IsXDigit(s[2]) then 16 else 8
    ensures p == if b == 16 && |s| >= 2 && s[0] == '0' as int && s[1] in {'x' as int, 'X' as int} then 2 else 0
  {
    b := base;
    if b == 0 {
      if At(s, 0) == '0' as int {
        if ToLower(At(s, 1)) == 'x' as int && IsXDigit(At(s, 2)) {
          b := 16;
        } else {
          b := 8;
        }
      } else {
        b := 10;
      }
    }
    p := 0;
    if b == 16 && At(s, 0) == '0' as int && ToLower(At(s, 1)) == 'x' as int {
      p := 2;
    }
  }

  method KstrtoullRaw(s: CString, base: nat) returns (r: Result)
    requires base <= UINT_MAX
    ensures r == Parse(s, base)
  {
    var b, p := DetectBase(s, base);
    var t := s[p..];
    var i, acc, ok := 0, 0, false;
    while At(t, i) != 0
      invariant 0 <= i <= |t|
      invariant forall j :: 0 <= j < i ==> GoodDigit(t[j], b)
      invariant acc == NumValue(t[..i], b) <= ULLONG_MAX
      invariant ok <==> i > 0
      decreases |t| - i
    {
      var val, end := ReadDigit(t, i);
      if end {
        break;
      }
      if val == 16 {
        JudgeEnd(t, b, i);
        return Err(-EINVAL);
      }
      if val >= b {
        JudgeEnd(t, b, i);
        return Err(-EINVAL);
      }
      NumValueStep(t, b, i);
      var fits, next := Accumulate(acc, val, b);
      if !fits {
        Overflowed(t, b, i + 1);
        return Err(-ERANGE);
      }
      acc := next;
      ok := true;
      i := i + 1;
    }
    JudgeEnd(t, b, i);
    if !ok {
      return Err(-EINVAL);
    }
    r := Ok(acc);
  }

  /** Once a run of good digits is too large, so is the longest one. */
  lemma Overflowed(t: CString, base: nat, n: nat)
    requires n <= |t| && base > 0 && NumValue(t[..n], base) > ULLONG_MAX
    requires forall i :: 0 <= i < n ==> GoodDigit(t[i], base)
    ensures Judge(t, base) == Err(-ERANGE)
  {
    var g := GoodRun(t, base);
    assert n <= g;
    NumValueGrows(t[..g], base, n);
    assert t[..g][..n] == t[..n];
  }

  /** An optional plus sign may come first. */
  function ParseSigned(s: CString, base: nat): Result {
    Parse(if s != [] && s[0] == '+' as int then s[1..] else s, base)
  }

  /** A value that does not fit the target is a range error. */
  function Narrow(r: Result, max: nat): Result {
    if r.Ok? && r.value > max then Err(-ERANGE) else r
  }

  /** Where a parser stores its result. */
  class Cell {
    var value: nat

    constructor (v: nat)
      ensures value == v
    {
      value := v;
    }
  }

  twostate predicate Reported(res: Cell, r: Result, rc: int)
    reads res
  {
    if r.Ok? then rc == 0 && res.value == r.value else rc == r.code < 0 && res.value == old(res.value)
  }

  method Kstrtoull(s: CString, base: nat, res: Cell) returns (rc: int)
    requires base <= UINT_MAX
    modifies res
    ensures Reported(res, ParseSigned(s, base), rc)
    ensures match ParseSigned(s, base)
            case Ok(v) => rc == 0 && res.value == v
            case Err(code) => rc == code < 0 && res.value == old(res.value)
  {
    var s' := s;
    if At(s, 0) == '+' as int {
      s' := s[1..];
    }
    var r := KstrtoullRaw(s', base);
    match r {
      case Ok(v) => res.value := v; rc := 0;
      case Err(code) => rc := code;
    }
  }

  /** _kstrtoul for a platform whose unsigned long holds values up to ulongMax. */
  method KstrtoulNarrow(s: CString, base: nat, res: Cell, ulongMax: nat) returns (rc: int)
    requires base <= UINT_MAX && (ulongMax == UINT_MAX || ulongMax == ULLONG_MAX)
    modifies res
    ensures Reported(res, Narrow(ParseSigned(s, base), ulongMax), rc)
    ensures match ParseSigned(s, base)
            case Ok(v) => if v <= ulongMax then rc == 0 && res.value == v else rc == -34 && res.value == old(res.value)
            case Err(code) => rc == code < 0 && res.value == old(res.value)
  {
    var tmp := new Cell(0);
    rc := Kstrtoull(s, base, tmp);
    if rc < 0 {
      return;
    }
    Truncation(tmp.value, ulongMax);
    if tmp.value != tmp.value % (ulongMax + 1) {
      return -ERANGE;
    }
    res.value := tmp.value;
    rc := 0;
  }

  /** kstrtoul: the direct call when unsigned long is as wide as unsigned long long. */
  method Kstrtoul(s: CString, base: nat, res: Cell, ulongMax: nat) returns (rc: int)
    requires base <= UINT_MAX && (ulongMax == UINT_MAX || ulongMax == ULLONG_MAX)
    modifies res
    ensures Reported(res, Narrow(ParseSigned(s, base), ulongMax), rc)
    ensures match ParseSigned(s, base)
            case Ok(v) => if v <= ulongMax then rc == 0 && res.value == v else rc == -34 && res.value == old(res.value)
            case Err(code) => rc == code < 0 && res.value == old(res.value)
  {
    if ulongMax == ULLONG_MAX {
      rc := Kstrtoull(s, base, res);
    } else {
      rc := KstrtoulNarrow(s, base, res, ulongMax);
    }
  }

  method Kstrtouint(s: CString, base: nat, res: Cell) returns (rc: int)
    requires base <= UINT_MAX
    modifies res
    ensures Reported(res, Narrow(ParseSigned(s, base), UINT_MAX), rc)
    ensures match ParseSigned(s, base)
            case Ok(v) => if v <= 4294967295 then rc == 0 && res.value == v else rc == -34 && res.value == old(res.value)
            case Err(code) => rc == code < 0 && res.value == old(res.value)
  {
    var tmp := new Cell(0);
    rc := Kstrtoull(s, base, tmp);
    if rc < 0 {
      return;
    }
    Truncation(tmp.value, UINT_MAX);
    if tmp.value != tmp.value % (UINT_MAX + 1) {
      return -ERANGE;
    }
    res.value := tmp.value;
    rc := 0;
  }

  /** A cast to a narrower unsigned type keeps exactly the values that fit. */
  lemma Truncation(v: nat, max: nat)
    ensures v == v % (max + 1) <==> v <= max
  {
  }

  // ---------------------------------------------------------------- consequences

  /** Success with a value means: after base detection and one optional prefix, a nonempty run of digits below
      the base that denotes that value, at most one final newline, and the value fits. */
  lemma ParseOkIff(s: CString, base: nat, v: nat)
    ensures Parse(s, base) == Ok(v) <==>
            var b, t := Base(s, base), Digits(s, base);
            exists n: nat ::
              && 0 < n <= |t|
              && (t == t[..n] || t == t[..n] + ['\n' as int])
              && (forall i :: 0 <= i < n ==> GoodDigit(t[i], b))
              && v == NumValue(t[..n], b) <= 18446744073709551615
  {
    var b, t := Base(s, base), Digits(s, base);
    var g := GoodRun(t, b);
    if Parse(s, base) == Ok(v) {
      assert t == t[..g] || t == t[..g] + ['\n' as int];
    }
    forall n: nat | 0 < n <= |t| && (t == t[..n] || t == t[..n] + ['\n' as int])
                    && (forall i :: 0 <= i < n ==> GoodDigit(t[i], b))
                    && v == NumValue(t[..n], b) <= ULLONG_MAX
      ensures Parse(s, base) == Ok(v)
    {
      if n < |t| { assert t[n] == '\n' as int; }
      GoodRunIs(t, b, n);
    }
  }

  /** A range error means some run of good digits, starting at the front, already exceeds the
      largest value; whatever follows it, even a bad character, does not matter. */
  lemma ParseRangeIff(s: CString, base: nat)
    ensures Parse(s, base) == Err(-34) <==>
            var b, t := Base(s, base), Digits(s, base);
            exists n: nat :: && n <= |t| && (forall i :: 0 <= i < n ==> GoodDigit(t[i], b))
                             && NumValue(t[..n], b) > 18446744073709551615
    ensures Parse(s, base).Ok? || Parse(s, base) == Err(-34) || Parse(s, base) == Err(-22)
  {
    var b, t := Base(s, base), Digits(s, base);
    forall n: nat | n <= |t| && (forall i :: 0 <= i < n ==> GoodDigit(t[i], b)) && NumValue(t[..n], b) > ULLONG_MAX
      ensures Parse(s, base) == Err(-ERANGE)
    {
      Overflowed(t, b, n);
    }
  }

  /** Detecting the base is the same as being told it. */
  lemma AutoBase(s: CString)
    ensures Parse(s, 0) == Parse(s, Base(s, 0))
  {
  }

  /** Text that does not start with a zero is decimal. */
  lemma AutoDecimal(s: CString)
    requires s == [] || s[0] != '0' as int
    ensures Parse(s, 0) == Parse(s, 10)
  {
  }

  /** Text that starts with a zero is octal, unless an x and a hexadecimal digit follow it. */
  lemma AutoOctal(s: CString)
    requires s != [] && s[0] == '0' as int
    requires |s| < 3 || (s[1] != 'x' as int && s[1] != 'X' as int) || !IsXDigit(s[2])
    ensures Parse(s, 0) == Parse(s, 8)
  {
  }

  /** In base 16 one prefix goes, and no second one; with a hexadecimal digit behind it the prefix announces that base. */
  lemma AutoHex(x: byte, t: CString)
    requires x == 'x' as int || x == 'X' as int
    requires |t| < 2 || t[0] != '0' as int || (t[1] != 'x' as int && t[1] != 'X' as int)
    ensures Parse(['0' as int, x] + t, 16) == Parse(t, 16)
    ensures t != [] && IsXDigit(t[0]) ==> Parse(['0' as int, x] + t, 0) == Parse(t, 16)
  {
    assert (['0' as int, x] + t)[2..] == t;
  }

  /** The text is a nonempty run of digits that denotes v, and at most one newline. */
  ghost predicate Denotes(s: CString, base: nat, v: int) {
    exists n: nat :: && 0 < n <= |s| && (s == s[..n] || s == s[..n] + ['\n' as int])
                     && (forall i :: 0 <= i < n ==> GoodDigit(s[i], base))
                     && v == NumValue(s[..n], base)
  }

  /** A base that is given is used as given, on the whole text but for a prefix in base 16. */
  lemma GivenBase(s: CString, base: nat, v: nat)
    requires base != 0
    requires base != 16 || |s| < 2 || s[0] != '0' as int || (s[1] != 'x' as int && s[1] != 'X' as int)
    ensures Parse(s, base) == Ok(v) <==> v <= 18446744073709551615 && Denotes(s, base, v)
    ensures Denotes(s, base, v) && v > 18446744073709551615 ==> Parse(s, base) == Err(-34)
  {
    ParseOkIff(s, base, v);
    ParseRangeIff(s, base);
  }

  /** One plus sign is dropped, and only in front. */
  lemma PlusSign(s: CString)
    ensures forall base: nat :: ParseSigned(['+' as int] + s, base) == Parse(s, base)
    ensures forall base: nat :: s == [] || s[0] != '+' as int ==> ParseSigned(s, base) == Parse(s, base)
  {
    assert (['+' as int] + s)[1..] == s;
  }

  /** The digits: 0 to 9 and a to f in either case stand for their place, and nothing else is a digit of any base. */
  lemma DigitsByName(c: byte, base: nat)
    ensures forall d :: 0 <= d < 16 && (c == "0123456789abcdef"[d] as int || c == "0123456789ABCDEF"[d] as int) ==>
              DigitValue(c) == d && (GoodDigit(c, base) <==> d < base)
    ensures GoodDigit(c, base) ==>
              exists d :: 0 <= d < 16 && (c == "0123456789abcdef"[d] as int || c == "0123456789ABCDEF"[d] as int)
  {
    if GoodDigit(c, base) {
      var d := DigitValue(c);
      assert c == "0123456789abcdef"[d] as int || c == "0123456789ABCDEF"[d] as int;
    }
  }

  // ---------------------------------------------------------------- printing

  /** The digits used by %X and, in lower case, by %p. */
  function DigitChar(d: nat, upper: bool): (c: byte)
    requires d < 16
    ensures DigitValue(c) == d
    ensures c == (if upper then "0123456789ABCDEF" else "0123456789abcdef")[d] as int
  {
    if d < 10 then '0' as int + d else if upper then 'A' as int + (d - 10) else 'a' as int + (d - 10)
  }

  predicate InCase(c: byte, upper: bool) {
    '0' as int <= c <= '9' as int ||
    if upper then 'A' as int <= c <= 'F' as int else 'a' as int <= c <= 'f' as int
  }

  /** v in base 16 with n digits, leading zeros included. */
  function Hex(v: nat, n: nat, upper: bool): (t: CString)
    ensures |t| == n
    ensures forall i :: 0 <= i < n ==> IsXDigit(t[i])
    ensures forall i :: 0 <= i < n ==> InCase(t[i], upper)
  {
    if n == 0 then [] else Hex(v / 16, n - 1, upper) + [DigitChar(v % 16, upper)]
  }

  function Pow16(n: nat): (r: nat)
    ensures r > 0
  {
    if n == 0 then 1 else 16 * Pow16(n - 1)
  }

  lemma NumValueAppend(t: seq<byte>, d: byte)
    ensures NumValue(t + [d], 16) == NumValue(t, 16) * 16 + DigitValue(d)
  {
    assert (t + [d])[..|t|] == t;
  }

  lemma {:induction false} HexValue(v: nat, n: nat, upper: bool)
    requires v < Pow16(n)
    ensures NumValue(Hex(v, n, upper), 16) == v
  {
    if n > 0 {
      var t, d := Hex(v / 16, n - 1, upper), DigitChar(v % 16, upper);
      HexValue(v / 16, n - 1, upper);
      NumValueAppend(t, d);
    }
  }

  /** Reading back what was printed, for every field width that fits the value. */
  lemma ParseHex(v: nat, n: nat, upper: bool)
    requires 0 < n && v < Pow16(n) && v <= ULLONG_MAX
    ensures ParseSigned(Hex(v, n, upper), 16) == Ok(v)
  {
    var t := Hex(v, n, upper);
    HexValue(v, n, upper);
    forall i | 0 <= i < n
      ensures GoodDigit(t[i], 16) && t[i] != 'x' as int && t[i] != 'X' as int && t[i] != '+' as int
    {
      XDigit(t[i]);
    }
    GoodRunIs(t, 16, n);
    assert t[..n] == t;
  }

  lemma XDigit(c: byte)
    requires IsXDigit(c)
    ensures GoodDigit(c, 16) && c != 'x' as int && c != 'X' as int && c != '+' as int
  {
  }
}
