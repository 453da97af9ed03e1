/** Printing and reading numbers: `number`, `simple_strtoul` and `skip_atoi` of src/nslibc/vsprintf.c. */
module Vsprintf {
  import opened Wrappers
  import opened Words

  /** The bits of `type` in `number`. */
  datatype Flags = Flags(zeropad: bool, signed: bool, plus: bool, space: bool, left: bool, special: bool, small: bool)

  // ---------- digits ----------

  function DigitChar(d: int, small: bool): char
    requires 0 <= d < 36
  {
    if d < 10 then '0' + d as char else if small then 'a' + (d - 10) as char else 'A' + (d - 10) as char
  }

  predicate IsDigit(c: char) {
    '0' <= c <= '9'
  }

  predicate IsXDigit(c: char) {
    IsDigit(c) || 'a' <= c <= 'f' || 'A' <= c <= 'F'
  }

  function DigitValue(c: char): (v: int)
    ensures IsXDigit(c) ==> 0 <= v < 16
  {
    if IsDigit(c) then c as int - '0' as int else if 'a' <= c then c as int - 'a' as int + 10 else c as int - 'A' as int + 10
  }

  lemma DigitIsRead(d: int, small: bool)
    requires 0 <= d < 16
    ensures IsXDigit(DigitChar(d, small)) && DigitValue(DigitChar(d, small)) == d
  {
  }

  /** The digits of `u`, most significant first, without leading zeros. */
  function Digits(u: nat, base: int, small: bool): (s: seq<char>)
    requires 2 <= base <= 36
    ensures |s| > 0
    decreases u
  {
    if u < base then [DigitChar(u, small)]
    else
      DivideBy(u, base);
      Digits(u / base, base, small) + [DigitChar(u % base, small)]
  }

  function Repeat(c: char, n: int): (s: seq<char>)
    ensures |s| == if n > 0 then n else 0
    ensures forall i :: 0 <= i < |s| ==> s[i] == c
  {
    if n <= 0 then [] else [c] + Repeat(c, n - 1)
  }

  // ---------- the layout of a number ----------

  function SignText(num: int, f: Flags): seq<char> {
    if f.signed && num < 0 then "-" else if f.plus then "+" else if f.space then " " else ""
  }

  function Prefix(base: int, f: Flags): seq<char> {
    if !f.special then "" else if base == 8 then "0" else if base == 16 then (if f.small then "0x" else "0X") else ""
  }

  /** The 32 bits that are printed as an unsigned number. */
  function Magnitude(num: int, f: Flags): (u: nat)
    ensures u < TWO_32
  {
    ToU32(if f.signed && num < 0 then -num else num)
  }

  function Max(a: int, b: int): int {
    if a > b then a else b
  }

  /** How many characters are missing to the field width; negative when there are too many. */
  function Missing(num: int, base: int, size: int, precision: int, f: Flags): int
    requires 2 <= base <= 36
  {
    size - |SignText(num, f)| - |Prefix(base, f)| - Max(|Digits(Magnitude(num, f), base, f.small)|, precision)
  }

  /** Digits filled up with zeros to the precision. */
  function Body(ds: seq<char>, precision: int): seq<char> {
    Repeat('0', precision - |ds|) + ds
  }

  /** Padding is spaces before the field, zeros inside it, or spaces behind it. */
  function Before(missing: int, f: Flags): seq<char> {
    if f.zeropad || f.left then "" else Repeat(' ', missing)
  }

  function Inner(missing: int, f: Flags): seq<char> {
    if f.zeropad && !f.left then Repeat('0', missing) else ""
  }

  function Behind(missing: int, f: Flags): seq<char> {
    if f.left then Repeat(' ', missing) else ""
  }

  function Assemble(head: seq<char>, body: seq<char>, missing: int, f: Flags): seq<char> {
    Before(missing, f) + head + Inner(missing, f) + body + Behind(missing, f)
  }

  /** The whole field. */
  function Field(num: int, base: int, size: int, precision: int, f: Flags): seq<char>
    requires 2 <= base <= 36
  {
    Assemble(SignText(num, f) + Prefix(base, f), Body(Digits(Magnitude(num, f), base, f.small), precision),
             Missing(num, base, size, precision, f), f)
  }

  /** A field is exactly as wide as asked for, or as wide as its contents need. */
  lemma FieldWidth(num: int, base: int, size: int, precision: int, f: Flags)
    requires 2 <= base <= 36
    ensures |Field(num, base, size, precision, f)|
            == Max(size, |SignText(num, f)| + |Prefix(base, f)| + Max(|Digits(Magnitude(num, f), base, f.small)|, precision))
  {
  }

  // ---------- number ----------

  function Reverse(s: seq<char>): (r: seq<char>)
    ensures |r| == |s|
  {
    if s == [] then [] else Reverse(s[1..]) + [s[0]]
  }

  lemma {:induction false} ReverseAppend(s: seq<char>, c: char)
    ensures Reverse(s + [c]) == [c] + Reverse(s)
  {
    if s == [] {
      assert s + [c] == [c];
    } else {
      assert (s + [c])[1..] == s[1..] + [c];
      ReverseAppend(s[1..], c);
    }
  }

  lemma RepeatAppend(c: char, n: nat)
    ensures Repeat(c, n) + [c] == Repeat(c, n + 1)
  {
    var l, r := Repeat(c, n) + [c], Repeat(c, n + 1);
    assert |l| == |r|;
    forall i | 0 <= i < |l|
      ensures l[i] == r[i]
    {
    }
  }

  /** Line 104, 117 or 123: `n` times one character, and what the countdown leaves behind. */
  method Fill(str: seq<char>, c: char, n: int) returns (out: seq<char>, left: int)
    ensures out == str + Repeat(c, n) && left == (if n > 0 then 0 else n) - 1
  {
    out, left := str, n;
    ghost var k := 0;
    while left > 0
      invariant k == n - left && (n > 0 ==> 0 <= left) && (n <= 0 ==> left == n)
      invariant out == str + Repeat(c, k)
    {
      RepeatAppend(c, k);
      assert str + Repeat(c, k) + [c] == str + (Repeat(c, k) + [c]);
      out, left, k := out + [c], left - 1, k + 1;
    }
    left := left - 1;
  }

  /** The digits of what is left to convert. */
  function High(u: nat, base: int, small: bool): seq<char>
    requires 2 <= base <= 36
  {
    if u == 0 then [] else Digits(u, base, small)
  }

  lemma HighStep(u: nat, base: int, small: bool)
    requires u > 0 && 2 <= base <= 36
    ensures High(u, base, small) == High(u / base, base, small) + [DigitChar(u % base, small)]
  {
    if u < base {
      Residue(u, base, 0, u);
    } else {
      assert u == u / base * base + u % base;
      assert u / base > 0;
    }
  }

  lemma TimesAtLeastTwo(q: nat, base: int)
    requires base >= 2
    ensures q * base >= q * 2
  {
    assert q * base == q * 2 + q * (base - 2);
  }

  lemma Halved(u: nat, base: int, p: nat)
    requires 0 < u < 2 * p && base >= 2
    ensures 0 <= u / base < p && u / base < u
  {
    var q := u / base;
    assert u == q * base + u % base;
    TimesAtLeastTwo(q, base);
  }

  lemma ConvertStep(u: nat, base: int, small: bool, done: seq<char>)
    requires u > 0 && 2 <= base <= 36
    ensures High(u / base, base, small) + Reverse(done + [DigitChar(u % base, small)]) == High(u, base, small) + Reverse(done)
  {
    var c := DigitChar(u % base, small);
    HighStep(u, base, small);
    ReverseAppend(done, c);
    Assoc(High(u / base, base, small), [c], Reverse(done));
  }

  lemma Assoc(a: seq<char>, b: seq<char>, c: seq<char>)
    ensures a + b + c == a + (b + c)
  {
  }

  lemma ReverseOne(c: char)
    ensures Reverse([c]) == [c]
  {
    assert [c][1..] == [];
  }

  /** One turn of lines 98-99: one digit moves from what is left into the buffer. */
  lemma ConvertTurn(u: nat, base: int, small: bool, done: seq<char>, whole: seq<char>, i: nat)
    requires 2 <= base <= 36 && i <= 32 && 0 < u < Pow2(32 - i) && whole == High(u, base, small) + Reverse(done)
    ensures i < 32 && 0 <= u / base < Pow2(31 - i) && u / base < u
    ensures whole == High(u / base, base, small) + Reverse(done + [DigitChar(u % base, small)])
  {
    var p := Pow2(31 - i);
    assert Pow2(32 - i) == 2 * p;
    Halved(u, base, p);
    ConvertStep(u, base, small, done);
  }

  /** Lines 95-99: the digits in reverse, in a buffer of 36 characters that is never overrun. */
  method Convert(num: int, base: int, small: bool, tmp: array<char>) returns (i: int)
    requires -TWO_31 <= num < TWO_31 && 2 <= base <= 36 && tmp.Length == 36
    modifies tmp
    ensures 0 < i <= 36 && Reverse(tmp[..i]) == Digits(ToU32(num), base, small)
  {
    var u: nat := ToU32(num);
    i := 0;
    if num == 0 {
      tmp[0] := '0';
      i := 1;
      assert tmp[..1] == ['0'];
      ReverseOne('0');
    } else {
      ghost var whole := High(u, base, small);
      Pow2OfThirty();
      assert tmp[..0] == [] && Reverse([]) == [] && whole + [] == whole;
      while u != 0
        invariant 0 <= i <= 32 && 0 <= u < Pow2(32 - i)
        invariant whole == High(u, base, small) + Reverse(tmp[..i])
        invariant i == 0 ==> u != 0
        decreases u
      {
        ghost var done := tmp[..i];
        ConvertTurn(u, base, small, done, whole, i);
        var q, c := u / base, DigitChar(u % base, small);
        tmp[i] := c;
        assert tmp[..i + 1] == done + [c];
        u, i := q, i + 1;
      }
    }
  }

  /** Lines 120-121: the buffer is written from its end to its beginning. */
  method Emit(str: seq<char>, tmp: array<char>, n: int) returns (out: seq<char>)
    requires 0 <= n <= tmp.Length
    ensures out == str + Reverse(tmp[..n])
  {
    var i := n;
    out := str;
    while i > 0
      invariant 0 <= i <= n
      invariant out + Reverse(tmp[..i]) == str + Reverse(tmp[..n])
    {
      assert tmp[..i] == tmp[..i - 1] + [tmp[i - 1]];
      ReverseAppend(tmp[..i - 1], tmp[i - 1]);
      i := i - 1;
      out := out + [tmp[i]];
    }
  }

  /** Lines 102-124: sign, prefix and digits are laid out with `width` characters of padding. */
  method LayOut(str: seq<char>, sign: seq<char>, base: int, width: int, zeros: int, tmp: array<char>, i: int, f: Flags)
    returns (s: seq<char>)
    requires 0 <= i <= tmp.Length
    ensures s == str + Assemble(sign + Prefix(base, f), Repeat('0', zeros) + Reverse(tmp[..i]), width, f)
  {
    var w, rest := width, 0;
    s := str;
    if !f.zeropad && !f.left {
      s, w := Fill(s, ' ', w);
    }
    assert s == str + Before(width, f);
    s := PutHead(s, sign, base, f);
    if !f.left {
      s, w := Fill(s, if f.zeropad then '0' else ' ', w);
    }
    assert s == str + Before(width, f) + (sign + Prefix(base, f)) + Inner(width, f);
    s, rest := Fill(s, '0', zeros);
    s := Emit(s, tmp, i);
    s, rest := Fill(s, ' ', w);
    assert Repeat(' ', w) == Behind(width, f);
    Collect(str, Before(width, f), sign + Prefix(base, f), Inner(width, f), Repeat('0', zeros), Reverse(tmp[..i]), Behind(width, f));
  }

  lemma Collect(s: seq<char>, a: seq<char>, h: seq<char>, b: seq<char>, z: seq<char>, d: seq<char>, c: seq<char>)
    ensures s + a + h + b + z + d + c == s + (a + h + b + (z + d) + c)
  {
    Assoc(s + a + h + b, z, d);
    Assoc(s, a, h);
    Assoc(s, a + h, b);
    Assoc(s, a + h + b, z + d);
    Assoc(s, a + h + b + (z + d), c);
  }

  /** Lines 105-114. */
  method PutHead(str: seq<char>, sign: seq<char>, base: int, f: Flags) returns (s: seq<char>)
    ensures s == str + (sign + Prefix(base, f))
  {
    s := str + sign;
    if f.special {
      if base == 8 {
        s := s + ['0'];
      } else if base == 16 {
        s := s + ['0', DigitChar(33, f.small)];
      }
    }
    Assoc(str, sign, Prefix(base, f));
  }

  /** Lines 83-94: the sign, what is left to print, and the width left for the digits. */
  method TakeSign(num: int, base: int, size: int, f: Flags) returns (sign: seq<char>, magnitude: int, width: int)
    requires -TWO_31 <= num < TWO_31
    ensures sign == SignText(num, f) && ToU32(magnitude) == Magnitude(num, f) && -TWO_31 <= magnitude < TWO_31
    ensures width == size - |sign| - |Prefix(base, f)|
  {
    magnitude, width := num, size;
    if f.signed && num < 0 {
      sign := "-";
      magnitude := ToI32(-num);
    } else {
      sign := if f.plus then "+" else if f.space then " " else "";
    }
    if sign != "" {
      width := width - 1;
    }
    if f.special {
      if base == 16 {
        width := width - 2;
      } else if base == 8 {
        width := width - 1;
      }
    }
  }

  lemma LaidOutField(num: int, base: int, size: int, precision: int, f: Flags, sign: seq<char>, ds: seq<char>, zeros: int, width: int)
    requires 2 <= base <= 36 && sign == SignText(num, f) && ds == Digits(Magnitude(num, f), base, f.small)
    requires zeros == Max(|ds|, precision) - |ds| && width == size - |sign| - |Prefix(base, f)| - Max(|ds|, precision)
    ensures Assemble(sign + Prefix(base, f), Repeat('0', zeros) + ds, width, f) == Field(num, base, size, precision, f)
  {
    assert Repeat('0', zeros) == Repeat('0', precision - |ds|);
  }

  /** `number`: the field is written behind `str`; other bases write nothing and return a null pointer. */
  method Number(str: seq<char>, num: int, base: int, size: int, precision: int, f: Flags) returns (out: Option<seq<char>>)
    requires -TWO_31 <= num < TWO_31
    ensures out == if 2 <= base <= 36 then Some(str + Field(num, base, size, precision, f)) else None
  {
    if base < 2 || base > 36 {
      return None;
    }
    var sign, magnitude, width := TakeSign(num, base, size, f);
    var tmp := new char[36];
    var i := Convert(magnitude, base, f.small, tmp);
    ghost var ds := Digits(Magnitude(num, f), base, f.small);
    assert |ds| == i;
    var digits := precision;
    if i > digits {
      digits := i;
    }
    width := width - digits;
    var zeros := digits - i;
    LaidOutField(num, base, size, precision, f, sign, ds, zeros, width);
    var s := LayOut(str, sign, base, width, zeros, tmp, i, f);
    out := Some(s);
  }

  // ---------- reading ----------

  /** The value of a run of digits read after `acc`, without wrap-around. */
  function Eval(s: seq<char>, base: int, acc: int): int {
    if s == [] then acc else Eval(s[1..], base, acc * base + DigitValue(s[0]))
  }

  predicate IsDigitOf(c: char, base: int) {
    IsXDigit(c) && DigitValue(c) < base
  }

  /** The loop of lines 37-41 from position `pos` with `acc` read so far, in 32-bit arithmetic: the value and where it stops. */
  function Scan(s: seq<char>, pos: nat, base: int, acc: int): (r: (int, nat))
    requires pos <= |s|
    ensures pos <= r.1 <= |s|
    decreases |s| - pos
  {
    if pos < |s| && IsDigitOf(s[pos], base) then Scan(s, pos + 1, base, ToU32(acc * base + DigitValue(s[pos]))) else (acc, pos)
  }

  /** Lines 26-36: base 0 asks for the prefix to decide. */
  function Start(s: seq<char>, base: int): (r: (int, nat))
    ensures r.1 <= |s|
  {
    if base != 0 then (base, 0)
    else if |s| > 0 && s[0] == '0' then
      if |s| > 2 && s[1] == 'x' && IsXDigit(s[2]) then (16, 2) else (8, 1)
    else (10, 0)
  }

  function Strtoul(s: seq<char>, base: int): (int, nat) {
    var (b, at) := Start(s, base);
    Scan(s, at, b, 0)
  }

  /** simple_strtoul; `endp` is how far it read. */
  method SimpleStrtoul(s: seq<char>, base: nat) returns (result: int, endp: nat)
    ensures (result, endp) == Strtoul(s, base)
  {
    var b := base;
    endp := 0;
    if b == 0 {
      b := 10;
      if |s| > 0 && s[0] == '0' {
        b := 8;
        endp := endp + 1;
        if endp + 1 < |s| && s[endp] == 'x' && IsXDigit(s[endp + 1]) {
          endp := endp + 1;
          b := 16;
        }
      }
    }
    result := 0;
    while endp < |s| && IsXDigit(s[endp]) && DigitValue(s[endp]) < b
      invariant endp <= |s|
      invariant Strtoul(s, base) == Scan(s, endp, b, result)
    {
      result := ToU32(result * b + DigitValue(s[endp]));
      endp := endp + 1;
    }
  }

  // ---------- reading back what was printed ----------

  ghost predicate AllDigitsOf(s: seq<char>, base: int) {
    forall c :: c in s ==> IsDigitOf(c, base)
  }

  lemma {:induction false} EvalConcat(a: seq<char>, b: seq<char>, base: int, acc: int)
    ensures Eval(a + b, base, acc) == Eval(b, base, Eval(a, base, acc))
  {
    if a == [] {
      assert a + b == b;
    } else {
      assert (a + b)[1..] == a[1..] + b;
      EvalConcat(a[1..], b, base, acc * base + DigitValue(a[0]));
    }
  }

  /** Digits are read back in the base they were printed in. */
  lemma {:induction false} DigitsAreRead(u: nat, base: int, small: bool)
    requires 2 <= base <= 16
    ensures AllDigitsOf(Digits(u, base, small), base) && Eval(Digits(u, base, small), base, 0) == u
    decreases u
  {
    if u < base {
      DigitIsRead(u, small);
      EvalOne(DigitChar(u, small), base, 0);
    } else {
      var q, d := u / base, u % base;
      DivideBy(u, base);
      DigitsAreRead(q, base, small);
      DigitIsRead(d, small);
      EvalConcat(Digits(q, base, small), [DigitChar(d, small)], base, 0);
      EvalOne(DigitChar(d, small), base, q);
    }
  }

  lemma DivideBy(u: nat, base: int)
    requires 2 <= base <= u
    ensures 0 <= u / base < u && 0 <= u % base < base && u == u / base * base + u % base
  {
    Halved(u, base, u);
  }

  lemma EvalOne(c: char, base: int, acc: int)
    ensures Eval([c], base, acc) == acc * base + DigitValue(c)
  {
    assert [c][1..] == [];
  }

  lemma {:induction false} ZerosAreRead(n: int, base: int)
    requires base >= 2
    ensures AllDigitsOf(Repeat('0', n), base) && Eval(Repeat('0', n), base, 0) == 0
    decreases n
  {
    if n > 0 {
      ZerosAreRead(n - 1, base);
      assert Repeat('0', n)[1..] == Repeat('0', n - 1);
    }
  }

  lemma ReduceStep(acc: int, base: int, v: int)
    ensures ToU32(ToU32(acc) * base + v) == ToU32(acc * base + v)
  {
    var q := acc / TWO_32;
    assert acc == q * TWO_32 + ToU32(acc);
    assert acc * base + v == (q * base) * TWO_32 + (ToU32(acc) * base + v);
    SameResidue(ToU32(acc) * base + v, q * base);
  }

  lemma SameResidue(x: int, k: int)
    ensures ToU32(k * TWO_32 + x) == ToU32(x)
  {
  }

  /** The loop stops behind the run of digits and has its value modulo 2^32. */
  lemma {:induction false} ScanReads(s: seq<char>, pos: nat, stop: nat, base: int, acc: int)
    requires pos <= stop <= |s| && AllDigitsOf(s[pos..stop], base)
    requires stop < |s| ==> !IsDigitOf(s[stop], base)
    ensures Scan(s, pos, base, ToU32(acc)) == (ToU32(Eval(s[pos..stop], base, acc)), stop)
    decreases stop - pos
  {
    if pos < stop {
      assert s[pos] in s[pos..stop] && s[pos..stop][1..] == s[pos + 1..stop];
      ReduceStep(acc, base, DigitValue(s[pos]));
      ScanReads(s, pos + 1, stop, base, acc * base + DigitValue(s[pos]));
    }
  }

  lemma InTheMiddle(s: seq<char>, before: seq<char>, run: seq<char>, behind: seq<char>, pos: nat, stop: nat)
    requires s == before + run + behind && pos == |before| && stop == pos + |run|
    ensures pos <= stop <= |s| && s[pos..stop] == run
    ensures stop < |s| ==> behind != [] && s[stop] == behind[0]
  {
  }

  /** A run of digits of value `u` that fits a word. */
  lemma ScanRun(s: seq<char>, pos: nat, stop: nat, run: seq<char>, u: nat, base: int)
    requires pos <= stop <= |s| && s[pos..stop] == run && AllDigitsOf(run, base)
    requires u < TWO_32 && Eval(run, base, 0) == u && (stop < |s| ==> !IsDigitOf(s[stop], base))
    ensures Scan(s, pos, base, 0) == (u, stop)
  {
    ToU32Small(0);
    ToU32Small(u);
    ScanReads(s, pos, stop, base, 0);
  }

  /** The same with other text around it. */
  lemma RunIsRead(before: seq<char>, run: seq<char>, u: nat, base: int, behind: seq<char>)
    requires u < TWO_32 && AllDigitsOf(run, base) && Eval(run, base, 0) == u
    requires behind != [] ==> !IsDigitOf(behind[0], base)
    ensures Scan(before + run + behind, |before|, base, 0) == (u, |before| + |run|)
  {
    var s := before + run + behind;
    var pos, stop := |before|, |before| + |run|;
    InTheMiddle(s, before, run, behind, pos, stop);
    ScanRun(s, pos, stop, run, u, base);
  }

  /** The digits of `u` behind any number of zeros. */
  lemma ZerosAndDigits(zeros: int, ds: seq<char>, u: nat, base: int)
    requires 2 <= base && AllDigitsOf(ds, base) && Eval(ds, base, 0) == u
    ensures AllDigitsOf(Repeat('0', zeros) + ds, base) && Eval(Repeat('0', zeros) + ds, base, 0) == u
  {
    ZerosAreRead(zeros, base);
    EvalConcat(Repeat('0', zeros), ds, base, 0);
  }

  lemma {:induction false} RepeatConcat(c: char, m: int, n: int)
    requires m >= 0 && n >= 0
    ensures Repeat(c, m) + Repeat(c, n) == Repeat(c, m + n)
    decreases m
  {
    if m > 0 {
      RepeatConcat(c, m - 1, n);
      assert Repeat(c, m) + Repeat(c, n) == [c] + (Repeat(c, m - 1) + Repeat(c, n));
    }
  }

  /** Nothing of the field is white space, so that reading can start at once and end at the end. */
  predicate Tight(num: int, base: int, size: int, precision: int, f: Flags)
    requires 2 <= base <= 36
  {
    Missing(num, base, size, precision, f) <= 0 || (f.zeropad && !f.left)
  }

  /**
    A field without a sign and without a prefix.  It is read back in the same base, with nothing left over, exactly
    when it holds no padding spaces.
   */
  lemma PlainFieldIsReadBack(num: int, base: int, size: int, precision: int, f: Flags)
    requires 2 <= base <= 16 && SignText(num, f) == "" && Prefix(base, f) == ""
    ensures var text := Field(num, base, size, precision, f);
            Strtoul(text, base) == (Magnitude(num, f), |text|) <==> Tight(num, base, size, precision, f)
  {
    var u := Magnitude(num, f);
    var ds := Digits(u, base, f.small);
    var text := Field(num, base, size, precision, f);
    var missing := Missing(num, base, size, precision, f);
    DigitsAreRead(u, base, f.small);
    if Tight(num, base, size, precision, f) {
      TightField("", "", ds, precision, missing, f);
      ZerosAndDigits(Zeros(|ds|, precision, missing), ds, u, base);
      RunIsRead("", Repeat('0', Zeros(|ds|, precision, missing)) + ds, u, base, "");
    } else if f.left {
      LeftField("", Body(ds, precision), missing, f);
      ZerosAndDigits(precision - |ds|, ds, u, base);
      RunIsRead("", Body(ds, precision), u, base, Repeat(' ', missing));
    } else {
      assert text[0] == ' ';
    }
  }

  /** All the zeros in front of the digits. */
  function Zeros(digits: nat, precision: int, missing: int): nat {
    (if missing > 0 then missing else 0) + (if precision > digits then precision - digits else 0)
  }

  /** A tight field is its head followed by one run of zeros and the digits. */
  lemma TightField(sign: seq<char>, prefix: seq<char>, ds: seq<char>, precision: int, missing: int, f: Flags)
    requires missing <= 0 || (f.zeropad && !f.left)
    ensures Assemble(sign + prefix, Body(ds, precision), missing, f)
            == sign + prefix + (Repeat('0', Zeros(|ds|, precision, missing)) + ds) + ""
  {
    var m, n := if missing > 0 then missing else 0, if precision > |ds| then precision - |ds| else 0;
    var head, inner, zeros := sign + prefix, Repeat('0', m), Repeat('0', n);
    RepeatConcat('0', m, n);
    assert Inner(missing, f) == inner && Repeat('0', precision - |ds|) == zeros;
    assert Before(missing, f) == "" && Behind(missing, f) == "";
    Regroup(head, inner, zeros, ds);
  }

  lemma Regroup(head: seq<char>, inner: seq<char>, zeros: seq<char>, ds: seq<char>)
    ensures "" + head + inner + (zeros + ds) + "" == head + (inner + zeros + ds) + ""
  {
  }

  /** Digits behind their prefix, and perhaps spaces behind them. */
  function PrefixedText(base: int, f: Flags, run: seq<char>, spaces: int): seq<char> {
    Prefix(base, f) + run + Repeat(' ', spaces)
  }

  /** Which base a prefix and the digits behind it stand for when no base is given. */
  lemma PrefixDecides(run: seq<char>, base: int, f: Flags, spaces: int)
    requires f.special && (base == 8 || base == 16) && |run| > 0 && AllDigitsOf(run, base)
    ensures base == 8 || f.small ==> Start(PrefixedText(base, f, run, spaces), 0) == (base, |Prefix(base, f)|)
    ensures base == 16 && !f.small ==> Strtoul(PrefixedText(base, f, run, spaces), 0) == (0, 1)
  {
    var text := PrefixedText(base, f, run, spaces);
    assert run[0] in run;
    if base == 8 {
      assert text[0] == '0' && text[1] == run[0];
    } else {
      assert text[0] == '0' && text[1] == (if f.small then 'x' else 'X') && text[2] == run[0];
    }
  }

  /** Where reading with base 0 stops: behind the digits, or on an `X`. */
  lemma PrefixedTextIsRead(base: int, f: Flags, run: seq<char>, u: nat, spaces: int)
    requires f.special && (base == 8 || base == 16) && |run| > 0 && u < TWO_32
    requires AllDigitsOf(run, base) && Eval(run, base, 0) == u
    ensures Strtoul(PrefixedText(base, f, run, spaces), 0)
            == if base == 8 || f.small then (u, |Prefix(base, f)| + |run|) else (0, 1)
  {
    PrefixDecides(run, base, f, spaces);
    RunIsRead(Prefix(base, f), run, u, base, Repeat(' ', spaces));
  }

  /** A field without a sign that is not padded in front, as prefixed text. */
  lemma FieldIsPrefixedText(base: int, ds: seq<char>, precision: int, missing: int, f: Flags)
    requires missing <= 0 || f.zeropad || f.left
    ensures var zeros := if f.left then Zeros(|ds|, precision, 0) else Zeros(|ds|, precision, missing);
            Assemble("" + Prefix(base, f), Body(ds, precision), missing, f)
            == PrefixedText(base, f, Repeat('0', zeros) + ds, if f.left then missing else 0)
  {
    if f.left {
      assert Repeat('0', precision - |ds|) == Repeat('0', Zeros(|ds|, precision, 0));
      LeftField(Prefix(base, f), Body(ds, precision), missing, f);
    } else {
      TightField("", Prefix(base, f), ds, precision, missing, f);
    }
  }

  lemma LeftField(head: seq<char>, body: seq<char>, missing: int, f: Flags)
    requires f.left
    ensures Assemble("" + head, body, missing, f) == head + body + Repeat(' ', missing)
  {
  }

  /**
    With the C prefix and no sign a field is read back by base 0, with nothing left over, exactly when it holds no
    padding spaces and its prefix is not `0X`.
   */
  lemma PrefixedFieldIsReadBack(num: int, base: int, size: int, precision: int, f: Flags)
    requires (base == 8 || base == 16) && f.special && SignText(num, f) == ""
    ensures var text := Field(num, base, size, precision, f);
            Strtoul(text, 0) == (Magnitude(num, f), |text|) <==> Tight(num, base, size, precision, f) && (base == 16 ==> f.small)
  {
    var u := Magnitude(num, f);
    var ds := Digits(u, base, f.small);
    var missing := Missing(num, base, size, precision, f);
    if missing <= 0 || f.zeropad || f.left {
      var zeros := if f.left then Zeros(|ds|, precision, 0) else Zeros(|ds|, precision, missing);
      var spaces := if f.left then missing else 0;
      var run := Repeat('0', zeros) + ds;
      DigitsAreRead(u, base, f.small);
      ZerosAndDigits(zeros, ds, u, base);
      FieldIsPrefixedText(base, ds, precision, missing, f);
      PrefixedTextIsRead(base, f, run, u, spaces);
      assert |PrefixedText(base, f, run, spaces)| == |Prefix(base, f)| + |run| + if spaces > 0 then spaces else 0;
    } else {
      PaddedIsNotRead(Field(num, base, size, precision, f), u);
    }
  }

  /** Reading stops at once on a space. */
  lemma PaddedIsNotRead(text: seq<char>, u: nat)
    requires |text| > 0 && text[0] == ' '
    ensures Strtoul(text, 0) != (u, |text|)
  {
  }

  // ---------- what a field looks like ----------

  const DIGITS := "0123456789ABCDEFGHIJKLMNOPQRSTUVWXYZ"
  const SMALL_DIGITS := "0123456789abcdefghijklmnopqrstuvwxyz"

  lemma DigitsOfTheTable(d: nat, small: bool)
    requires d < 36
    ensures |DIGITS| == |SMALL_DIGITS| == 36
    ensures DigitChar(d, small) == (if small then SMALL_DIGITS else DIGITS)[d] && DigitValue(DigitChar(d, small)) == d
  {
  }

  /** A digit below `base`, in capitals or small letters. */
  ghost predicate IsDigitIn(c: char, base: int, small: bool)
    requires 2 <= base <= 36
  {
    exists d: nat :: d < base && c == DigitChar(d, small)
  }

  /** Digits that stand for `u`, without a leading zero. */
  ghost predicate Numeral(ds: seq<char>, u: int, base: int, small: bool)
    requires 2 <= base <= 36
  {
    && ds != [] && (ds[0] == '0' ==> ds == ['0']) && Eval(ds, base, 0) == u
    && forall k :: 0 <= k < |ds| ==> IsDigitIn(ds[k], base, small)
  }

  lemma {:induction false} DigitsAreNumeral(u: nat, base: int, small: bool)
    requires 2 <= base <= 36
    ensures Numeral(Digits(u, base, small), u, base, small) && (Digits(u, base, small)[0] == '0' ==> u == 0)
    decreases u
  {
    if u < base {
      DigitsOfTheTable(u, small);
      EvalOne(DigitChar(u, small), base, 0);
    } else {
      var q, d := u / base, u % base;
      DivideBy(u, base);
      assert q > 0;
      DigitsAreNumeral(q, base, small);
      DigitsOfTheTable(d, small);
      EvalConcat(Digits(q, base, small), [DigitChar(d, small)], base, 0);
      EvalOne(DigitChar(d, small), base, q);
    }
  }

  /** The parts of a field in order. */
  function Laid(l: int, sign: seq<char>, prefix: seq<char>, z: int, ds: seq<char>, r: int): seq<char> {
    Repeat(' ', l) + sign + prefix + Repeat('0', z) + ds + Repeat(' ', r)
  }

  lemma AssembledIsLaid(sign: seq<char>, prefix: seq<char>, ds: seq<char>, precision: int, missing: int, f: Flags)
    returns (l: nat, z: nat, r: nat)
    ensures Assemble(sign + prefix, Body(ds, precision), missing, f) == Laid(l, sign, prefix, z, ds, r)
    ensures l == if f.left || f.zeropad || missing < 0 then 0 else missing
    ensures r == if f.left && missing > 0 then missing else 0
    ensures z == Zeros(|ds|, precision, if f.zeropad && !f.left then missing else 0)
    ensures l + z + |ds| + r == (if missing > 0 then missing else 0) + Max(|ds|, precision)
  {
    l, r, z := 0, 0, Zeros(|ds|, precision, if f.zeropad && !f.left then missing else 0);
    if missing <= 0 || (f.zeropad && !f.left) {
      TightField(sign, prefix, ds, precision, missing, f);
      assert Zeros(|ds|, precision, missing) == z;
    } else {
      assert Repeat('0', precision - |ds|) == Repeat('0', z);
      if f.left {
        r := missing;
      } else {
        l := missing;
      }
    }
    LaidParts(Repeat(' ', l), sign, prefix, Repeat('0', z), ds, Repeat(' ', r));
  }

  lemma LaidParts(a: seq<char>, sign: seq<char>, prefix: seq<char>, z: seq<char>, ds: seq<char>, b: seq<char>)
    ensures a + sign + prefix + z + ds + b == a + (sign + prefix) + "" + (z + ds) + b
    ensures a + sign + prefix + z + ds + b == a + (sign + prefix) + (z + ds) + b
  {
  }

  /**
    Every field, part by part: spaces, the sign, the prefix, zeros, the digits, spaces.  The sign is '-' for a negative
    signed number, which then is printed without it; its parts fill the width on one side only.
   */
  lemma FieldLooks(num: int, base: int, size: int, precision: int, f: Flags) returns (l: nat, z: nat, ds: seq<char>, r: nat)
    requires 2 <= base <= 36 && -TWO_31 <= num < TWO_31
    ensures var sign := if f.signed && num < 0 then "-" else if f.plus then "+" else if f.space then " " else "";
            var prefix := if f.special && base == 8 then "0"
                          else if f.special && base == 16 then (if f.small then "0x" else "0X") else "";
            var contents := |sign| + |prefix| + if precision > |ds| then precision else |ds|;
            && Field(num, base, size, precision, f) == Laid(l, sign, prefix, z, ds, r)
            && l + |sign| + |prefix| + z + |ds| + r == (if size > contents then size else contents)
    ensures Numeral(ds, if num >= 0 then num else if f.signed then -num else num + 0x1_0000_0000, base, f.small)
    ensures l > 0 ==> !f.left && !f.zeropad
    ensures r > 0 ==> f.left
    ensures !f.zeropad || f.left ==> z == if precision > |ds| then precision - |ds| else 0
  {
    var u, missing := Magnitude(num, f), Missing(num, base, size, precision, f);
    ds := Digits(u, base, f.small);
    DigitsAreNumeral(u, base, f.small);
    MagnitudeIs(num, f);
    var sign, prefix := SignText(num, f), Prefix(base, f);
    l, z, r := AssembledIsLaid(sign, prefix, ds, precision, missing, f);
    assert missing == size - |sign| - |prefix| - Max(|ds|, precision);
    assert Field(num, base, size, precision, f) == Laid(l, sign, prefix, z, ds, r);
  }

  lemma MagnitudeIs(num: int, f: Flags)
    requires -TWO_31 <= num < TWO_31
    ensures Magnitude(num, f) == if num >= 0 then num else if f.signed then -num else num + 0x1_0000_0000
  {
    if num >= 0 {
      ToU32Small(num);
    } else if f.signed {
      ToU32Small(-num);
    } else {
      Residue(num, TWO_32, -1, num + TWO_32);
    }
  }

  lemma NumeralIsRead(ds: seq<char>, u: int, base: int, small: bool)
    requires 2 <= base <= 16 && Numeral(ds, u, base, small)
    ensures AllDigitsOf(ds, base)
  {
    forall c | c in ds
      ensures IsDigitOf(c, base)
    {
      var k :| 0 <= k < |ds| && ds[k] == c;
      assert IsDigitIn(ds[k], base, small);
      var d: nat :| d < base && c == DigitChar(d, small);
      DigitIsRead(d, small);
    }
  }

  /** Zeros and a numeral, with spaces behind. */
  lemma NumeralIsReadBack(z: int, ds: seq<char>, u: nat, base: int, small: bool, r: int)
    requires 2 <= base <= 16 && Numeral(ds, u, base, small) && u < TWO_32
    ensures var run := Repeat('0', z) + ds;
            Strtoul(run + Repeat(' ', r), base) == (u, |run|)
            && (base == 10 && z <= 0 && u > 0 ==> Strtoul(run + Repeat(' ', r), 0) == (u, |run|))
  {
    var run, behind := Repeat('0', z) + ds, Repeat(' ', r);
    NumeralIsRead(ds, u, base, small);
    ZerosAndDigits(z, ds, u, base);
    RunIsRead("", run, u, base, behind);
    assert "" + run + behind == run + behind;
    if z <= 0 && u > 0 {
      assert run == ds && (run + behind)[0] == ds[0];
      if ds[0] == '0' {
        EvalOne('0', base, 0);
      }
    }
  }

  /**
    Number `u` is read back from position `at` of the text to `end`; in front of it stands `head`, and everything else
    is spaces.  A decimal number without leading zeros is also read back when no base is given.
   */
  ghost predicate HoldsNumber(text: seq<char>, head: seq<char>, u: nat, base: int, at: nat, end: nat) {
    && |head| <= at < end <= |text| && text[at - |head|..at] == head
    && (forall k :: 0 <= k < at - |head| || end <= k < |text| ==> text[k] == ' ')
    && Strtoul(text[at..], base) == (u, end - at)
    && (base == 10 && u > 0 && text[at] != '0' ==> Strtoul(text[at..], 0) == (u, end - at))
  }

  lemma LaidIsReadBack(text: seq<char>, l: nat, sign: seq<char>, prefix: seq<char>, z: nat, ds: seq<char>, r: nat,
                       u: nat, base: int, small: bool, at: nat, end: nat)
    requires 2 <= base <= 16 && Numeral(ds, u, base, small) && u < TWO_32
    requires text == Laid(l, sign, prefix, z, ds, r) && at == l + |sign| + |prefix| && end == at + z + |ds|
    ensures HoldsNumber(text, sign + prefix, u, base, at, end)
  {
    LaidAt(text, l, sign, prefix, z, ds, r, at);
    NumeralIsReadBack(z, ds, u, base, small, r);
  }

  /** Whatever the flags, the number is read back from behind its sign and prefix, which stand behind spaces only. */
  lemma FieldIsReadBack(num: int, base: int, size: int, precision: int, f: Flags) returns (at: nat, end: nat)
    requires 2 <= base <= 16 && -TWO_31 <= num < TWO_31
    ensures HoldsNumber(Field(num, base, size, precision, f), SignText(num, f) + Prefix(base, f), Magnitude(num, f), base, at, end)
  {
    var text, sign, prefix, u := Field(num, base, size, precision, f), SignText(num, f), Prefix(base, f), Magnitude(num, f);
    var l, z, ds, r := FieldLooks(num, base, size, precision, f);
    at, end := l + |sign| + |prefix|, l + |sign| + |prefix| + z + |ds|;
    MagnitudeIs(num, f);
    LaidIsReadBack(text, l, sign, prefix, z, ds, r, u, base, f.small, at, end);
  }

  lemma LaidAt(text: seq<char>, l: nat, sign: seq<char>, prefix: seq<char>, z: nat, ds: seq<char>, r: nat, at: nat)
    requires text == Laid(l, sign, prefix, z, ds, r) && at == l + |sign| + |prefix| && ds != []
    ensures at + z + |ds| <= |text| && text[at..] == Repeat('0', z) + ds + Repeat(' ', r)
    ensures text[l..at] == sign + prefix && (forall k :: 0 <= k < l ==> text[k] == ' ')
    ensures forall k :: at + z + |ds| <= k < |text| ==> text[k] == ' '
    ensures text[at] == if z > 0 then '0' else ds[0]
  {
    var front, head, zeros, behind := Repeat(' ', l), sign + prefix, Repeat('0', z), Repeat(' ', r);
    LaidInThree(front, sign, prefix, zeros, ds, behind);
    var tail := zeros + ds + behind;
    assert text == front + head + tail;
    assert forall k :: 0 <= k < l ==> text[k] == front[k];
    assert forall k :: at + z + |ds| <= k < |text| ==> text[k] == behind[k - at - z - |ds|];
    assert text[at] == tail[0];
  }

  lemma LaidInThree(a: seq<char>, sign: seq<char>, prefix: seq<char>, z: seq<char>, ds: seq<char>, b: seq<char>)
    ensures a + sign + prefix + z + ds + b == a + (sign + prefix) + (z + ds + b)
  {
  }

  // ---------- skip_atoi ----------

  /** `skip_atoi` reads a decimal number and leaves the pointer behind it. */
  method SkipAtoi(s: seq<char>, pos: nat) returns (i: int, end: nat)
    requires pos <= |s|
    ensures pos <= end <= |s| && (forall k :: pos <= k < end ==> IsDigit(s[k])) && (end < |s| ==> !IsDigit(s[end]))
    ensures i == Eval(s[pos..end], 10, 0)
  {
    i, end := 0, pos;
    while end < |s| && IsDigit(s[end])
      invariant pos <= end <= |s| && forall k :: pos <= k < end ==> IsDigit(s[k])
      invariant i == Eval(s[pos..end], 10, 0)
    {
      assert s[pos..end + 1] == s[pos..end] + [s[end]];
      EvalConcat(s[pos..end], [s[end]], 10, 0);
      EvalOne(s[end], 10, i);
      i := i * 10 + (s[end] - '0') as int;
      end := end + 1;
    }
  }
}
