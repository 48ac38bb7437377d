/** The identifier formats: parsing as Java's Integer.parseInt and
    Long.parseLong accept it (ASCII digits only), the three validity checks
    built on it, and the rendering and zero-padding the generators use. */
module Identifiers {
  import opened Failures

  const IntMin := -0x8000_0000
  const IntMax := 0x7FFF_FFFF
  const LongMin := -0x8000_0000_0000_0000
  const LongMax := 0x7FFF_FFFF_FFFF_FFFF

  /** Character.digit for ASCII characters: 0-9, then letters from 10 up,
      in either case; -1 for anything else. */
  function DigitValue(c: char): int {
    if '0' <= c <= '9' then c as int - '0' as int
    else if 'a' <= c <= 'z' then c as int - 'a' as int + 10
    else if 'A' <= c <= 'Z' then c as int - 'A' as int + 10
    else -1
  }

  predicate IsDigit(c: char, radix: nat) {
    0 <= DigitValue(c) < radix
  }

  predicate AllDigits(s: string, radix: nat) {
    forall i :: 0 <= i < |s| ==> IsDigit(s[i], radix)
  }

  /** The strings parseInt/parseLong read as a number: an optional sign,
      then at least one digit. */
  predicate IsNumeral(s: string, radix: nat) {
    if |s| > 0 && (s[0] == '+' || s[0] == '-') then |s| > 1 && AllDigits(s[1..], radix)
    else |s| > 0 && AllDigits(s, radix)
  }

  function Pow(b: nat, e: nat): nat {
    if e == 0 then 1 else b * Pow(b, e - 1)
  }

  /** The number a string of digits denotes. */
  function DigitsValue(s: string, radix: nat): nat
    requires AllDigits(s, radix)
  {
    if s == [] then 0
    else DigitsValue(s[..|s| - 1], radix) * radix + DigitValue(s[|s| - 1])
  }

  /** Digit-by-digit accumulation, failing at the first non-digit. */
  function ParseDigits(s: string, radix: nat): Option<nat>
  {
    if s == [] then Some(0)
    else match ParseDigits(s[..|s| - 1], radix)
      case None => None
      case Some(v) =>
        if IsDigit(s[|s| - 1], radix) then Some(v * radix + DigitValue(s[|s| - 1])) else None
  }

  /** Integer.parseInt(s, radix) (with min/max the int range) and
      Long.parseLong(s, radix) (with the long range): a sign, digits, and a
      result inside the range; None stands for NumberFormatException. */
  function ParseInt(s: string, radix: nat, min: int, max: int): Option<int>
  {
    if s == [] then None
    else
      var digits := if s[0] == '-' || s[0] == '+' then s[1..] else s;
      if digits == [] then None
      else match ParseDigits(digits, radix)
        case None => None
        case Some(v) =>
          var r: int := if s[0] == '-' then -(v as int) else v;
          if min <= r <= max then Some(r) else None
  }

  lemma {:induction false} ParseDigitsAllDigits(s: string, radix: nat)
    ensures ParseDigits(s, radix) == if AllDigits(s, radix) then Some(DigitsValue(s, radix)) else None
  {
    if s != [] {
      ParseDigitsAllDigits(s[..|s| - 1], radix);
      assert forall i :: 0 <= i < |s| - 1 ==> s[..|s| - 1][i] == s[i];
    }
  }

  lemma {:induction false} DigitsValueBound(s: string, radix: nat)
    requires AllDigits(s, radix)
    ensures DigitsValue(s, radix) < Pow(radix, |s|)
  {
    if s != [] {
      var t := s[..|s| - 1];
      assert AllDigits(t, radix);
      DigitsValueBound(t, radix);
      var v := DigitsValue(t, radix);
      var p := Pow(radix, |t|);
      var d := DigitValue(s[|s| - 1]);
      assert DigitsValue(s, radix) == v * radix + d;
      assert Pow(radix, |s|) == radix * p;
      ShiftBound(v, p, radix, d);
    }
  }

  /** Appending a digit to a number below `p` gives one below `radix * p`. */
  lemma ShiftBound(v: nat, p: nat, radix: nat, d: nat)
    requires v < p && d < radix
    ensures v * radix + d < radix * p
  {
    MulMonotone(v + 1, p, radix);
    assert (v + 1) * radix == v * radix + radix;
    assert p * radix == radix * p;
  }

  lemma MulMonotone(a: int, b: int, c: nat)
    requires a <= b
    ensures a * c <= b * c
  {
  }

  /** A numeral of at most `len` characters is accepted whatever its value,
      when the range holds every `len`-digit number. */
  lemma ParseIntAccepts(s: string, radix: nat, min: int, max: int, len: nat)
    requires radix >= 2 && |s| <= len && Pow(radix, len) <= max + 1 && min <= -max
    ensures ParseInt(s, radix, min, max).Some? <==> IsNumeral(s, radix)
  {
    if s != [] {
      var digits := if s[0] == '-' || s[0] == '+' then s[1..] else s;
      ParseDigitsAllDigits(digits, radix);
      if AllDigits(digits, radix) {
        DigitsValueBound(digits, radix);
        PowMonotone(radix, |digits|, len);
      }
    }
  }

  lemma {:induction false} PowMonotone(b: nat, e1: nat, e2: nat)
    requires e1 <= e2 && b >= 1
    ensures Pow(b, e1) <= Pow(b, e2)
  {
    if e1 < e2 {
      PowMonotone(b, e1, e2 - 1);
      var p := Pow(b, e2 - 1);
      assert Pow(b, e2) == b * p;
      MulMonotone(1, b, p);
    }
  }

  /** Student IDs: 10 characters that Long.parseLong reads. */
  predicate ValidStudentId(id: string) {
    |id| == 10 && IsNumeral(id, 10)
  }

  /** Staff IDs: 5 characters that Integer.parseInt reads in base 16. */
  predicate ValidStaffId(id: string) {
    |id| == 5 && IsNumeral(id, 16)
  }

  /** Module codes: 5 characters that Integer.parseInt reads. */
  predicate ValidModuleCode(code: string) {
    |code| == 5 && IsNumeral(code, 10)
  }

  /** UniversityStudent.checkValidID. */
  function CheckValidStudentId(id: string): (r: Outcome)
    ensures r.Pass? <==> ValidStudentId(id)
    ensures r.Fail? ==> r.error == InvalidId
  {
    var valid := |id| == 10 && ParseInt(id, 10, LongMin, LongMax).Some?;
    assert |id| == 10 ==> (ParseInt(id, 10, LongMin, LongMax).Some? <==> IsNumeral(id, 10)) by {
      if |id| == 10 {
        assert Pow(10, 10) == 10000000000;
        ParseIntAccepts(id, 10, LongMin, LongMax, 10);
      }
    }
    if valid then Pass else Fail(InvalidId)
  }

  /** UniversityStaff.checkValidID. */
  function CheckValidStaffId(id: string): (r: Outcome)
    ensures r.Pass? <==> ValidStaffId(id)
    ensures r.Fail? ==> r.error == InvalidId
  {
    var valid := |id| == 5 && ParseInt(id, 16, IntMin, IntMax).Some?;
    assert |id| == 5 ==> (ParseInt(id, 16, IntMin, IntMax).Some? <==> IsNumeral(id, 16)) by {
      if |id| == 5 {
        assert Pow(16, 5) == 1048576;
        ParseIntAccepts(id, 16, IntMin, IntMax, 5);
      }
    }
    if valid then Pass else Fail(InvalidId)
  }

  /** UniversityModule.checkValidCode. */
  function CheckValidCode(code: string): (r: Outcome)
    ensures r.Pass? <==> ValidModuleCode(code)
    ensures r.Fail? ==> r.error == InvalidId
  {
    var valid := |code| == 5 && ParseInt(code, 10, IntMin, IntMax).Some?;
    assert |code| == 5 ==> (ParseInt(code, 10, IntMin, IntMax).Some? <==> IsNumeral(code, 10)) by {
      if |code| == 5 {
        assert Pow(10, 5) == 100000;
        ParseIntAccepts(code, 10, IntMin, IntMax, 5);
      }
    }
    if valid then Pass else Fail(InvalidId)
  }

  // ----- rendering and padding -----

  /** The lower-case digit for a value below 16. */
  function DigitChar(d: nat): char
    requires d < 16
  {
    if d < 10 then ('0' as int + d) as char else ('a' as int + d - 10) as char
  }

  /** Integer.toString (radix 10) and Integer.toHexString (radix 16) of a
      non-negative number: no sign, no leading zeros. */
  function ToDigits(n: nat, radix: nat): string
    requires 2 <= radix <= 16
    decreases n
  {
    if n < radix then [DigitChar(n)]
    else ToDigits(n / radix, radix) + [DigitChar(n % radix)]
  }

  function Zeros(k: nat): (r: string)
    ensures |r| == k && forall i :: 0 <= i < k ==> r[i] == '0'
  {
    if k == 0 then [] else ['0'] + Zeros(k - 1)
  }

  /** `s` with '0's prepended up to `width` characters. */
  function Padded(s: string, width: int): string {
    if |s| < width then Zeros(width - |s|) + s else s
  }

  /** The padding loop of the three generators: prepend "0" while the
      count of missing characters is positive. */
  method PadLeft(s: string, width: int) returns (r: string)
    ensures r == Padded(s, width)
  {
    r := s;
    var zeros := width - |s|;
    ghost var k := 0;
    while zeros > 0
      invariant r == Zeros(k) + s && zeros + k == width - |s|
      invariant k > 0 ==> zeros >= 0
      decreases zeros
    {
      r := "0" + r;
      zeros := zeros - 1;
      k := k + 1;
    }
  }

  /** The padded string has the target width (or keeps a longer string),
      ends with the original and starts with zeros. */
  lemma PaddedShape(s: string, width: int)
    ensures |Padded(s, width)| == if |s| < width then width else |s|
    ensures Padded(s, width)[|Padded(s, width)| - |s|..] == s
    ensures forall i :: 0 <= i < |Padded(s, width)| - |s| ==> Padded(s, width)[i] == '0'
  {
  }

  lemma {:induction false} DigitsValueAppend(a: string, b: string, radix: nat)
    requires AllDigits(a, radix) && AllDigits(b, radix)
    ensures AllDigits(a + b, radix)
    ensures DigitsValue(a + b, radix) == DigitsValue(a, radix) * Pow(radix, |b|) + DigitsValue(b, radix)
  {
    assert forall i :: 0 <= i < |a + b| ==> (a + b)[i] == if i < |a| then a[i] else b[i - |a|];
    if b == [] {
      assert a + b == a;
    } else {
      var b' := b[..|b| - 1];
      var d := DigitValue(b[|b| - 1]);
      assert AllDigits(b', radix);
      assert (a + b)[..|a + b| - 1] == a + b';
      assert (a + b)[|a + b| - 1] == b[|b| - 1];
      DigitsValueAppend(a, b', radix);
      var x, y, p := DigitsValue(a, radix), DigitsValue(b', radix), Pow(radix, |b'|);
      assert DigitsValue(a + b, radix) == DigitsValue(a + b', radix) * radix + d;
      assert DigitsValue(a + b', radix) == x * p + y;
      assert DigitsValue(b, radix) == y * radix + d;
      assert Pow(radix, |b|) == radix * p;
      Distribute(x, p, y, radix);
    }
  }

  lemma Distribute(x: int, p: int, y: int, r: int)
    ensures (x * p + y) * r == x * (r * p) + y * r
  {
  }

  lemma {:induction false} ZerosValue(k: nat, radix: nat)
    requires radix >= 1
    ensures AllDigits(Zeros(k), radix) && DigitsValue(Zeros(k), radix) == 0
  {
    if k > 0 {
      ZerosValue(k - 1, radix);
      assert Zeros(k) == Zeros(k - 1) + ['0'];
      assert Zeros(k)[..k - 1] == Zeros(k - 1);
    }
  }

  lemma DigitCharValue(d: nat, radix: nat)
    requires d < radix <= 16
    ensures DigitValue(DigitChar(d)) == d && IsDigit(DigitChar(d), radix)
  {
  }

  lemma DigitsValueSnoc(t: string, c: char, radix: nat)
    requires AllDigits(t, radix) && IsDigit(c, radix)
    ensures AllDigits(t + [c], radix)
    ensures DigitsValue(t + [c], radix) == DigitsValue(t, radix) * radix + DigitValue(c)
  {
    var s := t + [c];
    assert forall i :: 0 <= i < |s| ==> s[i] == if i < |t| then t[i] else c;
    assert s[..|s| - 1] == t;
  }

  /** Rendering then reading gives the number back. */
  lemma {:induction false} ToDigitsValue(n: nat, radix: nat)
    requires 2 <= radix <= 16
    ensures AllDigits(ToDigits(n, radix), radix)
    ensures DigitsValue(ToDigits(n, radix), radix) == n
  {
    if n < radix {
      DigitCharValue(n, radix);
      assert ToDigits(n, radix)[..0] == [];
    } else {
      var q, m := n / radix, n % radix;
      DivSmaller(n, radix);
      DivMod(n, radix);
      var t := ToDigits(q, radix);
      ToDigitsValue(q, radix);
      DigitCharValue(m, radix);
      DigitsValueSnoc(t, DigitChar(m), radix);
      assert ToDigits(n, radix) == t + [DigitChar(m)];
    }
  }

  lemma DivMod(n: nat, r: nat)
    requires r > 0
    ensures (n / r) * r + n % r == n
  {
  }

  lemma DivSmaller(n: nat, r: nat)
    requires r >= 2 && n >= r
    ensures n / r < n
  {
    var q := n / r;
    DivMod(n, r);
    MulMonotone(2, r, q);
    assert 2 * q <= q * r <= n;
  }

  lemma DivLess(n: nat, r: nat, p: nat)
    requires r > 0 && n < r * p
    ensures n / r < p
  {
    DivMod(n, r);
    if n / r >= p {
      MulMonotone(p, n / r, r);
    }
  }

  /** A number below radix^k renders in at most k digits. */
  lemma {:induction false} ToDigitsLength(n: nat, radix: nat, k: nat)
    requires 2 <= radix <= 16 && 1 <= k && n < Pow(radix, k)
    ensures |ToDigits(n, radix)| <= k
    decreases k
  {
    if n >= radix {
      assert Pow(radix, 1) == radix;
      assert k != 1;
      assert Pow(radix, k) == radix * Pow(radix, k - 1);
      DivLess(n, radix, Pow(radix, k - 1));
      ToDigitsLength(n / radix, radix, k - 1);
    }
  }

  /** Leading zeros do not change the value read. */
  lemma PaddedValue(s: string, width: int, radix: nat)
    requires AllDigits(s, radix) && radix >= 1
    ensures AllDigits(Padded(s, width), radix)
    ensures DigitsValue(Padded(s, width), radix) == DigitsValue(s, radix)
  {
    if |s| < width {
      ZerosValue(width - |s|, radix);
      DigitsValueAppend(Zeros(width - |s|), s, radix);
    }
  }

  /** The module code generateModuleCode makes from a random number. */
  function ModuleCodeOf(n: nat): string {
    Padded(ToDigits(n, 10), 5)
  }

  /** The staff ID generateStaffID makes from a random number. */
  function StaffIdOf(n: nat): string {
    Padded(ToDigits(n, 16), 5)
  }

  /** The student ID generateStudentID makes from two random numbers: their
      decimal renderings concatenated, then padded. */
  function StudentIdOf(n1: nat, n2: nat): string {
    Padded(ToDigits(n1, 10) + ToDigits(n2, 10), 10)
  }

  /** A generated module code (the random number is 1..99999) is a valid
      code, and parsing it gives back the number. */
  lemma ModuleCodeRoundTrip(n: nat)
    requires 1 <= n <= 99999
    ensures ValidModuleCode(ModuleCodeOf(n))
    ensures ParseInt(ModuleCodeOf(n), 10, IntMin, IntMax) == Some(n)
  {
    var d := ToDigits(n, 10);
    ToDigitsValue(n, 10);
    assert Pow(10, 5) == 100000;
    ToDigitsLength(n, 10, 5);
    PaddedValue(d, 5, 10);
    ParseDigitsAllDigits(ModuleCodeOf(n), 10);
  }

  /** A generated staff ID (the random number is 0..0xFFFFE) is a valid ID,
      and parsing it in base 16 gives back the number. */
  lemma StaffIdRoundTrip(n: nat)
    requires n <= 0xFFFFE
    ensures ValidStaffId(StaffIdOf(n))
    ensures ParseInt(StaffIdOf(n), 16, IntMin, IntMax) == Some(n)
  {
    var d := ToDigits(n, 16);
    ToDigitsValue(n, 16);
    assert Pow(16, 5) == 0x100000;
    ToDigitsLength(n, 16, 5);
    PaddedValue(d, 5, 16);
    ParseDigitsAllDigits(StaffIdOf(n), 16);
  }

  /** The largest value a generated student ID can read as fits a long. */
  lemma StudentIdBound(n1: nat, n2: nat, p: nat)
    requires n1 <= 99998 && n2 <= 99999 && p <= 100000
    ensures n1 * p + n2 <= 99998 * 100000 + 99999
  {
    MulMonotone(n1, 99998, p);
    MulMonotone(p, 100000, 99998);
  }

  /** A generated student ID (random numbers 0..99998 and 1..99999) is a
      valid ID, and it reads as the first number shifted past the digits of
      the second. */
  lemma StudentIdRoundTrip(n1: nat, n2: nat)
    requires n1 <= 99998 && 1 <= n2 <= 99999
    ensures ValidStudentId(StudentIdOf(n1, n2))
    ensures ParseInt(StudentIdOf(n1, n2), 10, LongMin, LongMax)
            == Some(n1 * Pow(10, |ToDigits(n2, 10)|) + n2)
  {
    var id := StudentIdOf(n1, n2);
    StudentIdDigits(n1, n2);
    var p := Pow(10, |ToDigits(n2, 10)|);
    ToDigitsLength(n2, 10, 5);
    assert Pow(10, 5) == 100000;
    PowMonotone(10, |ToDigits(n2, 10)|, 5);
    StudentIdBound(n1, n2, p);
    SignNotDigit(id[0], 10);
  }

  /** The ten characters of a generated student ID are digits that read
      as the first number shifted past the digits of the second. */
  lemma StudentIdDigits(n1: nat, n2: nat)
    requires n1 <= 99998 && 1 <= n2 <= 99999
    ensures |StudentIdOf(n1, n2)| == 10 && AllDigits(StudentIdOf(n1, n2), 10) && IsDigit(StudentIdOf(n1, n2)[0], 10)
    ensures ParseDigits(StudentIdOf(n1, n2), 10) == Some(n1 * Pow(10, |ToDigits(n2, 10)|) + n2)
  {
    var d1, d2 := ToDigits(n1, 10), ToDigits(n2, 10);
    ToDigitsValue(n1, 10);
    ToDigitsValue(n2, 10);
    assert Pow(10, 5) == 100000;
    ToDigitsLength(n1, 10, 5);
    ToDigitsLength(n2, 10, 5);
    DigitsValueAppend(d1, d2, 10);
    var v := n1 * Pow(10, |d2|) + n2;
    assert DigitsValue(d1 + d2, 10) == v;
    PaddedValue(d1 + d2, 10, 10);
    ParseDigitsAllDigits(StudentIdOf(n1, n2), 10);
  }

  /** A sign character is not a digit in any radix. */
  lemma SignNotDigit(c: char, radix: nat)
    requires IsDigit(c, radix)
    ensures c != '-' && c != '+'
  {
    assert DigitValue('-') == -1 && DigitValue('+') == -1;
  }

  /** The rendering generateModuleCode makes of one random number. */
  method FormatModuleCode(n: nat) returns (code: string)
    requires 1 <= n <= 99999
    ensures code == ModuleCodeOf(n) && ValidModuleCode(code)
  {
    code := PadLeft(ToDigits(n, 10), 5);
    ModuleCodeRoundTrip(n);
  }

  /** The rendering generateStaffID makes of one random number. */
  method FormatStaffId(n: nat) returns (id: string)
    requires n <= 0xFFFFE
    ensures id == StaffIdOf(n) && ValidStaffId(id)
  {
    id := PadLeft(ToDigits(n, 16), 5);
    StaffIdRoundTrip(n);
  }

  /** The rendering generateStudentID makes of one pair of random numbers. */
  method FormatStudentId(n1: nat, n2: nat) returns (id: string)
    requires n1 <= 99998 && 1 <= n2 <= 99999
    ensures id == StudentIdOf(n1, n2) && ValidStudentId(id)
  {
    id := PadLeft(ToDigits(n1, 10) + ToDigits(n2, 10), 10);
    StudentIdRoundTrip(n1, n2);
  }
}
