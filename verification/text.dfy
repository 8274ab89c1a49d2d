/** A value that may be absent. In this model it stands for a C pointer that may be NULL,
    or for a foreign call that may produce nothing. */
module Optional {
  datatype Option<+T> = None | Some(value: T)
}

/** The bounded C string helpers of src/utils.c, together with the small text routines
    (decimal printing, `atoi`, splitting, padding) that the rest of the program relies on.
    A C string is modelled as the characters before its terminating NUL. */
module Text {
  import opened Optional

  predicate IsNewline(c: char) {
    c == '\n' || c == '\r'
  }

  /** `trim_newline` on a non-null string: every trailing '\n' or '\r' is removed. */
  function TrimNewline(s: string): (r: string)
    ensures |r| <= |s| && r == s[..|r|]
    ensures forall i | |r| <= i < |s| :: IsNewline(s[i])
    ensures |r| == 0 || !IsNewline(r[|r| - 1])
  {
    if |s| > 0 && IsNewline(s[|s| - 1]) then TrimNewline(s[..|s| - 1]) else s
  }

  /** `trim_newline` with its NULL check: a null argument is left alone. */
  function TrimNewlineOrNull(s: Option<string>): (r: Option<string>)
    ensures s.None? <==> r.None?
    ensures s.Some? ==> |r.value| <= |s.value| && r.value == s.value[..|r.value|]
  {
    match s
    case None => None
    case Some(t) => Some(TrimNewline(t))
  }

  /** Trimming removes exactly the maximal run of trailing line terminators: any prefix of `s`
      that leaves only terminators behind and does not itself end in one is the trimmed string. */
  lemma {:induction false} TrimNewlineUnique(s: string, r: string)
    requires |r| <= |s| && r == s[..|r|]
    requires forall i | |r| <= i < |s| :: IsNewline(s[i])
    requires |r| == 0 || !IsNewline(r[|r| - 1])
    ensures TrimNewline(s) == r
  {
    var t := TrimNewline(s);
    assert |r| > 0 ==> r[|r| - 1] == s[|r| - 1];
    assert |t| > 0 ==> t[|t| - 1] == s[|t| - 1];
    assert |t| == |r|;
  }

  lemma {:induction false} TrimNewlineIdempotent(s: string)
    ensures TrimNewline(TrimNewline(s)) == TrimNewline(s)
  {
    var t := TrimNewline(s);
    TrimNewlineUnique(t, t);
  }

  /** Characters that are not line terminators, wherever they are, survive trimming:
      only a suffix of terminators is ever removed. */
  lemma {:induction false} TrimNewlineKeepsInterior(s: string, i: nat)
    requires i < |s| && !IsNewline(s[i])
    ensures i < |TrimNewline(s)| && TrimNewline(s)[i] == s[i]
  {
  }

  /** The first `n` characters of `s` (all of `s` when it is shorter). */
  function Truncate(s: string, n: nat): (r: string)
    ensures |r| == if |s| <= n then |s| else n
    ensures r == s[..|r|]
  {
    if |s| <= n then s else s[..n]
  }

  /** `safe_strcpy(dst, dstsz, src)`: the new contents of `dst`. A null `dst` or a zero size
      leaves `dst` as it is; a null `src` empties it; otherwise `src` is copied up to
      `dstsz - 1` characters and the buffer is always terminated. */
  function SafeStrcpy(dst: Option<string>, dstsz: nat, src: Option<string>): (r: Option<string>)
    ensures dst.None? || dstsz == 0 ==> r == dst
    ensures dst.Some? && dstsz > 0 && src.None? ==> r == Some("")
    ensures dst.Some? && dstsz > 0 && src.Some? ==>
              r.Some? && |r.value| < dstsz && |r.value| <= |src.value| && r.value == src.value[..|r.value|]
              && (|src.value| < dstsz ==> r.value == src.value)
              && (|src.value| >= dstsz ==> |r.value| == dstsz - 1)
  {
    if dst.None? || dstsz == 0 then dst
    else if src.None? then Some("")
    else Some(Truncate(src.value, dstsz - 1))
  }

  /** Copying into a non-null buffer of size at least one never leaves it longer than
      `dstsz - 1` characters, whatever it held before. */
  lemma {:induction false} SafeStrcpyBounded(old_dst: string, dstsz: nat, src: Option<string>)
    requires dstsz > 0
    ensures SafeStrcpy(Some(old_dst), dstsz, src).Some?
    ensures |SafeStrcpy(Some(old_dst), dstsz, src).value| <= dstsz - 1
  {
  }

  // ---------------------------------------------------------------------------
  // Decimal text ("%d", "%u", atoi)
  // ---------------------------------------------------------------------------

  predicate IsDigit(c: char) {
    '0' <= c <= '9'
  }

  predicate AllDigits(s: string) {
    forall i | 0 <= i < |s| :: IsDigit(s[i])
  }

  /** A non-empty digit string without a superfluous leading zero. */
  predicate CanonicalDecimal(s: string) {
    |s| >= 1 && AllDigits(s) && (s[0] == '0' ==> |s| == 1)
  }

  function DigitChar(d: nat): (c: char)
    requires d < 10
    ensures IsDigit(c)
  {
    (d + '0' as int) as char
  }

  function DigitValue(c: char): (d: nat)
    requires IsDigit(c)
    ensures d < 10 && DigitChar(d) == c
  {
    c as int - '0' as int
  }

  /** The canonical decimal text of `n` ("%d"/"%u" for a non-negative value). */
  function NatToDec(n: nat): (s: string)
    ensures CanonicalDecimal(s)
    ensures n < 10 <==> |s| == 1
    decreases n
  {
    if n < 10 then [DigitChar(n)] else NatToDec(n / 10) + [DigitChar(n % 10)]
  }

  /** The value of a string of decimal digits. */
  function DecValue(s: string): nat
    requires AllDigits(s)
  {
    if |s| == 0 then 0 else DecValue(s[..|s| - 1]) * 10 + DigitValue(s[|s| - 1])
  }

  lemma {:induction false} DecValueOfNatToDec(n: nat)
    ensures DecValue(NatToDec(n)) == n
    decreases n
  {
    if n >= 10 {
      var s := NatToDec(n);
      assert s[..|s| - 1] == NatToDec(n / 10);
      DecValueOfNatToDec(n / 10);
    }
  }

  lemma {:induction false} DecValueLeadingNonZero(s: string)
    requires AllDigits(s) && |s| >= 1 && s[0] != '0'
    ensures DecValue(s) >= 1
    ensures |s| >= 2 ==> DecValue(s) >= 10
  {
    if |s| >= 2 {
      DecValueLeadingNonZero(s[..|s| - 1]);
    }
  }

  /** Canonical decimal text is exactly the printed form of its value. */
  lemma {:induction false} NatToDecOfDecValue(s: string)
    requires CanonicalDecimal(s)
    ensures NatToDec(DecValue(s)) == s
    decreases |s|
  {
    if |s| >= 2 {
      var p := s[..|s| - 1];
      DecValueLeadingNonZero(p);
      DecValueLeadingNonZero(s);
      NatToDecOfDecValue(p);
      assert DecValue(s) / 10 == DecValue(p);
      assert DecValue(s) % 10 == DigitValue(s[|s| - 1]);
      assert s == p + [s[|s| - 1]];
    }
  }

  /** A digit string of at most three characters has a value below 1000, and conversely. */
  lemma {:induction false} NatToDecShort(n: nat)
    ensures n < 1000 <==> |NatToDec(n)| <= 3
  {
    if n >= 10 {
      NatToDecShort(n / 10);
    }
  }

  /** "%d" of a C int. */
  function IntToDec(i: int): (s: string)
    ensures |s| >= 1
    ensures i >= 0 <==> IsDigit(s[0])
  {
    if i < 0 then "-" + NatToDec(-i) else NatToDec(i)
  }

  /** The characters `isspace` accepts in the C locale. */
  predicate IsCSpace(c: char) {
    c == ' ' || c == '\t' || c == '\n' || c == '\U{B}' || c == '\U{C}' || c == '\r'
  }

  function SkipSpaces(s: string): (r: string)
    ensures |r| <= |s| && r == s[|s| - |r|..]
    ensures |r| == 0 || !IsCSpace(r[0])
  {
    if |s| > 0 && IsCSpace(s[0]) then SkipSpaces(s[1..]) else s
  }

  /** The longest prefix of `s` made of digits. */
  function DigitPrefix(s: string): (r: string)
    ensures AllDigits(r)
  {
    if |s| > 0 && IsDigit(s[0]) then [s[0]] + DigitPrefix(s[1..]) else ""
  }

  const IntMin: int := -0x8000_0000
  const IntMax: int := 0x7FFF_FFFF

  /** The C library's `atoi`: leading white space, an optional sign, then as many digits as
      follow; text without a number gives 0, and an out-of-range value is clamped to
      INT_MIN/INT_MAX as the Microsoft C runtime documents. */
  function Atoi(s: string): (v: int)
    ensures IntMin <= v <= IntMax
  {
    ReadSigned(SkipSpaces(s))
  }

  /** An optional sign and the digits after it, with the magnitude clamped. */
  function ReadSigned(t: string): int {
    if |t| > 0 && t[0] == '-' then Clamp(0 - DecValue(DigitPrefix(t[1..])))
    else if |t| > 0 && t[0] == '+' then Clamp(DecValue(DigitPrefix(t[1..])))
    else Clamp(DecValue(DigitPrefix(t)))
  }

  /** The nearest value in the range of a C int. */
  function Clamp(v: int): (r: int)
    ensures IntMin <= r <= IntMax
    ensures IntMin <= v <= IntMax ==> r == v
  {
    if v < IntMin then IntMin else if v > IntMax then IntMax else v
  }

  lemma {:induction false} DigitPrefixOfDigits(s: string, rest: string)
    requires AllDigits(s)
    requires |rest| == 0 || !IsDigit(rest[0])
    ensures DigitPrefix(s + rest) == s
    decreases |s|
  {
    if |s| > 0 {
      assert (s + rest)[1..] == s[1..] + rest;
      DigitPrefixOfDigits(s[1..], rest);
    } else {
      assert s + rest == rest;
    }
  }

  /** `atoi` reads back what "%d" printed, for a non-negative int followed by
      anything that is not a digit. */
  lemma {:induction false} AtoiOfNatToDec(n: nat, rest: string)
    requires n <= IntMax
    requires |rest| == 0 || !IsDigit(rest[0])
    ensures Atoi(NatToDec(n) + rest) == n
  {
    var d := NatToDec(n);
    var s := d + rest;
    assert IsDigit(s[0]) by {
      assert s[0] == d[0];
    }
    assert DigitPrefix(s) == d by {
      DigitPrefixOfDigits(d, rest);
    }
    assert DecValue(d) == n by {
      DecValueOfNatToDec(n);
    }
    AtoiOfDigits(s);
  }

  /** Text that starts with a digit reads as the value of its leading digits, when that
      value fits. */
  lemma {:induction false} AtoiOfDigits(s: string)
    requires |s| > 0 && IsDigit(s[0])
    requires DecValue(DigitPrefix(s)) <= IntMax
    ensures Atoi(s) == DecValue(DigitPrefix(s))
  {
    SkipNoSpaces(s);
    ReadUnsigned(s);
  }

  /** Text that does not start with white space, a sign or a digit reads as 0. */
  lemma {:induction false} AtoiOfNonNumeric(s: string)
    requires |s| == 0 || (!IsCSpace(s[0]) && !IsDigit(s[0]) && s[0] != '-' && s[0] != '+')
    ensures Atoi(s) == 0
  {
    SkipNoSpaces(s);
    assert DigitPrefix(s) == "";
  }

  lemma {:induction false} ReadUnsigned(t: string)
    requires |t| > 0 && IsDigit(t[0])
    ensures ReadSigned(t) == Clamp(DecValue(DigitPrefix(t)))
  {
  }

  lemma {:induction false} SkipNoSpaces(s: string)
    requires |s| == 0 || !IsCSpace(s[0])
    ensures SkipSpaces(s) == s
  {
  }

  // ---------------------------------------------------------------------------
  // Splitting, joining, searching, padding
  // ---------------------------------------------------------------------------

  /** The pieces of `s` between occurrences of `sep` (always at least one piece). */
  function Split(s: string, sep: char): (parts: seq<string>)
    ensures |parts| >= 1
    decreases |s|
  {
    if |s| == 0 then [""]
    else
      var rest := Split(s[1..], sep);
      if s[0] == sep then [""] + rest else [[s[0]] + rest[0]] + rest[1..]
  }

  lemma {:induction false} SplitNoSep(s: string, sep: char)
    requires sep !in s
    ensures Split(s, sep) == [s]
    decreases |s|
  {
    if |s| > 0 {
      assert sep !in s[1..];
      SplitNoSep(s[1..], sep);
      assert [s[0]] + s[1..] == s;
    }
  }

  lemma {:induction false} SplitCons(a: string, sep: char, b: string)
    requires sep !in a
    ensures Split(a + [sep] + b, sep) == [a] + Split(b, sep)
    decreases |a|
  {
    var s := a + [sep] + b;
    if |a| == 0 {
      assert s[1..] == b;
    } else {
      assert s[1..] == a[1..] + [sep] + b;
      assert sep !in a[1..];
      SplitCons(a[1..], sep, b);
      assert [a[0]] + a[1..] == a;
    }
  }

  /** `parts` separated by `sep`; the empty list gives the empty string. */
  function Join(parts: seq<string>, sep: string): (s: string)
    ensures |parts| == 0 ==> s == ""
    ensures |parts| == 1 ==> s == parts[0]
  {
    if |parts| == 0 then ""
    else if |parts| == 1 then parts[0]
    else parts[0] + sep + Join(parts[1..], sep)
  }

  /** Splitting undoes joining when no piece contains the separator. */
  lemma {:induction false} SplitJoin(parts: seq<string>, sep: char)
    requires |parts| >= 1
    requires forall i | 0 <= i < |parts| :: sep !in parts[i]
    ensures Split(Join(parts, [sep]), sep) == parts
    decreases |parts|
  {
    if |parts| == 1 {
      SplitNoSep(parts[0], sep);
    } else {
      SplitJoin(parts[1..], sep);
      SplitCons(parts[0], sep, Join(parts[1..], [sep]));
      assert [parts[0]] + parts[1..] == parts;
    }
  }

  /** Index of the first occurrence of `c` in `s`. */
  function FirstIndex(s: string, c: char): (r: Option<nat>)
    ensures r.None? <==> c !in s
    ensures r.Some? ==> r.value < |s| && s[r.value] == c && c !in s[..r.value]
  {
    if |s| == 0 then None
    else if s[0] == c then Some(0)
    else
      var r := FirstIndex(s[1..], c);
      assert s == [s[0]] + s[1..];
      if r.None? then None
      else
        assert s[..r.value + 1] == [s[0]] + s[1..][..r.value];
        Some(r.value + 1)
  }

  /** Index of the last occurrence of `c` in `s`. */
  function LastIndex(s: string, c: char): (r: Option<nat>)
    ensures r.None? <==> c !in s
    ensures r.Some? ==> r.value < |s| && s[r.value] == c && c !in s[r.value + 1..]
  {
    if |s| == 0 then None
    else if s[|s| - 1] == c then Some(|s| - 1)
    else
      var r := LastIndex(s[..|s| - 1], c);
      assert s == s[..|s| - 1] + [s[|s| - 1]];
      if r.None? then None
      else
        assert s[r.value + 1..] == s[..|s| - 1][r.value + 1..] + [s[|s| - 1]];
        Some(r.value)
  }

  function Spaces(n: nat): (r: string)
    ensures |r| == n && forall i | 0 <= i < n :: r[i] == ' '
  {
    if n == 0 then "" else Spaces(n - 1) + " "
  }

  /** "%-<w>s": left-justified in a field of at least `w` characters, never truncated. */
  function PadRight(s: string, w: nat): (r: string)
    ensures |r| == if |s| >= w then |s| else w
    ensures r[..|s|] == s
    ensures forall i | |s| <= i < |r| :: r[i] == ' '
  {
    if |s| >= w then s else s + Spaces(w - |s|)
  }
}
