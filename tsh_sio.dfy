/** The signal-safe string helpers of the tiny shell
    (Labs/Lab06-shell/tsh.c): `sio_strlen`, `sio_reverse` (reverse a
    NUL-terminated string in place) and `sio_ltoa` (write a `long` in
    base `b`). */
module ShellSio {
  import opened Common

  const LONG_MAX: int := 0x7fff_ffff_ffff_ffff
  const LONG_MIN: int := -0x8000_0000_0000_0000
  /** The buffer `sio_putl` passes to `sio_ltoa`. */
  const PUTL_BUFFER: int := 128

  // ---------------------------------------------------------------------
  // Strings in a char buffer

  /** The length of the NUL-terminated string at the start of `t`: the
      position of its first NUL, or `|t|` when there is none. */
  function StrLen(t: seq<char>): (n: nat)
    ensures n <= |t|
    ensures forall k :: 0 <= k < n ==> t[k] != '\0'
    ensures n < |t| ==> t[n] == '\0'
  {
    if t == [] || t[0] == '\0' then 0 else 1 + StrLen(t[1..])
  }

  /** `t` in reverse order. */
  function Reverse(t: seq<char>): (r: seq<char>)
    ensures |r| == |t|
    ensures forall k :: 0 <= k < |t| ==> r[k] == t[|t| - 1 - k]
  {
    if t == [] then [] else Reverse(t[1..]) + [t[0]]
  }

  lemma ReverseReverse(t: seq<char>)
    ensures Reverse(Reverse(t)) == t
  {
    assert forall k :: 0 <= k < |t| ==> Reverse(Reverse(t))[k] == t[k];
  }

  lemma ReverseAppendOne(t: seq<char>, c: char)
    ensures Reverse(t + [c]) == [c] + Reverse(t)
  {
    assert forall k :: 0 <= k < |t| + 1 ==> Reverse(t + [c])[k] == ([c] + Reverse(t))[k];
  }

  /** `sio_strlen`: count characters up to the first NUL. */
  method SioStrlen(s: array<char>) returns (n: int)
    requires exists k :: 0 <= k < s.Length && s[k] == '\0'
    ensures n == StrLen(s[..])
    ensures 0 <= n < s.Length && s[n] == '\0' && forall k :: 0 <= k < n ==> s[k] != '\0'
  {
    var i := 0;
    while s[i] != '\0'
      invariant 0 <= i < s.Length
      invariant forall k :: 0 <= k < i ==> s[k] != '\0'
      invariant exists k :: i <= k < s.Length && s[k] == '\0'
      decreases s.Length - i
    {
      i := i + 1;
    }
    assert forall k :: 0 <= k < i ==> s[..][k] != '\0';
    assert s[..][i] == '\0';
    return i;
  }

  /** The swapping loop of `sio_reverse` over `s[..len]`. */
  method ReversePrefix(s: array<char>, len: int)
    requires 0 <= len <= s.Length
    modifies s
    ensures s[..len] == Reverse(old(s[..len]))
    ensures s[len..] == old(s[len..])
  {
    ghost var t := s[..];
    var i := 0;
    var j := len - 1;
    while i < j
      invariant 0 <= i <= len && j == len - 1 - i && i <= j + 1
      invariant forall k :: 0 <= k < i ==> s[k] == t[len - 1 - k]
      invariant forall k :: j < k < len ==> s[k] == t[len - 1 - k]
      invariant forall k :: i <= k <= j ==> s[k] == t[k]
      invariant forall k :: len <= k < s.Length ==> s[k] == t[k]
    {
      var c := s[i];
      s[i] := s[j];
      s[j] := c;
      i := i + 1;
      j := j - 1;
    }
    assert forall k :: 0 <= k < len ==> s[..len][k] == t[..len][len - 1 - k];
    assert s[len..] == t[len..];
  }

  /** Reversing the text before the first NUL keeps the NUL where it is. */
  lemma StrLenReversed(t: seq<char>, u: seq<char>, len: nat)
    requires len < |t| == |u| && StrLen(t) == len
    requires u[..len] == Reverse(t[..len]) && u[len..] == t[len..]
    ensures StrLen(u) == len
  {
    assert forall k :: 0 <= k < len ==> u[k] == u[..len][k] == t[len - 1 - k];
    assert u[len] == u[len..][0];
    StrLenAt(u, len);
  }

  /** `sio_reverse`: the string before the first NUL is reversed in place;
      the NUL and everything after it is left alone. */
  method SioReverse(s: array<char>)
    requires exists k :: 0 <= k < s.Length && s[k] == '\0'
    modifies s
    ensures StrLen(s[..]) == StrLen(old(s[..]))
    ensures s[..StrLen(s[..])] == Reverse(old(s[..StrLen(s[..])]))
    ensures s[StrLen(s[..])..] == old(s[StrLen(s[..])..])
  {
    var len := SioStrlen(s);
    ghost var t := s[..];
    ReversePrefix(s, len);
    StrLenReversed(t, s[..], len);
  }

  /** A string whose first NUL is at `n` has length `n`. */
  lemma {:induction false} StrLenAt(t: seq<char>, n: nat)
    requires n < |t| && t[n] == '\0' && forall k :: 0 <= k < n ==> t[k] != '\0'
    ensures StrLen(t) == n
  {
  }

  // ---------------------------------------------------------------------
  // Digits

  /** The character for digit value `c`: `0`-`9`, then `a`, `b`, ... */
  function DigitChar(c: int): (ch: char)
    requires 0 <= c < 36
    ensures ch != '\0' && ch != '-'
    ensures c < 10 ==> '0' <= ch <= '9'
    ensures c >= 10 ==> 'a' <= ch <= 'z'
  {
    if c < 10 then (c + '0' as int) as char else (c - 10 + 'a' as int) as char
  }

  /** The value of a digit character, the inverse of `DigitChar`. */
  function DigitValue(ch: char): int {
    if '0' <= ch <= '9' then ch as int - '0' as int
    else if 'a' <= ch <= 'z' then ch as int - 'a' as int + 10
    else -1
  }

  lemma DigitRoundTrip(c: int)
    requires 0 <= c < 36
    ensures DigitValue(DigitChar(c)) == c
  {
  }

  /** Dividing by the base: the quotient of a number of at least two
      digits is smaller but positive. */
  lemma DivStep(n: nat, b: int)
    requires 2 <= b <= n
    ensures 1 <= n / b < n && n / b <= n / 2
    ensures n == (n / b) * b + n % b && 0 <= n % b < b
  {
    var q := n / b;
    assert q * b <= n;
    assert q * 2 <= q * b;
  }

  /** A number below the base is a single digit. */
  lemma DivSmall(n: nat, b: int)
    requires 2 <= b && n < b
    ensures n / b == 0 && n % b == n
  {
  }

  /** The base-`b` digits of `n`, most significant first, no leading zero. */
  function Digits(n: nat, b: int): (r: string)
    requires 2 <= b <= 36
    ensures |r| >= 1
    decreases n
  {
    if n < b then [DigitChar(n)] else Digits(n / b, b) + [DigitChar(n % b)]
  }

  /** The value of a string of base-`b` digits, most significant first. */
  function FromDigits(t: string, b: int): int {
    if t == [] then 0 else FromDigits(t[..|t| - 1], b) * b + DigitValue(t[|t| - 1])
  }

  /** Reading the digits back gives the number. */
  lemma {:induction false} DigitsRoundTrip(n: nat, b: int)
    requires 2 <= b <= 36
    ensures FromDigits(Digits(n, b), b) == n
    decreases n
  {
    if n < b {
      DigitRoundTrip(n);
      assert [DigitChar(n)][..0] == [];
    } else {
      DivStep(n, b);
      DigitRoundTrip(n % b);
      var d := Digits(n / b, b) + [DigitChar(n % b)];
      assert d[..|d| - 1] == Digits(n / b, b);
      DigitsRoundTrip(n / b, b);
      assert FromDigits(d, b) == (n / b) * b + n % b;
    }
  }

  /** The first digit is `0` only for 0 itself. */
  lemma {:induction false} NoLeadingZero(n: nat, b: int)
    requires 2 <= b <= 36
    ensures Digits(n, b)[0] == '0' <==> n == 0
    decreases n
  {
    if n >= b {
      DivStep(n, b);
      NoLeadingZero(n / b, b);
    }
  }

  /** Every character is a digit of base `b`. */
  lemma {:induction false} DigitsInBase(n: nat, b: int)
    requires 2 <= b <= 36
    ensures forall k :: 0 <= k < |Digits(n, b)| ==> 0 <= DigitValue(Digits(n, b)[k]) < b
    decreases n
  {
    if n < b {
      DigitRoundTrip(n);
    } else {
      DivStep(n, b);
      DigitRoundTrip(n % b);
      DigitsInBase(n / b, b);
    }
  }

  /** A number below `2^k` has at most `k` digits in any base >= 2. */
  lemma {:induction false} DigitsLength(n: nat, b: int, k: nat)
    requires 2 <= b <= 36 && 1 <= k && n < Pow2(k)
    ensures |Digits(n, b)| <= k
    decreases n
  {
    if n >= b {
      DivStep(n, b);
      assert Pow2(1) == 2;
      assert k >= 2;
      assert n / 2 < Pow2(k - 1);
      DigitsLength(n / b, b, k - 1);
    }
  }

  /** The text of `sio_ltoa(v, s, b)`: a `-` for a negative `v`, then the
      digits of `|v|`. */
  function LtoaText(v: int, b: int): string
    requires 2 <= b <= 36
  {
    (if v < 0 then "-" else "") + Digits(if v < 0 then -v else v, b)
  }

  /** `-255` in base 16 is `-ff`, and 0 is `0`. */
  lemma LtoaExamples(v: int, z: int)
    requires v == -255 && z == 0
    ensures LtoaText(v, 16) == "-ff"
    ensures LtoaText(z, 10) == "0"
  {
    assert Digits(255, 16) == Digits(15, 16) + [DigitChar(15)];
  }

  /** Every `long` but `LONG_MIN` fits `sio_putl`'s 128-character buffer
      with its NUL. */
  lemma PutlFits(v: int, b: int)
    requires LONG_MIN < v <= LONG_MAX && 2 <= b <= 36
    ensures |LtoaText(v, b)| + 1 <= 65 <= PUTL_BUFFER
  {
    Pow2Is63();
    DigitsLength(if v < 0 then -v else v, b, 63);
  }

  lemma Pow2Is63()
    ensures Pow2(63) == LONG_MAX + 1
  {
    assert Pow2(1) == 2 && Pow2(2) == 4 && Pow2(4) == 16;
    Pow2Add(4, 4);
    assert Pow2(8) == 0x100;
    Pow2Add(8, 8);
    assert Pow2(16) == 0x1_0000;
    Pow2Add(16, 16);
    assert Pow2(32) == 0x1_0000_0000;
    Pow2Add(32, 16);
    assert Pow2(48) == 0x1_0000_0000_0000;
    Pow2Add(48, 8);
    assert Pow2(56) == 0x100_0000_0000_0000;
    Pow2Add(56, 4);
    assert Pow2(60) == 0x1000_0000_0000_0000;
    Pow2Add(60, 2);
    assert Pow2(62) == 0x4000_0000_0000_0000;
    Pow2Add(62, 1);
  }

  /** The digits in the order the loop of `sio_ltoa` produces them, least
      significant first. */
  function LowDigits(n: nat, b: int): (r: string)
    requires 2 <= b <= 36
    ensures |r| >= 1
    decreases n
  {
    [DigitChar(n % b)] + (if n < b then [] else DivStep(n, b); LowDigits(n / b, b))
  }

  lemma {:induction false} LowDigitsReversed(n: nat, b: int)
    requires 2 <= b <= 36
    ensures Reverse(LowDigits(n, b)) == Digits(n, b)
    decreases n
  {
    if n >= b {
      DivStep(n, b);
      LowDigitsReversed(n / b, b);
      var d, low := DigitChar(n % b), LowDigits(n / b, b);
      assert LowDigits(n, b) == [d] + low;
      assert Digits(n, b) == Digits(n / b, b) + [d];
      ReversePrepend(d, low);
    } else {
      DivSmall(n, b);
      assert LowDigits(n, b) == [DigitChar(n)] == Digits(n, b);
    }
  }

  lemma ReversePrepend(c: char, t: seq<char>)
    ensures Reverse([c] + t) == Reverse(t) + [c]
  {
    assert forall k :: 0 <= k < |t| + 1 ==> Reverse([c] + t)[k] == (Reverse(t) + [c])[k];
  }

  /** One step of the digit loop. */
  lemma LowDigitsStep(n: nat, b: int)
    requires 2 <= b <= 36
    ensures n < b ==> LowDigits(n, b) == [DigitChar(n % b)] && n / b == 0
    ensures n >= b ==> LowDigits(n, b) == [DigitChar(n % b)] + LowDigits(n / b, b) && 1 <= n / b < n
  {
    if n >= b {
      DivStep(n, b);
    } else {
      DivSmall(n, b);
    }
  }

  lemma {:induction false} LowDigitsNoNul(n: nat, b: int)
    requires 2 <= b <= 36
    ensures forall k :: 0 <= k < |LowDigits(n, b)| ==> LowDigits(n, b)[k] != '\0' && LowDigits(n, b)[k] != '-'
    decreases n
  {
    LowDigitsStep(n, b);
    if n >= b {
      LowDigitsNoNul(n / b, b);
    }
  }

  /** The `do ... while ((v /= b) > 0)` loop of `sio_ltoa`: the digits of
      `n`, least significant first, from `s[0]` on. */
  method WriteDigits(n0: nat, s: array<char>, b: int) returns (i: int)
    requires 2 <= b <= 36 && |LowDigits(n0, b)| <= s.Length
    modifies s
    ensures i == |LowDigits(n0, b)| && s[..i] == LowDigits(n0, b)
    ensures s[i..] == old(s[i..])
  {
    ghost var want := LowDigits(n0, b);
    var c, n := DivMod(n0, b);
    ghost var rest := Pending(n, b);
    SuffixStep(want, 0, DigitChar(c), rest);
    s[0] := DigitChar(c);
    i := 1;
    while n > 0
      invariant 1 <= i <= |want| && want[i..] == rest && rest == Pending(n, b)
      invariant forall k :: 0 <= k < i ==> s[k] == want[k]
      invariant forall k :: i <= k < s.Length ==> s[k] == old(s[k])
    {
      var q;
      c, q := DivMod(n, b);
      SuffixStep(want, i, DigitChar(c), Pending(q, b));
      s[i] := DigitChar(c);
      i := i + 1;
      n := q;
      rest := Pending(q, b);
    }
    assert s[..i] == want;
  }

  /** The digits the loop has still to write once the value is down to `n`. */
  function Pending(n: nat, b: int): string
    requires 2 <= b <= 36
  {
    if n == 0 then [] else LowDigits(n, b)
  }

  /** A suffix that starts with `d` followed by `rest`. */
  lemma SuffixStep(want: seq<char>, i: nat, d: char, rest: seq<char>)
    requires i < |want| && want[i..] == [d] + rest
    ensures want[i] == d && |want| == i + 1 + |rest| && want[i + 1..] == rest
  {
    assert want[i..][0] == want[i];
    assert want[i + 1..] == want[i..][1..];
  }

  /** `c = v % b` and `v /= b`: the low digit and the rest. */
  method DivMod(n: nat, b: int) returns (c: int, q: nat)
    requires 2 <= b <= 36
    ensures 0 <= c < b && (q > 0 ==> q < n)
    ensures LowDigits(n, b) == [DigitChar(c)] + Pending(q, b)
  {
    LowDigitsStep(n, b);
    c := n % b;
    q := n / b;
  }

  /** Reversing the digits, least significant first, and the sign gives
      the text. */
  lemma ReversedText(v: int, b: int)
    requires 2 <= b <= 36
    ensures var n := if v < 0 then -v else v;
            Reverse(LowDigits(n, b) + (if v < 0 then "-" else "")) == LtoaText(v, b)
  {
    var n := if v < 0 then -v else v;
    LowDigitsReversed(n, b);
    if v < 0 {
      ReverseAppendOne(LowDigits(n, b), '-');
    } else {
      assert LowDigits(n, b) + "" == LowDigits(n, b);
    }
  }

  /** The first half of `sio_ltoa`: the digits of `|v|`, least significant
      first, then `'-'` when `v` is negative, then the NUL. */
  method WriteReversed(v: int, s: array<char>, b: int) returns (i: int)
    requires 2 <= b <= 36
    requires |LowDigits(if v < 0 then -v else v, b) + (if v < 0 then "-" else "")| < s.Length
    modifies s
    ensures var low := LowDigits(if v < 0 then -v else v, b) + (if v < 0 then "-" else "");
      && i == |low| && s[..i] == low && s[i] == '\0' && StrLen(s[..]) == i
    ensures forall k :: i < k < s.Length ==> s[k] == old(s[k])
  {
    var neg := v < 0;
    var n: nat := if neg then -v else v;
    ghost var low := LowDigits(n, b) + (if neg then "-" else "");
    i := WriteDigits(n, s, b);
    if neg {
      s[i] := '-';
      i := i + 1;
    }
    assert s[..i] == low;
    s[i] := '\0';
    assert StrLen(s[..]) == i by {
      LowDigitsNoNul(n, b);
      assert forall k :: 0 <= k < i ==> s[..][k] == low[k];
      StrLenAt(s[..], i);
    }
  }

  /** `sio_ltoa`: write `v` in base `b` into `s` as a NUL-terminated
      string.  The source negates `v`, so `LONG_MIN` is excluded. */
  method SioLtoa(v: int, s: array<char>, b: int)
    requires LONG_MIN < v <= LONG_MAX && 2 <= b <= 36
    requires |LtoaText(v, b)| < s.Length
    modifies s
    ensures s[..|LtoaText(v, b)|] == LtoaText(v, b)
    ensures s[|LtoaText(v, b)|] == '\0'
    ensures forall k :: |LtoaText(v, b)| < k < s.Length ==> s[k] == old(s[k])
  {
    ReversedText(v, b);
    var i := WriteReversed(v, s, b);
    SioReverse(s);
  }
}
