/** lib/kstrtox.c: parsing a number, exact about overflow; and printing followed by parsing. */
module DecimalParse {
  import opened Numbers
  import opened DecimalDigits
  import opened DecimalPrint

  datatype Result = Ok(value: nat) | Einval | Erange

  const NUL: char := '\0'

  /** s[i] of a NUL-terminated string */
  function At(s: string, i: nat): char {
    if i < |s| then s[i] else NUL
  }

  /** _tolower(): c | 0x20 */
  function Lower(c: char): int {
    if (c as int / 32) % 2 == 0 then c as int + 32 else c as int
  }

  /** The value of a digit character, 16 for anything else. */
  function DigitOf(c: char): (d: nat)
    ensures d <= 16
  {
    if '0' <= c <= '9' then c as int - '0' as int
    else if 'a' as int <= Lower(c) <= 'f' as int then Lower(c) - 'a' as int + 10
    else 16
  }

  /** What a string of digits stands for in the given base. */
  function NumberOf(s: string, base: nat): nat {
    if s == "" then 0 else NumberOf(s[..|s| - 1], base) * base + DigitOf(s[|s| - 1])
  }

  ghost predicate AllDigits(s: string, base: nat) {
    forall i | 0 <= i < |s| :: DigitOf(s[i]) < base
  }

  /** r > a / b without dividing */
  lemma FloorExceeded(a: nat, b: nat, r: nat)
    requires b > 0
    ensures r > a / b <==> r * b > a
  {
    var q := a / b;
    assert q * b <= a < q * b + b;
    if r > q {
      MulMonotone(q + 1, r, b);
    } else {
      MulMonotone(r, q, b);
    }
  }

  lemma MulMonotone(x: nat, y: nat, b: nat)
    requires x <= y
    ensures x * b <= y * b
  {
  }

  /** With base at most 16 a result below 2^60 cannot overflow in one step. */
  lemma SmallStep(res: nat, base: nat, val: nat)
    requires 0 < base <= 16 && val < base && res < 0x1000_0000_0000_0000
    ensures res * base + val < U64
  {
    MulMonotone(base, 16, res);
  }

  /** Once too large, more digits keep it too large. */
  lemma StaysLarge(v: nat, base: nat, val: nat)
    requires base > 0 && v >= U64
    ensures v * base + val >= U64
  {
    MulMonotone(1, base, v);
  }

  /** unsigned long long */
  function Wrap(x: nat): (r: nat)
    ensures r < U64 && (x < U64 ==> r == x)
  {
    x % U64
  }

  /** res is the value so far, unless it has overflowed. */
  ghost predicate Tracks(res: nat, overflow: bool, v: nat) {
    res < U64 && (overflow <==> v >= U64) && (!overflow ==> res == v)
  }

  /** One digit more: the overflow test is made only from 2^60 on, which is early enough. */
  lemma StepTracks(res: nat, overflow: bool, val: nat, base: nat, v: nat)
    requires 0 < base <= 16 && val < base && Tracks(res, overflow, v)
    ensures Tracks(Wrap(res * base + val), overflow || (res >= 0x1000_0000_0000_0000 && res > (U64 - 1 - val) / base), v * base + val)
  {
    hide Wrap;
    if overflow {
      StaysLarge(v, base, val);
    } else {
      FloorExceeded(U64 - 1 - val, base, res);
      if res < 0x1000_0000_0000_0000 {
        SmallStep(res, base, val);
      }
    }
  }

  method Accumulate(res: nat, overflow: bool, val: nat, base: nat, ghost v: nat) returns (res': nat, overflow': bool)
    requires 0 < base <= 16 && val < base && Tracks(res, overflow, v)
    ensures Tracks(res', overflow', v * base + val)
  {
    hide Wrap, Tracks;
    StepTracks(res, overflow, val, base, v);
    overflow' := overflow;
    if res >= 0x1000_0000_0000_0000 {
      if res > (U64 - 1 - val) / base {
        overflow' := true;
      }
    }
    res' := Wrap(res * base + val);
  }

  /** _parse_integer(): the longest run of digits from the i-th character, its value when it fits,
      and whether it does not. The result is only kept modulo 2^64 once it has overflowed. */
  method ParseInteger(s: string, from: nat, base: nat) returns (rv: nat, overflow: bool, res: nat)
    requires 0 < base <= 16 && from <= |s|
    ensures from + rv <= |s| && AllDigits(s[from..from + rv], base)
    ensures At(s, from + rv) == NUL || DigitOf(At(s, from + rv)) >= base
    ensures overflow <==> NumberOf(s[from..from + rv], base) >= U64
    ensures !overflow ==> res == NumberOf(s[from..from + rv], base)
    ensures forall i | from <= i < from + rv :: s[i] != NUL
  {
    hide DigitOf, NumberOf, AllDigits;
    res, rv, overflow := 0, 0, false;
    assert s[from..from] == "";
    NoNumber(base);
    while At(s, from + rv) != NUL
      invariant from + rv <= |s| && AllDigits(s[from..from + rv], base)
      invariant Tracks(res, overflow, NumberOf(s[from..from + rv], base))
      invariant forall i | from <= i < from + rv :: s[i] != NUL
      decreases |s| - from - rv
    {
      var val := DigitOf(s[from + rv]);
      if val >= base {
        break;
      }
      OneMore(s, from, rv, base);
      res, overflow := Accumulate(res, overflow, val, base, NumberOf(s[from..from + rv], base));
      rv := rv + 1;
    }
  }

  lemma {:induction false} NoNumber(base: nat)
    ensures NumberOf("", base) == 0 && AllDigits("", base)
  {
  }

  lemma OneMore(s: string, from: nat, rv: nat, base: nat)
    requires from + rv < |s| && AllDigits(s[from..from + rv], base) && DigitOf(s[from + rv]) < base
    ensures var t := s[from..from + rv + 1];
            AllDigits(t, base) && NumberOf(t, base) == NumberOf(s[from..from + rv], base) * base + DigitOf(s[from + rv])
  {
    var t := s[from..from + rv + 1];
    assert t[..|t| - 1] == s[from..from + rv] && t[|t| - 1] == s[from + rv];
    assert t == s[from..from + rv] + [s[from + rv]];
  }

  // ---------- kstrtoull()

  ghost predicate CString(s: string) {
    forall i | 0 <= i < |s| :: s[i] != NUL
  }

  /** _parse_integer_fixup_radix() after an optional plus sign: where the digits start, and the base. */
  function StartAndBase(s: string, base: nat): (nat, nat) {
    var i := if At(s, 0) == '+' then 1 else 0;
    var hex := At(s, i) == '0' && Lower(At(s, i + 1)) == 'x' as int;
    var b := if base != 0 then base
             else if At(s, i) != '0' then 10
             else if hex && DigitOf(At(s, i + 2)) < 16 then 16 else 8;
    (if b == 16 && hex then i + 2 else i, b)
  }

  /** Digits of the base, and a newline if any. */
  ghost predicate Numeral(t: string, base: nat, ds: string) {
    ds != "" && AllDigits(ds, base) && (t == ds || t == ds + "\n")
  }

  lemma StartInside(s: string, base: nat)
    requires base <= 16
    ensures StartAndBase(s, base).0 <= |s| && 0 < StartAndBase(s, base).1 <= 16
  {
  }

  /** A newline is no digit. */
  lemma NewlineEnds(base: nat)
    requires base <= 16
    ensures DigitOf('\n') >= base && '\n' != NUL
  {
  }

  /** The longest run of digits is the numeral, if there is one. */
  lemma RunIsNumeral(t: string, rv: nat, base: nat, ds: string)
    requires base <= 16 && rv <= |t| && AllDigits(t[..rv], base) && (rv < |t| ==> t[rv] == NUL || DigitOf(t[rv]) >= base)
    requires CString(t) && Numeral(t, base, ds)
    ensures ds == t[..rv]
  {
    NewlineEnds(base);
    hide DigitOf;
    assert t[..|ds|] == ds;
    if |t| > |ds| { DigitsEnd(t, rv, |ds|, base); }
    if rv < |t| { DigitsEnd(t, |ds|, rv, base); }
  }

  /** How many characters from the first on are digits of the base. */
  function Run(t: string, base: nat): (n: nat)
    ensures n <= |t|
  {
    if t == "" || DigitOf(t[0]) >= base then 0 else 1 + Run(t[1..], base)
  }

  lemma {:induction false} RunIs(t: string, base: nat, n: nat)
    requires n <= |t| && AllDigits(t[..n], base) && (n < |t| ==> DigitOf(t[n]) >= base)
    ensures Run(t, base) == n
  {
    hide DigitOf;
    if n > 0 {
      assert t[..n][0] == t[0] && forall i | 1 <= i < n :: t[..n][i] == t[1..][..n - 1][i - 1];
      RunIs(t[1..], base, n - 1);
    }
  }

  lemma DigitsEnd(t: string, n: nat, k: nat, base: nat)
    requires n <= |t| && AllDigits(t[..n], base) && k < |t| && DigitOf(t[k]) >= base
    ensures k >= n
  {
    hide DigitOf;
    assert forall i | 0 <= i < n :: t[..n][i] == t[i];
  }

  /** kstrtoull(): accepts exactly the numerals of the base, tells those that do not fit in 64 bits. */
  method Kstrtoull(s: string, base0: nat) returns (r: Result)
    requires CString(s) && base0 <= 16
    ensures StartAndBase(s, base0).0 <= |s|
    ensures var (i, base) := StartAndBase(s, base0);
            && (r.Ok? ==> r.value < U64 && exists ds :: Numeral(s[i..], base, ds) && NumberOf(ds, base) == r.value)
            && (forall ds | Numeral(s[i..], base, ds) ::
                  r == if NumberOf(ds, base) < U64 then Ok(NumberOf(ds, base)) else Erange)
            && (r.Erange? <==> NumberOf(s[i..][..Run(s[i..], base)], base) >= U64)
  {
    StartInside(s, base0);
    hide StartAndBase, DigitOf, NumberOf, Lower;
    var (i, base) := StartAndBase(s, base0);
    var rv, overflow, res := ParseInteger(s, i, base);
    ghost var t := s[i..];
    assert t[..rv] == s[i..i + rv];
    forall ds | Numeral(t, base, ds) ensures ds == s[i..i + rv] {
      assert rv < |t| ==> t[rv] == At(s, i + rv);
      RunIsNumeral(t, rv, base, ds);
    }
    assert rv < |t| ==> t[rv] == At(s, i + rv);
    RunIs(t, base, rv);
    if overflow {
      return Erange;
    }
    if rv == 0 {
      return Einval;
    }
    var j := i + rv;
    if At(s, j) == '\n' {
      j := j + 1;
    }
    if At(s, j) != NUL {
      return Einval;
    }
    assert Numeral(t, base, s[i..i + rv]) by {
      if j == i + rv {
        assert t == s[i..i + rv];
      } else {
        assert t == s[i..i + rv] + "\n";
      }
    }
    return Ok(res);
  }

  // ---------- num_to_str(), and back

  function Rev(s: string): (r: string)
    ensures |r| == |s|
  {
    if s == "" then "" else Rev(s[1..]) + [s[0]]
  }

  lemma {:induction false} RevAt(s: string, k: nat)
    requires k < |s|
    ensures Rev(s)[k] == s[|s| - 1 - k]
  {
    if k < |s| - 1 {
      RevAt(s[1..], k);
    }
  }

  /** The usual way to write n. */
  function Decimal(n: nat): string {
    DigitsAre(n);
    Rev(Text(DigitsOf(n)))
  }

  lemma CharDigit(d: nat)
    requires d < 10
    ensures DigitOf(Char(d)) == d && Char(d) != NUL && Char(d) != '+'
  {
  }

  /** Reading back what was written. */
  lemma {:induction false} DecimalReads(n: nat)
    ensures NumberOf(Decimal(n), 10) == n && AllDigits(Decimal(n), 10) && Decimal(n) != ""
    ensures CString(Decimal(n)) && forall i | 0 <= i < |Decimal(n)| :: Decimal(n)[i] != '+'
  {
    CharDigit(n % 10);
    hide Decimal, DigitOf, Char;
    if n < 10 {
      DecimalOne(n);
      assert [Char(n)][..0] == "";
    } else {
      DecimalStep(n);
      DecimalReads(n / 10);
      var d := Decimal(n / 10);
      assert Decimal(n)[..|Decimal(n)| - 1] == d;
    }
  }

  lemma DecimalOne(n: nat)
    requires n < 10
    ensures Decimal(n) == [Char(n)]
  {
    DigitsAre(n);
    TextOne(n);
    assert Rev([Char(n)]) == Rev("") + [Char(n)];
  }

  lemma DecimalStep(n: nat)
    requires n >= 10
    ensures Decimal(n) == Decimal(n / 10) + [Char(n % 10)]
  {
    DigitsAre(n);
    DigitsAre(n / 10);
    TextOne(n % 10);
    TextJoin([n % 10], DigitsOf(n / 10));
    hide Text;
    var t := Text(DigitsOf(n / 10));
    assert Text(DigitsOf(n)) == [Char(n % 10)] + t;
    assert ([Char(n % 10)] + t)[1..] == t;
  }

  /** num_to_str(): the digits are reversed into the caller's buffer if they fit. */
  method NumToStr(buf: array<char>, size: int, num: nat) returns (len: nat)
    requires num < U64 && size <= buf.Length
    modifies buf
    ensures |Decimal(num)| > size ==> len == 0 && buf[..] == old(buf[..])
    ensures |Decimal(num)| <= size ==> len == |Decimal(num)| && buf[..] == Decimal(num) + old(buf[len..])
  {
    DecimalIs(num);
    hide DigitsOf, Text, Rev, Decimal, IsDigits;
    var tmp: string;
    if num <= 9 {
      OneDigit(num);
      tmp := [Char(num)];
    } else {
      tmp := PutDec9("", num);
      assert tmp == Text(DigitsOf(num));
    }
    len := |tmp|;
    if len > size {
      return 0;
    }
    CopyReversed(buf, tmp);
  }

  method CopyReversed(buf: array<char>, tmp: string)
    requires |tmp| <= buf.Length
    modifies buf
    ensures buf[..|tmp|] == Rev(tmp) && buf[|tmp|..] == old(buf[|tmp|..])
  {
    hide Rev;
    var len := |tmp|;
    for idx := 0 to len
      invariant forall k | 0 <= k < idx :: buf[k] == tmp[len - k - 1]
      invariant buf[len..] == old(buf[len..])
    {
      buf[idx] := tmp[len - idx - 1];
    }
    forall k | 0 <= k < len ensures buf[k] == Rev(tmp)[k] {
      RevAt(tmp, k);
    }
  }

  lemma {:induction false} DecimalIs(n: nat)
    ensures IsDigits(DigitsOf(n)) && Decimal(n) == Rev(Text(DigitsOf(n)))
  {
    DigitsAre(n);
  }

  lemma {:induction false} OneDigit(n: nat)
    requires n < 10
    ensures IsDigits(DigitsOf(n)) && Text(DigitsOf(n)) == [Char(n)]
  {
    TextOne(n);
  }

  /** Printing a 64-bit number and parsing it gives it back. */
  method RoundTrip(num: nat) returns (r: Result)
    requires num < U64
    ensures r == Ok(num)
  {
    DecimalReads(num);
    hide Decimal, NumberOf, AllDigits;
    var buf := new char[|Decimal(num)|];
    var len := NumToStr(buf, buf.Length, num);
    var s := buf[..len];
    assert At(s, 0) != '+';
    assert StartAndBase(s, 10) == (0, 10);
    r := Kstrtoull(s, 10);
    assert s[0..] == s;
    assert Numeral(s, 10, s);
  }

  /** Whatever number that does not fit, with whatever junk behind it: no numeral, and out of range all the same. */
  method JunkAfterOverflow(num: nat, junk: char) returns (r: Result)
    requires num >= U64 && DigitOf(junk) >= 10 && junk != '\n' && junk != NUL
    ensures r == Erange && forall ds :: !Numeral(Decimal(num) + [junk], 10, ds)
  {
    DecimalReads(num);
    hide Decimal, NumberOf, DigitOf;
    var s := Decimal(num) + [junk];
    assert s[..|s| - 1] == Decimal(num) && s[|s| - 1] == junk && At(s, 0) != '+';
    assert StartAndBase(s, 10) == (0, 10) && s[0..] == s;
    RunIs(s, 10, |s| - 1);
    JunkIsNoNumeral(Decimal(num), junk);
    r := Kstrtoull(s, 10);
  }

  lemma JunkIsNoNumeral(digits: string, junk: char)
    requires DigitOf(junk) >= 10 && junk != '\n'
    ensures forall ds :: !Numeral(digits + [junk], 10, ds)
  {
    hide DigitOf;
    var s := digits + [junk];
    forall ds ensures !Numeral(s, 10, ds) {
      assert s[|s| - 1] == junk && (ds + "\n")[|ds|] == '\n';
    }
  }
}
