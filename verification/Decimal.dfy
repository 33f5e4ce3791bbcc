/** Decimal text: Go's strconv.Atoi on 64-bit ints, and %d printing. */
module Decimal {
  import opened Wrappers

  const MAX_INT := 0x7FFF_FFFF_FFFF_FFFF
  const MIN_INT := -0x8000_0000_0000_0000

  predicate IsDigit(ch: char) {
    '0' <= ch <= '9'
  }

  predicate AllDigits(s: string) {
    forall i | 0 <= i < |s| :: IsDigit(s[i])
  }

  /** The value of a digit string, leading zeros included. */
  function Digits(s: string): nat
    requires AllDigits(s)
  {
    if s == "" then 0 else Digits(s[..|s| - 1]) * 10 + (s[|s| - 1] as int - '0' as int)
  }

  /** An optional sign, at least one digit, nothing else, and a value that fits. */
  function Atoi(s: string): Option<int> {
    var body := if s != "" && (s[0] == '+' || s[0] == '-') then s[1..] else s;
    if body == "" || !AllDigits(body) then None
    else
      var n: int := if s[0] == '-' then 0 - Digits(body) else Digits(body);
      if MIN_INT <= n <= MAX_INT then Some(n) else None
  }

  function Print(n: nat): (s: string)
    ensures s != "" && AllDigits(s)
    ensures n > 0 ==> s[0] != '0'
  {
    if n < 10 then [(n + '0' as int) as char]
    else Print(n / 10) + [(n % 10 + '0' as int) as char]
  }

  function Zeros(n: nat): (s: string)
    ensures |s| == n && AllDigits(s)
  {
    if n == 0 then "" else Zeros(n - 1) + "0"
  }

  /** %0*d of a non-negative value. */
  function Pad(n: nat, width: nat): (s: string)
    ensures s != "" && AllDigits(s) && |s| >= width
  {
    var s := Print(n);
    if |s| >= width then s else Zeros(width - |s|) + s
  }

  lemma {:induction false} DigitsOfPrint(n: nat)
    ensures Digits(Print(n)) == n
  {
    if n >= 10 {
      DigitsOfPrint(n / 10);
      assert Print(n)[..|Print(n)| - 1] == Print(n / 10);
    }
  }

  lemma {:induction false} ZerosAreZero(k: nat)
    ensures Digits(Zeros(k)) == 0
  {
    if k > 0 {
      ZerosAreZero(k - 1);
      assert Zeros(k)[..k - 1] == Zeros(k - 1);
    }
  }

  lemma {:induction false} DigitsOfZeros(k: nat, s: string)
    requires AllDigits(s)
    ensures AllDigits(Zeros(k) + s) && Digits(Zeros(k) + s) == Digits(s)
  {
    if s == "" {
      assert Zeros(k) + s == Zeros(k);
      ZerosAreZero(k);
    } else {
      var t, init := Zeros(k) + s, s[..|s| - 1];
      DigitsOfZeros(k, init);
      assert t[..|t| - 1] == Zeros(k) + init;
      assert t[|t| - 1] == s[|s| - 1];
    }
  }

  /** Parsing undoes printing, padded or not. */
  lemma AtoiOfPad(n: nat, width: nat)
    requires n <= MAX_INT
    ensures Digits(Pad(n, width)) == n && Atoi(Pad(n, width)) == Some(n)
  {
    DigitsOfPrint(n);
    if |Print(n)| < width {
      DigitsOfZeros(width - |Print(n)|, Print(n));
    }
    assert IsDigit(Pad(n, width)[0]);
  }

  /** Atoi on an optionally signed digit string: the value, if it fits. */
  lemma AtoiOfSigned(d: string)
    requires d != "" && AllDigits(d)
    ensures Atoi(d) == if Digits(d) <= MAX_INT then Some(Digits(d)) else None
    ensures Atoi("+" + d) == if Digits(d) <= MAX_INT then Some(Digits(d)) else None
    ensures Atoi("-" + d) == if Digits(d) <= MAX_INT + 1 then Some(0 - Digits(d)) else None
  {
    assert IsDigit(d[0]);
    assert ("+" + d)[1..] == d && ("-" + d)[1..] == d;
  }

  /** Atoi accepts nothing else. */
  lemma AtoiRejects(s: string)
    requires Atoi(s).Some?
    ensures exists d :: d != "" && AllDigits(d) && (s == d || s == "+" + d || s == "-" + d)
  {
    if IsDigit(s[0]) {
      assert AllDigits(s);
    } else {
      assert s == [s[0]] + s[1..] && AllDigits(s[1..]);
    }
  }

  lemma PadSnoc(n: nat, d: nat, width: nat)
    requires d < 10 && width >= 1
    ensures Pad(n * 10 + d, width + 1) == Pad(n, width) + [(d + '0' as int) as char]
  {
    var last := [(d + '0' as int) as char];
    if n > 0 {
      assert (n * 10 + d) / 10 == n && (n * 10 + d) % 10 == d;
      assert Print(n * 10 + d) == Print(n) + last;
      if |Print(n)| < width {
        assert Zeros(width - |Print(n)|) + Print(n) + last == Zeros(width - |Print(n)|) + (Print(n) + last);
      }
    } else {
      assert Print(0) == "0" && Print(d) == last;
      assert Pad(0, width) == Zeros(width);
    }
  }

  /** Padded printing undoes parsing, leading zeros included. */
  lemma {:induction false} PadOfDigits(s: string)
    requires s != "" && AllDigits(s)
    ensures Pad(Digits(s), |s|) == s
  {
    var init, d := s[..|s| - 1], s[|s| - 1] as int - '0' as int;
    assert IsDigit(s[|s| - 1]);
    if init == "" {
      assert Digits(init) == 0 && Print(d) == s;
    } else {
      PadOfDigits(init);
      PadSnoc(Digits(init), d, |init|);
      assert s == init + [s[|s| - 1]];
    }
  }

  lemma AtoiOfPrint(n: nat)
    requires n <= MAX_INT
    ensures Atoi(Print(n)) == Some(n)
  {
    AtoiOfPad(n, 0);
  }
}
