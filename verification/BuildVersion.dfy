/** The next build version: the last number of a start version is bumped past the current one. */
module BuildVersion {
  import opened Wrappers
  import opened Decimal

  datatype Parts = Parts(prefix: string, body: string, suffix: string)

  /** Where the digits starting at i end. */
  function RunEnd(s: string, i: nat): (j: nat)
    requires i <= |s|
    ensures i <= j <= |s|
    ensures forall k | i <= k < j :: IsDigit(s[k])
    ensures j < |s| ==> !IsDigit(s[j])
    decreases |s| - i
  {
    if i < |s| && IsDigit(s[i]) then RunEnd(s, i + 1) else i
  }

  predicate OneLine(s: string, i: nat, j: nat)
    requires j <= |s|
  {
    forall k | i <= k < j :: s[k] != '\n'
  }

  /** The pattern ^(.*[^\d])?(\d+)([^\d].*)?$ matches with a first group of length i. The dot does
      not match a newline, the bracketed non-digit does. */
  predicate MatchesAt(s: string, i: nat)
    requires i <= |s|
  {
    var j := RunEnd(s, i);
    && (i == 0 || (!IsDigit(s[i - 1]) && OneLine(s, 0, i - 1)))
    && j > i
    && OneLine(s, j + 1, |s|)
  }

  /** The greedy first group takes the longest prefix that lets the rest match. */
  function LongestFrom(s: string, i: nat): (r: int)
    requires i <= |s|
    ensures -1 <= r <= i
    ensures r >= 0 ==> MatchesAt(s, r)
    ensures forall k: nat | r < k <= i :: !MatchesAt(s, k)
  {
    if MatchesAt(s, i) then i else if i == 0 then -1 else LongestFrom(s, i - 1)
  }

  function SplitVersion(s: string): Option<Parts> {
    var i := LongestFrom(s, |s|);
    if i < 0 then None
    else
      var j := RunEnd(s, i);
      Some(Parts(s[..i], s[i..j], s[j..]))
  }

  predicate HasDigit(s: string) {
    exists i | 0 <= i < |s| :: IsDigit(s[i])
  }

  lemma SplitShape(s: string)
    requires SplitVersion(s).Some?
    ensures var p := SplitVersion(s).value;
            && s == p.prefix + p.body + p.suffix
            && p.body != "" && AllDigits(p.body)
            && (p.prefix == "" || !IsDigit(p.prefix[|p.prefix| - 1]))
            && (p.suffix == "" || !IsDigit(p.suffix[0]))
  {
  }

  /** The last digit run of a string that holds a digit. */
  lemma LastRun(s: string) returns (i: nat, j: nat)
    requires HasDigit(s)
    ensures i < j <= |s| && (i == 0 || !IsDigit(s[i - 1]))
    ensures forall k | i <= k < j :: IsDigit(s[k])
    ensures forall k | j <= k < |s| :: !IsDigit(s[k])
  {
    j := |s|;
    while j > 0 && !IsDigit(s[j - 1])
      invariant j <= |s| && forall k | j <= k < |s| :: !IsDigit(s[k])
    {
      j := j - 1;
    }
    i := j;
    while i > 0 && IsDigit(s[i - 1])
      invariant i <= j && forall k | i <= k < j :: IsDigit(s[k])
      invariant i == j ==> i > 0 && IsDigit(s[i - 1])
    {
      i := i - 1;
    }
  }

  lemma RunEndIs(s: string, i: nat, j: nat)
    requires i <= j <= |s| && (j < |s| ==> !IsDigit(s[j])) && forall k | i <= k < j :: IsDigit(s[k])
    ensures RunEnd(s, i) == j
  {
  }

  /** On one line of text the pattern finds the last digit run, and matches as soon as there is a
      digit: the suffix holds none. */
  lemma SplitsAtLastDigitRun(s: string)
    requires OneLine(s, 0, |s|)
    ensures SplitVersion(s).Some? <==> HasDigit(s)
    ensures SplitVersion(s).Some? ==> !HasDigit(SplitVersion(s).value.suffix)
  {
    if HasDigit(s) {
      var i, j := LastRun(s);
      RunEndIs(s, i, j);
      assert MatchesAt(s, i);
      var k := LongestFrom(s, |s|);
      assert IsDigit(s[k]) && (k == 0 || !IsDigit(s[k - 1]));
      assert k == i;
    }
  }

  // --- bumping ---

  datatype Next = Version(text: string) | Panic

  function Wrap(n: int): int
    requires MIN_INT <= n <= MAX_INT + 1
  {
    if n > MAX_INT then MIN_INT else n
  }

  /** %0*d. */
  function Format(n: int, width: nat): string {
    if n >= 0 then Pad(n, width) else "-" + Pad(0 - n, if width > 0 then width - 1 else 0)
  }

  predicate HasSuffix(s: string, suffix: string) {
    |suffix| <= |s| && s[|s| - |suffix|..] == suffix
  }

  function Bump(p: Parts, start: int, curr: int): string
    requires MIN_INT <= curr <= MAX_INT
  {
    p.prefix + Format(if start > curr then start else Wrap(curr + 1), |p.body|) + p.suffix
  }

  /** The middle of a version between the prefix and the suffix. */
  function Middle(p: Parts, v: string): string
    requires |p.prefix| + |p.suffix| <= |v|
  {
    v[|p.prefix|..|v| - |p.suffix|]
  }

  function NextFrom(p: Parts, startVersion: string, currentVersion: string): Next {
    if !(p.prefix <= currentVersion && HasSuffix(currentVersion, p.suffix)) then Version(startVersion)
    else if |p.prefix| + |p.suffix| > |currentVersion| then Panic
    else
      match Atoi(Middle(p, currentVersion))
      case None => Version(startVersion)
      case Some(curr) =>
        match Atoi(p.body)
        case None => Panic
        case Some(start) => Version(Bump(p, start, curr))
  }

  function GetNextBuildVersion(startVersion: string, currentVersion: string): Next {
    match SplitVersion(startVersion)
    case None => Version(startVersion)
    case Some(p) => NextFrom(p, startVersion, currentVersion)
  }

  /** The version n in the shape of a start version. */
  function Shaped(p: Parts, n: nat): string {
    p.prefix + Pad(n, |p.body|) + p.suffix
  }

  lemma ShapedMiddle(p: Parts, n: nat)
    ensures var s := Shaped(p, n);
            && p.prefix <= s && HasSuffix(s, p.suffix) && |p.prefix| + |p.suffix| <= |s|
            && Middle(p, s) == Pad(n, |p.body|)
  {
  }

  lemma AtoiOfDigits(s: string)
    requires s != "" && AllDigits(s)
    ensures Atoi(s) == if Digits(s) <= MAX_INT then Some(Digits(s)) else None
  {
    assert IsDigit(s[0]);
  }

  /** The panics, exactly: prefix and suffix overlap in the current version, or its number is fine but
      the start version's own number does not fit an int. Both escape the documented fallback. */
  lemma PanicsIff(startVersion: string, p: Parts, currentVersion: string)
    requires SplitVersion(startVersion) == Some(p)
    ensures p.body != "" && AllDigits(p.body)
    ensures GetNextBuildVersion(startVersion, currentVersion) == Panic <==>
            && p.prefix <= currentVersion && HasSuffix(currentVersion, p.suffix)
            && (|p.prefix| + |p.suffix| > |currentVersion|
                || (Digits(p.body) > MAX_INT && Atoi(Middle(p, currentVersion)).Some?))
  {
    SplitShape(startVersion);
    AtoiOfDigits(p.body);
    assert GetNextBuildVersion(startVersion, currentVersion) == NextFrom(p, startVersion, currentVersion);
  }

  lemma OverlapPanics()
    ensures GetNextBuildVersion("v1v", "v") == Panic
  {
    var s := "v1v";
    RunEndIs(s, 3, 3);
    RunEndIs(s, 2, 2);
    RunEndIs(s, 1, 2);
    assert !MatchesAt(s, 3) && !MatchesAt(s, 2) && MatchesAt(s, 1);
    assert LongestFrom(s, 1) == 1 && LongestFrom(s, 2) == 1 && LongestFrom(s, 3) == 1;
    assert s[..1] == "v" && s[1..2] == "1" && s[2..] == "v";
    assert SplitVersion(s) == Some(Parts("v", "1", "v"));
  }

  /** For a current version n of the right shape the next one has the same shape and number
      max(start, n + 1): strictly above n, never below the start version. */
  lemma NextOfShaped(startVersion: string, p: Parts, start: nat, n: nat)
    requires SplitVersion(startVersion) == Some(p) && Atoi(p.body) == Some(start) && n < MAX_INT
    ensures GetNextBuildVersion(startVersion, Shaped(p, n)) == Version(Shaped(p, if start > n then start else n + 1))
  {
    ShapedMiddle(p, n);
    AtoiOfPad(n, |p.body|);
    NextFromCarried(p, startVersion, start, Shaped(p, n), n);
  }

  lemma BumpIsShaped(p: Parts, start: nat, curr: int)
    requires MIN_INT <= curr < MAX_INT
    ensures Bump(p, start, curr) == Shaped(p, if start > curr then start else curr + 1)
  {
  }

  /** The current version carries a number `curr` between the prefix and the suffix. */
  predicate Carries(p: Parts, currentVersion: string, curr: int) {
    && p.prefix <= currentVersion && HasSuffix(currentVersion, p.suffix)
    && |p.prefix| + |p.suffix| <= |currentVersion|
    && Atoi(Middle(p, currentVersion)) == Some(curr)
  }

  lemma NextFromCarried(p: Parts, startVersion: string, start: nat, currentVersion: string, curr: int)
    requires Atoi(p.body) == Some(start) && Carries(p, currentVersion, curr) && MIN_INT <= curr < MAX_INT
    ensures NextFrom(p, startVersion, currentVersion) == Version(Shaped(p, if start > curr then start else curr + 1))
  {
    BumpIsShaped(p, start, curr);
  }

  /** What follows the largest int: the number wraps around to a negative one. */
  function Wrapped(p: Parts): string {
    p.prefix + "-" + Pad(MAX_INT + 1, if |p.body| > 0 then |p.body| - 1 else 0) + p.suffix
  }

  lemma WrapFrom(p: Parts, startVersion: string, start: nat, currentVersion: string)
    requires Atoi(p.body) == Some(start) && start <= MAX_INT && Carries(p, currentVersion, MAX_INT)
    ensures NextFrom(p, startVersion, currentVersion) == Version(Wrapped(p))
  {
    BumpWraps(p, start, MAX_INT + 1);
  }

  lemma BumpWraps(p: Parts, start: nat, n: nat)
    requires start < n == MAX_INT + 1
    ensures Bump(p, start, n - 1) == p.prefix + "-" + Pad(n, if |p.body| > 0 then |p.body| - 1 else 0) + p.suffix
  {
    var digits := Pad(n, if |p.body| > 0 then |p.body| - 1 else 0);
    assert Format(0 - n, |p.body|) == "-" + digits;
    assert p.prefix + ("-" + digits) == p.prefix + "-" + digits;
  }

  lemma WrappedIsNotShaped(p: Parts, n: nat)
    ensures Wrapped(p) != Shaped(p, n)
  {
    var at := |p.prefix|;
    assert Wrapped(p)[at] == '-';
    assert Shaped(p, n)[at] == Pad(n, |p.body|)[0] && IsDigit(Pad(n, |p.body|)[0]);
  }

  /** Any current version that carries a number leads into the shape at once, with number
      max(start, curr + 1), if and only if its number is not the largest int; that one wraps. */
  lemma NextIsShapedIff(startVersion: string, p: Parts, start: nat, currentVersion: string, curr: int)
    requires SplitVersion(startVersion) == Some(p) && Atoi(p.body) == Some(start)
    requires Carries(p, currentVersion, curr)
    ensures GetNextBuildVersion(startVersion, currentVersion)
              == Version(Shaped(p, if start > curr then start else curr + 1))
       <==> curr < MAX_INT
    ensures curr == MAX_INT ==> GetNextBuildVersion(startVersion, currentVersion) == Version(Wrapped(p))
  {
    if curr < MAX_INT {
      NextFromCarried(p, startVersion, start, currentVersion, curr);
    } else {
      WrapFrom(p, startVersion, start, currentVersion);
      WrappedIsNotShaped(p, curr + 1);
    }
  }

  /** The start version is itself in the shape. */
  lemma StartIsShaped(startVersion: string, p: Parts, start: nat)
    requires SplitVersion(startVersion) == Some(p) && Atoi(p.body) == Some(start)
    ensures Shaped(p, start) == startVersion && start <= MAX_INT
  {
    SplitShape(startVersion);
    AtoiOfDigits(p.body);
    PadOfDigits(p.body);
  }

  lemma CarriedReturnsStartIff(startVersion: string, p: Parts, start: nat, currentVersion: string, curr: int)
    requires SplitVersion(startVersion) == Some(p) && Atoi(p.body) == Some(start)
    requires Carries(p, currentVersion, curr)
    ensures GetNextBuildVersion(startVersion, currentVersion) == Version(startVersion) <==> start > curr
  {
    NextIsShapedIff(startVersion, p, start, currentVersion, curr);
    StartIsShaped(startVersion, p, start);
    if start <= curr {
      if curr == MAX_INT {
        WrappedIsNotShaped(p, start);
      } else if Shaped(p, curr + 1) == Shaped(p, start) {
        ShapedInjective(p, curr + 1, start);
      }
    }
  }

  /** The current version lacks the prefix or the suffix, carries no number between them, or carries
      one below the start version's. */
  predicate KeepsStart(p: Parts, currentVersion: string) {
    || !(p.prefix <= currentVersion && HasSuffix(currentVersion, p.suffix))
    || (&& |p.prefix| + |p.suffix| <= |currentVersion|
        && (|| Atoi(Middle(p, currentVersion)) == None
            || (Atoi(p.body).Some? && Atoi(Middle(p, currentVersion)).value < Atoi(p.body).value)))
  }

  lemma PartsReturnStartIff(startVersion: string, p: Parts, currentVersion: string)
    requires SplitVersion(startVersion) == Some(p)
    ensures NextFrom(p, startVersion, currentVersion) == Version(startVersion) <==> KeepsStart(p, currentVersion)
  {
    if p.prefix <= currentVersion && HasSuffix(currentVersion, p.suffix)
       && |p.prefix| + |p.suffix| <= |currentVersion| {
      var curr, start := Atoi(Middle(p, currentVersion)), Atoi(p.body);
      if curr.Some? && start.Some? {
        BodyIsNatural(startVersion, p);
        CarriedReturnsStartIff(startVersion, p, start.value, currentVersion, curr.value);
      }
    }
  }

  lemma BodyIsNatural(startVersion: string, p: Parts)
    requires SplitVersion(startVersion) == Some(p) && Atoi(p.body).Some?
    ensures Atoi(p.body).value >= 0
  {
    SplitShape(startVersion);
    AtoiOfDigits(p.body);
  }

  /** The start version comes back unchanged exactly when it has no number or the current version does
      not outrun it. */
  lemma ReturnsStartIff(startVersion: string, currentVersion: string)
    ensures GetNextBuildVersion(startVersion, currentVersion) == Version(startVersion)
       <==> var p := SplitVersion(startVersion); p == None || KeepsStart(p.value, currentVersion)
  {
    if SplitVersion(startVersion).Some? {
      PartsReturnStartIff(startVersion, SplitVersion(startVersion).value, currentVersion);
    }
  }

  /** k steps of a version counter. */
  function Iterate(next: string -> Next, current: string, k: nat): Next
    decreases k
  {
    if k == 0 then Version(current)
    else
      match next(current)
      case Panic => Panic
      case Version(v) => Iterate(next, v, k - 1)
  }

  ghost predicate StepsTo(next: string -> Next, at: nat -> string, i: nat) {
    next(at(i)) == Version(at(i + 1))
  }

  lemma {:induction false} IterateSteps(next: string -> Next, at: nat -> string, n: nat, k: nat)
    requires forall i: nat | n <= i < n + k :: StepsTo(next, at, i)
    ensures Iterate(next, at(n), k) == Version(at(n + k))
    decreases k
  {
    if k > 0 {
      assert StepsTo(next, at, n);
      IterateSteps(next, at, n + 1, k - 1);
    }
  }

  function NextFor(startVersion: string): string -> Next {
    current => GetNextBuildVersion(startVersion, current)
  }

  /** Iterating stays in the shape forever, as long as the number fits: from n on, k steps give n + k,
      so no version ever repeats. */
  lemma IterateCounts(startVersion: string, p: Parts, start: nat, n: nat, k: nat)
    requires SplitVersion(startVersion) == Some(p) && Atoi(p.body) == Some(start) && start <= n && n + k <= MAX_INT
    ensures Iterate(NextFor(startVersion), Shaped(p, n), k) == Version(Shaped(p, n + k))
  {
    var at := (i: nat) => Shaped(p, i);
    forall i: nat | n <= i < n + k
      ensures StepsTo(NextFor(startVersion), at, i)
    {
      NextOfShaped(startVersion, p, start, i);
    }
    IterateSteps(NextFor(startVersion), at, n, k);
  }

  lemma ShapedInjective(p: Parts, m: nat, n: nat)
    requires m <= MAX_INT && n <= MAX_INT && Shaped(p, m) == Shaped(p, n)
    ensures m == n
  {
    ShapedMiddle(p, m);
    ShapedMiddle(p, n);
    AtoiOfPad(m, |p.body|);
    AtoiOfPad(n, |p.body|);
  }
}
