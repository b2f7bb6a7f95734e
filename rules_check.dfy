/**
 * OPFRules.CheckPassword (OPFService/OPFRules.cs): the decision whether a
 * candidate password satisfies the loaded policy.
 *
 * `Accepts` states the decision declaratively (lengths, inspection window,
 * runs of equal characters, class minima); the method `CheckPassword` is the
 * source's single left-to-right scan with its counters and early returns,
 * proved to compute exactly `Accepts`.
 */
module RulesCheck {
  import opened Wrappers
  import opened RulesConfig

  // ---------------------------------------------------------------------------
  // Character classification
  // ---------------------------------------------------------------------------

  /**
   * The .NET predicates `Char.IsLetter`, `Char.IsUpper`, `Char.IsLower` and
   * `Char.IsDigit`, taken as given: their Unicode tables are not modelled.
   */
  datatype CharInfo = CharInfo(
    isLetter: char -> bool,
    isUpper: char -> bool,
    isLower: char -> bool,
    isDigit: char -> bool)

  /**
   * What the .NET predicates guarantee of each other: upper- and lower-case
   * characters are letters, no character has both cases, and no letter is a digit.
   */
  ghost predicate WellFormed(u: CharInfo) {
    forall ch ::
      && (u.isUpper(ch) ==> u.isLetter(ch))
      && (u.isLower(ch) ==> u.isLetter(ch))
      && !(u.isUpper(ch) && u.isLower(ch))
      && !(u.isLetter(ch) && u.isDigit(ch))
  }

  /** The counter a character of the window increments; `Caseless` letters increment none. */
  datatype Class = Upper | Lower | Numeric | Special | Caseless

  /** The branch the scan takes for `ch`: a letter by its case, else a digit, else a special character. */
  function Classify(u: CharInfo, ch: char): Class {
    if u.isLetter(ch) then
      if u.isUpper(ch) then Upper else if u.isLower(ch) then Lower else Caseless
    else if u.isDigit(ch) then Numeric
    else Special
  }

  /** Under the .NET guarantees, each class is exactly the characters its predicate selects. */
  lemma ClassifyMeaning(u: CharInfo, ch: char)
    requires WellFormed(u)
    ensures Classify(u, ch) == Upper <==> u.isUpper(ch)
    ensures Classify(u, ch) == Lower <==> u.isLower(ch)
    ensures Classify(u, ch) == Numeric <==> u.isDigit(ch)
    ensures Classify(u, ch) == Special <==> !u.isLetter(ch) && !u.isDigit(ch)
    ensures Classify(u, ch) == Caseless <==> u.isLetter(ch) && !u.isUpper(ch) && !u.isLower(ch)
  {
  }

  /** The number of characters of `s` in class `c`. */
  function Count(u: CharInfo, s: string, c: Class): (n: nat)
    ensures n <= |s|
  {
    if s == [] then 0
    else Count(u, s[..|s| - 1], c) + (if Classify(u, s[|s| - 1]) == c then 1 else 0)
  }

  /** Extending a prefix by one character adds it to its own class and to no other. */
  lemma CountStep(u: CharInfo, s: string, i: nat)
    requires i < |s|
    ensures Count(u, s[..i + 1], Upper) == Count(u, s[..i], Upper) + (if Classify(u, s[i]) == Upper then 1 else 0)
    ensures Count(u, s[..i + 1], Lower) == Count(u, s[..i], Lower) + (if Classify(u, s[i]) == Lower then 1 else 0)
    ensures Count(u, s[..i + 1], Numeric) == Count(u, s[..i], Numeric) + (if Classify(u, s[i]) == Numeric then 1 else 0)
    ensures Count(u, s[..i + 1], Special) == Count(u, s[..i], Special) + (if Classify(u, s[i]) == Special then 1 else 0)
  {
    assert s[..i + 1][..i] == s[..i];
  }

  /** A string holding a character of class `c` has a positive count for `c`. */
  lemma {:induction false} CountPositive(u: CharInfo, s: string, i: nat, c: Class)
    requires i < |s| && Classify(u, s[i]) == c
    ensures Count(u, s, c) >= 1
    decreases |s|
  {
    if i < |s| - 1 {
      CountPositive(u, s[..|s| - 1], i, c);
    }
  }

  /**
   * Every window character is counted in exactly one class, so the four
   * counters of the scan add up to the window length less its caseless letters.
   */
  lemma {:induction false} ClassesPartition(u: CharInfo, s: string)
    ensures Count(u, s, Upper) + Count(u, s, Lower) + Count(u, s, Numeric) + Count(u, s, Special)
            + Count(u, s, Caseless) == |s|
  {
    if s != [] {
      ClassesPartition(u, s[..|s| - 1]);
    }
  }

  // ---------------------------------------------------------------------------
  // Runs of equal characters
  // ---------------------------------------------------------------------------

  /** The initial value of `prevCh`. */
  const NUL: char := '\0'

  /** `s[i..i + n]` exists and is `n` copies of one character. */
  predicate Block(s: string, i: int, n: nat) {
    0 <= i && i + n <= |s| && forall j :: i <= j < i + n ==> s[j] == s[i]
  }

  predicate HasRun(s: string, n: nat) {
    exists i :: 0 <= i <= |s| && Block(s, i, n)
  }

  /** The length of the longest run of equal characters ending at position `k`. */
  function RunAt(s: string, k: nat): (r: nat)
    requires k < |s|
    ensures 1 <= r <= k + 1
  {
    if k == 0 || s[k - 1] != s[k] then 1 else RunAt(s, k - 1) + 1
  }

  /** The run ending at `k` is all one character, and the character before it differs. */
  lemma {:induction false} RunAtShape(s: string, k: nat)
    requires k < |s|
    ensures forall j :: k - RunAt(s, k) < j <= k ==> s[j] == s[k]
    ensures RunAt(s, k) <= k ==> s[k - RunAt(s, k)] != s[k]
  {
    if k > 0 && s[k - 1] == s[k] {
      RunAtShape(s, k - 1);
    }
  }

  /** A block of `n` equal characters makes the run ending at its last position at least `n` long. */
  lemma {:induction false} BlockRunAt(s: string, i: nat, n: nat)
    requires n >= 1 && Block(s, i, n)
    ensures RunAt(s, i + n - 1) >= n
    decreases n
  {
    if n > 1 {
      assert Block(s, i, n - 1);
      BlockRunAt(s, i, n - 1);
    }
  }

  /** A run of at least `n` ending at `k` is a block of `n` equal characters. */
  lemma RunAtBlock(s: string, k: nat, n: nat)
    requires k < |s| && RunAt(s, k) >= n
    ensures Block(s, k - n + 1, n)
  {
    RunAtShape(s, k);
  }

  /** A run of at least `n` anywhere is a block of `n`. */
  lemma RunAtHasRun(s: string, k: nat, n: nat)
    requires k < |s| && 1 <= n <= RunAt(s, k)
    ensures HasRun(s, n)
  {
    RunAtBlock(s, k, n);
  }

  /** When every run is shorter than `n`, no block of `n` exists. */
  lemma ShortRunsNoRun(s: string, n: nat)
    requires n >= 1 && forall k :: 0 <= k < |s| ==> RunAt(s, k) < n
    ensures !HasRun(s, n)
  {
    forall j | 0 <= j <= |s| && Block(s, j, n)
      ensures false
    {
      BlockRunAt(s, j, n);
    }
  }

  // ---------------------------------------------------------------------------
  // The acceptance decision
  // ---------------------------------------------------------------------------

  /** The length bounds, each switched off when `<= 0`. */
  predicate LengthOk(p: Policy, n: nat) {
    && !(p.minLength > 0 && n < p.minLength)
    && !(p.maxLength > 0 && n > p.maxLength)
  }

  /** The part of the password the class and repeat checks see: its first `inspectionLimit` characters. */
  function Window(p: Policy, password: string): (w: string)
    ensures |w| <= |password| && w == password[..|w|]
    ensures p.inspectionLimit > 0 ==> |w| == if |password| > p.inspectionLimit then p.inspectionLimit else |password|
    ensures p.inspectionLimit <= 0 ==> w == password
  {
    if p.inspectionLimit > 0 && |password| > p.inspectionLimit then password[..p.inspectionLimit]
    else password
  }

  /**
   * The repeat check rejects when the window, as the scan sees it — after the
   * initial `prevCh` of NUL — has `maxRepeats + 1` equal characters in a row.
   */
  predicate RepeatRejects(p: Policy, w: string) {
    p.maxRepeats > 0 && HasRun([NUL] + w, p.maxRepeats + 1)
  }

  /** The six minimum-count guards, each switched off when `<= 0`. */
  predicate MinimaMet(p: Policy, u: CharInfo, w: string) {
    var upper, lower := Count(u, w, Upper), Count(u, w, Lower);
    var numeric, special := Count(u, w, Numeric), Count(u, w, Special);
    && !(p.minUpper > 0 && upper < p.minUpper)
    && !(p.minLower > 0 && lower < p.minLower)
    && !(p.minNumeric > 0 && numeric < p.minNumeric)
    && !(p.minSpecial > 0 && special < p.minSpecial)
    && !(p.minAlpha > 0 && upper + lower < p.minAlpha)
    && !(p.minNonAlpha > 0 && numeric + special < p.minNonAlpha)
  }

  /**
   * Whether `CheckPassword` accepts `password` (`None` is a null string):
   * in permissive mode any non-empty password; otherwise one whose full length
   * is within bounds and whose inspection window has no over-long run and
   * meets every enabled minimum.
   */
  predicate Accepts(p: Policy, u: CharInfo, password: Option<string>) {
    if !p.foundFile then password.Some? && |password.value| > 0
    else
      && password.Some?
      && LengthOk(p, |password.value|)
      && !RepeatRejects(p, Window(p, password.value))
      && MinimaMet(p, u, Window(p, password.value))
  }

  /**
   * One step of the class counting: a letter by its case (a caseless letter
   * counts nowhere), else a digit, else a special character.
   */
  method Tally(u: CharInfo, ch: char, upper: nat, lower: nat, numeric: nat, special: nat)
    returns (upper': nat, lower': nat, numeric': nat, special': nat)
    ensures upper' == upper + (if Classify(u, ch) == Upper then 1 else 0)
    ensures lower' == lower + (if Classify(u, ch) == Lower then 1 else 0)
    ensures numeric' == numeric + (if Classify(u, ch) == Numeric then 1 else 0)
    ensures special' == special + (if Classify(u, ch) == Special then 1 else 0)
  {
    upper', lower', numeric', special' := upper, lower, numeric, special;
    if u.isLetter(ch) {
      if u.isUpper(ch) {
        upper' := upper + 1;
      } else if u.isLower(ch) {
        lower' := lower + 1;
      }
    } else if u.isDigit(ch) {
      numeric' := numeric + 1;
    } else {
      special' := special + 1;
    }
  }

  /**
   * One step of the repeat tracking, for the character `ch` at position
   * `i + 1` of the scanned sequence `seen` (NUL, then the window). The count
   * is one less than the run of equal characters ending at `ch`, and the flag
   * latches once that run exceeds `maxRepeats`.
   */
  method NextRun(p: Policy, ch: char, prevCh: char, prevCount: nat, repeatedChars: bool, ghost seen: string, ghost i: nat)
    returns (count: nat, repeated: bool)
    requires i + 1 < |seen| && seen[i] == prevCh && seen[i + 1] == ch
    requires prevCount == RunAt(seen, i) - 1
    ensures count == RunAt(seen, i + 1) - 1
    ensures repeated <==> repeatedChars || RunAt(seen, i + 1) > p.maxRepeats
  {
    if ch == prevCh {
      count := prevCount + 1;
    } else {
      count := 0;
    }
    repeated := repeatedChars || count > p.maxRepeats - 1;
  }

  /**
   * The scan of the window: one pass that counts the four classes and tracks
   * the current run of equal characters (`prevCh` starting as NUL), stopping
   * with `repeated` as soon as a run exceeds `maxRepeats`.
   */
  method ScanWindow(p: Policy, u: CharInfo, w: string)
    returns (upperCount: nat, lowerCount: nat, numericCount: nat, specialCount: nat, repeated: bool)
    ensures repeated == RepeatRejects(p, w)
    ensures !repeated ==>
      && upperCount == Count(u, w, Upper) && lowerCount == Count(u, w, Lower)
      && numericCount == Count(u, w, Numeric) && specialCount == Count(u, w, Special)
  {
    upperCount, lowerCount, numericCount, specialCount := 0, 0, 0, 0;
    var prevCh := NUL;
    var prevCount := 0;
    var repeatedChars := false;
    ghost var seen := [NUL] + w;
    for i := 0 to |w|
      invariant upperCount == Count(u, w[..i], Upper)
      invariant lowerCount == Count(u, w[..i], Lower)
      invariant numericCount == Count(u, w[..i], Numeric)
      invariant specialCount == Count(u, w[..i], Special)
      invariant prevCh == seen[i]
      invariant p.maxRepeats > 0 ==> prevCount == RunAt(seen, i) - 1
      invariant p.maxRepeats > 0 ==> forall k :: 0 <= k <= i ==> RunAt(seen, k) <= p.maxRepeats
      invariant !repeatedChars
    {
      var ch := w[i];
      CountStep(u, w, i);
      assert seen[i + 1] == ch;
      upperCount, lowerCount, numericCount, specialCount :=
        Tally(u, ch, upperCount, lowerCount, numericCount, specialCount);
      if p.maxRepeats > 0 {
        prevCount, repeatedChars := NextRun(p, ch, prevCh, prevCount, repeatedChars, seen, i);
        if repeatedChars {
          // fail fast: a run of maxRepeats + 1 equal characters ends here
          RunAtHasRun(seen, i + 1, p.maxRepeats + 1);
          return upperCount, lowerCount, numericCount, specialCount, true;
        }
        assert RunAt(seen, i + 1) <= p.maxRepeats;
      }
      prevCh := ch;
    }
    assert w[..|w|] == w;
    if p.maxRepeats > 0 {
      ShortRunsNoRun(seen, p.maxRepeats + 1);
    }
    repeated := false;
  }

  /**
   * `CheckPassword`: the permissive shortcut, the length guard, the truncation
   * to the inspection window, the scan, then the six minimum guards.
   */
  method CheckPassword(p: Policy, u: CharInfo, password: Option<string>) returns (ok: bool)
    ensures ok == Accepts(p, u, password)
  {
    if !p.foundFile {
      // no rules file: any non-null, non-empty password
      return password.Some? && |password.value| > 0;
    }
    if || password.None?
       || (p.minLength > 0 && |password.value| < p.minLength)
       || (p.maxLength > 0 && |password.value| > p.maxLength)
    {
      return false;
    }
    var pwdToCheck := password.value;
    if p.inspectionLimit > 0 && |password.value| > p.inspectionLimit {
      pwdToCheck := password.value[..p.inspectionLimit];
    }
    assert pwdToCheck == Window(p, password.value);
    var upperCount, lowerCount, numericCount, specialCount, repeatedChars := ScanWindow(p, u, pwdToCheck);
    if repeatedChars {
      return false;
    }
    if p.minUpper > 0 && upperCount < p.minUpper {
      return false;
    }
    if p.minLower > 0 && lowerCount < p.minLower {
      return false;
    }
    if p.minNumeric > 0 && numericCount < p.minNumeric {
      return false;
    }
    if p.minSpecial > 0 && specialCount < p.minSpecial {
      return false;
    }
    if p.minAlpha > 0 && upperCount + lowerCount < p.minAlpha {
      return false;
    }
    if p.minNonAlpha > 0 && numericCount + specialCount < p.minNonAlpha {
      return false;
    }
    return true;
  }

  // ---------------------------------------------------------------------------
  // Properties of the decision
  // ---------------------------------------------------------------------------

  /** Without a rules file only a null or empty password is refused, whatever the thresholds. */
  lemma PermissiveMode(p: Policy, u: CharInfo, password: Option<string>)
    requires !p.foundFile
    ensures Accepts(p, u, password) <==> password.Some? && |password.value| > 0
  {
  }

  /** A null password is refused in either mode. */
  lemma NullRejected(p: Policy, u: CharInfo)
    ensures !Accepts(p, u, None)
  {
  }

  /**
   * The length bounds apply to the whole password, not to the inspection
   * window: a password outside them is refused however its window looks.
   */
  lemma LengthOnFullPassword(p: Policy, u: CharInfo, password: string)
    requires p.foundFile && !LengthOk(p, |password|)
    ensures !Accepts(p, u, Some(password))
  {
  }

  /**
   * Past the inspection limit nothing matters but the length: two passwords
   * that agree on their first `inspectionLimit` characters and both meet the
   * length bounds get the same verdict.
   */
  lemma WindowDecides(p: Policy, u: CharInfo, a: string, b: string)
    requires p.foundFile && p.inspectionLimit > 0
    requires |a| >= p.inspectionLimit && |b| >= p.inspectionLimit
    requires a[..p.inspectionLimit] == b[..p.inspectionLimit]
    requires LengthOk(p, |a|) && LengthOk(p, |b|)
    ensures Accepts(p, u, Some(a)) == Accepts(p, u, Some(b))
  {
    assert Window(p, a) == a[..p.inspectionLimit];
    assert Window(p, b) == b[..p.inspectionLimit];
  }

  /** A block of `n` equal characters holds a block of every shorter length. */
  lemma BlockShrinks(s: string, i: int, n: nat, m: nat)
    requires Block(s, i, n) && m <= n
    ensures Block(s, i, m)
  {
  }

  /** Every block of the window is a block of what the scan sees, one position later. */
  lemma BlockShifts(w: string, i: nat, n: nat)
    requires Block(w, i, n)
    ensures Block([NUL] + w, i + 1, n)
  {
    var s := [NUL] + w;
    forall j | i + 1 <= j < i + 1 + n
      ensures s[j] == s[i + 1]
    {
      assert s[j] == w[j - 1];
    }
  }

  /** `maxRepeats + 1` equal characters in a row anywhere in the window make the password refused. */
  lemma LongRunRejected(p: Policy, u: CharInfo, password: string, i: nat)
    requires p.foundFile && p.maxRepeats > 0
    requires Block(Window(p, password), i, p.maxRepeats + 1)
    ensures !Accepts(p, u, Some(password))
  {
    BlockShifts(Window(p, password), i, p.maxRepeats + 1);
  }

  /**
   * The repeat boundary: when the window has no run of `maxRepeats + 1` and
   * does not start with NUL, the repeat check passes (runs of exactly
   * `maxRepeats` are allowed) and the verdict is the length and minimum checks.
   */
  lemma ShortRunsPass(p: Policy, u: CharInfo, password: string)
    requires p.foundFile && p.maxRepeats > 0
    requires var w := Window(p, password);
      !HasRun(w, p.maxRepeats + 1) && (w == [] || w[0] != NUL)
    ensures Accepts(p, u, Some(password))
        <==> LengthOk(p, |password|) && MinimaMet(p, u, Window(p, password))
  {
    var w := Window(p, password);
    var s := [NUL] + w;
    var n := p.maxRepeats + 1;
    forall j | 0 <= j <= |s|
      ensures !Block(s, j, n)
    {
      if j == 0 {
        if n <= |s| {
          assert s[1] == w[0];
        }
      } else if j + n <= |s| {
        assert !Block(w, j - 1, n);
        var k :| j - 1 <= k < j - 1 + n && w[k] != w[j - 1];
        assert s[k + 1] != s[j];
      }
    }
  }

  /**
   * The leading-NUL quirk: because `prevCh` starts as NUL, a window that
   * opens with `maxRepeats` NUL characters is refused although its run is
   * only `maxRepeats` long.
   */
  lemma LeadingNulsRejected(p: Policy, u: CharInfo, password: string)
    requires p.foundFile && p.maxRepeats > 0
    requires var w := Window(p, password);
      |w| >= p.maxRepeats && forall k :: 0 <= k < p.maxRepeats ==> w[k] == NUL
    ensures !Accepts(p, u, Some(password))
  {
    var w := Window(p, password);
    var s := [NUL] + w;
    forall j | 0 <= j < p.maxRepeats + 1
      ensures s[j] == s[0]
    {
      if j > 0 {
        assert s[j] == w[j - 1];
      }
    }
    assert Block(s, 0, p.maxRepeats + 1);
  }

  /**
   * `q` is `p` with nothing made stricter: every minimum lowered or switched
   * off, the maximum length and maximum run raised or switched off, and the
   * mode and inspection limit unchanged.
   */
  predicate Relaxes(q: Policy, p: Policy) {
    && q.foundFile == p.foundFile
    && q.inspectionLimit == p.inspectionLimit
    && q.minLength <= p.minLength
    && (q.maxLength <= 0 || (p.maxLength > 0 && q.maxLength >= p.maxLength))
    && q.minUpper <= p.minUpper
    && q.minLower <= p.minLower
    && q.minAlpha <= p.minAlpha
    && q.minNonAlpha <= p.minNonAlpha
    && q.minSpecial <= p.minSpecial
    && q.minNumeric <= p.minNumeric
    && (q.maxRepeats <= 0 || (p.maxRepeats > 0 && q.maxRepeats >= p.maxRepeats))
  }

  /** Relaxing a policy never turns an accepted password into a refused one. */
  lemma Monotonic(p: Policy, q: Policy, u: CharInfo, password: Option<string>)
    requires Relaxes(q, p) && Accepts(p, u, password)
    ensures Accepts(q, u, password)
  {
    if q.foundFile && q.maxRepeats > 0 {
      var w := Window(p, password.value);
      assert Window(q, password.value) == w;
      if HasRun([NUL] + w, q.maxRepeats + 1) {
        var j :| 0 <= j <= |[NUL] + w| && Block([NUL] + w, j, q.maxRepeats + 1);
        BlockShrinks([NUL] + w, j, q.maxRepeats + 1, p.maxRepeats + 1);
      }
    }
  }

  // ---------------------------------------------------------------------------
  // Worked examples
  // ---------------------------------------------------------------------------

  /** A classifier for ASCII letters and digits plus one letter without case, U+4E2D. */
  const Sample: CharInfo := CharInfo(
    ch => ('A' <= ch <= 'Z') || ('a' <= ch <= 'z') || ch == '\U{4E2D}',
    ch => 'A' <= ch <= 'Z',
    ch => 'a' <= ch <= 'z',
    ch => '0' <= ch <= '9')

  /**
   * `Sample` meets the guarantees the .NET predicates give, so the worked
   * examples below are about a classifier the runtime could be.
   */
  lemma SampleWellFormed()
    ensures WellFormed(Sample)
  {
  }

  /** The built-in defaults with a rules file present. */
  const Strict: Policy := Initial.(foundFile := true)

  /** With no two equal neighbours there is no block longer than one. */
  lemma NoEqualNeighbours(s: string, n: nat)
    requires n >= 2 && forall k :: 0 < k < |s| ==> s[k - 1] != s[k]
    ensures !HasRun(s, n)
  {
    forall i | 0 <= i <= |s|
      ensures !Block(s, i, n)
    {
      if i + n <= |s| {
        assert s[i + 1] != s[i];
      }
    }
  }

  lemma DefaultsAcceptMixed()
    ensures Accepts(Strict, Sample, Some("Abcdef1!"))
  {
    var w := "Abcdef1!";
    assert Window(Strict, w) == w;
    NoEqualNeighbours([NUL] + w, 3);
    CountPositive(Sample, w, 0, Upper);
    CountPositive(Sample, w, 1, Lower);
    CountPositive(Sample, w, 6, Numeric);
    CountPositive(Sample, w, 7, Special);
  }

  lemma DefaultsRejectTriple()
    ensures !Accepts(Strict, Sample, Some("aaaBBB11!!"))
  {
    var w := "aaaBBB11!!";
    assert Window(Strict, w) == w;
    assert Block(w, 0, 3);
    LongRunRejected(Strict, Sample, w, 0);
  }

  /** "Password1!" holds a run of two ("ss") but none of three. */
  lemma DoubledWithinLimit()
    ensures !RepeatRejects(Strict, "Password1!")
  {
    var s := [NUL] + "Password1!";
    forall i | 0 <= i <= |s|
      ensures !Block(s, i, 3)
    {
      if i + 3 <= |s| {
        if i == 3 {
          assert s[5] != s[3];
        } else {
          assert s[i + 1] != s[i];
        }
      }
    }
  }

  /** A run of exactly `maxRepeats` ("ss") passes; the password is refused later only by the dictionary. */
  lemma DefaultsAcceptDoubled()
    ensures Accepts(Strict, Sample, Some("Password1!"))
  {
    var w := "Password1!";
    assert Window(Strict, w) == w;
    DoubledWithinLimit();
    CountPositive(Sample, w, 0, Upper);
    CountPositive(Sample, w, 1, Lower);
    CountPositive(Sample, w, 8, Numeric);
    CountPositive(Sample, w, 9, Special);
  }
}
