/**
 * The .NET string operations that the rules-file loader relies on:
 * `String.Trim()`, `String.Split(char)` and `Int32.Parse(string)`.
 * Only the behaviour the loader can observe is modelled.
 */
module Text {
  import opened Wrappers

  // ---------------------------------------------------------------------------
  // String.Trim
  // ---------------------------------------------------------------------------

  /** `Char.IsWhiteSpace`: the characters of the Unicode White_Space property. */
  const WhiteSpace: set<char> := {
    '\t', '\n', '\U{B}', '\U{C}', '\r', ' ', '\U{85}', '\U{A0}', '\U{1680}',
    '\U{2000}', '\U{2001}', '\U{2002}', '\U{2003}', '\U{2004}', '\U{2005}', '\U{2006}',
    '\U{2007}', '\U{2008}', '\U{2009}', '\U{200A}', '\U{2028}', '\U{2029}', '\U{202F}',
    '\U{205F}', '\U{3000}'}

  predicate IsWhiteSpace(ch: char) {
    ch in WhiteSpace
  }

  /** `s` without its leading white space. */
  function TrimStart(s: string): (r: string)
    ensures |r| <= |s|
  {
    if s != [] && IsWhiteSpace(s[0]) then TrimStart(s[1..]) else s
  }

  /** `s` without its trailing white space. */
  function TrimEnd(s: string): (r: string)
    ensures |r| <= |s|
  {
    if s != [] && IsWhiteSpace(s[|s| - 1]) then TrimEnd(s[..|s| - 1]) else s
  }

  /** `String.Trim()`: white space removed from both ends. */
  function Trim(s: string): (r: string)
    ensures |r| <= |s|
  {
    TrimEnd(TrimStart(s))
  }

  /** TrimStart removes a run of white space from the front and stops at the first other character. */
  lemma {:induction false} TrimStartShape(s: string)
    ensures var r := TrimStart(s);
      && r == s[|s| - |r|..]
      && (forall k :: 0 <= k < |s| - |r| ==> IsWhiteSpace(s[k]))
      && (r == [] || !IsWhiteSpace(r[0]))
  {
    if s != [] && IsWhiteSpace(s[0]) {
      TrimStartShape(s[1..]);
    }
  }

  /** TrimEnd removes a run of white space from the back and stops at the last other character. */
  lemma {:induction false} TrimEndShape(s: string)
    ensures var r := TrimEnd(s);
      && r == s[..|r|]
      && (forall k :: |r| <= k < |s| ==> IsWhiteSpace(s[k]))
      && (r == [] || !IsWhiteSpace(r[|r| - 1]))
  {
    if s != [] && IsWhiteSpace(s[|s| - 1]) {
      TrimEndShape(s[..|s| - 1]);
    }
  }

  /**
   * Trim leaves the slice `s[i..i + |Trim(s)|]`: everything before and after it
   * is white space, and its first and last characters are not.
   */
  lemma TrimShape(s: string)
    ensures var r, i := Trim(s), |s| - |TrimStart(s)|;
      && i + |r| <= |s| && r == s[i..i + |r|]
      && (forall k :: 0 <= k < i ==> IsWhiteSpace(s[k]))
      && (forall k :: i + |r| <= k < |s| ==> IsWhiteSpace(s[k]))
      && (r == [] || (!IsWhiteSpace(r[0]) && !IsWhiteSpace(r[|r| - 1])))
  {
    TrimStartShape(s);
    TrimSlice(s);
    TrimEnds(s);
  }

  /** What TrimEnd keeps of TrimStart's suffix is a slice of `s` followed only by white space. */
  lemma TrimSlice(s: string)
    ensures var r, i := Trim(s), |s| - |TrimStart(s)|;
      && i + |r| <= |s| && r == s[i..i + |r|]
      && (forall k :: i + |r| <= k < |s| ==> IsWhiteSpace(s[k]))
  {
    var a := TrimStart(s);
    TrimStartShape(s);
    TrimEndShape(a);
    PrefixOfSuffix(s, a, TrimEnd(a));
  }

  /** A prefix `r` of a suffix `a` of `s`, followed in `a` only by white space, is a slice of `s` so followed. */
  lemma PrefixOfSuffix(s: string, a: string, r: string)
    requires |a| <= |s| && a == s[|s| - |a|..]
    requires |r| <= |a| && r == a[..|r|]
    requires forall k :: |r| <= k < |a| ==> IsWhiteSpace(a[k])
    ensures var i := |s| - |a|;
      && r == s[i..i + |r|]
      && (forall k :: i + |r| <= k < |s| ==> IsWhiteSpace(s[k]))
  {
    var i := |s| - |a|;
    SliceOfSuffix(s, i, |r|);
    forall k | i + |r| <= k < |s|
      ensures IsWhiteSpace(s[k])
    {
      assert s[k] == a[k - i];
    }
  }

  /** The trimmed string neither starts nor ends with white space. */
  lemma TrimEnds(s: string)
    ensures var r := Trim(s); r == [] || (!IsWhiteSpace(r[0]) && !IsWhiteSpace(r[|r| - 1]))
  {
    var a := TrimStart(s);
    TrimStartShape(s);
    TrimEndShape(a);
    var r := TrimEnd(a);
    if r != [] {
      assert r[0] == a[0];
    }
  }

  /** The first `n` characters of the suffix from `i` are the slice from `i` to `i + n`. */
  lemma SliceOfSuffix(s: string, i: nat, n: nat)
    requires i + n <= |s|
    ensures s[i..][..n] == s[i..i + n]
  {
  }

  /** Trimming keeps exactly the characters from the first to the last non-white one. */
  lemma TrimKeepsInner(s: string, i: nat, j: nat)
    requires i < j <= |s|
    requires forall k :: 0 <= k < i ==> IsWhiteSpace(s[k])
    requires forall k :: j <= k < |s| ==> IsWhiteSpace(s[k])
    requires !IsWhiteSpace(s[i]) && !IsWhiteSpace(s[j - 1])
    ensures Trim(s) == s[i..j]
  {
    TrimShape(s);
    var r, i0 := Trim(s), |s| - |TrimStart(s)|;
    assert r != [];
    assert r[0] == s[i0];
    assert i0 == i;
    assert r[|r| - 1] == s[i0 + |r| - 1];
    assert i0 + |r| == j;
  }

  /** A string trims to the empty string exactly when it is white space throughout. */
  lemma TrimEmpty(s: string)
    ensures Trim(s) == [] <==> forall k :: 0 <= k < |s| ==> IsWhiteSpace(s[k])
  {
    TrimShape(s);
    if Trim(s) != [] {
      assert !IsWhiteSpace(s[|s| - |TrimStart(s)|]);
    }
  }

  /** Trimming only removes characters. */
  lemma TrimSubset(s: string)
    ensures forall c :: c in Trim(s) ==> c in s
  {
    TrimShape(s);
  }

  // ---------------------------------------------------------------------------
  // String.Split(char) and its inverse, String.Join
  // ---------------------------------------------------------------------------

  /** The position of the first `c` in `s`. */
  function IndexOf(s: string, c: char): (i: nat)
    requires c in s
    ensures i < |s| && s[i] == c && c !in s[..i]
  {
    if s[0] == c then 0
    else
      var j := IndexOf(s[1..], c);
      assert s[..j + 1] == [s[0]] + s[1..][..j];
      j + 1
  }

  /** Any position holding `c` with no `c` before it is the one `IndexOf` finds. */
  lemma IndexOfUnique(s: string, c: char, i: nat)
    requires i < |s| && s[i] == c && c !in s[..i]
    ensures IndexOf(s, c) == i
  {
  }

  /** `String.Split(sep)`: the pieces of `s` between the occurrences of `sep`, empty pieces kept. */
  function Split(s: string, sep: char): (parts: seq<string>)
    ensures |parts| >= 1
    decreases |s|
  {
    if sep !in s then [s]
    else
      var i := IndexOf(s, sep);
      [s[..i]] + Split(s[i + 1..], sep)
  }

  /** A split yields a single piece exactly when there is no separator, and no piece contains one. */
  lemma {:induction false} SplitPieces(s: string, sep: char)
    ensures |Split(s, sep)| == 1 <==> sep !in s
    ensures forall k :: 0 <= k < |Split(s, sep)| ==> sep !in Split(s, sep)[k]
    decreases |s|
  {
    if sep in s {
      var i := IndexOf(s, sep);
      SplitPieces(s[i + 1..], sep);
    }
  }

  /** `String.Join(sep, parts)`: the pieces glued back together with `sep` between them. */
  function Join(parts: seq<string>, sep: char): (s: string)
    requires |parts| >= 1
    ensures |s| >= |parts| - 1
  {
    if |parts| == 1 then parts[0] else parts[0] + [sep] + Join(parts[1..], sep)
  }

  /** Joining a leading piece onto at least one more piece puts the separator between them. */
  lemma JoinCons(first: string, rest: seq<string>, sep: char)
    requires |rest| >= 1
    ensures Join([first] + rest, sep) == first + [sep] + Join(rest, sep)
  {
    assert ([first] + rest)[1..] == rest;
  }

  /** A string is the part before position `i`, the character there, and the part after. */
  lemma Reassemble(s: string, i: nat)
    requires i < |s|
    ensures s[..i] + [s[i]] + s[i + 1..] == s
  {
  }

  /** Joining the pieces of a split gives back the original string. */
  lemma {:induction false} JoinSplit(s: string, sep: char)
    ensures Join(Split(s, sep), sep) == s
    decreases |s|
  {
    if sep in s {
      var i := IndexOf(s, sep);
      var tail := s[i + 1..];
      JoinSplit(tail, sep);
      JoinCons(s[..i], Split(tail, sep), sep);
      Reassemble(s, i);
    }
  }

  /** Splitting a join of separator-free pieces gives back the pieces. */
  lemma {:induction false} SplitJoin(parts: seq<string>, sep: char)
    requires |parts| >= 1
    requires forall k :: 0 <= k < |parts| ==> sep !in parts[k]
    ensures Split(Join(parts, sep), sep) == parts
    decreases |parts|
  {
    if |parts| > 1 {
      SplitCons(parts[0], Join(parts[1..], sep), sep);
      SplitJoin(parts[1..], sep);
      assert [parts[0]] + parts[1..] == parts;
    }
  }

  /** A separator-free piece, a separator, then the rest: the piece comes first, then the rest's pieces. */
  lemma SplitCons(first: string, rest: string, sep: char)
    requires sep !in first
    ensures Split(first + [sep] + rest, sep) == [first] + Split(rest, sep)
  {
    var s := first + [sep] + rest;
    assert s[..|first|] == first;
    assert s[|first|] == sep;
    IndexOfUnique(s, sep, |first|);
    assert s[|first| + 1..] == rest;
  }

  /**
   * The first two pieces of a split: when `s` is `a`, a separator, then `b` and
   * then nothing or another separator, piece 0 is `a` and piece 1 is `b` —
   * whatever follows the second separator is in neither.
   */
  lemma SplitFirstFields(a: string, b: string, tail: string, sep: char)
    requires sep !in a && sep !in b
    requires tail == [] || tail[0] == sep
    ensures |Split(a + [sep] + b + tail, sep)| >= 2
    ensures Split(a + [sep] + b + tail, sep)[0] == a
    ensures Split(a + [sep] + b + tail, sep)[1] == b
  {
    var s := a + [sep] + b + tail;
    assert s[..|a|] == a;
    IndexOfUnique(s, sep, |a|);
    var t := s[|a| + 1..];
    assert t == b + tail;
    if tail == [] {
      assert t == b;
    } else {
      assert t[..|b|] == b;
      IndexOfUnique(t, sep, |b|);
    }
  }

  // ---------------------------------------------------------------------------
  // Int32.Parse and its inverse, Int32.ToString
  // ---------------------------------------------------------------------------

  const MinInt32: int := -0x8000_0000
  const MaxInt32: int := 0x7FFF_FFFF

  predicate IsAsciiDigit(ch: char) {
    '0' <= ch <= '9'
  }

  predicate AllDigits(s: string) {
    forall k :: 0 <= k < |s| ==> IsAsciiDigit(s[k])
  }

  function DigitValue(ch: char): (d: nat)
    requires IsAsciiDigit(ch)
    ensures d < 10
  {
    (ch as int) - ('0' as int)
  }

  function DigitChar(d: nat): (ch: char)
    requires d < 10
    ensures IsAsciiDigit(ch) && DigitValue(ch) == d
  {
    (('0' as int) + d) as char
  }

  /** The value of a string of decimal digits, most significant first. */
  function DigitsValue(s: string): nat
    requires AllDigits(s)
  {
    if s == [] then 0 else DigitsValue(s[..|s| - 1]) * 10 + DigitValue(s[|s| - 1])
  }

  /** The shortest decimal digit string of `n`. */
  function Digits(n: nat): (s: string)
    ensures s != [] && AllDigits(s)
    ensures s[0] != '-' && s[0] != '+'
  {
    if n < 10 then [DigitChar(n)] else Digits(n / 10) + [DigitChar(n % 10)]
  }

  lemma {:induction false} DigitsValueOfDigits(n: nat)
    ensures DigitsValue(Digits(n)) == n
  {
    if n >= 10 {
      var s := Digits(n);
      assert s[..|s| - 1] == Digits(n / 10);
      DigitsValueOfDigits(n / 10);
    }
  }

  /** The text after an optional leading `-` or `+`. */
  function Unsigned(s: string): (body: string)
    ensures |body| <= |s|
  {
    if s != [] && (s[0] == '-' || s[0] == '+') then s[1..] else s
  }

  /**
   * `Int32.Parse(s)` on a trimmed string: an optional `-` or `+` followed by
   * one or more decimal digits whose value fits in 32 bits. `None` stands for
   * the FormatException or OverflowException the .NET call throws.
   */
  function ParseInt32(s: string): (r: Option<int>)
    ensures r.Some? ==> MinInt32 <= r.value <= MaxInt32
    ensures r.Some? ==> s != [] && (IsAsciiDigit(s[0]) || s[0] == '-' || s[0] == '+')
  {
    var negative := s != [] && s[0] == '-';
    var body := Unsigned(s);
    if body == [] || !AllDigits(body) then None
    else
      var v: int := DigitsValue(body);
      var n := if negative then -v else v;
      if MinInt32 <= n <= MaxInt32 then Some(n) else None
  }

  /** `Int32.ToString()`: a leading `-` for negative values, then the digits. */
  function FormatInt(n: int): string {
    if n < 0 then ['-'] + Digits(-n) else Digits(n)
  }

  /** Every 32-bit value survives printing and parsing back. */
  lemma ParseFormat(n: int)
    requires MinInt32 <= n <= MaxInt32
    ensures ParseInt32(FormatInt(n)) == Some(n)
  {
    var s := FormatInt(n);
    if n < 0 {
      var body := Digits(-n);
      assert s == ['-'] + body && s[0] == '-' && s[1..] == body;
      DigitsValueOfDigits(-n);
      assert DigitsValue(body) == -n;
    } else {
      DigitsValueOfDigits(n);
      assert s == Digits(n) && s[0] != '-' && s[0] != '+';
    }
  }

  /** Values outside the 32-bit range are refused, as Int32.Parse's OverflowException. */
  lemma ParseRejectsOverflow(n: int)
    requires n < MinInt32 || MaxInt32 < n
    ensures ParseInt32(FormatInt(n)) == None
  {
    if n < 0 {
      assert FormatInt(n)[1..] == Digits(-n);
      DigitsValueOfDigits(-n);
    } else {
      DigitsValueOfDigits(n);
    }
  }

  /**
   * What a successful parse accepted: an optional sign, then at least one
   * digit and nothing but digits, whose value is the magnitude of the result;
   * only a `-` gives a negative result. So "12x", "1.5", "1e3", "+-1" and a
   * lone sign are all refused, as Int32.Parse's FormatException.
   */
  lemma ParseShape(s: string)
    requires ParseInt32(s).Some?
    ensures |s| >= 1 && (IsAsciiDigit(s[0]) || s[0] == '-' || s[0] == '+')
    ensures forall k :: 1 <= k < |s| ==> IsAsciiDigit(s[k])
    ensures (s[0] == '-' || s[0] == '+') ==> |s| >= 2
    ensures Unsigned(s) != [] && AllDigits(Unsigned(s))
    ensures var n := ParseInt32(s).value;
      DigitsValue(Unsigned(s)) == (if n < 0 then -n else n) && (n < 0 ==> s[0] == '-')
  {
    var body := Unsigned(s);
    forall k | 1 <= k < |s|
      ensures IsAsciiDigit(s[k])
    {
      if s[0] == '-' || s[0] == '+' {
        assert s[k] == body[k - 1];
      } else {
        assert s[k] == body[k];
      }
    }
  }

  /**
   * Every optional sign followed by digits whose signed value fits in 32 bits
   * parses to that value, zero padding (`08`, `-05`), a `+` and `-0` included.
   */
  lemma ParseAccepts(sign: string, b: string)
    requires sign == [] || sign == "-" || sign == "+"
    requires b != [] && AllDigits(b)
    requires MinInt32 <= (if sign == "-" then -(DigitsValue(b) as int) else DigitsValue(b)) <= MaxInt32
    ensures ParseInt32(sign + b) == Some(if sign == "-" then -(DigitsValue(b) as int) else DigitsValue(b))
  {
    if sign == [] {
      assert sign + b == b;
    } else {
      assert (sign + b)[0] == sign[0] && (sign + b)[1..] == b;
    }
  }

  /** `min.length=08` loads 8 and `max.consecutive-repeats=+3` loads 3. */
  lemma PaddedAndSignedValues()
    ensures ParseInt32("08") == Some(8) && ParseInt32("+3") == Some(3)
  {
    assert DigitsValue("08") == 8;
    ParseAccepts([], "08");
    assert DigitsValue("3") == 3;
    ParseAccepts("+", "3");
  }

  /** A decimal string as Int32.ToString prints it: no `+`, no leading zero, no `-0`. */
  predicate Canonical(s: string) {
    && s != [] && s[0] != '+'
    && var body := Unsigned(s);
      body != [] && (body[0] != '0' || s == "0")
  }

  /** A digit string without a leading zero has a positive value. */
  lemma {:induction false} LeadingDigitPositive(b: string)
    requires b != [] && AllDigits(b) && b[0] != '0'
    ensures DigitsValue(b) >= 1
    decreases |b|
  {
    if |b| > 1 {
      LeadingDigitPositive(b[..|b| - 1]);
    }
  }

  /** A digit string without a leading zero (or the single digit 0) is the printing of its value. */
  lemma {:induction false} DigitsOfValue(b: string)
    requires b != [] && AllDigits(b) && (b[0] != '0' || |b| == 1)
    ensures Digits(DigitsValue(b)) == b
    decreases |b|
  {
    if |b| == 1 {
      assert DigitsValue(b) == DigitValue(b[0]);
    } else {
      var pre := b[..|b| - 1];
      LeadingDigitPositive(pre);
      DigitsOfValue(pre);
      var v := DigitsValue(b);
      assert v / 10 == DigitsValue(pre) && v % 10 == DigitValue(b[|b| - 1]);
      assert b == pre + [b[|b| - 1]];
    }
  }

  /** Parsing then printing gives back every canonical string the parse accepts. */
  lemma FormatParse(s: string)
    requires ParseInt32(s).Some? && Canonical(s)
    ensures FormatInt(ParseInt32(s).value) == s
  {
    ParseShape(s);
    var body, n := Unsigned(s), ParseInt32(s).value;
    DigitsOfValue(body);
    if s[0] == '-' {
      LeadingDigitPositive(body);
      assert n == -(DigitsValue(body) as int) && n < 0;
      assert s == ['-'] + body;
    } else {
      assert n == DigitsValue(body) >= 0;
      assert s == body;
    }
  }
}
