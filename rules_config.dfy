/**
 * The password policy of OPFRules (OPFService/OPFRules.cs) and how it is read
 * from the optional `key=value` rules file when the service starts.
 *
 * OPFRules assigns its ten thresholds only inside its constructor and never
 * changes them afterwards, so the policy is an immutable value here. The rules
 * file is `Option<seq<string>>`: `None` when the file does not exist, otherwise
 * its lines as `StreamReader.ReadLine` returns them.
 */
module RulesConfig {
  import opened Wrappers
  import opened Text

  // ---------------------------------------------------------------------------
  // Keys and compiled-in defaults
  // ---------------------------------------------------------------------------

  const KeyMinUpper: string := "min.uppercase"
  const KeyMinLower: string := "min.lowercase"
  const KeyMaxRepeats: string := "max.consecutive-repeats"
  const KeyMaxLength: string := "max.length"
  const KeyMinLength: string := "min.length"
  const KeyMinAlpha: string := "min.alpha"
  const KeyMinNonAlpha: string := "min.non-alpha"
  const KeyMinNumeric: string := "min.numeric"
  const KeyMinSpecial: string := "min.special"
  const KeyInspectionLimit: string := "inspection.limit"

  /** The recognised keys, in the order the constructor looks them up. */
  const Keys: seq<string> := [KeyMaxLength, KeyMinLength, KeyMinLower, KeyMinUpper, KeyMinNumeric,
                              KeyMinSpecial, KeyMaxRepeats, KeyMinAlpha, KeyMinNonAlpha, KeyInspectionLimit]

  const DefaultMinLength: int := 8
  const DefaultMaxLength: int := -1
  const DefaultMinUpper: int := 1
  const DefaultMinLower: int := 1
  // The combined minima are fixed sums of the compiled component defaults.
  const DefaultMinAlpha: int := DefaultMinUpper + DefaultMinLower
  const DefaultMinNumeric: int := 1
  const DefaultMinSpecial: int := 1
  const DefaultMinNonAlpha: int := DefaultMinNumeric + DefaultMinSpecial
  const DefaultMaxRepeats: int := 2
  const DefaultInspectionLimit: int := -1

  /**
   * The thresholds of OPFRules. A threshold `<= 0` is switched off;
   * `foundFile` is false in permissive mode, when no rules file exists.
   */
  datatype Policy = Policy(
    minLength: int,
    maxLength: int,
    minUpper: int,
    minLower: int,
    minAlpha: int,
    minNonAlpha: int,
    minSpecial: int,
    minNumeric: int,
    maxRepeats: int,
    inspectionLimit: int,
    foundFile: bool)

  /** The field initialisers: what an OPFRules holds before its rules file is read. */
  const Initial: Policy := Policy(
    DefaultMinLength, DefaultMaxLength, DefaultMinUpper, DefaultMinLower, DefaultMinAlpha,
    DefaultMinNonAlpha, DefaultMinSpecial, DefaultMinNumeric, DefaultMaxRepeats,
    DefaultInspectionLimit, false)

  /** The threshold that the recognised key `Keys[i]` sets. */
  function Field(p: Policy, i: nat): int
    requires i < |Keys|
  {
    if i == 0 then p.maxLength
    else if i == 1 then p.minLength
    else if i == 2 then p.minLower
    else if i == 3 then p.minUpper
    else if i == 4 then p.minNumeric
    else if i == 5 then p.minSpecial
    else if i == 6 then p.maxRepeats
    else if i == 7 then p.minAlpha
    else if i == 8 then p.minNonAlpha
    else p.inspectionLimit
  }

  // ---------------------------------------------------------------------------
  // Reading the lines of the rules file
  // ---------------------------------------------------------------------------

  /** What one line of the rules file contributes. */
  datatype LineKind =
    | Ignored                          // blank after trimming, or a `#` comment
    | Faulty                           // no `=`: `vals[1]` throws; caught, logged, skipped
    | Entry(key: string, value: string)

  /**
   * One line: trimmed, skipped when blank or a comment, otherwise split on
   * EVERY `=`, so the value is the text between the first and the second `=`.
   */
  function ParseLine(line: string): (kind: LineKind)
    ensures kind.Faulty? ==> '=' !in line
    ensures kind.Entry? ==> '=' !in kind.key && '=' !in kind.value
  {
    var t := Trim(line);
    if |t| == 0 || t[0] == '#' then Ignored
    else
      var vals := Split(t, '=');
      SplitPieces(t, '=');
      if |vals| < 2 then
        TrimShape(line);
        Faulty
      else
        TrimSubset(vals[0]);
        TrimSubset(vals[1]);
        Entry(Trim(vals[0]), Trim(vals[1]))
  }

  /** What each line of the file contributes, in file order. */
  function Kinds(lines: seq<string>): (kinds: seq<LineKind>)
    ensures |kinds| == |lines|
    ensures forall j :: 0 <= j < |lines| ==> kinds[j] == ParseLine(lines[j])
  {
    if lines == [] then [] else Kinds(lines[..|lines| - 1]) + [ParseLine(lines[|lines| - 1])]
  }

  /** The dictionary that a run of line contributions leaves behind: a later entry overwrites an earlier one. */
  function Collect(kinds: seq<LineKind>): map<string, string> {
    if kinds == [] then map[]
    else
      var before := Collect(kinds[..|kinds| - 1]);
      match kinds[|kinds| - 1]
      case Entry(k, v) => before[k := v]
      case _ => before
  }

  /** The `props` dictionary after every line of the file has been read. */
  function Props(lines: seq<string>): map<string, string> {
    Collect(Kinds(lines))
  }

  // ---------------------------------------------------------------------------
  // GetIntVal and the constructor
  // ---------------------------------------------------------------------------

  /** `Int32.Parse` threw on the value of `key` (FormatException or OverflowException). */
  datatype LoadError = NotAnInt32(key: string, value: string)

  /** `GetIntVal`: the parsed value of `key`, or `defaultVal` when the key is absent or empty. */
  function GetIntVal(d: map<string, string>, key: string, defaultVal: int): (r: Result<int, LoadError>)
    ensures (key !in d || d[key] == []) ==> r == Success(defaultVal)
    ensures key in d && d[key] != [] ==>
              (r.Success? <==> ParseInt32(d[key]).Some?) &&
              (r.Success? ==> Some(r.value) == ParseInt32(d[key]))
    ensures r.Failure? ==> r.error == NotAnInt32(key, d[key])
  {
    if key in d && |d[key]| > 0 then
      match ParseInt32(d[key])
      case Some(n) => Success(n)
      case None => Failure(NotAnInt32(key, d[key]))
    else Success(defaultVal)
  }

  /**
   * The ten lookups that end the constructor, in source order, over the filled
   * dictionary; the first value that is not a 32-bit integer aborts construction.
   */
  function Thresholds(props: map<string, string>): (r: Result<Policy, LoadError>)
    ensures r.Success? ==> r.value.foundFile
  {
    var maxLength :- GetIntVal(props, KeyMaxLength, Initial.maxLength);
    var minLength :- GetIntVal(props, KeyMinLength, Initial.minLength);
    var minLower :- GetIntVal(props, KeyMinLower, Initial.minLower);
    var minUpper :- GetIntVal(props, KeyMinUpper, Initial.minUpper);
    var minNumeric :- GetIntVal(props, KeyMinNumeric, Initial.minNumeric);
    var minSpecial :- GetIntVal(props, KeyMinSpecial, Initial.minSpecial);
    var maxRepeats :- GetIntVal(props, KeyMaxRepeats, Initial.maxRepeats);
    var minAlpha :- GetIntVal(props, KeyMinAlpha, Initial.minAlpha);
    var minNonAlpha :- GetIntVal(props, KeyMinNonAlpha, Initial.minNonAlpha);
    var inspectionLimit :- GetIntVal(props, KeyInspectionLimit, Initial.inspectionLimit);
    Success(Policy(minLength, maxLength, minUpper, minLower, minAlpha, minNonAlpha,
                   minSpecial, minNumeric, maxRepeats, inspectionLimit, true))
  }

  /**
   * The constructor as a function of the file: permissive mode when the file is
   * missing, otherwise the lookups over the dictionary the file's lines fill.
   */
  function Load(file: Option<seq<string>>): (r: Result<Policy, LoadError>)
    ensures file.None? ==> r == Success(Initial)
    ensures r.Success? ==> r.value.foundFile == file.Some?
  {
    match file
    case None => Success(Initial)
    case Some(lines) => Thresholds(Props(lines))
  }

  /** Reading one more line updates the dictionary by that line's contribution alone. */
  lemma PropsStep(lines: seq<string>, n: nat)
    requires n < |lines|
    ensures Props(lines[..n + 1]) == match ParseLine(lines[n])
      case Entry(k, v) => Props(lines[..n])[k := v]
      case _ => Props(lines[..n])
  {
    assert lines[..n + 1][..n] == lines[..n];
    assert Kinds(lines[..n + 1]) == Kinds(lines[..n]) + [ParseLine(lines[n])];
    assert (Kinds(lines[..n]) + [ParseLine(lines[n])])[..n] == Kinds(lines[..n]);
  }

  /**
   * The OPFRules constructor: a `while ReadLine` loop that fills the `props`
   * dictionary in place, then the ten thresholds looked up in it.
   */
  method LoadRules(file: Option<seq<string>>) returns (r: Result<Policy, LoadError>)
    ensures r == Load(file)
  {
    if file.None? {
      // the missing file is logged and the thresholds keep their initialisers
      return Success(Initial);
    }
    var lines := file.value;
    var props: map<string, string> := map[];
    var n := 0;
    while n < |lines|
      invariant 0 <= n <= |lines|
      invariant props == Props(lines[..n])
    {
      PropsStep(lines, n);
      var line := Trim(lines[n]);
      if |line| == 0 || line[0] == '#' {
        n := n + 1;
        continue;
      }
      var vals := Split(line, '=');
      if |vals| >= 2 {
        props := props[Trim(vals[0]) := Trim(vals[1])];
      }
      // with fewer than two pieces `vals[1]` throws; the catch logs the line and reading goes on
      n := n + 1;
    }
    assert lines[..n] == lines;
    assert props == Props(lines);
    var maxLength :- GetIntVal(props, KeyMaxLength, Initial.maxLength);
    var minLength :- GetIntVal(props, KeyMinLength, Initial.minLength);
    var minLower :- GetIntVal(props, KeyMinLower, Initial.minLower);
    var minUpper :- GetIntVal(props, KeyMinUpper, Initial.minUpper);
    var minNumeric :- GetIntVal(props, KeyMinNumeric, Initial.minNumeric);
    var minSpecial :- GetIntVal(props, KeyMinSpecial, Initial.minSpecial);
    var maxRepeats :- GetIntVal(props, KeyMaxRepeats, Initial.maxRepeats);
    var minAlpha :- GetIntVal(props, KeyMinAlpha, Initial.minAlpha);
    var minNonAlpha :- GetIntVal(props, KeyMinNonAlpha, Initial.minNonAlpha);
    var inspectionLimit :- GetIntVal(props, KeyInspectionLimit, Initial.inspectionLimit);
    r := Success(Policy(minLength, maxLength, minUpper, minLower, minAlpha, minNonAlpha,
                        minSpecial, minNumeric, maxRepeats, inspectionLimit, true));
  }

  // ---------------------------------------------------------------------------
  // What loading promises
  // ---------------------------------------------------------------------------

  /** A line whose trimmed text is `key=value`, possibly followed by a further `=...`, is that entry. */
  lemma EntryLine(line: string, key: string, value: string, tail: string)
    requires Trim(line) == key + "=" + value + tail
    requires '=' !in key && '=' !in value && (tail == [] || tail[0] == '=')
    requires key != [] ==> key[0] != '#'
    ensures ParseLine(line) == Entry(Trim(key), Trim(value))
  {
    SplitFirstFields(key, value, tail, '=');
    assert Trim(line) == key + ['='] + value + tail;
  }

  /** A line without `=` that is not blank or a comment is faulty, and so is skipped. */
  lemma LineWithoutEquals(line: string)
    requires '=' !in line
    ensures !ParseLine(line).Entry?
  {
    TrimSubset(line);
  }

  predicate DefinesKey(kind: LineKind, key: string) {
    kind.Entry? && kind.key == key
  }

  /** In a run of line contributions, the value recorded for a key is that of its last entry. */
  lemma {:induction false} CollectLastWins(kinds: seq<LineKind>, i: nat, key: string)
    requires i < |kinds| && DefinesKey(kinds[i], key)
    requires forall j :: i < j < |kinds| ==> !DefinesKey(kinds[j], key)
    ensures key in Collect(kinds) && Collect(kinds)[key] == kinds[i].value
  {
    if i < |kinds| - 1 {
      var init := kinds[..|kinds| - 1];
      assert forall j :: i < j < |init| ==> init[j] == kinds[j];
      CollectLastWins(init, i, key);
    }
  }

  /** A key with no entry is absent from the dictionary. */
  lemma {:induction false} CollectAbsent(kinds: seq<LineKind>, key: string)
    requires forall j :: 0 <= j < |kinds| ==> !DefinesKey(kinds[j], key)
    ensures key !in Collect(kinds)
  {
    if kinds != [] {
      var init := kinds[..|kinds| - 1];
      assert forall j :: 0 <= j < |init| ==> init[j] == kinds[j];
      CollectAbsent(init, key);
    }
  }

  /** A contribution that is not an entry can be dropped from anywhere without changing the dictionary. */
  lemma {:induction false} CollectSkips(before: seq<LineKind>, kind: LineKind, after: seq<LineKind>)
    requires !kind.Entry?
    ensures Collect(before + [kind] + after) == Collect(before + after)
    decreases |after|
  {
    if after == [] {
      assert before + [kind] + after == before + [kind];
      assert (before + [kind])[..|before|] == before;
      assert before + after == before;
    } else {
      var init := after[..|after| - 1];
      CollectSkips(before, kind, init);
      assert (before + [kind] + after)[..|before| + |after|] == before + [kind] + init;
      assert (before + after)[..|before| + |after| - 1] == before + init;
    }
  }

  /** Duplicate keys: the value loaded for a key is the one on the last line that defines it. */
  lemma PropsLastWins(lines: seq<string>, i: nat, key: string)
    requires i < |lines| && DefinesKey(ParseLine(lines[i]), key)
    requires forall j :: i < j < |lines| ==> !DefinesKey(ParseLine(lines[j]), key)
    ensures key in Props(lines) && Props(lines)[key] == ParseLine(lines[i]).value
  {
    CollectLastWins(Kinds(lines), i, key);
  }

  /** A key that no line defines keeps no value, so its threshold keeps its default. */
  lemma PropsAbsent(lines: seq<string>, key: string)
    requires forall j :: 0 <= j < |lines| ==> !DefinesKey(ParseLine(lines[j]), key)
    ensures key !in Props(lines)
  {
    CollectAbsent(Kinds(lines), key);
  }

  /** A blank, comment or `=`-less line can be dropped from anywhere in the file without changing the dictionary. */
  lemma PropsSkipsLine(before: seq<string>, line: string, after: seq<string>)
    requires !ParseLine(line).Entry?
    ensures Props(before + [line] + after) == Props(before + after)
  {
    KindsConcat(before + [line], after);
    KindsConcat(before, [line]);
    KindsConcat(before, after);
    CollectSkips(Kinds(before), ParseLine(line), Kinds(after));
  }

  /** The contributions of two stretches of lines, read one after the other. */
  lemma KindsConcat(a: seq<string>, b: seq<string>)
    ensures Kinds(a + b) == Kinds(a) + Kinds(b)
  {
    var k, ab := Kinds(a) + Kinds(b), a + b;
    forall j | 0 <= j < |ab|
      ensures Kinds(ab)[j] == k[j]
    {
      if j < |a| {
        assert ab[j] == a[j];
      } else {
        assert ab[j] == b[j - |a|];
      }
    }
  }

  /**
   * The lookup the constructor makes for the recognised key `Keys[i]`, with
   * that key's compiled default: by GetIntVal's contract, the default when the
   * key is absent or empty, otherwise its value parsed as a 32-bit integer.
   */
  function Setting(props: map<string, string>, i: nat): Result<int, LoadError>
    requires i < |Keys|
  {
    GetIntVal(props, Keys[i], Field(Initial, i))
  }

  /** The lookups succeed exactly when the lookup of every recognised key does. */
  lemma ThresholdsSucceed(props: map<string, string>)
    ensures Thresholds(props).Success? <==> forall i :: 0 <= i < |Keys| ==> Setting(props, i).Success?
  {
    AllSettings(props);
  }

  lemma AllSettings(props: map<string, string>)
    ensures Thresholds(props).Success? <==>
      && Setting(props, 0).Success? && Setting(props, 1).Success? && Setting(props, 2).Success?
      && Setting(props, 3).Success? && Setting(props, 4).Success? && Setting(props, 5).Success?
      && Setting(props, 6).Success? && Setting(props, 7).Success? && Setting(props, 8).Success?
      && Setting(props, 9).Success?
  {
  }

  /**
   * After successful lookups each threshold is the setting of its own key alone:
   * the combined minima are not recomputed from the component minima.
   */
  lemma ThresholdValues(props: map<string, string>, i: nat)
    requires i < |Keys| && Thresholds(props).Success?
    ensures Setting(props, i) == Success(Field(Thresholds(props).value, i))
  {
  }

  /** A file that defines no key loads every default, in file mode. */
  lemma ThresholdsOfNothing()
    ensures Thresholds(map[]) == Success(Initial.(foundFile := true))
  {
  }

  /** A value that prints a 32-bit integer loads as that integer. */
  lemma GetIntValFormatted(d: map<string, string>, key: string, n: int, defaultVal: int)
    requires MinInt32 <= n <= MaxInt32
    ensures GetIntVal(d[key := FormatInt(n)], key, defaultVal) == Success(n)
  {
    ParseFormat(n);
  }

  /**
   * The combined minima do not follow their parts: a file that sets no
   * `min.alpha` loads a `minAlpha` of 2 whatever it sets `min.uppercase` and
   * `min.lowercase` to, and likewise for `min.non-alpha`.
   */
  lemma CombinedDefaultsFixed(lines: seq<string>)
    requires Load(Some(lines)).Success?
    ensures (forall j :: 0 <= j < |lines| ==> !DefinesKey(ParseLine(lines[j]), KeyMinAlpha))
              ==> Load(Some(lines)).value.minAlpha == 2
    ensures (forall j :: 0 <= j < |lines| ==> !DefinesKey(ParseLine(lines[j]), KeyMinNonAlpha))
              ==> Load(Some(lines)).value.minNonAlpha == 2
  {
    var p := Load(Some(lines)).value;
    assert Keys[7] == KeyMinAlpha && Keys[8] == KeyMinNonAlpha;
    assert Field(p, 7) == p.minAlpha && Field(p, 8) == p.minNonAlpha;
    assert Field(Initial, 7) == 2 && Field(Initial, 8) == 2;
    if forall j :: 0 <= j < |lines| ==> !DefinesKey(ParseLine(lines[j]), KeyMinAlpha) {
      DefaultKept(lines, 7);
    }
    if forall j :: 0 <= j < |lines| ==> !DefinesKey(ParseLine(lines[j]), KeyMinNonAlpha) {
      DefaultKept(lines, 8);
    }
  }

  /** A threshold whose key no line defines keeps its default. */
  lemma DefaultKept(lines: seq<string>, i: nat)
    requires i < |Keys| && Load(Some(lines)).Success?
    requires forall j :: 0 <= j < |lines| ==> !DefinesKey(ParseLine(lines[j]), Keys[i])
    ensures Field(Load(Some(lines)).value, i) == Field(Initial, i)
  {
    PropsAbsent(lines, Keys[i]);
    ThresholdValues(Props(lines), i);
  }

  /** A line without `=`, such as a bare `min.length`, is skipped: every threshold keeps its default. */
  lemma MalformedLineSkipped()
    ensures Load(Some(["min.length"])) == Success(Initial.(foundFile := true))
  {
    LineWithoutEquals("min.length");
    assert Kinds(["min.length"]) == [ParseLine("min.length")];
    assert Props(["min.length"]) == map[];
    ThresholdsOfNothing();
  }
}
