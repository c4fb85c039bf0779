/** `utils.py`, the revision driven by a settings file: the classifier that
    gives each raw setting a type, the attribute naming, the number-list
    generators of `ToolBox`, and `Number.get_mean_deviation`. */
module Utils {
  import opened Arith
  import opened Seqs
  import opened Primes
  import opened Stats
  import opened Strings

  // ---------------------------------------------------------------------
  // Classifying a raw setting

  /** What `parse` returns. A float keeps its exact decimal value; an array
      keeps the matched text that `json.loads` would read. `NoneSetting` is
      the `None` that `__init__` presets before the file is read; `parse`
      never returns it. */
  datatype Setting =
    | NoneSetting
    | FloatSetting(r: real)
    | IntSetting(i: nat)
    | BoolSetting(b: bool)
    | ArraySetting(text: string)
    | StringSetting(s: string)

  /** The text a `^...$` search that cannot match a newline is held to:
      Python's `$` also matches just before a final newline. */
  function Subject(s: string): string {
    if |s| > 0 && s[|s| - 1] == '\n' then s[..|s| - 1] else s
  }

  /** The first position of `c`, if any. */
  function IndexOfChar(s: string, c: char): (r: Option<nat>)
    ensures r.Some? ==> r.value < |s| && s[r.value] == c && c !in s[..r.value]
    ensures r.None? ==> c !in s
  {
    if s == [] then None
    else if s[0] == c then Some(0)
    else
      match IndexOfChar(s[1..], c)
      case None => None
      case Some(k) =>
        assert s[..k + 1] == [s[0]] + s[1..][..k];
        Some(k + 1)
  }

  lemma IndexOfCharAt(s: string, c: char, k: nat)
    requires k < |s| && s[k] == c && c !in s[..k]
    ensures IndexOfChar(s, c) == Some(k)
  {
    assert s[k] in s;
  }

  /** `^[0-9]+\.[0-9]+$` on a subject: digits, the first dot, digits. */
  predicate IsFloatText(t: string) {
    match IndexOfChar(t, '.')
    case None => false
    case Some(k) => IsDigits(t[..k]) && IsDigits(t[k + 1..])
  }

  /** The pattern's own reading: some dot splits the text into two runs of
      digits. */
  lemma FloatTextSplit(t: string)
    ensures IsFloatText(t) <==> exists k :: 0 <= k < |t| && t[k] == '.' && IsDigits(t[..k]) && IsDigits(t[k + 1..])
  {
    if k :| 0 <= k < |t| && t[k] == '.' && IsDigits(t[..k]) && IsDigits(t[k + 1..]) {
      DecimalText(t, k);
    }
  }

  /** A run of digits has no dot, so it is never a float. */
  lemma DigitsNotFloat(t: string)
    ensures IsDigits(t) ==> !IsFloatText(t)
  {
    if IsDigits(t) {
      assert '.' !in t by {
        forall i | 0 <= i < |t| ensures t[i] != '.' {
          assert IsDigit(t[i]);
        }
      }
    }
  }

  function Pow10(n: nat): (r: nat)
    ensures r >= 1
  {
    if n == 0 then 1 else 10 * Pow10(n - 1)
  }

  /** The decimal `whole.frac`. */
  function Decimal(whole: nat, frac: string): real
    requires IsDigits(frac)
  {
    whole as real + DigitsValue(frac) as real / Pow10(|frac|) as real
  }

  /** The exact decimal value of a float text. */
  function FloatValue(t: string): real
    requires IsFloatText(t)
  {
    var k := IndexOfChar(t, '.').value;
    Decimal(DigitsValue(t[..k]), t[k + 1..])
  }

  /** `\s`: the ASCII whitespace characters. */
  predicate IsSpace(c: char) {
    c == ' ' || '\t' <= c <= '\r'
  }

  predicate IsArrayChar(c: char) {
    c == '[' || c == ']' || IsDigit(c) || c == ',' || IsSpace(c)
  }

  /** `^(\[|\]|\d|,|\s)+$`: only brackets, digits, commas and whitespace. A
      final newline is whitespace, so the whole string is the subject. */
  predicate IsArrayText(s: string) {
    |s| > 0 && forall i :: 0 <= i < |s| ==> IsArrayChar(s[i])
  }

  /** `SettingsParser.parse`: the first of float, int, bool and int array
      whose pattern matches, else the string unchanged. */
  function Parse(s: string): (r: Setting)
    ensures !r.NoneSetting?
    ensures r.FloatSetting? <==> IsFloatText(Subject(s))
    ensures IsFloatText(Subject(s)) ==> r == FloatSetting(FloatValue(Subject(s)))
    ensures IsDigits(Subject(s)) ==> r == IntSetting(DigitsValue(Subject(s)))
    ensures r == BoolSetting(true) <==> Subject(s) == "true"
    ensures r == BoolSetting(false) <==> Subject(s) == "false"
    ensures r.ArraySetting? <==>
              IsArrayText(s) && !IsFloatText(Subject(s)) && !IsDigits(Subject(s)) &&
              Subject(s) != "true" && Subject(s) != "false"
    ensures r.ArraySetting? ==> r.text == s
    ensures r.StringSetting? <==>
              !IsFloatText(Subject(s)) && !IsDigits(Subject(s)) && Subject(s) != "true" && Subject(s) != "false" &&
              !IsArrayText(s)
    ensures r.StringSetting? ==> r.s == s
  {
    var t := Subject(s);
    DigitsNotFloat(t);
    if IsFloatText(t) then FloatSetting(FloatValue(t))
    else if IsDigits(t) then IntSetting(DigitsValue(t))
    else if t == "true" || t == "false" then BoolSetting(t == "true")
    else if IsArrayText(s) then ArraySetting(s)
    else StringSetting(s)
  }

  /** `str(n)` of a natural number is read back as that int. */
  lemma ParseNatString(n: nat)
    ensures Parse(NatToString(n)) == IntSetting(n)
  {
    NatToStringRoundTrip(n);
    var s := NatToString(n);
    assert IsDigit(s[|s| - 1]);
    assert Subject(s) == s;
  }

  /** `a.d` for a natural `a` and digits `d` is read back as the decimal
      `a.d`. */
  lemma ParseDecimalString(a: nat, d: string)
    requires IsDigits(d)
    ensures Parse(NatToString(a) + "." + d) == FloatSetting(Decimal(a, d))
  {
    NatToStringRoundTrip(a);
    var w := NatToString(a);
    var s := w + "." + d;
    assert IsDigit(s[|s| - 1]);
    assert Subject(s) == s;
    var k := |w|;
    assert s[..k] == w && s[k + 1..] == d;
    DecimalText(s, k);
    ParseFloatText(s);
  }

  /** A float text without a final newline takes the float branch. */
  lemma ParseFloatText(s: string)
    requires IsFloatText(s) && Subject(s) == s
    ensures Parse(s) == FloatSetting(FloatValue(s))
  {
  }

  /** A dot after digits, with none before it, is the split point. */
  lemma DecimalText(s: string, k: nat)
    requires k < |s| && s[k] == '.' && IsDigits(s[..k]) && IsDigits(s[k + 1..])
    ensures IsFloatText(s) && FloatValue(s) == Decimal(DigitsValue(s[..k]), s[k + 1..])
  {
    assert '.' !in s[..k] by {
      forall i | 0 <= i < k ensures s[..k][i] != '.' {
        assert IsDigit(s[..k][i]);
      }
    }
    IndexOfCharAt(s, '.', k);
  }

  /** Every character of a join is from a part or the separator. */
  lemma {:induction false} JoinArrayChars(parts: seq<string>, sep: string)
    requires forall i, k :: 0 <= i < |parts| && 0 <= k < |parts[i]| ==> IsArrayChar(parts[i][k])
    requires forall k :: 0 <= k < |sep| ==> IsArrayChar(sep[k])
    ensures forall k :: 0 <= k < |Join(parts, sep)| ==> IsArrayChar(Join(parts, sep)[k])
    decreases |parts|
  {
    if |parts| > 1 {
      JoinArrayChars(parts[1..], sep);
      var rest := Join(parts[1..], sep);
      var whole := parts[0] + sep + rest;
      forall k | 0 <= k < |whole| ensures IsArrayChar(whole[k]) {
        if k < |parts[0]| {
          assert whole[k] == parts[0][k];
        } else if k < |parts[0]| + |sep| {
          assert whole[k] == sep[k - |parts[0]|];
        } else {
          assert whole[k] == rest[k - |parts[0]| - |sep|];
        }
      }
    }
  }

  /** Bracketed array text takes the array branch with its whole text. */
  lemma ParseBracketed(s: string)
    requires IsArrayText(s) && s[0] == '[' && s[|s| - 1] == ']'
    ensures Parse(s) == ArraySetting(s)
  {
    assert Subject(s) == s;
    assert !IsDigit(s[0]);
    assert '.' !in s by {
      forall k | 0 <= k < |s| ensures s[k] != '.' {
        assert IsArrayChar(s[k]);
      }
    }
  }

  /** A JSON list of natural numbers, as the settings write them, takes the
      array branch with its whole text. */
  lemma ParseIntArray(xs: seq<nat>, sep: string)
    requires forall k :: 0 <= k < |sep| ==> IsArrayChar(sep[k])
    ensures Parse("[" + Join(IntStrings(xs), sep) + "]") == ArraySetting("[" + Join(IntStrings(xs), sep) + "]")
  {
    var parts := IntStrings(xs);
    forall i, k | 0 <= i < |parts| && 0 <= k < |parts[i]| ensures IsArrayChar(parts[i][k]) {
      NatToStringRoundTrip(xs[i]);
      assert parts[i] == NatToString(xs[i]);
    }
    JoinArrayChars(parts, sep);
    var body := Join(parts, sep);
    var s := "[" + body + "]";
    forall k | 0 <= k < |s| ensures IsArrayChar(s[k]) {
      if 0 < k < |s| - 1 {
        assert s[k] == body[k - 1];
      }
    }
    ParseBracketed(s);
  }

  // ---------------------------------------------------------------------
  // Reading the settings into attributes

  /** `f'{section}_' + option`, the attribute a setting is stored under. */
  function AttributeName(section: string, option: string): (name: string)
    ensures |name| == |section| + 1 + |option|
    ensures name[..|section|] == section && name[|section|] == '_' && name[|section| + 1..] == option
  {
    section + "_" + option
  }

  /** Sections without an underscore never share an attribute name. */
  lemma AttributeNameInjective(a: string, b: string, c: string, d: string)
    requires '_' !in a && '_' !in c && AttributeName(a, b) == AttributeName(c, d)
    ensures a == c && b == d
  {
  }

  /** A section of the settings file: its name and its options with their
      raw values, in file order. */
  datatype Section = Section(name: string, options: seq<(string, string)>)

  /** A section's settings as (section, option, raw value). */
  function SectionEntries(section: Section): (r: seq<(string, string, string)>)
    ensures |r| == |section.options|
    ensures forall i :: 0 <= i < |r| ==> r[i] == (section.name, section.options[i].0, section.options[i].1)
  {
    seq(|section.options|, i requires 0 <= i < |section.options| => (section.name, section.options[i].0, section.options[i].1))
  }

  /** Every setting of the file, section by section. */
  function Entries(config: seq<Section>): seq<(string, string, string)> {
    if config == [] then [] else Entries(config[..|config| - 1]) + SectionEntries(config[|config| - 1])
  }

  function EntryName(e: (string, string, string)): string {
    AttributeName(e.0, e.1)
  }

  /** The attributes the settings produce, a later setting overwriting an
      earlier one with the same name. */
  function Collected(es: seq<(string, string, string)>): map<string, Setting> {
    Stored(Classified(es))
  }

  /** Each setting as the name it is stored under and its classification. */
  function Classified(es: seq<(string, string, string)>): (r: seq<(string, Setting)>)
    ensures |r| == |es|
    ensures forall i :: 0 <= i < |es| ==> r[i] == (EntryName(es[i]), Parse(es[i].2))
  {
    seq(|es|, i requires 0 <= i < |es| => (EntryName(es[i]), Parse(es[i].2)))
  }

  /** Name-value pairs stored in order, a later pair overwriting an earlier
      one with the same name. */
  function Stored<V>(ps: seq<(string, V)>): map<string, V> {
    if ps == [] then map[] else Stored(ps[..|ps| - 1])[ps[|ps| - 1].0 := ps[|ps| - 1].1]
  }

  /** Exactly the named pairs are stored. */
  lemma {:induction false} StoredKeys<V>(ps: seq<(string, V)>, k: string)
    ensures k in Stored(ps) <==> exists i :: 0 <= i < |ps| && ps[i].0 == k
  {
    if ps != [] {
      var init := ps[..|ps| - 1];
      StoredKeys(init, k);
      if k in Stored(init) {
        var i :| 0 <= i < |init| && init[i].0 == k;
        assert ps[i] == init[i];
      }
      if i :| 0 <= i < |ps| && ps[i].0 == k {
        if i < |init| {
          assert init[i] == ps[i];
        }
      }
    }
  }

  /** A name holds the value of its last pair. */
  lemma {:induction false} StoredLast<V>(ps: seq<(string, V)>, i: nat)
    requires i < |ps|
    requires forall j :: i < j < |ps| ==> ps[j].0 != ps[i].0
    ensures ps[i].0 in Stored(ps) && Stored(ps)[ps[i].0] == ps[i].1
  {
    var init := ps[..|ps| - 1];
    if i < |init| {
      assert init[i] == ps[i];
      forall j | i < j < |init| ensures init[j].0 != init[i].0 {
        assert init[j] == ps[j];
      }
      StoredLast(init, i);
    }
  }

  /** Exactly the named settings are present. */
  lemma CollectedKeys(es: seq<(string, string, string)>, k: string)
    ensures k in Collected(es) <==> exists i :: 0 <= i < |es| && EntryName(es[i]) == k
  {
    var ps := Classified(es);
    StoredKeys(ps, k);
    if i :| 0 <= i < |es| && EntryName(es[i]) == k {
      assert ps[i].0 == k;
    }
  }

  /** Each attribute holds the classification of the last setting with its
      name. */
  lemma CollectedLast(es: seq<(string, string, string)>, i: nat)
    requires i < |es|
    requires forall j :: i < j < |es| ==> EntryName(es[j]) != EntryName(es[i])
    ensures EntryName(es[i]) in Collected(es) && Collected(es)[EntryName(es[i])] == Parse(es[i].2)
  {
    var ps := Classified(es);
    forall j | i < j < |ps| ensures ps[j].0 != ps[i].0 {
      assert ps[j].0 == EntryName(es[j]);
    }
    StoredLast(ps, i);
  }

  lemma CollectedStep(es: seq<(string, string, string)>, e: (string, string, string))
    ensures Collected(es + [e]) == Collected(es)[EntryName(e) := Parse(e.2)]
  {
    var ps := Classified(es + [e]);
    assert ps[..|es|] == Classified(es);
  }

  lemma TakeOneMore<T>(before: seq<T>, s: seq<T>, k: nat)
    requires k < |s|
    ensures before + s[..k + 1] == (before + s[..k]) + [s[k]]
  {
    assert s[..k + 1] == s[..k] + [s[k]];
  }

  /** Storing one more setting over the attributes read so far. */
  lemma ReadStep(base: map<string, Setting>, done: seq<(string, string, string)>, e: (string, string, string),
                 attributes: map<string, Setting>)
    requires attributes == base + Collected(done)
    ensures attributes[EntryName(e) := Parse(e.2)] == base + Collected(done + [e])
  {
    CollectedStep(done, e);
  }

  /** The settings attributes `__init__` sets to `None` before reading the
      file, in the order it sets them. */
  const PresetNames: seq<string> := [
    "logger_mode", "logger_file_name_string", "logger_base_folder", "logger_reset_files",
    "logger_format", "logger_level", "set_mode", "set_families", "set_identity_factor_mode",
    "set_identity_factor_range_min", "set_identity_factor_range_max",
    "set_identity_factor_minimum_mode", "set_identity_factor_minimum_value",
    "set_identity_factor_count", "set_include_primes", "set_range_min", "set_range_max",
    "set_csv_file_name", "graph_width", "graph_height", "graph_point_size", "graph_mode",
    "graph_use_color_buckets", "graph_palette", "run_create_csv",
    "run_hard_copy_timestamp_granularity", "run_reset_output_data"]

  /** The preset attributes, each `None`. */
  function Presets(): (r: map<string, Setting>)
    ensures forall k :: k in r <==> k in PresetNames
    ensures forall k :: k in r ==> r[k] == NoneSetting
  {
    map k | k in PresetNames :: NoneSetting
  }

  /** After `__init__`, a preset attribute that no setting of the file
      names is still `None`, and one that a setting names holds its
      classification, which is never `None`. */
  lemma PresetUnlessSet(config: seq<Section>, k: string)
    requires k in PresetNames
    ensures k in Presets() + Collected(Entries(config))
    ensures (Presets() + Collected(Entries(config)))[k] == NoneSetting <==>
            forall i :: 0 <= i < |Entries(config)| ==> EntryName(Entries(config)[i]) != k
  {
    var es := Entries(config);
    CollectedKeys(es, k);
    if i :| 0 <= i < |es| && EntryName(es[i]) == k {
      var last := LastNamed(es, k, i);
      CollectedLast(es, last);
    }
  }

  /** The last position of a setting with the name `k`, at or after `i`. */
  lemma LastNamed(es: seq<(string, string, string)>, k: string, i: nat) returns (last: nat)
    requires i < |es| && EntryName(es[i]) == k
    ensures i <= last < |es| && EntryName(es[last]) == k
    ensures forall j :: last < j < |es| ==> EntryName(es[j]) != k
    decreases |es| - i
  {
    if j :| i < j < |es| && EntryName(es[j]) == k {
      last := LastNamed(es, k, j);
    } else {
      last := i;
    }
  }

  /** The mutable part of `SettingsParser`: its `__dict__` of settings. */
  class SettingsParser {
    var attributes: map<string, Setting>

    /** `__init__`, from a file read into sections: the preset attributes
        are `None`, then the file's settings are stored over them. */
    constructor (config: seq<Section>)
      ensures attributes == Presets() + Collected(Entries(config))
    {
      attributes := Presets();
      new;
      ReadSettings(config);
    }

    /** `_read_settings` after the file is read: each option of each
        section, in order, is classified and stored under its attribute
        name, overwriting what was there. */
    method ReadSettings(config: seq<Section>)
      modifies this
      ensures attributes == old(attributes) + Collected(Entries(config))
    {
      for i := 0 to |config|
        invariant attributes == old(attributes) + Collected(Entries(config[..i]))
      {
        assert config[..i + 1][..i] == config[..i];
        assert Entries(config[..i + 1]) == Entries(config[..i]) + SectionEntries(config[i]);
        ReadSection(config[i], old(attributes), Entries(config[..i]));
      }
      assert config[..|config|] == config;
    }

    /** The options of one section, read on top of the settings before it. */
    method ReadSection(section: Section, ghost base: map<string, Setting>, ghost before: seq<(string, string, string)>)
      requires attributes == base + Collected(before)
      modifies this
      ensures attributes == base + Collected(before + SectionEntries(section))
    {
      var sectionName := section.name + "_";
      ghost var entries := SectionEntries(section);
      assert before + entries[..0] == before;
      for k := 0 to |section.options|
        invariant attributes == base + Collected(before + entries[..k])
      {
        var optionName := sectionName + section.options[k].0;
        ghost var done := before + entries[..k];
        ghost var e := entries[k];
        assert optionName == EntryName(e);
        TakeOneMore(before, entries, k);
        assert e.2 == section.options[k].1;
        ReadStep(base, done, e, attributes);
        attributes := attributes[optionName := Parse(section.options[k].1)];
      }
      assert entries[..|section.options|] == entries;
    }
  }

  // ---------------------------------------------------------------------
  // `Number.get_mean_deviation`

  /** The mean of `|f - ideal|` over the factors: non-negative, and zero
      exactly when every factor equals the ideal. An empty list divides by
      zero in the source. */
  method GetMeanDeviation(primeFactors: seq<int>, idealFactor: real) returns (meanDeviation: real)
    requires |primeFactors| > 0
    ensures meanDeviation == AbsDevSum(primeFactors, idealFactor) / |primeFactors| as real
    ensures meanDeviation >= 0.0
    ensures meanDeviation == 0.0 <==> forall i :: 0 <= i < |primeFactors| ==> primeFactors[i] as real == idealFactor
  {
    var deviationsSum := 0.0;
    for i := 0 to |primeFactors|
      invariant deviationsSum == AbsDevSum(primeFactors[..i], idealFactor)
    {
      assert primeFactors[..i + 1][..i] == primeFactors[..i];
      deviationsSum := deviationsSum + Abs(primeFactors[i] as real - idealFactor);
    }
    assert primeFactors[..|primeFactors|] == primeFactors;
    meanDeviation := deviationsSum / |primeFactors| as real;
    AbsDevSumZero(primeFactors, idealFactor);
    ZeroQuotient(deviationsSum, |primeFactors| as real);
  }

  // ---------------------------------------------------------------------
  // `ToolBox`

  /** `generate_continuous_number_list`: the values from the lower bound,
      raised to 2, up to the upper bound, ascending, primes only when
      included. */
  method GenerateContinuousNumberList(setRangeMin: int, setRangeMax: int, setIncludePrimes: bool)
    returns (numberList: seq<int>)
    ensures numberList == RangeKept(if setRangeMin < 2 then 2 else setRangeMin, setRangeMax, setIncludePrimes)
    ensures forall x :: x in numberList ==> 2 <= x <= setRangeMax && (setIncludePrimes || !IsPrime(x))
  {
    var lowerbound := setRangeMin;
    var upperbound := setRangeMax;
    if lowerbound < 2 {
      lowerbound := 2;
    }
    numberList := [];
    var value := lowerbound;
    while value <= upperbound
      invariant lowerbound <= value <= (if upperbound >= lowerbound then upperbound + 1 else lowerbound)
      invariant numberList == RangeKept(lowerbound, value - 1, setIncludePrimes)
    {
      RangeKeptStep(lowerbound, value, setIncludePrimes);
      if IsPrime(value) && !setIncludePrimes {
        value := value + 1;
        continue;
      }
      numberList := numberList + [value];
      value := value + 1;
    }
    assert numberList == RangeKept(lowerbound, upperbound, setIncludePrimes) by {
      if upperbound >= lowerbound {
        assert value - 1 == upperbound;
      }
    }
    RangeKeptCorrect(lowerbound, upperbound, setIncludePrimes);
  }

  /** `get_primes_between`: the first `total_count` primes above
      `previous`, in the order `primes_above` yields them. */
  method GetPrimesBetween(previous: int, totalCount: int) returns (primes: seq<nat>)
    ensures primes == PrimesAbove(previous, NonNeg(totalCount))
    ensures |primes| == NonNeg(totalCount) && AscendingPrimes(primes)
    ensures forall i :: 0 <= i < |primes| ==> primes[i] > previous
  {
    primes := [];
    var n := NonNeg(totalCount);
    var last := previous;
    for count := 0 to n
      invariant primes + PrimesAbove(last, n - count) == PrimesAbove(previous, n)
    {
      var p := NextPrime(last);
      assert PrimesAbove(last, n - count) == [p] + PrimesAbove(p, n - count - 1);
      primes := primes + [p];
      last := p;
    }
    PrimesAboveCorrect(previous, n);
  }

  /** The settings `generate_number_families` reads. */
  datatype FamilyOptions = FamilyOptions(
    identityFactorMode: string, identityFactorMinimumMode: string, identityFactorMinimumValue: int,
    identityFactorCount: int, identityFactorRangeMin: int, identityFactorRangeMax: int)

  /** The first identity factor for a sorted family: in `count` mode the
      least prime above the family's largest member, 2, or a given value;
      otherwise the range minimum. The largest member of an empty family is
      an index error. */
  function FirstIdentityFactor(family: seq<int>, opts: FamilyOptions): (r: Option<int>)
    ensures r.None? <==> opts.identityFactorMode == "count" && opts.identityFactorMinimumMode == "family" && family == []
    ensures opts.identityFactorMode == "count" && opts.identityFactorMinimumMode == "family" && family != [] ==>
              r.Some? && IsPrime(r.value) && r.value > Last(family) &&
              forall q :: Last(family) < q < r.value ==> !IsPrime(q)
  {
    if opts.identityFactorMode == "count" then
      if opts.identityFactorMinimumMode == "family" then
        if family == [] then None else Some(NextPrime(Last(family)))
      else if opts.identityFactorMinimumMode == "origin" then Some(2)
      else Some(opts.identityFactorMinimumValue)
    else Some(opts.identityFactorRangeMin)
  }

  /** How many composites follow the first: the count, or the number of
      primes in the identity range. */
  function CompositeCount(opts: FamilyOptions): int {
    if opts.identityFactorMode == "count" then opts.identityFactorCount
    else PrimeCount(opts.identityFactorRangeMax) - PrimeCount(opts.identityFactorRangeMin)
  }

  /** Every element multiplied by `k`. */
  function Scaled(k: int, s: seq<int>): (r: seq<int>)
    ensures |r| == |s| && forall i :: 0 <= i < |s| ==> r[i] == k * s[i]
  {
    seq(|s|, i requires 0 <= i < |s| => k * s[i])
  }

  /** The identity factors of a family: the first, then the primes above it. */
  function IdentityFactors(first: int, count: int): seq<int> {
    [first] + PrimesAbove(first, NonNeg(count))
  }

  /** After the first, the identity factors are ascending primes above it
      with no prime skipped. */
  lemma IdentityFactorsCorrect(first: int, count: int)
    ensures |IdentityFactors(first, count)| == 1 + NonNeg(count) && IdentityFactors(first, count)[0] == first
    ensures forall i :: 1 <= i < |IdentityFactors(first, count)| ==>
              IsPrime(IdentityFactors(first, count)[i]) && IdentityFactors(first, count)[i] > first
    ensures forall i, j :: 1 <= i < j < |IdentityFactors(first, count)| ==>
              IdentityFactors(first, count)[i] < IdentityFactors(first, count)[j]
    ensures forall i, q :: 1 <= i < |IdentityFactors(first, count)| && first < q < IdentityFactors(first, count)[i] && IsPrime(q) ==>
              q in IdentityFactors(first, count)[1..i]
  {
    var n := NonNeg(count);
    var ps := PrimesAbove(first, n);
    PrimesAboveCorrect(first, n);
    var f := IdentityFactors(first, count);
    assert f[1..] == ps;
    forall i, q | 1 <= i < |f| && first < q < f[i] && IsPrime(q) ensures q in f[1..i] {
      assert f[i] == ps[i - 1];
      assert f[1..i] == ps[..i - 1];
    }
  }

  /** One family's values: its product (of the sorted family) times each
      identity factor; `None` when its first identity factor fails. */
  function FamilyValues(family: seq<int>, opts: FamilyOptions): Option<seq<int>> {
    var sorted := Sort(family);
    match FirstIdentityFactor(sorted, opts)
    case None => None
    case Some(first) => Some(Scaled(Product(sorted), IdentityFactors(first, CompositeCount(opts))))
  }

  /** A family fails only in `count`/`family` mode when it is empty;
      otherwise it yields `number_of_composites + 1` values, the first the
      product times the first identity factor. */
  lemma FamilyValuesCorrect(family: seq<int>, opts: FamilyOptions)
    ensures FamilyValues(family, opts).None? <==>
            opts.identityFactorMode == "count" && opts.identityFactorMinimumMode == "family" && family == []
    ensures FamilyValues(family, opts).Some? ==>
              |FamilyValues(family, opts).value| == 1 + NonNeg(CompositeCount(opts)) &&
              FamilyValues(family, opts).value[0] == Product(Sort(family)) * FirstIdentityFactor(Sort(family), opts).value
  {
    var sorted := Sort(family);
    assert sorted == [] <==> family == [] by {
      assert |sorted| == |family|;
    }
    if FirstIdentityFactor(sorted, opts).Some? {
      var first := FirstIdentityFactor(sorted, opts).value;
      PrimesAboveCorrect(first, NonNeg(CompositeCount(opts)));
    }
  }

  /** All families' values, family by family; `None` if any family fails. */
  function FamiliesValues(families: seq<seq<int>>, opts: FamilyOptions): Option<seq<int>> {
    if families == [] then Some([])
    else
      match (FamiliesValues(families[..|families| - 1], opts), FamilyValues(families[|families| - 1], opts))
      case (Some(a), Some(b)) => Some(a + b)
      case _ => None
  }

  /** The families fail exactly when one of them is empty in
      `count`/`family` mode. */
  lemma {:induction false} FamiliesValuesFail(families: seq<seq<int>>, opts: FamilyOptions)
    ensures FamiliesValues(families, opts).None? <==>
            opts.identityFactorMode == "count" && opts.identityFactorMinimumMode == "family" && [] in families
  {
    if families != [] {
      var init, last := families[..|families| - 1], families[|families| - 1];
      FamiliesValuesFail(init, opts);
      FamilyValuesCorrect(last, opts);
      InInitOrLast(families, []);
    }
  }

  /** Each family that succeeds contributes `number_of_composites + 1`
      values. */
  lemma {:induction false} FamiliesValuesLength(families: seq<seq<int>>, opts: FamilyOptions)
    ensures FamiliesValues(families, opts).Some? ==>
            |FamiliesValues(families, opts).value| == |families| * (1 + NonNeg(CompositeCount(opts)))
  {
    if families != [] && FamiliesValues(families, opts).Some? {
      var init, last := families[..|families| - 1], families[|families| - 1];
      FamiliesValuesLength(init, opts);
      FamilyValuesCorrect(last, opts);
      var c := 1 + NonNeg(CompositeCount(opts));
      assert (|families| - 1) * c + c == |families| * c;
    }
  }

  lemma ScaledAppend(k: int, s: seq<int>, x: int)
    ensures Scaled(k, s + [x]) == Scaled(k, s) + [k * x]
  {
  }

  /** One family of the loop of `generate_number_families`: the product
      times the first identity factor, then times each prime drawn from
      `primes_above`. */
  method FamilyNumbers(family: seq<int>, opts: FamilyOptions) returns (r: Option<seq<int>>)
    ensures r == FamilyValues(family, opts)
  {
    var sorted := Sort(family);
    var familyProduct := Product(sorted);
    var first := FirstIdentityFactor(sorted, opts);
    if first.None? {
      return None;
    }
    var firstIdentityFactor := first.value;
    var numberOfComposites := CompositeCount(opts);
    var composites := DrawComposites(familyProduct, firstIdentityFactor, NonNeg(numberOfComposites));
    ScaledCons(familyProduct, firstIdentityFactor, PrimesAbove(firstIdentityFactor, NonNeg(numberOfComposites)));
    r := Some([familyProduct * firstIdentityFactor] + composites);
  }

  lemma ScaledCons(k: int, x: int, s: seq<int>)
    ensures Scaled(k, [x] + s) == [k * x] + Scaled(k, s)
  {
    var a, b := Scaled(k, [x] + s), [k * x] + Scaled(k, s);
    forall i | 0 <= i < |a| ensures a[i] == b[i] {
      if i > 0 {
        assert ([x] + s)[i] == s[i - 1];
      }
    }
  }

  /** The inner loop: the product times each of the next `n` primes the
      generator yields. */
  method DrawComposites(familyProduct: int, firstIdentityFactor: int, n: nat) returns (composites: seq<int>)
    ensures composites == Scaled(familyProduct, PrimesAbove(firstIdentityFactor, n))
  {
    composites := [];
    var last := firstIdentityFactor;
    ghost var drawn: seq<int> := [];
    for count := 0 to n
      invariant drawn + PrimesAbove(last, n - count) == PrimesAbove(firstIdentityFactor, n)
      invariant composites == Scaled(familyProduct, drawn)
    {
      var p := NextPrime(last);
      assert PrimesAbove(last, n - count) == [p] + PrimesAbove(p, n - count - 1);
      composites := composites + [familyProduct * p];
      ScaledAppend(familyProduct, drawn, p);
      drawn := drawn + [p];
      last := p;
    }
    assert drawn == PrimesAbove(firstIdentityFactor, n);
  }

  /** `generate_number_families`: the families' values in family order.
      Each family contributes `number_of_composites + 1` values. */
  method GenerateNumberFamilies(families: seq<seq<int>>, opts: FamilyOptions) returns (r: Option<seq<int>>)
    ensures r == FamiliesValues(families, opts)
  {
    var processedNumbers: seq<int> := [];
    for i := 0 to |families|
      invariant FamiliesValues(families[..i], opts) == Some(processedNumbers)
    {
      assert families[..i + 1][..i] == families[..i];
      var values := FamilyNumbers(families[i], opts);
      if values.None? {
        FamilyValuesCorrect(families[i], opts);
        FamiliesValuesFail(families, opts);
        assert families[i] in families;
        return None;
      }
      processedNumbers := processedNumbers + values.value;
    }
    assert families[..|families|] == families;
    r := Some(processedNumbers);
  }

  /** `ToolBox.generate_number_list`: families for `family`, the continuous
      range for `range`; any other mode leaves the result unbound, which
      fails, and is `None` here. */
  method GenerateNumberList(setMode: string, families: seq<seq<int>>, opts: FamilyOptions,
                            setRangeMin: int, setRangeMax: int, setIncludePrimes: bool)
    returns (r: Option<seq<int>>)
    ensures setMode == "family" ==> r == FamiliesValues(families, opts)
    ensures setMode == "range" ==> r == Some(RangeKept(if setRangeMin < 2 then 2 else setRangeMin, setRangeMax, setIncludePrimes))
    ensures setMode != "family" && setMode != "range" ==> r.None?
  {
    if setMode == "family" {
      r := GenerateNumberFamilies(families, opts);
    } else if setMode == "range" {
      var numberList := GenerateContinuousNumberList(setRangeMin, setRangeMax, setIncludePrimes);
      r := Some(numberList);
    } else {
      r := None;
    }
  }
}
