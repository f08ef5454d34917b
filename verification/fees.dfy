/** The transfer-fee parser: a free-text `transfer_fee` cell becomes a number of euros.
    Non-cash wording and anything unparsable count as a free transfer (0). */
module Fees {
  import opened Wrappers
  import opened Seqs
  import opened Text

  /** A raw `transfer_fee` cell: missing (null / NaN), already numeric, or free text. */
  datatype FeeValue = Missing | Numeric(amount: real) | Written(text: string)

  /** Substrings that mark a transfer as non-cash. `-` and `?` make the check greedy:
      any hyphen anywhere zeroes the fee. */
  const NonCashMarkers: seq<string> :=
    ["free", "loan", "end of loan", "?-option", "option to buy", "swap", "?", "-"]

  predicate HasNonCashMarker(lower: string)
  {
    exists k :: 0 <= k < |NonCashMarkers| && Contains(lower, NonCashMarkers[k])
  }

  /** Removes the currency tokens and thousands separators, then surrounding whitespace. */
  function CleanAmount(lower: string): string
  {
    Strip(RemoveAll(RemoveAll(RemoveAll(RemoveAll(lower, "€"), "eur"), "fee"), ","))
  }

  /** The magnitude a unit suffix stands for. */
  function UnitMultiplier(suffix: string): real
  {
    if suffix == "m" then 1000000.0 else if suffix == "k" then 1000.0 else 1.0
  }

  /** `float(text)`, with an unparsable text counting as 0. */
  function NumberOrZero(text: string): real
  {
    match ParseDecimal(text)
    case None => 0.0
    case Some(v) => v
  }

  /** The text branch of the parser. */
  function ParseFeeText(raw: string): real
  {
    var s := Strip(raw);
    if s == [] then 0.0
    else
      ParseLowered(Lower(s))
  }

  /** The stripped, lower-cased text: non-cash wording is 0, anything else an amount. */
  function ParseLowered(lower: string): real
  {
    if HasNonCashMarker(lower) then 0.0
    else ParseAmount(CleanAmount(lower))
  }

  /** The numeric branch on cleaned text: one trailing `m` (millions) or `k` (thousands)
      scales the number before it; unparsable text is 0. */
  function ParseAmount(clean: string): real
  {
    if EndsWith(clean, "m") then NumberOrZero(clean[..|clean| - 1]) * 1000000.0
    else if EndsWith(clean, "k") then NumberOrZero(clean[..|clean| - 1]) * 1000.0
    else NumberOrZero(clean)
  }

  /** `parse_fee`: total, never fails. A missing cell is 0 and a numeric cell is taken as is. */
  function ParseFee(v: FeeValue): (fee: real)
    ensures v.Missing? ==> fee == 0.0
    ensures v.Numeric? ==> fee == v.amount
  {
    match v
    case Missing => 0.0
    case Numeric(x) => x
    case Written(t) => ParseFeeText(t)
  }

  /** Text without non-cash wording whose number, once the currency tokens and the unit are
      removed, does not parse is a free transfer. */
  lemma UnparsableFeeIsZero(raw: string)
    requires !HasNonCashMarker(Lower(Strip(raw)))
    requires var c := CleanAmount(Lower(Strip(raw)));
             ParseDecimal(if EndsWith(c, "m") || EndsWith(c, "k") then c[..|c| - 1] else c).None?
    ensures ParseFee(Written(raw)) == 0.0
  {
  }

  /** A written fee is never negative: a minus sign is itself a non-cash marker. */
  lemma TextFeeNonNegative(raw: string)
    ensures ParseFee(Written(raw)) >= 0.0
  {
    var s := Strip(raw);
    if s != [] {
      LoweredNonNegative(Lower(s));
    }
  }

  lemma LoweredNonNegative(lower: string)
    ensures ParseLowered(lower) >= 0.0
  {
    if !HasNonCashMarker(lower) {
      assert !Contains(lower, NonCashMarkers[7]);
      ContainsChar(lower, '-');
      CleanKeepsNoMinus(lower);
      AmountNonNegative(CleanAmount(lower));
    }
  }

  /** Cleaning introduces no character, in particular no minus sign. */
  lemma CleanKeepsNoMinus(lower: string)
    requires '-' !in lower
    ensures '-' !in CleanAmount(lower)
  {
    var a := RemoveAll(lower, "€");
    var b := RemoveAll(a, "eur");
    var c := RemoveAll(b, "fee");
    var d := RemoveAll(c, ",");
    RemoveAllSubset(lower, "€");
    RemoveAllSubset(a, "eur");
    RemoveAllSubset(b, "fee");
    RemoveAllSubset(c, ",");
    StripSubset(d);
  }

  lemma AmountNonNegative(clean: string)
    requires '-' !in clean
    ensures ParseAmount(clean) >= 0.0
  {
    if EndsWith(clean, "m") || EndsWith(clean, "k") {
      var body := clean[..|clean| - 1];
      assert forall i :: 0 <= i < |body| ==> body[i] in clean;
      ParseDecimalNonNegative(body);
    } else {
      ParseDecimalNonNegative(clean);
    }
  }

  /** Text with no digit at all is a free transfer, whatever else it says. */
  lemma NoDigitFeeIsZero(raw: string)
    requires forall c :: c in raw ==> !IsDigit(c)
    ensures ParseFee(Written(raw)) == 0.0
  {
    var s := Strip(raw);
    StripSubset(raw);
    if s != [] {
      LowerKeepsNoDigit(s);
      LoweredWithoutDigit(Lower(s));
    }
  }

  lemma LowerKeepsNoDigit(s: string)
    requires forall c :: c in s ==> !IsDigit(c)
    ensures forall c :: c in Lower(s) ==> !IsDigit(c)
  {
    forall c | c in Lower(s) ensures !IsDigit(c) {
      var i :| 0 <= i < |s| && Lower(s)[i] == c;
      assert s[i] in s;
    }
  }

  lemma LoweredWithoutDigit(lower: string)
    requires forall c :: c in lower ==> !IsDigit(c)
    ensures ParseLowered(lower) == 0.0
  {
    if !HasNonCashMarker(lower) {
      CleanKeepsNoDigit(lower);
      AmountWithoutDigit(CleanAmount(lower));
    }
  }

  lemma CleanKeepsNoDigit(lower: string)
    requires forall c :: c in lower ==> !IsDigit(c)
    ensures forall c :: c in CleanAmount(lower) ==> !IsDigit(c)
  {
    var a := RemoveAll(lower, "€");
    var b := RemoveAll(a, "eur");
    var c := RemoveAll(b, "fee");
    var d := RemoveAll(c, ",");
    RemoveAllSubset(lower, "€");
    RemoveAllSubset(a, "eur");
    RemoveAllSubset(b, "fee");
    RemoveAllSubset(c, ",");
    StripSubset(d);
  }

  lemma AmountWithoutDigit(clean: string)
    requires forall c :: c in clean ==> !IsDigit(c)
    ensures ParseAmount(clean) == 0.0
  {
    if EndsWith(clean, "m") || EndsWith(clean, "k") {
      var body := clean[..|clean| - 1];
      assert forall c :: c in body ==> c in clean;
      NoDigitNoDecimal(body);
    } else {
      NoDigitNoDecimal(clean);
    }
  }

  /** Blank cells are free transfers; a null cell is `Missing`, which `ParseFee` maps to 0. */
  lemma BlankFeeIsZero(raw: string)
    requires forall k :: 0 <= k < |raw| ==> IsSpace(raw[k])
    ensures ParseFee(Written(raw)) == 0.0
  {
    StripEmptyIffAllSpace(raw);
  }

  /** Any non-cash marker, matched case-insensitively anywhere in the text, gives 0. */
  lemma NonCashFeeIsZero(raw: string, k: int)
    requires 0 <= k < |NonCashMarkers|
    requires Contains(Lower(raw), NonCashMarkers[k])
    ensures ParseFee(Written(raw)) == 0.0
  {
    var m := NonCashMarkers[k];
    MarkerSurvivesStrip(raw, m);
    var lower := Lower(Strip(raw));
    assert HasNonCashMarker(lower);
    assert Strip(raw) != [];
  }

  /** Stripping never cuts into a marker, which has no whitespace at either end. */
  lemma MarkerSurvivesStrip(raw: string, m: string)
    requires m in NonCashMarkers
    requires Contains(Lower(raw), m)
    ensures Contains(Lower(Strip(raw)), m) && Strip(raw) != []
  {
    MarkerEnds(m);
    ContainsSurvivesStrip(Lower(raw), m);
    StripLower(raw);
  }

  /** Every marker starts and ends with a printable ASCII character. */
  lemma MarkerEnds(m: string)
    requires m in NonCashMarkers
    ensures |m| > 0 && !IsSpace(m[0]) && !IsSpace(m[|m| - 1])
  {
    var k :| 0 <= k < |NonCashMarkers| && NonCashMarkers[k] == m;
    assert '!' <= m[0] <= '~' && '!' <= m[|m| - 1] <= '~';
  }

  /** Characters a plain euro amount such as `€35m` is written with. */
  predicate AmountChars(s: string)
  {
    forall i :: 0 <= i < |s| ==> s[i] == '€' || IsDigit(s[i]) || s[i] == 'm' || s[i] == 'k'
  }

  lemma AmountHasNoMarker(s: string)
    requires AmountChars(s)
    ensures !HasNonCashMarker(s)
  {
    forall k | 0 <= k < |NonCashMarkers|
      ensures !Contains(s, NonCashMarkers[k])
    {
      var m := NonCashMarkers[k];
      assert m[0] !in s;
      NotContainsMissingChar(s, m, 0);
    }
  }

  /** `CleanAmount` leaves a digit string with a unit suffix alone. */
  lemma CleanDigitsUnchanged(rest: string)
    requires AmountChars(rest) && '€' !in rest
    requires rest != [] && IsDigit(rest[0])
    ensures CleanAmount(rest) == rest
  {
    assert 'e' !in rest && 'f' !in rest && ',' !in rest by {
      forall i | 0 <= i < |rest| ensures rest[i] != 'e' && rest[i] != 'f' && rest[i] != ',' {
      }
    }
    NotContainsMissingChar(rest, "€", 0);
    RemoveAllAbsent(rest, "€");
    NotContainsMissingChar(rest, "eur", 0);
    RemoveAllAbsent(rest, "eur");
    NotContainsMissingChar(rest, "fee", 0);
    RemoveAllAbsent(rest, "fee");
    NotContainsMissingChar(rest, ",", 0);
    RemoveAllAbsent(rest, ",");
    StripUnchanged(rest);
  }

  /** A leading euro sign is removed by `CleanAmount`. */
  lemma EuroPrefixCleaned(rest: string)
    requires '€' !in rest
    ensures CleanAmount("€" + rest) == CleanAmount(rest)
  {
    var raw := "€" + rest;
    assert raw[|"€"|..] == rest;
    assert StartsWith(raw, "€");
    assert RemoveAll(raw, "€") == RemoveAll(rest, "€");
  }

  /** An amount written only with amount characters reaches the numeric branch unchanged. */
  lemma AmountReachesNumericBranch(raw: string)
    requires raw != [] && AmountChars(raw)
    requires !IsSpace(raw[0]) && !IsSpace(raw[|raw| - 1])
    ensures ParseFee(Written(raw)) == ParseAmount(CleanAmount(raw))
  {
    StripUnchanged(raw);
    assert Strip(raw) == raw;
    LowerUnchanged(raw);
    assert Lower(raw) == raw;
    AmountHasNoMarker(raw);
  }

  lemma WrittenAmountChars(digits: string, suffix: string, euro: bool)
    requires AllDigits(digits) && digits != []
    requires suffix == "" || suffix == "m" || suffix == "k"
    ensures AmountChars(digits + suffix)
    ensures AmountChars((if euro then "€" else "") + (digits + suffix))
    ensures '€' !in digits + suffix
    ensures IsDigit((digits + suffix)[0])
  {
    var rest := digits + suffix;
    forall i | 0 <= i < |rest| ensures rest[i] != '€' && (IsDigit(rest[i]) || rest[i] == 'm' || rest[i] == 'k') {
      if i < |digits| { assert rest[i] == digits[i]; }
    }
  }

  /** A digit string with a unit suffix, written without a euro sign, is already clean. */
  lemma CleanPlainAmount(digits: string, suffix: string)
    requires AllDigits(digits) && digits != []
    requires suffix == "" || suffix == "m" || suffix == "k"
    ensures CleanAmount(digits + suffix) == digits + suffix
  {
    var rest := digits + suffix;
    WrittenAmountChars(digits, suffix, false);
    CleanDigitsUnchanged(rest);
  }

  /** Such a string has no surrounding whitespace. */
  lemma PlainAmountUnpadded(digits: string, suffix: string)
    requires AllDigits(digits) && digits != []
    requires suffix == "" || suffix == "m" || suffix == "k"
    ensures !IsSpace((digits + suffix)[0]) && !IsSpace((digits + suffix)[|digits + suffix| - 1])
  {
    var rest := digits + suffix;
    WrittenAmountChars(digits, suffix, false);
    var last := rest[|rest| - 1];
    assert IsDigit(last) || last == 'm' || last == 'k';
  }

  /** The same amount behind a euro sign cleans to the same text. */
  lemma CleanEuroAmount(digits: string, suffix: string)
    requires AllDigits(digits) && digits != []
    requires suffix == "" || suffix == "m" || suffix == "k"
    ensures CleanAmount("€" + (digits + suffix)) == digits + suffix
  {
    WrittenAmountChars(digits, suffix, false);
    CleanPlainAmount(digits, suffix);
    EuroPrefixCleaned(digits + suffix);
  }

  /** ... and is written with amount characters and no surrounding whitespace. */
  lemma EuroAmountUnpadded(digits: string, suffix: string, raw: string)
    requires AllDigits(digits) && digits != []
    requires suffix == "" || suffix == "m" || suffix == "k"
    requires raw == "€" + (digits + suffix)
    ensures AmountChars(raw)
    ensures !IsSpace(raw[0]) && !IsSpace(raw[|raw| - 1])
  {
    var rest := digits + suffix;
    WrittenAmountChars(digits, suffix, true);
    PlainAmountUnpadded(digits, suffix);
    assert raw[|raw| - 1] == rest[|rest| - 1];
  }

  /** The numeric branch on a digit string with a unit suffix. */
  lemma ParseAmountDigits(digits: string, suffix: string)
    requires AllDigits(digits) && digits != []
    requires suffix == "" || suffix == "m" || suffix == "k"
    ensures ParseAmount(digits + suffix) == DigitsValue(digits) as real * UnitMultiplier(suffix)
  {
    var clean := digits + suffix;
    ParseDecimalDigits(digits);
    assert NumberOrZero(digits) == DigitsValue(digits) as real;
    if suffix == "" {
      assert clean == digits;
      assert IsDigit(clean[|clean| - 1]);
      assert !EndsWith(clean, "m") && !EndsWith(clean, "k");
    } else {
      assert clean[..|clean| - 1] == digits;
    }
  }

  /** Text made of amount characters that cleans to a digit string with a unit suffix
      parses to that amount. */
  lemma AmountParses(raw: string, digits: string, suffix: string)
    requires AllDigits(digits) && digits != []
    requires suffix == "" || suffix == "m" || suffix == "k"
    requires raw != [] && AmountChars(raw)
    requires !IsSpace(raw[0]) && !IsSpace(raw[|raw| - 1])
    requires CleanAmount(raw) == digits + suffix
    ensures ParseFee(Written(raw)) == DigitsValue(digits) as real * UnitMultiplier(suffix)
  {
    AmountReachesNumericBranch(raw);
    ParseAmountDigits(digits, suffix);
  }

  /** A digit string followed by an optional unit parses to its value. */
  lemma DigitsRoundTrip(digits: string, suffix: string)
    requires AllDigits(digits) && digits != []
    requires suffix == "" || suffix == "m" || suffix == "k"
    ensures ParseFee(Written(digits + suffix)) == DigitsValue(digits) as real * UnitMultiplier(suffix)
  {
    var raw := digits + suffix;
    WrittenAmountChars(digits, suffix, false);
    CleanPlainAmount(digits, suffix);
    PlainAmountUnpadded(digits, suffix);
    AmountParses(raw, digits, suffix);
  }

  /** The same behind a euro sign. */
  lemma EuroDigitsRoundTrip(digits: string, suffix: string)
    requires AllDigits(digits) && digits != []
    requires suffix == "" || suffix == "m" || suffix == "k"
    ensures ParseFee(Written("€" + (digits + suffix))) == DigitsValue(digits) as real * UnitMultiplier(suffix)
  {
    var raw := "€" + (digits + suffix);
    CleanEuroAmount(digits, suffix);
    EuroAmountUnpadded(digits, suffix, raw);
    AmountParses(raw, digits, suffix);
  }

  /** Round trip: a whole number of euros, millions or thousands written in the usual
      notation (`35m`, `500k`, `1200`) parses back to its value. */
  lemma AmountRoundTrip(n: nat, suffix: string)
    requires suffix == "" || suffix == "m" || suffix == "k"
    ensures ParseFee(Written(NatToString(n) + suffix)) == n as real * UnitMultiplier(suffix)
  {
    DigitsRoundTrip(NatToString(n), suffix);
  }

  /** Round trip with the euro sign in front (`€35m`). */
  lemma EuroAmountRoundTrip(n: nat, suffix: string)
    requires suffix == "" || suffix == "m" || suffix == "k"
    ensures ParseFee(Written("€" + (NatToString(n) + suffix))) == n as real * UnitMultiplier(suffix)
  {
    EuroDigitsRoundTrip(NatToString(n), suffix);
  }

  // ---------- grouped, decimal and decorated amounts ----------

  /** Letter case never matters: the text is lower-cased before anything is matched. */
  lemma FeeIgnoresCase(raw: string)
    ensures ParseFee(Written(raw)) == ParseFee(Written(Lower(raw)))
  {
    StripLower(raw);
    LowerIdempotent(Strip(raw));
  }

  /** A whole-number part as the cells write it: a digit, then digits and thousands
      separators. */
  predicate Grouped(w: string)
  {
    w != [] && IsDigit(w[0]) && forall c :: c in w ==> IsDigit(c) || c == ','
  }

  function DigitChar(): char -> bool
  {
    (c: char) => IsDigit(c)
  }

  /** The digits of a grouped numeral, in order. */
  function DigitsOf(w: string): (d: string)
    ensures AllDigits(d)
    ensures w != [] && IsDigit(w[0]) ==> d != []
  {
    var d := Filter(w, DigitChar());
    assert forall i :: 0 <= i < |d| ==> d[i] in d;
    assert w != [] && IsDigit(w[0]) ==> w[0] in d;
    d
  }

  predicate IsUnit(unit: string)
  {
    unit == "" || unit == "m" || unit == "k"
  }

  /** The currency words a cell may carry after the amount. */
  predicate IsCurrencyWord(word: string)
  {
    word == "" || word == "eur" || word == " eur" || word == "fee" || word == " fee"
  }

  /** The fraction as written: nothing, or a decimal point and its digits. */
  function Fraction(point: bool, fp: string): string
  {
    if point then "." + fp else ""
  }

  /** An amount as the cells write it: an optional euro sign, a grouped whole part, an
      optional fraction, an optional unit and an optional currency word. */
  function AmountText(euro: bool, w: string, point: bool, fp: string, unit: string, word: string): string
  {
    (if euro then "€" else "") + w + Fraction(point, fp) + unit + word
  }

  /** The characters such an amount is written with. */
  predicate AmountTextChar(c: char)
  {
    c == '€' || IsDigit(c) || c == ',' || c == '.' || c == 'm' || c == 'k'
    || c == ' ' || c == 'e' || c == 'u' || c == 'r' || c == 'f'
  }

  /** Round trip: an amount with thousands separators, a decimal fraction, a unit, a euro
      sign or a trailing currency word, in any letter case and with any whitespace around it
      (`1,500,000`, `35m eur`, `1.5m`, `10M`, `€12.5k`), parses to the value of its digits
      and fraction times the unit. */
  lemma WrittenAmountParses(raw: string, pad1: string, pad2: string,
                            euro: bool, w: string, point: bool, fp: string, unit: string, word: string)
    requires Lower(raw) == pad1 + AmountText(euro, w, point, fp, unit, word) + pad2
    requires forall c :: c in pad1 ==> IsSpace(c)
    requires forall c :: c in pad2 ==> IsSpace(c)
    requires Grouped(w) && AllDigits(fp) && (point || fp == [])
    requires IsUnit(unit) && IsCurrencyWord(word)
    ensures ParseFee(Written(raw)) == (DigitsValue(DigitsOf(w)) as real + FracValue(fp)) * UnitMultiplier(unit)
  {
    var core := AmountText(euro, w, point, fp, unit, word);
    AmountTextShape(euro, w, point, fp, unit, word);
    ReachesAmount(raw, pad1, core, pad2);
    CleanAmountText(euro, w, point, fp, unit, word);
    ParseAmountDecimal(DigitsOf(w), point, fp, unit);
  }

  /** Padded text of any case whose core is unpadded and free of markers reaches the
      numeric branch with that core. */
  lemma ReachesAmount(raw: string, pad1: string, core: string, pad2: string)
    requires Lower(raw) == pad1 + core + pad2
    requires forall c :: c in pad1 ==> IsSpace(c)
    requires forall c :: c in pad2 ==> IsSpace(c)
    requires core != [] && !IsSpace(core[0]) && !IsSpace(core[|core| - 1])
    requires forall i :: 0 <= i < |core| ==> !IsUpper(core[i])
    requires !HasNonCashMarker(core)
    ensures ParseFee(Written(raw)) == ParseAmount(CleanAmount(core))
  {
    FeeIgnoresCase(raw);
    StripPadded(pad1, core, pad2);
    LowerUnchanged(core);
  }

  /** Round trip for a decimal amount: `str(n)`, a point, the fraction digits and a unit
      (`1.5m`, `12.25k`). */
  lemma DecimalRoundTrip(n: nat, fp: string, unit: string)
    requires AllDigits(fp) && IsUnit(unit)
    ensures ParseFee(Written(NatToString(n) + "." + fp + unit)) == (n as real + FracValue(fp)) * UnitMultiplier(unit)
  {
    var w := NatToString(n);
    var raw := w + "." + fp + unit;
    assert raw == [] + AmountText(false, w, true, fp, unit, "") + [];
    assert forall c :: c in w ==> IsDigit(c);
    FilterAll(w, DigitChar());
    assert forall i :: 0 <= i < |raw| ==> !IsUpper(raw[i]) by {
      AmountTextChars(false, w, true, fp, unit, "");
      assert forall i :: 0 <= i < |raw| ==> raw[i] in raw;
    }
    LowerUnchanged(raw);
    WrittenAmountParses(raw, [], [], false, w, true, fp, unit, "");
  }

  /** Every character of an amount text is one of the amount characters. */
  lemma AmountTextChars(euro: bool, w: string, point: bool, fp: string, unit: string, word: string)
    requires Grouped(w) && AllDigits(fp) && IsUnit(unit) && IsCurrencyWord(word)
    ensures forall c :: c in AmountText(euro, w, point, fp, unit, word) ==> AmountTextChar(c)
  {
    assert forall c :: c in fp ==> IsDigit(c);
  }

  /** The amount text is unpadded, has no upper-case letter and no non-cash marker. */
  lemma AmountTextShape(euro: bool, w: string, point: bool, fp: string, unit: string, word: string)
    requires Grouped(w) && AllDigits(fp) && IsUnit(unit) && IsCurrencyWord(word)
    ensures var core := AmountText(euro, w, point, fp, unit, word);
            && core != [] && !IsSpace(core[0]) && !IsSpace(core[|core| - 1])
            && (forall i :: 0 <= i < |core| ==> !IsUpper(core[i]))
            && !HasNonCashMarker(core)
  {
    var core := AmountText(euro, w, point, fp, unit, word);
    AmountTextChars(euro, w, point, fp, unit, word);
    assert forall i :: 0 <= i < |core| ==> core[i] in core;
    AmountTextEnds(euro, w, point, fp, unit, word);
    AmountTextNoMarker(euro, w, point, fp, unit, word);
  }

  lemma AmountTextEnds(euro: bool, w: string, point: bool, fp: string, unit: string, word: string)
    requires Grouped(w) && AllDigits(fp) && IsUnit(unit) && IsCurrencyWord(word)
    ensures var core := AmountText(euro, w, point, fp, unit, word);
            core != [] && !IsSpace(core[0]) && !IsSpace(core[|core| - 1])
  {
    var a := AmountText(euro, w, point, fp, unit, "");
    assert AmountText(euro, w, point, fp, unit, word) == a + word;
    AmountPrefixChars(euro, w, point, fp, unit);
    assert |a| >= |w| > 0;
    assert word == [] || word[|word| - 1] == 'r' || word[|word| - 1] == 'e';
    UnpaddedConcat(a, word);
  }

  /** Before the currency word there is no whitespace at all. */
  lemma AmountPrefixChars(euro: bool, w: string, point: bool, fp: string, unit: string)
    requires Grouped(w) && AllDigits(fp) && IsUnit(unit)
    ensures forall c :: c in AmountText(euro, w, point, fp, unit, "") ==> !IsSpace(c)
  {
    assert forall c :: c in fp ==> IsDigit(c);
    assert forall c :: c in AmountText(euro, w, point, fp, unit, "") ==>
             c == '€' || IsDigit(c) || c == ',' || c == '.' || c == 'm' || c == 'k';
  }

  lemma UnpaddedConcat(a: string, b: string)
    requires a != [] && forall c :: c in a ==> !IsSpace(c)
    requires b == [] || !IsSpace(b[|b| - 1])
    ensures a + b != [] && !IsSpace((a + b)[0]) && !IsSpace((a + b)[|a + b| - 1])
  {
    assert (a + b)[0] == a[0] && a[0] in a;
    if b == [] {
      assert a + b == a && a[|a| - 1] in a;
    } else {
      assert (a + b)[|a + b| - 1] == b[|b| - 1];
    }
  }

  lemma AmountTextNoMarker(euro: bool, w: string, point: bool, fp: string, unit: string, word: string)
    requires Grouped(w) && AllDigits(fp) && IsUnit(unit) && IsCurrencyWord(word)
    ensures !HasNonCashMarker(AmountText(euro, w, point, fp, unit, word))
  {
    var core := AmountText(euro, w, point, fp, unit, word);
    AmountTextChars(euro, w, point, fp, unit, word);
    FreeNeverSpelled(euro, w, point, fp, unit, word);
    NoMarkerIn(core);
  }

  /** Only the currency word brings an `f` or an `r`, and no word brings both. */
  lemma FreeNeverSpelled(euro: bool, w: string, point: bool, fp: string, unit: string, word: string)
    requires Grouped(w) && AllDigits(fp) && IsUnit(unit) && IsCurrencyWord(word)
    ensures var core := AmountText(euro, w, point, fp, unit, word);
            'f' !in core || 'r' !in core
  {
    AmountTextChars(euro, w, point, fp, unit, "");
    assert AmountText(euro, w, point, fp, unit, word) == AmountText(euro, w, point, fp, unit, "") + word;
  }

  /** Text written with amount characters, `f` and `r` never both, has no non-cash
      marker: each marker has a character such text lacks. */
  lemma NoMarkerIn(s: string)
    requires forall c :: c in s ==> AmountTextChar(c)
    requires 'f' !in s || 'r' !in s
    ensures !HasNonCashMarker(s)
  {
    forall k | 0 <= k < |NonCashMarkers|
      ensures !Contains(s, NonCashMarkers[k])
    {
      var m := NonCashMarkers[k];
      if k == 0 {
        if 'f' !in s {
          NotContainsMissingChar(s, m, 0);
        } else {
          NotContainsMissingChar(s, m, 1);
        }
      } else if k == 2 {
        NotContainsMissingChar(s, m, 1);
      } else {
        NotContainsMissingChar(s, m, 0);
      }
    }
  }

  /** What `CleanAmount` leaves of the currency word: nothing or one space. */
  lemma CurrencyWordCleaned(word: string)
    requires IsCurrencyWord(word)
    ensures var t := RemoveAll(RemoveAll(word, "eur"), "fee");
            t == [] || t == [' ']
  {
    if word == "eur" {
      RemoveAllTokenFirst("eur", []);
    } else if word == " eur" {
      RemoveAllSkipFree(" ", "eur", "eur");
      RemoveAllTokenFirst("eur", []);
      NotContainsMissingChar(" ", "fee", 0);
      RemoveAllAbsent(" ", "fee");
    } else if word == "fee" {
      NotContainsMissingChar("fee", "eur", 1);
      RemoveAllAbsent("fee", "eur");
      RemoveAllTokenFirst("fee", []);
    } else if word == " fee" {
      NotContainsMissingChar(" fee", "eur", 1);
      RemoveAllAbsent(" fee", "eur");
      RemoveAllSkipFree(" ", "fee", "fee");
      RemoveAllTokenFirst("fee", []);
    }
  }

  /** `CleanAmount` drops the euro sign, the separators and the currency word and keeps the
      digits, the fraction and the unit. */
  lemma CleanAmountText(euro: bool, w: string, point: bool, fp: string, unit: string, word: string)
    requires Grouped(w) && AllDigits(fp) && IsUnit(unit) && IsCurrencyWord(word)
    ensures CleanAmount(AmountText(euro, w, point, fp, unit, word)) == DigitsOf(w) + Fraction(point, fp) + unit
  {
    var rest := Fraction(point, fp) + unit;
    var a := w + rest;
    AmountTextSplit(euro, w, point, fp, unit, word);
    TailChars(point, fp, unit);
    EuroRemoved(euro, a + word);
    var t := RemoveAll(RemoveAll(word, "eur"), "fee");
    WordRemoved(a, word);
    CurrencyWordCleaned(word);
    SeparatorsRemoved(w, rest, t);
    CleanedUnpadded(DigitsOf(w), rest, t);
    Assoc(DigitsOf(w), Fraction(point, fp), unit);
  }

  lemma AmountTextSplit(euro: bool, w: string, point: bool, fp: string, unit: string, word: string)
    ensures AmountText(euro, w, point, fp, unit, word)
         == (if euro then "€" else "") + ((w + (Fraction(point, fp) + unit)) + word)
  {
    RegroupMiddle(if euro then "€" else "", w, Fraction(point, fp), unit, word);
    Assoc(w, Fraction(point, fp), unit);
  }

  lemma TailChars(point: bool, fp: string, unit: string)
    requires AllDigits(fp) && IsUnit(unit)
    ensures forall c :: c in Fraction(point, fp) + unit ==> IsDigit(c) || c == '.' || c == 'm' || c == 'k'
  {
    assert forall c :: c in fp ==> IsDigit(c);
  }

  lemma EuroRemoved(euro: bool, x: string)
    requires '€' !in x
    ensures RemoveAll((if euro then "€" else "") + x, "€") == x
  {
    NotContainsMissingChar(x, "€", 0);
    RemoveAllAbsent(x, "€");
    if euro {
      RemoveAllTokenFirst("€", x);
    } else {
      assert [] + x == x;
    }
  }

  lemma WordRemoved(a: string, word: string)
    requires 'e' !in a && 'f' !in a
    ensures RemoveAll(RemoveAll(a + word, "eur"), "fee") == a + RemoveAll(RemoveAll(word, "eur"), "fee")
  {
    RemoveAllSkipFree(a, word, "eur");
    RemoveAllSkipFree(a, RemoveAll(word, "eur"), "fee");
  }

  lemma CleanedUnpadded(d: string, rest: string, t: string)
    requires AllDigits(d) && d != []
    requires forall c :: c in rest ==> IsDigit(c) || c == '.' || c == 'm' || c == 'k'
    requires t == [] || t == [' ']
    ensures Strip(d + rest + t) == d + rest
  {
    var x := d + rest;
    assert x[0] == d[0];
    assert x[|x| - 1] in d || x[|x| - 1] in rest;
    assert [] + x + t == x + t;
    StripPadded([], x, t);
  }

  lemma SeparatorsRemoved(w: string, rest: string, t: string)
    requires Grouped(w)
    requires ',' !in rest && ',' !in t
    ensures RemoveAll(w + rest + t, ",") == DigitsOf(w) + rest + t
  {
    assert ',' !in rest + t;
    RemoveAllCharConcat(w + rest, t, ',');
    RemoveAllCharConcat(w, rest, ',');
    RemoveAllIsFilter(w, ',');
    FilterExt(w, Other(','), DigitChar());
  }

  /** The numeric branch on a digit string with an optional fraction and a unit. */
  lemma ParseAmountDecimal(d: string, point: bool, fp: string, unit: string)
    requires AllDigits(d) && d != [] && AllDigits(fp) && (point || fp == [])
    requires IsUnit(unit)
    ensures ParseAmount(d + Fraction(point, fp) + unit) == (DigitsValue(d) as real + FracValue(fp)) * UnitMultiplier(unit)
  {
    var num := d + Fraction(point, fp);
    if point {
      Assoc(d, ".", fp);
      ParseDecimalPoint(d, fp);
    } else {
      assert num == d;
      ParseDecimalDigits(d);
    }
    assert NumberOrZero(num) == DigitsValue(d) as real + FracValue(fp);
    var clean := num + unit;
    if unit == "" {
      assert clean == num;
      var last := num[|num| - 1];
      assert last == '.' || IsDigit(last) by {
        if point && fp != [] {
          assert last == fp[|fp| - 1];
        }
      }
      assert !EndsWith(clean, "m") && !EndsWith(clean, "k");
    } else {
      assert clean[..|clean| - 1] == num;
    }
  }
}
