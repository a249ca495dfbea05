/** `infer_type` from the INI-to-JSON converter, and the per-section mapping
    of `ini_to_json` that applies it to every value. */
module Cfp2Json {
  import opened Ascii

  /** What `infer_type` returns: a boolean, a non-negative integer, a
      float-looking literal (kept as its text), or the stripped string. */
  datatype Value = Bool(b: bool) | Int(n: nat) | FloatLit(text: string) | Str(s: string)

  // ---------------------------------------------------------------------
  // str.strip()

  function StripLeft(s: string): string
    decreases |s|
  {
    if s != [] && IsSpace(s[0]) then StripLeft(s[1..]) else s
  }

  function StripRight(s: string): string
    decreases |s|
  {
    if s != [] && IsSpace(s[|s| - 1]) then StripRight(s[..|s| - 1]) else s
  }

  /** `s.strip()`: leading and trailing white space removed. */
  function Strip(s: string): (r: string)
    ensures Trimmed(r) && |r| <= |s|
  {
    var l := StripLeft(s);
    StripLeftFront(s);
    StripRightPrefix(l);
    assert StripRight(l) != [] ==> StripRight(l)[0] == l[0];
    StripRight(l)
  }

  /** Neither end of `s` is white space. */
  predicate Trimmed(s: string)
  {
    s == [] || (!IsSpace(s[0]) && !IsSpace(s[|s| - 1]))
  }

  lemma {:induction false} StripLeftFront(s: string)
    ensures |StripLeft(s)| <= |s|
    ensures StripLeft(s) == [] || !IsSpace(StripLeft(s)[0])
    decreases |s|
  {
    if s != [] && IsSpace(s[0]) {
      StripLeftFront(s[1..]);
    }
  }

  lemma {:induction false} StripRightPrefix(s: string)
    ensures |StripRight(s)| <= |s| && StripRight(s) == s[..|StripRight(s)|]
    ensures StripRight(s) == [] || !IsSpace(StripRight(s)[|StripRight(s)| - 1])
    decreases |s|
  {
    if s != [] && IsSpace(s[|s| - 1]) {
      var t := s[..|s| - 1];
      StripRightPrefix(t);
      assert t[..|StripRight(t)|] == s[..|StripRight(t)|];
    }
  }

  /** Stripping trimmed text changes nothing. */
  lemma StripTrimmed(s: string)
    requires Trimmed(s)
    ensures Strip(s) == s
  {
  }

  lemma StripIdempotent(s: string)
    ensures Strip(Strip(s)) == Strip(s)
  {
    StripTrimmed(Strip(s));
  }

  lemma {:induction false} StripLeftBlank(s: string)
    requires forall k :: 0 <= k < |s| ==> IsSpace(s[k])
    ensures StripLeft(s) == []
    decreases |s|
  {
    if s != [] {
      StripLeftBlank(s[1..]);
    }
  }

  /** Text made only of white space strips to the empty string. */
  lemma StripBlank(s: string)
    requires forall k :: 0 <= k < |s| ==> IsSpace(s[k])
    ensures Strip(s) == []
  {
    StripLeftBlank(s);
  }

  lemma {:induction false} StripLeftPadded(pad: string, s: string)
    requires forall k :: 0 <= k < |pad| ==> IsSpace(pad[k])
    requires s != [] && !IsSpace(s[0])
    ensures StripLeft(pad + s) == s
    decreases |pad|
  {
    if pad == [] {
      assert pad + s == s;
    } else {
      assert (pad + s)[1..] == pad[1..] + s;
      StripLeftPadded(pad[1..], s);
    }
  }

  lemma {:induction false} StripRightPadded(s: string, pad: string)
    requires forall k :: 0 <= k < |pad| ==> IsSpace(pad[k])
    requires s != [] && !IsSpace(s[|s| - 1])
    ensures StripRight(s + pad) == s
    decreases |pad|
  {
    if pad == [] {
      assert s + pad == s;
    } else {
      var p := pad[..|pad| - 1];
      assert (s + pad)[..|s + pad| - 1] == s + p;
      StripRightPadded(s, p);
    }
  }

  /** White space around trimmed, non-empty text is removed and nothing else. */
  lemma StripPadded(pre: string, s: string, post: string)
    requires forall k :: 0 <= k < |pre| ==> IsSpace(pre[k])
    requires forall k :: 0 <= k < |post| ==> IsSpace(post[k])
    requires Trimmed(s) && s != []
    ensures Strip(pre + s + post) == s
  {
    assert (s + post)[0] == s[0];
    assert pre + s + post == pre + (s + post);
    StripLeftPadded(pre, s + post);
    StripRightPadded(s, post);
  }

  // ---------------------------------------------------------------------
  // The regular expressions \d+ and \d+\.\d*

  const TrueWords: set<string> := {"true", "yes", "on"}
  const FalseWords: set<string> := {"false", "no", "off"}

  predicate AllDigits(s: string)
  {
    forall i :: 0 <= i < |s| ==> IsDigit(s[i])
  }

  /** `re.fullmatch(r'\d+', s)`: the text is non-empty and its leading
      digits are all of it. */
  predicate IsInteger(s: string)
    ensures IsInteger(s) <==> 0 < LeadingDigits(s) == |s|
  {
    assert s[..|s|] == s;
    if AllDigits(s) then DigitsWithinLeading(s, |s|); s != [] else false
  }

  /** The number of leading digits of `s`. */
  function LeadingDigits(s: string): (k: nat)
    ensures k <= |s| && AllDigits(s[..k]) && (k < |s| ==> !IsDigit(s[k]))
    decreases |s|
  {
    if s == [] || !IsDigit(s[0]) then 0
    else
      var k := LeadingDigits(s[1..]);
      assert s[..k + 1] == [s[0]] + s[1..][..k];
      1 + k
  }

  /** `re.fullmatch(r'\d+\.\d*', s)`, by scanning: digits, one dot, digits.
      Such a text is made of digits and dots only. */
  predicate IsFloatText(s: string)
    ensures IsFloatText(s) ==> forall i :: 0 <= i < |s| ==> IsDigit(s[i]) || s[i] == '.'
  {
    var k := LeadingDigits(s);
    assert forall i :: 0 <= i < k ==> s[..k][i] == s[i];
    assert forall i :: k < i < |s| ==> s[k + 1..][i - k - 1] == s[i];
    0 < k < |s| && s[k] == '.' && AllDigits(s[k + 1..])
  }

  /** The meaning of `\d+\.\d*`: a non-empty run of digits, a dot, and a
      possibly empty run of digits, covering the whole text. */
  ghost predicate FloatPattern(s: string)
  {
    exists k :: 0 < k < |s| && AllDigits(s[..k]) && s[k] == '.' && AllDigits(s[k + 1..])
  }

  lemma FloatTextIsPattern(s: string)
    ensures IsFloatText(s) <==> FloatPattern(s)
  {
    var k := LeadingDigits(s);
    if IsFloatText(s) {
      assert 0 < k < |s| && AllDigits(s[..k]) && s[k] == '.' && AllDigits(s[k + 1..]);
    }
    if FloatPattern(s) {
      var m :| 0 < m < |s| && AllDigits(s[..m]) && s[m] == '.' && AllDigits(s[m + 1..]);
      DigitsWithinLeading(s, m);
      LeadingStopsAtNonDigit(s, m);
    }
  }

  /** A run of digits at the front is no longer than the leading digits. */
  lemma {:induction false} DigitsWithinLeading(s: string, m: nat)
    requires m <= |s| && AllDigits(s[..m])
    ensures m <= LeadingDigits(s)
    decreases m
  {
    if m > 0 {
      assert IsDigit(s[..m][0]);
      assert s[1..][..m - 1] == s[..m][1..];
      DigitsWithinLeading(s[1..], m - 1);
    }
  }

  /** The leading digits stop at or before the first non-digit. */
  lemma {:induction false} LeadingStopsAtNonDigit(s: string, m: nat)
    requires m < |s| && !IsDigit(s[m])
    ensures LeadingDigits(s) <= m
    decreases m
  {
    if IsDigit(s[0]) {
      assert 0 < m;
      assert s[1..][m - 1] == s[m];
      LeadingStopsAtNonDigit(s[1..], m - 1);
    }
  }

  // ---------------------------------------------------------------------
  // int(v) on a digit string, and the decimal rendering of a number

  function DigitValue(c: char): nat
    requires IsDigit(c)
  {
    c as int - '0' as int
  }

  function Pow10(n: nat): (p: nat)
    ensures 1 <= p
  {
    if n == 0 then 1 else 10 * Pow10(n - 1)
  }

  /** `int(s)` for a string of ASCII digits (leading zeros allowed): below
      10 to the power |s|, and zero exactly when every digit is `0`. */
  function DecimalValue(s: string): (r: nat)
    requires AllDigits(s)
    ensures r < Pow10(|s|)
    ensures r == 0 <==> forall k :: 0 <= k < |s| ==> s[k] == '0'
    decreases |s|
  {
    if s == [] then 0
    else
      var front := s[..|s| - 1];
      assert forall k :: 0 <= k < |front| ==> front[k] == s[k];
      10 * DecimalValue(front) + DigitValue(s[|s| - 1])
  }

  /** The decimal rendering of `n`, without leading zeros. */
  function Decimal(n: nat): string
  {
    if n < 10 then [('0' as int + n) as char]
    else Decimal(n / 10) + [('0' as int + n % 10) as char]
  }

  /** Reading back a rendered number gives the number. */
  lemma {:induction false} DecimalRoundTrip(n: nat)
    ensures IsInteger(Decimal(n))
    ensures DecimalValue(Decimal(n)) == n
  {
    if 10 <= n {
      DecimalRoundTrip(n / 10);
      var s := Decimal(n);
      assert s[..|s| - 1] == Decimal(n / 10);
    }
  }

  /** Leading zeros do not change the value. */
  lemma {:induction false} LeadingZeros(z: string, s: string)
    requires forall k :: 0 <= k < |z| ==> z[k] == '0'
    requires AllDigits(s)
    ensures AllDigits(z + s)
    ensures DecimalValue(z + s) == DecimalValue(s)
    decreases |s|
  {
    if s == [] {
      assert z + s == z;
    } else {
      LeadingZeros(z, s[..|s| - 1]);
      assert (z + s)[..|z + s| - 1] == z + s[..|s| - 1];
    }
  }

  // ---------------------------------------------------------------------
  // infer_type

  /** `infer_type(val)`: strip, then try the boolean words (any letter
      case), a digit string, a float-looking literal, in that order, and
      fall back to the stripped string. */
  function InferType(val: string): (r: Value)
    ensures r.Bool? ==> Lower(Strip(val)) in (if r.b then TrueWords else FalseWords)
    ensures r.Int? ==> IsInteger(Strip(val)) && r.n == DecimalValue(Strip(val))
    ensures r.FloatLit? ==> r.text == Strip(val) && FloatPattern(r.text)
    ensures r.Str? ==> r.s == Strip(val) && Trimmed(r.s)
  {
    var v := Strip(val);
    var lower := Lower(v);
    FloatTextIsPattern(v);
    if lower in TrueWords then Bool(true)
    else if lower in FalseWords then Bool(false)
    else if IsInteger(v) then Int(DecimalValue(v))
    else if IsFloatText(v) then FloatLit(v)
    else Str(v)
  }

  /** No boolean word starts with a digit, so none is numeric text. */
  lemma WordsAreNotNumeric(v: string)
    requires v != [] && IsDigit(v[0])
    ensures Lower(v) !in TrueWords && Lower(v) !in FalseWords
  {
    assert Lower(v)[0] == v[0];
  }

  /** The four outcomes in both directions: which inputs give which value. */
  lemma InferTypeCases(val: string)
    ensures var v := Strip(val);
      (InferType(val) == Bool(true) <==> Lower(v) in TrueWords) &&
      (InferType(val) == Bool(false) <==> Lower(v) in FalseWords) &&
      (InferType(val).Int? <==> IsInteger(v)) &&
      (InferType(val).FloatLit? <==> FloatPattern(v)) &&
      (InferType(val).Str? <==>
        Lower(v) !in TrueWords && Lower(v) !in FalseWords && !IsInteger(v) && !FloatPattern(v))
  {
    var v := Strip(val);
    FloatTextIsPattern(v);
    if v != [] && IsDigit(v[0]) {
      WordsAreNotNumeric(v);
    }
  }

  /** Every natural number's decimal rendering is read back as that number. */
  lemma InferDecimal(n: nat)
    ensures InferType(Decimal(n)) == Int(n)
  {
    var s := Decimal(n);
    DecimalRoundTrip(n);
    StripTrimmed(s);
    WordsAreNotNumeric(s);
  }

  /** Leading zeros and surrounding white space are accepted on integers. */
  lemma InferPaddedDecimal(pre: string, z: string, n: nat, post: string)
    requires forall k :: 0 <= k < |pre| ==> IsSpace(pre[k])
    requires forall k :: 0 <= k < |post| ==> IsSpace(post[k])
    requires forall k :: 0 <= k < |z| ==> z[k] == '0'
    ensures InferType(pre + z + Decimal(n) + post) == Int(n)
  {
    var s := z + Decimal(n);
    DecimalRoundTrip(n);
    LeadingZeros(z, Decimal(n));
    assert s[|s| - 1] == Decimal(n)[|Decimal(n)| - 1];
    assert IsDigit(s[0]) && IsDigit(s[|s| - 1]);
    StripPadded(pre, s, post);
    assert pre + z + Decimal(n) + post == pre + s + post;
    WordsAreNotNumeric(s);
  }

  /** Only text starting with a digit can be numeric: a leading sign, a
      leading dot or a letter makes it a boolean word or a string. */
  lemma NumbersStartWithDigit(val: string)
    requires Strip(val) == [] || !IsDigit(Strip(val)[0])
    ensures InferType(val).Bool? || InferType(val).Str?
  {
  }

  /** A character other than a digit or a dot (an exponent, a sign, a
      separator) rules out both numeric outcomes. */
  lemma NumbersAreDigitsAndDot(val: string, k: nat)
    requires k < |Strip(val)| && !IsDigit(Strip(val)[k]) && Strip(val)[k] != '.'
    ensures !InferType(val).Int? && !InferType(val).FloatLit?
  {
  }

  /** Empty or blank input gives the empty string. */
  lemma BlankIsEmptyString(val: string)
    requires forall k :: 0 <= k < |val| ==> IsSpace(val[k])
    ensures InferType(val) == Str("")
  {
    StripBlank(val);
  }

  /** A string result is a fixed point: classifying it again gives it back. */
  lemma StrIsFixedPoint(val: string)
    requires InferType(val).Str?
    ensures InferType(InferType(val).s) == InferType(val)
  {
    StripIdempotent(val);
  }

  /** A dot with digits before it is a float literal, even with no
      digits after it. */
  lemma FloatExamples()
    ensures InferType("1.") == FloatLit("1.")
  {
    assert Strip("1.") == "1.";
    assert LeadingDigits("1.") == 1;
    assert Lower("1.") == "1.";
    assert !IsDigit("1."[1]);
  }

  /** Surrounding white space is stripped from a float literal. */
  lemma PaddedFloatExample(pre: string, post: string)
    requires forall k :: 0 <= k < |pre| ==> IsSpace(pre[k])
    requires forall k :: 0 <= k < |post| ==> IsSpace(post[k])
    ensures InferType(pre + "3.25" + post) == FloatLit("3.25")
  {
    StripPadded(pre, "3.25", post);
    assert LeadingDigits("3.25") == 1;
    assert Lower("3.25") == "3.25";
    assert !IsDigit("3.25"[1]);
  }

  /** Only the stripped text matters: a value and its stripped form are
      inferred alike. */
  lemma InferIgnoresPadding(val: string)
    ensures InferType(Strip(val)) == InferType(val)
  {
    StripIdempotent(val);
  }

  /** A leading dot or sign leaves the text a string. */
  lemma StringExamples()
    ensures InferType(".5") == Str(".5")
    ensures InferType("-1") == Str("-1")
    ensures InferType("+2") == Str("+2")
  {
    assert Strip(".5") == ".5" && Lower(".5") == ".5";
    assert Strip("-1") == "-1" && Lower("-1") == "-1";
    assert Strip("+2") == "+2" && Lower("+2") == "+2";
  }

  /** An exponent leaves the text a string. */
  lemma ExponentExample()
    ensures InferType("1e3") == Str("1e3")
  {
    assert Strip("1e3") == "1e3" && Lower("1e3") == "1e3";
    NumbersAreDigitsAndDot("1e3", 1);
  }

  /** Leading zeros are read as a plain number; the words ignore case. */
  lemma IntAndWordExamples()
    ensures InferType("007") == Int(7)
    ensures InferType(" Yes") == Bool(true)
    ensures InferType("OFF") == Bool(false)
    ensures InferType("") == Str("")
  {
    assert Strip("007") == "007" && Lower("007") == "007";
    assert DecimalValue("007") == 7 by {
      assert "007"[..2] == "00" && "00"[..1] == "0" && "0"[..0] == "";
    }
    assert Strip(" Yes") == "Yes";
    assert Lower("Yes") == "yes";
    assert Strip("OFF") == "OFF";
    assert Lower("OFF") == "off";
  }

  // ---------------------------------------------------------------------
  // The per-section mapping of ini_to_json

  /** A parsed section: its name and its (key, value) items in order. */
  datatype Section = Section(name: string, items: seq<(string, string)>)

  /** A dictionary filled from `pairs` in order: a later pair with the same
      key overwrites an earlier one. */
  function Assoc<V>(pairs: seq<(string, V)>): map<string, V>
    decreases |pairs|
  {
    if pairs == [] then map[]
    else Assoc(pairs[..|pairs| - 1])[pairs[|pairs| - 1].0 := pairs[|pairs| - 1].1]
  }

  /** The keys are exactly the keys of the pairs, and each key holds the
      value of its last pair. */
  lemma {:induction false} AssocMembers<V>(pairs: seq<(string, V)>)
    ensures forall x :: x in Assoc(pairs) <==> exists i :: 0 <= i < |pairs| && pairs[i].0 == x
    ensures forall i :: 0 <= i < |pairs| && (forall j :: i < j < |pairs| ==> pairs[j].0 != pairs[i].0) ==>
      Assoc(pairs)[pairs[i].0] == pairs[i].1
    decreases |pairs|
  {
    if pairs != [] {
      var init := pairs[..|pairs| - 1];
      AssocMembers(init);
      forall x | x in Assoc(pairs)
        ensures exists i :: 0 <= i < |pairs| && pairs[i].0 == x
      {
        if x != pairs[|pairs| - 1].0 {
          var i :| 0 <= i < |init| && init[i].0 == x;
          assert pairs[i].0 == x;
        }
      }
      forall i | 0 <= i < |pairs| - 1
        ensures init[i] == pairs[i]
      {
      }
    }
  }

  /** The items of one section with `infer_type` applied to each value. */
  function Converted(items: seq<(string, string)>): (r: seq<(string, Value)>)
    ensures |r| == |items|
  {
    seq(|items|, i requires 0 <= i < |items| => (items[i].0, InferType(items[i].1)))
  }

  /** `{key: infer_type(val) for key, val in cfg.items(section)}`. */
  function SectionValues(items: seq<(string, string)>): map<string, Value>
  {
    Assoc(Converted(items))
  }

  /** A section's dictionary has one entry per distinct key, holding the
      inferred type of the key's last value. */
  lemma SectionValuesMembers(items: seq<(string, string)>)
    ensures forall x :: x in SectionValues(items) <==> exists i :: 0 <= i < |items| && items[i].0 == x
    ensures forall i :: 0 <= i < |items| && (forall j :: i < j < |items| ==> items[j].0 != items[i].0) ==>
      SectionValues(items)[items[i].0] == InferType(items[i].1)
  {
    var c := Converted(items);
    AssocMembers(c);
    assert forall i :: 0 <= i < |items| ==> c[i] == (items[i].0, InferType(items[i].1));
  }

  /** The (name, dictionary) pair of every section, in order. */
  function SectionPairs(sections: seq<Section>): (r: seq<(string, map<string, Value>)>)
    ensures |r| == |sections|
  {
    seq(|sections|, i requires 0 <= i < |sections| => (sections[i].name, SectionValues(sections[i].items)))
  }

  /** The loop over `cfg.sections()` filling `data`: each section name maps
      to its converted items, a later section of the same name winning. */
  method IniToData(sections: seq<Section>) returns (data: map<string, map<string, Value>>)
    ensures data == Assoc(SectionPairs(sections))
    ensures forall x :: x in data <==> exists i :: 0 <= i < |sections| && sections[i].name == x
    ensures forall i :: 0 <= i < |sections| && (forall j :: i < j < |sections| ==> sections[j].name != sections[i].name) ==>
      data[sections[i].name] == SectionValues(sections[i].items)
  {
    ghost var pairs := SectionPairs(sections);
    data := map[];
    assert pairs[..0] == [];
    for k := 0 to |sections|
      invariant data == Assoc(pairs[..k])
    {
      assert pairs[..k + 1][..k] == pairs[..k];
      data := data[sections[k].name := SectionValues(sections[k].items)];
    }
    assert pairs[..|sections|] == pairs;
    SectionsMembers(sections);
  }

  /** The dictionary of all sections has the section names as its keys, and
      a name holds the converted items of its last section. */
  lemma SectionsMembers(sections: seq<Section>)
    ensures forall x :: x in Assoc(SectionPairs(sections)) <==> exists i :: 0 <= i < |sections| && sections[i].name == x
    ensures forall i :: 0 <= i < |sections| && (forall j :: i < j < |sections| ==> sections[j].name != sections[i].name) ==>
      Assoc(SectionPairs(sections))[sections[i].name] == SectionValues(sections[i].items)
  {
    var pairs := SectionPairs(sections);
    AssocMembers(pairs);
    assert forall i :: 0 <= i < |sections| ==> pairs[i] == (sections[i].name, SectionValues(sections[i].items));
  }
}
