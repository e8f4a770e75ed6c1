/** `derive_warn_type` and `clean_impacted`, shared by every scraper. */
module Utils {
  import opened Wrappers
  import opened PyStr
  import opened Models

  // ---------------------------------------------------------------- derive_warn_type

  /**
   * The notice kind named in free text, by keyword, case-insensitively:
   * closure wins over temporary, which wins over permanent.
   */
  function DeriveWarnType(text: Option<string>): (r: Option<WarnType>)
    ensures text.None? || text.value == "" ==> r.None?
  {
    if text.None? || text.value == "" then None
    else
      var t := Lower(text.value);
      if Contains(t, "closure") || Contains(t, "closing") then Some(Closure)
      else if Contains(t, "temporary") then Some(TemporaryLayoff)
      else if Contains(t, "permanent") || Contains(t, "no recall") || Contains(t, "layoff") then Some(PermanentLayoff)
      else None
  }

  /** The text holds keyword `w` in some letter case. */
  predicate MentionsWord(s: string, w: string) {
    Contains(Lower(s), w)
  }

  lemma LowerConcat(a: string, b: string)
    ensures Lower(a + b) == Lower(a) + Lower(b)
  {
  }

  lemma LowerUpper(s: string)
    ensures Lower(Upper(s)) == Lower(s)
  {
  }

  lemma LowerLower(s: string)
    ensures Lower(Lower(s)) == Lower(s)
  {
  }

  /** A word whose lower-case form is `w`, written anywhere in the text, is mentioned. */
  lemma MentionsInside(a: string, word: string, b: string, w: string)
    requires Lower(word) == w
    ensures MentionsWord(a + word + b, w)
  {
    LowerConcat(a + word, b);
    LowerConcat(a, word);
    ContainsMiddle(Lower(a), w, Lower(b));
  }

  /** Upper-casing, lower-casing or leaving the text alone gives the same kind. */
  lemma {:induction false} DeriveWarnTypeCaseInsensitive(s: string)
    ensures DeriveWarnType(Some(Upper(s))) == DeriveWarnType(Some(s))
    ensures DeriveWarnType(Some(Lower(s))) == DeriveWarnType(Some(s))
  {
    LowerUpper(s);
    LowerLower(s);
  }

  /** "Closure" or "closing" anywhere decides CLOSURE, whatever else the text says. */
  lemma {:induction false} ClosureWins(a: string, word: string, b: string)
    requires Lower(word) == "closure" || Lower(word) == "closing"
    ensures DeriveWarnType(Some(a + word + b)) == Some(Closure)
  {
    MentionsInside(a, word, b, Lower(word));
  }

  /** "Temporary" anywhere rules PERMANENT_LAYOFF out, even next to "layoff". */
  lemma {:induction false} TemporaryNeverPermanent(a: string, word: string, b: string)
    requires Lower(word) == "temporary"
    ensures DeriveWarnType(Some(a + word + b)) in {Some(Closure), Some(TemporaryLayoff)}
  {
    MentionsInside(a, word, b, "temporary");
  }

  /** The six keywords `derive_warn_type` looks for. */
  const Keywords: seq<string> := ["closure", "closing", "temporary", "permanent", "no recall", "layoff"]

  /** A kind is found exactly when one of the six keywords is mentioned. */
  lemma KeywordsDecide(s: string)
    ensures DeriveWarnType(Some(s)).Some? <==> exists k :: 0 <= k < |Keywords| && MentionsWord(s, Keywords[k])
  {
    if s == "" {
      forall k | 0 <= k < |Keywords| ensures !MentionsWord(s, Keywords[k]) {
        EmptyMentionsNothing(Keywords[k]);
      }
    } else if DeriveWarnType(Some(s)).Some? {
      var t := Lower(s);
      var k := if Contains(t, Keywords[0]) then 0
        else if Contains(t, Keywords[1]) then 1
        else if Contains(t, Keywords[2]) then 2
        else if Contains(t, Keywords[3]) then 3
        else if Contains(t, Keywords[4]) then 4
        else 5;
      assert MentionsWord(s, Keywords[k]);
    }
  }

  /**
   * Each kind exactly when one of its keywords is mentioned and no keyword
   * checked before them is: CLOSURE for "closure" or "closing", then
   * TEMPORARY_LAYOFF for "temporary", then PERMANENT_LAYOFF for "permanent",
   * "no recall" or "layoff".
   */
  lemma DeriveWarnTypeCases(s: string)
    ensures DeriveWarnType(Some(s)) == Some(Closure) <==>
      MentionsWord(s, "closure") || MentionsWord(s, "closing")
    ensures DeriveWarnType(Some(s)) == Some(TemporaryLayoff) <==>
      !MentionsWord(s, "closure") && !MentionsWord(s, "closing") && MentionsWord(s, "temporary")
    ensures DeriveWarnType(Some(s)) == Some(PermanentLayoff) <==>
      !MentionsWord(s, "closure") && !MentionsWord(s, "closing") && !MentionsWord(s, "temporary") &&
      (MentionsWord(s, "permanent") || MentionsWord(s, "no recall") || MentionsWord(s, "layoff"))
  {
    if s == "" {
      EmptyMentionsNothing("closure");
      EmptyMentionsNothing("closing");
      EmptyMentionsNothing("temporary");
      EmptyMentionsNothing("permanent");
      EmptyMentionsNothing("no recall");
      EmptyMentionsNothing("layoff");
    }
  }

  /** The empty text mentions no keyword. */
  lemma EmptyMentionsNothing(w: string)
    requires w != ""
    ensures !MentionsWord("", w)
  {
    assert Lower("") == "";
  }

  // ---------------------------------------------------------------- clean_impacted

  /** `re.sub(r'[^\d]', '', s)`: the digits of `s`, in order. */
  function Digits(s: string): (r: string)
    ensures |r| <= |s|
    ensures forall i :: 0 <= i < |r| ==> IsDigit(r[i])
  {
    if s == [] then []
    else if IsDigit(s[0]) then [s[0]] + Digits(s[1..])
    else Digits(s[1..])
  }

  /** `int(ds)` for a string of digits (leading zeros allowed). */
  function DecimalValue(ds: string): nat
    requires forall i :: 0 <= i < |ds| ==> IsDigit(ds[i])
  {
    if ds == [] then 0
    else
      assert IsDigit(ds[|ds| - 1]);
      DecimalValue(ds[..|ds| - 1]) * 10 + (ds[|ds| - 1] as int - '0' as int)
  }

  /**
   * The head-count in a cell: the number its digits spell, everything else
   * (separators, signs, words) ignored; none for an empty value or no digits.
   */
  function CleanImpacted(val: Option<string>): (r: Option<nat>)
    ensures r.None? <==> val.None? || Digits(val.value) == []
  {
    if val.None? || val.value == "" then None
    else
      var ds := Digits(val.value);
      if ds == [] then None else Some(DecimalValue(ds))
  }

  /** `str(n)`, the decimal spelling of a natural number. */
  function NatToDecimal(n: nat): (r: string)
    ensures |r| > 0 && forall i :: 0 <= i < |r| ==> IsDigit(r[i])
  {
    if n < 10 then [('0' as int + n) as char]
    else NatToDecimal(n / 10) + [('0' as int + n % 10) as char]
  }

  lemma {:induction false} DecimalRoundTrip(n: nat)
    ensures DecimalValue(NatToDecimal(n)) == n
  {
    var r := NatToDecimal(n);
    if n >= 10 {
      DecimalRoundTrip(n / 10);
      assert r[..|r| - 1] == NatToDecimal(n / 10);
    }
  }

  lemma {:induction false} DigitsOfDigits(s: string)
    requires forall i :: 0 <= i < |s| ==> IsDigit(s[i])
    ensures Digits(s) == s
  {
    if s != [] {
      DigitsOfDigits(s[1..]);
    }
  }

  lemma {:induction false} DigitsConcat(a: string, b: string)
    ensures Digits(a + b) == Digits(a) + Digits(b)
  {
    if a != [] {
      assert (a + b)[1..] == a[1..] + b;
      DigitsConcat(a[1..], b);
    } else {
      assert a + b == b;
    }
  }

  /** `clean_impacted(str(n)) == n`: a plain number reads back as itself. */
  lemma CleanImpactedNumber(n: nat)
    ensures CleanImpacted(Some(NatToDecimal(n))) == Some(n)
  {
    DigitsOfDigits(NatToDecimal(n));
    DecimalRoundTrip(n);
  }

  /** A leading minus sign is dropped with the other non-digits: "-5" reads as 5. */
  lemma CleanImpactedNegative(n: nat)
    ensures CleanImpacted(Some("-" + NatToDecimal(n))) == Some(n)
  {
    DigitsConcat("-", NatToDecimal(n));
    assert Digits("-") == [];
    CleanImpactedNumber(n);
  }

  /** A non-digit character inserted anywhere (a thousands comma, a space) changes nothing. */
  lemma CleanImpactedIgnoresNonDigit(a: string, c: char, b: string)
    requires !IsDigit(c)
    ensures CleanImpacted(Some(a + [c] + b)) == CleanImpacted(Some(a + b))
  {
    DigitsConcat(a + [c], b);
    DigitsConcat(a, [c]);
    DigitsConcat(a, b);
    assert Digits([c]) == Digits([]) == [];
    assert Digits(a + [c]) == Digits(a);
    assert Digits(a + [c] + b) == Digits(a + b);
  }
}
