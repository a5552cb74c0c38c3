/**
 * The pure helpers of the user page (client/pages/Index.tsx): the ordinal
 * ending of a day number, the country-to-region lookup, and the validity of
 * the two code fields.
 */
module IndexPage {
  import opened Text
  import opened Codes

  // ----- The ordinal suffix of `formatPrettyDate` -----

  /**
   * `suffix(n)` for a day of the month: "th" for 11, 12 and 13 (and every
   * number ending in them), otherwise by the last digit.
   */
  function OrdinalSuffix(n: nat): (s: string)
    ensures s == "st" <==> n % 10 == 1 && n % 100 != 11
    ensures s == "nd" <==> n % 10 == 2 && n % 100 != 12
    ensures s == "rd" <==> n % 10 == 3 && n % 100 != 13
    ensures s == "th" <==> !(n % 10 in {1, 2, 3}) || 11 <= n % 100 <= 13
  {
    LastDigitOfLastTwo(n);
    if 11 <= n % 100 <= 13 then "th"
    else
      var last := n % 10;
      if last == 1 then "st"
      else if last == 2 then "nd"
      else if last == 3 then "rd"
      else "th"
  }

  lemma LastDigitOfLastTwo(n: nat)
    ensures (n % 100) % 10 == n % 10
  {
    var q := n / 100;
    var r := n % 100;
    assert n == 10 * (10 * q) + r;
    assert n % 10 == r % 10 by {
      var k := 10 * q;
      assert (10 * k + r) % 10 == r % 10;
    }
  }

  /** Every day of a month gets the English ordinal ending: 1st, 2nd, 3rd, 4th … 11th, 12th, 13th … 21st, 22nd, 23rd … 31st. */
  lemma DaySuffixes(day: nat)
    requires 1 <= day <= 31
    ensures OrdinalSuffix(day) ==
      if day in {1, 21, 31} then "st"
      else if day in {2, 22} then "nd"
      else if day in {3, 23} then "rd"
      else "th"
  {
  }

  /** The ending depends on the last two digits only. */
  lemma SuffixPeriodic(n: nat)
    ensures OrdinalSuffix(n + 100) == OrdinalSuffix(n)
  {
    assert (n + 100) % 100 == n % 100;
    assert (n + 100) % 10 == n % 10;
  }

  // ----- `detectRegion` -----

  /** The region sent to the ticket API ("" when unknown). */
  datatype ApiRegion = NoRegion | NA | EU | FE

  /** The label shown to the user ("" when unknown). */
  datatype Display = NoDisplay | ShowNA | ShowEU | ShowAsia

  datatype Detected = Detected(apiRegion: ApiRegion, display: Display)

  const NA_COUNTRIES: set<string> := {"usa", "united states", "canada", "mexico", "cuba"}
  const EU_COUNTRIES: set<string> := {"uk", "united kingdom", "germany", "italy", "france"}
  const ASIA_COUNTRIES: set<string> := {"india", "china", "singapore", "thailand"}

  /** The key a country is looked up by: trimmed, then lower-cased. */
  function CountryKey(countryInput: string): string {
    ToLower(Trim(countryInput))
  }

  /**
   * `detectRegion`: the trimmed, lower-cased country picks the region of the
   * set it belongs to; the empty or any unlisted country picks none.
   */
  function DetectRegion(countryInput: string): (d: Detected)
    ensures d.apiRegion == NA <==> CountryKey(countryInput) in NA_COUNTRIES
    ensures d.apiRegion == EU <==> CountryKey(countryInput) in EU_COUNTRIES
    ensures d.apiRegion == FE <==> CountryKey(countryInput) in ASIA_COUNTRIES
    ensures CountryKey(countryInput) == "" ==> d == Detected(NoRegion, NoDisplay)
    ensures d.apiRegion == NoRegion <==> d.display == NoDisplay
    ensures d.apiRegion == FE <==> d.display == ShowAsia
    ensures d.apiRegion == NA <==> d.display == ShowNA
  {
    var c := CountryKey(countryInput);
    if c == "" then Detected(NoRegion, NoDisplay)
    else if c in NA_COUNTRIES then Detected(NA, ShowNA)
    else if c in EU_COUNTRIES then Detected(EU, ShowEU)
    else if c in ASIA_COUNTRIES then Detected(FE, ShowAsia)
    else Detected(NoRegion, NoDisplay)
  }

  /** The lookup ignores case and surrounding white space. */
  lemma DetectRegionNormalised(countryInput: string)
    ensures DetectRegion(ToLower(countryInput)) == DetectRegion(countryInput)
    ensures DetectRegion(Trim(countryInput)) == DetectRegion(countryInput)
  {
    LowerTrimCommute(countryInput);
    LowerIdempotent(Trim(countryInput));
    assert CountryKey(ToLower(countryInput)) == CountryKey(countryInput);
    TrimIdempotent(countryInput);
    assert CountryKey(Trim(countryInput)) == CountryKey(countryInput);
  }

  // ----- The code fields -----

  /**
   * `inputValid` / `confirmValid`: the field holds what was typed, upper-cased
   * on every change, and is valid when it matches CODE_RE; so it is valid
   * exactly when ten ASCII letters of either case or digits were typed.
   */
  function FieldValid(typed: string): (ok: bool)
    ensures ok <==> |typed| == CODE_LENGTH && forall i :: 0 <= i < |typed| ==> IsAsciiAlnum(typed[i])
  {
    UpperCasedValid(typed);
    ValidCode(ToUpper(typed))
  }

  /** A field the page accepts is accepted again by the server, which upper-cases once more. */
  lemma AcceptedFieldPassesServer(typed: string)
    requires FieldValid(typed)
    ensures ValidCode(ToUpper(ToUpper(typed)))
    ensures ToUpper(ToUpper(typed)) == ToUpper(typed)
  {
    UpperIdempotent(typed);
  }
}
