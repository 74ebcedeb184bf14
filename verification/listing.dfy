/**
 * The address, city and dock flag of one listing (`parse_listing_html`
 * and `contains_str`), computed from what the page's markup yields: the
 * text of the address heading (`None` when the page has no such heading),
 * the canonical URL (`None` when the page has no canonical link) and the
 * description text.
 */
module Listing {
  import opened Wrappers
  import opened PyStr
  import opened PyInt

  /** `canonical_url.split('/')[-1]`, the last path segment of the URL. */
  function UrlSlug(url: string): string {
    LastPart(url, "/")
  }

  /** The address read off the URL: the slug with every `-` made a space, upper-cased. */
  function SlugAddress(url: string): string {
    Upper(Replace(UrlSlug(url), '-', ' '))
  }

  /**
   * The listing's address: the heading's text whenever the heading exists
   * (a found element is truthy even with empty text); otherwise, when the
   * canonical URL is a non-empty string, the address read off it; else `None`.
   */
  function AddressOf(heading: Option<string>, canonicalUrl: Option<string>): (address: Option<string>)
    ensures address.Some? <==> heading.Some? || (canonicalUrl.Some? && canonicalUrl.value != "")
  {
    if heading.Some? then heading
    else if canonicalUrl.Some? && canonicalUrl.value != "" then Some(SlugAddress(canonicalUrl.value))
    else None
  }

  /** `[p.strip() for p in address.split(',')]`. */
  function AddressParts(address: string): (parts: seq<string>)
    ensures |parts| == |Split(address, ",")|
  {
    var raw := Split(address, ",");
    seq(|raw|, i requires 0 <= i < |raw| => Strip(raw[i]))
  }

  /** The city read off the URL: the third-from-last `-` token of the slug, or its first token, upper-cased. */
  function SlugCity(url: string): (city: string)
    ensures '-' !in city
    ensures forall k :: 0 <= k < |city| ==> !('a' <= city[k] <= 'z')
  {
    var slugParts := Split(UrlSlug(url), "-");
    SplitPartsFree(UrlSlug(url), "-");
    SlugTokensFree(slugParts);
    // `elif slug_parts:` always holds, because a split is never empty.
    if |slugParts| >= 3 then Upper(slugParts[|slugParts| - 3]) else Upper(slugParts[0])
  }

  lemma SlugTokensFree(tokens: seq<string>)
    requires |tokens| >= 1
    requires forall k :: 0 <= k < |tokens| ==> !Contains(tokens[k], "-")
    ensures '-' !in Upper(tokens[0])
    ensures |tokens| >= 3 ==> '-' !in Upper(tokens[|tokens| - 3])
  {
    ContainsChar(tokens[0], '-');
    UpperFree(tokens[0], '-');
    if |tokens| >= 3 {
      ContainsChar(tokens[|tokens| - 3], '-');
      UpperFree(tokens[|tokens| - 3], '-');
    }
  }

  lemma UpperFree(t: string, c: char)
    requires c !in t && !('a' <= c <= 'z') && !('A' <= c <= 'Z')
    ensures c !in Upper(t)
  {
    forall k | 0 <= k < |t| ensures Upper(t)[k] != c {
      assert t[k] != c;
    }
  }

  /**
   * The listing's city: nothing without a non-empty address; the
   * second-to-last comma part of the address when it has two or more;
   * otherwise the city read off a non-empty canonical URL, or `None`.
   */
  function CityOf(address: Option<string>, canonicalUrl: Option<string>): (city: Option<string>)
    ensures city.Some? ==> address.Some? && address.value != ""
  {
    if address.None? || address.value == "" then None
    else
      var parts := AddressParts(address.value);
      if |parts| >= 2 then Some(parts[|parts| - 2])
      else if canonicalUrl.Some? && canonicalUrl.value != "" then Some(SlugCity(canonicalUrl.value))
      else None
  }

  /** The address read off a URL names the last path segment, with no `-`, `/` or lower-case ASCII letter left. */
  lemma SlugAddressShape(base: string, slug: string)
    requires '/' !in slug
    ensures SlugAddress(base + "/" + slug) == Upper(Replace(slug, '-', ' '))
    ensures var a := SlugAddress(base + "/" + slug);
      |a| == |slug| && '-' !in a && '/' !in a && forall k :: 0 <= k < |a| ==> !('a' <= a[k] <= 'z')
  {
    LastPartAfter(base, '/', slug);
  }

  /** Without a heading, the address of `<base>/<slug>` is read off the slug. */
  lemma AddressWithoutHeading(base: string, slug: string)
    requires '/' !in slug
    ensures AddressOf(None, Some(base + "/" + slug)) == Some(Upper(Replace(slug, '-', ' ')))
  {
    SlugAddressShape(base, slug);
  }

  /** The heading wins over the URL; with neither there is no address. */
  lemma AddressSources(heading: Option<string>, canonicalUrl: Option<string>)
    ensures heading.Some? ==> AddressOf(heading, canonicalUrl) == heading
    ensures heading.None? && (canonicalUrl.None? || canonicalUrl.value == "") ==> AddressOf(heading, canonicalUrl).None?
  {
  }

  /**
   * An address with two or more commas yields as city the stripped text
   * between its last two commas, whatever the URL.
   */
  lemma CityFromCommas(front: string, middle: string, back: string, canonicalUrl: Option<string>)
    requires ',' !in middle && ',' !in back
    ensures CityOf(Some(front + "," + middle + "," + back), canonicalUrl) == Some(Strip(middle))
  {
    var address := front + "," + middle + "," + back;
    SplitSnoc(front + "," + middle, ',', back);
    SplitSnoc(front, ',', middle);
    assert address == front + [','] + middle + [','] + back;
  }

  /** An address with exactly one comma yields as city the stripped text before it, whatever the URL. */
  lemma CityOneComma(front: string, back: string, canonicalUrl: Option<string>)
    requires ',' !in front && ',' !in back
    ensures CityOf(Some(front + "," + back), canonicalUrl) == Some(Strip(front))
  {
    SplitSnoc(front, ',', back);
    NoCharNoOccurrence(front, ',');
    assert front + "," + back == front + [','] + back;
  }

  /** An address without a comma yields the city read off the URL, or `None` without one. */
  lemma CityWithoutComma(address: string, canonicalUrl: Option<string>)
    requires address != "" && ',' !in address
    ensures canonicalUrl.Some? && canonicalUrl.value != "" ==>
      CityOf(Some(address), canonicalUrl) == Some(SlugCity(canonicalUrl.value))
    ensures canonicalUrl.None? || canonicalUrl.value == "" ==> CityOf(Some(address), canonicalUrl) == None
  {
    ContainsChar(address, ',');
    SplitCount(address, ",");
  }

  /** The city read off `<base>/<t0>-<t1>-...-<tn>`: `tn-2` upper-cased when there are three tokens or more, else `t0`. */
  lemma SlugCityOfTokens(base: string, tokens: seq<string>)
    requires |tokens| >= 1
    requires forall k :: 0 <= k < |tokens| ==> '-' !in tokens[k] && '/' !in tokens[k]
    ensures SlugCity(base + "/" + Join(tokens, "-")) ==
      if |tokens| >= 3 then Upper(tokens[|tokens| - 3]) else Upper(tokens[0])
  {
    TokensSlug(base, tokens);
    JoinSplit(tokens, '-');
    SlugCityOfSplit(base + "/" + Join(tokens, "-"), tokens);
  }

  lemma SlugCityOfSplit(url: string, tokens: seq<string>)
    requires Split(UrlSlug(url), "-") == tokens
    ensures SlugCity(url) == if |tokens| >= 3 then Upper(tokens[|tokens| - 3]) else Upper(tokens[0])
  {
  }

  lemma TokensSlug(base: string, tokens: seq<string>)
    requires |tokens| >= 1
    requires forall k :: 0 <= k < |tokens| ==> '/' !in tokens[k]
    ensures UrlSlug(base + "/" + Join(tokens, "-")) == Join(tokens, "-")
  {
    JoinNoChar(tokens, '-', '/');
    LastPartAfter(base, '/', Join(tokens, "-"));
  }

  lemma {:induction false} JoinNoChar(parts: seq<string>, sep: char, c: char)
    requires |parts| >= 1 && sep != c
    requires forall k :: 0 <= k < |parts| ==> c !in parts[k]
    ensures c !in Join(parts, [sep])
    decreases |parts|
  {
    if |parts| > 1 {
      JoinNoChar(parts[1..], sep, c);
    }
  }

  /**
   * A page without the address heading: the address and the city both come
   * from the URL `<base>/<slug>` (its slug having no comma), provided the
   * slug is not empty.
   */
  lemma LocationWithoutHeading(base: string, slug: string)
    requires '/' !in slug && ',' !in slug && slug != ""
    ensures AddressOf(None, Some(base + "/" + slug)) == Some(Upper(Replace(slug, '-', ' ')))
    ensures CityOf(AddressOf(None, Some(base + "/" + slug)), Some(base + "/" + slug)) == Some(SlugCity(base + "/" + slug))
  {
    var address := Upper(Replace(slug, '-', ' '));
    SlugAddressShape(base, slug);
    assert forall k :: 0 <= k < |address| ==> address[k] != ',' by {
      assert forall k :: 0 <= k < |slug| ==> slug[k] != ',';
    }
    CityWithoutComma(address, Some(base + "/" + slug));
  }

  /** The address `123 Main St, Gainesville, GA 30501` yields the city `Gainesville`. */
  lemma GainesvilleFromAddress(canonicalUrl: Option<string>)
    ensures CityOf(Some("123 Main St, Gainesville, GA 30501"), canonicalUrl) == Some("Gainesville")
  {
    ExampleAddressCommas();
    CityFromCommas("123 Main St", " Gainesville", " GA 30501", canonicalUrl);
    ExampleCityStripped();
  }

  lemma ExampleAddressCommas()
    ensures "123 Main St, Gainesville, GA 30501" == "123 Main St" + "," + " Gainesville" + "," + " GA 30501"
  {
  }

  lemma ExampleCityStripped()
    ensures Strip(" Gainesville") == "Gainesville"
  {
    StripPadded(" ", "Gainesville", "");
    assert " Gainesville" == " " + "Gainesville" + "";
  }

  /** `contains_str(text, substring)`: `substring.lower() in text.lower()`, false for `None` or `""`. */
  function ContainsStr(text: Option<string>, substring: string): (r: bool)
    ensures r ==> text.Some? && text.value != ""
  {
    if text.None? || text.value == "" then false
    else Contains(Lower(text.value), Lower(substring))
  }

  /** For a non-empty text, the test holds exactly when the lower-cased substring occurs in the lower-cased text. */
  lemma ContainsStrOccurs(text: string, substring: string)
    requires text != ""
    ensures ContainsStr(Some(text), substring) <==>
      exists i: nat :: OccursAt(Lower(text), Lower(substring), i)
  {
    if exists i: nat :: OccursAt(Lower(text), Lower(substring), i) {
      var i: nat :| OccursAt(Lower(text), Lower(substring), i);
      ContainsOccurs(Lower(text), Lower(substring), i);
    }
  }

  /** Changing the ASCII letter case of either argument does not change the result. */
  lemma ContainsStrIgnoresCase(text: string, substring: string)
    ensures ContainsStr(Some(Upper(text)), substring) == ContainsStr(Some(text), substring)
    ensures ContainsStr(Some(Lower(text)), substring) == ContainsStr(Some(text), substring)
    ensures ContainsStr(Some(text), Upper(substring)) == ContainsStr(Some(text), substring)
    ensures ContainsStr(Some(text), Lower(substring)) == ContainsStr(Some(text), substring)
  {
    LowerOfUpper(text);
    LowerOfUpper(substring);
    LowerOfLower(text);
    LowerOfLower(substring);
  }

  /** A text that has the substring inside it, in any ASCII letter case, passes the test. */
  lemma ContainsStrInfix(before: string, word: string, after: string, substring: string)
    requires Lower(word) == Lower(substring)
    requires before + word + after != ""
    ensures ContainsStr(Some(before + word + after), substring)
  {
    var text := before + word + after;
    LowerConcat(before + word, after);
    LowerConcat(before, word);
    assert Lower(text)[|before|..|before| + |word|] == Lower(word);
    ContainsOccurs(Lower(text), Lower(substring), |before|);
  }

  /** The dock flag of a description saying `DOCK`, of a missing one and of an empty one. */
  lemma DockExamples()
    ensures ContainsStr(Some("Private DOCK included"), "dock")
    ensures !ContainsStr(None, "dock")
    ensures !ContainsStr(Some(""), "dock")
  {
    assert "Private DOCK included" == "Private " + "DOCK" + " included";
    assert Lower("DOCK") == "dock" == Lower("dock");
    ContainsStrInfix("Private ", "DOCK", " included", "dock");
  }

  /** A capture of the regular expression `[\d,]+`: digits and commas, at least one character. */
  predicate IsSqftCapture(capture: string) {
    |capture| > 0 && forall k :: 0 <= k < |capture| ==> IsDigit(capture[k]) || capture[k] == ','
  }

  /**
   * The square footage as the source computes it, `int(capture.replace(',', ''))`;
   * `None` is the `ValueError` that `int` raises and nothing catches.
   */
  function SqftAsWritten(capture: string): (r: Option<int>)
    ensures r.Some? ==> exists k :: 0 <= k < |capture| && IsDigit(capture[k])
  {
    DigitlessCapture(capture);
    ParseInt(Remove(capture, ','))
  }

  /** With no digit in the capture, none is left once the commas are gone, and `int` fails. */
  lemma DigitlessCapture(capture: string)
    ensures (forall k :: 0 <= k < |capture| ==> !IsDigit(capture[k])) ==> ParseInt(Remove(capture, ',')) == None
  {
    if forall k :: 0 <= k < |capture| ==> !IsDigit(capture[k]) {
      ParseIntNeedsDigit(Remove(capture, ','));
    }
  }

  /** The text `2 beds, sqft n/a` makes the regular expression capture just `,`, and the source raises. */
  lemma SqftAsWrittenRaises()
    ensures IsSqftCapture(",") && SqftAsWritten(",") == None
  {
    assert Remove(",", ',') == [];
    ParseIntNeedsDigit([]);
  }

  /**
   * The square footage, never raising: a capture that holds no digit, or
   * more digits than `int` reads, is read as absent.
   */
  function Sqft(capture: string): (r: Option<int>)
    requires IsSqftCapture(capture)
    ensures r.Some? <==> (exists k :: 0 <= k < |capture| && IsDigit(capture[k])) && |Remove(capture, ',')| <= MaxStrDigits
  {
    var digits := Remove(capture, ',');
    RemoveKeeps(capture, ',');
    if digits == [] || |digits| > MaxStrDigits then None else Some(DigitsValue(digits))
  }

  lemma {:induction false} RemoveKeeps(s: string, c: char)
    ensures Remove(s, c) == [] <==> forall k :: 0 <= k < |s| ==> s[k] == c
  {
    if s != [] {
      RemoveKeeps(s[1..], c);
      assert forall k :: 1 <= k < |s| ==> s[k] == s[1..][k - 1];
    }
  }

  /**
   * The corrected square footage never fails: a capture without digits is
   * absent, and whenever the source's `int` succeeds the two agree, with
   * thousands separators ignored.
   */
  lemma SqftIntended(capture: string)
    requires IsSqftCapture(capture)
    ensures SqftAsWritten(capture).Some? ==> Sqft(capture) == SqftAsWritten(capture)
    ensures Sqft(capture).Some? ==> SqftAsWritten(capture) == Sqft(capture)
  {
    var digits := Remove(capture, ',');
    assert forall k :: 0 <= k < |digits| ==> IsDigit(digits[k]);
    if digits != [] {
      HasInfoSeparatorAt(digits);
      StripUnpadded(digits);
      DigitCountOfDigits(digits);
      assert !(digits[0] == '-' || digits[0] == '+');
    } else {
      ParseIntNeedsDigit(digits);
    }
  }

  /** `1,850 sqft` reads as 1850. */
  lemma SqftExample()
    ensures Sqft("1,850") == Some(1850)
  {
    assert Remove("1,850", ',') == "1850";
    assert DigitsValue("1") == 1 by { assert "1"[..0] == ""; }
    assert DigitsValue("18") == 18 by { assert "18"[..1] == "1"; }
    assert DigitsValue("185") == 185 by { assert "185"[..2] == "18"; }
    assert DigitsValue("1850") == 1850 by { assert "1850"[..3] == "185"; }
  }
}
