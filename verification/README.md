# dockfinder scraper core, modelled in Dafny

`scrape.py` crawls a real-estate listing site for homes with a boat dock.
The text processing at its centre decides what ends up in each record, and
that is what this project models and proves things about:

- **Request headers** (`load_headers`): the lines of a headers file become
  a dict. Each line that contains `:` is split at its first colon, and the
  name and value are stripped. A later line for the same name wins.
  (`headers.dfy`)
- **Detail groups** (`details_list_to_dict`): lists of texts scraped from
  one feature block become a dict from the first text to `None`, the
  second text, or the list of the remaining texts. (`details.dfy`)
- **Last results page** (`get_maxpageid`, its string part): the page
  number is read from the `page=` parameter of the ellipsis pagination
  links. The first link that yields an integer wins. Otherwise
  `ValueError("Could not determine max page id.")` is raised.
  (`pagination.dfy`)
- **Address and city** (`parse_listing_html`): the address comes from the
  address heading, or else from the slug of the canonical URL. The city is
  the second-to-last comma part of the address, or else is read off the
  URL slug's `-` tokens. (`listing.dfy`)
- **Dock flag** (`contains_str`): a case-insensitive substring test that is
  false for a missing or empty text. (`listing.dfy`)

Supporting modules define the Python built-ins these pieces use:

- `pystr.dfy` covers `str.strip`, ASCII `lower`/`upper`, `replace`, `in`,
  `split` with a separator, and `join`.
- `pyint.dfy` covers `int()` of a string, with `None` standing for
  `ValueError`, and `str()` of an integer.
- `dicts.dfy` covers a dict built by a loop of assignments where the last
  one wins.

`wrappers.dfy` holds `Option` and `Result`.

The three loops of the source (`scrape.py` lines 33, 54 and 137) are
methods: `Headers.LoadHeaders`, `Pagination.GetMaxPageId` and
`Details.DetailsListToDict`. Each is proved against a specification
function, and the lemmas are stated about those functions.

The model follows the code in these details:

- `get_maxpageid` tries every ellipsis link in turn until one yields an
  integer, not only the first link.
- The page segment is the text between the first and the second `page=`
  of the link. It is then cut at `"` and at `&`.
- `find_multiline_ellipsis_links` (scrape.py:50) keeps the links whose
  stripped text is the three ASCII dots `...`. The model receives these
  links already selected.
- In the city chain, the URL fallback applies only when the address has
  fewer than two comma parts. The branch `elif slug_parts:` always holds,
  because a split is never empty.
- A found address heading is used even when its text is empty. An element
  is truthy whatever its text.

## Model

| member | source | states |
|---|---|---|
| Headers.LoadHeaders | scrape.py:30-39 | the loop over the header lines returns exactly the dict that the line-by-line assignments build |
| Headers.HeaderEntry | scrape.py:34-36 | a line contributes a header only if it contains `:`; the colon is dropped and stripping only shortens, so name and value together are shorter than the line (the full meaning is in the HeaderEntry lemma rows that follow) |
| Headers.HeaderEntryIffColon | scrape.py:34 | a line contributes a header if and only if it contains `:` |
| Headers.HeaderEntryFirstColon | scrape.py:35-36 | a line is split at its first colon only; the name and the value (which may itself hold `:`) are both stripped |
| Headers.HeadersKeys | scrape.py:33-36 | a name is a header exactly when some line with a colon has that stripped name |
| Headers.HeadersLastWins | scrape.py:36 | the last line assigning a name decides that header's value |
| Details.GroupEntry | scrape.py:138-141 | a group contributes an entry exactly when it is non-empty; the key is its first text, and the value is `None` exactly for a one-text group (DetailsLastWins gives the other values) |
| Details.DetailsListToDict | scrape.py:134-142 | the loop over the detail groups returns exactly the dict that the group-by-group assignments build |
| Details.DetailsKeys | scrape.py:136-142 | the keys are exactly the first texts of the non-empty groups; empty groups are skipped |
| Details.DetailsLastWins | scrape.py:137-141 | the last group with a key decides its value: `None` for one text, the second text for two, the list of the rest for more |
| Details.DetailsExamples | scrape.py:137-141 | one two-text, one one-text, one longer and one empty group give `Text`, `NoValue`, `Texts` and no entry |
| Dicts.BuildKeys | scrape.py:136-142 | a key is in a dict built by successive assignments exactly when some assignment names it |
| Dicts.BuildLastWins | scrape.py:139-141 | a key's value is the one given by its last assignment |
| Pagination.GetMaxPageId | scrape.py:52-60 | succeeds if and only if some link yields a page number; the result comes from the first such link; otherwise it fails with the fixed `ValueError` message |
| Pagination.AnchorPage | scrape.py:56-59 | only a link containing `page=` yields a number; a link without it is the caught `IndexError` (AnchorPageOfLink gives the number it yields) |
| Pagination.AnchorPageOfLink | scrape.py:56 | a link `...page=<n>"...` or `...page=<n>&...` yields `n` for every integer `n` of at most 4300 digits (IntToStringTooLong gives the refusal above) |
| PyInt.IntToStringRoundTrip | scrape.py:56 | `int(str(n)) == n` for every integer of at most 4300 digits |
| PyInt.IntToStringTooLong | scrape.py:56 | `int` refuses the digits of every integer with more than 4300 of them (the default `sys.get_int_max_str_digits()` limit) |
| PyInt.IntToStringPadded | scrape.py:56 | `int` ignores the whitespace it skips (that of `strip` except U+001C to U+001F) around a number of at most 4300 digits |
| PyInt.InfoSeparatorRefused | scrape.py:56 | `strip` removes U+001C but `int` raises on it: `int("\x1c5")` fails while `"\x1c5".strip()` is `"5"` |
| PyInt.ParseIntNeedsDigit | scrape.py:56 | `int` raises `ValueError` on any string without a digit, the empty string included |
| PyStr.StripPadded | scrape.py:36 | `strip` removes exactly the whitespace padding around a core that is not padded |
| PyStr.SplitJoin | scrape.py:101 | joining the pieces of a split with the same separator gives the string back |
| PyStr.SplitPartsFree | scrape.py:101 | no piece of a split holds the separator |
| Listing.AddressSources | scrape.py:79-84 | a found heading wins over the URL; with no heading and no non-empty URL there is no address |
| Listing.AddressOf | scrape.py:79-84 | an address exists exactly when the heading was found or the canonical URL is a non-empty string |
| Listing.AddressWithoutHeading | scrape.py:83-84 | without a heading, the address of `<base>/<slug>` is the slug with `-` made spaces, upper-cased |
| Listing.SlugAddressShape | scrape.py:84 | the URL address has the slug's length and holds no `-`, no `/` and no lower-case ASCII letter |
| Listing.CityOf | scrape.py:99-110 | a city is found only for a present, non-empty address |
| Listing.CityFromCommas | scrape.py:100-103 | an address with two or more commas gives as city the stripped text between its last two commas, whatever the URL |
| Listing.CityOneComma | scrape.py:100-103 | an address with exactly one comma gives as city the stripped text before it, whatever the URL |
| Listing.CityWithoutComma | scrape.py:100-110 | an address without a comma gives the city read off a non-empty URL, and no city without one |
| Listing.SlugCity | scrape.py:104-110 | the city read off the URL holds no `-` and no lower-case ASCII letter (SlugCityOfTokens gives which token it is) |
| Listing.SlugCityOfTokens | scrape.py:104-110 | for `<base>/<t0>-...-<tn>`, the URL city is the third-from-last token upper-cased when there are three or more tokens, else the first |
| Listing.LocationWithoutHeading | scrape.py:79-110 | with no heading, a comma-free non-empty slug gives both the address and the city from the URL |
| Listing.GainesvilleFromAddress | scrape.py:99-103 | the address `123 Main St, Gainesville, GA 30501` gives the city `Gainesville` |
| Listing.ContainsStr | scrape.py:161-163 | the test holds only for a present, non-empty text |
| Listing.ContainsStrOccurs | scrape.py:163 | for a non-empty text, the test holds exactly when the lower-cased substring occurs in the lower-cased text |
| Listing.ContainsStrIgnoresCase | scrape.py:163 | changing the ASCII letter case of either argument leaves the result unchanged |
| Listing.ContainsStrInfix | scrape.py:163 | a text holding the word in any ASCII letter case passes the test |
| Listing.DockExamples | scrape.py:224 | `Private DOCK included` has a dock; `None` and the empty text do not |
| Listing.SqftAsWritten | scrape.py:96 | the source's conversion succeeds only for a capture holding a digit (SqftAsWrittenRaises shows that it raises otherwise) |
| Listing.SqftAsWrittenRaises | scrape.py:93-96 | the capture `,` is a match of `[\d,]+`, and the source's conversion of it raises `ValueError` |
| Listing.Sqft | scrape.py:93-96 | the corrected square footage exists exactly when the capture holds a digit and no more digits than `int` reads (4300) |
| Listing.SqftIntended | scrape.py:96 | wherever the source's conversion succeeds, the corrected one agrees with it, and the other way round; both refuse more than 4300 digits |
| Listing.SqftExample | scrape.py:96 | `1,850` reads as 1850 |

## Left out

- Parsing the HTML with BeautifulSoup is not modelled. This covers finding the ellipsis links, the listing links, the heading, the canonical link, the description, the feature blocks and the calculator section. It also covers `parse_details`, `get_financials`, `get_description`, the title, the meta description and the image URL. The model receives the texts these lookups return.
- The bed and bath regular expressions are not modelled, and neither is the search for the square-footage match. Only the conversion of the square-footage capture is modelled.
- `fetch_html` and `requests` are not modelled: they are network I/O.
- `cache_html`, `get_cached_html`, the CSV and `pandas` functions and `main` are not modelled: they are file I/O and orchestration.
- For `load_headers`, the file-existence check, the warning and the reading of lines are left out. The lines arrive as a sequence, with their line endings kept as whitespace that `strip` removes.
- PyStr.Lower: maps ASCII letters only. Python's full Unicode case mapping, such as `ß` or Greek letters, is not modelled.
- PyStr.Upper: maps ASCII letters only, for the same reason. So the case lemmas about `contains_str` are about ASCII case: in Python `'ß'.upper()` is `'SS'`, and `contains_str('ß', 'ss')` is false while `contains_str('SS', 'ss')` is true.
- PyInt.ParseInt: accepts ASCII digits only. It does not accept the other Unicode decimal digits that Python's `int` accepts.
- PyInt.ParseInt: uses the default limit of 4300 digits. A limit changed with `sys.set_int_max_str_digits` is not modelled. Nor are Python versions without the limit, which are those before 3.11, 3.10.7, 3.9.14, 3.8.14 and 3.7.14.
- PyInt.IntToString: writes the digits of every integer, whereas Python's `str(n)` raises `ValueError` above 4300 digits. It stands for digits the site writes, and every lemma that reads them back with `int` requires at most 4300 of them.
- Python dicts keep insertion order, and a Dafny `map` does not. The source never depends on that order: it reads the dicts only with `.get` (scrape.py:234-239) and passes the headers to `requests`.
- Python's `IndexError` and `ValueError` inside `get_maxpageid` are not distinguished: both become `None`, because the source catches both alike.

## Findings

| source | as written | input that shows it | evidently intended | confidence | as-written member | corrected member |
|---|---|---|---|---|---|---|
| scrape.py:93-96 | `int(sqft_match.group(1).replace(',', ''))` converts the capture of `([\d,]+)\s*sqft`, which may consist of commas only, so `int('')` raises `ValueError` and the listing's parse fails | description text `2 beds, sqft n/a`, whose capture is `,` | a capture with no digit means the square footage is unknown (`None`) | not executed; medium | Listing.SqftAsWrittenRaises | Listing.SqftIntended |
