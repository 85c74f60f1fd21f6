# Appcast generator model

A Dafny model of the pure part of `scripts/generate_appcast.py`, the script
that turns a repository's GitHub releases into a Sparkle appcast (an RSS 2.0
feed with `sparkle:` extensions). The model covers:

- **Asset selection** (`Selection`): per release, the first asset whose
  lower-cased name ends in the best-ranked extension `.zip` < `.dmg` < `.pkg`
  is chosen; assets with no recognised extension are ignored. A `method`
  with the source's nested loop (and its `break`) is proved equal to a
  recursive specification, whose "first lowest rank" meaning is proved.
- **Item derivation** (`Derivation`): title (release name, else tag),
  notes link, publish date (published, else created, converted by the date
  function, else empty), download URL, length (`str(size)`, default `0`),
  version (the tag with every leading `v` removed, as `lstrip('v')` does,
  not only the first). A loop `method` builds the item list and is proved
  equal to the recursive specification, which is shown to keep release
  order and to produce exactly one item per release that has a preferred
  asset.
- **Escaping** (`Escaping`): `xml.sax.saxutils.escape` exactly as the
  library does it (three successive replacements: `&`, then `>`, then
  `<`), proved equal to a per-character escape; the escaped text has no
  angle brackets, every `&` begins an entity, an inverse unescape recovers
  the original, and quotes are left as they are.
- **Document assembly** (`Appcast`): the seven header lines, six lines per
  item, the two closing lines, and the final newline join. Escaping a
  missing value (`None`) raises in the source; the model returns a
  `RenderError` naming the item and the field. The title is missing when
  the release name is missing or empty and the tag is missing; a missing
  name with an empty tag gives an empty title, which renders. Quotes are
  not escaped, so a quote in a URL or version ends the enclosure's
  attribute early. A loop `method` is proved equal to the recursive
  specification, whose shape (line count, header, item slices, footer,
  when it fails and with which error) is proved.

The date conversion `iso_to_rfc2822` is a parameter `toRfc: string -> string`
of every operation that needs it; nothing is assumed about it except where a
lemma says so in its `requires`.

## Model

| member | source | states |
|---|---|---|
| Releases.Or | scripts/generate_appcast.py:59-61 | Python `a or b` on optional strings: the result is the first argument when it is present and non-empty, otherwise the second; it is truthy iff either argument is |
| Selection.Lower | scripts/generate_appcast.py:69 | lower-casing keeps the length and maps each character to its lower-case form |
| Selection.LowerKeepsLowercase | scripts/generate_appcast.py:69 | text without capital letters is left unchanged by lower-casing |
| Selection.LowerIdempotent | scripts/generate_appcast.py:69 | lower-casing twice is lower-casing once |
| Selection.RankFrom | scripts/generate_appcast.py:67-75 | the rank found by scanning the table from entry `k` is that of an entry at or after `k` |
| Selection.RankFromFinds | scripts/generate_appcast.py:70-75 | the scan from entry `k` finds nothing iff no extension from `k` on is a suffix of the name, and the rank it finds belongs to an extension the name ends with |
| Selection.RankMeansExtension | scripts/generate_appcast.py:67-75 | an asset's rank is none iff its lower-cased name ends in none of `.zip`, `.dmg`, `.pkg`, and is 0, 1, 2 exactly when it ends in `.zip`, `.dmg`, `.pkg` respectively |
| Selection.Rank | scripts/generate_appcast.py:67-75 | the rank of the asset's lower-cased name in the extension table, none when no extension matches; `RankMeansExtension` states its meaning |
| Selection.RanksAppend | scripts/generate_appcast.py:68-71 | the ranks of two asset lists placed one after the other are the ranks of each list concatenated: each asset is ranked on its own |
| Selection.Best | scripts/generate_appcast.py:72-74 | the winning position, if any, is in range and ranked |
| Selection.BestSpec | scripts/generate_appcast.py:72-74 | the fold finds nothing iff nothing is ranked, and what it finds has the lowest rank with every earlier ranked entry strictly higher |
| Selection.BestIsFirstLowest | scripts/generate_appcast.py:65-75 | the fold picks nothing iff no position is ranked, and picks position `i` iff `i` has the lowest rank and every earlier ranked position has a strictly higher one (ties go to the first) |
| Selection.UnrankedIgnored | scripts/generate_appcast.py:70-75 | inserting an unranked entry anywhere does not change the winner apart from shifting its index |
| Selection.PreferredIsBest | scripts/generate_appcast.py:65-77 | no asset is preferred iff no asset name matches; the preferred asset's name ends in a recognised extension, no matching asset ranks better, and every earlier matching asset ranks strictly worse |
| Selection.Preferred | scripts/generate_appcast.py:65-75 | the index the source's loop ends with is in range and ranked; `PreferredIsBest` and `PreferredRanks` characterise it as the first lowest-ranked asset |
| Selection.Selected | scripts/generate_appcast.py:65-77 | the asset the release is published with, if any; `PreferredIsBest`, `NonMatchingIgnored` and `SelectedOfTwo` state which one it is |
| Selection.NonMatchingIgnored | scripts/generate_appcast.py:68-75 | an asset whose name matches no extension can be removed without changing which asset is selected |
| Selection.PreferredRanks | scripts/generate_appcast.py:65-75 | the same characterisation stated on the assets' own ranks |
| Selection.SelectedOfTwo | scripts/generate_appcast.py:72-74 | of two matching assets the better-ranked one is selected, and the first one on a tie |
| Selection.ZipBeatsDmg | scripts/generate_appcast.py:64-75 | with `App.dmg` and `App.ZIP` the zip is selected whichever comes first |
| Selection.SelectPreferred | scripts/generate_appcast.py:65-75 | the nested loop with its early `break` and strict `<` returns the specified preferred asset: none iff nothing matches, otherwise the first lowest-ranked one |
| Derivation.LStripV | scripts/generate_appcast.py:82 | the result is a suffix of the input, everything removed is `v`, and the result does not start with `v` |
| Derivation.VersionProperties | scripts/generate_appcast.py:82 | the version is empty without a tag, never starts with `v`, equals the tag when the tag does not start with `v`, and stripping it again changes nothing |
| Derivation.StripsEveryLeadingV | scripts/generate_appcast.py:82 | a tag `vv` followed by text not starting with `v` gives that text: every leading `v` goes, not only the first |
| Derivation.Version | scripts/generate_appcast.py:82 | the tag with its leading `v`s removed, or empty without a tag; `VersionProperties` and `StripsEveryLeadingV` state its meaning |
| Derivation.NatToDecimal | scripts/generate_appcast.py:88 | the decimal text of a natural number is non-empty, all digits, with no leading zero |
| Derivation.NatToDecimalRoundTrip | scripts/generate_appcast.py:88 | reading the decimal text back gives the number |
| Derivation.IntToDecimalRoundTrip | scripts/generate_appcast.py:81-88 | `str(size)` for any integer size, negative ones with a minus sign, parses back to the size |
| Derivation.Length | scripts/generate_appcast.py:81-88 | `str` of the asset's size, `0` without one; `DeriveItemFields` and `IntToDecimalRoundTrip` state its meaning |
| Derivation.PubDateFallback | scripts/generate_appcast.py:61-86 | for a date function yielding non-empty text, the date is empty iff neither `published_at` nor `created_at` is truthy, and otherwise converts the published date when present, else the created date |
| Derivation.Title | scripts/generate_appcast.py:59 | the release name when non-empty, else the tag; `Releases.Or` and `DeriveItemFields` state its meaning |
| Derivation.Stamp | scripts/generate_appcast.py:61 | the publication time when non-empty, else the creation time; `PubDateFallback` states its meaning |
| Derivation.PubDate | scripts/generate_appcast.py:86 | the converted time stamp, or empty without one; `PubDateFallback` states its meaning |
| Derivation.DeriveItemFields | scripts/generate_appcast.py:56-90 | a release yields no item iff no asset matches (in particular when it has no assets); otherwise the item carries the selected asset's URL, its size written by `IntToDecimal` as `str` writes it (`0` when absent), which reads back to the size, the release's notes link, the title fallback, the stripped version and the date |
| Derivation.DeriveItem | scripts/generate_appcast.py:56-90 | the item of one release, none without a preferred asset; `DeriveItemFields` states each field |
| Derivation.Items | scripts/generate_appcast.py:56-90 | the item list of the loop over the releases; `ItemsAtOrigins`, `ItemsFollowReleases` and `ItemsConcat` state its meaning |
| Derivation.ItemsAtOrigins | scripts/generate_appcast.py:56-90 | the k-th item is derived from the k-th release that has a preferred asset |
| Derivation.ItemsFollowReleases | scripts/generate_appcast.py:56-90 | one item per qualifying release, in increasing release order, and a release contributes an item iff it has a preferred asset |
| Derivation.ItemsConcat | scripts/generate_appcast.py:57-90 | the items of two release lists placed one after the other are the items of each list concatenated |
| Derivation.BuildItems | scripts/generate_appcast.py:56-90 | the loop with `continue` returns the specified item list |
| Escaping.SaxEscape | scripts/generate_appcast.py:97-107 | `sax.escape` as the library computes it; `EscapeIsSaxEscape` shows it equals `Escape` |
| Escaping.Escape | scripts/generate_appcast.py:97-107 | the per-character escape; `EscapeWellFormed`, `EscapeRoundTrip`, `EscapePlain` and `EscapeKeepsQuotes` state its meaning |
| Escaping.EscapeIsSaxEscape | scripts/generate_appcast.py:97-98 | the three successive replacements of `sax.escape` equal escaping each character on its own |
| Escaping.EscapeWellFormed | scripts/generate_appcast.py:104-107 | escaped text contains no `<` or `>`, and every `&` in it begins `&amp;`, `&lt;` or `&gt;` |
| Escaping.EscapeRoundTrip | scripts/generate_appcast.py:97-107 | unescaping escaped text recovers it exactly |
| Escaping.EscapePlain | scripts/generate_appcast.py:107 | text without `&`, `<`, `>` is left unchanged |
| Escaping.UnescapeEscapedThenPlain | scripts/generate_appcast.py:97 | escaped text followed by plain text unescapes to the original text followed by the same plain text |
| Escaping.EscapeKeepsQuotes | scripts/generate_appcast.py:107 | escaping keeps the number of double and of single quotes, so quotes inside attribute values are not escaped |
| Appcast.Header | scripts/generate_appcast.py:93-100 | the seven opening lines; `HeaderTitle` and `HeaderLink` state what the title and link read back as |
| Appcast.EscapeField | scripts/generate_appcast.py:104-107 | one escaped field, failing on a missing value; `ItemLinesOutcome` states when it fails |
| Appcast.ElementTextOf | scripts/generate_appcast.py:104-106 | the text between an element's tags is the text that was put there |
| Appcast.ItemLines | scripts/generate_appcast.py:102-108 | the six lines of one item or the first missing field; `ItemLinesOutcome` and `ItemLinesReadBack` state its meaning |
| Appcast.Enclosure | scripts/generate_appcast.py:107 | the enclosure line with the URL, version twice and length as attributes; `EscapeKeepsQuotes` states that quotes in them stay unescaped |
| Appcast.ItemLinesOutcome | scripts/generate_appcast.py:102-108 | an item renders iff its title, notes link and URL are present; otherwise the error names the first missing of them in source order; a rendered item is six lines from `<item>` to `</item>` |
| Appcast.ItemLinesReadBack | scripts/generate_appcast.py:104-106 | the title, notes link and date elements unescape to the item's values |
| Appcast.Body | scripts/generate_appcast.py:102-108 | the item lines in order, or the first item's error; `BodySucceeds`, `BodyLines` and `BodyFailure` state its meaning |
| Appcast.BodyLength | scripts/generate_appcast.py:102-108 | a rendered item section has six lines per item |
| Appcast.BodySlice | scripts/generate_appcast.py:102-108 | item `k` renders and its lines are the six starting at position 6k of the item section |
| Appcast.BodySucceeds | scripts/generate_appcast.py:102-108 | the item section renders iff every item renders |
| Appcast.BodyLines | scripts/generate_appcast.py:102-108 | a rendered item section is the items' six-line blocks one after another |
| Appcast.BodyFailure | scripts/generate_appcast.py:102-108 | a failing item section reports the first item that does not render, and every earlier item renders |
| Appcast.BodyFailureStays | scripts/generate_appcast.py:102-108 | once a prefix of the items fails, the whole section fails with the same error |
| Appcast.Document | scripts/generate_appcast.py:93-111 | header, item lines and footer; `DocumentShape` states its layout and when it fails |
| Appcast.DocumentLines | scripts/generate_appcast.py:93-111 | a document whose items all render has the header, each item's six lines in order, and the two closing lines |
| Appcast.DocumentShape | scripts/generate_appcast.py:93-111 | the document renders iff every item renders; then it has 9 + 6n lines: the header, item k at lines 7+6k to 12+6k, and `</channel>`, `</rss>` last; otherwise the error is the first unrenderable item's |
| Appcast.HeaderTitle | scripts/generate_appcast.py:97 | the channel title reads back as the repository name followed by ` updates` |
| Appcast.HeaderLink | scripts/generate_appcast.py:93-98 | the channel link reads back as `https://github.com/` followed by the repository name |
| Appcast.SplitJoin | scripts/generate_appcast.py:118 | lines without newlines are recovered by splitting their newline join |
| Appcast.Join | scripts/generate_appcast.py:118 | the lines joined by newlines; `JoinAppend`, `FeedEnding` and `SplitJoin` state its meaning |
| Appcast.JoinAppend | scripts/generate_appcast.py:118 | joining two non-empty runs of lines is joining each and putting a newline between them |
| Appcast.JoinLastTwo | scripts/generate_appcast.py:118 | lines ending with any `x` and `y` join to text ending with a newline, `x`, a newline and `y` |
| Appcast.JoinEnding | scripts/generate_appcast.py:110-118 | lines ending with `</channel>` and `</rss>` join to text ending with a newline, `</channel>`, a newline and `</rss>` |
| Appcast.FeedEnding | scripts/generate_appcast.py:56-118 | every feed text produced ends with `</channel>` and `</rss>` on lines of their own, with no newline after |
| Appcast.GenerateOutcome | scripts/generate_appcast.py:56-118 | the feed text is produced iff every release that yields an item has a title, notes link and download URL |
| Appcast.Generate | scripts/generate_appcast.py:56-118 | the feed text or the first rendering error; `GenerateOutcome` and `FeedEnding` state its meaning |
| Appcast.AppendItem | scripts/generate_appcast.py:103-108 | the six appends of one item give the specified item lines after the existing ones, or the first field that cannot be escaped |
| Appcast.AssembleLines | scripts/generate_appcast.py:93-111 | the appending loop returns the specified document lines, or the first rendering error |
| Appcast.GenerateAppcast | scripts/generate_appcast.py:56-118 | selection, derivation, assembly and join together return the specified feed text |
| Appcast.DocumentOfOne | scripts/generate_appcast.py:93-111 | a feed of one renderable item has 15 lines |
| Appcast.TwoReleasesExample | scripts/generate_appcast.py:56-111 | a release with `app.zip` and one with only `notes.txt` give one item (title `v1.0.0`, version `1.0.0`, length `7`, empty date) and a 15-line document |

## Left out

- Reading the command line, the environment (`GITHUB_REPOSITORY`, `GITHUB_TOKEN`), the HTTP request, JSON decoding, the error messages and exit codes 2, 3 and 4: input and output; the model starts from the decoded release list.
- Creating the output directory, writing the file and the final message: input and output; the model ends with the joined text.
- `iso_to_rfc2822`: the date parsing and formatting are a parameter; its `ValueError` on malformed dates is not modelled.
- `str.lower()` is modelled on ASCII letters only; Unicode case mappings (which can change a string's length) are not.
- JSON `null` is not distinguished from an absent key for `assets` (the source would fail to iterate `None`) and for `size` (the source would write `None`); both are modelled as absent.
- Well-formedness of the whole document is not claimed: `sax.escape` does not escape quotes, so a quote in a URL or version breaks the enclosure's attributes; `Escaping.EscapeKeepsQuotes` states that quotes pass through.
- Line splitting of the whole feed is not claimed: the header's warning comment and escaped values may contain newlines, so `Appcast.SplitJoin` applies only to newline-free lines; what is claimed about the feed text is `Appcast.JoinAppend` and `Appcast.FeedEnding`.
