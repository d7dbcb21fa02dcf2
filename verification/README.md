# Green roofs and community gardens: the record-processing core

`green_roof.py` is a one-shot Python 2 script over two Chicago open-data files.
For plot 1 it computes, per green-roof building, the percent of the roof that is
vegetated, classifies the building as academic or not by searching its two name
fields for `school|university|academy|college|u of|univ\.` (case-insensitive),
keeps two ID-to-percent dicts and writes `ID<TAB>percent<TAB>label` lines,
academic ones first. For plot 2 it scrubs the parks header names, sums the
non-zero community-garden counts per zip code, takes the first run of digits of
each green roof's reverse-geocoded postcode and counts roofs per zip, then writes
one `zip<TAB>gardens<TAB>green_roofs` line per zip of either dict, 0 for a
missing side.

This project models that logic in Dafny as pure functions over already-parsed
records, with methods where Python's unspecified dict and set order matters:

- `Academic` (academic.dfy): the pattern list, the regex engine's
  leftmost-first search under `IGNORECASE`, the two-field classifier, the
  routing of each record into one of the two maps, and the fold over all
  records. The percent value is an opaque type parameter `V`. The fold takes
  the classifier as a parameter; the script's classifier is `Classify`.
- `Scrub` (scrub.dfy): `re.sub('[^a-zA-Z_]', '_', h)` on each header.
- `Tally` (tally.dfy): `defaultdict(int)` reads and `+=`, and the sum of a
  counting map's values.
- `Gardens` (gardens.dfy): the parks pass.
- `Postcode` (postcode.dfy): `re.search('(\d+)', postcode).group(1)`, with the
  failing `.group` on a postcode without digits as an error value.
- `Roofs` (roofs.dfy): the green-roof pass over the geocoder's postcode
  strings, aborting at the first one without a digit.
- `Report` (report.dfy): iteration over keys in an arbitrary order
  (`Enumerate`), the merge of the two zip maps, the plot-1 rows, and both
  passes end to end.
- `Tables`, `Tsv`, `Decimal` (tables.dfy, tsv.dfy, decimal.dfy): the text of
  the two intermediate files and how it reads back.
- `Text`, `Wrappers`: ASCII character classes, substrings, `Option`/`Result`.

Under Python 2 without the UNICODE flag, `IGNORECASE` folds only ASCII letters
and `\d` matches only `0`-`9`; the model's `Lower` and `IsDigit` are exactly
that.

The plot-1 file has one line per distinct ID per class, not one per building
record: a later record with the same ID overwrites the earlier one, and one ID
can appear in both classes.

## Model

| member | source | states |
|---|---|---|
| Academic.SearchFrom | green_roof.py:38 | the search result is the leftmost position at which some alternative matches case-insensitively, with the first matching alternative in pattern order there; no result means no alternative matches anywhere |
| Academic.FirstAltAt | green_roof.py:27 | among the alternatives from a given one on, the result is the first that matches at the position; none means none of them does |
| Academic.Search | green_roof.py:38 | `re.search` of the academic pattern over a whole name finds a match if and only if the lower-cased name contains one of the six patterns |
| Academic.MatchesAtIffLowerOccurs | green_roof.py:27-38 | the engine's character-by-character case-insensitive match of a pattern at a position holds exactly when the pattern occurs there in the lower-cased name |
| Academic.SearchIffAcademic | green_roof.py:27-38 | the search succeeds on a name if and only if the lower-cased name contains one of `school`, `university`, `academy`, `college`, `u of`, `univ.` |
| Academic.Classify | green_roof.py:38 | a building is academic if and only if either name field, lower-cased, contains one of the six patterns |
| Academic.Route | green_roof.py:38-41 | a record puts its ID with its value into the map of its class, keeping every other key of that map, and leaves the other map unchanged |
| Academic.Partition | green_roof.py:33-41 | after the loop over all records, every record's ID is a key of the map of its class (PartitionKeys gives the converse and PartitionLastWins the values) |
| Academic.PartitionKeys | green_roof.py:33-41 | after the loop, each map's keys are exactly the IDs of the records of its class |
| Academic.PartitionLastWins | green_roof.py:39-41 | the value kept under an ID is that of the last record of the class with that ID; later records overwrite earlier ones |
| Academic.PartitionValueIsLast | green_roof.py:39-41 | every value in either map comes from the last record of that class with that key |
| Academic.CollegeIsAcademic | green_roof.py:27 | "Smith College Library" is classified academic |
| Academic.CityHallIsNotAcademic | green_roof.py:27 | "City Hall Annex" is classified non-academic: none of the six patterns occurs in it |
| Academic.BureauOfIsAcademic | green_roof.py:27 | substring matching also classifies "Bureau of Water" as academic, through `u of` |
| Report.EmitPercentRows | green_roof.py:44-48 | the plot-1 rows are all academic rows followed by all non-academic rows; each map's keys appear once each, with the map's value and their class's label |
| Report.PercentRowsBy | green_roof.py:33-48 | for any classifier: every record's ID is listed under its class's label, every row carries the value of the last record of its class with that ID, academic rows precede non-academic ones, and no ID repeats within a label |
| Report.PercentReport | green_roof.py:29-48 | the same facts for the script's classifier |
| Tables.LabelText | green_roof.py:46-48 | each class's label is a single tab- and newline-free field that reads back as that class |
| Tables.PercentLine | green_roof.py:46-48 | a plot-1 line holds no newline and splits at its tabs into exactly the ID, the percent text and the label, when neither the ID nor the percent text holds a tab or newline |
| Tables.PercentTable | green_roof.py:44-49 | the plot-1 file reads back as one line per row, in row order, under the same condition |
| Scrub.ScrubHeader | green_roof.py:75 | the scrubbed header has the same length, consists only of `[a-zA-Z_]`, keeps every character already in that class and has `_` wherever the input had any other character |
| Scrub.ScrubHeaders | green_roof.py:75 | one scrubbed header per input header, in column order: each is the scrub of its input, of the same length, only of `[a-zA-Z_]`, keeping the input's characters of that class and `_` in place of every other |
| Scrub.ScrubFixesClean | green_roof.py:75 | the scrub leaves a header unchanged if and only if the header consists only of `[a-zA-Z_]` |
| Scrub.ScrubIdempotent | green_roof.py:75 | scrubbing a scrubbed header changes nothing |
| Tally.Add | green_roof.py:80 | `d[k] += n` on a `defaultdict(int)` adds the key, raises its count (0 if absent) by n and leaves every other count as it was |
| Tally.SumAdd | green_roof.py:80 | adding n under one key raises the sum of all counts by exactly n |
| Gardens.AddPark | green_roof.py:79-80 | a row with 0 gardens leaves the map unchanged; otherwise its zip becomes a key and its count rises by the row's count, no other count moving |
| Gardens.GardensPerZip | green_roof.py:71-80 | after the loop over the parks rows, the zip of every row with a non-zero count is a key, and every key is the zip of such a row (GardensPerZipCorrect gives the values) |
| Gardens.GardensPerZipCorrect | green_roof.py:71-80 | a zip is a key exactly when one of its rows has a non-zero count, and its count (0 when absent) is the sum of its rows' counts |
| Gardens.GardensPerZipSum | green_roof.py:71-80 | the counts in the map add up to the gardens of the whole file |
| Postcode.FirstDigitFrom | green_roof.py:94 | the result is the first digit position at or after the start, or none when no digit follows |
| Postcode.RunEnd | green_roof.py:94 | the greedy `\d+` ends at the end of the string or at the first non-digit |
| Postcode.ExtractZip | green_roof.py:94-95 | a postcode without a digit is an error; otherwise the zip is the leftmost maximal non-empty run of digits |
| Postcode.FirstDigitRunUnique | green_roof.py:94 | a string has at most one leftmost maximal digit run |
| Postcode.ExtractZipOfParts | green_roof.py:94-95 | a digit-free prefix and whatever follows the first digit run are dropped, so "IL 60614-1234" gives "60614" |
| Roofs.AddRoof | green_roof.py:96 | one green roof raises its zip's count by exactly 1 and leaves every other count alone |
| Roofs.CountRoofs | green_roof.py:87-96 | the pass fails if and only if some postcode has no digit, and then names the first such record |
| Roofs.CountRoofsCorrect | green_roof.py:87-96 | when every postcode has a digit, the keys are exactly the records' zips and each zip's count is the number of records with that zip |
| Roofs.CountRoofsSum | green_roof.py:87-96 | the counts add up to the number of records |
| Report.Enumerate | green_roof.py:100-101 | iterating a set visits every element exactly once, in some order |
| Report.EmitZipRows | green_roof.py:100-110 | the rows' zips are exactly the union of the two maps' keys, each once; each row's garden and green-roof counts are read from their own map, 0 where the map lacks the zip |
| Report.ZipReport | green_roof.py:71-110 | end to end, the plot-2 rows fail exactly when some postcode has no digit (naming the first); otherwise they list each zip with a garden row or a green roof once, with its summed gardens and its number of green roofs |
| Tables.ZipLine | green_roof.py:110 | a plot-2 line holds no newline unless its zip does; when the zip holds no tab or newline the line splits at its tabs into the zip and the two counts' text and reads back as its row |
| Tables.ZipTable | green_roof.py:99-111 | the plot-2 file reads back as one line per row, in row order, when no zip holds a newline |
| Tables.ZipTableRoundTrip | green_roof.py:99-111 | the plot-2 file reads back as the rows it was written from when no zip holds a tab or newline |
| Decimal.NatToString | green_roof.py:110 | the text of a count is a non-empty string of decimal digits without a leading zero |
| Decimal.NatToStringRoundTrip | green_roof.py:110 | reading the digits of a count back gives the count |
| Decimal.IntToString | green_roof.py:110 | Python's `str` of an integer is non-empty, starts with `-` exactly when the integer is negative, is otherwise all decimal digits, and has no leading zero: `0` alone is the only text starting with `0`, and no `-` is followed by `0` |
| Decimal.IntToStringRoundTrip | green_roof.py:110 | every integer written as Python's `str` writes it reads back as itself |

## Left out

- Downloading the two datasets (lines 18-21): network I/O.
- Reverse geocoding (lines 89-93): an external service; the model takes the
  postcode string each record's coordinates yield as input. A missing
  `address` or `postcode` key, a timeout or a service error would abort the
  run and is not modelled.
- CSV reading and the `namedtuple` built from the header line (lines 29-34,
  72-78, 83-88): records are fixed datatypes. A scrubbed header that is still
  not a valid field name (a leading `_`, a duplicate, an empty name) would make
  `namedtuple` fail; that is not modelled.
- `int(row.COMMUNITY_GARDEN)` (lines 79-80): the count arrives already parsed;
  a non-numeric field, which would abort the run, is not modelled.
- Percent-vegetated `round(float/float*100, 2)` (line 36): floating point. The
  value is carried as an opaque `V`, and its text in the plot-1 file is a
  parameter `show`. A zero total roof area, which raises in the script, is not
  modelled.
- Python's dict and set iteration order (lines 45-48, 100-101): unspecified,
  so `Enumerate` may choose any order and the properties are stated per key,
  not per line position, except that academic lines come first.
- The R plots and the Spearman correlation (lines 52-68, 114-136): a foreign
  runtime, statistics and rendering.
- The reading side of the two files (`ParseZipTable`, `ReadLines`) is a plain
  inverse of the writing side, not a model of R's `read.table`.
- Scrub.ScrubHeader: characters are modelled as Dafny characters; under
  Python 2 the header is a byte string, so a multi-byte character becomes one
  `_` per byte rather than one `_`.
