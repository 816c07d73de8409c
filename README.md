# Commit enrichment model

This project models `enrich_commits_data` from the security-vulnerability
investigation helpers (`sv_investigation/helpers.py`). The function takes a
table of commit rows, one row per file changed by a commit that fixes a CVE.
It returns the same table with three derived columns, after dropping the rows
whose language is noise:

- `year`: the text before the first `-` of `cve_id`, parsed strictly as a
  64-bit signed integer. If any row's text does not parse, the whole call fails.
- `file_extension`: the text after the last `.` of `file`. It is missing when
  the name has no dot.
- `language`: the extension passed through a literal table of 50 entries.
  "scala" appears twice, with the same value.
- filter: rows whose language is `txt`, `md`, `JSON` or `YAML` are dropped.

The model is pure. A table is a `seq` of rows. The columns the pipeline does
not touch are a type parameter `rest`. A missing cell is `Option.None`. A
failed call is `Result.Failure` carrying the year text that did not parse.

Modules:

- `Wrappers`: `Option` and `Result`.
- `StrToInteger`: the library's strict string-to-integer cast. It accepts an
  optional `+`/`-` sign, then one or more ASCII digits, with a value in the
  signed 64-bit range.
- `Helpers`: the three column steps, the filter, the whole pipeline, and the
  lemmas about them.

Behaviour of the code that the model keeps:

- An extension that is not a table key is kept unchanged: `txt` stays
  `"txt"`, `md` stays `"md"`, and `xyz` stays `"xyz"`, and that row is kept
  with language `"xyz"`. This is the only way the noise names `"txt"` and
  `"md"` can ever match.
- Uppercase `JSON` and `YAML` extensions also pass through unchanged, so they
  are filtered too. The extensions that get removed are exactly json, yml,
  yaml, txt, md, JSON and YAML (`Helpers.NoiseExtensionIff`).
- The year text never contains `-`, so a successful year is never negative.

## Model

| member | source | states |
|---|---|---|
| StrToInteger.ParseInt | sv_investigation/helpers.py:5 | the strict cast succeeds exactly for an optional sign followed by one or more digits with a value in the signed 64-bit range; the result is that value, negated after a `-` |
| StrToInteger.ParseShowNat | sv_investigation/helpers.py:5 | every natural number up to the 64-bit maximum parses back from its decimal rendering |
| StrToInteger.ParseShowNatOverflow | sv_investigation/helpers.py:5 | a rendering beyond the 64-bit maximum does not parse |
| StrToInteger.ShowParseInt | sv_investigation/helpers.py:5 | an unsigned digit text without leading zeros that parses renders back to itself |
| StrToInteger.ShowNatOfDigitsValue | sv_investigation/helpers.py:5 | the decimal value of a digit string without leading zeros renders back to that string |
| StrToInteger.DigitsValueOfShowNat | sv_investigation/helpers.py:5 | the decimal value of the rendering of `n` is `n` |
| StrToInteger.ParseIntRejects | sv_investigation/helpers.py:5 | an empty text, a lone sign and a text with a non-digit fail to parse |
| StrToInteger.ParseIntSigns | sv_investigation/helpers.py:5 | a leading `+` is accepted and a leading `-` negates the value |
| Helpers.YearPrefix | sv_investigation/helpers.py:5 | element 0 of the split on `-` is a prefix of the id with no `-`, followed in the id by `-` or by nothing |
| Helpers.ParseYear | sv_investigation/helpers.py:5 | the year is the decimal value of the text before the first `-`, in 0..2^63-1, and it exists whenever that text is digits in range |
| Helpers.YearPrefixOf | sv_investigation/helpers.py:5 | for an id `<prefix>-<rest>` with no `-` in the prefix, the year text is the prefix |
| Helpers.YearOfCveId | sv_investigation/helpers.py:5 | an id made of a rendered year, `-` and any sequence text gets that year |
| Helpers.YearOfExampleId | sv_investigation/helpers.py:5 | "2021-34527" gets year 2021 |
| Helpers.YearOfPrefixedIdFails | sv_investigation/helpers.py:5 | an id that still starts with "CVE" has no year, so the call fails |
| Helpers.YearOfLeadingDashFails | sv_investigation/helpers.py:5 | an id that starts with `-` has an empty year text and no year |
| Helpers.FileExtension | sv_investigation/helpers.py:7 | the extension is missing exactly when the name has no `.`; otherwise it is the dot-free suffix immediately after a `.` |
| Helpers.ExtensionAfterLastDot | sv_investigation/helpers.py:7 | for `<stem>.<ext>` with no `.` in `ext`, the extension is `ext`, whatever the stem holds |
| Helpers.ExtensionExamples | sv_investigation/helpers.py:7 | "src/main.cpp" has extension "cpp" |
| Helpers.LastOfSeveralDots | sv_investigation/helpers.py:7 | "lib.tar.gz" has extension "gz" |
| Helpers.ExtensionEdgeCases | sv_investigation/helpers.py:7 | "README" has none, "archive." has "", and "a.d/b" has "d/b" |
| Helpers.Language | sv_investigation/helpers.py:8-64 | the language is present exactly when the extension is |
| Helpers.DuplicateScalaEntryAgrees | sv_investigation/helpers.py:29-36 | the two "scala" entries agree, so the table maps "scala" to "Scala" whichever entry wins |
| Helpers.HeadEntries | sv_investigation/helpers.py:12-36 | no value among the first 25 entries is a noise name or "txt"/"md", and no noise name is one of their keys |
| Helpers.TailValues | sv_investigation/helpers.py:37-61 | no value among the last 25 entries is "txt" or "md" |
| Helpers.TailNoiseKeys | sv_investigation/helpers.py:37-61 | among the last 25 entries, exactly the keys yml, yaml and json map to a noise language |
| Helpers.TailKeys | sv_investigation/helpers.py:37-61 | no noise name is a key among the last 25 entries |
| Helpers.TableNoiseKeys | sv_investigation/helpers.py:11-62 | a table key maps to a noise language exactly when it is json, yml or yaml |
| Helpers.NoTableValueIsTxtOrMd | sv_investigation/helpers.py:11-62 | no table value is "txt" or "md"; those names can only come from pass-through |
| Helpers.NoiseNamesAreNotKeys | sv_investigation/helpers.py:11-62 | txt, md, JSON and YAML are not table keys |
| Helpers.NoiseKeysPresent | sv_investigation/helpers.py:48-50 | json, yml and yaml are table keys |
| Helpers.NoiseExtensionIff | sv_investigation/helpers.py:8-65 | an extension gets a noise language exactly when it is one of json, yml, yaml, txt, md, JSON, YAML |
| Helpers.RustExample | sv_investigation/helpers.py:30 | "rs" gets "Rust" |
| Helpers.CppExample | sv_investigation/helpers.py:14 | "cpp" gets "C++" |
| Helpers.YamlExamples | sv_investigation/helpers.py:48-49 | "yml" and "yaml" both get "YAML" |
| Helpers.JsonAndTerraformExamples | sv_investigation/helpers.py:50-61 | "json" gets "JSON" and "tf" gets "terraform" |
| Helpers.UnmappedLanguageExamples | sv_investigation/helpers.py:8-64 | txt, md, xyz and JSON pass through unchanged, and no extension gives no language |
| Helpers.Keep | sv_investigation/helpers.py:65 | a row with a present language survives exactly when the language is not txt, md, JSON or YAML |
| Helpers.FilterNoise | sv_investigation/helpers.py:65 | the filter never grows the table, and every kept row passes Keep and comes from the input |
| Helpers.FilterNoiseSelects | sv_investigation/helpers.py:65 | the filter keeps exactly the rows that pass Keep, in their original order |
| Helpers.FilterNoiseKeepsAll | sv_investigation/helpers.py:65 | the filter keeps every row exactly when every row passes Keep |
| Helpers.FilterNoiseIdempotent | sv_investigation/helpers.py:65 | filtering an already filtered table changes nothing |
| Helpers.WithDerivedColumns | sv_investigation/helpers.py:5-64 | the column steps succeed exactly when every year parses; on success each row is its commit plus its year, extension and language; on failure the error names a year text that does not parse |
| Helpers.KeptIndicesAreSurvivors | sv_investigation/helpers.py:5-65 | the derived rows that pass the filter are at the positions of the commits that survive |
| Helpers.EnrichCommitsData | sv_investigation/helpers.py:4-66 | the call fails exactly when some year does not parse, even on a row the filter would drop; the error names such a text; on success the output is no longer than the input |
| Helpers.EnrichCommitsDataSurvivors | sv_investigation/helpers.py:4-66 | on success the output lists the surviving commits in input order, each with its cve_id, file and other columns unchanged, plus its year, extension and language |
| Helpers.SurvivorIndicesSelect | sv_investigation/helpers.py:65 | the surviving positions are increasing, and a commit survives exactly when its position is among them |
| Helpers.CleanCommitSurvives | sv_investigation/helpers.py:4-66 | every commit whose language is present and not noise has its enriched row in the output |
| Helpers.EnrichCommitsDataDropsNoise | sv_investigation/helpers.py:4-66 | no output row has a noise language or an extension that leads to one |
| Helpers.EnrichCommitsDataLength | sv_investigation/helpers.py:4-66 | the output is as long as the input exactly when every commit survives the filter |

## Left out

- The dataframe library's mechanics are not modelled: column dtypes, lazy and eager evaluation, memory layout, and the order in which columns are appended.
- `sv_investigation/const.py` holds only path constants and is not part of this model.
- Null cells in the input columns `cve_id` and `file` are not modelled: both are plain strings here.
- Helpers.FileExtension: takes the text after the last `.` on every string. In the regular expression `.*\.(.*)`, `.` does not match a newline, so file names that contain a newline can behave differently. Those are not modelled.
- Helpers.Keep: a missing language, meaning a file name with no `.`, drops the row. That follows the library's null semantics: the membership test yields null and the filter keeps only true. The statements made through Keep or Survives include this choice (FilterNoise, FilterNoiseSelects, KeptIndicesAreSurvivors, SurvivorIndicesSelect, EnrichCommitsDataSurvivors, EnrichCommitsDataLength); no proof depends on it.
- Helpers.EnrichCommitsData: the error carries the first year text that does not parse, not the library's error message or exception type. Its contract promises only some failing text, not the first.
- StrToInteger.ParseInt: only the accepted shape is modelled (optional sign, ASCII digits, 64-bit range). Overflow is decided on the unbounded value. Other radixes and whitespace handling are not modelled: the pipeline uses neither.
- The replacement table is written as two map displays of 25 entries each, joined by `+`, in source order. This is the same map as one display of all 50.
