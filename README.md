# Pallet report generator: the text-to-key pipeline

`PruebaPDF.py` is a small web page. It reads a transport record PDF and a
master Excel workbook. From the PDF text it takes the container identifier
and the pallet numbers ("folios"), then reports the workbook rows that hold
those folios. This project models the logic between the PDF text and the
report rows, in Dafny, and proves what that logic does:

- **Container identifier** (`extraer_info_pdf`). The first match of
  `[A-Z]{4}(?:\s*\d){6,7}(?:\s*-\s*\d)?` in the text, with spaces and
  newlines deleted, or `""` when nothing matches (`Container`).
- **Rule detection** (`detectar_patron_inteligente`). Three steps:
  - Dates `\d{1,2}/\d{1,2}/\d{2,4}` are deleted (`Dates`).
  - The word-bounded runs of 10 to 14 digits are collected (`Candidates`).
  - The most common first four and last two characters of those runs
    (`Mode`, which models `Counter.most_common(1)`) become the prefix and
    suffix of the rule `(P[\d\s]+?S)\b` (`Inference`). The default rule's
    lazy matching is modelled in `DefaultRule`.
- **Trimming** (lines 174-196). Each raw match of the rule loses its spaces
  and newlines. Then as many leading and trailing characters as the
  prefix and suffix have are cut off. A remainder made of digits becomes a
  key. The keys are deduplicated and sorted (`Extraction`).
- **Reconciliation** (lines 160-225). The key column is the first column
  whose name, lower-cased and stripped, is `folio`. Each key, in
  ascending order, is looked up there. The first row holding the key is
  recorded with a `Contenedor - Folio` label. Keys that no row holds are
  listed as not found (`Reconciliation`).

The scanners (`MatchAt`, `DateAt`, `CandidateAt`, `RuleAt`) follow the
regular expression engine step by step: greedy repetition, backing off,
lazy repetition and `\b`. Each is proved equal to a declarative description
of the spans its pattern accepts. The trimming loop and the reconciliation
loop are methods with loop invariants. They are proved against
specification functions, and the properties of those functions are lemmas.
`Chars` holds the character classes and the string helpers: `replace`,
`isdigit`, `int`, `str`, `lower` and `strip`.

The PDF text, the regular expression the user may edit, the user's prefix
and suffix, and the workbook are inputs. The rule's raw matches are an
input to the trimming step. A workbook row is its key cell after
`pd.to_numeric(errors='coerce')` (an optional integer) plus its cells.

## Model

| member | source | states |
|---|---|---|
| Chars.Clean | PruebaPDF.py:46 | cleaning keeps exactly the characters that are neither space nor newline, in order, and the result holds neither |
| Chars.CleanIsOneFilter | PruebaPDF.py:177 | the two chained `replace` calls equal one pass that drops spaces and newlines |
| Chars.CleanCounts | PruebaPDF.py:177 | every other character, tabs and carriage returns included, survives cleaning as often as it occurs |
| Chars.CleanConcat | PruebaPDF.py:177 | cleaning a concatenation is the concatenation of the cleaned parts, so the relative order is kept |
| Chars.CleanKeeps | PruebaPDF.py:177 | a string with no space or newline is left unchanged, so cleaning is idempotent |
| Chars.CleanAroundSpace | PruebaPDF.py:45-46 | deleting the single space between two blank-free pieces joins them ("MSDU 123" gives "MSDU123") |
| Chars.DecimalValueOfShowNat | PruebaPDF.py:218 | `int(str(n)) == n` for every non-negative n |
| Chars.ShowNat | PruebaPDF.py:218 | `str(n)` is all decimal digits, with no leading zero unless it is "0" |
| Chars.Strip | PruebaPDF.py:168 | `strip()` returns the slice between the leading and trailing whitespace, and it neither starts nor ends with whitespace |
| Chars.StripExact | PruebaPDF.py:168 | a slice with non-whitespace ends and only whitespace around it is what `strip()` returns |
| Chars.Lower | PruebaPDF.py:168 | `lower()` turns each capital into its small letter and leaves every other character as it is |
| Chars.LowerKeepsSpaces | PruebaPDF.py:168 | lower-casing neither creates nor removes whitespace |
| Container.FirstMatch | PruebaPDF.py:41 | the first position whose match succeeds, and no earlier position matches |
| Container.DigitStepSpec | PruebaPDF.py:39 | one `\s*\d` step matches exactly when the next non-whitespace character is a digit, and it consumes exactly that character |
| Container.DigitRepsLead | PruebaPDF.py:39 | the greedy `(?:\s*\d){6,7}` takes the leading digits of the squeezed text, as many as there are up to seven |
| Container.DashStepSpec | PruebaPDF.py:39 | the optional `\s*-\s*\d` matches exactly when a dash and then a digit come next, ignoring whitespace |
| Container.SerialEndSound | PruebaPDF.py:39 | the digits part the scanner finds is accepted by the pattern |
| Container.SerialEndLongest | PruebaPDF.py:39 | no accepted digits part at the same position ends later than the scanner's |
| Container.MatchAtSpec | PruebaPDF.py:39-41 | the match at a position is accepted by the pattern, and every accepted span there ends no later |
| Container.ContainerTextSpan | PruebaPDF.py:39 | the description of an accepted string on a slice agrees with the one on positions of the text |
| Container.ContainerSpanSpec | PruebaPDF.py:39-44 | `re.search` returns the leftmost start of any accepted span and the longest span there, and returns nothing exactly when no span is accepted |
| Container.CleanContainerText | PruebaPDF.py:46 | cleaning an accepted span keeps its four capitals in front and its digits part unchanged once whitespace is squeezed out |
| Container.ContainerIdSpec | PruebaPDF.py:39-48 | the identifier is "" exactly when no span matches; otherwise it starts with four capitals, holds no space or newline, and without whitespace reads `\d{6,7}(-\d)?` after the letters |
| Container.EmbeddedSpaceAccepted | PruebaPDF.py:35-37 | four capitals, a space and six or seven digits are accepted by the pattern |
| Container.EmbeddedSpaceRemoved | PruebaPDF.py:45-46 | for such a text the identifier is the letters followed by the digits, with the space removed |
| Dates.DigitsFrom | PruebaPDF.py:54 | greedy `\d{0,n}` counts the digits that follow, stopping at the first non-digit or at n |
| Dates.FieldAtShape | PruebaPDF.py:54 | one or two digits and a slash are found as a `\d{1,2}/` field |
| Dates.DateAtSpec | PruebaPDF.py:54 | the date scanner's match is a date span, every date span at that position ends no later, and it finds nothing exactly when no date starts there |
| Dates.PiecesSpec | PruebaPDF.py:54 | the `re.sub` scan cuts the text into consecutive pieces; each deleted piece is the longest date at its start, and no date starts at a kept character |
| Dates.RemoveDatesNoDate | PruebaPDF.py:54 | a text with no date in it comes back unchanged |
| Dates.RemoveWholeDate | PruebaPDF.py:54 | a text that is one date is deleted entirely |
| Dates.RenderKept | PruebaPDF.py:54 | the output is the kept characters of the text, in order |
| Dates.KeptOutsideCuts | PruebaPDF.py:54 | no kept position falls inside a deleted piece |
| Dates.RemoveDatesKeepsOnlyOutsideDates | PruebaPDF.py:54-55 | every character of the date-free text comes from a position outside all deleted dates, so no candidate uses a date's digits |
| Candidates.BackOffSpec | PruebaPDF.py:55 | backing off inside a run of digits never finds `\b`; only the end of the run can match |
| Candidates.CandidateAtSpec | PruebaPDF.py:55 | the match at a position is a word-bounded 10-14 digit span, and it is the only such span starting there |
| Candidates.CandidatesDisjoint | PruebaPDF.py:55 | two overlapping candidate spans are the same span |
| Candidates.CandidateSpansSpec | PruebaPDF.py:55 | `re.findall` lists exactly the word-bounded 10-14 digit spans of the text |
| Candidates.CandidateSpansOrdered | PruebaPDF.py:55 | the spans come in text order and do not overlap |
| Candidates.CandidatesShape | PruebaPDF.py:55 | each candidate is 10 to 14 digits |
| Mode.FirstIndex | PruebaPDF.py:61-62 | the first occurrence of a value: it holds the value and no earlier position does |
| Mode.KeysSpec | PruebaPDF.py:61-62 | the keys of `Counter` are the distinct values, each once, in order of first occurrence |
| Mode.HeaviestSpec | PruebaPDF.py:61-62 | the scan returns a key of maximal count, and every earlier key has a strictly smaller count |
| Mode.MostCommonSpec | PruebaPDF.py:61-62 | `most_common(1)` returns the most frequent value, the first seen among ties |
| Mode.ModeUnique | PruebaPDF.py:61-62 | there is only one mode in that sense |
| Mode.StrictMajorityIsMode | PruebaPDF.py:61-62 | a value more frequent than every other value is the one returned |
| Inference.Prefixes | PruebaPDF.py:59 | one entry per candidate, which is the candidate's first four characters (all of a shorter one) |
| Inference.Suffixes | PruebaPDF.py:60 | one entry per candidate, which is the candidate's last two characters (all of a shorter one) |
| Inference.CommonPrefixSpec | PruebaPDF.py:59-61 | the common prefix of digit runs is the mode of their first four characters, and it is four digits |
| Inference.CommonSuffixSpec | PruebaPDF.py:60-62 | the common suffix of digit runs is the mode of their last two characters, and it is two digits |
| Inference.DetectPatternEmpty | PruebaPDF.py:53-56 | an empty text, or no candidate once dates are removed, gives `("", 0, "", "")`; any other text gives a positive count |
| Inference.DetectPatternSpec | PruebaPDF.py:52-71 | with candidates: the count is their number, prefix and suffix are the modes (4 and 2 digits), and the rule is `(P[\d\s]+?S)\b`, from which P and S read back |
| Inference.ParseRuleText | PruebaPDF.py:69 | a synthesised rule reads back to its prefix and suffix |
| Inference.ParseRuleSound | PruebaPDF.py:69 | whatever reads back as a prefix and suffix is exactly the rule synthesised from them |
| DefaultRule.RuleAtSpec | PruebaPDF.py:69 | the default rule's match at a position is P, digits or whitespace, S and `\b`, and every such span there ends no earlier |
| DefaultRule.RuleAtShortest | PruebaPDF.py:69 | no shorter span at the same position is a match: the lazy `+?` takes the shortest |
| DefaultRule.SuffixInsideRunNotEnd | PruebaPDF.py:65-68 | an S followed by a digit never ends the match, so `\b` stops the match only at the S that ends the run |
| DefaultRule.WorkedExampleMatch | PruebaPDF.py:66-68 | on "03024052626" with P "0302" and S "26" the match is the whole run, not "030240526" |
| DefaultRule.RuleSpansSpec | PruebaPDF.py:174 | `re.findall` of the default rule is repeated leftmost search: the first span is the match at the first position that has one, the rest is found from its end, and nothing is found only when no match is left |
| DefaultRule.FindsAllMatches | PruebaPDF.py:174 | every span the search finds is the rule's match at its start |
| DefaultRule.RuleMatchesAreMatches | PruebaPDF.py:174 | each raw match is the text of the rule's match at the start the search found, in search order |
| DefaultRule.MatchKey | PruebaPDF.py:174-194 | a match cleans to P, the cleaned filler and S, and trims to a key exactly when the cleaned filler is non-empty digits, its value |
| DefaultRule.StrayWhitespaceDropsMatch | PruebaPDF.py:177-193 | a filler character that is neither a digit nor space nor newline, such as a tab, makes the match yield no key |
| Extraction.TrimKey | PruebaPDF.py:187-194 | a match yields a key exactly when it is longer than both lengths together and the middle slice is non-empty digits, and the key is that slice's value |
| Extraction.CollectKeys | PruebaPDF.py:179-194 | the loop appends exactly the keys of the matches, in order |
| Extraction.Insert | PruebaPDF.py:196 | inserting into an ascending list keeps it ascending and adds exactly that value |
| Extraction.SortedDistinct | PruebaPDF.py:196 | `sorted(list(set(xs)))` is strictly ascending and holds exactly the values of xs |
| Extraction.ExtractKeys | PruebaPDF.py:174-196 | the loop and the sort compute the keys to look up, which are strictly ascending, and a number is a key exactly when some raw match yields it |
| Extraction.KeysToLookUpSpec | PruebaPDF.py:177-196 | `lista_folios_a_buscar` is strictly ascending and holds exactly the numbers some raw match yields |
| Extraction.KeptKeysSpec | PruebaPDF.py:185-194 | a number is appended by the loop exactly when some cleaned match trims to it |
| Extraction.AscendingSize | PruebaPDF.py:196-198 | an ascending list has as many elements as distinct values, so `total_items` counts the distinct keys |
| Extraction.TrimKeyRoundTrip | PruebaPDF.py:187-194 | a number written between any prefix and suffix comes back when their lengths are cut off |
| Extraction.TrimKeyTooShort | PruebaPDF.py:187 | a match no longer than both lengths together is dropped |
| Extraction.TrimKeyExample | PruebaPDF.py:189-190 | "03024052626" with lengths 4 and 2 gives 40526 |
| Reconciliation.FirstWhere | PruebaPDF.py:168 | the first column satisfying the test, with none before it, or none at all |
| Reconciliation.FolioNameSpec | PruebaPDF.py:168 | a column name is accepted exactly when it is "folio" in any mix of small and capital letters with only whitespace around it |
| Reconciliation.FolioNameSound | PruebaPDF.py:168 | an accepted name has that form |
| Reconciliation.FolioNameComplete | PruebaPDF.py:168 | every name of that form is accepted |
| Reconciliation.LowerFolio | PruebaPDF.py:168 | a name lower-cases to "folio" exactly when it is "folio" in some mix of cases |
| Reconciliation.FirstRowFrom | PruebaPDF.py:213-217 | the first row whose key equals the folio, with none before it, or none at all |
| Reconciliation.Reconcile | PruebaPDF.py:198-221 | no keys give no lookup; no key column gives the error outcome; otherwise the found records, the missing keys and the count are those of one lookup per key |
| Reconciliation.Process | PruebaPDF.py:159-221 | nothing happens while container, rule or columns are empty; no key exactly when no match yields one; with keys, the error outcome exactly when there is no key column; otherwise the found records and missing keys are those of one lookup per key to look up, found plus missing counts the distinct keys, and missing keys are ascending, yielded and held by no row |
| Reconciliation.KeysAccounting | PruebaPDF.py:196-221 | for the keys extraction returns, the found and missing counts add up to the distinct keys yielded, and the missing keys are ascending and held by no row |
| Reconciliation.FoundSpec | PruebaPDF.py:213-219 | one record per key that has a row, built from that key's first row |
| Reconciliation.Partition | PruebaPDF.py:215-221 | each key lands in exactly one of found or not found |
| Reconciliation.Accounting | PruebaPDF.py:198-225 | `coincidencias + len(folios_no_encontrados) == total_items`, and a key is missing exactly when no row holds it |
| Reconciliation.FoundIsFirstRow | PruebaPDF.py:213-219 | a found record is built from the first row holding its key, and that key is one of the keys |
| Reconciliation.MissingAscending | PruebaPDF.py:211-221 | the not-found keys keep the ascending order of the keys |
| Reconciliation.LabelReadsBack | PruebaPDF.py:218 | the label is the container, " - " and the key in decimal, which reads back as the key |
| Reconciliation.RecordForSpec | PruebaPDF.py:217-218 | a record keeps every cell of the row and sets the `Contenedor - Folio` entry to the label |

## Left out

- Streamlit widgets, toasts, the spinner, the progress bar and `st.cache_data` (lines 9, 74-157, 206, 223) are presentation only. The values typed into the widgets are parameters.
- PyPDF2 text extraction, joining the pages with newlines, and the exception fallback (lines 29-33, 49-50) are left out. The PDF text is an input.
- pandas reading of the workbook and `pd.to_numeric(errors='coerce')` (lines 132-144, 166, 170) are left out. A row carries its key cell already coerced, as an optional integer. The comparison `df[col] == folio` on a float column is modelled as integer equality.
- Duplicate column names, and column names that are not strings (`str(c)`), are left out. Columns are strings.
- Reindexing the found rows to the selected columns (lines 233-235), the averages (lines 241-247) and the openpyxl report (lines 249-268) are left out. They are floating point and file formatting.
- The general semantics of the rule the user may edit (line 174) are left out. Its matches are an input. Only the default rule's semantics are modelled (`DefaultRule`).
- `\d`, `\w`, `str.isdigit`, `int()` and `str.lower` are modelled on ASCII letters and digits. Python also accepts Unicode digits and letters. `\s` and `str.strip` use Python's full whitespace set.
- Extraction.TrimKey: a remainder holding a character such as '²' or '①' passes `str.isdigit()` (line 193), but `int()` then raises ValueError (line 194). That aborts the whole run through the handler at lines 272-273. The model has no such characters among its digits, so it drops such a match instead of failing.
- Dates: `re.sub` can join pieces into a new date ("1/2/3/45678/90" gives "1/8/90"), so "no date left in the output" is not claimed. What is proved is that every surviving character comes from outside every deleted date.
- Container.ContainerIdSpec states the identifier's shape after all whitespace is squeezed out. Tabs and other whitespace other than space and newline stay in the identifier, as in the source.
