# OCR layout reconstruction and value post-processing, in Dafny

This project models the text-processing core of a screen OCR tool. The tool
takes the detections an OCR engine returns: a bounding box, the recognised text
and a confidence. It then does three things:

- It decides whether the page is a table or running text (`detect_mode`).
- It rebuilds the page as tab-separated values (`reconstruct_table`) or as
  plain text with its horizontal spacing kept (`reconstruct_text`).
- It applies fixes to the rebuilt text. These are a space after Markdown heading
  marks and after `:`, `,` and `;` (`post_process_text`), and list markers
  for indented lines (`_add_list_markers_by_indent`).

A second stage rewrites the numbers in a TSV block (`process_tsv` of
postprocess.py). Each cell is parsed into a number, an SI prefix (`f` to `G`)
and a unit. Numbers below a threshold are replaced. Values are converted to
another prefix, and written in scientific or engineering notation or with the
best-fitting prefix. The value and unit can be split into two cells, and the
copy strategy can keep only the value or only the unit. The hotkey manager
formats hotkey strings for display and rejects blank ones.

Modules, in dependency order:

| module | file | models |
|---|---|---|
| `Outcomes` | outcomes.dfy | `Option`, `Result`, and mapping a fallible function over a sequence |
| `Sequences` | sequences.dfy | sums, means, `abs`, `int()` truncation, flattening |
| `Strings` | strings.dfy | `strip`, `split`, `join`, ASCII case mapping, `capitalize`, digit strings |
| `Sorting` | sorting.dfy | the stable sort by key that `sorted`/`list.sort` perform |
| `Geometry` | geometry.dfy | `normalize_bbox` and the OCR item record |
| `Detect` | detect.dfy | `detect_mode` |
| `Rows` | rows.dfy | greedy row clustering on a running mean |
| `Columns` | columns.dfy | column boundaries, de-duplication, nearest-column placement, TSV output |
| `Merge` | merge.dfy | horizontal merging of touching fragments in a row |
| `Table` | table.dfy | `reconstruct_table` of src/work_ocr/layout.py |
| `LegacyLayout` | legacy_layout.dfy | `reconstruct_table` of the older top-level layout.py |
| `TextLayout` | text_layout.dfy | `reconstruct_text` |
| `TextFixes` | text_fixes.dfy | `post_process_text`, `_add_list_markers_by_indent`, `reconstruct_text_with_postprocess` |
| `TextExamples` | text_examples.dfy | the documented post-processing examples |
| `Powers` | powers.dfy | powers of ten, `floor`/`int()`/`round` of `log10` on exact reals |
| `CellSyntax` | cell_syntax.dfy | the cell pattern of `parse_cell` as a lexer, and the decimal value of its groups |
| `Values` | values.dfy | `ParsedValue`, the prefix tables, threshold, conversion and notation |
| `Pipeline` | pipeline.dfy | `PostprocessSettings` and `process_tsv` |
| `ValueExamples` | value_examples.dfy | the documented parsing and conversion examples |
| `PipelineExamples` | pipeline_examples.dfy | the documented `process_tsv` threshold example |
| `Hotkeys` | hotkeys.dfy | `format_hotkey_display` and the blank check of `validate_hotkey` |

Decimals are exact reals. Turning a real into text (`Decimal.to_eng_string()`
and Python's `'e'` format) is a function the caller passes in, the `Render`
record. Every statement about output text holds for any such function; see
"## Left out" for what a function of the value alone cannot reproduce.

## Model

| member | source | states |
|---|---|---|
| Geometry.NormalizeBbox | src/work_ocr/layout.py:15-45 | a polygon's box edges are the smallest and largest x and y among its points, each attained by some point; a rectangle keeps its corners; width and height are the extents and the centre is the midpoint |
| Geometry.PolygonMatchesRect | tests/test_layout.py:39-50 | an axis-aligned four-corner polygon normalises to the same box as the rectangle with the same corners |
| Detect.DetectMode | src/work_ocr/layout.py:47-80 | a page is a table exactly when it has at least three detections and at least half its items lie in the aligned set; otherwise it is text |
| Detect.CollectAligned | src/work_ocr/layout.py:67-73 | the double loop over pairs collects exactly the items that have another item whose centre is closer than the column threshold |
| Detect.OneColumnIsTable | src/work_ocr/layout.py:59-78 | three or more items with one common centre and a positive threshold make a table |
| Detect.ScatteredIsText | src/work_ocr/layout.py:67-80 | if no two centres are closer than the threshold, the page is text |
| Rows.Cluster | src/work_ocr/layout.py:113-124 | the rows concatenate back to the sorted input; each item joins its row only while it is within tolerance of the row's running mean, and each new row starts with an item that is not |
| Rows.ClusterUnique | src/work_ocr/layout.py:113-124 | the clustering is the only split into rows that is greedy in this sense and concatenates to the input |
| Rows.GroupRows | src/work_ocr/layout.py:111-124 | the rows hold exactly the input items; each row is non-empty and sorted by horizontal centre; rows come in ascending vertical order; there are rows exactly when there are items |
| Sorting.SortBy | src/work_ocr/layout.py:111 | the result is sorted by the key and is a permutation of the input |
| Sorting.SortStable | src/work_ocr/layout.py:111 | the sort is stable: for every key value, the elements with that key come out in the order they went in |
| Sorting.SortSorted | src/work_ocr/layout.py:122 | sorting an already sorted sequence changes nothing |
| Sorting.SortRealsPermutation | src/work_ocr/layout.py:154 | the sorted centres depend only on the multiset of centres |
| Merge.MergeInto | src/work_ocr/layout.py:142-147 | the merged text is both texts joined by a space; the left edge and vertical extent stay; the right edge is the larger of the two; a well-formed box stays well-formed |
| Merge.MergeRowText | src/work_ocr/layout.py:126-151 | merging never changes a row's texts read left to right and joined by spaces |
| Merge.MergeRowIdentity | src/work_ocr/layout.py:133-149 | a row comes out unchanged exactly when no two neighbours are within the merge threshold |
| Merge.MergeRowShape | src/work_ocr/layout.py:126-151 | a merged row has no more fragments, keeps its first left edge, is non-empty when the row is, and keeps boxes well-formed |
| Merge.MergeRowExcludes | src/work_ocr/layout.py:142 | a character other than the space that occurs in no fragment text occurs in no merged text |
| Columns.Boundaries | src/work_ocr/layout.py:156-163 | the first centre always opens a column and every boundary is one of the centres |
| Columns.BoundariesMembers | src/work_ocr/layout.py:159-163 | a centre becomes a boundary exactly when it is the first one or lies more than the gap threshold after its predecessor |
| Columns.BoundariesAscend | src/work_ocr/layout.py:154-163 | boundaries taken from sorted centres are in ascending order |
| Columns.Dedup | src/work_ocr/layout.py:165-177 | the first boundary is kept; kept boundaries are pairwise at least `avg_h` apart; each comes from the input; every dropped one is within `avg_h` of a kept one; ascending input stays ascending |
| Columns.FinalSortIsNoop | src/work_ocr/layout.py:179 | the final sort of the de-duplicated boundaries changes nothing |
| Columns.ColumnsExist | src/work_ocr/layout.py:154-179 | there is at least one column exactly when there is at least one centre |
| Columns.NearestColumn | src/work_ocr/layout.py:187-193 | the search gives -1 exactly when there are no columns, and otherwise an index in range |
| Columns.NearestColumnBest | src/work_ocr/layout.py:187-193 | the chosen column is at least as close as every column and strictly closer than every earlier one, so ties go to the leftmost |
| Columns.NearestColumnUnique | src/work_ocr/layout.py:187-193 | any index with that property is the one the search returns |
| Columns.TextPlaced | src/work_ocr/layout.py:184-200 | every fragment's text lands in the cell of the column nearest to its centre |
| Columns.ColumnTextsFrom | src/work_ocr/layout.py:184-200 | every text in a cell comes from a fragment of that row whose nearest column is that cell's |
| Columns.FillCellJoin | src/work_ocr/layout.py:197-200 | a cell is its texts joined by single spaces, with leading empty texts dropped |
| Columns.PlaceRowCells | src/work_ocr/layout.py:182-200 | a placed row has one cell per column, each filled from the texts nearest to that column |
| Columns.TsvRoundTrip | src/work_ocr/layout.py:203 | splitting the TSV on newlines and then on tabs gives back the grid, when no cell holds a tab or newline |
| Columns.GridRead | src/work_ocr/layout.py:182-203 | the TSV has one line per row, each with one tab-separated cell per column, and each cell holds the texts placed in it |
| Table.ReconstructTable | src/work_ocr/layout.py:94-95 | no detections give the empty string |
| Table.TableRowsShape | src/work_ocr/layout.py:111-151 | merging keeps the number of clustered rows; there is at least one row and no more rows than detections; each merged row is well-formed and free of a character absent from every detection |
| Table.TableShape | src/work_ocr/layout.py:83-203 | for detections without tabs or newlines, the TSV reads back as a grid of at least one row and one column, with no more rows than detections, each cell holding the merged fragments nearest to its column |
| LegacyLayout.ReconstructTable | layout.py:93-94 | no detections give the empty string |
| LegacyLayout.LegacyTableShape | layout.py:82-171 | the older TSV reads back as a grid of the unmerged clustered rows against boundaries taken from all fragment centres with the mean width as gap threshold |
| LegacyLayout.RowsUnmerged | src/work_ocr/layout.py:126-151 | when no two neighbours in any row touch, the current rows are the older, unmerged ones |
| LegacyLayout.ColumnsAgree | layout.py:120-147 | when `avg_char_w` times the gap ratio equals the mean width, both versions find the same column boundaries |
| LegacyLayout.CurrentExtendsLegacy | src/work_ocr/layout.py:83-203 | on pages where nothing merges and the two gap thresholds coincide, the current and the older `reconstruct_table` produce the same TSV |
| TextLayout.SpaceCount | src/work_ocr/layout.py:263-266 | spaces are inserted exactly when the gap is positive |
| TextLayout.SpaceCountBounds | src/work_ocr/layout.py:265 | a positive gap gets at least one space, and the count is the gap divided by the space width, truncated, unless that is zero |
| TextLayout.ReconstructText | src/work_ocr/layout.py:206-271 | no detections give the empty text; the call fails (division by zero) exactly when the space width is zero and some row has a positive gap |
| TextLayout.LineLayout | src/work_ocr/layout.py:257-269 | the line built fragment by fragment is the first text followed, for each neighbouring pair, by exactly `SpaceCount` of their gap spaces and the next text |
| TextLayout.LineSpacing | src/work_ocr/layout.py:257-269 | a line is its row's texts, left to right, with only spaces inserted between them |
| TextLayout.LineWithoutGaps | src/work_ocr/layout.py:262-268 | a row whose fragments touch or overlap is written without any space |
| TextLayout.TextShape | src/work_ocr/layout.py:206-271 | for texts without newlines, there is one line per row, at least one and no more than there are detections; each row is ordered by left edge, and its line is the first text followed, for each neighbouring pair, by exactly `SpaceCount` of their gap spaces and the next text |
| TextFixes.SpaceAfterInserts | src/work_ocr/layout.py:289-298 | each substitution only inserts spaces |
| TextFixes.SpaceAfterFixpoint | src/work_ocr/layout.py:289-298 | a substitution leaves the text unchanged exactly when its pattern matches nowhere |
| TextFixes.SpaceAfterOnce | src/work_ocr/layout.py:289-298 | a single match site gets exactly one space after the mark, and nothing else changes |
| TextFixes.SpaceAfterLonger | src/work_ocr/layout.py:289-298 | the text never shrinks, and grows whenever the pattern matches somewhere |
| TextFixes.PostProcessInsertsSpaces | src/work_ocr/layout.py:274-300 | post-processing only inserts spaces, so it keeps every other character and the number of lines |
| TextFixes.PostProcessClean | src/work_ocr/layout.py:274-300 | text none of the four patterns matches comes back unchanged |
| TextFixes.FirstContaining | src/work_ocr/layout.py:338 | the lookup gives the first item whose text contains the line, and nothing exactly when no item does |
| TextFixes.MarkLinesSpec | src/work_ocr/layout.py:321-346 | a line gets the `- ` prefix exactly when it is not blank, not a heading or already marked, follows earlier content, and its matching item is indented beyond the threshold; other lines are kept |
| TextFixes.FirstContentUnmarked | src/work_ocr/layout.py:323-346 | no line up to and including the first non-blank one is ever marked |
| TextFixes.AddListMarkersByIndent | src/work_ocr/layout.py:310-311 | fewer than two detections leave the text unchanged |
| TextFixes.AddListMarkersLines | src/work_ocr/layout.py:303-348 | the output has as many lines as the input, and each is the input line with or without the marker, as the marking rule decides |
| TextFixes.ReconstructTextWithPostprocess | src/work_ocr/layout.py:351-369 | the combined pipeline fails exactly when the plain reconstruction fails |
| TextFixes.PostprocessKeepsLines | src/work_ocr/layout.py:351-369 | the fixes and markers keep the number of lines of the raw reconstruction |
| TextExamples.SeparatorGetsSpace | src/work_ocr/layout.py:292-298 | in plain words, a `:`, `,` or `;` followed by a non-blank character (other than `/` after a colon) gets exactly one space after it |
| TextExamples.ColonBeforeSlash | src/work_ocr/layout.py:292 | a colon directly before `/` between plain words, as in `a:/b`, is left unchanged |
| TextExamples.HeadingGetsSpace | src/work_ocr/layout.py:289 | a run of `#` followed by a plain word gets one space between them |
| TextExamples.KeyFeaturesExample | tests/test_ocr_accuracy.py:83 | `###Key Features` becomes `### Key Features` |
| TextExamples.SectionExample | tests/test_ocr_accuracy.py:84 | `##Section` becomes `## Section` |
| TextExamples.ModeExample | tests/test_ocr_accuracy.py:86 | `mode:outputs` becomes `mode: outputs` |
| TextExamples.SeparatorExamples | tests/test_ocr_accuracy.py:88-90 | `word1,word2` becomes `word1, word2` and `item1;item2` becomes `item1; item2` |
| TextExamples.NotIdempotent | src/work_ocr/layout.py:292 | matches do not overlap, so `a::b` becomes `a: :b`, and a second pass changes it again to `a: : b` |
| Hotkeys.FormatHotkeyDisplay | src/work_ocr/hotkey_manager.py:127-128 | the empty string is shown as the empty string |
| Hotkeys.FormatPart | src/work_ocr/hotkey_manager.py:133-139 | all three branches agree: each part is shown stripped and capitalised |
| Hotkeys.FormatKeepsParts | src/work_ocr/hotkey_manager.py:130-141 | the display has one part per `+` in the input plus one, and each is the matching lower-cased part stripped and capitalised |
| Hotkeys.FormatIgnoresCase | src/work_ocr/hotkey_manager.py:130 | the display does not depend on the case of the input |
| Hotkeys.FormatIdempotent | src/work_ocr/hotkey_manager.py:115-141 | formatting a displayed hotkey again changes nothing |
| Hotkeys.ValidateHotkey | src/work_ocr/hotkey_manager.py:105-113 | a hotkey is valid exactly when it has a non-blank character and the key parser accepts it |
| Hotkeys.ValidateBlank | tests/test_hotkey_manager.py:28-38 | the empty and the all-blank hotkey are invalid whatever the parser says |
| Hotkeys.ExampleCtrlAltS | tests/test_hotkey_manager.py:43 | `ctrl+alt+s` is shown as `Ctrl+Alt+S` |
| Hotkeys.ExampleF1 | tests/test_hotkey_manager.py:44 | `f1` is shown as `F1` |
| Hotkeys.ExampleCtrlShiftA | tests/test_hotkey_manager.py:45 | `ctrl+shift+a` is shown as `Ctrl+Shift+A` |
| Hotkeys.ExampleAltF4 | tests/test_hotkey_manager.py:46 | `alt+f4` is shown as `Alt+F4` |
| CellSyntax.LexExact | postprocess.py:70-81 | the lexer returns a lexeme exactly when that lexeme is a possible match of the cell pattern and the cell spells it with whitespace only where the pattern allows |
| CellSyntax.LexSound | postprocess.py:70-81 | what the lexer returns is a possible match, laid out in the cell as the pattern allows |
| CellSyntax.LexComplete | postprocess.py:70-81 | every possible match, laid out with any whitespace the pattern allows, is found |
| CellSyntax.MagnitudeDigits | postprocess.py:84 | a number `i.f` has the value of the digits `if` divided by ten to the length of `f` |
| CellSyntax.MagnitudeExponent | postprocess.py:84 | the exponent group multiplies the number by the matching power of ten |
| Values.PrefixTables | postprocess.py:11-16 | the prefix-to-power and power-to-prefix tables are inverse to each other |
| Values.PrefixOf | postprocess.py:16 | a power has a prefix exactly when it is a multiple of three from -15 to 9 |
| Values.BaseValue | postprocess.py:27-32 | there is a base value exactly when the cell is a number |
| Values.FormatOriginal | postprocess.py:34-38 | a marker or unparsed cell is formatted as its own text |
| Values.ParseCell | postprocess.py:59-92 | the kept text is the stripped cell, and the cell is the special marker exactly when that text is `-` |
| Values.ParseNumeric | postprocess.py:76-90 | a cell that spells a match whose number part is a valid decimal parses to its value, prefix and unit |
| Values.ParseRefusedNumber | postprocess.py:83-92 | a cell that matches but whose number part is not a decimal (`1.2.3`) is left unparsed |
| Values.ParseUnparsed | postprocess.py:76-92 | a cell is unparsed exactly when its stripped text is not the marker and spells no match of the pattern whose number part is a valid decimal, so both a failed match and a refused number (`1.2.3`) leave it unparsed |
| Values.ParseWritten | postprocess.py:59-92 | a valid number, exponent, prefix and unit written out parse back to themselves |
| Values.ParseInteger | postprocess.py:59-92 | a natural number followed by a prefix and unit parses to that number |
| Values.MagnitudeNegative | postprocess.py:71-84 | a leading `-` before the digits negates the value of the number |
| Values.NegativeMagnitude | postprocess.py:71 | a negative whole number without exponent, `-n`, has the value -n |
| Values.ParseParts | postprocess.py:73-74 | a parsed prefix is empty or one prefix character, and the unit is letters |
| Values.ApplyThreshold | postprocess.py:95-113 | a number whose base value is below that of a numeric threshold is replaced by the parsed replacement; anything else is kept |
| Values.ThresholdIdempotent | postprocess.py:95-113 | thresholding twice is thresholding once |
| Values.ThresholdByBase | postprocess.py:107-110 | the comparison depends only on the base value, not on how it is prefixed |
| Values.ConvertUnit | postprocess.py:116-132 | a number and a known target prefix give the same base value, original text and unit under the target prefix; anything else is returned as is |
| Values.ConvertRoundTrip | postprocess.py:116-132 | converting to a prefix and back to the original prefix gives back the value |
| Values.ConvertTwice | postprocess.py:116-132 | converting twice is converting once to the second prefix |
| Values.ExponentTextValue | postprocess.py:159 | the exponent is written as `{:+03}` does: its sign, then the digits of its absolute value, padded to two digits below ten and with no leading zero from ten on |
| Powers.FloorLog10 | postprocess.py:157 | the floor of `log10 x` is the k with 10^k ≤ x < 10^(k+1) |
| Powers.TruncLog10 | postprocess.py:175 | `int(log10 x)` brackets x between powers of ten from above or below, by the sign of the logarithm |
| Powers.RoundLog10Square | postprocess.py:157 | `round(log10 x)` is the one k with 10^(2k-1) ≤ x² < 10^(2k+1), that is 10^(k-½) ≤ x < 10^(k+½) |
| Values.EngExponent | postprocess.py:157 | the engineering exponent is the multiple of three at or below the floor of `log10 x` |
| Values.EngMantissa | postprocess.py:158 | under that exponent the mantissa lies in [1, 1000) and scales back to the value |
| Values.EngExponentAsWritten | postprocess.py:157 | the code's exponent is the multiple of three at or below the rounded `log10 x` |
| Values.AsWrittenMantissa | postprocess.py:157-158 | under the code's exponent the mantissa scales back to the value but only lies in [0.1, 1000) |
| Values.ToEngineering | postprocess.py:145-159 | as the code computes it: text and the marker pass through; zero gives `0` and the unit; a negative base value fails; a positive one x gives the rendered mantissa x·10^-p, `E`, the signed exponent p and the unit, with p = 3·(round(log10 x) // 3), so the mantissa times 10^p is x and lies in [0.1, 1000) |
| Values.ToEngineeringIntended | postprocess.py:145-159 | the same with p the multiple of three at or below floor(log10 x), so the mantissa lies in [1, 1000) |
| Values.AsWrittenMantissaBelowOne | postprocess.py:157-158 | for 500 the code picks exponent 3 and mantissa 0.5, where the intended exponent is 0 |
| Values.AsWrittenDiffers | postprocess.py:157 | the two exponents differ exactly when the significand is at least √10 and `floor(log10 x)` is two more than a multiple of three |
| Values.BestPower | postprocess.py:175-176 | the chosen power is a multiple of three from -15 to 9, within one of `int(log10 x)` unless clamped; it is clamped to 9 exactly when `int(log10 x)` is at least 8 and to -15 exactly when it is at most -14 |
| Values.SciToPrefix | postprocess.py:161-182 | a negative base value fails; other numbers keep their base value, text and unit and take the empty prefix for zero or the prefix of the best power; anything else is unchanged |
| Pipeline.Transform | postprocess.py:196-204 | after parsing, thresholding and conversion, the value is the parsed cell unless it is a number, and its text is the cell's or the replacement's |
| Pipeline.Notation | postprocess.py:207-217 | the notation step fails exactly under engineering or prefix style for a negative base value, and keeps the base value and unit; without conversion, or under an unknown style, the text is `format()` of the value; scientific style writes `to_scientific`; engineering style writes the code's `to_engineering` and keeps the value; prefix style writes `format()` of the `sci_to_prefix` result and passes that result on |
| Pipeline.Finish | postprocess.py:219-229 | value-only gives the value, unit-only the prefix and unit, splitting gives both separated by a tab, and otherwise the notation text stays |
| Pipeline.ProcessCell | postprocess.py:194-231 | a cell that is not a number comes out as its stripped text; a cell fails exactly when it is a negative number under engineering or prefix notation |
| Pipeline.Cells | postprocess.py:188-192 | the block is stripped, split into lines and each line into cells |
| Pipeline.PassThrough | postprocess.py:207-209 | under any settings, a cell that does not parse as a number is output as its stripped text |
| Pipeline.DefaultsReformat | postprocess.py:40-54 | under the default settings every cell is only re-formatted |
| Pipeline.TransformKeepsBase | postprocess.py:198-204 | a number that is not below the threshold keeps its base value through conversion |
| Pipeline.CellAvoids | postprocess.py:194-231 | no output cell gains a newline, nor a tab unless value and unit are split |
| Pipeline.RowsOfCells | postprocess.py:184-234 | a successful run is the processed rows joined with tabs and newlines, one row per input line |
| Pipeline.LineCount | postprocess.py:184-234 | under any settings, including a split of value and unit, the output has one line per line of the stripped input, each the tab-joined processed cells of that line, when the replacement and the renderings hold no line break |
| Pipeline.TableShape | postprocess.py:184-234 | without splitting, in addition there is one output cell per input cell, each the processed input cell |
| ValueExamples.ParseWhole | tests/test_postprocess.py:19-35 | a whole number followed by a prefix parses to that number and prefix |
| ValueExamples.ParseMarker | tests/test_postprocess.py:24 | `-` is the special marker |
| ValueExamples.ParseKilo | tests/test_postprocess.py:27-28 | `5.1k` is 5.1 with prefix `k` |
| ValueExamples.ParseKiloOhm | tests/test_postprocess.py:39 | `1.2kOhm` is 1.2 with prefix `k` and unit `Ohm` |
| ValueExamples.ParseExponentUnit | tests/test_postprocess.py:44-46 | `1.23e-4V` is 0.000123 with unit `V` |
| ValueExamples.ParseTwoDots | tests/test_postprocess.py:50 | `1.2.3` does not parse |
| ValueExamples.BaseMega | tests/test_postprocess.py:54 | `1.5M` has base value 1500000 |
| ValueExamples.BaseMicro | tests/test_postprocess.py:56 | `3u` has base value 0.000003 |
| ValueExamples.ThresholdKeeps | tests/test_postprocess.py:60-62 | `4u` is not below `5n` and is kept |
| ValueExamples.ThresholdReplaces | tests/test_postprocess.py:63-66 | `4u` is below `5u` and `1m` and is replaced by the marker |
| ValueExamples.ConvertKiloToMega | tests/test_postprocess.py:73-77 | `1500k` converts to 1.5 with prefix `M` |
| ValueExamples.ConvertToMilli | tests/test_postprocess.py:79-83 | `0.005` converts to 5 with prefix `m` |
| ValueExamples.ConvertMicroToNano | tests/test_postprocess.py:85-89 | `0.1u` converts to 100 with prefix `n` |
| ValueExamples.PrefixForSmallValue | tests/test_postprocess.py:99-102 | the best prefix for `0.00123` is `m`, with value 1.23 |
| ValueExamples.EngineeringOfWhole | tests/test_postprocess.py:92-97 | `12345` in the code's engineering notation is the rendering of 12.345 followed by `E+03` |
| ValueExamples.EngineeringOfFiveHundred | postprocess.py:157-159 | `500` in the code's engineering notation is the rendering of 0.5 followed by `E+03`; with the exponent at or below floor(log10 500) it is the rendering of 500 followed by `E+00` |
| PipelineExamples.ThresholdTsv | tests/test_postprocess.py:142-149 | `1n<TAB>10n` thresholded at `5n` with the replacement `REPLACED` gives `REPLACED<TAB>10n`, for a rendering that writes ten as `10` |

## Left out

- Images, screen capture, the OCR engine, the GUI, the clipboard and the
  configuration file (`load_config`, `save_config`) are not part of this
  model. The detections arrive as a sequence of boxes and texts; the
  confidence is carried but unused, as in the code.
- Hotkeys.ValidateHotkey: `keyboard.parse_hotkey` is a parameter `accepts`,
  so only the blank check is proved; registering and triggering hotkeys are
  not modelled.
- Numbers are exact reals, not 50-digit `Decimal` or binary floats. The
  divisions in `reconstruct_text` and the means are exact. The
  division by a power of ten in `convert_unit` is exact in the code too, as
  long as the result fits in 50 digits.
- Values.Format: the rendering sees only the value of a number, not how the
  cell wrote it, so equal values written with different trailing zeros or
  exponents are rendered alike. `to_eng_string()` keeps the written exponent:
  `1.50` stays `1.50` and `1e3` becomes `1E+3`, where `1.5` and `1000` give
  `1.5` and `1000`. No `Render` reproduces those differences.
- `Decimal.to_eng_string()` and the `'e'` format are the `Render`
  parameter. Values.ToEngineering and Pipeline.TableShape therefore say
  nothing about the digits, precision or trailing zeros of the mantissa. The test expectations
  `1.23450E+04` and `12.3450E+03` (tests/test_postprocess.py:94, 97, 140)
  assume six-digit padding that this rendering does not fix.
- Values.ToScientific has no contract of its own: it is only the rendering of
  the base value followed by the unit, and the model states nothing about
  the digits.
- `log10` is not computed numerically. Powers.FloorLog10, Powers.TruncLog10
  and Powers.RoundLog10Square characterise it by powers of ten, on the exact
  logarithm. The code's `log10()` is rounded to 50 digits, so for a value
  within about 1e-50 of √10·10^k it can land on k+½ exactly, or on the other
  side of it, and `quantize(1)` then rounds half to even; the exact logarithm
  of a rational is never half way, so the model has no tie case. Likewise
  `int(log10())` in `sci_to_prefix` (postprocess.py:175): a value within
  about 1e-50 below a power of ten, such as 99.99…9 with fifty nines, can get
  a rounded logarithm of exactly 2, so the code picks power 3 and prefix `k`
  where Powers.TruncLog10 gives 1 and Values.BestPower gives no prefix. Both
  are consequences of using exact reals.
- A negative base value makes `Decimal.log10()` raise under engineering and
  prefix notation. This is an `Err` result that aborts the whole block, not a
  precondition.
- Characters are ASCII for `\d`, `[a-zA-Z]`, `lower()`, `upper()` and
  `capitalize()`; Unicode digits and case mappings are not modelled. `\s` and
  `strip()` use Python's whitespace set, which includes the Unicode spaces
  (Strings.IsSpace).
- The table test of `detect_mode` compares with the float `len(items) / 2`;
  the model states it as `2 * |aligned| >= |items|`, which is the same
  comparison on whole numbers.
- The key functions of Python's sorts are modelled by a stable insertion sort,
  which gives the same order; sorting is not modelled as in-place.
- The older top-level layout.py builds columns from the unmerged fragments;
  it is modelled separately as `LegacyLayout`.
- The trace in tests/test_postprocess.py:104-130, the engineering example at
  tests/test_postprocess.py:132-140 and the negative threshold example at
  tests/test_postprocess.py:68-70 are not restated as examples.

## Findings

| source | as written | input that shows it | evidently intended | confidence | as-written member | corrected member |
|---|---|---|---|---|---|---|
| postprocess.py:157 | the engineering exponent is three times `round(log10 x) // 3`, so it rounds the logarithm before flooring to a multiple of three | base value 500: `log10 500 ≈ 2.7` rounds to 3, giving `0.5E+03` | the multiple of three at or below `floor(log10 x)`, giving `500E+00` with a mantissa in [1, 1000) | not executed | Values.ToEngineering, Values.AsWrittenMantissaBelowOne | Values.ToEngineeringIntended, Values.EngMantissa |
