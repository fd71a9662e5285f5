# SVG-ify core in Dafny

A model of the server side of SVG-ify: a request (text, font family, font
size, fill colour) is validated, the family string is resolved to a font file,
and the text becomes an SVG document with one `g`/`path` pair per rendered character.

- `models.dfy` (module `Models`): the `TextRequest` schema, its two defaults
  (size 40, colour `#000000`), and the four field validators. Each validator
  has an exact accept/reject characterisation and returns its input unchanged
  when it accepts. The colour check is modelled as the backtracking match of
  `^#(?:[0-9a-fA-F]{3}){1,2}$` under `re.match`. It is proved equal to a
  shape predicate: `#`, exactly 3 or 6 hex digits, then at most one newline,
  which Python's `$` tolerates.
- `font_resolver.dfy` (module `FontResolver`): `get_font_path`. The family
  string has quotes stripped from both ends, then the first comma-separated
  entry is taken, then whitespace is trimmed. The name is then looked up in a
  name-to-path table and the file must exist. The order has a visible
  consequence, proved as a lemma: `"Arial", serif` is looked up as `Arial"`.
- `svg_generator.dfy` (module `SvgGenerator`): `generate_svg`. The `svg`
  element is a class that the method fills in place, and the character loop is
  a `for` loop whose invariants tie the element's children and the x cursor to
  the specification functions `Groups` and `SumAdvances`. Lemmas state what
  those mean:
  - groups appear exactly for the rendered characters, in string order;
  - the k-th group's x-translate is the sum of the advances of the groups
    before it;
  - the cursor never decreases when widths are non-negative;
  - the width falls back to `0.6 * size * length` when the cursor stays at 0.
- `svg_optimize.dfy` (module `SvgOptimize`): the blank-line filter of
  `optimize_svg`. The output's lines are the input's non-blank lines in order,
  and filtering and re-joining the output again changes nothing.
- `pystr.dfy` (module `PyStr`): the parts of Python's `str` used above
  (`strip`, `lstrip`, `rstrip`, `split`, `join`, and the whitespace set of
  `str.isspace`). `wrappers.dfy`: `Option` and `Result`.

Characters whose glyph name is not in the glyph set produce no group and do
not move the cursor, because the advance sits inside the glyph-set test
(server/svg_generator.py:141-169); the `0.6 * size` fallback applies only to
rendered glyphs without a width. A
character missing from the character map is looked up as `.notdef`; if the
font has a `.notdef` glyph, that character is rendered.

The font is a value: units per em, a character-to-glyph-name map, and a glyph
set of path-data strings with optional widths. A glyph without a width stands
for the `AttributeError` branch. Floating-point numbers are Dafny `real`s. A
font whose units per em is 0 fails with `ZeroUnitsPerEm`: the division sits
outside the `try` block, so in the source it is not a `ValueError`.

## Model

| member | source | states |
|---|---|---|
| `PyStr.LStrip` | server/svg_generator.py:19 | `s.lstrip(chars)`: a suffix of `s` that does not start with a stripped character, and every dropped character is a stripped one |
| `PyStr.RStrip` | server/svg_generator.py:19 | `s.rstrip(chars)`: a prefix of `s` that does not end with a stripped character, and every dropped character is a stripped one |
| `PyStr.Strip` | server/svg_generator.py:19-20 | `s.strip(chars)`, with `chars` as a character predicate: the result is a slice `s[i..j]` with only stripped characters outside it; neither of its ends is stripped; it is empty iff every character of `s` is stripped |
| `PyStr.LStripExact` | server/svg_generator.py:19 | left-stripping removes exactly the leading run of stripped characters, up to the first kept one |
| `PyStr.RStripExact` | server/svg_generator.py:19 | right-stripping removes exactly the trailing run of stripped characters, back to the last kept one |
| `PyStr.StripExact` | server/svg_generator.py:19-20 | any split of `s` into a stripped run, a middle whose ends are kept, and a stripped run gives that middle as `s.strip(chars)`, so the slice is unique |
| `PyStr.BeforeFirst` | server/svg_generator.py:20 | `s.split(sep)[0]`: a prefix of `s` without `sep`, ending at the first `sep` or at the end of `s` |
| `PyStr.Split` | server/svg_generator.py:199 | `s.split(sep)`: at least one piece, the first is the text before the first separator, and no piece contains the separator |
| `PyStr.JoinSplit` | server/svg_generator.py:199-200 | joining the pieces of a split with the same separator gives the original text back |
| `PyStr.SplitJoin` | server/svg_generator.py:199-200 | splitting the join of a non-empty list of separator-free pieces gives the pieces back |
| `PyStr.BlankIffStripEmpty` | server/svg_generator.py:199 | `line.strip()` is falsy exactly when every character of the line is Python whitespace |
| `Models.ValidateText` | server/models.py:10-14 | text is accepted iff some character is not whitespace (so the empty and whitespace-only texts are rejected with "Text cannot be empty"); accepted text is returned unchanged |
| `Models.ValidateFontSize` | server/models.py:16-22 | accepted iff 1 <= v <= 1000; below the range the message is "must be positive", above it "less than or equal to 1000"; accepted value returned unchanged |
| `Models.ColorPatternIsHexColor` | server/models.py:26 | the backtracking match of `^#(?:[0-9a-fA-F]{3}){1,2}$` succeeds exactly for `#` plus 3 or 6 hex digits plus at most one final newline |
| `Models.ValidateFillColor` | server/models.py:24-28 | colour accepted iff it has that hex-colour shape, in either letter case; accepted colour returned unchanged; otherwise the fixed hex-colour message |
| `Models.ColorDigitCounts` | server/models.py:26 | `#fff`, `#A0b1C2` and `#abc` plus newline are accepted; 4 or 5 digits, two trailing newlines and a missing `#` are rejected |
| `Models.ValidateFontFamily` | server/models.py:30-34 | family rejected only when it is the empty string (whitespace-only is accepted); accepted family returned unchanged |
| `Models.TextFieldErrors` | server/models.py:5-14 | `text` reports at most one error under its own name: "field required" exactly when it is missing, the empty-text message exactly when it has no visible character |
| `Models.FontSizeFieldErrors` | server/models.py:16-22 | `font_size` reports at most one error under its own name: the "positive" message exactly below 1, the "1000" message exactly above 1000, nothing when omitted |
| `Models.FillColorFieldErrors` | server/models.py:24-28 | `fill_color` reports at most one error under its own name, exactly when a given colour is not a hex colour; nothing when omitted |
| `Models.FontFamilyFieldErrors` | server/models.py:30-34 | `font_family` reports at most one error under its own name: "field required" exactly when missing, the empty-family message exactly when it is `""` |
| `Models.RequestErrors` | server/models.py:4-34 | the collected errors are empty iff the request is acceptable; at most one error per field, listed in declaration order |
| `Models.FieldsOfErrors` | server/models.py:4-34 | a field is named by some collected error exactly when that field's own check (presence, then its validator) fails |
| `Models.TextErrorReported` | server/models.py:5-14 | a rejection lists the missing-text error iff `text` is missing, and the empty-text error iff the given text has no visible character; some error names the field iff `text` is missing or has no visible character, so a passing field reports no error |
| `Models.FontSizeErrorReported` | server/models.py:16-22 | a rejection lists the "positive" error iff the given size is below 1, and the "1000" error iff it is above 1000; some error names the field iff a size is given outside 1..1000, so a passing field reports no error |
| `Models.FillColorErrorReported` | server/models.py:24-28 | a rejection lists the colour error iff a colour is given and is not a hex colour; some error names the field iff a colour is given that is not a hex colour, so a passing field reports no error |
| `Models.FontFamilyErrorReported` | server/models.py:30-34 | a rejection lists the missing-family error iff the family is missing, and the empty-family error iff it is `""`; some error names the field iff the family is missing or `""`, so a passing field reports no error |
| `Models.ParseRequest` | server/models.py:4-8 | a request is built iff text and family are present and every present field passes its validator; omitted size and colour take 40 and `#000000` without validation; a rejection carries exactly the collected field errors, one to four of them |
| `Models.DefaultsApply` | server/models.py:6-7 | a request naming only valid text and family gets font size 40 and colour `#000000` |
| `FontResolver.NormalizeFamily` | server/svg_generator.py:18-20 | the normalised name has no comma, no whitespace at either end, and is no longer than the input |
| `FontResolver.NormalizeFamilyExact` | server/svg_generator.py:18-20 | for every family: the name is the first comma-separated entry of the quote-stripped family, with its surrounding whitespace removed, each step fixed by where the stripped runs end |
| `FontResolver.QuotedNameAlone` | server/svg_generator.py:19-20 | a quoted name on its own, such as `"Times New Roman"`, is looked up without its quotes |
| `FontResolver.PlainNameUnchanged` | server/svg_generator.py:19-20 | a bare name (no comma, no quote or whitespace at its ends) is looked up exactly as given |
| `FontResolver.FallbackListTakesFirst` | server/svg_generator.py:20 | for `first,rest` with an unquoted first entry, only `first` is looked up |
| `FontResolver.QuotedEntryKeepsClosingQuote` | server/svg_generator.py:19-20 | quotes are stripped before the split, so `"first",rest` is looked up as `first"` with its closing quote |
| `FontResolver.ResolveFontPath` | server/svg_generator.py:90-97 | succeeds iff the normalised name has a non-empty table entry whose file exists, returning that path; otherwise "not supported" for a missing entry, "file not found" for a missing file |
| `FontResolver.SampleTable` | server/svg_generator.py:37-39 | "Times" and "Times New Roman" map to the same file |
| `FontResolver.SharedFileSameResult` | server/svg_generator.py:90-97 | two family names whose table entries name the same file resolve to the same result, whatever files exist |
| `SvgGenerator.LoadFont` | server/svg_generator.py:119-124 | loading succeeds iff the family resolves and the file parses, giving the parsed font; a resolution failure becomes `FailedToLoadFont` with that cause, and a file that does not parse becomes `FailedToLoadFont` naming the path |
| `SvgGenerator.GroupsWellFormed` | server/svg_generator.py:136-163 | every group holds exactly one path with fill `fill`, transform `scale(sf, -sf)` with `sf = size/unitsPerEm`, and y-translate `size * 1.2 * 0.8` |
| `SvgGenerator.PositionsExact` | server/svg_generator.py:135-141 | the rendered positions are exactly the indices whose glyph name (from the character map, `.notdef` when absent) is in the glyph set, strictly increasing |
| `SvgGenerator.GroupCount` | server/svg_generator.py:135-163 | the number of `g` elements equals the number of rendered characters |
| `SvgGenerator.GroupsFollowPositions` | server/svg_generator.py:141-163 | the k-th group is the group of the k-th rendered character, at the cursor reached after all characters before it |
| `SvgGenerator.EmittedAdvancesFollowPositions` | server/svg_generator.py:165-169 | the k-th summed advance is the advance of the k-th rendered character: width times scale factor, or `0.6 * size` without a width |
| `SvgGenerator.CursorSumsEmittedAdvances` | server/svg_generator.py:135-169 | the final cursor is the sum of the advances of the rendered characters; characters that are not rendered add nothing |
| `SvgGenerator.TranslateIsRunningSum` | server/svg_generator.py:141-169 | the x-translate of the k-th group is the sum of the advances of the k groups before it |
| `SvgGenerator.AdvanceNonNegative` | server/svg_generator.py:165-169 | with non-negative widths and size, every advance is non-negative |
| `SvgGenerator.CursorNeverDecreases` | server/svg_generator.py:135-169 | with non-negative widths and size, the cursor after a prefix is never more than after a longer prefix |
| `SvgGenerator.NothingRenderedFallsBack` | server/svg_generator.py:171 | when no character is rendered there are no groups, the cursor is 0, and the width is `size * length * 0.6` |
| `SvgGenerator.WidthFromCursor` | server/svg_generator.py:171 | with non-negative widths and size, the cursor is non-negative, the width equals the cursor when it is positive, and the width is never negative |
| `SvgGenerator.SvgRoot.constructor` | server/svg_generator.py:113-114 | a new `svg` element has no attributes and no children |
| `SvgGenerator.SvgRoot.SetNamespace` | server/svg_generator.py:117 | sets `xmlns`, nothing else changes |
| `SvgGenerator.SvgRoot.AppendChild` | server/svg_generator.py:160-163 | the group becomes the last child, nothing else changes |
| `SvgGenerator.SvgRoot.SetDimensions` | server/svg_generator.py:173-176 | `viewBox` becomes `0 0 w h`, `width` w and `height` h; children and namespace unchanged |
| `SvgGenerator.EmitCharacter` | server/svg_generator.py:137-169 | one pass of the loop: a rendered character gets its group (one path, fill, `scale(sf, -sf)`, translate at the cursor and `size * 1.2 * 0.8`) appended as the last child; the returned cursor is the old one plus the character's advance; nothing else on the element changes |
| `SvgGenerator.EmitText` | server/svg_generator.py:135-169 | after the loop the element's children are exactly the layout's groups and the cursor is the summed advance of the text; namespace, `viewBox`, `width` and `height` are untouched |
| `SvgGenerator.LayOutText` | server/svg_generator.py:126-176 | the element holds the layout's groups, and `width`, `height` and `viewBox` are set from the final cursor (falling back to `size * length * 0.6` when it is not positive) and `size * 1.2` |
| `SvgGenerator.GenerateSvg` | server/svg_generator.py:99-182 | fails with the load error before any character is processed when the font does not load, and with `ZeroUnitsPerEm` for a zero units-per-em; otherwise the document has the SVG namespace, exactly the layout's groups, width from the final cursor (with the fallback), height `size * 1.2`, and viewBox `0 0 width height` |
| `SvgOptimize.NonBlankLines` | server/svg_generator.py:199 | every kept line is non-blank and comes from the input; every non-blank input line is kept |
| `SvgOptimize.NonBlankLinesAppend` | server/svg_generator.py:199 | filtering a concatenation is concatenating the filtered parts, so kept lines keep their order |
| `SvgOptimize.NonBlankLinesIdempotent` | server/svg_generator.py:199 | filtering twice is filtering once |
| `SvgOptimize.OptimizeLines` | server/svg_generator.py:199-200 | the lines of the output are exactly the kept non-blank lines, none of them blank; if none is kept the output is empty |
| `SvgOptimize.OptimizeIdempotent` | server/svg_generator.py:199-200 | filtering and re-joining the output again changes nothing |

## Left out

- fontTools (`TTFont`, `getBestCmap`, `getGlyphSet`, `SVGPathPen`, `glyph.draw`): a foreign library. The font is an abstract value, and the path data of a glyph is an opaque string.
- A font without a Unicode character map (`getBestCmap()` returning `None`, which fails outside the `try`): the model's font always has a character map.
- The directory computation and `os.path.exists`: file-system I/O. The files that exist are a set of paths, and parsing is a map from path to font (a missing path does not parse).
- The 47-entry family table: configuration data. The resolver takes the table as a parameter, and `SampleTable` holds a few of its entries.
- The text of the `ValueError` messages from font resolution, which list every supported family: the model's errors carry the name and the set of supported names, not the formatted text.
- minidom: building the DOM, `toxml`, `parseString` and `toprettyxml`, and Python's `str()` of floats in attribute values. The document is a tree of values with real-valued numbers. `OptimizeLines` starts from the pretty-printed text.
- SvgOptimize.OptimizeIdempotent: states idempotence of the line filter and re-join only; `optimize_svg` first re-parses and pretty-prints its input (minidom, above), so running it twice is not modelled.
- IEEE floating-point rounding: sizes, scale factors and cursor positions are exact reals.
- pydantic's own error layout (the `loc`/`type` entries and the version-dependent wording of its missing-field error): a missing required field carries the fixed message `field required`, and each error names its field.
- pydantic type coercion (for example `"40"` to 40) and unknown fields: the raw request already has typed fields.
- Python strings holding lone surrogates: Dafny characters are Unicode scalar values.
- server/main.py (HTTP routing, CORS, the mapping of `ValueError` to 400 and other errors to 500), src/App.tsx, server/default_font.py and vite.config.ts: plumbing, UI, a data blob and build configuration.
- Stroke, animation, random colours and path-number rounding: none of them exist in the modelled code.
