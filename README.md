# copycolors in Dafny

copycolors is a command-line tool that extracts the dominant colours of an
image. It prints them as hexadecimal (`#RRGGBB`) or `RGB(r,g,b)` strings
styled on their own colour, or draws them as a grid of squares. It can
exclude colours close to given hexadecimal codes and sort the palette by
contrast with black or white. For a directory it opens a terminal
browser over the image files. This project models the colour arithmetic,
the pixel filter, the palette selection and sorting, the canvas text and
grid layout, and the key-driven state of both terminal browsers. It then
proves properties of that model.

Modules, one per source file (plus two shared by both browsers):

- `Colors`: the `Color` record, the pixel layouts `ColorFormat`, `Option` and `Result`.
- `ColorMetric` (`src/color_trait.rs`): colour strings, brightness, contrast, `best_contrast`, pixel decoding, the redmean distance `delta_rgb` and `hex_to_rgb`.
- `ImageFilter` (`src/image_trait.rs`): the supported pixel formats and `filtered_image_bytes`, which drops every pixel within 5% of `MAX_DISTANCE` of an excluded colour.
- `Palette` (`src/image_file_lib.rs`): `get_colors_from_images`, with the quantizer as a parameter and the stable descending sort by contrast written both as a function and as an in-place insertion sort on an array.
- `Canvas` (`src/colors_canvas.rs`): the spans and clipboard text of `print` and `print_tui`, plus the row and column arithmetic of `draw`.
- `KeyEvents`, `Selection`: key events and the wrap-around list selection of `next` and `previous`.
- `CliUi` (`src/cli_ui.rs`): the progress gauge, the stateful list, the image browser `App` with its colour counter, and its key loop `run_app`.
- `MainApp` (`src/main.rs`): the directory browser's list and key handling, the image-file filter, the excluded-colour and reference-colour options, and the regular expression that captures an image path.

Modelling choices:

- Floating-point values (`f32`, `f64`) are exact reals.
- Time is a `now: nat` parameter, and terminal events are values.
- The quantizer is a function parameter, and a directory listing is a sequence of names.
- A `BTreeMap` is a strictly key-sorted association list.
- `file.replace(&dir_path, "")` (`src/cli_ui.rs:273`) removes every occurrence of the directory, not only a leading one. The model follows that.
- `CaptureImagePath` models the regular expression at `src/main.rs:424-426`:
  - `.` does not cross a line break, so the capture is taken from the first line that contains an extension.
  - `.*` is greedy, so within that line the capture runs to the end of the last extension.
  - Case-insensitive matching also equates `ſ` with `s`, as Unicode simple case folding of the regex engine does.
- The canvas calls `best_contrast` as written. On the two candidates black and white it returns the first candidate of maximal contrast, which `BestContrastOfTwo` and `TextColorAsWritten` state.
- The `--exc-colors` option reads each code with `hex_to_rgb` as written, so a code with non-ASCII digits makes the option panic (`MainApp.Exclusion.Panicked`). `ExcludedColorsAgree` states that the option agrees with the corrected parser whenever no code panics.

## Model

| member | source | states |
|---|---|---|
| Colors.Black | src/colors_canvas.rs:29 | the colour (0, 0, 0) |
| Colors.White | src/colors_canvas.rs:30-34 | the colour (255, 255, 255) |
| ColorMetric.Hex2 | src/color_trait.rs:23 | a byte formats as exactly two upper-case hexadecimal digits |
| ColorMetric.HexadecimalStr | src/color_trait.rs:22-24 | the code is seven characters: `#` followed by six upper-case hexadecimal digits |
| ColorMetric.DecimalStr | src/color_trait.rs:27 | a number prints as one or more ASCII digits with no leading zero |
| ColorMetric.DecimalRoundTrip | src/color_trait.rs:27 | reading the printed decimal digits back gives the number |
| ColorMetric.DecimalStrInjective | src/color_trait.rs:27 | different numbers print differently |
| ColorMetric.RgbStr | src/color_trait.rs:26-28 | the string starts with `RGB(`, ends with `)` and is 10 to 16 characters long |
| ColorMetric.Channels | src/color_trait.rs:27 | the `{},{},{}` part: the three decimal channels separated by commas |
| ColorMetric.DecimalStrAtMostThree | src/color_trait.rs:27 | a byte prints in at most three digits |
| ColorMetric.SplitAtComma | src/color_trait.rs:27 | a comma-free prefix before a comma is determined uniquely |
| ColorMetric.DecimalStrHasNoComma | src/color_trait.rs:27 | a printed number contains no comma |
| ColorMetric.SplitThree | src/color_trait.rs:27 | three comma-free fields joined by commas are recovered uniquely |
| ColorMetric.ChannelsInjective | src/color_trait.rs:27 | equal `r,g,b` texts mean equal colours |
| ColorMetric.RgbStrInjective | src/color_trait.rs:26-28 | `rgb_str` is injective: equal strings come from equal colours |
| ColorMetric.Brightness | src/color_trait.rs:30-32 | the weighted brightness lies between 0 and 255 |
| ColorMetric.ContrastWith | src/color_trait.rs:55-57 | the contrast of two colours lies between 0 and 255 |
| ColorMetric.Abs | src/color_trait.rs:56 | `.abs()` on a real: the value without its sign |
| ColorMetric.BrightnessExtremes | src/color_trait.rs:30-32 | black has brightness 0, white has 255, and every colour lies between them |
| ColorMetric.ContrastProperties | src/color_trait.rs:55-57 | contrast is symmetric, non-negative and zero against the colour itself |
| ColorMetric.LastBeatingFirst | src/color_trait.rs:42-51 | the index kept by the scan is 0 or beats the first candidate, and no later candidate beats the first |
| ColorMetric.BeatsFirst | src/color_trait.rs:46-48 | the scan's test: a candidate contrasts strictly more with the background than the first candidate does |
| ColorMetric.BestContrast | src/color_trait.rs:36-53 | the loop as written returns an index inside the slice that is 0 or beats the first candidate, with no later candidate beating the first |
| ColorMetric.FirstMaxContrast | src/color_trait.rs:36-53 | the intended choice lies in the scanned prefix |
| ColorMetric.FirstMaxContrastSpec | src/color_trait.rs:36-53 | the intended choice is the first candidate of maximal contrast in the prefix |
| ColorMetric.BestContrastCorrected | src/color_trait.rs:36-53 | the corrected loop returns the first candidate of maximal contrast |
| ColorMetric.BestContrastMissesMaximum | src/color_trait.rs:45-51 | on black, white and grey against black, the scan as written returns grey, which is not of maximal contrast |
| ColorMetric.BestContrastOfTwo | src/color_trait.rs:36-53 | with two candidates the scan as written and the corrected one agree |
| ColorMetric.ToSlice | src/color_trait.rs:59-61 | a colour becomes three bytes |
| ColorMetric.EncodePixel | src/color_trait.rs:76-104 | a pixel laid out in a format has 3 bytes for RGB and BGR and 4 for the others |
| ColorMetric.DecodeEncode | src/color_trait.rs:76-104 | `pixels_to_rbg` recovers the colour from its pixel in every format |
| ColorMetric.PixelsToRgb | src/color_trait.rs:76-104 | the channels read from the first bytes of a pixel, at the places each format puts them |
| ColorMetric.MinPixelLen | src/color_trait.rs:76-104 | the bytes `pixels_to_rbg` indexes: four for ARGB, three for the other layouts |
| ColorMetric.SliceRoundTrip | src/color_trait.rs:59-61 | decoding `to_slice` as RGB gives back the colour |
| ColorMetric.DeltaSelf | src/color_trait.rs:107-114 | the distance of a colour to itself is 0 |
| ColorMetric.DeltaRgb | src/color_trait.rs:107-114 | the weighted redmean distance of two colours, as an exact real |
| ColorMetric.MaxDistance | src/image_trait.rs:4 | `MAX_DISTANCE`, 585225 |
| ColorMetric.Sq | src/color_trait.rs:108-110 | `.powf(2.0)` on a channel difference: the square, a natural number |
| ColorMetric.DeltaSymmetric | src/color_trait.rs:107-114 | the distance is symmetric |
| ColorMetric.WeightedSumBounds | src/color_trait.rs:113 | the weighted sum lies between 0 and 585225 for squared differences in range |
| ColorMetric.DeltaBounds | src/color_trait.rs:107-114 | every distance lies between 0 and `MAX_DISTANCE`, and black to white reaches it |
| ColorMetric.DeltaChannelWeights | src/color_trait.rs:113 | red and blue weigh differently: pure red and pure blue are at different distances from black |
| ColorMetric.TrimStart | src/color_trait.rs:65 | the result is a suffix, leading white space is removed and the first kept character is not white space |
| ColorMetric.Trim | src/color_trait.rs:65 | `str::trim`: leading and then trailing white space removed |
| ColorMetric.IsWhiteSpace | src/color_trait.rs:65 | the characters `str::trim` removes: the Unicode White_Space property |
| ColorMetric.TrimEnd | src/color_trait.rs:65 | the result is a prefix, trailing white space is removed and the last kept character is not white space |
| ColorMetric.TrimUnchanged | src/color_trait.rs:65 | a string with no white space at either end is unchanged by the trim |
| ColorMetric.HexValue | src/color_trait.rs:70-72 | a hexadecimal digit's value is below 16 |
| ColorMetric.IsAsciiHexDigit | src/color_trait.rs:70-72 | the digits `from_str_radix(_, 16)` accepts: 0 to 9 and a to f in either case |
| ColorMetric.ParseHexByte | src/color_trait.rs:70-72 | `u8::from_str_radix(_, 16)` on two ASCII hexadecimal digits: sixteen times the first digit's value plus the second's |
| ColorMetric.IsUnicodeDigit | src/color_trait.rs:64 | the regex class `\d`: the decimal digits (general category Nd) of Unicode 15.0 |
| ColorMetric.MatchesHexRegex | src/color_trait.rs:64 | the regex `^(?i)#[\da-f]{6}$`: `#` then six characters, each a Unicode decimal digit or a letter a to f in either case |
| ColorMetric.RejectedByBoth | src/color_trait.rs:65-69 | a code with no white space at either end that fails the regex is reported as it stands by both parsers |
| ColorMetric.HexToRgbAsWritten | src/color_trait.rs:63-74 | `hex_to_rgb` as written: a failed regex check reports the trimmed code |
| ColorMetric.HexToRgbAsWrittenSpec | src/color_trait.rs:63-74 | as written, a code is reported exactly when it fails the regex, panics exactly when it passes with a non-ASCII digit, and parses otherwise |
| ColorMetric.HexToRgb | src/color_trait.rs:63-74 | never panics; parses exactly the trimmed `#` plus six ASCII hexadecimal digits; otherwise reports the trimmed code as invalid |
| ColorMetric.Hex2Value | src/color_trait.rs:70-72 | parsing the two printed digits of a byte gives the byte |
| ColorMetric.DigitValue | src/color_trait.rs:70-72 | each printed digit is an ASCII hexadecimal digit with its own value |
| ColorMetric.HexCodeMatchesRegex | src/color_trait.rs:64 | every ASCII hexadecimal code matches the regular expression |
| ColorMetric.HexadecimalStrAt | src/color_trait.rs:22-24 | each digit pair of `hexadecimal_str` parses back to its channel |
| ColorMetric.HexRoundTrip | src/color_trait.rs:22-24 | `hex_to_rgb(hexadecimal_str(c))` is `c`, for the code as written and corrected |
| ColorMetric.HexToRgbAgrees | src/color_trait.rs:63-74 | wherever the code as written does not panic, it agrees with the corrected parser |
| ColorMetric.AsciiLowerStr | src/color_trait.rs:64 | lower-casing keeps the length and lowers each character |
| ColorMetric.AsciiLower | src/color_trait.rs:64 | `(?i)` on ASCII letters: upper case maps to lower case, everything else is kept |
| ColorMetric.HexCaseInsensitive | src/color_trait.rs:64 | a code parses, and parses the same in lower case |
| ColorMetric.LowerHexDigit | src/color_trait.rs:64 | lower-casing a hexadecimal digit keeps it a digit of the same value |
| ColorMetric.SameDigitsSameColor | src/color_trait.rs:66-72 | two codes whose digits have equal values parse to the same colour |
| ColorMetric.HexToRgbOfCode | src/color_trait.rs:63-74 | a code with nothing to trim parses channel by channel from its digit pairs |
| ColorMetric.HexRejections | src/color_trait.rs:66-69 | non-hexadecimal digits, three digits, a missing `#` and the empty string are rejected as invalid by both the as-written and the corrected parser |
| ColorMetric.HexTrimmed | src/color_trait.rs:65 | a colour code with a leading space and a trailing line break still parses to its colour |
| ColorMetric.TrimPadded | src/color_trait.rs:65 | trimming removes a leading space and a trailing line break from a text without outer whitespace |
| ColorMetric.HexNonAsciiDigitPanics | src/color_trait.rs:64-72 | a code the regex accepts only through non-ASCII digits panics as written and is invalid after the correction |
| ColorMetric.HexArabicIndicDigitsPanic | src/color_trait.rs:64-72 | `#` followed by six Arabic-Indic zeros panics as written |
| ImageFilter.BytesPerPixel | src/image_trait.rs:42-46 | every pixel type has a positive byte width |
| ImageFilter.ColorFormatOf | src/image_trait.rs:13-27 | only 8-bit RGB and RGBA are supported, mapped to `Rgb` and `Rgba`; any other type gets the error message naming it |
| ImageFilter.Supported | src/image_trait.rs:37-40 | `color_format()` is `Ok` |
| ImageFilter.WellFormed | src/image_trait.rs:44-46 | the buffer holds whole pixels, as `step_by(color_size)` with `pixels[i..i + color_size]` needs |
| ImageFilter.ColorTypeName | src/image_trait.rs:23 | the `{other:?}` text of each colour type in the unsupported-format message |
| ImageFilter.ColorSize | src/image_trait.rs:29-34 | the stride is 3 or 4, and 3 exactly for 8-bit RGB |
| ImageFilter.ColorSizeIsPixelSize | src/image_trait.rs:29-34 | for a supported image the stride is the pixel width and covers the decoder's input |
| ImageFilter.ExcludedColorDropped | src/image_trait.rs:47-59 | a pixel equal to an excluded colour is never kept |
| ImageFilter.FarFrom | src/image_trait.rs:49-58 | the pixel's distance to the colour is at least 5% of the maximum |
| ImageFilter.Threshold | src/image_trait.rs:55 | the 5% threshold, 0.05 |
| ImageFilter.KeepPixel | src/image_trait.rs:47-59 | the pixel is far from every excluded colour |
| ImageFilter.FarFromScaled | src/image_trait.rs:54-55 | the 5% threshold reads as `20 * delta >= MAX_DISTANCE` |
| ImageFilter.FlattenLength | src/image_trait.rs:61 | flattening colours gives three bytes each |
| ImageFilter.Flatten | src/image_trait.rs:61 | `colors_bytes_vec.extend(pixel_color.to_slice())` over the colours: their red, green and blue bytes in order |
| ImageFilter.FlattenAppend | src/image_trait.rs:61 | flattening distributes over concatenation |
| ImageFilter.KeptAppend | src/image_trait.rs:44-63 | keeping pixels distributes over concatenation |
| ImageFilter.KeptMembership | src/image_trait.rs:47-62 | a colour is kept if and only if it occurs among the pixels and is far from every excluded colour |
| ImageFilter.KeptNothingExcluded | src/image_trait.rs:47-62 | with no excluded colours every pixel is kept |
| ImageFilter.KeptAllExcluded | src/image_trait.rs:47-62 | when every pixel is excluded nothing is kept |
| ImageFilter.DecodeLength | src/image_trait.rs:44-46 | `n` strides decode to `n` pixels |
| ImageFilter.DecodePixels | src/image_trait.rs:44-46 | the colours of the whole strides of a buffer, in order |
| ImageFilter.Pixels | src/image_trait.rs:42-46 | the pixels of `as_bytes()`, decoded stride by stride in the image's format |
| ImageFilter.Kept | src/image_trait.rs:44-63 | the colours kept by the filter, in order |
| ImageFilter.DecodeSnoc | src/image_trait.rs:44-46 | one more stride decodes to one more pixel |
| ImageFilter.StrideFits | src/image_trait.rs:44-46 | a stride starting before the end of a whole buffer ends inside it |
| ImageFilter.DecodeFlatten | src/image_trait.rs:61 | decoding flattened colours as RGB gives the colours back |
| ImageFilter.FlattenDecodeRgb | src/image_trait.rs:61 | flattening decoded RGB bytes gives the bytes back |
| ImageFilter.KeepPixelScan | src/image_trait.rs:47-59 | the loop over the excluded colours decides exactly `KeepPixel` |
| ImageFilter.FilteredImageBytes | src/image_trait.rs:36-65 | an error for an unsupported format, otherwise the RGB bytes of the kept pixels in order |
| ImageFilter.FilterPixels | src/image_trait.rs:44-63 | the loop over the pixel strides yields the RGB bytes of the kept decoded pixels, in order |
| ImageFilter.FilterChunk | src/image_trait.rs:45-62 | one iteration extends the bytes of the kept pixels before offset `i` to those before `i` plus one stride |
| ImageFilter.FilteredBytes | src/image_trait.rs:36-65 | the RGB bytes of the kept pixels of a supported image |
| ImageFilter.FilteredPixels | src/image_trait.rs:44-64 | the filtered bytes are whole RGB pixels, exactly the image's pixels far from every excluded colour |
| ImageFilter.FilterStep | src/image_trait.rs:44-63 | one loop step appends the next pixel's bytes exactly when it is kept |
| ImageFilter.FilteredLength | src/image_trait.rs:36-65 | the output is whole RGB triples, three per kept pixel, at most three per input pixel |
| ImageFilter.KeptLength | src/image_trait.rs:44-63 | no more pixels are kept than given |
| ImageFilter.FilteredMembership | src/image_trait.rs:36-65 | an output colour occurs if and only if it is an input pixel far from all excluded colours |
| ImageFilter.FilteredNothingExcluded | src/image_trait.rs:36-65 | with nothing excluded the output is every pixel as RGB, and an RGB image comes back unchanged |
| ImageFilter.FilteredUniformExcluded | src/image_trait.rs:36-65 | when every pixel is excluded the output is empty |
| Palette.InputFor | src/image_file_lib.rs:35-47 | with exclusions the quantizer gets whole RGB pixels, exactly the image's pixels far from every excluded colour, as `filtered_image_bytes` builds them; without, the image's raw bytes in its own format |
| Palette.RawPalette | src/image_file_lib.rs:47-49 | the quantizer's palette of that input, at quality 10 |
| Palette.Quality | src/image_file_lib.rs:49 | the quantizer quality, 10 |
| Palette.InsertDesc | src/image_file_lib.rs:50-57 | inserting into the sorted palette adds one element |
| Palette.StableSortDesc | src/image_file_lib.rs:50-57 | the sort keeps the length |
| Palette.Key | src/image_file_lib.rs:51-55 | the comparator key: `contrast_with(cc)` |
| Palette.InsertDescPermutation | src/image_file_lib.rs:50-57 | insertion adds exactly the inserted colour to the multiset |
| Palette.InsertDescSorted | src/image_file_lib.rs:50-57 | insertion keeps the order by descending contrast |
| Palette.InsertDescStable | src/image_file_lib.rs:50-57 | insertion keeps the relative order of equal-contrast colours |
| Palette.SortIsSorted | src/image_file_lib.rs:50-57 | the result is in descending contrast with the reference colour |
| Palette.SortIsPermutation | src/image_file_lib.rs:50-57 | the result is a permutation of the palette |
| Palette.SortIsStable | src/image_file_lib.rs:50-57 | colours of equal contrast keep their order, as `sort_by` is stable |
| Palette.SortByContrast | src/image_file_lib.rs:50-57 | the in-place sort leaves the array equal to the stable descending sort of its old contents |
| Palette.SortStep | src/image_file_lib.rs:50-57 | placing the next element after the last not-smaller one extends the sorted prefix |
| Palette.InsertAt | src/image_file_lib.rs:50-57 | shifting smaller elements right puts the element after the last not-smaller one and leaves the rest unchanged |
| Palette.Shifted | src/image_file_lib.rs:50-57 | the shifted prefix with the element stored at its place is the prefix with the element inserted |
| Palette.InsertDescAt | src/image_file_lib.rs:50-57 | insertion places the colour after the last element of at least its contrast |
| Palette.GetColorsFromImages | src/image_file_lib.rs:29-59 | the quantizer's palette, sorted by descending contrast when a reference colour is given and unchanged otherwise |
| Palette.PaletteProperties | src/image_file_lib.rs:48-58 | the sorted palette has the same length and colours, is descending by contrast and stable |
| Palette.SortKeepsDuplicates | src/image_file_lib.rs:50-57 | each colour occurs as often after sorting as before |
| Canvas.ColorString | src/colors_canvas.rs:77-80 | `rgb_str` with RGB labels, `hexadecimal_str` otherwise |
| Canvas.ColorStringReadsBack | src/colors_canvas.rs:77-80 | the string is 7 to 16 characters; the RGB label is bracketed by `RGB(` and `)`; the hexadecimal code parses back to the colour |
| Canvas.ColorStringInjective | src/colors_canvas.rs:77-80 | different colours get different strings in either notation |
| Canvas.ColorStrings | src/colors_canvas.rs:39-45 | one string per palette colour |
| Canvas.Joined | src/colors_canvas.rs:81-96 | the strings with a comma between two consecutive ones |
| Canvas.Separated | src/colors_canvas.rs:91-96 | the spans with a raw comma span between two consecutive ones |
| Canvas.ClipText | src/colors_canvas.rs:73-96 | the clipboard text: the colour strings joined by commas |
| Canvas.ClipboardFor | src/colors_canvas.rs:100-101 | the clipboard receives the joined text exactly when the clip flag is set |
| Canvas.TuiSpans | src/colors_canvas.rs:61-105 | the span line of `print_tui`: the colour spans separated by commas |
| Canvas.ColorSpans | src/colors_canvas.rs:74-91 | one span per palette colour |
| Canvas.TextStep | src/colors_canvas.rs:46-51 | one pass appends the colour string, and a comma unless it is the last |
| Canvas.SpansStep | src/colors_canvas.rs:84-96 | one pass appends the span, and a raw comma span unless it is the last |
| Canvas.PrintDone | src/colors_canvas.rs:39-52 | after the last pass the text and spans are the joined forms |
| Canvas.StyleColor | src/colors_canvas.rs:75-90 | the colour string, and its bold span on the colour, with the text colour `best_contrast` as written picks from black and white |
| Canvas.TextColorFor | src/colors_canvas.rs:76 | the text colour of a colour's span, chosen between black and white by contrast |
| Canvas.TextColors | src/colors_canvas.rs:28-35 | `t_colors`: black, then white |
| Canvas.SpanFor | src/colors_canvas.rs:84-89 | `Span::styled`: the colour string, on the colour, in the contrasting text colour, bold |
| Canvas.PrintTui | src/colors_canvas.rs:61-105 | the spans are the separated colour spans, and the clipboard gets the comma-joined text only when asked |
| Canvas.Print | src/colors_canvas.rs:27-59 | the same spans followed by a line break, and the same clipboard text |
| Canvas.TextColorIsBest | src/colors_canvas.rs:76 | any index of maximal contrast, the first on a tie, names the span's text colour, so the text colour is the more contrasting of black and white |
| Canvas.FirstMaximumUnique | src/color_trait.rs:36-53 | the first candidate of maximal contrast is unique |
| Canvas.TextColorChoice | src/colors_canvas.rs:63-76 | the text is black when the colour's brightness is at least half of 255, and white otherwise |
| Canvas.TextColorAsWritten | src/colors_canvas.rs:76 | on black and white, `best_contrast` as written picks the same text colour |
| Canvas.SeparatedShape | src/colors_canvas.rs:91-96 | colour spans sit at even positions and commas at odd ones, `2n-1` spans in all |
| Canvas.TuiSpansShape | src/colors_canvas.rs:74-97 | span `2k` is colour `k` styled on itself, span `2k+1` is a comma |
| Canvas.SpansTextAppend | src/colors_canvas.rs:91 | the text of concatenated spans is the concatenated text |
| Canvas.Contents | src/colors_canvas.rs:84-91 | the span texts, one per span |
| Canvas.SeparatedText | src/colors_canvas.rs:81-96 | the text of the separated spans is the comma-joined contents |
| Canvas.SpansShowClipText | src/colors_canvas.rs:81-96 | the spans on screen spell exactly the clipboard text |
| Canvas.JoinedEnd | src/colors_canvas.rs:48-51 | a join ends with the last character of its last string |
| Canvas.ClipTextEnds | src/colors_canvas.rs:92-96 | the clipboard text has no trailing comma and ends with the last colour's string |
| Canvas.JoinedBlocks | src/colors_canvas.rs:81-96 | joining seven-character strings puts string `k` at offset `8k` and a comma after it |
| Canvas.ClipTextHexLayout | src/colors_canvas.rs:81-96 | the hexadecimal clipboard text is `8n-1` characters with code `k` at offset `8k` |
| Canvas.ClipTextHexRoundTrip | src/colors_canvas.rs:81-96 | each code cut from the hexadecimal clipboard text parses back to its colour |
| Canvas.LabelFitsSquare | src/colors_canvas.rs:155-160 | a label is never wider than twice the square side, so the padding count does not underflow |
| Canvas.LayoutOf | src/colors_canvas.rs:116-126 | there is a layout exactly when there are no colours or one cell fits, and the column count is the width over the cell width |
| Canvas.SquareSide | src/colors_canvas.rs:116-119 | `square_c`: 8 with RGB labels, 4 with hexadecimal ones |
| Canvas.Spacing | src/colors_canvas.rs:122 | `c_spacing`, 2 |
| Canvas.CellWidth | src/colors_canvas.rs:124 | `2 * square_c + c_spacing`, the width of one grid cell |
| Canvas.CeilDiv | src/colors_canvas.rs:125-126 | `ceil(n / d)` on exact numbers: the quotient, plus one when there is a remainder |
| Canvas.ShortLastRow | src/colors_canvas.rs:130 | the last row is short exactly when the squares do not fill every row |
| Canvas.RowCount | src/colors_canvas.rs:124-126 | the rows hold every square, and the last row is not empty |
| Canvas.RowSquares | src/colors_canvas.rs:129-131 | the squares of a row: the column count, or the remainder on a short last row |
| Canvas.RowMargin | src/colors_canvas.rs:130-133 | the left margin of a row: half the width of the missing squares on a short last row, else 0 |
| Canvas.GridCovers | src/colors_canvas.rs:128-136 | all rows but the last are full, the last holds at least one square, and the rows add up to the colour count |
| Canvas.IndexToCell | src/colors_canvas.rs:137-139 | every colour index has a cell in the grid |
| Canvas.CellToIndex | src/colors_canvas.rs:137-139 | every cell drawn has a colour index below the count |
| Canvas.RowFits | src/colors_canvas.rs:129-136 | a row's two margins plus its squares fill the grid width, which fits the terminal |
| Selection.NextIndex | src/cli_ui.rs:203-219 | on a non-empty list the next index is inside it |
| Selection.PreviousIndex | src/cli_ui.rs:221-237 | on a non-empty list an in-range selection stays in range, and a selection above 0 steps back by one |
| Selection.FromNothing | src/cli_ui.rs:203-237 | from no selection both moves select the first item |
| Selection.WrapAround | src/cli_ui.rs:203-237 | on a selected item, `next` is `(i+1) mod len` and `previous` is `(i+len-1) mod len` |
| Selection.NextPreviousInverse | src/cli_ui.rs:203-237 | `previous` undoes `next` and `next` undoes `previous` |
| Selection.MovesStayInRange | src/main.rs:56-82 | from a selection inside the list both moves stay inside it |
| CliUi.GaugeApp.constructor | src/cli_ui.rs:20-33 | a new gauge is running at 0% with no file |
| CliUi.GaugeApp.Update | src/cli_ui.rs:44-56 | no change unless started; otherwise records the file and the progress, clamps at 100 and quits there |
| CliUi.GaugeApp.Start | src/cli_ui.rs:79-81 | the state becomes started, and nothing else changes |
| CliUi.GaugeApp.Quit | src/cli_ui.rs:83-87 | the state becomes quitting, and nothing else changes |
| CliUi.GaugeApp.HandleEvents | src/cli_ui.rs:58-77 | the process exits exactly on a pressed q, Q or Esc, or Ctrl-C; otherwise the gauge is started |
| CliUi.IsGaugeQuitKey | src/cli_ui.rs:63-70 | the keys that quit the gauge: a pressed q, Q or Esc, or c or C with Control |
| CliUi.StatefulList.WithItems | src/cli_ui.rs:190-201 | the items, no selection, scroll 0, the start time and all flags cleared |
| CliUi.StatefulList.Next | src/cli_ui.rs:203-219 | selects the next index with wrap-around, scrolls to it and clears the three flags |
| CliUi.StatefulList.Previous | src/cli_ui.rs:221-237 | selects the previous index with wrap-around, scrolls to it and clears the three flags |
| CliUi.StatefulList.Unselect | src/cli_ui.rs:239-242 | clears the selection and the scroll and keeps the flags |
| CliUi.NormalizeDir | src/cli_ui.rs:266-270 | the result ends in `/`; a directory already ending in `/` is returned unchanged, any other gains exactly one `/` |
| Strings.EndsWith | src/cli_ui.rs:266 | `str::ends_with`: the text's last characters are the suffix |
| Strings.StartsWith | src/cli_ui.rs:266 | `str::starts_with`: the text's first characters are the prefix |
| CliUi.NormalizeDirIdempotent | src/cli_ui.rs:266-270 | normalising twice is normalising once |
| CliUi.RemoveAll | src/cli_ui.rs:273 | removing a pattern never lengthens a name |
| CliUi.Occurs | src/cli_ui.rs:273 | the pattern `str::replace` removes occurs somewhere in the text |
| CliUi.OccursAt | src/cli_ui.rs:273 | the pattern occurs at a given offset |
| CliUi.RemoveAllAbsent | src/cli_ui.rs:273 | a name without the pattern is unchanged |
| CliUi.RelativeName | src/cli_ui.rs:266-273 | a path made of the directory and a name not containing it becomes that name |
| CliUi.ItemNames | src/cli_ui.rs:271-274 | one item per image path, in key order, each the path with the directory removed |
| CliUi.StrLessCommonPrefix | src/cli_ui.rs:247 | a common prefix does not change the order of two names |
| CliUi.ItemsSorted | src/cli_ui.rs:258-285 | for paths under the directory the items are the file names, strictly sorted like the map keys |
| CliUi.StrLess | src/cli_ui.rs:247 | the key order of `BTreeMap<String, _>`: lexicographic by character, a proper prefix first |
| CliUi.KeysSorted | src/cli_ui.rs:247 | the keys of the map ascend strictly |
| CliUi.Incremented | src/cli_ui.rs:287-292 | a count within 2..10 stays there; the count grows by at most one, and stays fixed exactly at 10 or above |
| CliUi.MinExtracted | src/cli_ui.rs:296 | the lower limit of the extracted-colour count, 2 |
| CliUi.MaxExtracted | src/cli_ui.rs:289 | the upper limit of the extracted-colour count, 10 |
| CliUi.Decremented | src/cli_ui.rs:294-299 | a count within 2..10 stays there; the count shrinks by at most one, and stays fixed exactly at 2 or below |
| CliUi.CounterInverse | src/cli_ui.rs:287-299 | inside the limits, decrement undoes increment and increment undoes decrement |
| CliUi.KeyStep | src/cli_ui.rs:315-364 | one key of the loop: a non-press changes nothing, otherwise the mode's branch |
| CliUi.Moved | src/cli_ui.rs:322-343 | the state after `items.next()` or `items.previous()` selects an index: selected and scrolled there, the three flags cleared |
| KeyEvents.IsPress | src/cli_ui.rs:317-363 | a pressed key with the given code, as the `key.kind == Press` test and a match arm require |
| KeyEvents.IsPressOf | src/cli_ui.rs:317-363 | a pressed letter key in either case, as the arms that list both cases of a letter accept |
| KeyEvents.IsMoveKey | src/cli_ui.rs:317-363 | a pressed Down or Up, the keys that move the selection |
| CliUi.NormalStep | src/cli_ui.rs:316-331 | normal mode: q or Q quits, Down and Up enter browsing on the next or previous item |
| CliUi.BrowsingStep | src/cli_ui.rs:332-363 | browsing mode: Left leaves with no selection, Down and Up move, characters go to the character branch |
| CliUi.BrowsingCharStep | src/cli_ui.rs:345-360 | Ctrl-C stamps a copy, q or Q quits, l/L and m/M change the colour counter |
| CliUi.KeyStepQuits | src/cli_ui.rs:316-363 | the loop ends exactly on a pressed q or Q, in either mode, leaving the state unchanged |
| CliUi.KeyStepIgnoresNonPress | src/cli_ui.rs:316-363 | a release or repeat changes nothing |
| CliUi.KeyStepValid | src/cli_ui.rs:316-363 | a key keeps the invariant: nothing is selected exactly in normal mode, and the selection lies inside a non-empty list |
| CliUi.KeyStepCounter | src/cli_ui.rs:352-359 | only l/L and m/M while browsing move the colour counter, by the bounded decrement or increment |
| CliUi.KeyStepCopy | src/cli_ui.rs:345-350 | Ctrl-C while browsing sets the copy flag and the time, and does nothing in normal mode |
| CliUi.KeyStepLeft | src/cli_ui.rs:335-338 | Left while browsing returns to normal mode with no selection |
| CliUi.DownUpRoundTrip | src/cli_ui.rs:339-344 | Down then Up, and Up then Down, return to the same selection |
| CliUi.Run | src/cli_ui.rs:309-367 | the loop consumes at most the given events |
| CliUi.FirstQuit | src/cli_ui.rs:309-367 | the position of the first pressed q or Q, or the end |
| CliUi.RunStopsAtFirstQuit | src/cli_ui.rs:309-367 | the loop quits exactly when a q or Q is pressed, and stops right after the first |
| CliUi.RunValid | src/cli_ui.rs:309-367 | the same invariant holds after any run of keys |
| CliUi.NonEmptyRunAllowed | src/cli_ui.rs:203-237 | on a non-empty list every run of keys is safe from the index underflow |
| CliUi.App.constructor | src/cli_ui.rs:258-285 | normal mode, no selection, the counter at `nb_colors`, and the items derived from the map keys |
| CliUi.App.IncrementNbExtractedColors | src/cli_ui.rs:287-292 | the counter is the bounded increment, and nothing else changes |
| CliUi.App.DecrementNbExtractedColors | src/cli_ui.rs:294-299 | the counter is the bounded decrement, and nothing else changes |
| CliUi.App.HandleKey | src/cli_ui.rs:315-364 | the new state and the quit flag are the key step of the old state, with the configuration unchanged |
| CliUi.App.HandleNormalKey | src/cli_ui.rs:316-331 | normal mode: quit, or enter browsing with the next or previous item |
| CliUi.App.HandleBrowsingKey | src/cli_ui.rs:332-363 | browsing mode: Left, Down, Up and the character keys |
| CliUi.App.HandleBrowsingChar | src/cli_ui.rs:345-360 | browsing mode: copy, quit, fewer and more colours |
| CliUi.App.RunApp | src/cli_ui.rs:302-368 | the loop's final state, the events consumed and the quit flag are those of the run over the events |
| MainApp.FileList.WithItems | src/main.rs:49-54 | the items with no selection |
| MainApp.FileList.Next | src/main.rs:56-68 | selects the next index with wrap-around |
| MainApp.FileList.Previous | src/main.rs:70-82 | selects the previous index with wrap-around |
| MainApp.FileList.Unselect | src/main.rs:84-86 | clears the selection |
| MainApp.BrowserStep | src/main.rs:129-164 | one key of the browser: a non-press changes nothing, q quits, Down, Up and Left move as in the list |
| MainApp.BrowserQuits | src/main.rs:129-164 | only a pressed lower-case q quits, in either mode, and Q does not |
| MainApp.BrowserStepValid | src/main.rs:129-164 | keys keep the selection inside a non-empty list, and a non-press changes nothing |
| MainApp.BrowserEnterLeave | src/main.rs:134-152 | Down enters browsing on the first item, and Left leaves it with no selection |
| MainApp.App.constructor | src/main.rs:98-114 | the items are the directory's image files, in normal mode with empty output |
| MainApp.App.HandleKey | src/main.rs:129-164 | the new mode, the selection and the quit flag are the browser step of the old ones |
| MainApp.FilterImageFiles | src/main.rs:99-107 | a name is kept if and only if it is listed and ends in `.` plus an image extension |
| MainApp.HasImageExtension | src/main.rs:100 | the name ends in `.` and one of the image extensions |
| MainApp.ImageExtensions | src/main.rs:100 | the twelve extensions of the alternation, in its order: png, jpeg, jpg, gif, bmp, ico, tiff, webp, avif, pnm, dds, tga (the same list as main.rs:425) |
| MainApp.FilterImageFilesAppend | src/main.rs:102-107 | the filter distributes over concatenation, keeping order |
| MainApp.UpperCaseRejected | src/main.rs:100 | the match is case-sensitive: a name not ending in a lower-case letter is never an image |
| MainApp.FilterExamples | src/main.rs:100 | `cat.jpeg` and `a.b.png` match, and `a.PNG` is dropped |
| MainApp.ReferenceColor | src/main.rs:380-393 | black when `bcb` is set, white for `bcw` alone, none otherwise |
| MainApp.ExtractedCount | src/main.rs:492 | `nb_colors as u8`: a count below 256 is kept, and any other count is replaced by its remainder modulo 256 |
| MainApp.ExtractedCountWraps | src/main.rs:492 | asking for 258 colours extracts 2, and 256 extracts none |
| MainApp.ExcludedColors | src/main.rs:372-378 | the `--exc-colors` codes read one by one, stopping at the first exit or panic |
| MainApp.Collected | src/main.rs:372-378 | the colours of the parses in order, or the outcome of the first failed parse |
| MainApp.FailureOf | src/main.rs:374 | the outcome of a failed `hex_to_rgb`: the exit with the trimmed code, or the panic |
| MainApp.Parses | src/main.rs:372-375 | each code's outcome under `hex_to_rgb` as written, in order |
| MainApp.CollectedSpec | src/main.rs:372-378 | either every parse succeeded and the colours are the parsed ones in order, or the outcome is that of the first failed parse: its trimmed code, or a panic |
| MainApp.ExcludedColorsOk | src/main.rs:372-378 | the option yields colours exactly when every code parses under `hex_to_rgb` as written, and then yields the parsed colours in order |
| MainApp.ExcludedColorsFailure | src/main.rs:372-378 | an exit prints the first code that fails the regex, trimmed; a panic comes from the first code that passes the regex with a non-ASCII digit; every earlier code parsed |
| MainApp.ExcludedColorsAgree | src/main.rs:372-378 | when no code panics, reading the codes as written gives the same outcome as the corrected parser |
| MainApp.CollectedAllParsed | src/main.rs:372-379 | when every code parses, the result is those colours |
| MainApp.ExcludedColorsRoundTrip | src/main.rs:372-379 | the printed codes of colours give back the colours |
| MainApp.ExtAtFrom | src/main.rs:425 | a match of `.` plus an extension has positive length inside the string |
| MainApp.ExtAt | src/main.rs:425 | `\.(…)` under `(?i)` at a position: the length of the extension match there, if any |
| MainApp.CaseEq | src/main.rs:425 | a character matches an extension letter under `(?i)`: its ASCII lower case, or `ſ` for `s` |
| MainApp.MatchesExtAt | src/main.rs:425 | `\.(ext)` under `(?i)` at a position: a dot followed by the extension's letters in any case |
| MainApp.ExtAtFromSpec | src/main.rs:425 | the match is `.` followed by the first extension of the alternation that matches, ignoring case |
| MainApp.ExtAtFromDot | src/main.rs:425 | no match starts without a dot |
| MainApp.MatchLengths | src/main.rs:425 | one match length per position |
| MainApp.MatchLengthsTable | src/main.rs:425 | every match in the table fits in the text and starts at a dot |
| MainApp.MatchLengthsAt | src/main.rs:425 | the table holds exactly the extension matches |
| MainApp.LastMatchIn | src/main.rs:425 | the last position with a match in a range, or none |
| MainApp.LineEnd | src/main.rs:425 | the end of the current line: the next line break or the end of the string |
| MainApp.CaptureFrom | src/main.rs:424-436 | the leftmost match from a line start: the first line holding an extension, cut after its last extension |
| MainApp.CaptureImagePath | src/main.rs:424-436 | the path captured from the argument, none when nothing matches |
| MainApp.ExtensionsAreWords | src/main.rs:425 | each extension has at least three lower-case letters |
| MainApp.ExtAtNoNewline | src/main.rs:425 | an extension match crosses no line break |
| MainApp.CaptureNone | src/main.rs:424-436 | no capture exactly when no extension occurs |
| MainApp.CaptureSome | src/main.rs:424-436 | a capture is one line's text up to the end of its last extension |
| MainApp.CaptureSkipsLine | src/main.rs:424-436 | a line without an extension is skipped |
| MainApp.CaptureFromSkip | src/main.rs:424-436 | the search goes on at the next line when the current one has no match |
| MainApp.CaptureHere | src/main.rs:424-436 | a line with a match is captured up to the end of its last match |
| MainApp.CapturePrefix | src/main.rs:424-436 | on a single line the capture is the prefix up to the end of the last extension |
| MainApp.CaptureSingleLineNone | src/main.rs:424-436 | the argument is rejected exactly when no extension occurs in it |
| MainApp.CaptureSingleLine | src/main.rs:424-436 | a single-line capture is a prefix of the argument ending in an extension, with none after it |
| MainApp.LastMatchIsLastExt | src/main.rs:424-436 | the last match in the table is the last extension of the text |
| MainApp.CaptureExample | src/main.rs:424-428 | a URL-like argument loses the text after the extension, whose case is ignored |
| MainApp.ExampleMatchLengths | src/main.rs:425 | in `x.PNG?w` the only match is `.PNG` at position 1 |
| MainApp.LineEndNoNewline | src/main.rs:425 | with no line break the line runs to the end |

## Left out

- Terminal drawing: the ratatui frames of `ui` (`src/cli_ui.rs:376` onwards), `render_gauge`, `stylize_text`, the scrollbar widget and `display`'s dispatch are output only.
- The line-by-line printing of `draw` is left out. Its grid arithmetic is modelled in `Canvas`.
- The clipboard loop of `draw` is left out. Its text is the one `print` builds.
- The clipboard and the clock: the clipboard text is a return value, and `Instant::now()` is a `now` parameter.
- `GaugeAppGuard` is left out: the `Arc<Mutex<_>>` only serialises calls to the gauge methods modelled above.
- `GaugeApp::run`'s draw-and-poll loop is left out. One poll is `HandleEvents` with an optional event.
- `process::exit`: in `quit` it is the `exits` result. In `hex_to_rgb` it is the `Invalid` case, and in the path capture and file-path checks of `main` it is `None`.
- The command-line parsing with clap, including the bounds on the number of excluded colours, is left out. The options come in as parameters.
- `image::open`, `fs::read_dir`, the download of remote images (ureq, tempfile, Url) and the parse of `nb-colors` in `main` are I/O and are left out. A directory listing is a sequence of names.
- The quantizer `color_thief::get_palette` is a parameter. Its result is taken as given, and the panic of its `unwrap` is not modelled.
- Floating point: brightness, contrast, `delta_rgb` and the gauge progress are exact reals. `f32` rounding and `ceil` precision are not modelled.
- ColorMetric.BestContrast: `requires |textColors| > 1` stands for the `assert!` at `src/color_trait.rs:38`, and the panic it raises on fewer candidates is not modelled. Every call passes the two-colour `t_colors` (`src/colors_canvas.rs:28-35` and `63-70`), so that panic cannot happen in the program.
- Palette.GetColorsFromImages: `nb_colors` is a `u8` there, so the requirement `nbColors < 256` is only its type, and the `as u8` at `src/image_file_lib.rs:49` changes nothing. The truncation happens in the caller, at `src/main.rs:492`, which `MainApp.ExtractedCount` models. The function also requires a supported image: `src/image_file_lib.rs:39-45` passes the `Result`s of `filtered_image_bytes` and `color_format` on without handling their error.
- Canvas.LayoutOf: the `u32` casts and the overflow of the line counter when no column fits are the `None` case; wrap-around is not modelled.
- The main `run_app` loop of `src/main.rs:117-172` is modelled per key by `MainApp.App.HandleKey`. The loop itself has the same shape as the one `CliUi.App.RunApp` models.
- Selection.NextIndex: `next` and `previous` require a non-empty list or no selection, and `Selection.PreviousIndex` the same. With a selection on an empty list the source's `len() - 1` underflows. A debug build panics there. A release build wraps, so `previous` on `Some(0)` selects `usize::MAX`. Neither case is modelled. It is reachable in `src/main.rs` with an empty directory and two Down presses: the first selects 0 from nothing, and the second computes `len() - 1`. The screen guard at `src/main.rs:187` only hides the drawing.
- `App.output` in `src/main.rs` is never written and stays empty.
- `vertical_scroll` never changes after `with_items`. The scrollbar's content length is reset to the item count on every draw, in `ui` (`src/cli_ui.rs:453`). Both belong to drawing and are not modelled.
- The resetting of `nb_extracted_colors` and the per-image colour extraction inside `ui` (`src/cli_ui.rs:470-498`) belong to drawing and are left out. That code calls `colors_clipboarded` and `tui_text` on `ColorsCanvas` values (`cv`, `cv_b`), and `src/colors_canvas.rs` defines neither.

## Findings

| source | as written | input that shows it | evidently intended | confidence | as-written member | corrected member |
|---|---|---|---|---|---|---|
| src/color_trait.rs:44-51 | `bgt_diff` is computed once for the first candidate and never updated, so the loop returns the last candidate that beats the first one | background black, candidates black, white, grey (128,128,128): returns grey, though white contrasts more | the candidate of maximal contrast (the first one on a tie) | not executed | ColorMetric.BestContrastMissesMaximum | ColorMetric.BestContrastCorrected |
| src/color_trait.rs:64-72 | `\d` in the regex matches every Unicode decimal digit, so a code with non-ASCII digits passes the check; then `from_str_radix` or the byte slicing fails and the `unwrap` panics | `#` followed by six U+0660 ARABIC-INDIC DIGIT ZERO | accept only ASCII hexadecimal digits and report other codes as invalid | not executed | ColorMetric.HexArabicIndicDigitsPanic | ColorMetric.HexToRgb |
