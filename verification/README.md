# ARMaker marker pipeline, modelled in Dafny

ARMaker produces square black-and-white fiducial markers for augmented-reality
tracking. `MarkerGenerator.CreateMarker` takes a marker ID (the seed), an
output size, an optional label and a marker kind (Vuforia or ARToolkit). It
then does four things:

1. It picks the kind's profile: base size, frame thickness and padding.
2. It synthesises the base marker. This is a black frame, then a white padding
   ring, then an interior whose pixels come one per `Random.Next(2)` call,
   column by column.
3. It enlarges the marker by nearest-neighbour sampling. Every output pixel is
   a verbatim copy of one source pixel.
4. It expands `{key}` placeholders in the label against the system parameters,
   ignoring case. At present the only parameter is `id`.

The Dafny modules follow those stages:

| file | module | models |
|---|---|---|
| `wrappers.dfy` | `Wrappers` | `Option`, `Result`, the 32-bit `Int32` range |
| `pixels.dfy` | `Pixels` | 24-bit RGB pixels, square grids `g[x][y]`, `Clear`, `FillRectangle` |
| `synthesis.dfy` | `Synthesis` | marker kinds and profiles, frame painting, the pattern loop, what the pattern encodes |
| `rounding.dfy` | `Rounding` | `Math.Round` on an exact rational, halves to even |
| `resize.dfy` | `Resizing` | `GenerateResizedMarker`: coordinate sampling and the copy |
| `decimal.dfy` | `Decimal` | `Int32.ToString()` of the ID in invariant-culture form, with a parser proving it lossless |
| `template.dfy` | `Template` | the placeholder regex, case-insensitive lookup, the cursor loop |
| `marker.dfy` | `Markers` | `CreateMarker` end to end, plus worked label examples |

Abstractions:
- The seeded `System.Random` is a `Generator`. This is a function from the seed
  to a bit stream: bit `k` is true when the `k`-th `Next(2)` call returned 1.
- `GenerateRandomID` becomes the `freshId` parameter of `CreateMarker`.
- The `double` scale of the resizer is an exact rational. It is rounded by
  `RoundHalfEven`, the default midpoint rule of `Math.Round`.
- The bitmaps are sequences of columns (`g[x][y]`), not raw buffers with stride
  arithmetic.

## Model

| member | source | states |
|---|---|---|
| `Synthesis.ProfileFor` | project/MarkerGenerator.cs:186-194 | ARToolkit selects base size 32, frame 8, padding 1; Vuforia and every other enumeration value selects 64, 4, 3 |
| `Synthesis.ProfilesDrawable` | project/MarkerGenerator.cs:186-194 | both profiles have a frame and a non-empty pattern area, 14 x 14 for ARToolkit and 50 x 50 for Vuforia |
| `Pixels.Clear` | project/MarkerGenerator.cs:223 | clearing paints every pixel of the square bitmap with the one colour |
| `Pixels.FillRectangle` | project/MarkerGenerator.cs:224-227 | filling a rectangle sets exactly the on-bitmap pixels inside it and leaves every other pixel unchanged |
| `Synthesis.DrawBorder` | project/MarkerGenerator.cs:217-228 | white, then four black rectangles (top, right, bottom, left), make a pixel black exactly when x or y is below `borderSize` or at least `size - borderSize` |
| `Synthesis.InteriorMissesFrame` | project/MarkerGenerator.cs:209-211 | the pattern area starts at `border + padding` and ends `border + padding` before the edge, so it never overlaps the frame |
| `Synthesis.GenerateMarkerImage` | project/MarkerGenerator.cs:206-244 | the frame pixels are black; the padding ring is white; interior pixel (x, y) is black exactly when bit `(x - bp) * w + (y - bp)` of the seed's stream is 1 |
| `Synthesis.PatternEncodesStream` | project/MarkerGenerator.cs:232-241 | reading the pattern area back column by column gives exactly the first `w * w` bits of the stream, so each bit decides one distinct pixel |
| `Synthesis.PrefixDeterminesMarker` | project/MarkerGenerator.cs:232-241 | two streams that agree on their first `w * w` bits give identical markers, so the same seed and profile always regenerate the same image |
| `Synthesis.VuforiaLayout` | project/MarkerGenerator.cs:209-241 | in a Vuforia marker, rows and columns 0-3 and 60-63 are black, pixel (5, 5) is padding white, and pixel (32, 32) shows stream bit 1275 |
| `Synthesis.GenerateMarkerImageForType` | project/MarkerGenerator.cs:183-195 | the typed overload returns a square bitmap of the kind's base size, laid out with that kind's frame and padding |
| `Rounding.RoundHalfEven` | project/MarkerGenerator.cs:160-161 | the result is within a half of `n / d`, and at an exact half it is even |
| `Rounding.RoundHalfEvenCharacterized` | project/MarkerGenerator.cs:160-161 | any integer that is within a half of `n / d`, and even at an exact half, is the rounded result; the rounding rule is unique |
| `Rounding.RoundExact` | project/MarkerGenerator.cs:160-161 | rounding leaves an exact integer quotient unchanged |
| `Resizing.SourceIndex` | project/MarkerGenerator.cs:149-161 | the sampled source coordinate is within the source, and is the nearest grid point to `d * (src - 1) / (new - 1)` |
| `Resizing.SourceIndexEndpoints` | project/MarkerGenerator.cs:149-161 | destination 0 samples source 0, and destination `newSize - 1` samples source `srcSize - 1` |
| `Resizing.Resize` | project/MarkerGenerator.cs:134-175 | the output is `newSize` x `newSize`, and each output pixel's channels equal those of the source pixel at its sampled coordinates |
| `Resizing.ResizeIdentity` | project/MarkerGenerator.cs:149-170 | resizing to the same size has scale 1 and returns the image unchanged |
| `Resizing.ResizeUpThenDown` | project/MarkerGenerator.cs:149-170 | enlarging to any larger size and shrinking back recovers the original exactly, for example 64 to 128 to 64 |
| `Resizing.ResizeKeepsBlackAndWhite` | project/MarkerGenerator.cs:164-170 | nearest-neighbour copying never creates a colour that is neither black nor white |
| `Template.AlnumRunMaximal` | project/MarkerGenerator.cs:77 | the run of `[a-zA-Z0-9]` from a position is maximal: all its characters are alphanumeric, and the next one is not |
| `Template.MatchAtIsPlaceholder` | project/MarkerGenerator.cs:77 | a match is found at `i` exactly when some substring starting at `i` has the form `{alnum+}`, and the match is that substring |
| `Template.MatchesFrom` | project/MarkerGenerator.cs:77 | the regex matches lie in order, without overlap, within the label |
| `Template.MatchesAreGenuine` | project/MarkerGenerator.cs:77 | each listed match is a placeholder of the label, and its captured key is the text between its braces |
| `Template.FirstMatchIsLeftmost` | project/MarkerGenerator.cs:77 | no placeholder starts before the first match found, so matching is leftmost |
| `Template.NoMatchesIffNoPlaceholder` | project/MarkerGenerator.cs:77-78 | the regex finds nothing exactly when the label contains no `{alnum+}` substring |
| `Template.LookupMeaning` | project/MarkerGenerator.cs:94 | a parameter value is found exactly when some parameter's name equals the key up to letter case, and the value found is that parameter's |
| `Template.LookupIgnoresCase` | project/MarkerGenerator.cs:66 | keys that differ only in letter case look up the same value |
| `Template.ResolveMeaning` | project/MarkerGenerator.cs:94 | a placeholder becomes its parameter's value when one exists, and its bare key otherwise |
| `Template.CursorLoopExpands` | project/MarkerGenerator.cs:85-102 | from any cursor whose pending matches are those the regex finds from there on, the rest of the loop appends exactly the expansion of the rest of the label |
| `Template.SpliceMatches` | project/MarkerGenerator.cs:79-106 | when the regex found at least one match, the builder ends up holding the label with each match replaced by its resolution and all other text copied in order |
| `Template.ExpandTemplate` | project/MarkerGenerator.cs:77-106 | the cursor loop yields the label with every match replaced by its resolution and the text between matches copied in order; a label with no placeholder comes back unchanged |
| `Template.BlankIffTrimsToEmpty` | project/MarkerGenerator.cs:74 | a label counts as blank exactly when trimming its leading white space leaves nothing |
| `Template.BlankMeaning` | project/MarkerGenerator.cs:74 | a missing label and the empty label are blank, and a label is not blank exactly when one of its characters is not white space |
| `Decimal.IntToString` | project/MarkerGenerator.cs:94 | the ID's text is an optional `-` followed by decimal digits, starts with `-` exactly when the ID is negative, and is in shortest form: no leading zeros and no `-0` |
| `Decimal.CanonicalDecimalUnique` | project/MarkerGenerator.cs:94 | every shortest-form decimal is exactly the text written for the value it reads as, so the ID's text is determined by the ID |
| `Decimal.ShortestFormExamples` | project/MarkerGenerator.cs:94 | 42 is written `"42"` and -7 `"-7"`; `"042"` reads as 42 but is not in shortest form, and neither is `"-0"` |
| `Decimal.IntToStringRoundTrip` | project/MarkerGenerator.cs:94 | the decimal text substituted for `{id}` parses back to the ID, so no information is lost |
| `Markers.SystemParameters` | project/MarkerGenerator.cs:66-67 | the parameters hold one entry, `id`, whose value is the shortest-form decimal text of the marker ID |
| `Markers.CreateMarker` | project/MarkerGenerator.cs:60-124 | the given ID is used, or a fresh one when none is given; a label that is not blank throws (from `new Font` with em size 0) exactly when `size <= 40`; otherwise the image is the kind's marker for that ID resized to `size`, a missing or blank label draws nothing, and any other label is drawn expanded |
| `Markers.LabelFontSizeZero` | project/MarkerGenerator.cs:108-110 | the font's em size `round(size * 0.0625) / 3` is zero exactly for sizes up to 40, since 40 / 16 = 2.5 rounds to the even 2 |
| `Markers.OutputBlackAndWhite` | project/MarkerGenerator.cs:69-71 | the resized base marker of either kind, before any label is drawn on it, is purely black and white, with black corners |
| `Markers.ExampleIdPlaceholder` | project/MarkerGenerator.cs:85-104 | `"ID: {id}"` with ID 42 expands to `"ID: 42"` |
| `Markers.ExampleUpperCaseKey` | project/MarkerGenerator.cs:85-104 | `"{ID}"` with ID 42 expands to `"42"` |
| `Markers.ExampleUnknownKey` | project/MarkerGenerator.cs:85-104 | `"{unknown}"` expands to `"unknown"` |
| `Markers.ExampleLiteralBraces` | project/MarkerGenerator.cs:77-78 | `"{}"` and `"{a-b}"` are not placeholders and stay as written |

## Left out

- Seed generation (`GenerateRandomID`, project/MarkerGenerator.cs:49-58) is left out. It reads a cryptographic entropy source under a lock. `CreateMarker` takes the drawn value as its `freshId` parameter.
- The internals of .NET `System.Random` are left out. They are library code. The seeded generator is a parameter, `Generator`, mapping a seed to the bit stream its `Next(2)` calls produce.
- Label drawing (font face, `DrawString`, anti-aliasing, project/MarkerGenerator.cs:32-36, 110-113) is left out. It is GDI+ drawing whose pixels cannot be specified; its anti-aliased white text puts grey pixels into the top strip. `CreateMarker` returns the text that would be drawn instead. The strip height and font size are modelled, and with them the exception a zero font size raises.
- Resizing.Resize: requires `newSize >= 2`. A `newSize` of 1 divides by zero in the scale, and the result is then cast from NaN or infinity to an index. A `newSize` of 0 or less makes the `Bitmap` constructor throw.
- Resizing.SourceIndex: the scale is an exact rational, not an IEEE `double`. Floating-point error at or near an exact half is not captured.
- Synthesis.GenerateMarkerImage: requires `borderSize > 0` and `baseMarkerSize > 0`, and takes a non-negative padding. Without a frame, the bitmap keeps the contents of a fresh GDI+ bitmap, which are not visible here. A zero size makes the `Bitmap` constructor throw. Both profiles meet these conditions.
- Template.LookupMeaning: letter case is folded for ASCII letters only. Placeholder keys are ASCII alphanumeric by the regex, and the only parameter name is `id`. Culture-aware comparison of other characters is not modelled.
- The HTTP layer is left out: model binding, the 2048 size clamp, JPEG encoding and response headers (project/Modules/APIModule.cs). So are CORS (project/Bootstrapper.cs), hosting and signals (project/Program.cs) and the browser script (docs/js/scripts.js).
- Markers.CreateMarker: the strip height treats `size * 0.0625f` as the exact `size / 16`. That holds while `size` converts to `float` exactly, below 2^24; larger sizes cannot allocate their bitmap anyway.
- Decimal.IntToString: the ID is formatted as in the invariant culture, with `-` as the negative sign. `Int32.ToString()` uses the current culture, whose negative sign may be another character (U+2212 in some cultures); that choice is not modelled.
- Object lifecycle (`Dispose`, the finaliser) is left out. It only releases resources.
