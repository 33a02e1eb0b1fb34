# Creative-asset generator: a verified model of its core

This project models the core of a browser app that builds marketing images with a
generative image model. The user writes a creative brief and can attach a logo, an icon
and inspiration images. They also pick a colour palette, an aspect ratio and optional
overlay text. The app sends all of this as one multi-part request and shows the image
that comes back. The user can refine that image with an edit instruction, and can save
briefs as named profiles.

The model has three parts.

- **Palette extractor** (`ColorExtractor`, with the palette edit rules in
  `ControlPanel`). `extractColors` samples every fifth pixel of an RGBA buffer and skips
  pixels below half opacity. It counts each exact RGB triple, ranks the colours by
  descending count, keeps the first `colorCount` and writes each as `#RRGGBB`. The
  histogram loop is a method proved against the tally function. The ranking is the
  stable sort `Array.prototype.sort` performs, written as an insertion sort.
- **Request composer** (`DataUrl`, `GeminiService`). `fileToGenerativePart` matches
  `^data:(.+);base64,(.+)$`, the base64 form of a data URL (RFC 2397, section 3). The
  model gives the greedy split of that match and its line-terminator rule exactly.
  Part assembly is the `push` sequence of `generateCreative`, written as a method proved
  against a function. The reply scan is a `for` loop that returns early. The remote call
  is a `Reply` parameter.
- **App state** (`App`, class `AppState`). It holds the working brief, the profile
  list, the loading flags, the error, the image on screen and the refine instruction.
  Its methods are the handlers of App.tsx. Two handlers of components/ControlPanel.tsx,
  `handleSaveProfile` and `handleLogoFile`, are methods here too. The palette edits that
  file makes through `setColors` are the list functions `AddColor`, `ChangeColor` and
  `RemoveColor` of `ControlPanel`. Its icon and inspiration uploads are left out (see
  below). Every method keeps the class invariant `Valid()`. Profile save, load and
  delete work on a list, and `split(' ')[0]` strips the aspect-ratio label.

`Types` mirrors the records of types.ts. `Wrappers` holds `Option` and `Result`.

## Model

| member | source | states |
|---|---|---|
| ColorExtractor.SampleInBuffer | components/ControlPanel.tsx:61 | The loop visits ceil(n/20) offsets. The j-th offset, 20·j, is inside the buffer exactly when j is below that count, and its alpha byte is then inside too. |
| ColorExtractor.OpaqueSampleMembership | components/ControlPanel.tsx:61-63 | A colour is counted exactly when some visited pixel, at a byte offset that is a multiple of 20, carries it with alpha ≥ 128. |
| ColorExtractor.OpaqueSampleCount | components/ControlPanel.tsx:61-62 | The number of counted pixels is at most the number visited. It equals that number exactly when every visited pixel has alpha ≥ 128. |
| ColorExtractor.TransparentSamplesNotCounted | components/ControlPanel.tsx:62 | When every visited pixel has alpha below 128, nothing is counted. |
| ColorExtractor.Tally | components/ControlPanel.tsx:59-65 | No contract of its own: the `colorMap` histogram as a function of the opaque samples. Characterised by TallyCorrect and TallyTotal, and CountColors is proved equal to it. |
| ColorExtractor.Bump | components/ControlPanel.tsx:63-64 | No contract of its own: one `colorMap[rgb] = (colorMap[rgb] \|\| 0) + 1` step. A new key is appended with count 1, and a known key has its count raised by one. Characterised by TallySnoc, CountStep and TallyCorrect. |
| ColorExtractor.TallyCorrect | components/ControlPanel.tsx:59-65 | The histogram lists each counted colour once as a key and has an entry for exactly those colours. Each count equals how many counted pixels carry that colour. |
| ColorExtractor.TallyTotal | components/ControlPanel.tsx:59-65 | The counts add up to the number of counted pixels. |
| ColorExtractor.CountColors | components/ControlPanel.tsx:59-65 | The stride-20 loop yields the tally of the opaque sampled pixels, keys in insertion order. |
| ColorExtractor.SortByCount | components/ControlPanel.tsx:67 | No contract of its own: the stable sort by descending count. Characterised by InsertByCountPermutes, InsertByCountSorted and SortByCountCorrect. |
| ColorExtractor.InsertByCountPermutes | components/ControlPanel.tsx:67 | One insertion step adds exactly one occurrence of the new key, as a multiset. |
| ColorExtractor.InsertByCountSorted | components/ControlPanel.tsx:67 | Inserting into a list ordered by non-increasing count keeps that order. |
| ColorExtractor.SortByCountCorrect | components/ControlPanel.tsx:67 | The sorted keys are a permutation of the keys, in non-increasing order of count. |
| ColorExtractor.Ranking | components/ControlPanel.tsx:67 | No contract of its own: `sortedColors`, the keys of the tally sorted by descending count. Characterised by RankingDistinct, RankingOrdered and RankingCorrect. |
| ColorExtractor.RankingDistinct | components/ControlPanel.tsx:59-67 | `sortedColors` has no repeats and holds exactly the colours counted from the samples. |
| ColorExtractor.RankingOrdered | components/ControlPanel.tsx:67 | Frequencies in the image do not increase along `sortedColors`. |
| ColorExtractor.RankingCorrect | components/ControlPanel.tsx:59-67 | `sortedColors` has no repeats and holds exactly the counted colours. Its length is their number. Its frequencies do not increase along the list. |
| ColorExtractor.TopColors | components/ControlPanel.tsx:67-74 | No contract of its own: `sortedColors.slice(0, colorCount)`. Characterised by TopColorsSize, TopColorsFromImage, TopColorsAreMostFrequent, TopColorsComplete and TransparentImageHasNoColors. |
| ColorExtractor.TopColorsSize | components/ControlPanel.tsx:59-74 | The result has min(colorCount, number of distinct counted colours) entries and no repeats. |
| ColorExtractor.TopColorsFromImage | components/ControlPanel.tsx:61-74 | Every returned colour is the colour of a counted pixel. |
| ColorExtractor.TopColorsAreMostFrequent | components/ControlPanel.tsx:67-74 | Returned colours come in non-increasing frequency. Every counted colour left out is at most as frequent as every returned colour. |
| ColorExtractor.TopColorsComplete | components/ControlPanel.tsx:67-74 | With at most colorCount distinct colours, every one of them is returned. |
| ColorExtractor.TransparentImageHasNoColors | components/ControlPanel.tsx:62-74 | A buffer whose visited pixels are all below half opacity yields an empty palette. |
| ColorExtractor.ToHex | components/ControlPanel.tsx:69-72 | No contract of its own: `toHex`. Characterised by PackedBase16, ToHexDigits, ToHexFormat, ToHexRoundTrip and ToHexInjective. |
| ColorExtractor.Packed | components/ControlPanel.tsx:71 | No contract of its own: `(1 << 24) + (r << 16) + (g << 8) + b`, written as multiplications because no shift overflows. Characterised by PackedNibbles and PackedBase16. |
| ColorExtractor.ToBase16 | components/ControlPanel.tsx:71 | `toString(16)` on a non-negative integer. Its contract states that there is at least one digit. Base16Step, Base16Six and PackedBase16 characterise the rest: lower-case digits, most significant first, no leading zeros. |
| ColorExtractor.ToUpperCase | components/ControlPanel.tsx:71 | No contract of its own: `toUpperCase()` on the ASCII letters, the only letters `toString(16)` emits. Characterised by UpperOfLower and ToHexDigits. |
| ColorExtractor.PackedBase16 | components/ControlPanel.tsx:71 | `(1 << 24) + (r << 16) + (g << 8) + b` in base 16 is a `1` followed by the six nibbles of r, g and b, high nibble first. |
| ColorExtractor.ToHexDigits | components/ControlPanel.tsx:69-72 | `toHex` gives `#` and one upper-case digit per nibble, in channel order. |
| ColorExtractor.ToHexFormat | components/ControlPanel.tsx:69-72 | `toHex` gives `#` followed by exactly six upper-case hex digits. |
| ColorExtractor.ToHexRoundTrip | components/ControlPanel.tsx:69-72 | Reading the three digit pairs of `toHex(c)` back gives c. |
| ColorExtractor.ToHexInjective | components/ControlPanel.tsx:69-72 | Two colours get the same hex string exactly when they are equal. |
| ColorExtractor.Palette | components/ControlPanel.tsx:67-74 | No contract of its own: the resolved palette, the top colours mapped through `toHex`. Characterised by PaletteDecodes, and ExtractColors is proved equal to it. |
| ColorExtractor.PaletteDecodes | components/ControlPanel.tsx:74 | Each palette entry decodes to the colour at the same rank, and no entry repeats. |
| ColorExtractor.ExtractColors | components/ControlPanel.tsx:58-74 | Counting, ranking, slicing and hex-encoding a buffer yield the palette. The palette's properties are the lemmas above. |
| ControlPanel.AddColor | components/ControlPanel.tsx:141 | The palette keeps its entries and gains `#FFFFFF` at the end. |
| ControlPanel.ChangeColor | components/ControlPanel.tsx:142-146 | Same length. Position `index` holds the new value and every other position is unchanged. |
| ControlPanel.RemoveColor | components/ControlPanel.tsx:147 | For an index in range, that entry goes, the others keep their order and the length drops by one. For any other index the palette is unchanged. |
| ControlPanel.RemoveAddedColor | components/ControlPanel.tsx:141-147 | Removing the entry just added gives back the palette. |
| ControlPanel.TrimStart | components/ControlPanel.tsx:150 | The result is a suffix. Only trimmable characters were dropped, and the result starts with a kept character or is empty. |
| ControlPanel.TrimEnd | components/ControlPanel.tsx:150 | The result is a prefix. Only trimmable characters were dropped, and the result ends with a kept character or is empty. |
| ControlPanel.Trim | components/ControlPanel.tsx:150-151 | No contract of its own: `trim()`, the composition of TrimStart and TrimEnd, whose contracts characterise it. Also characterised by TrimEmptyIffBlank and ProfileNameToSave. |
| ControlPanel.TrimEmptyIffBlank | components/ControlPanel.tsx:150 | `trim()` is empty exactly when the string is all white space. |
| ControlPanel.ProfileNameToSave | components/ControlPanel.tsx:149-154 | A name is saved exactly when it is not blank, and then the non-empty trimmed name is saved. |
| DataUrl.Envelope | services/geminiService.ts:102 | No contract of its own: the string `data:<mime>;base64,<data>`. Characterised by EnvelopeSingleLine, ParseAcceptsEnvelopes and EnvelopeRoundTrip. |
| DataUrl.LastSplit | services/geminiService.ts:7 | The greedy regex search: the largest offset not above p where `;base64,` ends a non-empty group 1 and leaves a non-empty group 2. None when there is no such offset. |
| DataUrl.ParseDataUrl | services/geminiService.ts:6-16 | Every failure carries the message "Invalid base64 data URL". |
| DataUrl.ParseDataUrlCorrect | services/geminiService.ts:7-12 | A successful parse writes s as `data:` + mime + `;base64,` + data, with both parts non-empty. |
| DataUrl.EnvelopeSingleLine | services/geminiService.ts:7 | An envelope holds no line terminator exactly when neither of its parts does. |
| DataUrl.ParseAcceptsEnvelopes | services/geminiService.ts:7-9 | The parser accepts exactly the strings `data:<m>;base64,<d>` with non-empty, single-line m and d. |
| DataUrl.ParseSplitsAtLastMarker | services/geminiService.ts:7-12 | The parts returned are single-line, and the payload holds no `;base64,` with anything after it. The split is at the last marker. |
| DataUrl.EnvelopeRoundTrip | services/geminiService.ts:6-16 | Parsing the envelope written at line 102 gives back (mime, data) exactly when both are non-empty and single-line and the data holds no inner marker. |
| GeminiService.Join | services/geminiService.ts:60 | No contract of its own: `colors.join(', ')`. Characterised by JoinContains and SingleColorBrief. |
| GeminiService.JoinContains | services/geminiService.ts:60 | Every colour appears verbatim in `colors.join(', ')`. |
| GeminiService.EditText | services/geminiService.ts:26-36 | No contract of its own: the edit prompt. Characterised by EditModeParts and App.RefineSendsImage. |
| GeminiService.TextContentFor | services/geminiService.ts:39-47 | The overlay block is chosen exactly when text is wanted and the headline or the subheading is non-empty. It then carries both lines. |
| GeminiService.TextBlockChoice | services/geminiService.ts:39-47 | With the overlay, both lines are quoted in the text block. Otherwise the block is the fixed "sin texto" sentence. |
| GeminiService.CreationText | services/geminiService.ts:38-69 | No contract of its own: the creation prompt. Characterised by CreationTextMentions, CreationTextQuotesEveryColor and SingleColorBrief. |
| GeminiService.CreationTextMentions | services/geminiService.ts:49-69 | The creation prompt quotes the brief, the bracketed palette, the chosen text block and the aspect ratio verbatim. It always carries the empty-palette fallback sentence. |
| GeminiService.CreationTextQuotesEveryColor | services/geminiService.ts:60 | Each palette colour occurs in the creation prompt. |
| GeminiService.SingleColorBrief | services/geminiService.ts:39-60 | A one-colour palette is quoted as `[<colour>]`. With no text wanted, the fixed sentence is the text block. |
| GeminiService.Attachment | services/geminiService.ts:72-79 | No contract of its own: the label and inline part of a logo or icon. Characterised by AttachmentShape. |
| GeminiService.Gallery | services/geminiService.ts:80-85 | No contract of its own: the inspiration label and images. Characterised by GalleryFails, GalleryValue and GalleryShape, and PushGallery is proved equal to it. |
| GeminiService.Compose | services/geminiService.ts:20-86 | No contract of its own: the whole part list, or the first parse error. Characterised by EditModeParts, EditModeIgnoresBrief, CreationModeParts and ComposeSucceedsIff, and BuildParts is proved equal to it. |
| GeminiService.ParseEachAt | services/geminiService.ts:82-84 | The i-th parsed inspiration image is the parse of the i-th source. |
| GeminiService.ParseEachCorrect | services/geminiService.ts:80-85 | The images parse together exactly when each one parses, and then in order. A failure carries the parser's message. |
| GeminiService.GalleryFails | services/geminiService.ts:80-85 | One unparsable inspiration image makes the gallery fail with the parser's message. |
| GeminiService.GalleryValue | services/geminiService.ts:80-85 | When every image parses, the gallery is the label followed by one inline part per image, in stored order. |
| GeminiService.PushGallery | services/geminiService.ts:80-85 | The `forEach` push loop appends exactly the gallery to the parts, or fails with the gallery's error. |
| GeminiService.BuildParts | services/geminiService.ts:23-86 | The step-by-step `push` sequence yields the composed parts, or the first parse error. |
| GeminiService.EditModeParts | services/geminiService.ts:26-36 | With a base image there are exactly two parts: the edit prompt, which quotes the instruction, and the base image's inline part. Assembly fails exactly when the base image does not parse. |
| GeminiService.EditModeIgnoresBrief | services/geminiService.ts:26-36 | In edit mode only the instruction and the base image are read. Colours, ratio, logo, icon, inspiration and text are ignored. |
| GeminiService.AttachmentShape | services/geminiService.ts:72-79 | A present logo or icon adds its label and its inline part. An absent one adds nothing. |
| GeminiService.GalleryShape | services/geminiService.ts:80-85 | With images, the gallery is one label followed by each image's inline part in stored order. Without images it is empty. |
| GeminiService.CreationModeParts | services/geminiService.ts:71-85 | The part count is 1 + 2·[logo] + 2·[icon] + (1 + \|inspiration\| if any). The order is prompt, logo label, logo, icon label, icon, inspiration label, images. |
| GeminiService.ComposeSucceedsIff | services/geminiService.ts:20-86 | Assembly succeeds exactly when every attachment it reads parses. Otherwise it fails with the parser's message. |
| GeminiService.FirstCandidateParts | services/geminiService.ts:98 | No contract of its own: `response.candidates?.[0]?.content?.parts \|\| []`. Characterised by MissingPartsGiveNoImage, NoImageIffNoInline and OnlyFirstCandidateCounts. |
| GeminiService.MissingPartsGiveNoImage | services/geminiService.ts:98-105 | A missing or empty candidate list, a missing content or a missing part list gives no parts, and so no image. |
| GeminiService.FirstInline | services/geminiService.ts:98-99 | The index of the first part with inline data: the parts before it carry none. None when no part carries any. |
| GeminiService.ScanResponse | services/geminiService.ts:98-104 | The early-return loop yields the image of the reply. |
| GeminiService.ImageOf | services/geminiService.ts:98-105 | No contract of its own: the image of a reply. Characterised by ImageIsFirstInline, NoImageIffNoInline, OnlyFirstCandidateCounts and ImageReparses, and ScanResponse is proved equal to it. |
| GeminiService.ImageIsFirstInline | services/geminiService.ts:98-104 | The image is the first inline part of candidate 0, wrapped as `data:<mime>;base64,<data>`. |
| GeminiService.NoImageIffNoInline | services/geminiService.ts:98-105 | There is no image exactly when no part of candidate 0 carries inline data. |
| GeminiService.OnlyFirstCandidateCounts | services/geminiService.ts:98 | Candidates after the first never affect the image. |
| GeminiService.ImageReparses | services/geminiService.ts:100-102 | The data URL written for a well-formed inline part parses back into that part. |
| GeminiService.Generate | services/geminiService.ts:19-110 | No contract of its own: the outcome of a request. Characterised by GenerateOutcome, and GenerateCreative is proved equal to it. |
| GeminiService.GenerateCreative | services/geminiService.ts:19-110 | Building the parts, making the call and scanning the reply yield the outcome of the request. |
| GeminiService.GenerateOutcome | services/geminiService.ts:19-110 | Success happens exactly when assembly succeeds and the delivered reply holds an image. An assembly error escapes unchanged, whatever the reply. Every failure inside the `try` becomes the one generic message. |
| App.FirstWithId | App.tsx:50 | `find` by id: the index of the first profile with that id, or none when no profile has it. |
| App.WithoutId | App.tsx:64 | No contract of its own: `profiles.filter(p => p.id !== id)`. Characterised by WithoutIdCorrect, DeleteThenFindNone, DeleteKeepsOthers, WithoutAbsentId, WithoutAppend and SaveThenDelete. |
| App.WithoutIdCorrect | App.tsx:64 | `filter` drops every profile with that id. Every other profile stays in its relative order, with the same multiplicity. |
| App.DeleteThenFindNone | App.tsx:49-65 | After deleting an id, loading it finds nothing. |
| App.DeleteKeepsOthers | App.tsx:49-65 | Deleting one id does not change which profile another id loads. |
| App.WithoutAbsentId | App.tsx:64 | Deleting an absent id changes nothing. |
| App.WithoutAppend | App.tsx:64 | Filtering distributes over concatenation. |
| App.ProfileFrom | App.tsx:34-45 | No contract of its own: the `newProfile` literal, with the id, the name and the eight brief fields copied across. Characterised by SaveThenLoad, which reads back the brief and the name. |
| App.SaveThenLoad | App.tsx:33-60 | With a fresh id, that id loads the profile just saved. The profile holds the saved brief and name. |
| App.SaveThenDelete | App.tsx:33-65 | With a fresh id, deleting the profile just saved restores the list. |
| App.AspectRatioToken | App.tsx:83 | `split(' ')[0]`: the longest prefix without a space. It is followed by a space or ends the string. |
| App.SplitAtSpace | App.tsx:83 | A space-free word followed by a space is what the split keeps. |
| App.SelectorRatios | components/ControlPanel.tsx:269-273 | Each of the five labels of the ratio selector is sent as its bare ratio: `1:1`, `16:9`, `9:16`, `4:3` and `3:2`. |
| App.RefineConfig | App.tsx:105-110 | The refine request is an edit request exactly when the image on screen is non-empty. |
| App.RefineSendsImage | App.tsx:105-111 | A refine request has two parts: the instruction's edit prompt, then the image on screen. It fails exactly when that image does not parse. |
| App.GeneratedImageCanBeRefined | App.tsx:96-111 | An image returned for a well-formed inline part can be refined: its edit request carries that part back unchanged. |
| App.GenerateOutcomeKnown | App.tsx:87-90 | A request stores one of the known messages or an image data URL. |
| App.AppState.RequestConfig | App.tsx:77-86 | The creation request is never an edit request, and its ratio is the stripped label. |
| App.AppState.constructor | App.tsx:11-31 | The initial brief, empty status and the stored profiles. |
| App.AppState.SaveProfile | App.tsx:33-47 | Exactly one profile is appended, holding the eight brief fields and the name. Earlier profiles are unchanged, and the state stays valid. |
| App.AppState.LoadProfile | App.tsx:49-61 | A present id copies all eight fields from the first profile with that id. An absent id changes nothing. The state stays valid. |
| App.AppState.DeleteProfile | App.tsx:63-65 | The list becomes the filtered list, nothing else changes, and the state stays valid. |
| App.AppState.HandleGenerate | App.tsx:67-94 | An empty brief only sets the error. Otherwise success shows the image with no error, and failure shows no image and the message. The state stays valid: nothing in flight, only known messages, only data URLs. |
| App.AppState.HandleRefine | App.tsx:96-119 | With no instruction or no image, nothing happens. Otherwise success replaces the image and clears the instruction, and failure keeps both and shows the message. The state stays valid. |
| App.AppState.HandleSaveProfile | components/ControlPanel.tsx:149-154 | A blank name saves nothing and keeps the field. Otherwise the trimmed name is saved and the field is cleared. The state stays valid. |
| App.AppState.HandleLogoFile | components/ControlPanel.tsx:156-169 | The upload becomes the logo. The palette is replaced only when extraction succeeds and finds at least one colour. The state stays valid. |

## Notes on the code's behaviour

- `handleGenerate` clears the image on screen before it calls the service, so a failed
  generation leaves no image. A failed refine, by contrast, keeps the image.
- The creation prompt always contains both the bracketed colour list and the sentence
  about an empty list (line 60), whatever the palette holds.
- A response without an image raises its own error inside the `try`, but the `catch`
  replaces it with the generic message. Only an attachment that fails to parse gives a
  different message, because assembly runs before the `try`.
- JavaScript truthiness decides "present": a `null` or empty logo, icon or base image
  counts as absent (`Types.Present`).

## Left out

- Image loading, the canvas and `getImageData` (components/ControlPanel.tsx:43-58, 79-80) are browser APIs. The extractor starts from the RGBA buffer. `App.Decoded` stands for the outcome of loading the logo: its `Undecodable` case covers a missing canvas context, `onerror` and a rejected promise.
- The `FileReader` callbacks, `handleIconFile`, `handleInspirationFiles` and the inspiration fan-in (components/ControlPanel.tsx:156-189) are left out. They depend on the order in which asynchronous reads complete. `HandleLogoFile` receives the data URL the reader produced.
- The clear buttons and the form inputs of components/ControlPanel.tsx (for example lines 227-228 and 238) are left out. Each one assigns a single field of the brief: `setLogo(null)`, `setIcon(null)`, dropping one inspiration image by index, or setting a text field.
- The Gemini client, the model name, `responseModalities` and the `generateContent` call (services/geminiService.ts:1-4, 90-96) are a foreign network call. Its outcome is the `Reply` parameter.
- Prompt wording is abridged. Text parts keep every interpolated fragment: the brief, the joined colours, the aspect ratio, the headline and the subheading. They also keep the fixed "sin texto" and empty-palette sentences and which template was chosen. The other Spanish sentences are shortened.
- `console.error` logging is left out (services/geminiService.ts:107, components/ControlPanel.tsx:165).
- `useLocalStorage` persistence is left out: profiles are an in-memory field, and the constructor receives what storage held.
- `Date.now()` profile ids come from a clock, so the id is a parameter of `SaveProfile` and `HandleSaveProfile`.
- All rendering is left out, including components/OutputPanel.tsx and components/Header.tsx.
- Tie order among colours with equal counts follows key insertion order under a stable sort. It is modelled, but no property is claimed about it.
- Every handler runs to completion without interleaving. A second click while a request is in flight is not modelled, and neither are the renders where `isLoading` or `isRefining` is true.
- The fallback message 'Ocurrió un error desconocido.' is left out: every error the service raises is an `Error`, so that branch cannot be reached here.
- ControlPanel.ChangeColor: requires an index inside the palette. The colour inputs only pass the index of an entry they render, and an assignment past the end, which would leave holes in a JavaScript array, is not modelled.
- The string key `"r,g,b"` and its `split(',').map(Number)` decoding are modelled as the RGB triple itself, because the two lines are inverse to each other. The shifts in `toHex` never exceed 25 bits, so 32-bit overflow cannot occur.
- Text parts of the reply are ignored, as the scan ignores them.
