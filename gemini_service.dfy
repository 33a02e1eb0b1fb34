/**
 * `generateCreative` of services/geminiService.ts: the ordered parts of one request, built
 * from a `GenerationConfig`, and the scan of the reply for the first inline image.
 *
 * The remote `generateContent` call is not modelled: its outcome is a `Reply` parameter.
 * Prompt texts keep the fragments the code interpolates, the fixed sentences the
 * properties speak of, and which template was chosen; the rest of the wording is abridged.
 */
module GeminiService {
  import opened Wrappers
  import opened Types
  import opened DataUrl

  /** The message of the `catch` block, which replaces every error raised inside the `try`. */
  const GenerationFailedMessage := "Falló la generación de la imagen. Por favor, revisa la consola para más detalles."

  const LogoLabel := "\nLogo:"
  const IconLabel := "\nIcono:"
  const InspirationLabel := "\nImágenes de Inspiración:"

  // Fixed fragments of the two prompt templates.
  const EditLead := "**Instrucción de Edición:** "
  const EditTail := "\nModifica la imagen base según la instrucción."
  const ObjectiveLead := "**Objetivo:** "
  const PaletteLead := "\n- Adhiérete estrictamente a esta paleta de colores corporativos: "
  const FallbackSentence := "Si la lista de colores está vacía, deriva una paleta profesional y atractiva del logo proporcionado."
  const NoTextSentence := "El diseño debe ser puramente visual, sin texto."
  const HeadlineLead := "**Texto a Incluir:**\n- Título Principal: \""
  const SubheadingLead := "\"\n- Subtítulo/Texto secundario: \""
  const OverlayTail := "\""
  const AspectLead := "\n- La imagen final debe tener una relación de aspecto de exactamente "
  const CreationTail := ".\n**CRÍTICO:** Tu salida debe ser ÚNICAMENTE la imagen final."

  /** One entry of `contents.parts`: `{ text }` or `{ inlineData }`. */
  datatype Part = TextPart(text: string) | InlinePart(inlineData: InlineData)

  // ---------------------------------------------------------------------------------------
  // Substrings and `Array.prototype.join`
  // ---------------------------------------------------------------------------------------

  predicate OccursAt(t: string, s: string, k: int) {
    0 <= k && k + |t| <= |s| && s[k..k + |t|] == t
  }

  /** t is a substring of s. */
  ghost predicate Occurs(t: string, s: string) {
    exists k :: OccursAt(t, s, k)
  }

  lemma OccursSelf(t: string)
    ensures Occurs(t, t)
  {
    assert t[0..|t|] == t;
    assert OccursAt(t, t, 0);
  }

  lemma OccursBefore(t: string, s: string, b: string)
    requires Occurs(t, s)
    ensures Occurs(t, s + b)
  {
    var k :| OccursAt(t, s, k);
    assert (s + b)[k..k + |t|] == s[k..k + |t|];
    assert OccursAt(t, s + b, k);
  }

  lemma OccursAfter(t: string, a: string, s: string)
    requires Occurs(t, s)
    ensures Occurs(t, a + s)
  {
    var k :| OccursAt(t, s, k);
    assert (a + s)[|a| + k..|a| + k + |t|] == s[k..k + |t|];
    assert OccursAt(t, a + s, |a| + k);
  }

  function Join(xs: seq<string>, sep: string): string
    decreases |xs|
  {
    if xs == [] then ""
    else if |xs| == 1 then xs[0]
    else xs[0] + sep + Join(xs[1..], sep)
  }

  /** Every colour of the palette appears verbatim in the joined list. */
  lemma {:induction false} JoinContains(xs: seq<string>, sep: string, i: nat)
    requires i < |xs|
    ensures Occurs(xs[i], Join(xs, sep))
    decreases |xs|
  {
    if |xs| == 1 {
      OccursSelf(xs[0]);
    } else if i == 0 {
      OccursSelf(xs[0]);
      OccursBefore(xs[0], xs[0], sep);
      OccursBefore(xs[0], xs[0] + sep, Join(xs[1..], sep));
    } else {
      JoinContains(xs[1..], sep, i - 1);
      assert xs[1..][i - 1] == xs[i];
      OccursAfter(xs[i], xs[0] + sep, Join(xs[1..], sep));
    }
  }

  // ---------------------------------------------------------------------------------------
  // The prompt texts
  // ---------------------------------------------------------------------------------------

  /** The text block of the creation prompt: the fixed "no text" sentence, or the overlay. */
  datatype TextContent = PurelyVisual | Overlay(headline: string, subheading: string)

  /** Lines 39-47: the overlay is used when text is wanted and at least one line is non-empty. */
  function TextContentFor(option: TextOption, inputs: TextInputs): (t: TextContent)
    ensures t.Overlay? <==> option == WithText && (inputs.headline != "" || inputs.subheading != "")
    ensures t.Overlay? ==> t.headline == inputs.headline && t.subheading == inputs.subheading
  {
    if option == WithText && (inputs.headline != "" || inputs.subheading != "") then
      Overlay(inputs.headline, inputs.subheading)
    else
      PurelyVisual
  }

  function RenderTextContent(t: TextContent): string {
    match t
    case PurelyVisual => NoTextSentence
    case Overlay(h, s) => HeadlineLead + h + SubheadingLead + s + OverlayTail
  }

  /** Lines 28-34: the edit prompt interpolates the instruction and nothing else. */
  function EditText(prompt: string): string {
    EditLead + prompt + EditTail
  }

  /** `[${colors.join(', ')}]` */
  function Bracketed(colors: seq<string>): string {
    "[" + Join(colors, ", ") + "]"
  }

  /** The palette sentence of line 60: the bracketed colours, then the fallback, always both. */
  function PaletteSentence(colors: seq<string>): string {
    PaletteLead + Bracketed(colors) + ". " + FallbackSentence
  }

  function TextBlock(c: GenerationConfig): string {
    RenderTextContent(TextContentFor(c.textOption, c.textInputs))
  }

  /** Lines 49-69. */
  function CreationText(c: GenerationConfig): string {
    ObjectiveLead + c.prompt + PaletteSentence(c.colors) + TextBlock(c) + AspectLead + c.aspectRatio + CreationTail
  }

  /** A fragment of the palette sentence is a fragment of the creation prompt. */
  lemma InPaletteSentence(t: string, c: GenerationConfig)
    requires Occurs(t, PaletteSentence(c.colors))
    ensures Occurs(t, CreationText(c))
  {
    OccursAfter(t, ObjectiveLead + c.prompt, PaletteSentence(c.colors));
    OccursBefore(t, ObjectiveLead + c.prompt + PaletteSentence(c.colors), TextBlock(c));
    OccursBefore(t, ObjectiveLead + c.prompt + PaletteSentence(c.colors) + TextBlock(c), AspectLead);
    OccursBefore(t, ObjectiveLead + c.prompt + PaletteSentence(c.colors) + TextBlock(c) + AspectLead, c.aspectRatio);
    OccursBefore(t, ObjectiveLead + c.prompt + PaletteSentence(c.colors) + TextBlock(c) + AspectLead + c.aspectRatio, CreationTail);
  }

  /**
   * The creation prompt quotes the brief, the bracketed palette, the aspect ratio verbatim
   * and the text block that was chosen, and it always carries the empty-palette fallback
   * sentence, whatever the palette.
   */
  lemma CreationTextMentions(c: GenerationConfig)
    ensures Occurs(c.prompt, CreationText(c))
    ensures Occurs(Bracketed(c.colors), CreationText(c))
    ensures Occurs(FallbackSentence, CreationText(c))
    ensures Occurs(TextBlock(c), CreationText(c))
    ensures Occurs(c.aspectRatio, CreationText(c))
  {
    var head := ObjectiveLead + c.prompt;
    var p := PaletteSentence(c.colors);
    var b := TextBlock(c);

    OccursSelf(c.prompt);
    OccursAfter(c.prompt, ObjectiveLead, c.prompt);
    OccursBefore(c.prompt, head, p);
    OccursBefore(c.prompt, head + p, b);
    OccursBefore(c.prompt, head + p + b, AspectLead);
    OccursBefore(c.prompt, head + p + b + AspectLead, c.aspectRatio);
    OccursBefore(c.prompt, head + p + b + AspectLead + c.aspectRatio, CreationTail);

    OccursSelf(Bracketed(c.colors));
    OccursAfter(Bracketed(c.colors), PaletteLead, Bracketed(c.colors));
    OccursBefore(Bracketed(c.colors), PaletteLead + Bracketed(c.colors), ". ");
    OccursBefore(Bracketed(c.colors), PaletteLead + Bracketed(c.colors) + ". ", FallbackSentence);
    InPaletteSentence(Bracketed(c.colors), c);

    OccursSelf(FallbackSentence);
    OccursAfter(FallbackSentence, PaletteLead + Bracketed(c.colors) + ". ", FallbackSentence);
    InPaletteSentence(FallbackSentence, c);

    OccursSelf(b);
    OccursAfter(b, head + p, b);
    OccursBefore(b, head + p + b, AspectLead);
    OccursBefore(b, head + p + b + AspectLead, c.aspectRatio);
    OccursBefore(b, head + p + b + AspectLead + c.aspectRatio, CreationTail);

    OccursSelf(c.aspectRatio);
    OccursAfter(c.aspectRatio, head + p + b + AspectLead, c.aspectRatio);
    OccursBefore(c.aspectRatio, head + p + b + AspectLead + c.aspectRatio, CreationTail);
  }

  /** Each colour of the palette is quoted in the creation prompt. */
  lemma CreationTextQuotesEveryColor(c: GenerationConfig, i: nat)
    requires i < |c.colors|
    ensures Occurs(c.colors[i], CreationText(c))
  {
    var j := Join(c.colors, ", ");
    JoinContains(c.colors, ", ", i);
    OccursAfter(c.colors[i], "[", j);
    OccursBefore(c.colors[i], "[" + j, "]");
    OccursAfter(c.colors[i], PaletteLead, Bracketed(c.colors));
    OccursBefore(c.colors[i], PaletteLead + Bracketed(c.colors), ". ");
    OccursBefore(c.colors[i], PaletteLead + Bracketed(c.colors) + ". ", FallbackSentence);
    InPaletteSentence(c.colors[i], c);
  }

  /** When text is wanted and given, both lines are quoted; otherwise the fixed sentence is used. */
  lemma TextBlockChoice(c: GenerationConfig)
    ensures c.textOption == WithText && (c.textInputs.headline != "" || c.textInputs.subheading != "") ==>
              Occurs(c.textInputs.headline, TextBlock(c)) && Occurs(c.textInputs.subheading, TextBlock(c))
    ensures !(c.textOption == WithText && (c.textInputs.headline != "" || c.textInputs.subheading != "")) ==>
              TextBlock(c) == NoTextSentence
  {
    var h, s := c.textInputs.headline, c.textInputs.subheading;
    if c.textOption == WithText && (h != "" || s != "") {
      OccursSelf(h);
      OccursAfter(h, HeadlineLead, h);
      OccursBefore(h, HeadlineLead + h, SubheadingLead);
      OccursBefore(h, HeadlineLead + h + SubheadingLead, s);
      OccursBefore(h, HeadlineLead + h + SubheadingLead + s, OverlayTail);
      OccursSelf(s);
      OccursAfter(s, HeadlineLead + h + SubheadingLead, s);
      OccursBefore(s, HeadlineLead + h + SubheadingLead + s, OverlayTail);
    }
  }

  // ---------------------------------------------------------------------------------------
  // Part assembly
  // ---------------------------------------------------------------------------------------

  /** `fileToGenerativePart` applied to each source, in order. */
  function ParseEach(srcs: seq<string>): (rs: seq<Result<InlineData, string>>)
    ensures |rs| == |srcs|
    decreases |srcs|
  {
    if srcs == [] then [] else ParseEach(srcs[..|srcs| - 1]) + [ParseDataUrl(srcs[|srcs| - 1])]
  }

  lemma {:induction false} ParseEachAt(srcs: seq<string>, i: nat)
    requires i < |srcs|
    ensures ParseEach(srcs)[i] == ParseDataUrl(srcs[i])
    decreases |srcs|
  {
    var n := |srcs| - 1;
    if i < n {
      ParseEachAt(srcs[..n], i);
      assert srcs[..n][i] == srcs[i];
    }
  }

  /** The values of a list of outcomes in order, or the first failure among them. */
  function Collect<T, E>(rs: seq<Result<T, E>>): Result<seq<T>, E>
    decreases |rs|
  {
    if rs == [] then Success([])
    else
      match Collect(rs[..|rs| - 1])
      case Failure(e) => Failure(e)
      case Success(init) =>
        match rs[|rs| - 1]
        case Failure(e) => Failure(e)
        case Success(v) => Success(init + [v])
  }

  predicate AllSucceed<T, E>(rs: seq<Result<T, E>>) {
    forall i :: 0 <= i < |rs| ==> rs[i].Success?
  }

  /**
   * The list succeeds exactly when every outcome does, and then holds their values in
   * order; otherwise its error is the error of one of them.
   */
  lemma {:induction false} CollectCorrect<T, E>(rs: seq<Result<T, E>>)
    ensures Collect(rs).Success? <==> AllSucceed(rs)
    ensures Collect(rs).Success? ==>
              |Collect(rs).value| == |rs| && forall i :: 0 <= i < |rs| ==> rs[i] == Success(Collect(rs).value[i])
    ensures Collect(rs).Failure? ==> exists i :: 0 <= i < |rs| && rs[i] == Failure(Collect(rs).error)
    decreases |rs|
  {
    if rs != [] {
      var n := |rs| - 1;
      var init := rs[..n];
      CollectCorrect(init);
      assert forall i :: 0 <= i < n ==> init[i] == rs[i];
      if Collect(init).Failure? {
        var i :| 0 <= i < n && init[i] == Failure(Collect(init).error);
        assert rs[i] == init[i];
      } else if rs[n].Success? {
        var vs := Collect(init).value;
        assert Collect(rs) == Success(vs + [rs[n].value]);
        forall i | 0 <= i < |rs| ensures rs[i] == Success(Collect(rs).value[i]) {
          if i < n {
            assert (vs + [rs[n].value])[i] == vs[i];
          }
        }
      }
    }
  }

  predicate AllParse(srcs: seq<string>) {
    forall i :: 0 <= i < |srcs| ==> ParseDataUrl(srcs[i]).Success?
  }

  /** The images parse exactly when each does, as the inline data of each in order. */
  lemma ParseEachCorrect(srcs: seq<string>)
    ensures Collect(ParseEach(srcs)).Success? <==> AllParse(srcs)
    ensures Collect(ParseEach(srcs)).Success? ==>
              |Collect(ParseEach(srcs)).value| == |srcs|
              && forall i :: 0 <= i < |srcs| ==> ParseDataUrl(srcs[i]) == Success(Collect(ParseEach(srcs)).value[i])
    ensures Collect(ParseEach(srcs)).Failure? ==> Collect(ParseEach(srcs)).error == InvalidDataUrlMessage
  {
    var rs := ParseEach(srcs);
    forall i | 0 <= i < |srcs| ensures rs[i] == ParseDataUrl(srcs[i]) {
      ParseEachAt(srcs, i);
    }
    CollectCorrect(rs);
    if Collect(rs).Failure? {
      var i :| 0 <= i < |rs| && rs[i] == Failure(Collect(rs).error);
      assert ParseDataUrl(srcs[i]).Failure?;
    }
  }

  function Inlines(ds: seq<InlineData>): (r: seq<Part>)
    ensures |r| == |ds|
    ensures forall i :: 0 <= i < |ds| ==> r[i] == InlinePart(ds[i])
    decreases |ds|
  {
    if ds == [] then [] else Inlines(ds[..|ds| - 1]) + [InlinePart(ds[|ds| - 1])]
  }

  lemma InlinesSnoc(ds: seq<InlineData>, d: InlineData)
    ensures Inlines(ds + [d]) == Inlines(ds) + [InlinePart(d)]
  {
    assert (ds + [d])[..|ds|] == ds;
  }

  /** Lines 72-79: a label and the inline part of a truthy attachment, nothing otherwise. */
  function Attachment(caption: string, src: Option<string>): Result<seq<Part>, string> {
    if Present(src) then
      var d :- ParseDataUrl(src.value);
      Success([TextPart(caption), InlinePart(d)])
    else
      Success([])
  }

  /** Lines 80-85: the inspiration label and one inline part per image, in stored order. */
  function Gallery(srcs: seq<string>): Result<seq<Part>, string> {
    if |srcs| == 0 then Success([])
    else
      var ds :- Collect(ParseEach(srcs));
      Success([TextPart(InspirationLabel)] + Inlines(ds))
  }

  /** Lines 20-86: the parts of a request, or the error `fileToGenerativePart` throws. */
  function Compose(c: GenerationConfig): Result<seq<Part>, string> {
    if Present(c.baseImage) then
      var base :- ParseDataUrl(c.baseImage.value);
      Success([TextPart(EditText(c.prompt)), InlinePart(base)])
    else
      var logo :- Attachment(LogoLabel, c.logo);
      var icon :- Attachment(IconLabel, c.icon);
      var gallery :- Gallery(c.inspiration);
      Success([TextPart(CreationText(c))] + logo + icon + gallery)
  }

  lemma GalleryFails(srcs: seq<string>, i: nat)
    requires i < |srcs| && ParseDataUrl(srcs[i]).Failure?
    ensures Gallery(srcs).Failure? && Gallery(srcs).error == InvalidDataUrlMessage
  {
    ParseEachCorrect(srcs);
  }

  /** When every image parses, the gallery is the label and the inline data of each, in order. */
  lemma GalleryValue(srcs: seq<string>, ds: seq<InlineData>)
    requires |srcs| > 0 && |ds| == |srcs|
    requires forall k :: 0 <= k < |srcs| ==> ParseEach(srcs)[k] == Success(ds[k])
    ensures Gallery(srcs) == Success([TextPart(InspirationLabel)] + Inlines(ds))
  {
    CollectCorrect(ParseEach(srcs));
    assert Collect(ParseEach(srcs)).value == ds;
  }

  lemma ConcatAssoc<T>(a: seq<T>, b: seq<T>, c: seq<T>)
    ensures a + b + c == a + (b + c)
  {
  }

  /** One more success extends the agreement between outcomes and values by one place. */
  lemma SnocAgrees<T, E>(rs: seq<Result<T, E>>, ds: seq<T>, d: T)
    requires |ds| < |rs| && rs[|ds|] == Success(d)
    requires forall k :: 0 <= k < |ds| ==> rs[k] == Success(ds[k])
    ensures forall k :: 0 <= k < |ds| + 1 ==> rs[k] == Success((ds + [d])[k])
  {
  }

  /** Pushing one more inline part extends the gallery built so far. */
  lemma PushStep(head: seq<Part>, ds: seq<InlineData>, d: InlineData)
    ensures head + Inlines(ds) + [InlinePart(d)] == head + Inlines(ds + [d])
  {
    InlinesSnoc(ds, d);
  }

  /** Lines 80-85 step by step: the label, then one push per image. */
  method PushGallery(srcs: seq<string>, parts: seq<Part>) returns (r: Result<seq<Part>, string>)
    requires |srcs| > 0
    ensures r.Success? <==> Gallery(srcs).Success?
    ensures r.Success? ==> r.value == parts + Gallery(srcs).value
    ensures r.Failure? ==> r.error == Gallery(srcs).error
  {
    ghost var rs := ParseEach(srcs);
    ghost var ds: seq<InlineData> := [];
    var acc := parts + [TextPart(InspirationLabel)];
    var i := 0;
    while i < |srcs|
      invariant 0 <= i <= |srcs| && |ds| == i
      invariant forall k :: 0 <= k < i ==> rs[k] == Success(ds[k])
      invariant acc == parts + [TextPart(InspirationLabel)] + Inlines(ds)
    {
      var d := ParseDataUrl(srcs[i]);
      ParseEachAt(srcs, i);
      if d.Failure? {
        GalleryFails(srcs, i);
        return Failure(d.error);
      }
      PushStep(parts + [TextPart(InspirationLabel)], ds, d.value);
      acc := acc + [InlinePart(d.value)];
      SnocAgrees(rs, ds, d.value);
      ds := ds + [d.value];
      i := i + 1;
    }
    GalleryValue(srcs, ds);
    ConcatAssoc(parts, [TextPart(InspirationLabel)], Inlines(ds));
    r := Success(acc);
  }

  /**
   * The `push` sequence of lines 23-86, returning the parts, or the error of the first
   * attachment that is not a base64 data URL.
   */
  method BuildParts(c: GenerationConfig) returns (r: Result<seq<Part>, string>)
    ensures r == Compose(c)
  {
    var parts: seq<Part> := [];
    if Present(c.baseImage) {
      parts := parts + [TextPart(EditText(c.prompt))];
      var base := ParseDataUrl(c.baseImage.value);
      if base.Failure? {
        return Failure(base.error);
      }
      parts := parts + [InlinePart(base.value)];
      assert parts == [TextPart(EditText(c.prompt)), InlinePart(base.value)];
    } else {
      parts := parts + [TextPart(CreationText(c))];
      if Present(c.logo) {
        parts := parts + [TextPart(LogoLabel)];
        var d := ParseDataUrl(c.logo.value);
        if d.Failure? {
          return Failure(d.error);
        }
        parts := parts + [InlinePart(d.value)];
      }
      if Present(c.icon) {
        parts := parts + [TextPart(IconLabel)];
        var d := ParseDataUrl(c.icon.value);
        if d.Failure? {
          return Failure(d.error);
        }
        parts := parts + [InlinePart(d.value)];
      }
      assert parts == [TextPart(CreationText(c))] + Attachment(LogoLabel, c.logo).value
                      + Attachment(IconLabel, c.icon).value;
      if |c.inspiration| > 0 {
        var g := PushGallery(c.inspiration, parts);
        if g.Failure? {
          return Failure(g.error);
        }
        parts := g.value;
      }
      assert parts == [TextPart(CreationText(c))] + Attachment(LogoLabel, c.logo).value
                      + Attachment(IconLabel, c.icon).value + Gallery(c.inspiration).value;
      assert Compose(c) == Success(parts);
    }
    r := Success(parts);
  }

  /**
   * Edit mode: exactly two parts, the edit prompt quoting the instruction and the inline
   * part of the base image; it fails exactly when the base image is not a data URL.
   */
  lemma EditModeParts(c: GenerationConfig)
    requires Present(c.baseImage)
    ensures Compose(c).Success? <==> ParseDataUrl(c.baseImage.value).Success?
    ensures Compose(c).Success? ==>
              |Compose(c).value| == 2
              && Compose(c).value[0] == TextPart(EditText(c.prompt))
              && Compose(c).value[1] == InlinePart(ParseDataUrl(c.baseImage.value).value)
    ensures Occurs(c.prompt, EditText(c.prompt))
  {
    OccursSelf(c.prompt);
    OccursAfter(c.prompt, EditLead, c.prompt);
    OccursBefore(c.prompt, EditLead + c.prompt, EditTail);
  }

  /** Edit mode reads only the instruction and the base image: the rest of the brief is ignored. */
  lemma EditModeIgnoresBrief(c: GenerationConfig, c': GenerationConfig)
    requires Present(c.baseImage) && c'.baseImage == c.baseImage && c'.prompt == c.prompt
    ensures Compose(c') == Compose(c)
  {
  }

  function Indicator(b: bool): nat {
    if b then 1 else 0
  }

  lemma AttachmentShape(caption: string, src: Option<string>)
    requires Attachment(caption, src).Success?
    ensures |Attachment(caption, src).value| == 2 * Indicator(Present(src))
    ensures Present(src) ==>
              && ParseDataUrl(src.value).Success?
              && Attachment(caption, src).value == [TextPart(caption), InlinePart(ParseDataUrl(src.value).value)]
  {
  }

  lemma GalleryShape(srcs: seq<string>)
    requires Gallery(srcs).Success?
    ensures |Gallery(srcs).value| == if |srcs| > 0 then 1 + |srcs| else 0
    ensures |srcs| > 0 ==> Gallery(srcs).value[0] == TextPart(InspirationLabel)
    ensures forall k :: 0 <= k < |srcs| ==>
              ParseDataUrl(srcs[k]).Success? && Gallery(srcs).value[1 + k] == InlinePart(ParseDataUrl(srcs[k]).value)
  {
    if |srcs| > 0 {
      ParseEachCorrect(srcs);
      var ds := Collect(ParseEach(srcs)).value;
      assert Gallery(srcs).value == [TextPart(InspirationLabel)] + Inlines(ds);
    }
  }

  /**
   * Creation mode: 1 + 2·[logo] + 2·[icon] + (1 + |inspiration| when there is any) parts,
   * in the order prompt, logo label, logo, icon label, icon, inspiration label, images.
   */
  lemma CreationModeParts(c: GenerationConfig)
    requires !Present(c.baseImage) && Compose(c).Success?
    ensures var ps := Compose(c).value;
            var l := 2 * Indicator(Present(c.logo));
            var n := 2 * Indicator(Present(c.icon));
            && |ps| == 1 + l + n + (if |c.inspiration| > 0 then 1 + |c.inspiration| else 0)
            && ps[0] == TextPart(CreationText(c))
            && (Present(c.logo) ==>
                  && ParseDataUrl(c.logo.value).Success?
                  && ps[1] == TextPart(LogoLabel) && ps[2] == InlinePart(ParseDataUrl(c.logo.value).value))
            && (Present(c.icon) ==>
                  && ParseDataUrl(c.icon.value).Success?
                  && ps[1 + l] == TextPart(IconLabel) && ps[2 + l] == InlinePart(ParseDataUrl(c.icon.value).value))
            && (|c.inspiration| > 0 ==> ps[1 + l + n] == TextPart(InspirationLabel))
            && forall k :: 0 <= k < |c.inspiration| ==>
                 ParseDataUrl(c.inspiration[k]).Success?
                 && ps[2 + l + n + k] == InlinePart(ParseDataUrl(c.inspiration[k]).value)
  {
    ComposeCreation(c);
    var logo := Attachment(LogoLabel, c.logo).value;
    var icon := Attachment(IconLabel, c.icon).value;
    var gallery := Gallery(c.inspiration).value;
    AttachmentShape(LogoLabel, c.logo);
    AttachmentShape(IconLabel, c.icon);
    GalleryShape(c.inspiration);
    PiecesAt(Compose(c).value, TextPart(CreationText(c)), logo, icon, gallery);
  }

  /** A successful creation-mode assembly is the prompt, then the logo, icon and gallery pieces. */
  lemma ComposeCreation(c: GenerationConfig)
    requires !Present(c.baseImage) && Compose(c).Success?
    ensures Attachment(LogoLabel, c.logo).Success? && Attachment(IconLabel, c.icon).Success?
    ensures Gallery(c.inspiration).Success?
    ensures Compose(c).value == [TextPart(CreationText(c))] + Attachment(LogoLabel, c.logo).value
                                + Attachment(IconLabel, c.icon).value + Gallery(c.inspiration).value
  {
  }

  lemma PiecesAt(ps: seq<Part>, first: Part, a: seq<Part>, b: seq<Part>, d: seq<Part>)
    requires ps == [first] + a + b + d
    ensures |ps| == 1 + |a| + |b| + |d| && ps[0] == first
    ensures forall k :: 0 <= k < |a| ==> ps[1 + k] == a[k]
    ensures forall k :: 0 <= k < |b| ==> ps[1 + |a| + k] == b[k]
    ensures forall k :: 0 <= k < |d| ==> ps[1 + |a| + |b| + k] == d[k]
  {
  }

  /**
   * Assembly fails exactly when an attachment it reads is not a base64 data URL, and then
   * with that parser's message.
   */
  lemma ComposeSucceedsIff(c: GenerationConfig)
    ensures Compose(c).Failure? ==> Compose(c).error == InvalidDataUrlMessage
    ensures Compose(c).Success? <==>
              if Present(c.baseImage) then ParseDataUrl(c.baseImage.value).Success?
              else
                && (Present(c.logo) ==> ParseDataUrl(c.logo.value).Success?)
                && (Present(c.icon) ==> ParseDataUrl(c.icon.value).Success?)
                && AllParse(c.inspiration)
  {
    ParseEachCorrect(c.inspiration);
  }

  // ---------------------------------------------------------------------------------------
  // The reply
  // ---------------------------------------------------------------------------------------

  datatype ResponsePart = ResponsePart(text: Option<string>, inlineData: Option<InlineData>)
  datatype Content = Content(parts: Option<seq<ResponsePart>>)
  datatype Candidate = Candidate(content: Option<Content>)
  datatype Response = Response(candidates: Option<seq<Candidate>>)

  /** What `generateContent` does: throws, or resolves to a response. */
  datatype Reply = TransportError | Delivered(response: Response)

  /** Line 98: `response.candidates?.[0]?.content?.parts || []`. */
  function FirstCandidateParts(r: Response): seq<ResponsePart> {
    if r.candidates.Some? && |r.candidates.value| > 0
       && r.candidates.value[0].content.Some? && r.candidates.value[0].content.value.parts.Some?
    then r.candidates.value[0].content.value.parts.value
    else []
  }

  /** A missing candidate, content or part list falls back to no parts, and so to no image. */
  lemma MissingPartsGiveNoImage(r: Response)
    requires || r.candidates.None? || |r.candidates.value| == 0
             || r.candidates.value[0].content.None? || r.candidates.value[0].content.value.parts.None?
    ensures FirstCandidateParts(r) == [] && ImageOf(r).None?
  {
  }

  /** The index of the first part that carries inline data. */
  function FirstInline(ps: seq<ResponsePart>): (r: Option<nat>)
    ensures r.Some? ==> r.value < |ps| && ps[r.value].inlineData.Some?
    ensures r.Some? ==> forall j :: 0 <= j < r.value ==> ps[j].inlineData.None?
    ensures r.None? ==> forall j :: 0 <= j < |ps| ==> ps[j].inlineData.None?
    decreases |ps|
  {
    if ps == [] then None
    else if ps[0].inlineData.Some? then Some(0)
    else match FirstInline(ps[1..])
         case None => None
         case Some(i) => Some(i + 1)
  }

  /** Lines 98-104: the image the response carries, as a data URL. */
  function ImageOf(r: Response): Option<string> {
    var ps := FirstCandidateParts(r);
    match FirstInline(ps)
    case None => None
    case Some(i) => Some(Envelope(ps[i].inlineData.value.mimeType, ps[i].inlineData.value.data))
  }

  /** The loop of lines 98-104, returning at the first part with inline data. */
  method ScanResponse(r: Response) returns (image: Option<string>)
    ensures image == ImageOf(r)
  {
    var ps := FirstCandidateParts(r);
    for i := 0 to |ps|
      invariant forall j :: 0 <= j < i ==> ps[j].inlineData.None?
    {
      if ps[i].inlineData.Some? {
        var d := ps[i].inlineData.value;
        return Some(Envelope(d.mimeType, d.data));
      }
    }
    return None;
  }

  /** The image is the first inline part of candidate 0, wrapped at line 102; later ones are ignored. */
  lemma ImageIsFirstInline(r: Response, i: nat)
    requires i < |FirstCandidateParts(r)|
    requires FirstCandidateParts(r)[i].inlineData.Some?
    requires forall j :: 0 <= j < i ==> FirstCandidateParts(r)[j].inlineData.None?
    ensures ImageOf(r) == Some(Envelope(FirstCandidateParts(r)[i].inlineData.value.mimeType,
                                        FirstCandidateParts(r)[i].inlineData.value.data))
  {
  }

  /** No image exactly when no part of candidate 0 carries inline data. */
  lemma NoImageIffNoInline(r: Response)
    ensures ImageOf(r).None? <==>
            forall j :: 0 <= j < |FirstCandidateParts(r)| ==> FirstCandidateParts(r)[j].inlineData.None?
  {
  }

  /** Candidates after the first are never read. */
  lemma OnlyFirstCandidateCounts(c: Candidate, rest: seq<Candidate>)
    ensures ImageOf(Response(Some([c] + rest))) == ImageOf(Response(Some([c])))
  {
  }

  /**
   * The data URL returned for a well-formed inline part parses back into that part, so a
   * generated image can be sent again as a base image.
   */
  lemma ImageReparses(r: Response)
    requires ImageOf(r).Some?
    ensures var d := FirstCandidateParts(r)[FirstInline(FirstCandidateParts(r)).value].inlineData.value;
            (d.mimeType != [] && d.data != [] && SingleLine(d.mimeType) && SingleLine(d.data) && NoInnerMarker(d.data))
            ==> ParseDataUrl(ImageOf(r).value) == Success(d)
  {
    var ps := FirstCandidateParts(r);
    var d := ps[FirstInline(ps).value].inlineData.value;
    EnvelopeRoundTrip(d.mimeType, d.data);
  }

  // ---------------------------------------------------------------------------------------
  // `generateCreative`
  // ---------------------------------------------------------------------------------------

  /**
   * Lines 19-110: the image as a data URL, or the message of the error raised. Assembly
   * runs before the `try`, so its error escapes unchanged; inside the `try`, a failed call and
   * a response without an image both become the generic message.
   */
  function Generate(c: GenerationConfig, reply: Reply): Result<string, string> {
    var parts :- Compose(c);
    match reply
    case TransportError => Failure(GenerationFailedMessage)
    case Delivered(response) =>
      match ImageOf(response)
      case None => Failure(GenerationFailedMessage)
      case Some(url) => Success(url)
  }

  method GenerateCreative(c: GenerationConfig, reply: Reply) returns (r: Result<string, string>)
    ensures r == Generate(c, reply)
  {
    var parts := BuildParts(c);
    if parts.Failure? {
      return Failure(parts.error);
    }
    match reply
    case TransportError =>
      r := Failure(GenerationFailedMessage);
    case Delivered(response) =>
      var image := ScanResponse(response);
      if image.None? {
        r := Failure(GenerationFailedMessage);
      } else {
        r := Success(image.value);
      }
  }

  /**
   * The outcome: success exactly when assembly succeeds and the delivered response holds an
   * image; the parser's message exactly when assembly fails, whatever the reply; the generic
   * message otherwise.
   */
  lemma GenerateOutcome(c: GenerationConfig, reply: Reply, other: Reply)
    ensures Generate(c, reply).Success? <==>
              Compose(c).Success? && reply.Delivered? && ImageOf(reply.response).Some?
    ensures Generate(c, reply).Success? ==> Generate(c, reply).value == ImageOf(reply.response).value
    ensures Generate(c, reply).Failure? ==>
              (Generate(c, reply).error == InvalidDataUrlMessage <==> Compose(c).Failure?)
    ensures Generate(c, reply).Failure? && Compose(c).Success? ==>
              Generate(c, reply).error == GenerationFailedMessage
    ensures Compose(c).Failure? ==> Generate(c, other) == Generate(c, reply)
  {
    ComposeSucceedsIff(c);
    assert |InvalidDataUrlMessage| != |GenerationFailedMessage|;
  }

  /** A one-colour brief quotes that colour in brackets, and chooses no text block. */
  lemma SingleColorBrief(c: GenerationConfig)
    requires |c.colors| == 1 && c.textOption == NoText
    ensures Occurs("[" + c.colors[0] + "]", CreationText(c))
    ensures TextContentFor(c.textOption, c.textInputs) == PurelyVisual
  {
    CreationTextMentions(c);
    assert Join(c.colors, ", ") == c.colors[0];
  }
}
