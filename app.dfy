/**
 * The state of App.tsx: the working brief, the saved profiles and the generation status,
 * with the handlers that change them. Two handlers of components/ControlPanel.tsx,
 * `handleSaveProfile` and `handleLogoFile`, are methods here too. The colour edits that
 * handler file makes through `setColors` are the list functions `AddColor`, `ChangeColor`
 * and `RemoveColor` of module ControlPanel; its icon and inspiration uploads are not
 * modelled.
 *
 * Each handler runs to completion: the outcome of the remote call and of decoding an
 * uploaded image are parameters, and the intermediate renders an `await` allows are not
 * modelled.
 */
module App {
  import opened Wrappers
  import opened Types
  import DataUrl
  import ColorExtractor
  import ControlPanel
  import GeminiService

  const EmptyBriefMessage := "Por favor, proporciona un brief creativo."

  /** The palette a fresh session starts with. */
  const InitialColors := ["#4A90E2", "#50E3C2", "#000000"]
  const InitialAspectRatio := "1:1 (Cuadrado)"

  /** The eight fields a profile stores. */
  datatype Brief = Brief(
    prompt: string,
    logo: Option<string>,
    icon: Option<string>,
    inspiration: seq<string>,
    colors: seq<string>,
    aspectRatio: string,
    textOption: TextOption,
    textInputs: TextInputs)

  function ProfileFrom(id: string, name: string, b: Brief): Profile {
    Profile(id, name, b.prompt, b.logo, b.icon, b.inspiration, b.colors, b.aspectRatio, b.textOption, b.textInputs)
  }

  function BriefOf(p: Profile): Brief {
    Brief(p.prompt, p.logo, p.icon, p.inspiration, p.colors, p.aspectRatio, p.textOption, p.textInputs)
  }

  // ---------------------------------------------------------------------------------------
  // The profile list
  // ---------------------------------------------------------------------------------------

  /** `profiles.find(p => p.id === id)`, as the index of the first profile with that id. */
  function FirstWithId(ps: seq<Profile>, id: string): (r: Option<nat>)
    ensures r.Some? ==> r.value < |ps| && ps[r.value].id == id
    ensures r.Some? ==> forall j :: 0 <= j < r.value ==> ps[j].id != id
    ensures r.None? ==> forall j :: 0 <= j < |ps| ==> ps[j].id != id
    decreases |ps|
  {
    if ps == [] then None
    else if ps[0].id == id then Some(0)
    else match FirstWithId(ps[1..], id)
         case None => None
         case Some(i) => Some(i + 1)
  }

  /** r is s with some elements left out, the rest in their order. */
  predicate IsSubsequence<T(==)>(r: seq<T>, s: seq<T>)
    decreases |s|
  {
    if r == [] then true
    else if s == [] then false
    else (r[0] == s[0] && IsSubsequence(r[1..], s[1..])) || IsSubsequence(r, s[1..])
  }

  /** `profiles.filter(p => p.id !== id)` */
  function WithoutId(ps: seq<Profile>, id: string): seq<Profile>
    decreases |ps|
  {
    if ps == [] then []
    else if ps[0].id == id then WithoutId(ps[1..], id)
    else [ps[0]] + WithoutId(ps[1..], id)
  }

  /**
   * Every profile with that id goes, every other one stays, as many times as before and in
   * the same relative order.
   */
  lemma {:induction false} WithoutIdCorrect(ps: seq<Profile>, id: string)
    ensures IsSubsequence(WithoutId(ps, id), ps)
    ensures forall p :: multiset(WithoutId(ps, id))[p] == if p.id == id then 0 else multiset(ps)[p]
    decreases |ps|
  {
    if ps != [] {
      var rest := ps[1..];
      WithoutIdCorrect(rest, id);
      assert ps == [ps[0]] + rest;
      var w := WithoutId(rest, id);
      if ps[0].id != id {
        assert ([ps[0]] + w)[1..] == w;
      } else if w != [] {
        assert IsSubsequence(w, rest);
      }
    }
  }

  /** After a delete no profile with that id is left to load. */
  lemma DeleteThenFindNone(ps: seq<Profile>, id: string)
    ensures FirstWithId(WithoutId(ps, id), id).None?
  {
    var r := WithoutId(ps, id);
    WithoutIdCorrect(ps, id);
    forall j | 0 <= j < |r| ensures r[j].id != id {
      assert r[j] in multiset(r);
    }
  }

  /** Deleting one id leaves the profile another id loads untouched. */
  lemma {:induction false} DeleteKeepsOthers(ps: seq<Profile>, id: string, other: string)
    requires other != id
    ensures var before := FirstWithId(ps, other);
            var after := FirstWithId(WithoutId(ps, id), other);
            before.Some? == after.Some? && (before.Some? ==> WithoutId(ps, id)[after.value] == ps[before.value])
    decreases |ps|
  {
    if ps != [] {
      var rest := ps[1..];
      var wr := WithoutId(rest, id);
      DeleteKeepsOthers(rest, id, other);
      if ps[0].id == id {
        assert WithoutId(ps, id) == wr;
      } else if ps[0].id == other {
        assert WithoutId(ps, id)[0] == ps[0];
      } else {
        var w := [ps[0]] + wr;
        assert WithoutId(ps, id) == w && w[1..] == wr;
        assert FirstWithId(w, other) == match FirstWithId(wr, other)
                                        case None => None
                                        case Some(i) => Some(i + 1);
      }
    }
  }

  lemma {:induction false} WithoutAbsentId(ps: seq<Profile>, id: string)
    requires FirstWithId(ps, id).None?
    ensures WithoutId(ps, id) == ps
    decreases |ps|
  {
    if ps != [] {
      WithoutAbsentId(ps[1..], id);
      assert ps == [ps[0]] + ps[1..];
    }
  }

  lemma {:induction false} WithoutAppend(ps: seq<Profile>, qs: seq<Profile>, id: string)
    ensures WithoutId(ps + qs, id) == WithoutId(ps, id) + WithoutId(qs, id)
    decreases |ps|
  {
    if ps == [] {
      assert ps + qs == qs;
    } else {
      assert (ps + qs)[1..] == ps[1..] + qs;
      WithoutAppend(ps[1..], qs, id);
    }
  }

  /**
   * With a fresh id, the profile just saved is the one that id loads, and it gives back the
   * brief it was saved from.
   */
  lemma SaveThenLoad(ps: seq<Profile>, id: string, name: string, b: Brief)
    requires FirstWithId(ps, id).None?
    ensures var saved := ps + [ProfileFrom(id, name, b)];
            && FirstWithId(saved, id) == Some(|ps|)
            && BriefOf(saved[|ps|]) == b && saved[|ps|].name == name
  {
    FindAppended(ps, ProfileFrom(id, name, b));
  }

  lemma {:induction false} FindAppended(ps: seq<Profile>, p: Profile)
    requires FirstWithId(ps, p.id).None?
    ensures FirstWithId(ps + [p], p.id) == Some(|ps|)
    decreases |ps|
  {
    if ps != [] {
      assert (ps + [p])[0] == ps[0] && (ps + [p])[1..] == ps[1..] + [p];
      FindAppended(ps[1..], p);
    }
  }

  /** With a fresh id, deleting the profile just saved gives back the list before the save. */
  lemma SaveThenDelete(ps: seq<Profile>, id: string, name: string, b: Brief)
    requires FirstWithId(ps, id).None?
    ensures WithoutId(ps + [ProfileFrom(id, name, b)], id) == ps
  {
    var p := ProfileFrom(id, name, b);
    WithoutAbsentId(ps, id);
    WithoutAppend(ps, [p], id);
    assert WithoutId([p], id) == [];
    assert ps + [] == ps;
  }

  // ---------------------------------------------------------------------------------------
  // Requests
  // ---------------------------------------------------------------------------------------

  /** Line 83: `aspectRatio.split(' ')[0]`, the label up to its first space. */
  function AspectRatioToken(choice: string): (r: string)
    ensures |r| <= |choice| && r == choice[..|r|]
    ensures forall i :: 0 <= i < |r| ==> r[i] != ' '
    ensures |r| == |choice| || choice[|r|] == ' '
    decreases |choice|
  {
    if choice == [] || choice[0] == ' ' then [] else [choice[0]] + AspectRatioToken(choice[1..])
  }

  /** The option labels of the ratio selector in components/ControlPanel.tsx, in order. */
  const RatioOptions := ["1:1 (Cuadrado)", "16:9 (Horizontal)", "9:16 (Vertical)",
                         "4:3 (Est\U{00E1}ndar)", "3:2 (Fotograf\U{00ED}a)"]

  /** The ratio each option label sends to the model. */
  const SentRatios := ["1:1", "16:9", "9:16", "4:3", "3:2"]

  /** Every label the selector offers is sent as its bare ratio. */
  lemma SelectorRatios()
    ensures |RatioOptions| == |SentRatios|
    ensures forall i :: 0 <= i < |RatioOptions| ==> AspectRatioToken(RatioOptions[i]) == SentRatios[i]
  {
    forall i | 0 <= i < |RatioOptions| ensures AspectRatioToken(RatioOptions[i]) == SentRatios[i] {
      var word := SentRatios[i];
      LabelRatio(word, RatioOptions[i][|word|..], RatioOptions[i]);
    }
  }

  /** An option made of a space-free ratio and a suffix starting with a space is sent as the ratio. */
  lemma LabelRatio(word: string, rest: string, option: string)
    requires option == word + rest
    requires forall i :: 0 <= i < |word| ==> word[i] != ' '
    requires rest != [] && rest[0] == ' '
    ensures AspectRatioToken(option) == word
  {
    SplitAtSpace(word, rest);
  }

  /** A space-free word followed by a space is what the split keeps. */
  lemma {:induction false} SplitAtSpace(word: string, rest: string)
    requires forall i :: 0 <= i < |word| ==> word[i] != ' '
    requires rest != [] && rest[0] == ' '
    ensures AspectRatioToken(word + rest) == word
    decreases |word|
  {
    if word == [] {
      assert word + rest == rest;
    } else {
      assert (word + rest)[0] == word[0];
      assert (word + rest)[1..] == word[1..] + rest;
      SplitAtSpace(word[1..], rest);
      assert word == [word[0]] + word[1..];
    }
  }

  /** Lines 96-110: an edit request for the image on screen, every brief field empty. */
  function RefineConfig(instruction: string, image: string): (c: GenerationConfig)
    ensures Present(c.baseImage) <==> image != ""
  {
    GenerationConfig(instruction, None, None, [], [], "", NoText, TextInputs("", ""), Some(image))
  }

  /** A refine request is an edit request: the instruction, then the image on screen. */
  lemma RefineSendsImage(instruction: string, image: string)
    requires image != ""
    ensures var parts := GeminiService.Compose(RefineConfig(instruction, image));
            && (parts.Success? <==> DataUrl.ParseDataUrl(image).Success?)
            && (parts.Success? ==>
                  parts.value == [GeminiService.TextPart(GeminiService.EditText(instruction)),
                                  GeminiService.InlinePart(DataUrl.ParseDataUrl(image).value)])
  {
    GeminiService.EditModeParts(RefineConfig(instruction, image));
  }

  /**
   * An image the service returned from a well-formed inline part can be refined: its edit
   * request carries that part back.
   */
  lemma GeneratedImageCanBeRefined(instruction: string, response: GeminiService.Response)
    requires GeminiService.ImageOf(response).Some?
    ensures var ps := GeminiService.FirstCandidateParts(response);
            var d := ps[GeminiService.FirstInline(ps).value].inlineData.value;
            d.mimeType != [] && d.data != [] && DataUrl.SingleLine(d.mimeType) && DataUrl.SingleLine(d.data)
              && DataUrl.NoInnerMarker(d.data)
            ==> GeminiService.Compose(RefineConfig(instruction, GeminiService.ImageOf(response).value)) ==
                  Success([GeminiService.TextPart(GeminiService.EditText(instruction)), GeminiService.InlinePart(d)])
  {
    var ps := GeminiService.FirstCandidateParts(response);
    var d := ps[GeminiService.FirstInline(ps).value].inlineData.value;
    GeminiService.ImageReparses(response);
    DataUrl.EnvelopeParts(d.mimeType, d.data);
  }

  /** Every error message the handlers store. */
  predicate KnownError(e: string) {
    e == EmptyBriefMessage || e == DataUrl.InvalidDataUrlMessage || e == GeminiService.GenerationFailedMessage
  }

  /** A request ends in an image data URL or in one of the known messages. */
  lemma GenerateOutcomeKnown(c: GenerationConfig, reply: GeminiService.Reply)
    ensures GeminiService.Generate(c, reply).Failure? ==> KnownError(GeminiService.Generate(c, reply).error)
    ensures GeminiService.Generate(c, reply).Success? ==> IsImageUrl(GeminiService.Generate(c, reply).value)
  {
    GeminiService.ComposeSucceedsIff(c);
    if GeminiService.Generate(c, reply).Success? {
      var ps := GeminiService.FirstCandidateParts(reply.response);
      var d := ps[GeminiService.FirstInline(ps).value].inlineData.value;
      assert GeminiService.Generate(c, reply).value == DataUrl.Envelope(d.mimeType, d.data);
    }
  }

  ghost predicate IsImageUrl(s: string) {
    exists m, d :: s == DataUrl.Envelope(m, d)
  }

  /** What `extractColors` resolves to for the uploaded logo, or that it rejected. */
  datatype Decoded = Undecodable | Pixels(data: ColorExtractor.RgbaBuffer)

  // ---------------------------------------------------------------------------------------
  // The state
  // ---------------------------------------------------------------------------------------

  class AppState {
    var prompt: string
    var logo: Option<string>
    var icon: Option<string>
    var inspiration: seq<string>
    var colors: seq<string>
    var aspectRatio: string
    var textOption: TextOption
    var textInputs: TextInputs

    var isLoading: bool
    var isRefining: bool
    var error: Option<string>
    var generatedImage: Option<string>
    var refinePrompt: string

    var profiles: seq<Profile>

    /**
     * Between handlers nothing is in flight, an error on display is one of the known
     * messages, and an image on display is a data URL.
     */
    ghost predicate Valid()
      reads this
    {
      && !isLoading && !isRefining
      && (error.Some? ==> KnownError(error.value))
      && (generatedImage.Some? ==> IsImageUrl(generatedImage.value))
    }

    function CurrentBrief(): Brief
      reads this
    {
      Brief(prompt, logo, icon, inspiration, colors, aspectRatio, textOption, textInputs)
    }

    /** Lines 77-86: the creation request for the current brief, ratio label stripped. */
    function RequestConfig(): (c: GenerationConfig)
      reads this
      ensures !Present(c.baseImage)
      ensures c.aspectRatio == AspectRatioToken(aspectRatio)
    {
      GenerationConfig(prompt, logo, icon, inspiration, colors, AspectRatioToken(aspectRatio),
                       textOption, textInputs, None)
    }

    /** Lines 11-31: the initial state, with the profiles found in storage. */
    constructor (stored: seq<Profile>)
      ensures Valid()
      ensures CurrentBrief() == Brief("", None, None, [], InitialColors, InitialAspectRatio, NoText, TextInputs("", ""))
      ensures error == None && generatedImage == None && refinePrompt == ""
      ensures profiles == stored
    {
      prompt := "";
      logo := None;
      icon := None;
      inspiration := [];
      colors := InitialColors;
      aspectRatio := InitialAspectRatio;
      textOption := NoText;
      textInputs := TextInputs("", "");
      isLoading := false;
      isRefining := false;
      error := None;
      generatedImage := None;
      refinePrompt := "";
      profiles := stored;
    }

    /** Lines 33-46: append a profile holding the current brief; `Date.now()` is the id given. */
    method SaveProfile(id: string, name: string)
      requires Valid()
      modifies this`profiles
      ensures Valid()
      ensures profiles == old(profiles) + [ProfileFrom(id, name, CurrentBrief())]
    {
      var newProfile := ProfileFrom(id, name, CurrentBrief());
      profiles := profiles + [newProfile];
    }

    /** Lines 49-60: copy the brief of the first profile with that id; no such id, no change. */
    method LoadProfile(id: string)
      requires Valid()
      modifies this`prompt, this`logo, this`icon, this`inspiration, this`colors, this`aspectRatio,
               this`textOption, this`textInputs
      ensures Valid()
      ensures match FirstWithId(profiles, id)
              case Some(i) => CurrentBrief() == BriefOf(profiles[i])
              case None => CurrentBrief() == old(CurrentBrief())
    {
      var found := FirstWithId(profiles, id);
      if found.Some? {
        var p := profiles[found.value];
        prompt := p.prompt;
        logo := p.logo;
        icon := p.icon;
        inspiration := p.inspiration;
        colors := p.colors;
        aspectRatio := p.aspectRatio;
        textOption := p.textOption;
        textInputs := p.textInputs;
      }
    }

    /** Lines 63-65. */
    method DeleteProfile(id: string)
      requires Valid()
      modifies this`profiles
      ensures Valid()
      ensures profiles == WithoutId(old(profiles), id)
    {
      profiles := WithoutId(profiles, id);
    }

    /**
     * Lines 67-94. An empty brief only sets the error. Otherwise the image on screen is
     * cleared, the request is composed and sent, and the outcome is either the new image
     * with no error, or no image and the error's message.
     */
    method HandleGenerate(reply: GeminiService.Reply)
      requires Valid()
      modifies this`isLoading, this`error, this`generatedImage
      ensures Valid()
      ensures prompt == "" ==> error == Some(EmptyBriefMessage) && generatedImage == old(generatedImage)
      ensures prompt != "" ==>
                match GeminiService.Generate(RequestConfig(), reply)
                case Success(image) => generatedImage == Some(image) && error == None
                case Failure(message) => generatedImage == None && error == Some(message)
    {
      if prompt == "" {
        error := Some(EmptyBriefMessage);
        return;
      }
      isLoading := true;
      error := None;
      generatedImage := None;
      var config := RequestConfig();
      var outcome := GeminiService.GenerateCreative(config, reply);
      GenerateOutcomeKnown(config, reply);
      if outcome.Success? {
        generatedImage := Some(outcome.value);
      } else {
        error := Some(outcome.error);
      }
      isLoading := false;
    }

    /**
     * Lines 96-119. Without an instruction or an image nothing happens. Otherwise the
     * image is sent for editing; success replaces it and clears the instruction, failure
     * keeps both and shows the error's message.
     */
    method HandleRefine(reply: GeminiService.Reply)
      requires Valid()
      modifies this`isRefining, this`error, this`generatedImage, this`refinePrompt
      ensures Valid()
      ensures old(refinePrompt) == "" || !Present(old(generatedImage)) ==>
                error == old(error) && generatedImage == old(generatedImage) && refinePrompt == old(refinePrompt)
      ensures old(refinePrompt) != "" && Present(old(generatedImage)) ==>
                match GeminiService.Generate(RefineConfig(old(refinePrompt), old(generatedImage).value), reply)
                case Success(image) => generatedImage == Some(image) && refinePrompt == "" && error == None
                case Failure(message) =>
                  generatedImage == old(generatedImage) && refinePrompt == old(refinePrompt) && error == Some(message)
    {
      if refinePrompt == "" || !Present(generatedImage) {
        return;
      }
      isRefining := true;
      error := None;
      var config := RefineConfig(refinePrompt, generatedImage.value);
      var outcome := GeminiService.GenerateCreative(config, reply);
      GenerateOutcomeKnown(config, reply);
      if outcome.Success? {
        generatedImage := Some(outcome.value);
        refinePrompt := "";
      } else {
        error := Some(outcome.error);
      }
      isRefining := false;
    }

    /**
     * `handleSaveProfile` (components/ControlPanel.tsx): a name that is blank once trimmed
     * saves nothing; otherwise the trimmed name is saved and the name field is cleared.
     */
    method HandleSaveProfile(newProfileName: string, id: string) returns (nameAfter: string)
      requires Valid()
      modifies this`profiles
      ensures Valid()
      ensures ControlPanel.AllTrimmable(newProfileName) ==>
                profiles == old(profiles) && nameAfter == newProfileName
      ensures !ControlPanel.AllTrimmable(newProfileName) ==>
                && profiles == old(profiles) + [ProfileFrom(id, ControlPanel.Trim(newProfileName), CurrentBrief())]
                && nameAfter == ""
    {
      var name := ControlPanel.ProfileNameToSave(newProfileName);
      if name.Some? {
        SaveProfile(id, name.value);
        nameAfter := "";
      } else {
        nameAfter := newProfileName;
      }
    }

    /**
     * `handleLogoFile` (components/ControlPanel.tsx): the upload becomes the logo; the
     * palette is replaced by the five most frequent colours only when extraction succeeds
     * and finds at least one.
     */
    method HandleLogoFile(dataUrl: string, decoded: Decoded)
      requires Valid()
      modifies this`logo, this`colors
      ensures Valid()
      ensures logo == Some(dataUrl)
      ensures colors ==
                if decoded.Pixels? && ColorExtractor.Palette(decoded.data, ColorExtractor.DefaultColorCount) != []
                then ColorExtractor.Palette(decoded.data, ColorExtractor.DefaultColorCount)
                else old(colors)
    {
      logo := Some(dataUrl);
      if decoded.Pixels? {
        var extracted := ColorExtractor.ExtractColors(decoded.data, ColorExtractor.DefaultColorCount);
        if |extracted| > 0 {
          colors := extracted;
        }
      }
    }
  }
}
