/** The records of types.ts. Absent (`null`) values are `None`. */
module Types {
  import opened Wrappers

  datatype TextOption = WithText | NoText

  datatype TextInputs = TextInputs(headline: string, subheading: string)

  /** A saved copy of the brief, with its identifier and name. */
  datatype Profile = Profile(
    id: string,
    name: string,
    prompt: string,
    logo: Option<string>,
    icon: Option<string>,
    inspiration: seq<string>,
    colors: seq<string>,
    aspectRatio: string,
    textOption: TextOption,
    textInputs: TextInputs)

  /** The input of one generation request; `baseImage` selects edit mode. */
  datatype GenerationConfig = GenerationConfig(
    prompt: string,
    logo: Option<string>,
    icon: Option<string>,
    inspiration: seq<string>,
    colors: seq<string>,
    aspectRatio: string,
    textOption: TextOption,
    textInputs: TextInputs,
    baseImage: Option<string>)

  /** JavaScript truthiness of a `string | null`: both `null` and the empty string are falsy. */
  predicate Present(s: Option<string>) {
    s.Some? && s.value != ""
  }
}
