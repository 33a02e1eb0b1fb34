/**
 * The list-editing rules of components/ControlPanel.tsx for the colour palette, and the
 * `trim` guard on a new profile's name.
 */
module ControlPanel {
  import opened Wrappers

  /** The colour a newly added palette entry starts with. */
  const NewColor := "#FFFFFF"

  /** `handleAddColor`: `[...colors, '#FFFFFF']`. */
  function AddColor(colors: seq<string>): (r: seq<string>)
    ensures |r| == |colors| + 1
    ensures r[..|colors|] == colors && r[|colors|] == NewColor
  {
    colors + [NewColor]
  }

  /**
   * `handleColorChange`: copy the palette into a new array and overwrite one slot. The
   * palette's inputs only ever pass the index of an entry they render.
   */
  method ChangeColor(colors: seq<string>, index: nat, value: string) returns (newColors: seq<string>)
    requires index < |colors|
    ensures |newColors| == |colors|
    ensures newColors[index] == value
    ensures forall i :: 0 <= i < |colors| && i != index ==> newColors[i] == colors[i]
  {
    var copy := new string[|colors|](i requires 0 <= i < |colors| => colors[i]);
    copy[index] := value;
    newColors := copy[..];
  }

  /** `handleRemoveColor`: `colors.filter((_, i) => i !== index)`. */
  function RemoveColor(colors: seq<string>, index: int): (r: seq<string>)
    ensures 0 <= index < |colors| ==> |r| == |colors| - 1
    ensures 0 <= index < |colors| ==> forall i :: 0 <= i < index ==> r[i] == colors[i]
    ensures 0 <= index < |colors| ==> forall i :: index <= i < |r| ==> r[i] == colors[i + 1]
    ensures !(0 <= index < |colors|) ==> r == colors
    decreases |colors|
  {
    if colors == [] then []
    else if index == 0 then colors[1..]
    else [colors[0]] + RemoveColor(colors[1..], index - 1)
  }

  /** Removing the entry just added gives back the palette. */
  lemma {:induction false} RemoveAddedColor(colors: seq<string>)
    ensures RemoveColor(AddColor(colors), |colors|) == colors
    decreases |colors|
  {
    if colors != [] {
      assert AddColor(colors)[1..] == AddColor(colors[1..]);
      RemoveAddedColor(colors[1..]);
    }
  }

  // ---------------------------------------------------------------------------------------
  // `String.prototype.trim`
  // ---------------------------------------------------------------------------------------

  /** The characters `trim` removes: ECMAScript WhiteSpace and LineTerminator. */
  predicate IsTrimmable(ch: char) {
    || ch == '\t' || ch == '\n' || ch == '\U{000B}' || ch == '\U{000C}' || ch == '\r' || ch == ' '
    || ch == '\U{00A0}' || ch == '\U{1680}' || ('\U{2000}' <= ch <= '\U{200A}')
    || ch == '\U{2028}' || ch == '\U{2029}' || ch == '\U{202F}' || ch == '\U{205F}'
    || ch == '\U{3000}' || ch == '\U{FEFF}'
  }

  predicate AllTrimmable(s: string) {
    forall i :: 0 <= i < |s| ==> IsTrimmable(s[i])
  }

  /** Drops the leading trimmable characters: the rest is a suffix starting with a kept one. */
  function TrimStart(s: string): (r: string)
    ensures |r| <= |s| && r == s[|s| - |r|..]
    ensures AllTrimmable(s[..|s| - |r|])
    ensures r == [] || !IsTrimmable(r[0])
  {
    if s == [] || !IsTrimmable(s[0]) then s else TrimStart(s[1..])
  }

  /** Drops the trailing trimmable characters: the rest is a prefix ending with a kept one. */
  function TrimEnd(s: string): (r: string)
    ensures |r| <= |s| && r == s[..|r|]
    ensures AllTrimmable(s[|r|..])
    ensures r == [] || !IsTrimmable(r[|r| - 1])
  {
    if s == [] || !IsTrimmable(s[|s| - 1]) then s else TrimEnd(s[..|s| - 1])
  }

  function Trim(s: string): string {
    TrimEnd(TrimStart(s))
  }

  /** The trimmed name is empty exactly when the name holds nothing but white space. */
  lemma TrimEmptyIffBlank(s: string)
    ensures Trim(s) == [] <==> AllTrimmable(s)
  {
    var t := TrimStart(s);
    if t != [] {
      assert s[|s| - |t|] == t[0];
    } else {
      assert s[..|s|] == s;
    }
  }

  /**
   * `handleSaveProfile`: the name saved, if any. A name that is empty once trimmed saves
   * nothing; otherwise the trimmed name is saved.
   */
  function ProfileNameToSave(newProfileName: string): (r: Option<string>)
    ensures r.Some? <==> !AllTrimmable(newProfileName)
    ensures r.Some? ==> r.value == Trim(newProfileName) && r.value != []
  {
    TrimEmptyIffBlank(newProfileName);
    var trimmed := Trim(newProfileName);
    if trimmed != [] then Some(trimmed) else None
  }
}
