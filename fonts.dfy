/**
 * Font selection of the transcription editor.
 *
 * A script may have a font table: the fonts offered in the menu and the one
 * used by default. The editor starts with the font saved for the script when
 * that font is in the script's table, otherwise with the table's default, and
 * with the generic `defaultFont` for a script that has no table.
 */
module Fonts {
  import opened Wrappers

  /** The fonts offered for one script, by internal name, and the default among them. */
  datatype FontTable = FontTable(fonts: seq<string>, default: string)

  /** The editor's table: Balinese offers three fonts and defaults to Vimala. */
  const ScriptFonts: map<string, FontTable> :=
    map["bali" := FontTable(["Kadiri", "Pustaka_Bali", "Vimala"], "Vimala")]

  /** Font used for a script that has no table. */
  const GenericFont: string := "defaultFont"

  /** Storage key under which the chosen font of `script` is kept. */
  function FontKey(script: string): string {
    "font-" + script
  }

  /** The saved value names a font of the script's table. An empty name is falsy in
      JavaScript, so it never counts as a choice. */
  predicate IsSavedChoice(table: map<string, FontTable>, script: string, saved: Option<string>) {
    script in table && saved.Some? && saved.value != "" && saved.value in table[script].fonts
  }

  /** The font the editor starts with, given the value saved under `FontKey(script)`. */
  function InitialFont(table: map<string, FontTable>, script: string, saved: Option<string>): (font: string)
    ensures script !in table ==> font == GenericFont
    ensures IsSavedChoice(table, script, saved) ==> font == saved.value
    ensures script in table && !IsSavedChoice(table, script, saved) ==> font == table[script].default
  {
    if IsSavedChoice(table, script, saved) then
      saved.value
    else if script in table then
      table[script].default
    else
      GenericFont
  }

  /** Every table of the editor lists its own default. */
  lemma ScriptFontsListDefaults()
    ensures forall script :: script in ScriptFonts ==> ScriptFonts[script].default in ScriptFonts[script].fonts
  {
    assert ScriptFonts.Keys == {"bali"};
  }

  /** For a script with a table that lists its default, the starting font is always one the menu offers. */
  lemma InitialFontIsOffered(table: map<string, FontTable>, script: string, saved: Option<string>)
    requires script in table && table[script].default in table[script].fonts
    ensures InitialFont(table, script, saved) in table[script].fonts
  {
  }

  /** A font chosen from the menu and saved is the one the next session starts with;
      a saved name the table does not list (or that has no table) is ignored. */
  lemma SavedFontPersists(table: map<string, FontTable>, store: map<string, string>, script: string, font: string)
    requires script in table && font != ""
    ensures var saved := Get(store[FontKey(script) := font], FontKey(script));
      InitialFont(table, script, saved) == if font in table[script].fonts then font else table[script].default
  {
  }
}
