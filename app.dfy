/**
 * The transcription editor's state: one authoritative buffer `text` with a
 * caret offset, the wiki text box it is loaded from and written back to, the
 * browser's key-value storage used for autosave and preferences, and (in view
 * mode) a cache of leaf contents fetched once each.
 *
 * Every React `setState` becomes an in-place update of the fields it names.
 * The browser and the network are parameters: `window.confirm` is a boolean
 * answer, a fetch is a function from leaf index to its outcome, a selection is
 * a `Caret.Selection`, and the one-second `setTimeout` that runs the recovery
 * check is a queue of pending checks that `FireTimer` runs.
 */
module Editor {
  import opened Wrappers
  import opened Strings
  import opened Markup
  import opened Caret
  import opened Fonts

  /** The item being transcribed; `leaf` is the page index within it. */
  datatype ArchiveItem = ArchiveItem(id: string, file: string, leaf: nat)

  /** Outcome of fetching a leaf's wiki text: a rejected request, a response
      without a `parse` member, or the parsed page body. */
  datatype FetchResult = Failed | NoParse | Parsed(body: string)

  /** A key-down event: its key name and modifier flags. */
  datatype KeyEvent = KeyEvent(key: string, altKey: bool, ctrlKey: bool, metaKey: bool, shiftKey: bool)

  predicate HasModifier(e: KeyEvent) {
    e.altKey || e.ctrlKey || e.metaKey || e.shiftKey
  }

  /** Autosave key of an item: `[id, file, leaf].join("$")`. */
  function ItemKey(item: ArchiveItem): (key: string)
    ensures |key| >= 3
  {
    item.id + "$" + item.file + "$" + DecimalString(item.leaf)
  }

  /** Two leaves of the same item never share an autosave record. */
  lemma ItemKeyDistinguishesLeaves(item: ArchiveItem, leaf: nat)
    requires leaf != item.leaf
    ensures ItemKey(item.(leaf := leaf)) != ItemKey(item)
  {
    var prefix := item.id + "$" + item.file + "$";
    var a, b := DecimalString(item.(leaf := leaf).leaf), DecimalString(item.leaf);
    if prefix + a == prefix + b {
      assert a == (prefix + a)[|prefix|..] == (prefix + b)[|prefix|..] == b;
      DecimalStringInjective(leaf, item.leaf);
    }
  }

  /** Storage key of the keyboard preference of `script`. */
  function KeyboardKey(script: string): string {
    "keyboardOpen-" + script
  }

  /** How `localStorage.setItem` stores a boolean. */
  function BoolString(b: bool): string {
    if b then "true" else "false"
  }

  /** The keyboard starts open when there is a layout for the script and the saved preference is not "false". */
  function InitialKeyboardOpen(available: bool, saved: Option<string>): bool {
    available && saved != Some("false")
  }

  /** A preference written by `ToggleKeyboard` is the one the next session starts with. */
  lemma KeyboardPreferencePersists(store: map<string, string>, script: string, keyboardOpen: bool)
    ensures InitialKeyboardOpen(true, Get(store[KeyboardKey(script) := BoolString(keyboardOpen)], KeyboardKey(script)))
            == keyboardOpen
  {
  }

  /** What a fetched leaf is cached as: its body, `""` when the response has no `parse`,
      and nothing when the request failed. */
  function CacheEntry(r: FetchResult): Option<string> {
    match r
    case Failed => None
    case NoParse => Some("")
    case Parsed(body) => Some(body)
  }

  /** What `getLeafContents` yields for a slot holding `cached`: the cached contents,
      or, when the slot is empty, what the fetch gives. */
  function Fetched(cached: Option<string>, r: FetchResult): Option<string> {
    if cached.Some? then cached else CacheEntry(r)
  }

  /** The state `setLeaf(leaf)` leaves when the leaf's contents are `contents`: the leaf,
      its text and its autosave key, with the transliteration closed; nothing changes when
      the contents could not be fetched. */
  function ShowLeaf(st: AppState, leaf: nat, contents: Option<string>): AppState {
    var item := st.archiveItem.(leaf := leaf);
    if contents.Some?
    then st.(text := contents, transliterationOpen := false, archiveItem := item, archiveItemKey := Some(ItemKey(item)))
    else st
  }

  /** The previous-leaf button is shown, and ArrowLeft moves, only past the first leaf. */
  predicate PrevEnabled(leaf: nat) {
    leaf > 0
  }

  /** The next-leaf button is shown, and ArrowRight moves, only before the last leaf. */
  predicate NextEnabled(leaf: nat, pageCount: nat) {
    leaf < pageCount - 1
  }


  /** The component's React state (`this.state`); `setState` replaces the fields it names. */
  datatype AppState = AppState(
    archiveItem: ArchiveItem,
    /** `None` until the first `finalizeState`. */
    archiveItemKey: Option<string>,
    /** `None` is view mode's `null` before the first leaf is loaded. */
    text: Option<string>,
    caretPos: nat,
    open: bool,
    font: string,
    keyboardOpen: bool,
    emulateTextEdit: bool,
    transliterationOpen: bool,
    transliteration: string)

  class App {
    const editMode: bool
    const mobile: bool
    const script: string
    const wikipages: seq<string>
    const keyboardAvailable: bool
    /** View mode's cache of leaf contents; `None` is an undefined slot. */
    const leafContents: array<Option<string>>

    var state: AppState
    /** The browser's `localStorage`. */
    var storage: map<string, string>
    /** The wiki edit form's text box (`props.textbox.value`). */
    var textbox: string
    /** Recovery checks scheduled with `setTimeout`, oldest first, each with the text it compares against. */
    var pendingChecks: seq<string>

    /** The component's invariant: the text view emulates the text area exactly when the
        keyboard is open on a mobile device, the keyboard is only open in edit mode with a
        layout, view mode stays within its pages, the autosave key belongs to the current
        item (and exists in edit mode), the buffer exists in edit mode and whenever the
        editor is open, and in edit mode the caret lies within the buffer. */
    ghost predicate Valid()
      reads this
    {
      && state.emulateTextEdit == (mobile && state.keyboardOpen)
      && (state.keyboardOpen ==> editMode && keyboardAvailable)
      && (!editMode ==> leafContents.Length == |wikipages| && state.archiveItem.leaf < |wikipages|)
      && (state.archiveItemKey.Some? ==> state.archiveItemKey.value == ItemKey(state.archiveItem))
      && (editMode || state.open ==> state.text.Some?)
      && (editMode ==> state.archiveItemKey.Some?)
      && (editMode ==> state.caretPos <= |state.text.value|)
    }

    constructor (editMode: bool, mobile: bool, script: string, item: ArchiveItem, textbox: string,
                 wikipages: seq<string>, keyboardAvailable: bool, storage: map<string, string>)
      requires !editMode ==> item.leaf < |wikipages|
      ensures Valid()
      ensures this.editMode == editMode && this.mobile == mobile && this.script == script
      ensures this.wikipages == wikipages && this.keyboardAvailable == keyboardAvailable
      ensures this.storage == storage && this.textbox == textbox
      ensures var font := InitialFont(ScriptFonts, script, Get(storage, FontKey(script)));
        var keyboardOpen := InitialKeyboardOpen(keyboardAvailable, Get(storage, KeyboardKey(script)));
        var loaded := Decode(textbox);
        if editMode then
          state == AppState(item, Some(ItemKey(item)), Some(loaded), |loaded|, true, font,
                            keyboardOpen, mobile && keyboardOpen, false, "")
          && pendingChecks == [loaded]
        else
          state == AppState(item, None, None, 0, false, font, false, false, false, "")
          && pendingChecks == []
      ensures !editMode ==> forall i :: 0 <= i < leafContents.Length ==> leafContents[i].None?
      ensures fresh(leafContents)
    {
      this.editMode := editMode;
      this.mobile := mobile;
      this.script := script;
      this.wikipages := wikipages;
      this.keyboardAvailable := keyboardAvailable;
      this.storage := storage;
      this.textbox := textbox;
      pendingChecks := [];
      leafContents := new Option<string>[if editMode then 0 else |wikipages|](_ => None);
      var font := InitialFont(ScriptFonts, script, Get(storage, FontKey(script)));
      if editMode {
        var keyboardOpen := InitialKeyboardOpen(keyboardAvailable, Get(storage, KeyboardKey(script)));
        state := AppState(item, None, None, 0, true, font, keyboardOpen, mobile && keyboardOpen, false, "");
      } else {
        state := AppState(item, None, None, 0, false, font, false, false, false, "");
      }
      new;
      if editMode {
        FinalizeState(None);
      }
    }

    /** `finalizeState`: switch to `newItem` when one is given and derive the autosave key;
        in edit mode also load the decoded text box into the buffer with the caret at its
        end and schedule a recovery check against it. */
    method FinalizeState(newItem: Option<ArchiveItem>)
      modifies this
      ensures var item := newItem.GetOr(old(state.archiveItem));
        var loaded := Decode(old(textbox));
        if editMode then
          state == old(state).(archiveItem := item, archiveItemKey := Some(ItemKey(item)),
                               text := Some(loaded), caretPos := |loaded|)
          && pendingChecks == old(pendingChecks) + [loaded]
        else
          state == old(state).(archiveItem := item, archiveItemKey := Some(ItemKey(item)))
          && pendingChecks == old(pendingChecks)
      ensures storage == old(storage) && textbox == old(textbox)
    {
      var item := newItem.GetOr(state.archiveItem);
      if editMode {
        var loaded := Decode(textbox);
        state := state.(archiveItem := item, archiveItemKey := Some(ItemKey(item)),
                        text := Some(loaded), caretPos := |loaded|);
        pendingChecks := pendingChecks + [loaded];
      } else {
        state := state.(archiveItem := item, archiveItemKey := Some(ItemKey(item)));
      }
    }

    /** `handleOpen`: open the editor. In edit mode the text box is loaded again; in view mode
        the first opening loads the current leaf, and a failed fetch leaves everything as it was. */
    method HandleOpen(fetch: nat -> FetchResult)
      requires Valid()
      modifies this, leafContents
      ensures Valid()
      ensures var item := old(state.archiveItem);
        var loaded := Decode(old(textbox));
        if editMode then
          state == old(state).(open := true, archiveItemKey := Some(ItemKey(item)),
                               text := Some(loaded), caretPos := |loaded|)
          && pendingChecks == old(pendingChecks) + [loaded]
        else if old(state.text).Some? then
          state == old(state).(open := true, archiveItemKey := Some(ItemKey(item)))
          && pendingChecks == old(pendingChecks)
        else
          var fetched := Fetched(old(leafContents[item.leaf]), fetch(item.leaf));
          state == (if fetched.Some? then old(state).(open := true, archiveItemKey := Some(ItemKey(item)), text := fetched)
                    else old(state))
          && leafContents[item.leaf] == fetched
          && pendingChecks == old(pendingChecks)
      ensures forall i :: 0 <= i < leafContents.Length && leafContents[i] != old(leafContents[i]) ==>
        !editMode && old(state.text).None? && i == old(state.archiveItem.leaf)
      ensures storage == old(storage) && textbox == old(textbox)
    {
      if state.text.None? {
        var contents := GetLeafContents(state.archiveItem.leaf, fetch);
        if contents.Some? {
          state := state.(open := true);
          FinalizeState(None);
          state := state.(text := contents);
        }
      } else {
        state := state.(open := true);
        FinalizeState(None);
      }
    }

    /** `handleClose`: close the editor; in edit mode write the buffer back. */
    method HandleClose()
      requires Valid()
      modifies this
      ensures Valid()
      ensures state == old(state).(open := false) && pendingChecks == old(pendingChecks)
      ensures editMode ==> textbox == Encode(old(state.text).value)
      ensures var key := old(state.archiveItemKey);
        storage == if editMode && key.Some? then old(storage) - {key.value} else old(storage)
      ensures !editMode ==> textbox == old(textbox)
    {
      state := state.(open := false);
      if editMode {
        SaveTranscription();
      }
    }

    /** `saveTranscription`: write the encoded buffer to the text box and drop the autosave record. */
    method SaveTranscription()
      requires state.text.Some?
      modifies this
      ensures textbox == Encode(old(state.text).value)
      ensures var key := old(state.archiveItemKey);
        storage == if key.Some? then old(storage) - {key.value} else old(storage)
      ensures state == old(state) && pendingChecks == old(pendingChecks)
    {
      textbox := Encode(state.text.value);
      if state.archiveItemKey.Some? {
        storage := storage - {state.archiveItemKey.value};
      }
    }

    /** `checkStoredText`: when the autosave record of the current item holds something
        other than `loaded` once trimmed, ask whether to restore it (`useSaved` is the
        answer); a non-empty record is removed whatever the answer. Returns whether it asked. */
    method CheckStoredText(loaded: string, useSaved: bool) returns (prompted: bool)
      requires Valid()
      modifies this
      ensures Valid()
      ensures var key := old(state.archiveItemKey);
        var saved := if key.Some? then Get(old(storage), key.value) else None;
        var found := saved.Some? && saved.value != "";
        && prompted == (found && JsTrim(saved.value) != loaded)
        && state == (if prompted && useSaved
                     then old(state).(text := Some(JsTrim(saved.value)), caretPos := |JsTrim(saved.value)|)
                     else old(state))
        && storage == (if found then old(storage) - {key.value} else old(storage))
      ensures textbox == old(textbox) && pendingChecks == old(pendingChecks)
    {
      prompted := false;
      if state.archiveItemKey.Some? {
        var key := state.archiveItemKey.value;
        var saved := Get(storage, key);
        if saved.Some? && saved.value != "" {
          var trimmed := JsTrim(saved.value);
          if trimmed != loaded {
            prompted := true;
            if useSaved {
              state := state.(text := Some(trimmed), caretPos := |trimmed|);
            }
          }
          storage := storage - {key};
        }
      }
    }

    /** The timer of the oldest scheduled recovery check fires. */
    method FireTimer(useSaved: bool) returns (prompted: bool)
      requires Valid() && pendingChecks != []
      modifies this
      ensures Valid()
      ensures pendingChecks == old(pendingChecks[1..])
      ensures var key := old(state.archiveItemKey);
        var saved := if key.Some? then Get(old(storage), key.value) else None;
        var found := saved.Some? && saved.value != "";
        && prompted == (found && JsTrim(saved.value) != old(pendingChecks[0]))
        && state == (if prompted && useSaved
                     then old(state).(text := Some(JsTrim(saved.value)), caretPos := |JsTrim(saved.value)|)
                     else old(state))
        && storage == (if found then old(storage) - {key.value} else old(storage))
      ensures textbox == old(textbox)
    {
      var loaded := pendingChecks[0];
      pendingChecks := pendingChecks[1..];
      prompted := CheckStoredText(loaded, useSaved);
    }

    /** `handleTextChange`: a new value from the text area sets text and caret together and
        is autosaved under the item's key; a selection change (`None`) only moves the caret.
        The caret is the text area's `selectionStart`, which lies within its value. */
    method HandleTextChange(newText: Option<string>, caret: nat)
      requires Valid()
      requires editMode ==> caret <= |newText.GetOr(state.text.value)|
      modifies this
      ensures Valid()
      ensures state == if newText.Some? then old(state).(text := newText, caretPos := caret)
                       else old(state).(caretPos := caret)
      ensures var key := old(state.archiveItemKey);
        storage == if newText.Some? && key.Some? then old(storage)[key.value := newText.value] else old(storage)
      ensures textbox == old(textbox) && pendingChecks == old(pendingChecks)
    {
      if newText.Some? {
        state := state.(text := newText, caretPos := caret);
        if state.archiveItemKey.Some? {
          storage := storage[state.archiveItemKey.value := newText.value];
        }
      } else if state.caretPos != caret {
        state := state.(caretPos := caret);
      }
    }

    /** `handleKeyPress`: the keyboard replaces everything before the text area's selection end
        by `preText` and puts the caret right after it. The text area shows the buffer, and a
        selection end past its end keeps nothing after it (`slice` clamps). */
    method HandleKeyPress(preText: string, selectionEnd: nat)
      requires Valid() && state.text.Some?
      modifies this
      ensures Valid()
      ensures var t := old(state.text).value;
        var rest := if selectionEnd <= |t| then t[selectionEnd..] else [];
        state == old(state).(text := Some(preText + rest), caretPos := |preText|)
      ensures state.caretPos <= |state.text.value| && state.text.value[..state.caretPos] == preText
      ensures storage == old(storage) && textbox == old(textbox) && pendingChecks == old(pendingChecks)
    {
      var t := state.text.value;
      var rest := if selectionEnd <= |t| then t[selectionEnd..] else [];
      state := state.(text := Some(preText + rest), caretPos := |preText|);
      assert (preText + rest)[..|preText|] == preText;
    }

    /** `handleCaretMove`: a tap on the emulated text view (shown only in edit mode) moves
        the caret to the offset the selection denotes; without a selection nothing happens. */
    method HandleCaretMove(sel: Option<Selection>)
      requires Valid()
      requires sel.Some? ==> editMode && TapInView(state.text.value, state.caretPos, sel.value)
      modifies this
      ensures Valid()
      ensures state == if sel.Some? then old(state).(caretPos := sel.value.offset + TextLength(sel.value.preceding))
                       else old(state)
      ensures storage == old(storage) && textbox == old(textbox) && pendingChecks == old(pendingChecks)
    {
      if sel.Some? {
        var pos := CaretOffset(sel.value);
        TapInViewLandsInText(state.text.value, state.caretPos, sel.value);
        if state.caretPos != pos {
          state := state.(caretPos := pos);
        }
      }
    }

    /** `toggleKeyboard` (offered in edit mode when the script has a layout): flip the
        keyboard, emulate the text area exactly when it is open on mobile, take the text
        area's caret when the keyboard opens over the text area, and save the preference. */
    method ToggleKeyboard(selectionStart: nat)
      requires Valid() && editMode && keyboardAvailable
      requires selectionStart <= |state.text.value|
      modifies this
      ensures Valid()
      ensures var keyboardOpen := !old(state.keyboardOpen);
        var emulate := mobile && keyboardOpen;
        state == old(state).(keyboardOpen := keyboardOpen, emulateTextEdit := emulate,
                             caretPos := if keyboardOpen && !emulate then selectionStart else old(state.caretPos))
      ensures storage == old(storage)[KeyboardKey(script) := BoolString(state.keyboardOpen)]
      ensures textbox == old(textbox) && pendingChecks == old(pendingChecks)
    {
      var keyboardOpen := !state.keyboardOpen;
      var emulate := mobile && keyboardOpen;
      state := state.(keyboardOpen := keyboardOpen);
      if emulate != state.emulateTextEdit {
        state := state.(emulateTextEdit := emulate);
      }
      if keyboardOpen && !emulate {
        state := state.(caretPos := selectionStart);
      }
      storage := storage[KeyboardKey(script) := BoolString(keyboardOpen)];
    }

    /** `setFont`: choosing a different font switches to it and saves it for the script. */
    method SetFont(f: string)
      requires Valid()
      modifies this
      ensures Valid()
      ensures state == old(state).(font := f)
      ensures storage == if old(state.font) != f then old(storage)[FontKey(script) := f] else old(storage)
      ensures textbox == old(textbox) && pendingChecks == old(pendingChecks)
    {
      if state.font != f {
        state := state.(font := f);
        storage := storage[FontKey(script) := f];
      }
    }

    /** `setTransliterationOpen`: closing always works; opening happens only when the buffer
        holds something besides whitespace and the transliteration request answers
        (`response`; `None` is a rejected request); asking for the current state does nothing. */
    method SetTransliterationOpen(requested: bool, response: Option<string>)
      requires Valid() && (requested ==> state.text.Some?)
      modifies this
      ensures Valid()
      ensures var opens := requested && !old(state.transliterationOpen)
                           && JsTrim(old(state.text).value) != [] && response.Some?;
        state == if opens then old(state).(transliterationOpen := true, transliteration := response.value)
                 else if !requested then old(state).(transliterationOpen := false)
                 else old(state)
      ensures state.transliterationOpen
              == (requested && (old(state.transliterationOpen) || (JsTrim(old(state.text).value) != [] && response.Some?)))
      ensures storage == old(storage) && textbox == old(textbox) && pendingChecks == old(pendingChecks)
    {
      if requested != state.transliterationOpen {
        if requested {
          if JsTrim(state.text.value) != [] && response.Some? {
            state := state.(transliterationOpen := true, transliteration := response.value);
          }
        } else {
          state := state.(transliterationOpen := false);
        }
      }
    }

    /** `getLeafContents`: a leaf is fetched only while its cache slot is undefined; the result
        (`""` for a response without `parse`) is cached and returned. A failed fetch caches
        nothing and yields `None`. No other slot changes. */
    method GetLeafContents(leaf: nat, fetch: nat -> FetchResult) returns (contents: Option<string>)
      requires leaf < leafContents.Length
      modifies leafContents
      ensures contents == if old(leafContents[leaf]).Some? then old(leafContents[leaf]) else CacheEntry(fetch(leaf))
      ensures leafContents[leaf] == if contents.Some? then contents else old(leafContents[leaf])
      ensures forall i :: 0 <= i < leafContents.Length && i != leaf ==> leafContents[i] == old(leafContents[i])
    {
      if leafContents[leaf].None? {
        var entry := CacheEntry(fetch(leaf));
        if entry.Some? {
          leafContents[leaf] := entry;
        }
      }
      contents := leafContents[leaf];
    }

    /** `setLeaf` (view mode): show `leaf` with its contents and close the transliteration;
        when the contents cannot be fetched nothing changes. */
    method SetLeaf(leaf: nat, fetch: nat -> FetchResult)
      requires Valid() && !editMode && leaf < |wikipages|
      modifies this, leafContents
      ensures Valid()
      ensures var contents := Fetched(old(leafContents[leaf]), fetch(leaf));
        state == ShowLeaf(old(state), leaf, contents) && leafContents[leaf] == contents
      ensures forall i :: 0 <= i < leafContents.Length && i != leaf ==> leafContents[i] == old(leafContents[i])
      ensures storage == old(storage) && textbox == old(textbox) && pendingChecks == old(pendingChecks)
    {
      var contents := GetLeafContents(leaf, fetch);
      if contents.Some? {
        state := state.(text := contents, transliterationOpen := false);
        FinalizeState(Some(state.archiveItem.(leaf := leaf)));
      }
    }

    /** The previous-leaf button, shown only when `PrevEnabled`. */
    method ClickPrev(fetch: nat -> FetchResult)
      requires Valid() && !editMode && PrevEnabled(state.archiveItem.leaf)
      modifies this, leafContents
      ensures Valid()
      ensures var leaf := old(state.archiveItem.leaf) - 1;
        var contents := Fetched(old(leafContents[leaf]), fetch(leaf));
        state == ShowLeaf(old(state), leaf, contents) && leafContents[leaf] == contents
      ensures forall i :: 0 <= i < leafContents.Length && i != old(state.archiveItem.leaf) - 1 ==>
        leafContents[i] == old(leafContents[i])
      ensures storage == old(storage) && textbox == old(textbox) && pendingChecks == old(pendingChecks)
    {
      SetLeaf(state.archiveItem.leaf - 1, fetch);
    }

    /** The next-leaf button, shown only when `NextEnabled`. */
    method ClickNext(fetch: nat -> FetchResult)
      requires Valid() && !editMode && NextEnabled(state.archiveItem.leaf, |wikipages|)
      modifies this, leafContents
      ensures Valid()
      ensures var leaf := old(state.archiveItem.leaf) + 1;
        var contents := Fetched(old(leafContents[leaf]), fetch(leaf));
        state == ShowLeaf(old(state), leaf, contents) && leafContents[leaf] == contents
      ensures forall i :: 0 <= i < leafContents.Length && i != old(state.archiveItem.leaf) + 1 ==>
        leafContents[i] == old(leafContents[i])
      ensures storage == old(storage) && textbox == old(textbox) && pendingChecks == old(pendingChecks)
    {
      SetLeaf(state.archiveItem.leaf + 1, fetch);
    }

    /** `handleKeyDown`: Escape without modifiers closes the editor; in edit mode any other key
        only refocuses the text area; in view mode the arrow keys without modifiers step to the
        neighbouring leaf when there is one. */
    method HandleKeyDown(e: KeyEvent, fetch: nat -> FetchResult)
      requires Valid()
      modifies this, leafContents
      ensures Valid()
      ensures var leaf := old(state.archiveItem.leaf);
        var key := old(state.archiveItemKey);
        var escape := e.key == "Escape" && !HasModifier(e);
        var left := !editMode && !HasModifier(e) && e.key == "ArrowLeft" && PrevEnabled(leaf);
        var right := !editMode && !HasModifier(e) && e.key == "ArrowRight" && NextEnabled(leaf, |wikipages|);
        if escape then
          && state == old(state).(open := false)
          && textbox == (if editMode then Encode(old(state.text).value) else old(textbox))
          && storage == (if editMode && key.Some? then old(storage) - {key.value} else old(storage))
        else if left || right then
          var target := if left then leaf - 1 else leaf + 1;
          var contents := Fetched(old(leafContents[target]), fetch(target));
          && state == ShowLeaf(old(state), target, contents)
          && leafContents[target] == contents
          && storage == old(storage) && textbox == old(textbox)
        else
          state == old(state) && storage == old(storage) && textbox == old(textbox)
      ensures forall i :: 0 <= i < leafContents.Length && leafContents[i] != old(leafContents[i]) ==>
        !editMode && !HasModifier(e) &&
        ((e.key == "ArrowLeft" && i == old(state.archiveItem.leaf) - 1) ||
         (e.key == "ArrowRight" && i == old(state.archiveItem.leaf) + 1))
      ensures pendingChecks == old(pendingChecks)
    {
      if e.key == "Escape" && !HasModifier(e) {
        HandleClose();
      } else if editMode {
        // only refocuses the text area
      } else if !HasModifier(e) {
        if e.key == "ArrowLeft" {
          if PrevEnabled(state.archiveItem.leaf) {
            SetLeaf(state.archiveItem.leaf - 1, fetch);
          }
        } else if e.key == "ArrowRight" {
          if NextEnabled(state.archiveItem.leaf, |wikipages|) {
            SetLeaf(state.archiveItem.leaf + 1, fetch);
          }
        }
      }
    }
  }

  /** Closing an edit session and opening it again gives back the buffer, for text without
      `<br` whose lines do not end in spaces. */
  method CloseThenReopen(app: App, fetch: nat -> FetchResult)
    requires app.Valid() && app.editMode
    requires var t := app.state.text.value;
      IsTrimmed(t, IsJsWhitespace) && HasNoBrText(t) && NoSpaceBeforeNewline(t)
    modifies app, app.leafContents
    ensures app.Valid() && app.state.open && app.state.text == old(app.state.text)
  {
    var t := app.state.text.value;
    DecodeEncodeRoundTrip(t);
    app.HandleClose();
    assert app.textbox == Encode(t);
    app.HandleOpen(fetch);
  }

  /** In view mode a leaf is fetched once: visiting it again shows what the first visit
      showed, whatever a second fetch would return. */
  method RevisitShowsCachedLeaf(app: App, leaf: nat, first: nat -> FetchResult, second: nat -> FetchResult)
    requires app.Valid() && !app.editMode && leaf < |app.wikipages| && first(leaf) != Failed
    modifies app, app.leafContents
    ensures app.Valid() && app.state.archiveItem.leaf == leaf
    ensures app.state.text == Fetched(old(app.leafContents[leaf]), first(leaf))
  {
    app.SetLeaf(leaf, first);
    app.SetLeaf(leaf, second);
  }

  /** Work typed after the text box was loaded survives a reload: the record autosaved under
      the item's key is offered by the recovery check, accepting it restores it trimmed, and
      the record is then gone. */
  method RecoverAfterReload(app: App, typed: string, caret: nat) returns (reloaded: App)
    requires app.Valid() && app.editMode
    requires typed != "" && JsTrim(typed) != Decode(app.textbox) && caret <= |typed|
    modifies app
    ensures reloaded.Valid() && reloaded.state.text == Some(JsTrim(typed))
    ensures ItemKey(app.state.archiveItem) !in reloaded.storage
  {
    var key := ItemKey(app.state.archiveItem);
    app.HandleTextChange(Some(typed), caret);
    assert app.storage[key] == typed;
    reloaded := new App(true, app.mobile, app.script, app.state.archiveItem, app.textbox, app.wikipages,
                        app.keyboardAvailable, app.storage);
    assert reloaded.state.archiveItemKey == Some(key) && reloaded.pendingChecks == [Decode(app.textbox)];
    var prompted := reloaded.FireTimer(true);
  }
}
