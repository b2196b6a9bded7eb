/**
 * The MediaWiki side of ArchiveLeaf: the parser hook that tidies blank lines
 * around the three parser tags, the renderer of those tags, and the heading of
 * a translation.
 *
 * The ISO 639-3 table that `getTranslationHeading` reads from a JSON file is a
 * parameter `iso639` (language code to language name).
 */
module ArchiveLeafHooks {
  import opened Wrappers
  import opened Strings
  import opened TagPatterns
  import opened Collapse

  // ---------------------------------------------------------------------------
  // onParserBeforeInternalParse
  // ---------------------------------------------------------------------------

  /** What a MediaWiki hook hands back: whether to go on with the other handlers,
      and the text it rewrote in place. */
  datatype HookResult = HookResult(proceed: bool, text: string)

  /** Removes the blank lines before an opening tag and after a closing tag of the
      three parser tags, so that each tag stays on a line of its own without
      starting a new paragraph. */
  function OnParserBeforeInternalParse(text: string): (r: HookResult)
    ensures r.proceed
  {
    HookResult(true, CollapseAfterClose(CollapseBeforeOpen(text, ParserTags), ParserTags))
  }

  /** The hook never lengthens the text and removes nothing but newlines. */
  lemma HookKeepsText(text: string)
    ensures |OnParserBeforeInternalParse(text).text| <= |text|
    ensures StripNewlines(OnParserBeforeInternalParse(text).text) == StripNewlines(text)
  {
    var once := CollapseBeforeOpen(text, ParserTags);
    CollapseBeforeOpenFromBounds(text, 0, ParserTags);
    CollapseAfterCloseFromBounds(once, 0, ParserTags);
    CollapseBeforeOpenFromKeepsText(text, 0, ParserTags);
    CollapseAfterCloseFromKeepsText(once, 0, ParserTags);
    assert text[0..] == text && once[0..] == once;
  }

  /** After the hook, no blank line is left before an opening or after a closing tag. */
  lemma HookLeavesNoBlankLines(text: string)
    ensures NoBlankBeforeOpen(OnParserBeforeInternalParse(text).text, ParserTags)
    ensures NoBlankAfterClose(OnParserBeforeInternalParse(text).text, ParserTags)
  {
    var once := CollapseBeforeOpen(text, ParserTags);
    CollapseBeforeOpenFromLeavesNoMatch(text, 0, ParserTags);
    CollapseAfterCloseFromKeepsNoBlankBeforeOpen(once, 0, ParserTags);
    CollapseAfterCloseFromLeavesNoMatch(once, 0, ParserTags);
  }

  /** Running the hook on its own output changes nothing: MediaWiki may parse the
      same text more than once. */
  lemma HookIdempotent(text: string)
    ensures OnParserBeforeInternalParse(OnParserBeforeInternalParse(text).text)
      == OnParserBeforeInternalParse(text)
  {
    var r := OnParserBeforeInternalParse(text).text;
    HookLeavesNoBlankLines(text);
    CollapseBeforeOpenFromFixpoint(r, 0, ParserTags);
    CollapseAfterCloseFromFixpoint(r, 0, ParserTags);
    assert r[0..] == r;
  }

  /** The hook leaves the text alone exactly when it has no blank line to remove. */
  lemma HookUnchangedIff(text: string)
    ensures OnParserBeforeInternalParse(text).text == text
      <==> NoBlankBeforeOpen(text, ParserTags) && NoBlankAfterClose(text, ParserTags)
  {
    var once := CollapseBeforeOpen(text, ParserTags);
    CollapseAfterCloseFromBounds(once, 0, ParserTags);
    if NoBlankBeforeOpen(text, ParserTags) {
      CollapseBeforeOpenFromFixpoint(text, 0, ParserTags);
      assert once == text;
      if NoBlankAfterClose(text, ParserTags) {
        CollapseAfterCloseFromFixpoint(text, 0, ParserTags);
      } else {
        var j :| 0 <= j <= |text| && BlankAfterCloseEnd(text, j, ParserTags) != j;
        CollapseAfterCloseMatchShortens(text, j, ParserTags);
        CollapseAfterCloseFromShortens(text, 0, j, ParserTags);
      }
    } else {
      var j :| 0 <= j <= |text| && BlankBeforeOpenEnd(text, j, ParserTags) != j;
      CollapseBeforeOpenMatchShortens(text, j, ParserTags);
      CollapseBeforeOpenFromShortens(text, 0, j, ParserTags);
    }
  }

  // ---------------------------------------------------------------------------
  // renderTag
  // ---------------------------------------------------------------------------

  /** The attributes written on a tag, `<translation language="fra">`. */
  type Attributes = map<string, string>

  /** The heading a tag is registered with: none, a fixed title, or a callback
      that computes the title from the tag's attributes. */
  datatype Heading = NoHeading | Title(title: string) | Computed(compute: Attributes -> string)

  /** The title shown above the tag's contents, if any. */
  function HeadingTitle(heading: Heading, args: Attributes): (t: Option<string>)
    ensures t.None? <==> heading.NoHeading?
  {
    match heading
    case NoHeading => None
    case Title(title) => Some(title)
    case Computed(compute) => Some(compute(args))
  }

  /** What a tag callback returns: the html and the marker type the parser stores it under. */
  datatype Rendered = Rendered(html: string, markerType: string)

  function OpeningDiv(tagName: string): string {
    "<div class=\"" + tagName + "\">"
  }

  function HeadingDiv(title: Option<string>): string {
    match title
    case None => []
    case Some(t) => "<div class='heading-small'><strong>" + t + "</strong></div>"
  }

  const ClosingDiv: string := "</div>"

  /** The callback `renderTag(tagName, headingTitle)` builds, applied to the tag's
      contents `input` and attributes `args`: a div classed by the tag name, the
      heading if there is one, and the contents without surrounding whitespace.
      The output is protected from further wikitext parsing (`nowiki`). */
  function RenderTag(tagName: string, heading: Heading, input: string, args: Attributes): (r: Rendered)
    ensures r.markerType == "nowiki"
  {
    Rendered(OpeningDiv(tagName) + HeadingDiv(HeadingTitle(heading, args)) + PhpTrim(input) + ClosingDiv, "nowiki")
  }

  /** Reads the contents back from rendered html, given how the tag was rendered. */
  function RenderedBody(html: string, tagName: string, heading: Heading, args: Attributes): (b: Option<string>)
    ensures b.Some? ==> html == OpeningDiv(tagName) + HeadingDiv(HeadingTitle(heading, args)) + b.value + ClosingDiv
  {
    var prefix := OpeningDiv(tagName) + HeadingDiv(HeadingTitle(heading, args));
    if |prefix| + |ClosingDiv| <= |html| && html[..|prefix|] == prefix && html[|html| - |ClosingDiv|..] == ClosingDiv
    then Some(html[|prefix|..|html| - |ClosingDiv|])
    else None
  }

  /** The rendered html holds exactly the trimmed contents between its heading and
      the closing div. */
  lemma RenderTagBodyRoundTrip(tagName: string, heading: Heading, input: string, args: Attributes)
    ensures RenderedBody(RenderTag(tagName, heading, input, args).html, tagName, heading, args)
      == Some(PhpTrim(input))
  {
    var prefix := OpeningDiv(tagName) + HeadingDiv(HeadingTitle(heading, args));
    var html := RenderTag(tagName, heading, input, args).html;
    assert html == prefix + PhpTrim(input) + ClosingDiv;
    assert html[..|prefix|] == prefix;
    assert html[|html| - |ClosingDiv|..] == ClosingDiv;
    assert html[|prefix|..|html| - |ClosingDiv|] == PhpTrim(input);
  }

  /** Whitespace around the contents does not show in the html. */
  lemma RenderTagIgnoresOuterWhitespace(tagName: string, heading: Heading, input: string, args: Attributes)
    ensures RenderTag(tagName, heading, PhpTrim(input), args) == RenderTag(tagName, heading, input, args)
  {
    TrimIdempotent(input, IsPhpWhitespace);
  }

  // ---------------------------------------------------------------------------
  // getTranslationHeading
  // ---------------------------------------------------------------------------

  const TranslationSuffix: string := " translation"

  /** "<language name> translation" when the tag names a language the ISO 639-3
      table knows, and "Translation" otherwise. */
  function GetTranslationHeading(args: Attributes, iso639: map<string, string>): (h: string)
    ensures !("language" in args && args["language"] in iso639) ==> h == "Translation"
    ensures |h| >= |"Translation"|
  {
    if "language" in args && args["language"] in iso639
    then iso639[args["language"]] + TranslationSuffix
    else "Translation"
  }

  /** The language name a heading mentions, if it mentions one. */
  function LanguageOfHeading(h: string): (name: Option<string>)
    ensures name.Some? ==> h == name.value + TranslationSuffix
  {
    if |h| >= |TranslationSuffix| && h[|h| - |TranslationSuffix|..] == TranslationSuffix
    then Some(h[..|h| - |TranslationSuffix|])
    else None
  }

  /** The heading names a language exactly when the tag's language code is in the
      table, and then it names that code's language. */
  lemma TranslationHeadingNamesLanguage(args: Attributes, iso639: map<string, string>)
    ensures LanguageOfHeading(GetTranslationHeading(args, iso639)).Some?
      <==> "language" in args && args["language"] in iso639
    ensures "language" in args && args["language"] in iso639 ==>
      LanguageOfHeading(GetTranslationHeading(args, iso639)) == Some(iso639[args["language"]])
  {
    var h := GetTranslationHeading(args, iso639);
    if "language" in args && args["language"] in iso639 {
      var name := iso639[args["language"]];
      assert h[|h| - |TranslationSuffix|..] == TranslationSuffix;
      assert h[..|h| - |TranslationSuffix|] == name;
    } else {
      assert |h| < |TranslationSuffix|;
    }
  }

  // ---------------------------------------------------------------------------
  // onParserFirstCallInit: the tags the parser learns
  // ---------------------------------------------------------------------------

  /** A parser tag and the heading its renderer was built with. */
  datatype TagHook = TagHook(tagName: string, heading: Heading)

  /** The three tag hooks, in the order they are registered: a transcription without
      heading, a transliteration under a fixed heading, and a translation whose
      heading depends on its `language` attribute. */
  function RegisteredTags(iso639: map<string, string>): (hooks: seq<TagHook>)
    ensures |hooks| == 3
  {
    [ TagHook("transcription", NoHeading),
      TagHook("transliteration", Title("Auto-transliteration")),
      TagHook("translation", Computed(args => GetTranslationHeading(args, iso639))) ]
  }

  /** The registered tags are exactly those whose surrounding blank lines the
      parser hook removes. */
  lemma RegisteredTagsAreParserTags(iso639: map<string, string>)
    ensures (set k | 0 <= k < |RegisteredTags(iso639)| :: RegisteredTags(iso639)[k].tagName) == ParserTags
  {
    var hooks := RegisteredTags(iso639);
    var names := set k | 0 <= k < |hooks| :: hooks[k].tagName;
    assert hooks[0].tagName in names && hooks[1].tagName in names && hooks[2].tagName in names;
  }

  /** Only the transcription renders without a heading, and a translation is headed
      by the language its attributes name. */
  lemma RegisteredHeadings(iso639: map<string, string>, args: Attributes)
    ensures forall k :: 0 <= k < |RegisteredTags(iso639)| ==>
      (HeadingTitle(RegisteredTags(iso639)[k].heading, args).None? <==> RegisteredTags(iso639)[k].tagName == "transcription")
    ensures HeadingTitle(RegisteredTags(iso639)[2].heading, args) == Some(GetTranslationHeading(args, iso639))
  {
  }
}
