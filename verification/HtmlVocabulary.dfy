/** The element and attribute tables of angular-sanitize. */
module HtmlVocabulary {
  import opened HtmlParser
  import HtmlSanitizer

  const VOID_ELEMENTS := {"area", "br", "col", "hr", "img", "wbr"}

  const OPTIONAL_END_TAG_BLOCKS := {"colgroup", "dd", "dt", "li", "p", "tbody", "td", "tfoot", "th", "thead", "tr"}

  const OPTIONAL_END_TAG_INLINES := {"rp", "rt"}

  const BLOCKS_FROM_A := {
    "address", "article", "aside", "blockquote", "caption", "center", "del", "dir", "div", "dl", "figure",
    "figcaption", "footer"}

  const BLOCKS_FROM_H := {
    "h1", "h2", "h3", "h4", "h5", "h6", "header", "hgroup", "hr", "ins", "map", "menu", "nav", "ol", "pre",
    "script", "section", "table", "ul"}

  const INLINES_FROM_A := {
    "a", "abbr", "acronym", "b", "bdi", "bdo", "big", "br", "cite", "code", "del", "dfn", "em", "font", "i"}

  const INLINES_FROM_IMG := {
    "img", "ins", "kbd", "label", "map", "mark", "q", "ruby", "rp", "rt", "s", "samp", "small", "span", "strike"}

  const INLINES_FROM_STRONG := {"strong", "sub", "sup", "time", "tt", "u", "var"}

  const SPECIAL_ELEMENTS := {"script", "style"}

  const URI_ATTRS := {"background", "cite", "href", "longdesc", "src", "usemap"}

  const ATTRS_FROM_A := {
    "abbr", "align", "alt", "axis", "bgcolor", "border", "cellpadding", "cellspacing", "class", "clear"}

  const ATTRS_FROM_COLOR := {
    "color", "cols", "colspan", "compact", "coords", "dir", "face", "headers", "height", "hreflang", "hspace",
    "ismap"}

  const ATTRS_FROM_L := {
    "lang", "language", "nohref", "nowrap", "rel", "rev", "rows", "rowspan", "rules", "scope", "scrolling"}

  const ATTRS_FROM_SHAPE := {
    "shape", "span", "start", "summary", "target", "title", "type", "valign", "value", "vspace", "width"}

  const OTHER_BLOCKS := BLOCKS_FROM_A + BLOCKS_FROM_H
  const OTHER_INLINES := INLINES_FROM_A + INLINES_FROM_IMG + INLINES_FROM_STRONG
  const OTHER_ATTRS := ATTRS_FROM_A + ATTRS_FROM_COLOR + ATTRS_FROM_L + ATTRS_FROM_SHAPE

  function Html(): Vocabulary {
    var optional := OPTIONAL_END_TAG_INLINES + OPTIONAL_END_TAG_BLOCKS;
    var blocks := OPTIONAL_END_TAG_BLOCKS + OTHER_BLOCKS;
    var inlines := OPTIONAL_END_TAG_INLINES + OTHER_INLINES;
    Vocabulary(VOID_ELEMENTS, blocks, inlines, optional, SPECIAL_ELEMENTS,
               VOID_ELEMENTS + blocks + inlines + optional, URI_ATTRS + OTHER_ATTRS, URI_ATTRS)
  }

  ghost predicate Plain(names: set<string>) {
    forall name :: name in names ==> HtmlSanitizer.IsPlainName(name)
  }

  lemma {:induction false} VoidsArePlain()
    ensures Plain(VOID_ELEMENTS) && Plain(OPTIONAL_END_TAG_INLINES)
  {
  }

  lemma {:induction false} OptionalBlocksArePlain()
    ensures Plain(OPTIONAL_END_TAG_BLOCKS)
  {
  }

  lemma {:induction false} BlocksFromAArePlain()
    ensures Plain(BLOCKS_FROM_A)
  {
  }

  lemma {:induction false} BlocksFromHArePlain()
    ensures Plain(BLOCKS_FROM_H)
  {
  }

  lemma {:induction false} InlinesFromAArePlain()
    ensures Plain(INLINES_FROM_A)
  {
  }

  lemma {:induction false} InlinesFromImgArePlain()
    ensures Plain(INLINES_FROM_IMG)
  {
  }

  lemma {:induction false} InlinesFromStrongArePlain()
    ensures Plain(INLINES_FROM_STRONG)
  {
  }

  lemma {:induction false} LinksArePlain()
    ensures Plain(URI_ATTRS)
  {
  }

  lemma {:induction false} AttrsFromAArePlain()
    ensures Plain(ATTRS_FROM_A)
  {
  }

  lemma {:induction false} AttrsFromColorArePlain()
    ensures Plain(ATTRS_FROM_COLOR)
  {
  }

  lemma {:induction false} AttrsFromLArePlain()
    ensures Plain(ATTRS_FROM_L)
  {
  }

  lemma {:induction false} AttrsFromShapeArePlain()
    ensures Plain(ATTRS_FROM_SHAPE)
  {
  }

  /** The tables meet what the theorems about the sanitized text ask of a vocabulary. */
  lemma {:induction false} HtmlNamesArePlain()
    ensures HtmlSanitizer.PlainNames(Html())
  {
    VoidsArePlain();
    OptionalBlocksArePlain();
    BlocksFromAArePlain();
    BlocksFromHArePlain();
    InlinesFromAArePlain();
    InlinesFromImgArePlain();
    InlinesFromStrongArePlain();
    LinksArePlain();
    AttrsFromAArePlain();
    AttrsFromColorArePlain();
    AttrsFromLArePlain();
    AttrsFromShapeArePlain();
  }

  /** Frames, plug-ins, form elements and style sheets. */
  const UNWANTED_ELEMENTS := {"iframe", "object", "embed", "applet", "form", "input", "style"}

  lemma {:induction false} BlocksFromAAreWanted(element: string)
    requires element in UNWANTED_ELEMENTS
    ensures element !in BLOCKS_FROM_A && element !in OPTIONAL_END_TAG_BLOCKS
  {
  }

  lemma {:induction false} BlocksFromHAreWanted(element: string)
    requires element in UNWANTED_ELEMENTS
    ensures element !in BLOCKS_FROM_H
  {
  }

  lemma {:induction false} InlinesFromAAreWanted(element: string)
    requires element in UNWANTED_ELEMENTS
    ensures element !in INLINES_FROM_A && element !in VOID_ELEMENTS
  {
  }

  lemma {:induction false} InlinesFromImgAreWanted(element: string)
    requires element in UNWANTED_ELEMENTS
    ensures element !in INLINES_FROM_IMG
  {
  }

  lemma {:induction false} InlinesFromStrongAreWanted(element: string)
    requires element in UNWANTED_ELEMENTS
    ensures element !in INLINES_FROM_STRONG && element !in OPTIONAL_END_TAG_INLINES
  {
  }

  /** No name begins as those of event handlers do. */
  ghost predicate NoHandlers(names: set<string>) {
    forall name :: name in names ==> !(|name| >= 2 && name[0] == 'o' && name[1] == 'n')
  }

  lemma {:induction false} AttrsFromAAreNoHandlers()
    ensures NoHandlers(ATTRS_FROM_A) && "style" !in ATTRS_FROM_A
  {
  }

  lemma {:induction false} AttrsFromColorAreNoHandlers()
    ensures NoHandlers(ATTRS_FROM_COLOR) && "style" !in ATTRS_FROM_COLOR
  {
  }

  lemma {:induction false} AttrsFromLAreNoHandlers()
    ensures NoHandlers(ATTRS_FROM_L) && "style" !in ATTRS_FROM_L
  {
  }

  lemma {:induction false} AttrsFromShapeAreNoHandlers()
    ensures NoHandlers(ATTRS_FROM_SHAPE) && "style" !in ATTRS_FROM_SHAPE
  {
  }

  /** No element that loads or runs something by itself is allowed. */
  lemma {:induction false} NothingLoads(element: string)
    requires element in UNWANTED_ELEMENTS
    ensures element !in Html().valid
  {
    BlocksFromAAreWanted(element);
    BlocksFromHAreWanted(element);
    InlinesFromAAreWanted(element);
    InlinesFromImgAreWanted(element);
    InlinesFromStrongAreWanted(element);
  }

  /** No attribute handles an event or sets a style. */
  lemma {:induction false} NothingRuns(attr: string)
    requires attr in Html().validAttrs
    ensures attr != "style" && !(|attr| >= 2 && attr[0] == 'o' && attr[1] == 'n')
  {
    AttrsFromAAreNoHandlers();
    AttrsFromColorAreNoHandlers();
    AttrsFromLAreNoHandlers();
    AttrsFromShapeAreNoHandlers();
    LinksAreNoHandlers();
  }

  lemma {:induction false} LinksAreNoHandlers()
    ensures NoHandlers(URI_ATTRS) && "style" !in URI_ATTRS
  {
  }

  /** Six attributes are checked as links, two elements are special, and elements without an end tag and those that may
      be left open are allowed. */
  lemma {:induction false} TablesFit()
    ensures Html().uriAttrs == {"background", "cite", "href", "longdesc", "src", "usemap"}
    ensures Html().specials == {"script", "style"} && Html().uriAttrs <= Html().validAttrs
    ensures Html().voids <= Html().valid && Html().optionalEndTags <= Html().valid
    ensures Html().blocks <= Html().valid && Html().inlines <= Html().valid
  {
  }
}
