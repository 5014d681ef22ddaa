/**
 Realized content as the HTML export sees it, what it says, and when every space of it survives:
 the converter guards all white space except the spaces that `Exposure.Lost` names.
 */
module HtmlContent {
  import opened CssText
  import opened Exposure

  /** How an element is displayed by default; a list item or table is block-level but converted inline. */
  datatype Display = Inline | InlineBlock | ListItem | Block

  /**
   Tags, which mark where elements begin and end, spaces, text, line breaks, HTML elements, Typst blocks,
   replaced elements and frames.
   A Typst box is the lone element inside it, displayed as by default, or else an inline block.
   */
  datatype Content =
    | TagElem(tag: nat)
    | SpaceElem
    | TextElem(text: string)
    | LinebreakElem
    | HtmlElem(display: Display, kids: seq<Content>)
    | BlockElem(kids: seq<Content>)
    | ReplacedElem
    | FrameElem

  // ----- What the content is made of -----

  /** A space or tab, any other character, or an element or frame with what it contains. */
  datatype Raw = White(tab: bool) | Glyph(ignorable: bool) | Elem(kinds: seq<Kind>)

  /** CR, LF and CRLF are line breaks. */
  function TextRaw(s: string, ignorable: char -> bool): seq<Raw> {
    if s == [] then []
    else if s[0] == '\r' && |s| > 1 && s[1] == '\n' then TextRaw(s[1..], ignorable)
    else if s[0] == '\r' || s[0] == '\n' then [Elem([Brk])] + TextRaw(s[1..], ignorable)
    else [CharRaw(s[0], ignorable)] + TextRaw(s[1..], ignorable)
  }

  function CharRaw(c: char, ignorable: char -> bool): Raw {
    if IsSpace(c) then White(c == '\t') else Glyph(ignorable(c))
  }

  function RawOf(cs: seq<Content>, ignorable: char -> bool): seq<Raw> {
    if cs == [] then [] else ElemRaw(cs[0], ignorable) + RawOf(cs[1..], ignorable)
  }

  function ElemRaw(c: Content, ignorable: char -> bool): seq<Raw> {
    match c
    case TagElem(_) => []
    case SpaceElem => [White(false)]
    case TextElem(t) => TextRaw(t, ignorable)
    case LinebreakElem => [Elem([Brk])]
    case HtmlElem(display, kids) => [Elem(Displayed(display, Classify(RawOf(kids, ignorable))))]
    case BlockElem(kids) => [Elem(BlockKinds(RawOf(kids, ignorable)))]
    case ReplacedElem => [Elem([Firm])]
    case FrameElem => [Elem([Bound, Firm, Bound])]
  }

  function Displayed(display: Display, ks: seq<Kind>): seq<Kind> {
    match display
    case Inline => [Side] + ks + [Side]
    case InlineBlock => [Enter] + ks + [Leave]
    case ListItem => [Bound] + ks + [Bound]
    case Block => [Brk]
  }

  /** Spaces on their own are single; all other white space is preserved at once. */
  function Classify(raw: seq<Raw>): seq<Kind> {
    ClassifyFrom(false, raw)
  }

  function ClassifyFrom(afterWhite: bool, raw: seq<Raw>): seq<Kind>
    decreases |raw|
  {
    if raw == [] then [] else HeadKinds(afterWhite, raw) + ClassifyFrom(raw[0].White?, raw[1..])
  }

  function HeadKinds(afterWhite: bool, raw: seq<Raw>): seq<Kind>
    requires raw != []
  {
    match raw[0]
    case White(tab) => [if tab || afterWhite || (|raw| > 1 && raw[1].White?) then Kept else Single]
    case Glyph(ignorable) => [if ignorable then Invisible else Firm]
    case Elem(ks) => ks
  }

  /** A Typst block around a lone element displays that element as a block; it is no context of its own. */
  function BlockKinds(raw: seq<Raw>): seq<Kind> {
    if Lone(raw) then Promote(Shield(Classify(raw))) else [Brk]
  }

  /** One element; white space alone ends up in a generated span, which is one too. */
  predicate Lone(raw: seq<Raw>) {
    raw != [] && (AllWhite(raw) || (|raw| == 1 && raw[0].Elem?))
  }

  predicate AllWhite(raw: seq<Raw>) {
    forall r <- raw :: r.White?
  }

  /** Line breaks, blocks, list items and frames stay as they are. */
  function Promote(ks: seq<Kind>): seq<Kind> {
    if ks == [Brk] then ks
    else if |ks| >= 2 && (ks[0].Side? || ks[0].Enter? || ks[0].Bound?) then [Bound] + ks[1..|ks| - 1] + [Bound]
    else [Bound] + ks + [Bound]
  }

  // ----- What the content says -----

  function TextShown(s: string): seq<Shown> {
    if s == [] then []
    else if s[0] == '\r' && |s| > 1 && s[1] == '\n' then TextShown(s[1..])
    else if s[0] == '\r' || s[0] == '\n' then [LineBreak] + TextShown(s[1..])
    else [Char(s[0])] + TextShown(s[1..])
  }

  function ContentShown(cs: seq<Content>, ignorable: char -> bool): seq<Shown> {
    if cs == [] then [] else ElemShown(cs[0], ignorable) + ContentShown(cs[1..], ignorable)
  }

  function ElemShown(c: Content, ignorable: char -> bool): seq<Shown> {
    match c
    case TagElem(_) => []
    case SpaceElem => [Char(' ')]
    case TextElem(t) => TextShown(t)
    case LinebreakElem => [LineBreak]
    case HtmlElem(display, kids) => Surround(display, ContentShown(kids, ignorable))
    case BlockElem(kids) => BlockShown(RawOf(kids, ignorable), ContentShown(kids, ignorable))
    case ReplacedElem => [Object]
    case FrameElem => [BlockBox([Object])]
  }

  function Surround(display: Display, said: seq<Shown>): seq<Shown> {
    match display
    case Inline => said
    case InlineBlock => [InlineBox(said)]
    case ListItem | Block => [BlockBox(said)]
  }

  /** A block, except that a lone line break or block stays one and that a lone inline block becomes one. */
  function BlockShown(raw: seq<Raw>, said: seq<Shown>): seq<Shown> {
    if |raw| == 1 && raw[0].Elem? && raw[0].kinds != [] then
      match raw[0].kinds[0]
      case Brk | Bound => said
      case Enter => if |said| == 1 && said[0].InlineBox? then [BlockBox(said[0].content)] else [BlockBox(said)]
      case _ => [BlockBox(said)]
    else [BlockBox(said)]
  }

  // ----- When no space is lost -----

  /** No space of the block or of a block in it is lost. */
  predicate Lossless(cs: seq<Content>, ignorable: char -> bool)
    decreases cs, 2
  {
    NoneLost(Classify(RawOf(cs, ignorable)), 0) && BlocksLossless(cs, ignorable)
  }

  /** The same of the blocks with a context of their own. */
  predicate BlocksLossless(cs: seq<Content>, ignorable: char -> bool)
    decreases cs, 1
  {
    cs == [] || (ElemLossless(cs[0], ignorable) && BlocksLossless(cs[1..], ignorable))
  }

  predicate ElemLossless(c: Content, ignorable: char -> bool)
    decreases c, 0
  {
    match c
    case HtmlElem(display, kids) => if display.Block? then Lossless(kids, ignorable) else BlocksLossless(kids, ignorable)
    case BlockElem(kids) =>
      if Lone(RawOf(kids, ignorable)) then BlocksLossless(kids, ignorable) else Lossless(kids, ignorable)
    case _ => true
  }
}
