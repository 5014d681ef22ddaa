# Typst: evaluator, HTML export and search kernels

A Dafny model of the parts of Typst whose pieces have to agree with each other, with proofs that they do.
`dafny verify dfyconfig.toml` checks everything.

**Evaluator.** `values` (syntax and values), `scopes`, `patterns`, `arguments` and `static` (free names, the
static tests on syntax) are the vocabulary. `reference` is a completion semantics: an expression completes with
a value and perhaps an event, sibling events combine leftmost first, blocks stop at an event, loops consume
their own. `machine` is the evaluator as Typst writes it, with scopes, a pending event and consumed argument
lists as mutable state; every method is proved against the completion semantics, for any event that was
pending before. Evaluation is total: remaining call depth, then syntax, then remaining iterations decrease.
`visitor` collects captures and `capture` shows that they are enough. `context`, `events`, `loops` and
`placement` are invariants of all runs; `binding_laws`, `pattern_laws`, `dict_laws` and `math_args` say what becomes
of arguments, pattern pieces and rows without mentioning the order in which they are consumed. `joining` and
`listing` say what blocks, loops, modules and lists make of the values they produce, `sequencing` in which order
effects take place, `call_frames` what the body of a call finds, `denotation` what expressions without effects
denote, and `free_names` what free names are.

**HTML export.** `scanning` and `css_text` state the white space rules of sections 4.1.1 and 4.1.2 of CSS Text
Module Level 3. `content` is realized content and what it says, `exposure` names the spaces that are lost, `nodes`
is the HTML tree and how a browser lays it out. `fragments` and `converter` convert, `protect` is the pass that
wraps single spaces, `promotion` is about blocks around a lone element, `trails` follows tags through all of this,
and `convert` ties them together. A Typst box is not a constructor of its own: around a lone element it is that
element displayed as by default, and otherwise an inline block. `charsets` and `encode` print, `encodable` says what
can be printed. `parser` reads documents after sections 13.2.5 and 13.2.6 of the HTML Standard as far as the syntax
goes: names in lower case, the first of several attributes with a name, raw text (with scripting enabled), script
data and ignored newlines by the Standard's own lists, and elements nested by their tags. It does not construct
trees as section 13.2.6 does, so it neither supplies nor moves elements. `survival` says which trees come back,
`readback`, `carriage` and `roundtrip` prove it. `mathml` converts equations and contains the cascade (Appendix A of
MathML Core and the exporter's own rules), `mathml_proofs` compares the two, `mathml_simple` shows where they always
agree and `mathml_reading` reads equations back. `anchors` names link targets, `anchor_names` says what these names
are, `link` attaches them, and `link_integrity` and `link_names` read them off the final document.

**Search and tools.** `edit_distance`, `search` and `dependents`.

Results where the code does less than one might expect:

- A loop whose condition itself breaks or returns can be rejected as endless although it is not
  (`RejectedLoopFinishes` gives the exact condition, `RejectionMayBeWrong` the example).
- The pass that protects single spaces takes a frame, which is displayed as a block, for something that supports
  the spaces around it, and it looks through blocks around a lone element, list items and inline blocks. A single
  space left exposed at such an edge is lost, and no other white space is (`ConvertBlock` gives the exact condition,
  `SpaceBeforeFrameIsLost` and `SpaceBeforeLoneElementIsLost` are the examples). The documentation of `Whitespace`
  says that white space which would be collapsed is protected.
- A written document does not always come back (`RoundTripIffSurvives`): carriage returns, a newline that is hidden
  from the writer in a `pre`, `textarea` or `listing`, a script left open in a comment, raw text elements that the
  writer does not know and that need an escape, and names in upper case or given twice.
- MathML attributes do not give every node its target (`ItemDecodes` is the exact condition). The hints of tables
  whose style differs from their surroundings and of accents whose size or style does are overruled. Where the
  tracked context is not the one in effect, an item is displayed as it is meant to be only if it states what
  differs. That concerns the shift in a radical that undoes a compact shift or stands alone in a superscript on the
  left, the style of a table alone in a fraction or script, and all three properties in the cells of a matrix within
  a multi-line equation, which the rule for the cells of such equations reaches too (`MatrixInMultilineEquation`).
  An uncramped radical itself computes a compact shift, which matters to what is inside only (`RadicalShift`). The
  comment on the tracked context calls it what the browser will apply.
- The search for a closing tag in raw text panics on some text that is not ASCII (`SearchPanicsIff`).
- Generated ids can coincide, only if the label `loc` is repeated and some target has no usable label
  (`DistinctIffNoClash`).
- The edit distance counts code points but compares code units, so texts with surrogate pairs are compared only
  in part (`WholeIsMeasured`). The documentation promises a distance of the two strings.

## Model

| member | source | states |
|---|---|---|
| Scoping.FindAfterUpdate | crates/typst-library/src/foundations/scope.rs:65-78 | After a write, a name is found with the new value exactly if it is the written one; every other name is found as before |
| Machine.Vm.Eval | crates/typst-eval/src/code.rs:76-156 | Running an expression on the machine with its mutable scopes and its pending event gives the value or error of the completion semantics, leaves its scopes, and leaves as pending event the leftmost of the entry event and the events of the run |
| Machine.Vm.EvalCode | crates/typst-eval/src/code.rs:26-74 | A block sets the pending event aside, runs up to the first statement that leaves an event, joins the values (`Joining.BlockJoinsItsStatements`), and puts the entry event back |
| Machine.Vm.EvalStatement | crates/typst-eval/src/binding.rs:9-28 | A `let` whose initialiser left an event binds nothing; otherwise the pattern is bound in the active scope |
| Machine.Vm.EvalAssignment | crates/typst-eval/src/ops.rs:91-113 | The right side runs before the target is accessed; the innermost binding is overwritten, a captured one is refused |
| Machine.Vm.EvalConditional | crates/typst-eval/src/flow.rs:41-61 | Only one branch runs, and a pending return becomes conditional |
| Machine.Vm.EvalWhileLoop | crates/typst-eval/src/flow.rs:63-111 | The loop consumes `break` and `continue` of its body, stops at a return, fails for an always true condition or after 10 000 iterations, and restores and marks the entry event |
| Machine.Vm.EvalForLoop | crates/typst-eval/src/flow.rs:114-189 | Iterates the array, dictionary pairs or graphemes of the iterable in a scope of its own; entry event as in the while loop |
| Machine.Vm.Iterate | crates/typst-eval/src/flow.rs:121-145 | Each value is destructured and the body run until an event ends the loop; an event of the iterable counts as one of the first iteration |
| Machine.Vm.EvalList | crates/typst-eval/src/code.rs:226-315 | Items run left to right; spreads contribute their contents; the first error or mismatch ends the list |
| Machine.Vm.EvalParams | crates/typst-eval/src/call.rs:610-617 | Only the defaults of named parameters are evaluated, in order |
| Machine.Vm.CallClosure | crates/typst-eval/src/call.rs:645-768 | A call runs the body in one scope of captured variables, own name and parameters, consumes a return and refuses any other event at the boundary |
| Machine.Vm.BindArguments | crates/typst-eval/src/call.rs:684-756 | Consuming the argument list parameter by parameter makes exactly the bindings of the specification, or fails with it |
| Machine.Vm.Destructure | crates/typst-eval/src/binding.rs:60-81 | Binding while walking the pattern gives the bindings, or the failure, of matching first and binding afterwards |
| Machine.Vm.DestructureArray | crates/typst-eval/src/binding.rs:84-127 | The index-advancing loop refines the recursive match of all items, and fails if values are left |
| Machine.Vm.DestructureDict | crates/typst-eval/src/binding.rs:129-175 | The loop with `used` and `sink` refines the recursive match (`DictionaryLaws.DictMatchesIffItFits`); the sink receives the unused entries |
| Machine.ArgList.Consume | crates/typst-library/src/foundations/args.rs:127-147 | Removes exactly the first `n` positional arguments and leaves the others in order, or fails |
| Machine.ArgList.TakeNamed | crates/typst-library/src/foundations/args.rs:218-236 | Removes all arguments of a name and returns the last |
| Machine.RunProgram | crates/typst-eval/src/lib.rs:38-97 | A module run gives the value of the completion semantics, and fails if an event is left over |
| Joining.BlockJoinsItsStatements | crates/typst-eval/src/code.rs:26-74 | A block succeeds if and only if its statements run and their values, `none` aside, are of one kind that joins or at most one; the result consists of the characters, elements or arguments of these values in the order in which they were produced, and dictionaries with distinct keys join to one in which every key has its last value at its first position |
| Joining.WhileJoinsItsBodies | crates/typst-eval/src/flow.rs:63-111 | The same of the values of the bodies that a while loop runs |
| Joining.ForJoinsItsBodies | crates/typst-eval/src/flow.rs:114-189 | The same of a for loop, which runs one body for each element, pair of key and value, or grapheme, until an event ends it |
| Joining.ProgramJoinsItsStatements | crates/typst-eval/src/lib.rs:38-97 | The same of a whole module, which also fails if an event is left over |
| Joining.JoinOne | crates/typst-library/src/foundations/ops.rs:24-45 | Joining one more value gives what all values so far join to, or fails because they are of different kinds |
| Joining.InsertAllCollects | crates/typst-eval/src/code.rs:279-316 | Inserting entries one by one keeps every key once, in the order of first occurrences, with its last value |
| Listing.ItemsContribute | crates/typst-eval/src/code.rs:226-316 | A list succeeds if and only if its items run from left to right and are allowed in it, and is the contributions of the items one after the other: a value, a named value, or the elements, entries or arguments of what is spread |
| Listing.ArrayHoldsItsItems | crates/typst-eval/src/code.rs:226-277 | An array literal holds the values of its items and the elements of spread arrays, in order |
| Listing.DictCollectsItsItems | crates/typst-eval/src/code.rs:279-316 | A dictionary literal has every key of its items once, where it first occurred, with its last value |
| Denotation.EvalFinds | crates/typst-eval/src/code.rs:76-156 | Expressions without assignments, calls, loops and exits have exactly the value, or fail exactly where they have none, of a denotational semantics over an environment of names, with the operands, branches and bindings in their places; the scopes stay as they are |
| Sequencing.OperandsInOrder | crates/typst-eval/src/ops.rs:59-75 | The left operand runs before the right one and is the left operand of the operator; a left operand that decides keeps the right one from running |
| Sequencing.CalleeFirst | crates/typst-eval/src/call.rs:71-80 | The callee runs before the arguments, and these before the body, which gets the arguments that the items contribute |
| Sequencing.AssignmentSticks | crates/typst-eval/src/ops.rs:91-113 | After an assignment the variable has the value of the right side, or of the operator applied to what it held once the right side had run, and that value; nothing else changed |
| Sequencing.DefinitionsStick | crates/typst-eval/src/binding.rs:45-57 | After a `let` every bound name is found with the last value bound to it and every other name as before |
| Sequencing.WritesStick | crates/typst-eval/src/binding.rs:30-42 | The same after a destructuring assignment, which succeeds only if all these names are known and not captured |
| Sequencing.ExitsSkipTheBinding | crates/typst-eval/src/binding.rs:9-28 | Where the initialiser of a `let` ends early, the pattern does not matter: nothing is matched or bound |
| CallFrames.ParameterFinds | crates/typst-eval/src/call.rs:692-725 | Unless a later parameter binds the name again, the body finds a positional parameter with the argument at its position, and a named one with the last argument of its name or else its own default |
| CallFrames.SinkFinds | crates/typst-eval/src/call.rs:712-737 | The body finds the sink with the named arguments that no parameter asks for and then the surplus positional ones |
| CallFrames.OuterFinds | crates/typst-eval/src/call.rs:645-690 | Under any other name the body finds the closure itself, if that is its name, or else what was captured, read-only, or else nothing |
| CallFrames.LastIs | crates/typst-library/src/foundations/args.rs:218-236 | The argument for a name is the one with no later argument of the same name |
| FreeNames.FreeIff | crates/typst-eval/src/call.rs:770-951 | A name is free in an expression if and only if it occurs where no pattern, parameter, own name or earlier `let` around it binds it |
| Context.EvalKeeps | crates/typst-eval/src/code.rs:317-326 | For every expression, state and depth: a successful run ends with as many scopes, each binding the same names, captured bindings unchanged |
| Machine.PendingEventStays | crates/typst-eval/src/flow.rs:101-108 | Of two runs of the same expression, one of them while an event is pending, both give the same value and scopes or the same error, and the event is still pending, at most turned from unconditional to conditional |
| Visitor.CollectCaptures | crates/typst-eval/src/call.rs:619-638 | What the visitor collects is exactly the visible value of every free name of the closure |
| Visitor.CapturesVisitor.Visit | crates/typst-eval/src/call.rs:795-912 | Visiting an expression adds to the captures exactly its names that are free under the current internal bindings and known outside, and restores the internal scopes |
| Visitor.CapturesVisitor.VisitLambda | crates/typst-eval/src/call.rs:825-857 | Defaults do not see the parameters, the body sees them and the closure's own name |
| Visitor.CapturesVisitor.VisitFor | crates/typst-eval/src/call.rs:872-885 | The iterable does not see the loop variables, the body does |
| Visitor.CapturesVisitor.Capture | crates/typst-eval/src/call.rs:924-951 | A name is captured unless it is bound inside, captured already or unknown outside |
| CaptureSoundness.CaptureIsSound | crates/typst-eval/src/call.rs:607-643 | For every closure expression in every state and all arguments: calling the closure with only its captured variables gives the value or error of calling it on top of the whole defining scope, read-only |
| CaptureSoundness.EvalSame | crates/typst-eval/src/call.rs:770-951 | In any two states that agree on the free names of an expression, with every name the visitor holds internal bound at run time, evaluation completes alike and leaves such states again |
| CaptureSoundness.CallBound | crates/typst-eval/src/call.rs:692-756 | A call that succeeds in binding its arguments has bound every parameter name, the sink and the closure's own name |
| CaptureSoundness.ClosedIsConstant | crates/typst-eval/src/flow.rs:226-238 | An expression without free names completes in the same way in every state |
| Events.EvalEmits | crates/typst-eval/src/flow.rs:191-223 | Every event of a run was emitted by a break, continue or return of the expression itself that no loop or function inside it consumes |
| Events.UndivergingEmits | crates/typst-eval/src/flow.rs:240-245 | What cannot diverge by the static test emits at most `continue` |
| EarlyCheck.AcceptedLoopIsUnchecked | crates/typst-eval/src/flow.rs:75-99 | A loop that passes the early check behaves like the unchecked loop cut off after 10 000 iterations, so no body runs more often |
| EarlyCheck.InvariantIsClosed | crates/typst-eval/src/flow.rs:226-238 | An invariant condition has no free names |
| EarlyCheck.NeverFinishes | crates/typst-eval/src/flow.rs:80-93 | A true invariant condition without break or return and a body that cannot diverge: no number of iterations ends the loop |
| EarlyCheck.RejectedLoopFinishes | crates/typst-eval/src/flow.rs:81-83 | A loop rejected as "always true" could have finished if and only if the condition itself breaks or returns and the first body succeeds |
| EarlyCheck.RejectionIsSound | crates/typst-eval/src/flow.rs:81-83 | With a condition free of breaks and returns, only loops without end are rejected |
| EarlyCheck.RejectionMayBeWrong | crates/typst-eval/src/flow.rs:81-83 | A concrete loop, `while { true; break } {}`, is rejected although it would finish |
| Placement.PlacedEmits | crates/typst-eval/src/flow.rs:24-39 | Where every break, continue and return stands in a loop or function that consumes it, nothing is emitted outside |
| Placement.EvalFine | crates/typst-eval/src/flow.rs:24-39 | Evaluating well-placed code in a state of well-placed functions never fails as forbidden and only creates well-placed functions |
| Placement.InvokeFine | crates/typst-eval/src/call.rs:758-765 | A call of a well-placed function never ends in a forbidden event |
| Placement.WellPlacedProgramsAreNeverForbidden | crates/typst-eval/src/lib.rs:88-91 | For all programs and inputs: well-placed control flow is never reported as forbidden |
| BindingLaws.BindsIffAccepts | crates/typst-eval/src/call.rs:692-756 | Binding succeeds if and only if there are enough positionals, every pattern matches its own argument, and without a sink nothing is left |
| BindingLaws.BindingLaw | crates/typst-eval/src/call.rs:692-756 | Then each positional parameter got the argument at its position, each named one the last argument of its name or its default, and the sink all unclaimed named and surplus positional arguments in order |
| BindingLaws.PositionsIncrease | crates/typst-eval/src/call.rs:695-712 | Different positional parameters use different arguments, in order |
| BindingLaws.SinkIsApart | crates/typst-eval/src/call.rs:713-727 | No argument goes to both the sink and a parameter |
| BindingLaws.NothingIsLost | crates/typst-eval/src/call.rs:692-756 | Every positional argument goes to a parameter or to the sink |
| BindingLaws.TakeSplits | crates/typst-library/src/foundations/args.rs:127-147 | Taking positionals splits them at `n` and keeps the named arguments, and succeeds if and only if there are enough |
| PatternLaws.ArrayMatchesIffItFits | crates/typst-eval/src/binding.rs:84-127 | With at most one spread, an array matches if and only if the lengths fit and each item matches at its position; then the bindings are those of each item for its own part of the array, in order |
| PatternLaws.PiecesRebuildTheValue | crates/typst-eval/src/binding.rs:84-127 | For patterns that throw nothing away and take apart arrays, whatever these hold: at every nesting level the bound pieces in pattern order rebuild the value |
| PatternLaws.DictSinkGetsTheRest | crates/typst-eval/src/binding.rs:129-175 | The sink of a dictionary pattern holds an entry if and only if the dictionary does and no item names its key |
| PatternLaws.SinkIsLast | crates/typst-eval/src/binding.rs:163-174 | The sink is bound last, to what the keys used before left over |
| DictionaryLaws.DictMatchesIffItFits | crates/typst-eval/src/binding.rs:129-175 | With distinct keys, a pattern matches a dictionary if and only if no item is positional, every named key occurs and its pattern matches the value of that entry; then the bindings are those of each item for the value of its entry, in order, followed by the sink |
| DictionaryLaws.GetIsEntry | crates/typst-eval/src/binding.rs:141-161 | Looking up a key gives the value of the entry with that key, if there is one |
| MathArguments.EvalMathArgs | crates/typst-eval/src/call.rs:464-549 | The loop over a single buffer with a start index gives the named arguments in order and then the rows obtained by splitting at semicolons, or the first spread error |
| MathArguments.Buffers.AddPart | crates/typst-eval/src/call.rs:486-532 | One more argument extends the current row, and a semicolon turns it into an array, whatever came before |
| MathArguments.Buffers.DrainIntoArray | crates/typst-eval/src/call.rs:477-484 | Everything from the start index becomes one array argument |
| MathArguments.RowsPartition | crates/typst-eval/src/call.rs:464-549 | Rows partition the positional values in order, with exactly one row per semicolon and one after the last |
| MathArguments.NothingIsLost | crates/typst-eval/src/call.rs:534-545 | Without semicolon the positionals stay flat; otherwise opening the arrays gives them back in order, and only a final empty row is dropped |
| CssText.IntactIffScans | crates/typst-html/src/convert.rs:35-57 | The white space rules of CSS Text Module Level 3, sections 4.1.1 and 4.1.2, leave a line of inline content as it is if and only if every exposed space has something solid on its left, no line ends with one, and no tab is exposed |
| CssText.ShownIffIntact | crates/typst-html/src/convert.rs:35-57 | What is rendered equals what is said, thing by thing, if and only if the rules change nothing and the content is what is said |
| HtmlNodes.ShownIffMarksRead | crates/typst-html/src/convert.rs:35-57 | For every tree of nodes, with blocks and inline blocks laid out by themselves at every depth: the browser shows all that the nodes say if and only if one reading of the marks in document order succeeds and the same holds of every block in it |
| Exposure.KeptIffReads | crates/typst-html/src/convert.rs:593-665 | With all spaces preserved that are not exposed, a block reads well if and only if no exposed space stands at the edge of something displayed as a block or inline block |
| HtmlProtect.Protector.VisitNodes | crates/typst-html/src/convert.rs:612-652 | For every state and all nodes: the state and the wrapped text nodes afterwards are those of the pass over the marks in document order |
| HtmlProtect.Protector.VisitSpace | crates/typst-html/src/convert.rs:620-635 | A space after collapsing content is wrapped at once; one after another space wraps that one and becomes pending |
| HtmlProtect.Protector.Collapse | crates/typst-html/src/convert.rs:655-659 | A pending space is wrapped and the state is collapsing |
| HtmlProtect.PassIsShield | crates/typst-html/src/convert.rs:591-665 | The pass wraps exactly the single spaces with no space, text or object visible on their left since the last break, or with no text or object next on their right |
| HtmlProtect.WrappedMarks | crates/typst-html/src/convert.rs:668-684 | Wrapping preserves exactly the flagged spaces and changes nothing that is said |
| HtmlProtect.WrappedTrail | crates/typst-html/src/convert.rs:668-684 | Wrapping leaves tags, characters and objects in their order |
| HtmlConverter.Converter.HandleText | crates/typst-html/src/convert.rs:252-334 | Splitting a text into segments, tabs, spaces and line breaks adds exactly its characters, with CR, LF and CRLF as one line break each |
| HtmlConverter.Converter.PushTag | crates/typst-html/src/convert.rs:538-558 | A tag is added after everything said so far, without ending the trailing white space |
| HtmlConverter.Converter.PushWhite | crates/typst-html/src/convert.rs:541-550 | A space or tab starts or continues trailing white space |
| HtmlConverter.Converter.PushElement | crates/typst-html/src/convert.rs:551-557 | Pending white space is flushed before an element or frame |
| HtmlConverter.Converter.PushText | crates/typst-html/src/convert.rs:538-569 | Text ends trailing white space and adds its characters |
| HtmlConverter.Converter.FlushWhitespace | crates/typst-html/src/convert.rs:576-584 | Runs of several spaces or tabs end up in a span that preserves them, with tags in between; a single space stays |
| HtmlConverter.Converter.Finish | crates/typst-html/src/convert.rs:532-535 | The finished fragment says what was pushed, with nothing exposed but single spaces |
| HtmlPromotion.PromotedConverted | crates/typst-html/src/convert.rs:405-509 | A block around a lone element or frame is that element displayed as a block; its contents stay part of the surrounding context |
| HtmlPromotion.ShownIffLossless | crates/typst-html/src/convert.rs:60-90 | For converted and protected content, what the browser shows is what the content says if and only if no space is lost |
| HtmlConvert.ConvertBlock | crates/typst-html/src/convert.rs:60-90 | For every tree of text, tags, HTML elements of any display, `br`, Typst blocks, replaced elements and frames: the browser shows exactly what the source says if and only if no exposed single space stands, tags and default-ignorables aside, at the edge of a frame, a block around a lone element, a list item or an inline block, and the same holds of every block in it; and the trail is that of the source, with each tag in its place among the characters, objects and ends of elements |
| HtmlConvert.ConvertNodes | crates/typst-html/src/convert.rs:60-84 | A converted fragment says what the source says, in order, exposes nothing but single spaces, and has the tags of the source, in order, where they stood among characters, objects and ends of elements |
| HtmlConvert.HandleBlock | crates/typst-html/src/convert.rs:394-432 | A lone element of a block is displayed as a block, between the tags around it; anything else gets an element of its own |
| HtmlConvert.HandleHtml | crates/typst-html/src/convert.rs:166-248 | Elements that are blocks by default are contexts of their own, all others are converted as part of the surrounding one |
| HtmlConvert.UnboxedIsLossless | crates/typst-html/src/convert.rs:35-57 | Without frames, blocks around lone elements, list items and inline blocks, no space is ever lost |
| HtmlConvert.SpaceBeforeFrameIsLost | crates/typst-html/src/convert.rs:140-154 | The space of `a ` before a frame is lost |
| HtmlConvert.SpaceBeforeLoneElementIsLost | crates/typst-html/src/convert.rs:405-417 | The space of `a ` before a block around a lone inline element is lost |
| Charsets.HexReadsBack | crates/typst-html/src/encode.rs:368-382 | A numeric reference in hexadecimal is read back as the number, whatever follows the semicolon |
| Charsets.EscapeReadsBack | crates/typst-html/src/encode.rs:368-382 | Every escape that succeeds is read back as the character |
| Encoder.EncodeHtml | crates/typst-html/src/encode.rs:43-52 | The writer produces the doctype and the encoding of the root, or nothing if any part fails or panics (`Encodable.EncodesIff` says when) |
| Encodable.EncodesIff | crates/typst-html/src/encode.rs:43-382 | A document is encoded if and only if every character may stand in a document, none is a carriage return where texts are escaped, void and self-closing elements are empty, raw and escapable raw elements hold only text, and raw text has neither an end tag of its own nor a place where the search for one cuts a character |
| Encodable.SearchIsQuiet | crates/typst-html/src/encode.rs:291-301 | The search ends without a hit if and only if at no index there is an end tag in any case or a character that the byte length of the tag cuts |
| Encodable.TextVerbatimIff | crates/typst-html/src/encode.rs:100-109 | Unescaped text is written as it is if and only if it has no `&` and no `<` |
| Encodable.ValueVerbatimIff | crates/typst-html/src/encode.rs:122-133 | An attribute value is written as it is if and only if it has no `&` and no double quote |
| Encoder.SearchPanicsIff | crates/typst-html/src/encode.rs:291-301 | The search for a closing tag panics if and only if some `</` before the first hit is followed by a character that the byte length of the tag splits; otherwise it finds a closing tag if and only if there is one |
| Encoder.AsciiNeverPanics | crates/typst-html/src/encode.rs:291-301 | It never panics on ASCII text |
| Encoder.EuroSignPanics | crates/typst-html/src/encode.rs:291-301 | The text `</styl€` of a `style` element makes it panic, although it has no closing tag |
| Encoder.Writer.WriteElement | crates/typst-html/src/encode.rs:112-167 | Start tag, the dropped newline rule, children by content model, end tag; void elements must be empty |
| Encoder.Writer.WriteText | crates/typst-html/src/encode.rs:100-109 | Characters that the text may not contain, or all of them, are written as references; fails on the first that has none |
| Encoder.Writer.WriteChildren | crates/typst-html/src/encode.rs:170-202 | Children are encoded one after the other up to the first failure |
| Encoder.Writer.WriteAttrs | crates/typst-html/src/encode.rs:122-146 | Attributes are written quoted with escaped values, or in the short form if empty |
| RoundTrip.RoundTripIffSurvives | crates/typst-html/src/encode.rs:43-255 | For every root with interned names that encodes: a reader of the written syntax gives back the tree, up to dropped tags and merged text, if and only if there is no carriage return and every element survives |
| RoundTrip.ElementBack | crates/typst-html/src/encode.rs:112-167 | An encoded element followed by anything is parsed to the element and leaves what follows, if it survives; otherwise to another element or to nothing |
| RoundTrip.BodyBack | crates/typst-html/src/encode.rs:153-160 | The contents of an element are read up to its end tag, if its kind of text and leading newline allow it; otherwise they differ |
| ReadBack.RawBack | crates/typst-html/src/encode.rs:217-225 | Raw text that passes the closing tag test ends, for the RAWTEXT state, exactly at the end tag that is written after it |
| ReadBack.NoStraddling | crates/typst-html/src/encode.rs:291-301 | No closing tag can begin in the text and end in what is written after it |
| ReadBack.ClosesIffReads | crates/typst-html/src/encode.rs:291-301 | What the writer takes for an end tag is exactly what a parser reads as the name of the element, up to a character that may follow it |
| Survival.NewlineLeads | crates/typst-html/src/encode.rs:205-214 | If the content begins with a newline, the writer notices it if and only if the first child, tags aside, is a text that is not empty |
| ReadBack.ScriptBack | crates/typst-html/src/encode.rs:217-225 | Script data that passes the closing tag test ends at its end tag if and only if it does not leave a script open in a comment; otherwise the script swallows the end tag |
| ReadBack.EscapableBack | crates/typst-html/src/encode.rs:253-255 | Text of escapable raw elements is read back up to the end tag |
| RoundTrip.NewlineBack | crates/typst-html/src/encode.rs:148-151 | What a parser ignores after the start tag is the newline that the writer adds, or else the first newline of the text |
| RoundTrip.FirstOnesKeep | crates/typst-html/src/encode.rs:122-141 | Attributes are read back if and only if their names are in lower case and distinct |
| RoundTrip.HiddenNewlineIsLost | crates/typst-html/src/encode.rs:205-214 | A `pre` or `textarea` with an empty text and then a newline does not come back |
| RoundTrip.EscapedNewlineIsKept | crates/typst-html/src/encode.rs:100-109 | With escaped texts the same `pre` comes back |
| RoundTrip.OpenScriptIsLost | crates/typst-html/src/encode.rs:217-225 | A script with the text `<!--<script>` is written without an error and does not come back |
| RoundTrip.UnknownRawTextIsLost | crates/typst-html/src/tag.rs:145-147 | An `iframe` with the text `<` does not come back, since the writer escapes what a parser takes literally |
| CarriageReturns.AllKeep | crates/typst-html/src/encode.rs:100-109 | Nothing that is parsed from input with normalized newlines contains a carriage return |
| MathMl.MathContext.HandleRealized | crates/typst-html/src/mathml.rs:491-650 | The element of an item gets attributes for exactly the differences to the tracked context, which is swapped for the item and restored |
| MathMl.MathContext.HandleKind | crates/typst-html/src/mathml.rs:567-625 | Fractions, radicals, accents, scripts, tables and fences convert each part in the context of its slot, and nothing else of the state changes |
| MathMl.MathContext.HandleCorners | crates/typst-html/src/mathml.rs:850-914 | Scripts at the corners, raised or lowered, as `msub`, `msup`, `msubsup` or `mmultiscripts` |
| MathMl.ConvertMathToNodes | crates/typst-html/src/mathml.rs:197-205 | A whole equation is converted in the context of a block or inline equation |
| MathMlProofs.ItemDecodes | crates/typst-html/src/mathml.rs:294-351 | For every item, tracked context and place, whatever is in effect there: the cascade gives every node of the tree its target style, depth (up to 2) and shift if and only if each item is expressible where it stands; with `exact` the shift of radicals counts as well, without it only what their contents get |
| MathMlProofs.EquationDecodes | crates/typst-html/src/mathml.rs:197-205 | The same for every top-level item of a block or inline equation |
| MathMlSimple.SimpleEquationDecodes | crates/typst-html/src/mathml.rs:491-581 | In an equation without accents and tables, in which no radical undoes a compact shift or stands alone in a superscript on the left, every node gets the style, size and shift that it is meant to have, the shift of radicals themselves aside |
| MathMlSimple.SlotsAreTracked | crates/typst-html/src/mathml.rs:283-345 | The contexts tracked for numerators, denominators, indices and scripts are those that the stylesheet gives to these slots |
| MathMlReading.ItemBack | crates/typst-html/src/mathml.rs:583-625 | Every item is read back from its element with its size, its kind and all its parts, each from the place where MathML has it, in every context |
| MathMlReading.EquationBack | crates/typst-html/src/mathml.rs:491-581 | An equation is read back from its nodes |
| MathMlProofs.DeltaRestores | crates/typst-html/src/mathml.rs:526-535 | A property of an item comes out as its target if and only if its place gives it that value, or it is stated and not overruled by the stylesheet |
| MathMlProofs.MeetsIffExpressible | crates/typst-html/src/mathml.rs:526-582 | The targets of one element are met if and only if its item is expressible, and then the item's own context is in effect in it, but for the shift of a radical |
| MathMlProofs.KindDecodes | crates/typst-html/src/mathml.rs:583-625 | The contents of every kind of item, under an element with the same style, shift and clamped depth, meet their targets if and only if they are expressible; for a radical with the shift that it computes |
| MathMlProofs.RadicalShift | crates/typst-html/src/mathml.rs:711-735 | A radical has its own target shift if and only if in addition that is compact or stated |
| MathMlProofs.AttributesAreNeeded | crates/typst-html/src/mathml.rs:526-535 | Where the tracked context is in effect (for a table, its style in the parent as well), the computed property misses the target without an emitted attribute; the only attribute that is not needed is a compact shift of a radical |
| MathMlProofs.RadicalUndoesTheShift | crates/typst-html/src/mathml.rs:711-735 | An uncramped square root of a symbol in a cramped place is displayed as it is meant to be if and only if the symbol is uncramped |
| MathMlProofs.LeftSuperscriptKeepsTheShift | crates/typst-html/src/mathml.rs:850-914 | The same for a square root alone in a superscript on the left, where radicals inherit their shift |
| MathMlProofs.MatrixInMultilineEquation | crates/typst-html/src/mathml.rs:132-146 | A matrix of one symbol in a multi-line equation is displayed as it is meant to be if and only if the symbol is uncramped and in display style, which it is not by default |
| MathMlProofs.MatrixInEquation | crates/typst-html/src/mathml.rs:926-940 | In an equation of one line the same matrix always is |
| MathMlProofs.TableKeepsTheStyle | crates/typst-html/src/mathml.rs:132-139 | A display-style matrix in an inline equation does not get its style |
| MathMlProofs.TableInNumeratorKeepsTheStyle | crates/typst-html/src/mathml.rs:132-134 | A matrix alone in the numerator of a display fraction does not get the compact style that the exporter tracks |
| MathMlProofs.AccentKeepsTheStyle | crates/typst-html/src/mathml.rs:171-176 | A script-size accent in a display equation does not get its size |
| Anchors.AnchorGenerator.Identify | crates/typst-library/src/model/link.rs:556-573 | A usable label that occurs once is the id; other targets get the next free number after the label or after `loc` |
| Anchors.AnchorGenerator.Disambiguate | crates/typst-library/src/model/link.rs:589-605 | The loop ends and finds the first number that makes no existing label |
| Anchors.DistinctIffNoClash | crates/typst-library/src/model/link.rs:556-605 | Over every sequence of requests the generated ids are distinct if and only if no repeated label `loc` meets a target without a usable label |
| AnchorNames.NameIs | crates/typst-library/src/model/link.rs:556-605 | Over every sequence of requests: a usable label that occurs once is its own name; every other name is the usable label, or `loc`, with the first number that makes no existing label and was not given before for that label or for `loc` |
| AnchorNames.DigitsAreDecimal | crates/typst-library/src/model/link.rs:595-595 | Numbers are written in decimal notation without zeros in front |
| Anchors.NumberedIsInjective | crates/typst-library/src/model/link.rs:595-595 | Text and number can be read off a numbered id |
| Anchors.LabelsNamedLocClash | crates/typst-library/src/model/link.rs:556-573 | Two targets with the label `loc` and one without a label: two ids coincide |
| Links.CreateLinkAnchors | crates/typst-html/src/link.rs:26-46 | Returns the rewritten nodes and the map of the traversal (`LinkNames.GivenAreNames`, `LinkIntegrity.LinkReads`); without targets nothing changes |
| Links.Linker.Traverse | crates/typst-html/src/link.rs:48-117 | The loop over the growing list, recursing into elements, gives the nodes and state of the list-processing specification, and terminates by the weight of the remaining nodes |
| Links.Linker.Assign | crates/typst-html/src/link.rs:192-205 | Reuses the id of the node or generates one for the label of the first waiting target, and maps all waiting targets to it |
| Links.Linker.TraverseFrame | crates/typst-html/src/link.rs:119-147 | Targets within frames get anchors at their points, in order |
| Links.Work.Drain | crates/typst-html/src/link.rs:169-178 | Everything waiting is mapped to the id and nothing waits any more |
| Links.Work.Remove | crates/typst-html/src/link.rs:180-189 | Takes out the first waiting entry of a location |
| Links.NothingToDo | crates/typst-html/src/link.rs:30-33 | Skipping the traversal for an empty target set makes no difference |
| LinkIntegrity.LinkReads | crates/typst-html/src/link.rs:48-117 | For all documents and states: the final map and queue are exactly what a reader finds who maps each target to the first content after its start tag in the final document |
| LinkIntegrity.IdsAreCarried | crates/typst-html/src/link.rs:26-46 | Every id in the map is carried by an element, frame or frame anchor of the final document |
| LinkIntegrity.ClosedTargetsAreLinked | crates/typst-html/src/link.rs:74-81 | A target whose end tag follows its start tag always has an id |
| LinkIntegrity.TargetGetsFirstContent | crates/typst-html/src/link.rs:83-110 | The first content after a target's start tag carries an id, and the target is mapped to that id |
| LinkIntegrity.LinkOnlyAnchors | crates/typst-html/src/link.rs:48-117 | The result is the input with ids added, spans around text and empty spans after end tags, and anchors at the points of frame targets; existing ids stay |
| LinkIntegrity.TraceIsKept | crates/typst-html/src/link.rs:48-117 | Tags, text and frames keep their order |
| LinkNames.GivenAreNames | crates/typst-html/src/link.rs:48-205 | For every document: a walk over the nodes before and after, which allows an id only on content that has none and settles waiting targets, on the span after the end tag of a waiting target, or at a target in a frame, succeeds; the ids it meets are the names for the labels of the first waiting target, the closed target or the frame target, in document order |
| LinkNames.GivenAreDistinctIff | crates/typst-html/src/link.rs:48-205 | The ids given out in the final document are distinct if and only if no repeated label `loc` meets a target without a usable label |
| EditDistance.NormalizedEditDistance | docs/assets/docs.js:1181-1215 | The two swapped rows give the distance of the compared units divided by their number, which for texts without surrogate pairs are the whole texts; the result is in [0, 1] and zero if and only if the compared units are equal |
| EditDistance.FillRow | docs/assets/docs.js:1199-1212 | Filling a row in place from the one above gives the next row of the full table |
| EditDistance.DistanceIsLeast | docs/assets/docs.js:1181-1215 | No script of insertions and deletions that turns one text into the other is cheaper |
| EditDistance.DistanceIsReached | docs/assets/docs.js:1181-1215 | Some script has exactly this cost |
| EditDistance.DistanceByCommon | docs/assets/docs.js:1190-1192 | The distance deletes and inserts everything outside a longest common subsequence |
| EditDistance.DistanceBounds | docs/assets/docs.js:1167-1180 | The distance lies between zero, for equal texts only, and everything deleted and inserted |
| EditDistance.WholeIsMeasured | docs/assets/docs.js:1183-1184 | Measuring in code points but indexing by code units compares the whole text if and only if it has no surrogate pair |
| EditDistance.PairHidesTheEnd | docs/assets/docs.js:1183-1209 | After a surrogate pair the last unit is not compared |
| Search.Hits.RegisterHit | docs/assets/docs.js:807-832 | A new hit fills a free place or replaces the first worst match if it is better; nothing else changes |
| Search.Hits.RegisterAll | docs/assets/docs.js:862-869 | After all hits the matches are the best ten |
| Search.TopTenStep | docs/assets/docs.js:807-832 | One hit, also one replaced before, keeps at most ten distinct matches and no better hit outside |
| Search.RunsKeepTheBest | docs/assets/docs.js:807-832 | The same after every sequence of hits |
| Dependents.TransitiveDependents | crates/typst-agent-dev/src/main.rs:1876-1891 | For every graph, also with cycles: exactly the packages other than the start that one or more reverse edges reach, and the queue runs empty |

## Left out

- Diagnostics, hints, spans, warnings, tracing and memoization: errors are reduced to their kind.
- Operators and grapheme segmentation are parameters of the evaluator; any operators will do, as long as they make no ill-placed functions (only for `WellPlacedProgramsAreNeverForbidden`).
- Content blocks and markup, field access and methods, set and show rules, imports, native functions, contexts and the standard library below the outermost scope.
- Symbols, bytes and content as values.
- `let` occurs as a statement of a code block only: nested in an expression it reads events of its siblings, and the visitor binds it even where evaluation skips it.
- Closures are those that a parser can produce: at most one spread per pattern and parameter list, one default per named parameter.
- Machine.Vm.EvalAssignment: only variables are assigned to, not fields, array elements or the results of accessor calls.
- Machine.Vm.EvalForLoop: no iteration over bytes, which are not among the values.
- Machine.Vm.EvalList: dictionary items have names, not computed keys.
- Machine.RunProgram: a program is a sequence of statements with a value, not markup that becomes a module.
- Early returns of the machine leave the state unspecified, as a failed evaluation discards it.
- MathArguments.EvalMathArgs: the arguments come evaluated, so errors and events of their expressions are not interleaved with the grouping.
- HtmlConvert.ConvertBlock: hidden and raw-text elements, `pre`, table cells, ruby, equations, soft line wraps and smart quotes do not occur. Text nodes have ids instead of addresses, and a wrapped node is flagged and replaced at the end.
- Default-ignorable characters are given by a predicate that excludes space and tab.
- RoundTrip.RoundTripIffSurvives: tree construction by implied end tags, table and template contexts or namespaces, obsolete void elements, and character references other than those the writer uses.
- Pretty printing and SVG frames of the encoder.
- MathMl.MathContext.HandleRealized: spacing elements and operator attributes are not pushed.
- MathMl.MathContext.HandleKind: primes, groups and polyfilled kinds do not occur.
- MathML spacing elements, operator attributes, groups that collapse onto a single child and scripts without any content, which overwrite attributes of the same element; sub-columns are cells of their own.
- Ids written by authors take part in the traversal, but not in `DistinctIffNoClash`.
- Points of targets in frames come from introspection and are a map here; frames are lists of tags, groups and drawings.
- Final sorting of search results by score, the binary search for words and the scores themselves, which are a function of the hit.
- Floating point: distances and scores are exact reals.
- The scoring and date arithmetic of the backlog, and everything that talks to files, processes or the network.
