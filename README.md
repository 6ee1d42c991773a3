# Audio and accordion plugins for a rich-text editor, in Dafny

This project models the logic of two small editor plugins.

**Audio support** (`src/AudioSupport/audioupload/utils.js`) covers several pieces of logic:
- It builds the anchored `audio/<subtype>` media-type pattern from a list of accepted subtypes.
- It decides whether an `audio` element's `src` is embedded in the document (`data:audio/…;base64,` or `blob:`).
- It picks the MIME type and the `audio.<ext>` file name of an embedded payload.
- It decides whether audio may be inserted at the selection.
- It inserts an audio element and selects it.
- It finds the `audio` view element inside an audio widget's `figure`.
- It tells whether a drop or paste carries HTML.

**Accordion item** (`src/AccordionItem/AccordionItemEditing.js`) covers four things:
- the three model elements the plugin registers, with their schema properties;
- the child check that forbids an accordion item directly inside an accordion description;
- the fragment `createAccordionItem` builds through the model writer;
- the insert command's `refresh`, and the table of view descriptors its converters use.

Modules:
- `Optional`: the `Option` value that stands for `null`/`undefined`.
- `Strings`: JavaScript's `\w` class, ASCII `toLowerCase`, and `String.prototype.replace` with a string pattern.
- `EditorTree`: elements, text nodes, element paths and positions of the editor's trees.
- `MediaTypePattern`: `createAudioMediaTypeRegExp`.
- `LocalAudio`: `isLocalAudio`, `getAudioMimeType`, and the file name in `fetchLocalAudio`.
- `AudioInsertion`: the insertion rules, `insertAudio` as a method of an editor-model class, and `isHtmlIncluded`.
- `WidgetAudio`: `getViewAudioFromWidget`, as a method with the source's two loops.
- `AccordionSchema`: the registrations, the child check, and the converter table.
- `AccordionItemEditing`: a handle-based model writer, `createAccordionItem`, and `InsertAccordionItemCommand.refresh`.

The host editor's own services are parameters of the model. These are `findOptimalInsertionPosition`, `schema.checkChild`, `schema.isObject`, `schema.findAllowedParent` and `model.insertContent`. Nothing is assumed about them.

The pattern is modelled as its source text, not as a regular-expression engine. `LiteralAlternatives` reads a group back as a disjunction of literal strings. It gives `None` when the text uses any other regular-expression syntax. `PatternAccepts` states what an anchored pattern in that literal fragment accepts.

## Model

| member | source | states |
|---|---|---|
| `MediaTypePattern.PatternText` | src/AudioSupport/audioupload/utils.js:3-6 | `createAudioMediaTypeRegExp`: the subtypes, each with its first `+` escaped, joined with bars inside `^audio\/(` and `)$`; the group between prefix and suffix reads back as the joined text |
| `MediaTypePattern.EscapeFirstPlus` | src/AudioSupport/audioupload/utils.js:4 | a subtype without `+` is unchanged; a subtype with a `+` grows by exactly one character |
| `MediaTypePattern.EscapeFirstPlusIsReplaceFirst` | src/AudioSupport/audioupload/utils.js:4 | the escaping is exactly `Strings.ReplaceFirst` with the pattern `+`, the same reading of `replace` as for the file name |
| `MediaTypePattern.EscapeFirstPlusSplices` | src/AudioSupport/audioupload/utils.js:4 | the escaping inserts `\` before the first `+` and changes nothing else, so later `+` signs are left as they are |
| `MediaTypePattern.OnePlusEscapesAlike` | src/AudioSupport/audioupload/utils.js:4 | for a subtype with at most one `+`, escaping the first `+` equals escaping every `+` |
| `MediaTypePattern.JoinsAgree` | src/AudioSupport/audioupload/utils.js:4-5 | for subtypes with at most one `+` each, the joined group text is the same under either escaping |
| `MediaTypePattern.JoinedTokensReadBack` | src/AudioSupport/audioupload/utils.js:4-5 | the escaped subtypes joined with bars read back as exactly the subtypes, one alternative each, in order |
| `MediaTypePattern.PatternAcceptsExactlyTheTypes` | src/AudioSupport/audioupload/utils.js:3-6 | for subtypes with at most one `+`, the pattern's alternatives are the subtypes, and a media type is accepted iff it is the whole string `audio/` + one of them; with no subtypes, only `audio/` is accepted |
| `MediaTypePattern.EmptyTypesPattern` | src/AudioSupport/audioupload/utils.js:5 | an empty list gives the text `^audio\/()$`, which accepts the bare `audio/` |
| `MediaTypePattern.SecondPlusLeftUnescaped` | src/AudioSupport/audioupload/utils.js:4 | the subtype `x+y+z` becomes `x\+y+z`, whose second `+` is a quantifier, so the group is no longer a literal alternative |
| `MediaTypePattern.CorrectedPatternAcceptsExactlyTheTypes` | src/AudioSupport/audioupload/utils.js:3-6 | with every `+` escaped, the pattern accepts exactly `audio/` + one of the subtypes, whatever their number of `+` signs |
| `Strings.ReplaceFirst` | src/AudioSupport/audioupload/utils.js:21 | `replace` with a string pattern changes only the leftmost occurrence; no occurrence means no change |
| `Strings.LowerAscii` | src/AudioSupport/audioupload/utils.js:44 | `toLowerCase` keeps the length and lowers each ASCII capital |
| `LocalAudio.WordRun` | src/AudioSupport/audioupload/utils.js:36 | the greedy `\w+` run is made of word characters and is followed by none |
| `LocalAudio.StartsWithDataAudio` | src/AudioSupport/audioupload/utils.js:36 | the anchored `data:audio/<word chars>;base64,` test, read greedily; its meaning is proved by `StartsWithDataAudioIff` |
| `LocalAudio.GreedySplitIff` | src/AudioSupport/audioupload/utils.js:36-44 | reading the longest word run is the same as some split `data:audio/`, word characters, then a tail that starts with a non-word character |
| `LocalAudio.StartsWithDataAudioIff` | src/AudioSupport/audioupload/utils.js:36 | the greedy reading holds iff `src` splits as `data:audio/`, one or more word characters, `;base64,`, anything |
| `LocalAudio.IsLocalAudio` | src/AudioSupport/audioupload/utils.js:31-38 | only an `audio` element with a `src` can be local |
| `LocalAudio.IsLocalAudioMeaning` | src/AudioSupport/audioupload/utils.js:31-38 | local iff an `audio` element whose `src` is present, not empty, and starts with `data:audio/<word chars>;base64,` or `blob:` |
| `LocalAudio.DataAudioAt` | src/AudioSupport/audioupload/utils.js:43 | a match at an index gives a non-empty run that fits inside `src` |
| `LocalAudio.DataAudioAtIff` | src/AudioSupport/audioupload/utils.js:43 | the unanchored pattern matches at an index iff `src` splits there as `data:audio/`, word characters, `;base64`; the reported run is such a split |
| `LocalAudio.FirstDataAudio` | src/AudioSupport/audioupload/utils.js:43-44 | a found index is at or after the start and the pattern matches there with the reported run |
| `LocalAudio.DataAudioCapture` | src/AudioSupport/audioupload/utils.js:44 | group 1 of the match: the `audio/<word chars>` text at the leftmost match, if any |
| `LocalAudio.FirstDataAudioIsLeftmost` | src/AudioSupport/audioupload/utils.js:43-44 | the search stops at the leftmost index where `data:audio/<word chars>;base64` matches, and fails only if it matches nowhere |
| `LocalAudio.AudioMimeType` | src/AudioSupport/audioupload/utils.js:40-49 | never empty; a non-empty blob type is kept; otherwise the leftmost capture anywhere in `src`, lower-cased, which is `audio/` + lower-case word characters; `audio/mp3` when nothing matches |
| `LocalAudio.LocalFileName` | src/AudioSupport/audioupload/utils.js:21-22 | the name is `audio.` + the type with its first `audio/` removed, wherever it occurs, or with the type unchanged when it has no `audio/` |
| `LocalAudio.LocalAudioFile` | src/AudioSupport/audioupload/utils.js:20-23 | the file's type is the resolved MIME type and its name is always the file name derived from that type; without a blob type the name is `audio.` + a lower-case subtype, and `audio.mp3`/`audio/mp3` without a match |
| `LocalAudio.UpperCaseDataSourceExample` | src/AudioSupport/audioupload/utils.js:20-22 | `data:audio/MP3;base64,AA` with no blob type gives the file `audio.mp3` of type `audio/mp3` |
| `AudioInsertion.InsertAudioParent` | src/AudioSupport/audioupload/utils.js:98-108 | the chosen parent is the insertion parent, or its own parent exactly when the insertion parent is empty and not `$root` |
| `AudioInsertion.CheckSelectionOnObject` | src/AudioSupport/audioupload/utils.js:60-64 | true iff an element is selected and the schema calls it an object |
| `AudioInsertion.IsInOtherAudio` | src/AudioSupport/audioupload/utils.js:66-68 | true iff no ancestor of the focus is an `audio` element, despite the name |
| `AudioInsertion.IsAudioAllowedInParent` | src/AudioSupport/audioupload/utils.js:110-114 | the schema is asked about the insertion parent's path, or about its parent's path when the insertion parent is empty and not `$root` |
| `AudioInsertion.IsAudioAllowed` | src/AudioSupport/audioupload/utils.js:116-123 | audio is allowed iff the schema allows it in the chosen parent, no object is selected, and the focus has no `audio` ancestor |
| `AudioInsertion.NoAudioInsideAudio` | src/AudioSupport/audioupload/utils.js:66-68 | with an `audio` ancestor of the focus, audio is refused whatever the schema says |
| `AudioInsertion.IsHtmlIncluded` | src/AudioSupport/audioupload/utils.js:8-10 | true iff `text/html` is among the types and its data is present and not empty |
| `AudioInsertion.EditorModel.InsertAudio` | src/AudioSupport/audioupload/utils.js:84-96 | the caller's attributes gain `controls`; the new `audio` element carries them; the document becomes the root `insertContent` reports; the element is selected iff it got a parent, and otherwise the selection is unchanged |
| `WidgetAudio.CandidatesAreChildrenAndGrandchildren` | src/AudioSupport/audioupload/utils.js:70-79 | the searched list holds exactly the figure's children and the children of its element children |
| `WidgetAudio.GetViewAudioFromWidget` | src/AudioSupport/audioupload/utils.js:70-82 | the result is the first `audio` element of that list, each child followed by its own children; `None` iff there is none |
| `WidgetAudio.DeepAudioIsNotFound` | src/AudioSupport/audioupload/utils.js:70-82 | an `audio` element three levels below the figure is never reached |
| `AccordionSchema.ModelNameInjective` | src/AccordionItem/AccordionItemEditing.js:57-83 | the three registered names are distinct |
| `AccordionSchema.Registration` | src/AccordionItem/AccordionItemEditing.js:57-83 | only the item is an object, allowed where `$block` is; the title and the description are limits allowed in `accordionItem` |
| `AccordionSchema.AccordionChildCheck` | src/AccordionItem/AccordionItemEditing.js:85-89 | never says yes; says no iff the context ends with a description and the child is an accordion item; gives no verdict otherwise |
| `AccordionSchema.CheckChild` | src/AccordionItem/AccordionItemEditing.js:85-89 | combined with any registered rules, the nesting is refused and every other answer is the rules' own |
| `AccordionSchema.NestingOneLevelDownIsNotVetoed` | src/AccordionItem/AccordionItemEditing.js:86 | only the innermost context item is looked at: an item inside an item inside a description gets no verdict |
| `AccordionSchema.DataView` | src/AccordionItem/AccordionItemEditing.js:103-157 | the data-downcast descriptors: `details.accordion-item`, `summary.accordion-item-title`, `div.accordion-item-description`; the round trip is proved by `DataRoundTrip` |
| `AccordionSchema.EditingView` | src/AccordionItem/AccordionItemEditing.js:110-165 | the editing-downcast names and classes; how they differ from the data view is proved by `EditingDiffersOnlyForDescription` |
| `AccordionSchema.UpcastView` | src/AccordionItem/AccordionItemEditing.js:96-157 | a view element upcasts to an element iff it has that element's data-view name and at least its classes |
| `AccordionSchema.DataRoundTrip` | src/AccordionItem/AccordionItemEditing.js:96-157 | data downcast followed by upcast gives the element back |
| `AccordionSchema.DataViewInjective` | src/AccordionItem/AccordionItemEditing.js:103-157 | no two elements share a data view, so the table is a bijection |
| `AccordionSchema.UpcastRoundTrip` | src/AccordionItem/AccordionItemEditing.js:96-157 | upcast then data downcast gives back a view that carries exactly the descriptor's classes |
| `AccordionSchema.EditingDiffersOnlyForDescription` | src/AccordionItem/AccordionItemEditing.js:110-165 | the editing view equals the data view except for the description, which is a `p`; the `p` is not upcast |
| `AccordionItemEditing.Writer.CreateElement` | src/AccordionItem/AccordionItemEditing.js:26-28 | `createElement`: a new handle after all existing ones, with the given name, no children and no parent; the store stays well formed |
| `AccordionItemEditing.Writer.Append` | src/AccordionItem/AccordionItemEditing.js:30-31 | `append`: the child is added last among the parent's children and nothing else changes |
| `AccordionItemEditing.Writer.AppendElement` | src/AccordionItem/AccordionItemEditing.js:35 | `appendElement`: a new element added last among the parent's children |
| `AccordionItemEditing.ItemTreeIsTemplate` | src/AccordionItem/AccordionItemEditing.js:25-38 | the four handles the writer calls leave behind read back as the item with its title and its description holding a paragraph |
| `AccordionItemEditing.CreateAccordionItem` | src/AccordionItem/AccordionItemEditing.js:25-38 | returns a new item whose children are an empty title then a description holding exactly one empty paragraph; nothing the writer held before changes |
| `AccordionItemEditing.TemplateFitsRegistration` | src/AccordionItem/AccordionItemEditing.js:57-83 | the built item's children are the two elements registered as allowed in the item |
| `AccordionItemEditing.TemplateVetoedOnlyInDescription` | src/AccordionItem/AccordionItemEditing.js:85-89 | the built item is refused iff the context ends with a description; nothing inside it is refused by the check |
| `AccordionItemEditing.InsertAccordionItemCommand.Refresh` | src/AccordionItem/AccordionItemEditing.js:16-22 | the command is enabled iff an allowed parent for `accordionItem` exists at the selection's first position |

## Left out

- The network `fetch`, `blob()`, `File` construction and the Promise in `fetchLocalAudio` (utils.js:12-29) are I/O. Only the MIME type and file name of the file are modelled.
- `getAudiosFromChangeItem` (utils.js:51-55) only filters the items of a host range (`createRangeOn`), which is host engine code and is not part of this model.
- `InsertAccordionItemCommand.execute` (AccordionItemEditing.js:7-14) is host plumbing around `createAccordionItem` and `insertContent`.
- Several host services are parameters with no behaviour of their own: `findOptimalInsertionPosition`, `checkChild`, `isObject`, `findAllowedParent` and `insertContent`. The same holds for the declared-rule half of `checkChild` in `AccordionSchema.CheckChild`. `allowWhere` and `allowContentOf` are recorded, not given a meaning.
- `toWidget`/`toWidgetEditable` rendering, labels, and the container/editable distinction of the editing view are left out. Only the view names and classes are kept.
- `console.log` calls are left out.
- The plugin registration (`init`, `requires`, command registration) is left out.
- The UI files and the plugin wiring files are not part of this model.
- `LocalAudio.IsLocalAudio` returns a boolean, while the source returns a match array or `null`. Callers only test it for truth.
- `Strings.LowerAscii` lowers ASCII capitals only. That is all a `\w` capture can contain.
- `MediaTypePattern.PatternAccepts` decides acceptance only for patterns whose group is a disjunction of literal strings. It says `None` for any other pattern instead of running a regular-expression engine.
- `AccordionItemEditing.Writer.Append` models appending an element that has no parent yet. Moving an attached element, and nodes other than elements, are not modelled.
- The writer's element tree is read out with fuel equal to the number of handles (`Build`). `AccordionItemEditing.Writer.Append` does not rule out appending an element to one of its own descendants, which the engine refuses. Such a cycle would be cut off at that depth. For the tree `CreateAccordionItem` builds, `ItemTreeIsTemplate` shows the read-out is the whole tree.
- `AudioInsertion.EditorModel.InsertAudio` takes the new document, and the ancestors of a placed element, from the `insertContent` parameter. Where `insertContent` places the element, and what it does with one it cannot place, is the host's business.
- The attributes object defaults to a fresh empty object when the caller passes none. In the model, the caller always passes an `Attributes` object.
- Empty subtype list: the pattern built from no subtypes is `^audio\/()$`, which accepts the bare `audio/`. The code is followed here.

## Findings

| source | as written | input that shows it | evidently intended | confidence | as-written member | corrected member |
|---|---|---|---|---|---|---|
| src/AudioSupport/audioupload/utils.js:4 | `type.replace('+', '\\+')` escapes only the first `+` of a subtype | the subtype `x+y+z` gives the group `x\+y+z`; the model proves this group is not a disjunction of literals; read as a regular expression, `y+` repeats `y`, so `audio/x+y+z` itself would not match | every `+` escaped, so each subtype is matched literally | not executed; medium, since subtypes with two `+` signs are rare | `MediaTypePattern.SecondPlusLeftUnescaped` | `MediaTypePattern.CorrectedPatternAcceptsExactlyTheTypes` |
