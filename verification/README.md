# Career-coaching page: content selector

The coaching parody page (`src/App.tsx`) has one piece of logic under its
markup. A *content selector* holds four things: a copy mode (fun or serious),
the résumé line the visitor typed, the last generated roast, and the last
generated headline. Four user actions change it:

- the mode switch;
- the résumé text box;
- the roast button, which joins an intro, a roast line and a glyph with spaces;
- the headline button, which picks one headline.

Every generated text is drawn from constant pools that depend on the mode.

This project models that selector in Dafny as an immutable state and pure
transition functions:

- `content.dfy` (module `Content`): the mode, the pools, the pick operation
  and the per-mode pool selectors.
- `selector.dfy` (module `Selector`): the state and its four actions. It also
  has a decoder that splits a displayed roast back into its mode and
  fragments. The decoder is not part of the page. It is the inverse used to
  state that a roast never mixes fragments from the two modes.
- `session.dfy` (module `Session`): sequences of user actions from the
  initial state, and what holds of every state a session can reach.

The page draws its random index with `Math.floor(Math.random() * length)`.
Here that index is an explicit argument, which the caller must keep in range.

## Model

| member | source | states |
|---|---|---|
| `Content.Flip` | src/App.tsx:47 | the switch always reports the mode other than the current one |
| `Content.RandomPick` | src/App.tsx:100-102 | a pick with an in-range index returns an entry of the pool |
| `Content.PickCovers` | src/App.tsx:100-102 | every entry of a pool is returned by some in-range pick |
| `Content.HeadlinePool` | src/App.tsx:110 | the headline pool has 5 entries. In fun mode it holds every fun headline and no serious one. In serious mode it holds every serious headline and no fun one. |
| `Content.RoastPool` | src/App.tsx:111 | the roast-line pool has 8 entries in fun mode and 7 in serious mode. In each mode it holds every line of that mode's list and no line of the other list. |
| `Content.Intros` | src/App.tsx:114 | in fun mode the intro source is exactly the 5 intros of line 77. In serious mode it is the single fixed "Suggestion:", which is not a fun intro. |
| `Content.Tags` | src/App.tsx:116 | in fun mode the glyph source is exactly the 4 glyphs of line 116. In serious mode it is the single check mark, which is not a fun glyph. |
| `Content.HeadlinePoolsDisjoint` | src/App.tsx:61-75 | no headline is in both the fun and the serious list |
| `Content.RoastPoolsDisjoint` | src/App.tsx:79-98 | no roast line is in both the fun and the serious list |
| `Content.SeriousFragmentsAreNotFun` | src/App.tsx:114-116 | neither "Suggestion:" nor the check mark is among the fun intros or glyphs |
| `Content.PoolSizes` | src/App.tsx:61-98 | the pools have 5, 5, 5, 8 and 7 entries, and the glyph list has 4 |
| `Selector.Init` | src/App.tsx:105-108 | a session starts in fun mode with an empty résumé text and no roast or headline |
| `Selector.Toggle` | src/App.tsx:137 | a switch click changes the mode and leaves the résumé text, roast and headline as they were |
| `Selector.ToggleTwice` | src/App.tsx:137 | two switch clicks give back the original state |
| `Selector.SetResumeText` | src/App.tsx:196 | an edit stores the typed text verbatim and changes nothing else |
| `Selector.SetResumeTextLastWins` | src/App.tsx:196 | only the last edit counts, so repeating an edit has no effect |
| `Selector.HeadlineModeOf` | src/App.tsx:61-75 | a text is classified as mode `m` exactly when it is in `m`'s headline pool |
| `Selector.GenerateHeadline` | src/App.tsx:120-123 | the new headline is in the current mode's pool and is classified as that mode; mode, résumé text and roast stay as they were |
| `Selector.GenerateHeadlineCovers` | src/App.tsx:120-123 | every headline of the current mode's pool can come out of a click |
| `Selector.Compose` | src/App.tsx:117 | the roast text is the intro, a space, the line, a space and the glyph, in that order, with nothing else; its inverse is `Selector.DecodeRoast`, and `Selector.DecodeCompose` proves the round trip |
| `Selector.DecodeRoast` | src/App.tsx:113-118 | a decoded roast has all three fragments from one mode's sources, and joining them gives back the text |
| `Selector.SourcesDistinguishable` | src/App.tsx:114-116 | in each mode the intros differ in their first character and the glyphs in their last; no fun glyph ends in the check mark |
| `Selector.ClosingGlyphTellsMode` | src/App.tsx:116 | a joined roast ends in the check mark exactly when its glyph was drawn for serious mode |
| `Selector.DecodeCompose` | src/App.tsx:113-118 | decoding a roast built from one mode's sources gives back exactly that mode and those fragments |
| `Selector.RoastModeDecided` | src/App.tsx:113-118 | a text is a roast of mode `m` exactly when it decodes to mode `m`, so no text is a roast of both modes |
| `Selector.RoastDraw` | src/App.tsx:114-116 | the drawn fragments all come from the current mode's sources; the line is entry `j` of the current pool; fun mode uses intro `i` and glyph `k`; serious mode always uses "Suggestion:" and the check mark |
| `Selector.GenerateRoast` | src/App.tsx:113-118 | the new roast is a roast of the current mode and decodes to the drawn fragments; mode, résumé text and headline stay as they were |
| `Selector.GenerateRoastCovers` | src/App.tsx:113-118 | every roast of the current mode can come out of a click with in-range indices |
| `Selector.RoastIgnoresResumeText` | src/App.tsx:113-118 | the roast is the same whatever the résumé box holds |
| `Selector.FirstFunRoast` | src/App.tsx:77-117 | with every index 0, the fun-mode roast is "Spicy take:", the houseplant line and the flame, joined by spaces |
| `Selector.FirstSeriousRoast` | src/App.tsx:90-117 | with every index 0, the serious-mode roast is "Suggestion:", the "Tighten your summary" line and the check mark, joined by spaces |
| `Selector.FirstHeadlines` | src/App.tsx:61-75 | with index 0, the headline is "Vision Realizer ..." in fun mode and "Senior Software Engineer ..." in serious mode |
| `Session.Step` | src/App.tsx:137-244 | each event changes only its own field. The switch flips the mode. An edit stores the typed text. The roast button stores a roast of the current mode. The headline button stores a headline from the current mode's pool. |
| `Session.RunKeepsConsistent` | src/App.tsx:110-123 | from a consistent state, every run keeps the shown roast decodable into one mode's fragments and the shown headline in one mode's pool |
| `Session.ReachableConsistent` | src/App.tsx:105-123 | every state reachable from the initial state is consistent in that sense |
| `Session.RunMode` | src/App.tsx:137 | after a run, the mode is flipped exactly when the switch was clicked an odd number of times |
| `Session.RunResumeText` | src/App.tsx:196 | after a run, the résumé text is the last text typed, or the old text if nothing was typed |
| `Session.RunKeepsGenerated` | src/App.tsx:110-123 | a run without roast clicks keeps the shown roast, and a run without headline clicks keeps the shown headline, however often the mode changes |

Two modelling choices follow the code directly:

- The page changes the mode only through the switch. The switch passes the
  negation of the current mode (lines 47 and 137). So the model has the
  click, `Toggle`, and no setter that takes any mode.
- In serious mode, `generateRoast` draws no intro and no glyph
  (lines 114 and 116). So the intro and glyph indices must be in range only
  in fun mode.

## Left out

- Rendering and styling: the helper components `Button`, `Card`,
  `CardHeader`, `CardTitle`, `CardContent` and `Badge`, the markup of
  `Switch` apart from its click handler, and the page layout
  (src/App.tsx:9-58, 125-308). These are presentation only, with no state.
- framer-motion animations and image imports (src/App.tsx:1-6): foreign
  library calls and static assets.
- `Math.random()` and `Math.floor` in `randomPick`: floating point and an
  unseeded generator. They become an explicit index with `i < |pool|`. That
  is the range `Math.floor(Math.random() * length)` always falls in.
- React's `useState` and `useMemo`: the state is an explicit record, and the
  memoised pools are plain functions of the mode.
- The footer year from `new Date().getFullYear()` (src/App.tsx:302): it
  depends on the system clock.
- `vite.config.ts`: build configuration (the deployment base path), with no
  behaviour.
- The mode-dependent placeholder, button and heading copy
  (src/App.tsx:136-291): display strings chosen by the mode, with nothing
  derived from them.
- Text length: Dafny strings are sequences of Unicode code points. The
  page's strings are sequences of UTF-16 code units, so "🔥" has
  length 2 on the page and 1 here. This changes nothing observable, because
  the page never measures or indexes a string.
- Selector.FirstFunRoast: the expected roast is written as its three
  literal pieces joined by spaces, not as one literal. The verifier does not
  evaluate joins of string literals longer than about sixty characters. The
  value is the same.
- Selector.FirstSeriousRoast: the expected roast is written as literal
  pieces, for the same reason.
