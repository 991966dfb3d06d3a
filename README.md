# Gallery widget: lightbox, filter and download name in Dafny

`script.js` drives a page of image cards. Clicking a card opens a modal
lightbox on that card. Inside the lightbox the arrow keys move to the next or
previous card, the list wraps round, Escape closes it and `+` toggles a zoom.
A search box and a category select hide the cards that do not match.

This project models that script in five modules:

- `Strings` (`strings.dfy`) holds the JavaScript string operations the script
  relies on. `trim` uses ECMAScript's white-space set. `toLowerCase` covers the
  ASCII letters. `includes` is written as substring search, and `split` and
  `pop` for a one-character separator.
- `Cards` (`cards.dfy`) holds the card records read from the markup and the
  `||` fall-backs. It also has JavaScript's truncating `%`, including the
  `NaN` from `% 0` in an empty gallery, and the download name
  `full.split('/').pop()`.
- `Lightbox` (`lightbox.dfy`) is the lightbox as a state machine over a value
  `View`, holding every field the handlers write. `Open`, `Close`, `Next`,
  `Prev` and `Key` are functions on it, with the lemmas about them.
- `Filter` (`filter.dfy`) is the per-card decision of `applyFilter` and its
  properties.
- `Gallery` (`widget.dfy`) is class `Widget`. Its fields are the ones the
  script overwrites in place. Its methods `OpenLB`, `CloseLB`, `ShowNext`,
  `ShowPrev`, `OnKeydown` and `ApplyFilter` run the script's statements. Each
  one is proved to leave exactly the state that the `Lightbox` or `Filter`
  function prescribes. `ApplyFilter` keeps the source's loop over the cards
  and writes one `display` entry per card.

JavaScript errors are modelled where the code raises them:

- A card without an `<img>` throws a `TypeError` in `openLB` before anything
  is written.
- A card without an `<h3>` throws after the big image's `src` and `alt` are
  written.
- A neighbour without an `<img>` throws in `preloadImage`, which skips the
  second preload.

Each of these is an early return that leaves the fields as they are at that
point.

Two consequences of the code are worth knowing:

- `openLB` and `closeLB` never write `transform`, so a zoomed image stays
  zoomed after navigating, closing and reopening
  (`Lightbox.TransformOnlyByZoom`).
- The tags are lower-cased but the category value is not, so a category with
  an upper-case letter never matches (`Filter.UpperCategoryNeverMatches`).

The navigation lemmas `NextStep`, `PrevStep`, `NavigationWraps`,
`NextPrevReturn`, `NextNIndex` and `NextCycle` assume a complete gallery,
where every card has an `<img>` and an `<h3>`. Outside that assumption,
`openLB` throws before it writes `index`. Pressing next at a card whose
successor lacks either element therefore stays on the same index, and so
does pressing it again (`Lightbox.NavigationStalls`).

`Cards.CardAt` is JavaScript's `cards[i]`: a card for a non-negative integer
index below the length, `undefined` for every other value including `NaN`.
`Lightbox.OpenMissingIsNoop` and `Lightbox.OpenShowsCard` state what `openLB`
does in each case.

## Model

| member | source | states |
|---|---|---|
| Strings.Lower | script.js:88 | lower-casing keeps the length, maps each ASCII letter `A`-`Z` to the letter 32 code points above it in `a`-`z`, and keeps every other character |
| Strings.Lead | script.js:88 | the count of leading characters removed by `trim`: all white space, and the next one is not |
| Strings.Trail | script.js:88 | the count of trailing characters removed by `trim`: all white space, and the one before is not |
| Strings.TrimSpec | script.js:88 | `trim` keeps the infix of the input between its first and last non-space characters, and everything it cuts is white space |
| Strings.TrimInfix | script.js:88 | the trimmed text is the infix of the input that starts after the leading white space |
| Strings.TrimTail | script.js:88 | everything after the trimmed text is white space |
| Strings.TrimEnds | script.js:88 | a non-empty trimmed text neither starts nor ends with white space |
| Strings.TrimLower | script.js:88 | trimming and lower-casing commute: lower-casing neither creates nor removes white space |
| Strings.LowerIdempotent | script.js:88 | lower-casing twice is lower-casing once |
| Strings.ContainsIff | script.js:95 | `includes` holds exactly when the needle occurs at some position of the haystack |
| Strings.Split | script.js:96 | `split` on one character gives at least one piece, and no piece contains the separator |
| Strings.JoinSplit | script.js:96 | splitting loses nothing: joining the pieces with the separator gives the string back |
| Strings.SplitSingle | script.js:96 | there is exactly one piece, the whole string, exactly when the separator does not occur |
| Strings.LastPieceStep | script.js:30 | the last piece of a string is the string itself or the last piece of its tail, according to where the separator occurs |
| Strings.SplitLast | script.js:30 | the last piece is a suffix of the string; it is the whole string when there is no separator, and otherwise it follows a separator |
| Cards.FilenameSpec | script.js:30 | the download name has no `/`, `full` ends with it, it is all of `full` when there is no `/`, and otherwise it follows the last `/` |
| Cards.TruncRem | script.js:36-37 | JavaScript `%`: the mathematical remainder for a non-negative dividend; for a negative one a value in `(-n, 0]` with `a - r` equal to `-((-a) / n) * n`, the remainder of truncating division |
| Cards.JsRem | script.js:55-56 | `% cards.length` is `NaN` exactly when the gallery is empty; otherwise it is `a % n` for a non-negative dividend, and the truncated remainder in `(-n, 0]` for a negative one |
| Cards.NeighboursValid | script.js:36-37 | from a valid index the next and previous slots are the cyclic successor and predecessor; from the closed marker -1 the next slot is card 0 and the previous slot names some card; both always name a card |
| Cards.EmptyGalleryNaN | script.js:55-56 | in an empty gallery both navigation slots are `NaN` |
| Cards.WrapAround | script.js:55-56 | the slot after the last card is 0, and the slot before card 0 is the last card |
| Cards.NextPrevInverse | script.js:55-56 | the next slot of the previous slot, and the previous slot of the next slot, is the starting index |
| Lightbox.OpenMissingIsNoop | script.js:20-22 | opening an index with no card, out of range or `NaN`, changes nothing |
| Lightbox.OpenIncompleteCard | script.js:23-27 | opening a card without an image changes nothing; opening one without a heading writes only the image's `src` and `alt` |
| Lightbox.OpenShowsCard | script.js:24-34 | after opening a valid card: index is `i`, shown, `aria-hidden` is `false`, overflow is `hidden`, `src` and `href` are `data-full` or else the thumbnail `src`, alt, title and description come from the card (defaulting to `''`), the download name is derived from the URL, and the zoom is unchanged |
| Lightbox.OpenPreloadsNeighbours | script.js:36-37 | when card `i` has an image and a heading and every card has an image, opening card `i` preloads exactly its cyclic successor and then its predecessor |
| Lightbox.OpenPreloadsValid | script.js:36-45 | opening preloads at most two indices, each a real card |
| Lightbox.OpenKeepsInv | script.js:17-32 | opening keeps the invariant: shown exactly when the index is not -1, and then the index is valid |
| Lightbox.CloseResets | script.js:47-53 | closing sets index -1, not shown, `aria-hidden` `true`, overflow `''`, `src` `''`; it keeps the invariant and the zoom; closing twice is closing once |
| Lightbox.OpenThenClose | script.js:20-53 | from the initial page, opening any index and closing gives back the initial index, visibility, `aria-hidden`, overflow, `src` and zoom |
| Lightbox.InitialInv | script.js:17 | the initial page satisfies the invariant |
| Lightbox.NavigateEmpty | script.js:55-56 | next and previous do nothing in an empty gallery |
| Lightbox.NextStep | script.js:55 | in a complete gallery (every card with an `<img>` and an `<h3>`), next from a shown card shows the cyclic successor with the zoom unchanged |
| Lightbox.PrevStep | script.js:56 | in a complete gallery, previous from a shown card shows the cyclic predecessor with the zoom unchanged |
| Lightbox.NavigationWraps | script.js:55-56 | in a complete gallery, next from the last card shows card 0, and previous from card 0 shows the last card |
| Lightbox.NextPrevReturn | script.js:55-56 | in a complete gallery, next then previous, and previous then next, show the starting card again |
| Lightbox.NavigationStalls | script.js:23-31 | from a shown card whose successor lacks an `<img>` or an `<h3>`, next keeps the index and the lightbox shown, and so does a second next |
| Lightbox.NextNIndex | script.js:55 | in a complete gallery, `k <= n` presses of next from card `i` show card `i + k` counted round the cycle |
| Lightbox.NextCycle | script.js:55 | in a complete gallery, `n` presses of next give back the starting card |
| Lightbox.KeyWhileHidden | script.js:72-73 | keys do nothing while the lightbox is hidden |
| Lightbox.KeyDispatch | script.js:73-78 | while shown, Escape closes, ArrowRight is next, ArrowLeft is previous, `+` toggles only the zoom, and any other key does nothing |
| Lightbox.ZoomTwice | script.js:77 | the toggle always yields one of the two scales, and two toggles restore the transform exactly when it was one of them |
| Lightbox.TransformOnlyByZoom | script.js:20-56 | opening, closing and navigating never change the transform |
| Lightbox.KeyKeepsInv | script.js:72-78 | the key handler keeps the invariant |
| Lightbox.KeyPreloadsValid | script.js:72-78 | every preload a key triggers is a real card |
| Strings.Trim | script.js:88 | `trim()`: defined by cutting `Lead` then `Trail` characters; its properties are in `TrimSpec`, `TrimInfix`, `TrimTail`, `TrimEnds` and `TrimLower` |
| Strings.Contains | script.js:95 | `includes()`: defined by trying each start position; characterised by `ContainsIff` |
| Strings.Join | script.js:96 | `join()`, the inverse of `Split` used by `JoinSplit` |
| Strings.LastPiece | script.js:30 | `split(c).pop()`; its properties are in `LastPieceStep` and `SplitLast` |
| Cards.OrElse | script.js:24-28 | `x \|\| d` for an attribute that may be missing or empty; used by `Lightbox.OpenShowsCard`, whose row states the fall-backs |
| Cards.FullUrl | script.js:24 | `img.dataset.full \|\| img.src`; `Lightbox.OpenShowsCard` states the resulting `src` and `href` |
| Cards.Filename | script.js:30 | `full.split('/').pop()`; its properties are in `FilenameSpec` |
| Cards.NextSlot | script.js:55 | `(i+1) % cards.length`; tied to the cyclic successor by `NeighboursValid` |
| Cards.PrevSlot | script.js:56 | `(i-1+cards.length) % cards.length`; tied to the cyclic predecessor by `NeighboursValid` |
| Lightbox.Open | script.js:20-34 | `openLB(i)` on the lightbox state; its properties are in `OpenMissingIsNoop`, `OpenIncompleteCard`, `OpenShowsCard`, `OpenKeepsInv` and `TransformOnlyByZoom`, and `Gallery.Widget.OpenLB` is proved to compute it |
| Lightbox.Preload | script.js:40-45 | `preloadImage(cards[j])`: no request for an undefined card, a throw for a card without `<img>`, else that index |
| Lightbox.NeighbourRequests | script.js:36-37 | the two preloads of `openLB`, the second skipped after a throw; properties in `OpenPreloadsNeighbours` and `OpenPreloadsValid` |
| Lightbox.OpenPreloads | script.js:20-37 | the indices `openLB(i)` preloads; properties in `OpenPreloadsNeighbours` and `OpenPreloadsValid` |
| Lightbox.Close | script.js:47-53 | `closeLB()`; its properties are in `CloseResets` and `OpenThenClose` |
| Lightbox.Next | script.js:55 | `showNext()`; its properties are in `NextStep`, `NavigationWraps`, `NextPrevReturn`, `NextCycle`, `NavigateEmpty` and `NavigationStalls` |
| Lightbox.Prev | script.js:56 | `showPrev()`; its properties are in `PrevStep`, `NavigationWraps`, `NextPrevReturn` and `NavigateEmpty` |
| Lightbox.Key | script.js:72-78 | the window `keydown` handler; its properties are in `KeyWhileHidden`, `KeyDispatch` and `KeyKeepsInv` |
| Lightbox.KeyPreloads | script.js:72-78 | the preloads the key handler triggers; property in `KeyPreloadsValid` |
| Lightbox.Zoom | script.js:77 | the `'+'` toggle of the transform; its property is in `ZoomTwice` |
| Lightbox.NextN | script.js:55 | `n` presses of next; its properties are in `NextNIndex` and `NextCycle` |
| Filter.Query | script.js:88 | `search.value.trim().toLowerCase()`; its properties are in `QuerySpec` and `QueryIgnoresCase` |
| Filter.Tags | script.js:91 | `(c.dataset.tags \|\| '').toLowerCase()` |
| Filter.Desc | script.js:92 | `(c.dataset.desc \|\| '').toLowerCase()` |
| Filter.Title | script.js:93 | `(c.querySelector('h3')?.textContent \|\| '').toLowerCase()` |
| Filter.MatchesQuery | script.js:95 | `matchesQuery`; characterised by `MatchesQueryIff` and `NarrowingHides` |
| Filter.MatchesCategory | script.js:96 | `matchesFilter`; its properties are in `CategoryWord`, `CategoryOccursInTags` and `UpperCategoryNeverMatches` |
| Filter.Visible | script.js:97 | both tests hold |
| Filter.Display | script.js:97 | the card's new `style.display`; characterised by `DisplayIff`, and `Gallery.Widget.ApplyFilter` is proved to write it |
| Filter.QuerySpec | script.js:88 | the normalised query has no upper-case letter, and it is empty exactly when the search text is all white space |
| Filter.QueryIgnoresCase | script.js:88 | lower-casing the search text first does not change the query, and the query equals the lower-cased text trimmed |
| Filter.DisplayIff | script.js:87-98 | a card is displayed (`''`) exactly when the query is empty or occurs in its lower-cased tags, description or title, and the category is `all` or a word of its lower-cased tags; it is hidden with `none` otherwise |
| Filter.MatchesQueryIff | script.js:91-95 | the query test is substring search in the three texts |
| Filter.BlankSearchShowsAll | script.js:88-97 | an empty or blank search with category `all` shows every card |
| Filter.NarrowingHides | script.js:95 | a card matching a query matches every substring of it, so typing more can only hide cards |
| Filter.CategoryWord | script.js:96 | a category other than `all` matches only a word without spaces, and with one-word tags it matches exactly that word |
| Filter.CategoryOccursInTags | script.js:96 | a category that keeps a card also occurs as a substring of its lower-cased tags |
| Filter.UpperCategoryNeverMatches | script.js:89-96 | a category value holding an upper-case letter matches no card, because only the tags are lower-cased |
| Filter.SplitPiecesOccur | script.js:96 | every piece of a split occurs in the split string |
| Filter.SplitFirstPrefix | script.js:96 | the first piece of a split is a prefix of the string |
| Gallery.Widget.constructor | script.js:6-17 | the page starts hidden with index -1, nothing preloaded, every card displayed |
| Gallery.Widget.PreloadImage | script.js:40-45 | no card: nothing requested, returns normally; card without image: throws; otherwise that card's index is requested |
| Gallery.Widget.PreloadNeighbours | script.js:36-37 | the two preloads request the neighbours, and the second is skipped when the first throws |
| Gallery.Widget.OpenLB | script.js:20-38 | the new lightbox state is `Lightbox.Open` of the old one, and the preloads are those of `Lightbox.OpenPreloads`; the invariant is kept |
| Gallery.Widget.ShowCaption | script.js:27-37 | once the image is in place, the texts, link, index and visibility are those of the card, and the neighbours are preloaded |
| Gallery.Widget.CloseLB | script.js:47-53 | the new state is `Lightbox.Close` of the old one; nothing is preloaded |
| Gallery.Widget.ShowNext | script.js:55 | the new state is `Lightbox.Next` of the old one |
| Gallery.Widget.ShowPrev | script.js:56 | the new state is `Lightbox.Prev` of the old one |
| Gallery.Widget.OnKeydown | script.js:72-79 | the new state is `Lightbox.Key` of the old one, with the preloads of the navigation it runs |
| Gallery.Widget.ApplyFilter | script.js:87-98 | each card's display becomes `Filter.Display` of that card; the lightbox, the preloads and the card list are untouched |

## Left out

- Event wiring with `addEventListener` (script.js:59-69, 100-101). Its effect is a call of the matching `Widget` method. This covers a card click or Enter/Space on a card, the buttons, and the input and change events.
- The overlay click test (script.js:82-84). It compares DOM event targets; when the target is the overlay, its effect is `CloseLB`.
- The focus guard (script.js:104-109). It depends on DOM containment and focus events and keeps no state.
- The network side of `preloadImage` (`new Image().src`, script.js:44). It is a fire-and-forget fetch; the model records only the indices requested.
- The DOM lookups at start-up (script.js:3-15). The elements are assumed to exist, and the cards are given as a sequence in document order.
- The page's initial lightbox markup. The model starts from a hidden lightbox with `aria-hidden="true"` and empty fields.
- Strings.Lower: covers the ASCII letters only, not the full Unicode case mapping of `toLowerCase`.
- URL resolution by the browser: reading `img.src` gives an absolute URL. The model takes the thumbnail address as a given string.
- The error a `TypeError` writes to the console. The model keeps only the early return that leaves the state as it is at that point.
- `Gallery.Widget.OpenLB` runs its last statements (script.js:27-37) in the helper methods `ShowCaption` and `PreloadNeighbours`. This keeps each proof small; the statements and their order are those of the source.
- The video-embed variant and video-identifier extraction. They do not occur in this script.
