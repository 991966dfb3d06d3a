/** The lightbox as a state machine over values: what `openLB`, `closeLB`,
    `showNext`, `showPrev` and the window key handler do to the page
    (script.js lines 17-79), and what they guarantee. */
module Lightbox {
  import opened Strings
  import opened Cards

  /** Everything the lightbox code writes: the module-level `index`, whether
      the lightbox carries the `show` class, its `aria-hidden` attribute, the
      body's `overflow` style, the big image's `src`, `alt` and `transform`,
      the title and description texts, and the download link's `href` and
      `download` attributes. The image preloads leave no trace on the page;
      the card indices they request are given by `OpenPreloads`. */
  datatype View = View(
    index: int,
    shown: bool,
    ariaHidden: string,
    overflow: string,
    imgSrc: string,
    imgAlt: string,
    title: string,
    desc: string,
    href: string,
    download: string,
    transform: string)

  /** The page before any interaction: `index` starts at -1 and the lightbox is hidden. */
  const Initial := View(-1, false, "true", "", "", "", "", "", "", "", "")

  const Zoomed := "scale(1.25)"
  const Unzoomed := "scale(1)"

  /** The `'+'` key's new transform for the current one. */
  function Zoom(t: string): string {
    if t == Zoomed then Unzoomed else Zoomed
  }

  /** The state invariant: the lightbox is shown exactly when `index` is not
      -1, and a shown lightbox has a valid index. */
  ghost predicate Inv(cards: seq<Card>, s: View) {
    && (s.shown <==> s.index != -1)
    && (s.shown ==> 0 <= s.index < |cards|)
  }


  /** The page showing card `i` of a complete gallery entry, with zoom `t`:
      every text and URL field comes from that card. */
  function Showing(cards: seq<Card>, i: int, t: string): View
    requires 0 <= i < |cards| && Complete(cards[i])
  {
    var card := cards[i];
    var img := card.image.value;
    var full := FullUrl(img);
    View(i, true, "false", "hidden", full, img.alt, card.heading.value,
         OrElse(card.desc, ""), full, Filename(full), t)
  }

  /** `preloadImage(cards[j])`: the indices whose image it requests (none when
      `cards[j]` is undefined), or `None` when the card has no `<img>` and the
      call throws. */
  function Preload(cards: seq<Card>, j: Num): Option<seq<int>> {
    match CardAt(cards, j)
    case None => Some([])
    case Some(card) => if card.image.None? then None else Some([j.v])
  }

  /** The indices the two preloads at the end of `openLB(i)` request; a
      throwing first preload skips the second. */
  function NeighbourRequests(cards: seq<Card>, i: int): seq<int> {
    var n := |cards|;
    match Preload(cards, NextSlot(i, n))
    case None => []
    case Some(a) =>
      match Preload(cards, PrevSlot(i, n))
      case None => a
      case Some(b) => a + b
  }

  /** `openLB(i)`. An index with no card returns at once; a card without an
      `<img>` throws before writing anything; a card without an `<h3>` throws
      after the image's `src` and `alt` are written. */
  function Open(cards: seq<Card>, s: View, i: Num): View {
    match CardAt(cards, i)
    case None => s
    case Some(card) =>
      if card.image.None? then s
      else
        var img := card.image.value;
        var full := FullUrl(img);
        var s1 := s.(imgSrc := full, imgAlt := img.alt);
        if card.heading.None? then s1
        else
          var s2 := s1.(
            title := card.heading.value,
            desc := OrElse(card.desc, ""),
            href := full,
            download := Filename(full),
            index := i.v,
            shown := true,
            ariaHidden := "false",
            overflow := "hidden");
          s2
  }

  /** The card indices whose images `openLB(i)` preloads: the neighbours of
      `i`, when it runs to its end. */
  function OpenPreloads(cards: seq<Card>, i: Num): seq<int> {
    match CardAt(cards, i)
    case None => []
    case Some(card) => if Complete(card) then NeighbourRequests(cards, i.v) else []
  }

  /** The preloads of the key handler: those of the `openLB` that
      `showNext` or `showPrev` runs. */
  function KeyPreloads(cards: seq<Card>, s: View, key: string): seq<int> {
    if !s.shown then []
    else
      var s1 := if key == "Escape" then Close(s) else s;
      var p2 := if key == "ArrowRight" then OpenPreloads(cards, NextSlot(s1.index, |cards|)) else [];
      var s2 := if key == "ArrowRight" then Next(cards, s1) else s1;
      var p3 := if key == "ArrowLeft" then OpenPreloads(cards, PrevSlot(s2.index, |cards|)) else [];
      p2 + p3
  }

  /** `closeLB()`. */
  function Close(s: View): View {
    s.(shown := false, ariaHidden := "true", overflow := "", imgSrc := "", index := -1)
  }

  /** `showNext()`. */
  function Next(cards: seq<Card>, s: View): View {
    Open(cards, s, NextSlot(s.index, |cards|))
  }

  /** `showPrev()`. */
  function Prev(cards: seq<Card>, s: View): View {
    Open(cards, s, PrevSlot(s.index, |cards|))
  }

  /** The window `keydown` handler: nothing unless the lightbox is shown;
      then four independent tests of the key, in the source's order. */
  function Key(cards: seq<Card>, s: View, key: string): View {
    if !s.shown then s
    else
      var s1 := if key == "Escape" then Close(s) else s;
      var s2 := if key == "ArrowRight" then Next(cards, s1) else s1;
      var s3 := if key == "ArrowLeft" then Prev(cards, s2) else s2;
      if key == "+" then s3.(transform := Zoom(s3.transform)) else s3
  }

  /** `n` presses of the next button. */
  function NextN(cards: seq<Card>, s: View, n: nat): View
    decreases n
  {
    if n == 0 then s else NextN(cards, Next(cards, s), n - 1)
  }

  // ---- openLB ----

  /** Opening an index that names no card (out of range, or `NaN` from an
      empty gallery) changes nothing. */
  lemma OpenMissingIsNoop(cards: seq<Card>, s: View, i: Num)
    requires !(i.Int? && 0 <= i.v < |cards|)
    ensures Open(cards, s, i) == s
  {
  }

  /** Opening a card without an image changes nothing; opening one without a
      heading only writes the image's `src` and `alt`. */
  lemma OpenIncompleteCard(cards: seq<Card>, s: View, i: int)
    requires 0 <= i < |cards| && !Complete(cards[i])
    ensures cards[i].image.None? ==> Open(cards, s, Int(i)) == s
    ensures cards[i].image.Some? ==>
      Open(cards, s, Int(i)) == s.(imgSrc := FullUrl(cards[i].image.value), imgAlt := cards[i].image.value.alt)
  {
  }

  /** What opening a valid index of a complete card leaves on the page:
      that card, whatever was shown before, with the zoom unchanged. */
  lemma OpenShowsCard(cards: seq<Card>, s: View, i: int)
    requires 0 <= i < |cards| && Complete(cards[i])
    ensures var r := Open(cards, s, Int(i));
      var img := cards[i].image.value;
      && r.index == i && r.shown
      && r.ariaHidden == "false" && r.overflow == "hidden"
      && r.imgSrc == r.href == (if img.full.Some? && img.full.value != "" then img.full.value else img.src)
      && r.imgAlt == img.alt
      && r.title == cards[i].heading.value
      && r.desc == (if cards[i].desc.Some? then cards[i].desc.value else "")
      && r.download == Filename(r.href)
      && r.transform == s.transform
      && r == Showing(cards, i, s.transform)
  {
  }

  /** The preloads requested by opening a complete card `i` are its two
      neighbours, when every card has an image. */
  lemma OpenPreloadsNeighbours(cards: seq<Card>, i: int)
    requires 0 <= i < |cards| && Complete(cards[i])
    requires forall k :: 0 <= k < |cards| ==> cards[k].image.Some?
    ensures OpenPreloads(cards, Int(i)) == [After(i, |cards|), Before(i, |cards|)]
  {
    NeighboursValid(i, |cards|);
    var n := |cards|;
    assert cards[After(i, n)].image.Some? && cards[Before(i, n)].image.Some?;
  }

  lemma OpenKeepsInv(cards: seq<Card>, s: View, i: Num)
    requires Inv(cards, s)
    ensures Inv(cards, Open(cards, s, i))
  {
  }

  /** `openLB` preloads only real cards, at most the two neighbours: the
      `!card` guard of `preloadImage` never fires. */
  lemma OpenPreloadsValid(cards: seq<Card>, i: Num)
    ensures var p := OpenPreloads(cards, i);
      |p| <= 2 && forall k :: 0 <= k < |p| ==> 0 <= p[k] < |cards|
  {
    if CardAt(cards, i).Some? {
      NeighboursValid(i.v, |cards|);
    }
  }

  // ---- closeLB ----

  /** Closing always reaches the same closed form, keeps the invariant and
      the zoom, and closing twice is closing once. */
  lemma CloseResets(cards: seq<Card>, s: View)
    ensures var r := Close(s);
      && r.index == -1 && !r.shown
      && r.ariaHidden == "true" && r.overflow == "" && r.imgSrc == ""
      && r.transform == s.transform
      && Close(r) == r
      && Inv(cards, r)
  {
  }

  /** From the initial page, opening any card and then closing it gives back
      the initial values of every field that closing resets. */
  lemma OpenThenClose(cards: seq<Card>, i: Num)
    ensures var r := Close(Open(cards, Initial, i));
      r.index == Initial.index && r.shown == Initial.shown
      && r.ariaHidden == Initial.ariaHidden && r.overflow == Initial.overflow
      && r.imgSrc == Initial.imgSrc && r.transform == Initial.transform
  {
  }

  lemma InitialInv(cards: seq<Card>)
    ensures Inv(cards, Initial)
  {
  }

  // ---- showNext / showPrev ----

  /** Navigating an empty gallery reads `cards[NaN]` and does nothing. */
  lemma NavigateEmpty(s: View)
    ensures Next([], s) == s && Prev([], s) == s
  {
  }

  /** The last card is followed by the first and the first preceded by the last. */
  lemma NavigationWraps(cards: seq<Card>, s: View)
    requires Inv(cards, s) && s.shown && AllComplete(cards)
    ensures s.index == |cards| - 1 ==> Next(cards, s) == Showing(cards, 0, s.transform)
    ensures s.index == 0 ==> Prev(cards, s) == Showing(cards, |cards| - 1, s.transform)
  {
    NextStep(cards, s);
    PrevStep(cards, s);
  }

  /** One step forward shows the next card, round the cycle. */
  lemma NextStep(cards: seq<Card>, s: View)
    requires Inv(cards, s) && s.shown && AllComplete(cards)
    ensures 0 <= After(s.index, |cards|) < |cards|
    ensures Next(cards, s) == Showing(cards, After(s.index, |cards|), s.transform)
  {
    NeighboursValid(s.index, |cards|);
    OpenShowsCard(cards, s, After(s.index, |cards|));
  }

  /** One step back shows the previous card, round the cycle. */
  lemma PrevStep(cards: seq<Card>, s: View)
    requires Inv(cards, s) && s.shown && AllComplete(cards)
    ensures 0 <= Before(s.index, |cards|) < |cards|
    ensures Prev(cards, s) == Showing(cards, Before(s.index, |cards|), s.transform)
  {
    NeighboursValid(s.index, |cards|);
    OpenShowsCard(cards, s, Before(s.index, |cards|));
  }

  /** Next then previous, or previous then next, comes back to the same card. */
  lemma NextPrevReturn(cards: seq<Card>, s: View)
    requires Inv(cards, s) && s.shown && AllComplete(cards)
    ensures Prev(cards, Next(cards, s)) == Showing(cards, s.index, s.transform)
    ensures Next(cards, Prev(cards, s)) == Showing(cards, s.index, s.transform)
  {
    var n := |cards|;
    NextStep(cards, s);
    PrevStep(cards, s);
    var t := Next(cards, s);
    var u := Prev(cards, s);
    PrevStep(cards, t);
    NextStep(cards, u);
  }

  /** `k <= |cards|` presses of next from card `i` show card `i + k`,
      counted round the cycle. */
  lemma {:induction false} NextNIndex(cards: seq<Card>, s: View, k: nat)
    requires Inv(cards, s) && s.shown && AllComplete(cards) && k <= |cards|
    ensures var j := if s.index + k < |cards| then s.index + k else s.index + k - |cards|;
      0 <= j < |cards|
      && NextN(cards, s, k) == (if k == 0 then s else Showing(cards, j, s.transform))
    decreases k
  {
    if k > 0 {
      var s' := Next(cards, s);
      NextStep(cards, s);
      NextNIndex(cards, s', k - 1);
      assert NextN(cards, s, k) == NextN(cards, s', k - 1);
    }
  }

  /** Outside complete galleries navigation can stall: when the card after
      the shown one lacks an `<img>` or an `<h3>`, `openLB` throws before it
      writes `index`, so pressing next any number of times stays on the
      same index. */
  lemma NavigationStalls(cards: seq<Card>, s: View)
    requires Inv(cards, s) && s.shown
    requires !Complete(cards[After(s.index, |cards|)])
    ensures Next(cards, s).index == s.index && Next(cards, s).shown
    ensures Next(cards, Next(cards, s)).index == s.index
  {
    NeighboursValid(s.index, |cards|);
    OpenIncompleteCard(cards, s, After(s.index, |cards|));
    var t := Next(cards, s);
    OpenIncompleteCard(cards, t, After(s.index, |cards|));
  }

  /** Navigation is a cycle of length `|cards|`: that many presses of next
      give back the card the lightbox started on. */
  lemma NextCycle(cards: seq<Card>, s: View)
    requires Inv(cards, s) && s.shown && AllComplete(cards)
    ensures NextN(cards, s, |cards|) == Showing(cards, s.index, s.transform)
  {
    NextNIndex(cards, s, |cards|);
  }

  // ---- keys and zoom ----

  lemma KeyWhileHidden(cards: seq<Card>, s: View, key: string)
    requires !s.shown
    ensures Key(cards, s, key) == s
  {
  }

  /** While shown, each recognised key calls its one operation and any other key does nothing. */
  lemma KeyDispatch(cards: seq<Card>, s: View, key: string)
    requires s.shown
    ensures key == "Escape" ==> Key(cards, s, key) == Close(s)
    ensures key == "ArrowRight" ==> Key(cards, s, key) == Next(cards, s)
    ensures key == "ArrowLeft" ==> Key(cards, s, key) == Prev(cards, s)
    ensures key == "+" ==> Key(cards, s, key) == s.(transform := Zoom(s.transform))
    ensures key !in {"Escape", "ArrowRight", "ArrowLeft", "+"} ==> Key(cards, s, key) == s
  {
  }

  /** Zooming toggles between the two scales: two toggles restore the
      transform exactly when it already was one of them. */
  lemma ZoomTwice(t: string)
    ensures Zoom(t) == Zoomed || Zoom(t) == Unzoomed
    ensures Zoom(Zoom(t)) == t <==> t == Zoomed || t == Unzoomed
  {
  }

  /** Only the `'+'` key writes the transform: opening, closing and navigating keep it. */
  lemma TransformOnlyByZoom(cards: seq<Card>, s: View, i: Num)
    ensures Open(cards, s, i).transform == s.transform
    ensures Close(s).transform == s.transform
    ensures Next(cards, s).transform == s.transform
    ensures Prev(cards, s).transform == s.transform
  {
  }

  lemma KeyKeepsInv(cards: seq<Card>, s: View, key: string)
    requires Inv(cards, s)
    ensures Inv(cards, Key(cards, s, key))
  {
  }

  /** The key handler preloads only real cards. */
  lemma KeyPreloadsValid(cards: seq<Card>, s: View, key: string)
    ensures var p := KeyPreloads(cards, s, key);
      forall k :: 0 <= k < |p| ==> 0 <= p[k] < |cards|
  {
    if s.shown {
      var s1 := if key == "Escape" then Close(s) else s;
      OpenPreloadsValid(cards, NextSlot(s1.index, |cards|));
      var s2 := if key == "ArrowRight" then Next(cards, s1) else s1;
      OpenPreloadsValid(cards, PrevSlot(s2.index, |cards|));
    }
  }
}
