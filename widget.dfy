/** The gallery script as the page object it drives: the module-level
    `index`, the lightbox elements' attributes and the cards' `display`
    styles, updated in place by the handlers of script.js. */
module Gallery {
  import opened Strings
  import opened Cards
  import opened Lightbox
  import opened Filter

  class Widget {
    /** The `.card` elements, in document order. */
    const cards: seq<Card>
    /** `style.display` of each card, written by `applyFilter`. */
    const display: array<string>

    var index: int
    var shown: bool
    var ariaHidden: string
    var overflow: string
    var imgSrc: string
    var imgAlt: string
    var title: string
    var desc: string
    var href: string
    var download: string
    var transform: string
    /** The card indices whose full image has been requested through
        `new Image()`, oldest first. */
    var preloads: seq<int>

    /** The lightbox fields as one value of the state machine. */
    function State(): View
      reads this
    {
      View(index, shown, ariaHidden, overflow, imgSrc, imgAlt, title, desc, href, download, transform)
    }

    ghost predicate Valid()
      reads this
    {
      display.Length == |cards| && Inv(cards, State())
    }

    /** The page as loaded: the lightbox hidden, no card selected, every card visible. */
    constructor (cards: seq<Card>)
      ensures Valid() && this.cards == cards && fresh(display)
      ensures State() == Initial && preloads == []
      ensures forall k :: 0 <= k < display.Length ==> display[k] == ""
    {
      this.cards := cards;
      display := new string[|cards|](_ => "");
      index := -1;
      shown := false;
      ariaHidden := "true";
      overflow, imgSrc, imgAlt, title, desc, href, download, transform := "", "", "", "", "", "", "", "";
      preloads := [];
    }

    /** `preloadImage(cards[j])`; `ok` is false when the card has no `<img>`
        and the call throws. */
    method PreloadImage(j: Num) returns (ok: bool)
      modifies this`preloads
      ensures ok <==> Preload(cards, j).Some?
      ensures preloads == old(preloads) + (if ok then Preload(cards, j).value else [])
    {
      var card := CardAt(cards, j);
      if card.None? {
        return true;
      }
      if card.value.image.None? {
        return false;
      }
      preloads := preloads + [j.v];
      return true;
    }

    /** `openLB(i)`. */
    method OpenLB(i: Num)
      requires Valid()
      modifies this
      ensures Valid()
      ensures State() == Open(cards, old(State()), i)
      ensures preloads == old(preloads) + OpenPreloads(cards, i)
    {
      ghost var s0 := State();
      var card := CardAt(cards, i);
      if card.None? {
        OpenMissingIsNoop(cards, s0, i);
        return;
      }
      if card.value.image.None? {
        OpenIncompleteCard(cards, s0, i.v);
        return;
      }
      var img := card.value.image.value;
      var full := FullUrl(img);
      imgSrc, imgAlt := full, img.alt;
      if card.value.heading.None? {
        OpenIncompleteCard(cards, s0, i.v);
        return;
      }
      OpenShowsCard(cards, s0, i.v);
      ShowCaption(i.v, full);
    }

    /** The rest of `openLB(i)` once the card's image is in place and the
        card has a heading: the texts, the download link, the index, the
        visibility and the preloads. */
    method ShowCaption(i: int, full: string)
      requires 0 <= i < |cards| && Complete(cards[i]) && Valid()
      requires full == FullUrl(cards[i].image.value)
      requires imgSrc == full && imgAlt == cards[i].image.value.alt
      modifies this
      ensures Valid()
      ensures State() == Showing(cards, i, old(transform))
      ensures preloads == old(preloads) + NeighbourRequests(cards, i)
    {
      var card := cards[i];
      title, desc := card.heading.value, OrElse(card.desc, "");
      href, download := full, Filename(full);
      index := i;
      shown, ariaHidden, overflow := true, "false", "hidden";
      PreloadNeighbours(i);
    }

    /** The two preloads at the end of `openLB(i)`; the second is skipped
        when the first throws. */
    method PreloadNeighbours(i: int)
      modifies this`preloads
      ensures preloads == old(preloads) + NeighbourRequests(cards, i)
    {
      var ok := PreloadImage(NextSlot(i, |cards|));
      if ok {
        ok := PreloadImage(PrevSlot(i, |cards|));
      }
    }

    /** `closeLB()`. */
    method CloseLB()
      requires Valid()
      modifies this
      ensures Valid()
      ensures State() == Close(old(State())) && preloads == old(preloads)
    {
      shown := false;
      ariaHidden := "true";
      overflow := "";
      imgSrc := "";
      index := -1;
    }

    /** `showNext()`. */
    method ShowNext()
      requires Valid()
      modifies this
      ensures Valid()
      ensures State() == Next(cards, old(State()))
      ensures preloads == old(preloads) + OpenPreloads(cards, NextSlot(old(index), |cards|))
    {
      OpenLB(NextSlot(index, |cards|));
    }

    /** `showPrev()`. */
    method ShowPrev()
      requires Valid()
      modifies this
      ensures Valid()
      ensures State() == Prev(cards, old(State()))
      ensures preloads == old(preloads) + OpenPreloads(cards, PrevSlot(old(index), |cards|))
    {
      OpenLB(PrevSlot(index, |cards|));
    }

    /** The window `keydown` handler. */
    method OnKeydown(key: string)
      requires Valid()
      modifies this
      ensures Valid()
      ensures State() == Key(cards, old(State()), key)
      ensures preloads == old(preloads) + KeyPreloads(cards, old(State()), key)
    {
      if shown {
        if key == "Escape" {
          CloseLB();
        }
        if key == "ArrowRight" {
          ShowNext();
        }
        if key == "ArrowLeft" {
          ShowPrev();
        }
        if key == "+" {
          transform := Zoom(transform);
        }
      }
    }

    /** `applyFilter()` with the search box holding `search` and the category
        select holding `category`: every card's display is set from its own
        attributes, and the lightbox is left alone. */
    method ApplyFilter(search: string, category: string)
      requires Valid()
      modifies display
      ensures Valid() && State() == old(State()) && preloads == old(preloads)
      ensures forall k :: 0 <= k < |cards| ==> display[k] == Display(cards[k], Query(search), category)
    {
      var q := Query(search);
      var f := category;
      var k := 0;
      while k < |cards|
        invariant 0 <= k <= |cards| == display.Length
        invariant forall j :: 0 <= j < k ==> display[j] == Display(cards[j], q, f)
      {
        var c := cards[k];
        var matchesQuery := q == "" || Contains(Tags(c), q) || Contains(Desc(c), q) || Contains(Title(c), q);
        var matchesFilter := f == "all" || f in Split(Tags(c), ' ');
        display[k] := if matchesQuery && matchesFilter then "" else "none";
        k := k + 1;
      }
    }
  }
}
