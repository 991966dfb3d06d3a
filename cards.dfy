/** The gallery's cards as read from the markup, and the JavaScript index
    arithmetic used to pick one. */
module Cards {
  import opened Strings

  datatype Option<T> = None | Some(value: T)

  /** The thumbnail `<img>` of a card: its `src`, its `alt` (the empty string
      when the attribute is absent) and its optional `data-full` URL. */
  datatype Image = Image(src: string, alt: string, full: Option<string>)

  /** One `.card` element: its optional `data-tags` and `data-desc`
      attributes, the text of its optional `<h3>` and its optional `<img>`. */
  datatype Card = Card(tags: Option<string>, desc: Option<string>, heading: Option<string>, image: Option<Image>)

  /** `x || d` for an attribute that may be missing: JavaScript falls back on
      `d` for a missing value and for the empty string alike. */
  function OrElse(x: Option<string>, d: string): string {
    if x.Some? && x.value != "" then x.value else d
  }

  /** `img.dataset.full || img.src`. */
  function FullUrl(img: Image): string {
    OrElse(img.full, img.src)
  }

  /** `full.split('/').pop()`, the name offered for download. */
  function Filename(full: string): string {
    LastPiece(full, '/')
  }

  /** The download name is the longest suffix of the URL without a `/`:
      all of it when it has no `/`, otherwise what follows the last one. */
  lemma FilenameSpec(full: string)
    ensures var name := Filename(full);
      '/' !in name && |name| <= |full| && full[|full| - |name|..] == name
      && ('/' !in full ==> name == full)
      && ('/' in full ==> |name| < |full| && full[|full| - |name| - 1] == '/')
  {
    SplitLast(full, '/');
  }

  /** A card on which `openLB` runs to the end: it has an image and a heading. */
  predicate Complete(card: Card) {
    card.image.Some? && card.heading.Some?
  }

  predicate AllComplete(cards: seq<Card>) {
    forall k :: 0 <= k < |cards| ==> Complete(cards[k])
  }

  /** A JavaScript number as it occurs here: an integer, or `NaN`. */
  datatype Num = Int(v: int) | NaN

  /** JavaScript `%` on integers: the remainder takes the sign of the dividend. */
  function TruncRem(a: int, n: nat): (r: int)
    requires n > 0
    ensures a >= 0 ==> r == a % n
    ensures a < 0 ==> r + n > 0 && r <= 0 && a - r == -((-a) / n) * n
  {
    if a >= 0 then a % n
    else
      var q, m := (-a) / n, (-a) % n;
      assert -a == q * n + m;
      -m
  }

  /** `a % n` where `n` is `cards.length`: `NaN` when the gallery is empty. */
  function JsRem(a: int, n: nat): (r: Num)
    ensures r.NaN? <==> n == 0
    ensures r.Int? ==> r.v + n > 0 && r.v < n
    ensures n > 0 && a >= 0 ==> r == Int(a % n)
    ensures n > 0 && a < 0 ==> r.Int? && r.v <= 0 && a - r.v == -((-a) / n) * n
  {
    if n == 0 then NaN else Int(TruncRem(a, n))
  }

  /** `cards[i]`: only a non-negative integer index below the length
      denotes a card; every other value reads `undefined`. */
  function CardAt(cards: seq<Card>, i: Num): Option<Card> {
    if i.Int? && 0 <= i.v < |cards| then Some(cards[i.v]) else None
  }

  /** The card after `i`, `(i+1) % cards.length`. */
  function NextSlot(i: int, n: nat): Num {
    JsRem(i + 1, n)
  }

  /** The card before `i`, `(i-1+cards.length) % cards.length`. */
  function PrevSlot(i: int, n: nat): Num {
    JsRem(i - 1 + n, n)
  }

  /** The card after `i` in a cycle of `n` cards. */
  function After(i: int, n: nat): int {
    if i == n - 1 then 0 else i + 1
  }

  /** The card before `i` in a cycle of `n` cards. */
  function Before(i: int, n: nat): int {
    if i == 0 then n - 1 else i - 1
  }

  /** The slot arithmetic of `showNext`, `showPrev` and the preloads is the
      cyclic successor and predecessor: from a valid index, or from the
      closed marker -1 for the next slot, JavaScript's `%` names exactly
      `After` and `Before`, and always a card (`-1 % 1` is `-0`, which
      indexes like `0`). */
  lemma NeighboursValid(i: int, n: nat)
    requires -1 <= i < n && n > 0
    ensures NextSlot(i, n) == Int(After(i, n))
    ensures i >= 0 ==> PrevSlot(i, n) == Int(Before(i, n))
    ensures PrevSlot(i, n).Int? && 0 <= PrevSlot(i, n).v < n
    ensures 0 <= After(i, n) < n && (i >= 0 ==> 0 <= Before(i, n) < n)
  {
    if i + 1 < n { AddModulus(i + 1, n); } else { AddModulus(0, n); }
    if i == 0 {
      AddModulus(n - 1, n);
    } else if i > 0 {
      AddModulus(i - 1, n);
    } else if n >= 2 {
      AddModulus(n - 2, n);
    } else {
      AddModulus(0, n);
    }
  }

  /** There is no neighbour to go to in an empty gallery: the slot is `NaN`. */
  lemma EmptyGalleryNaN(i: int)
    ensures NextSlot(i, 0) == NaN && PrevSlot(i, 0) == NaN
  {
  }

  /** The last card is followed by the first, and the first preceded by the last. */
  lemma WrapAround(n: nat)
    requires n > 0
    ensures NextSlot(n - 1, n) == Int(0)
    ensures PrevSlot(0, n) == Int(n - 1)
  {
    NeighboursValid(n - 1, n);
    NeighboursValid(0, n);
  }

  /** Stepping forward then back from a valid index returns to it, and so
      does stepping back then forward. */
  lemma NextPrevInverse(i: int, n: nat)
    requires 0 <= i < n
    ensures PrevSlot(NextSlot(i, n).v, n) == Int(i)
    ensures NextSlot(PrevSlot(i, n).v, n) == Int(i)
  {
    NeighboursValid(i, n);
    NeighboursValid(After(i, n), n);
    NeighboursValid(Before(i, n), n);
  }

  lemma AddModulus(x: int, n: nat)
    requires 0 <= x < n
    ensures x % n == x && (x + n) % n == x
  {
    assert (x + n) / n == 1;
  }
}
