/** The search box and category filter: which cards `applyFilter`
    (script.js lines 87-98) keeps visible. */
module Filter {
  import opened Strings
  import opened Cards

  /** `search.value.trim().toLowerCase()`. */
  function Query(search: string): string {
    Lower(Trim(search))
  }

  /** The lower-cased `data-tags` of a card, the empty string when missing. */
  function Tags(card: Card): string {
    Lower(OrElse(card.tags, ""))
  }

  /** The lower-cased `data-desc` of a card, the empty string when missing. */
  function Desc(card: Card): string {
    Lower(OrElse(card.desc, ""))
  }

  /** The lower-cased text of the card's `<h3>`, the empty string when there is none. */
  function Title(card: Card): string {
    Lower(OrElse(card.heading, ""))
  }

  /** `matchesQuery`: the query is empty or a substring of the tags, the
      description or the title. */
  predicate MatchesQuery(card: Card, q: string) {
    q == "" || Contains(Tags(card), q) || Contains(Desc(card), q) || Contains(Title(card), q)
  }

  /** `matchesFilter`: the category is `all`, or one of the space-separated
      words of the lower-cased tags. The category itself is compared as given. */
  predicate MatchesCategory(card: Card, f: string) {
    f == "all" || f in Split(Tags(card), ' ')
  }

  predicate Visible(card: Card, q: string, f: string) {
    MatchesQuery(card, q) && MatchesCategory(card, f)
  }

  /** The card's new `style.display`: `''` when visible, `'none'` otherwise. */
  function Display(card: Card, q: string, f: string): string {
    if Visible(card, q, f) then "" else "none"
  }

  /** The normalised query is lower case, and it is empty exactly when the
      search box holds nothing but white space. */
  lemma QuerySpec(search: string)
    ensures var q := Query(search);
      && (forall k :: 0 <= k < |q| ==> !IsUpper(q[k]))
      && (q == "" <==> forall k :: 0 <= k < |search| ==> IsSpace(search[k]))
  {
    TrimSpec(search);
    var r := Trim(search);
    if r != [] {
      assert !IsSpace(search[Lead(search)]) by {
        assert r[0] == search[Lead(search)];
      }
    }
  }

  /** Searching ignores case: a lower-cased search text gives the same query,
      and the query is the lower-cased search text trimmed. */
  lemma QueryIgnoresCase(search: string)
    ensures Query(Lower(search)) == Query(search)
    ensures Query(search) == Trim(Lower(search))
  {
    TrimLower(search);
    TrimLower(Lower(search));
    LowerIdempotent(search);
    LowerIdempotent(Trim(search));
  }

  /** A card is displayed exactly when the query is empty or occurs in its
      lower-cased tags, description or title, and the category is `all` or
      one of the words of its lower-cased tags. */
  lemma DisplayIff(card: Card, search: string, f: string)
    ensures Display(card, Query(search), f) == "" <==>
      ((Query(search) == ""
        || (exists i: nat :: OccursAt(Tags(card), Query(search), i))
        || (exists i: nat :: OccursAt(Desc(card), Query(search), i))
        || (exists i: nat :: OccursAt(Title(card), Query(search), i)))
       && (f == "all" || f in Split(Tags(card), ' ')))
    ensures Display(card, Query(search), f) == "" || Display(card, Query(search), f) == "none"
  {
    var q := Query(search);
    MatchesQueryIff(card, q);
    if !Visible(card, q, f) {
      assert |Display(card, q, f)| == 4;
    }
  }

  /** A white-space-only search with the `all` category shows every card. */
  lemma BlankSearchShowsAll(card: Card, search: string)
    requires forall k :: 0 <= k < |search| ==> IsSpace(search[k])
    ensures Visible(card, Query(search), "all")
  {
    QuerySpec(search);
  }

  /** The query test is substring search in each of the three texts. */
  lemma MatchesQueryIff(card: Card, q: string)
    ensures MatchesQuery(card, q) <==>
      q == "" || (exists i: nat :: OccursAt(Tags(card), q, i))
      || (exists i: nat :: OccursAt(Desc(card), q, i))
      || (exists i: nat :: OccursAt(Title(card), q, i))
  {
    ContainsIff(Tags(card), q);
    ContainsIff(Desc(card), q);
    ContainsIff(Title(card), q);
  }

  /** Narrowing the search only hides cards: a card that matches a query
      matches every substring of it. */
  lemma NarrowingHides(card: Card, q1: string, q2: string)
    requires Contains(q2, q1) && MatchesQuery(card, q2)
    ensures MatchesQuery(card, q1)
  {
    ContainsIff(q2, q1);
    var j: nat :| OccursAt(q2, q1, j);
    if Contains(Tags(card), q2) {
      ContainsTransitive(Tags(card), q2, q1, j);
    } else if Contains(Desc(card), q2) {
      ContainsTransitive(Desc(card), q2, q1, j);
    } else if Contains(Title(card), q2) {
      ContainsTransitive(Title(card), q2, q1, j);
    }
  }

  lemma ContainsTransitive(h: string, n: string, m: string, j: nat)
    requires Contains(h, n) && OccursAt(n, m, j)
    ensures Contains(h, m)
  {
    ContainsIff(h, n);
    var i: nat :| OccursAt(h, n, i);
    forall k | 0 <= k < |m|
      ensures h[i + j + k] == m[k]
    {
      assert h[i + j + k] == n[j + k];
      assert n[j + k] == m[k];
    }
    assert h[i + j..i + j + |m|] == m;
    assert OccursAt(h, m, i + j);
    ContainsIff(h, m);
  }

  /** A category other than `all` can only match a single word: one with no
      space in it. When the tags hold a single word, the category matches
      exactly when it is that word. */
  lemma CategoryWord(card: Card, f: string)
    requires f != "all"
    ensures MatchesCategory(card, f) ==> ' ' !in f
    ensures ' ' !in Tags(card) ==> (MatchesCategory(card, f) <==> f == Tags(card))
  {
    SplitSingle(Tags(card), ' ');
  }

  /** A card kept by a category is also found by searching for that
      category's name: every word of the tags occurs in them. */
  lemma CategoryOccursInTags(card: Card, f: string)
    requires f != "all" && MatchesCategory(card, f)
    ensures Contains(Tags(card), f)
  {
    var t := Tags(card);
    var k :| 0 <= k < |Split(t, ' ')| && Split(t, ' ')[k] == f;
    SplitPiecesOccur(t, ' ', k);
    ContainsIff(t, f);
  }

  /** The category value is compared without lower-casing, so a category
      holding an upper-case letter keeps no card. */
  lemma UpperCategoryNeverMatches(card: Card, f: string, j: nat)
    requires j < |f| && IsUpper(f[j])
    ensures !MatchesCategory(card, f)
  {
    var t := Tags(card);
    var words := Split(t, ' ');
    if f in words {
      var k :| 0 <= k < |words| && words[k] == f;
      SplitPiecesOccur(t, ' ', k);
    }
  }

  /** Every piece of a split occurs in the split string. */
  lemma {:induction false} SplitPiecesOccur(s: string, c: char, k: nat)
    requires k < |Split(s, c)|
    ensures exists i: nat :: OccursAt(s, Split(s, c)[k], i)
    decreases |s|
  {
    var p := Split(s, c)[k];
    if |s| == 0 {
      assert OccursAt(s, p, 0);
    } else {
      var rest := Split(s[1..], c);
      if s[0] == c {
        if k == 0 {
          assert OccursAt(s, p, 0);
        } else {
          ShiftOccurrence(s, rest, k - 1, c);
        }
      } else if k == 0 {
        SplitFirstPrefix(s[1..], c);
        assert p == [s[0]] + rest[0];
        assert s[..|p|] == [s[0]] + s[1..][..|rest[0]|];
        assert OccursAt(s, p, 0);
      } else {
        assert p == rest[k];
        ShiftOccurrence(s, rest, k, c);
      }
    }
  }

  /** An occurrence of a piece of `s[1..]` is an occurrence in `s`, one further on. */
  lemma ShiftOccurrence(s: string, rest: seq<string>, k: nat, c: char)
    requires |s| > 0 && rest == Split(s[1..], c) && k < |rest|
    ensures exists i: nat :: OccursAt(s, rest[k], i)
    decreases |s|, 0
  {
    SplitPiecesOccur(s[1..], c, k);
    var i: nat :| OccursAt(s[1..], rest[k], i);
    assert s[i + 1..i + 1 + |rest[k]|] == s[1..][i..i + |rest[k]|];
    assert OccursAt(s, rest[k], i + 1);
  }

  /** The first piece of a split is a prefix of the split string. */
  lemma {:induction false} SplitFirstPrefix(s: string, c: char)
    ensures |Split(s, c)[0]| <= |s| && s[..|Split(s, c)[0]|] == Split(s, c)[0]
    decreases |s|
  {
    if |s| > 0 && s[0] != c {
      var rest := Split(s[1..], c);
      SplitFirstPrefix(s[1..], c);
      assert s[..1 + |rest[0]|] == [s[0]] + s[1..][..|rest[0]|];
    }
  }
}
