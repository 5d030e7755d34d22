/** The browser side of the gallery (script.js): the theme switch, the
    remembered deletions of built-in cards, the editable filter labels, the
    card filter, the lightbox, the category prompt, the alt text and caption
    of an upload, and the rendering of the items saved in the browser.
    localStorage and IndexedDB values are fields of the classes that own
    them; the DOM is reduced to the card sequence of the grid. */
module GalleryClient {
  import opened Wrappers
  import opened Names
  import opened Sorting

  // ---------------------------------------------------------------------
  // Theme

  const Light := "light"
  const Dark := "dark"

  /** `Theme.get`: the stored mode, or "dark" when nothing (or "") is stored. */
  function ThemeMode(stored: Option<string>): (mode: string)
    ensures mode != ""
    ensures stored.Some? && stored.value != "" ==> mode == stored.value
    ensures stored.None? || stored.value == "" ==> mode == Dark
  {
    if stored.None? || stored.value == "" then Dark else stored.value
  }

  /** The mode `toggle` switches to: "dark" from "light", "light" from any
      other mode. */
  function Opposite(mode: string): (r: string)
    ensures r == Light || r == Dark
    ensures r == Light <==> mode != Light
  {
    if mode == Light then Dark else Light
  }

  /** Two toggles restore "light" and "dark"; any other stored mode ends at
      "dark". */
  lemma ToggleTwice(mode: string)
    ensures mode == Light || mode == Dark ==> Opposite(Opposite(mode)) == mode
    ensures mode != Light ==> Opposite(Opposite(mode)) == Dark
  {
  }

  class Theme {
    /** The value under the key 'act-theme' in localStorage. */
    var stored: Option<string>
    /** Whether the root element carries data-theme="light". */
    var lightAttribute: bool

    function Get(): (mode: string)
      reads this
      ensures mode == ThemeMode(stored)
    {
      ThemeMode(stored)
    }

    /** The page applies the stored mode as soon as the script runs. */
    constructor (stored: Option<string>)
      ensures this.stored == stored
      ensures lightAttribute <==> Get() == Light
    {
      this.stored := stored;
      lightAttribute := ThemeMode(stored) == Light;
    }

    /** `Theme.toggle`: stores, applies and returns the opposite mode. */
    method Toggle() returns (next: string)
      modifies this
      ensures next == Opposite(old(Get()))
      ensures stored == Some(next) && Get() == next
      ensures lightAttribute <==> next == Light
    {
      next := Opposite(ThemeMode(stored));
      stored := Some(next);
      lightAttribute := next == Light;
    }
  }

  // ---------------------------------------------------------------------
  // DefaultDeletes

  /** The elements of `s` without repeats, as `Array.from(new Set(s))`
      gives them; DedupSnoc states that they keep the order of their first
      occurrence. */
  function Dedup(s: seq<string>): (r: seq<string>)
    ensures forall x :: x in r <==> x in s
    ensures NoDuplicates(r)
    ensures NoDuplicates(s) ==> r == s
  {
    if s == [] then []
    else
      var init := s[..|s| - 1];
      var x := s[|s| - 1];
      assert s == init + [x];
      var d := Dedup(init);
      assert NoDuplicates(s) ==> NoDuplicates(init) && x !in init;
      if x in d then d else d + [x]
  }

  /** Reading one more element keeps the earlier result and appends the
      element only when it is new, so the result lists the elements in the
      order of their first occurrence. */
  lemma DedupSnoc(s: seq<string>, x: string)
    ensures Dedup(s + [x]) == if x in s then Dedup(s) else Dedup(s) + [x]
  {
    assert (s + [x])[..|s|] == s;
  }

  /** The array `add` writes back: the loaded set with `src` added, in the
      insertion order of a JavaScript Set. */
  function AddedList(list: seq<string>, src: string): (r: seq<string>)
    ensures forall x :: x in r <==> x in list || x == src
    ensures NoDuplicates(r)
  {
    var d := Dedup(list);
    if src in d then d
    else
      assert NoDuplicates(d + [src]) by {
        forall i, j | 0 <= i < j < |d| + 1 ensures (d + [src])[i] != (d + [src])[j] {
          if j == |d| {
            assert (d + [src])[i] == d[i];
          }
        }
      }
      d + [src]
  }

  /** Adding a name twice stores the same array as adding it once. */
  lemma AddIdempotent(list: seq<string>, src: string)
    ensures AddedList(AddedList(list, src), src) == AddedList(list, src)
  {
  }

  class DefaultDeletes {
    /** The array under 'love-default-hidden' in localStorage; None when the
        key is missing or its value does not parse. */
    var saved: Option<seq<string>>

    constructor (saved: Option<seq<string>>)
      ensures this.saved == saved
    {
      this.saved := saved;
    }

    /** `load`: the stored names, or the empty set. */
    function Load(): (s: set<string>)
      reads this
      ensures forall x :: x in s <==> saved.Some? && x in saved.value
    {
      if saved.None? then {} else set x | x in saved.value
    }

    /** `has(src)`. */
    predicate Has(src: string)
      reads this
      ensures Has(src) <==> saved.Some? && src in saved.value
    {
      src in Load()
    }

    /** `add(src)`: load, add, save. Afterwards `src` is present, nobody else
        is removed and nothing else is added. */
    method Add(src: string)
      modifies this
      ensures saved == Some(AddedList(old(saved).GetOr([]), src))
      ensures Has(src)
      ensures Load() == old(Load()) + {src}
    {
      saved := Some(AddedList(saved.GetOr([]), src));
    }
  }

  // ---------------------------------------------------------------------
  // FilterLabels

  const DefaultLabels: map<string, string> :=
    map["all" := "All", "nature" := "Us", "city" := "Adventures", "abstract" := "Dreams"]

  /** `{ ...defaults, ...saved }`: the defaults with the stored labels
      written over them. */
  function MergeLabels(saved: Option<map<string, string>>): (labels: map<string, string>)
    ensures forall k :: k in DefaultLabels ==> k in labels
    ensures forall k :: k in labels ==> k in DefaultLabels || (saved.Some? && k in saved.value)
    ensures saved.Some? ==> forall k :: k in saved.value ==> k in labels && labels[k] == saved.value[k]
    ensures forall k :: k in DefaultLabels && (saved.None? || k !in saved.value) ==> labels[k] == DefaultLabels[k]
  {
    if saved.None? then DefaultLabels else DefaultLabels + saved.value
  }

  /** The label `set(tag, text)` stores: `text || defaults[tag] || tag`. */
  function ChosenLabel(tag: string, text: string): (r: string)
    ensures text != "" ==> r == text
    ensures text == "" && tag in DefaultLabels ==> r == DefaultLabels[tag]
    ensures text == "" && tag !in DefaultLabels ==> r == tag
  {
    if text != "" then text
    else if tag in DefaultLabels && DefaultLabels[tag] != "" then DefaultLabels[tag]
    else tag
  }

  /** The stored label is empty only when both the text and the tag are. */
  lemma ChosenLabelEmpty(tag: string, text: string)
    ensures ChosenLabel(tag, text) == "" <==> text == "" && tag == ""
  {
  }

  /** Merging the defaults under a map that already holds all of them
      changes nothing. */
  lemma MergeAbsorbs(labels: map<string, string>)
    requires DefaultLabels.Keys <= labels.Keys
    ensures MergeLabels(Some(labels)) == labels
  {
  }

  class FilterLabels {
    /** The object under 'love-filter-labels' in localStorage; None when the
        key is missing or its value does not parse. */
    var saved: Option<map<string, string>>

    constructor (saved: Option<map<string, string>>)
      ensures this.saved == saved
    {
      this.saved := saved;
    }

    /** `getAll`. */
    function GetAll(): (labels: map<string, string>)
      reads this
      ensures labels == MergeLabels(saved)
    {
      MergeLabels(saved)
    }

    /** `set(tag, text)`: the merged labels with `tag` relabelled are
        written back; every other label stays as it was. */
    method Set(tag: string, text: string)
      modifies this
      ensures saved == Some(old(GetAll())[tag := ChosenLabel(tag, text)])
      ensures GetAll() == old(GetAll())[tag := ChosenLabel(tag, text)]
    {
      var data := MergeLabels(saved);
      data := data[tag := ChosenLabel(tag, text)];
      MergeAbsorbs(data);
      saved := Some(data);
    }
  }

  // ---------------------------------------------------------------------
  // Grid

  /** A card of the grid: its data-id (uploaded cards only), the image
      source, alt text, caption, data-tag and whether it is displayed. */
  datatype Card = Card(id: Option<string>, src: string, alt: string, captionText: string, tag: string, shown: bool)

  /** An item saved in the browser's IndexedDB store. */
  datatype SavedItem = SavedItem(id: string, src: string, alt: Option<string>, captionText: Option<string>,
                                 tag: Option<string>, createdAt: Option<int>)

  /** The visibility rule of `Grid.filter`. */
  predicate Matches(filter: string, tag: string) {
    filter == "all" || tag == filter
  }

  /** The cards after `Grid.filter(filter)`. */
  function AfterFilter(cards: seq<Card>, filter: string): (r: seq<Card>)
    ensures |r| == |cards|
    ensures forall i :: 0 <= i < |cards| ==> r[i] == cards[i].(shown := Matches(filter, cards[i].tag))
  {
    seq(|cards|, i requires 0 <= i < |cards| => cards[i].(shown := Matches(filter, cards[i].tag)))
  }

  /** A card is displayed after filtering exactly when the filter is "all" or
      names its tag; nothing but visibility changes. */
  lemma FilterShows(cards: seq<Card>, filter: string, i: int)
    requires 0 <= i < |cards|
    ensures AfterFilter(cards, filter)[i].shown <==> filter == "all" || cards[i].tag == filter
    ensures AfterFilter(cards, filter)[i].(shown := cards[i].shown) == cards[i]
  {
  }

  /** Filtering forgets earlier filters: only the last one counts. */
  lemma FilterLastWins(cards: seq<Card>, first: string, second: string)
    ensures AfterFilter(AfterFilter(cards, first), second) == AfterFilter(cards, second)
  {
    var a := AfterFilter(AfterFilter(cards, first), second);
    var b := AfterFilter(cards, second);
    assert forall i :: 0 <= i < |a| ==> a[i] == b[i];
  }

  /** The cards that survive the removal of previously deleted built-in
      cards: those whose src is empty or not remembered. */
  function Kept(cards: seq<Card>, hidden: set<string>): (r: seq<Card>)
    ensures |r| <= |cards|
    ensures forall c :: c in r <==> c in cards && (c.src == "" || c.src !in hidden)
  {
    if cards == [] then []
    else
      var init := cards[..|cards| - 1];
      var c := cards[|cards| - 1];
      assert cards == init + [c];
      if c.src != "" && c.src in hidden then Kept(init, hidden) else Kept(init, hidden) + [c]
  }

  /** The removal pass is an order-preserving filter: one card survives
      exactly when its src is empty or not remembered, and the survivors of
      two runs of cards are the survivors of each, in the same order. */
  lemma {:induction false} KeptFilters(a: seq<Card>, b: seq<Card>, hidden: set<string>)
    ensures Kept(a + b, hidden) == Kept(a, hidden) + Kept(b, hidden)
    ensures |b| == 1 ==> Kept(b, hidden) == (if b[0].src == "" || b[0].src !in hidden then b else [])
  {
    if |b| == 1 {
      assert b[..0] == [];
    }
    if b == [] {
      assert a + b == a;
    } else {
      var init := b[..|b| - 1];
      var c := b[|b| - 1];
      assert (a + b)[..|a + b| - 1] == a + init;
      assert (a + b)[|a + b| - 1] == c;
      KeptFilters(a, init, hidden);
    }
  }

  /** `buildCard(item)`: a saved item becomes a displayed card; a missing
      tag defaults to "nature", missing alt and caption to "". */
  function BuildCard(item: SavedItem): (c: Card)
    ensures c.shown && c.src == item.src
    ensures c.id.Some? <==> item.id != ""
    ensures c.id.Some? ==> c.id.value == item.id
    ensures item.tag.None? ==> c.tag == "nature"
    ensures item.tag.Some? ==> c.tag == item.tag.value
    ensures item.alt.Some? ==> c.alt == item.alt.value
    ensures item.captionText.None? ==> c.captionText == ""
    ensures item.captionText.Some? ==> c.captionText == item.captionText.value
    ensures item.alt.None? ==> c.alt == ""
  {
    Card(if item.id != "" then Some(item.id) else None, item.src,
         item.alt.GetOr(""), item.captionText.GetOr(""), item.tag.GetOr("nature"), true)
  }

  function CardsOf(items: seq<SavedItem>): (r: seq<Card>)
    ensures |r| == |items|
    ensures forall i :: 0 <= i < |items| ==> r[i] == BuildCard(items[i])
  {
    seq(|items|, i requires 0 <= i < |items| => BuildCard(items[i]))
  }

  /** The sort key of the saved items: `createdAt || 0`. */
  function SavedKey(item: SavedItem): int {
    item.createdAt.GetOr(0)
  }

  lemma ReversedSnoc<T>(s: seq<T>, x: T)
    ensures Reversed(s + [x]) == [x] + Reversed(s)
  {
    var a, b := Reversed(s + [x]), [x] + Reversed(s);
    forall i | 0 <= i < |a| ensures a[i] == b[i] {
      if i > 0 {
        assert a[i] == (s + [x])[|s| - i];
      }
    }
  }

  lemma CardsOfCons(x: SavedItem, items: seq<SavedItem>)
    ensures CardsOf([x] + items) == [BuildCard(x)] + CardsOf(items)
  {
    var a, b := CardsOf([x] + items), [BuildCard(x)] + CardsOf(items);
    forall i | 0 <= i < |a| ensures a[i] == b[i] {
      if i > 0 {
        assert ([x] + items)[i] == items[i - 1];
      }
    }
  }

  /** The saved block of the grid, front first, as `RenderSaved` leaves it:
      the reverse of the newest-first order, that is oldest first. */
  lemma SavedBlockOldestFirst(sorted: seq<SavedItem>)
    requires SortedDesc(sorted, SavedKey)
    ensures SortedAsc(Reversed(sorted), SavedKey)
  {
    ReversedSortedDesc(sorted, SavedKey);
  }

  /** With two saved items of different age, `RenderSaved` puts the older
      one at the front of the grid. */
  lemma SavedOrderExample(older: SavedItem, newer: SavedItem, sorted: seq<SavedItem>)
    requires SavedKey(older) < SavedKey(newer)
    requires SortedDesc(sorted, SavedKey) && multiset(sorted) == multiset{older, newer}
    ensures CardsOf(Reversed(sorted)) == [BuildCard(older), BuildCard(newer)]
  {
    assert |sorted| == 2;
    assert sorted[0] in multiset(sorted) && sorted[1] in multiset(sorted);
    assert sorted == [sorted[0], sorted[1]];
    assert SavedKey(sorted[0]) >= SavedKey(sorted[1]);
    assert sorted[0] == newer;
    assert multiset{newer} + multiset{sorted[1]} == multiset{older, newer};
    assert sorted[1] == older;
    assert Reversed(sorted) == [older, newer];
  }

  class Grid {
    /** The cards of #grid, front first. */
    var cards: seq<Card>

    constructor (cards: seq<Card>)
      ensures this.cards == cards
    {
      this.cards := cards;
    }

    /** `Grid.filter(tag)`. */
    method Filter(tag: string)
      modifies this
      ensures cards == AfterFilter(old(cards), tag)
    {
      var i := 0;
      while i < |cards|
        invariant 0 <= i <= |cards| == |old(cards)|
        invariant forall j :: 0 <= j < i ==> cards[j] == AfterFilter(old(cards), tag)[j]
        invariant forall j :: i <= j < |cards| ==> cards[j] == old(cards)[j]
      {
        var card := cards[i];
        var visible := Matches(tag, card.tag);
        cards := cards[i := card.(shown := visible)];
        i := i + 1;
      }
    }

    /** The start-up pass that removes the built-in cards whose src the
        browser remembers as deleted. */
    method DropHiddenDefaults(deletes: DefaultDeletes)
      modifies this
      ensures cards == Kept(old(cards), deletes.Load())
    {
      var hidden := deletes.Load();
      var kept: seq<Card> := [];
      for i := 0 to |cards|
        invariant kept == Kept(cards[..i], hidden)
      {
        assert cards[..i + 1][..i] == cards[..i];
        var key := cards[i].src;
        if !(key != "" && deletes.Has(key)) {
          kept := kept + [cards[i]];
        }
      }
      assert cards[..|cards|] == cards;
      cards := kept;
    }

    /** The start-up rendering of the saved items as written: sorted newest
        first, then each inserted before the current first card. */
    method RenderSaved(saved: seq<SavedItem>) returns (sorted: seq<SavedItem>)
      modifies this
      ensures SortedDesc(sorted, SavedKey) && multiset(sorted) == multiset(saved)
      ensures cards == CardsOf(Reversed(sorted)) + old(cards)
    {
      sorted := SortDesc(saved, SavedKey);
      for i := 0 to |sorted|
        invariant cards == CardsOf(Reversed(sorted[..i])) + old(cards)
      {
        assert sorted[..i + 1] == sorted[..i] + [sorted[i]];
        ReversedSnoc(sorted[..i], sorted[i]);
        CardsOfCons(sorted[i], Reversed(sorted[..i]));
        cards := [BuildCard(sorted[i])] + cards;
      }
      assert sorted[..|sorted|] == sorted;
    }

    /** The rendering the newest-first sort is meant for: the saved block
        at the front of the grid is newest first. */
    method RenderSavedNewestFirst(saved: seq<SavedItem>) returns (sorted: seq<SavedItem>)
      modifies this
      ensures SortedDesc(sorted, SavedKey) && multiset(sorted) == multiset(saved)
      ensures cards == CardsOf(sorted) + old(cards)
    {
      sorted := SortDesc(saved, SavedKey);
      var i := |sorted|;
      while i > 0
        invariant 0 <= i <= |sorted|
        invariant cards == CardsOf(sorted[i..]) + old(cards)
      {
        i := i - 1;
        assert sorted[i..] == [sorted[i]] + sorted[i + 1..];
        CardsOfCons(sorted[i], sorted[i + 1..]);
        cards := [BuildCard(sorted[i])] + cards;
      }
    }
  }

  // ---------------------------------------------------------------------
  // Lightbox

  /** A lightbox index: JavaScript's `%` by a zero length gives NaN. */
  datatype Index = At(i: int) | NaN

  /** JavaScript's `a % n` on integers: NaN for n == 0, otherwise the
      remainder truncated toward zero (it takes the sign of `a`). */
  function JsRem(a: int, n: nat): Index {
    if n == 0 then NaN
    else if a >= 0 then At(a % n)
    else At(-((-a) % n))
  }

  /** `idx = (idx + 1) % items.length`. */
  function NextIndex(idx: Index, n: nat): (r: Index)
    ensures n == 0 || idx.NaN? ==> r.NaN?
    ensures idx.At? && 0 <= idx.i < n ==> r == At(if idx.i + 1 < n then idx.i + 1 else 0)
  {
    match idx
    case NaN => NaN
    case At(i) => JsRem(i + 1, n)
  }

  /** `idx = (idx - 1 + items.length) % items.length`. */
  function PrevIndex(idx: Index, n: nat): (r: Index)
    ensures n == 0 || idx.NaN? ==> r.NaN?
    ensures idx.At? && 0 <= idx.i < n ==> r == At(if idx.i > 0 then idx.i - 1 else n - 1)
  {
    match idx
    case NaN => NaN
    case At(i) => JsRem(i - 1 + n, n)
  }

  /** `prev` undoes `next` and `next` undoes `prev`. */
  lemma NextPrevInverse(i: int, n: nat)
    requires 0 <= i < n
    ensures PrevIndex(NextIndex(At(i), n), n) == At(i)
    ensures NextIndex(PrevIndex(At(i), n), n) == At(i)
  {
  }

  /** `next` applied `k` times. */
  function NextN(k: nat, idx: Index, n: nat): Index {
    if k == 0 then idx else NextIndex(NextN(k - 1, idx, n), n)
  }

  /** `k` steps forward from `i` go to `(i + k) % n`. */
  lemma {:induction false} NextNFormula(k: nat, i: int, n: nat)
    requires 0 <= i < n
    ensures NextN(k, At(i), n) == At((i + k) % n)
  {
    if k > 0 {
      NextNFormula(k - 1, i, n);
      ModSucc(i + k - 1, n);
    }
  }

  lemma ModSucc(a: nat, n: nat)
    requires n > 0
    ensures (a % n + 1) % n == (a + 1) % n
    ensures a % n < n
  {
    var q, r := a / n, a % n;
    assert a == q * n + r;
    if r + 1 < n {
      ModUnique(a + 1, n, q, r + 1);
      ModUnique(r + 1, n, 0, r + 1);
    } else {
      assert a + 1 == (q + 1) * n;
      ModUnique(a + 1, n, q + 1, 0);
      ModUnique(r + 1, n, 1, 0);
    }
  }

  lemma ModUnique(a: int, n: int, q: int, r: int)
    requires n > 0 && 0 <= r < n && a == q * n + r
    ensures a % n == r
  {
    var q', r' := a / n, a % n;
    assert a == q' * n + r';
    assert (q - q') * n == r' - r;
    if q > q' {
      MulAtLeast(q - q', n);
    } else if q < q' {
      MulAtLeast(q' - q, n);
    }
  }

  lemma {:induction false} MulAtLeast(d: int, n: int)
    requires d >= 1 && n > 0
    ensures d * n >= n
  {
    if d > 1 {
      MulAtLeast(d - 1, n);
      assert d * n == (d - 1) * n + n;
    }
  }

  /** `n` steps forward come back to the start: navigation is cyclic. */
  lemma NextCycle(i: int, n: nat)
    requires 0 <= i < n
    ensures NextN(n, At(i), n) == At(i)
  {
    NextNFormula(n, i, n);
    ModUnique(i + n, n, 1, i);
  }

  /** A lightbox slide, as `rebuildLightboxItems` reads it from a card; the
      caption is missing when the card has no figcaption. */
  datatype Slide = Slide(src: string, alt: string, captionText: Option<string>)

  /** What the lightbox displays: image source, alt text and caption. */
  datatype Display = Display(src: string, alt: string, caption: string)

  class Lightbox {
    var items: seq<Slide>
    var idx: Index
    /** aria-hidden="false" on the lightbox. */
    var shown: bool

    /** The index points into the collection whenever it is non-empty. */
    predicate Valid()
      reads this
    {
      |items| > 0 ==> idx.At? && 0 <= idx.i < |items|
    }

    constructor ()
      ensures items == [] && idx == At(0) && !shown && Valid()
    {
      items, idx, shown := [], At(0), false;
    }

    /** `update`: `items[idx] || {}`, each field defaulting to "". */
    function Current(): (d: Display)
      reads this
      ensures !(idx.At? && 0 <= idx.i < |items|) ==> d == Display("", "", "")
      ensures idx.At? && 0 <= idx.i < |items| ==>
                d == Display(items[idx.i].src, items[idx.i].alt, items[idx.i].captionText.GetOr(""))
    {
      if idx.At? && 0 <= idx.i < |items| then
        var s := items[idx.i];
        Display(s.src, s.alt, s.captionText.GetOr(""))
      else Display("", "", "")
    }

    /** `open(index, collection)`. A click on a card opens it at the card's
        position among the cards, so the index is in range there. */
    method Open(index: int, collection: seq<Slide>)
      modifies this
      ensures items == collection && idx == At(index) && shown
      ensures 0 <= index < |collection| ==> Valid()
    {
      items, idx, shown := collection, At(index), true;
    }

    method Close()
      modifies this
      ensures items == old(items) && idx == old(idx) && !shown
    {
      shown := false;
    }

    method Next()
      modifies this
      ensures items == old(items) && shown == old(shown)
      ensures idx == NextIndex(old(idx), |items|)
      ensures old(Valid()) ==> Valid()
    {
      idx := NextIndex(idx, |items|);
    }

    method Prev()
      modifies this
      ensures items == old(items) && shown == old(shown)
      ensures idx == PrevIndex(old(idx), |items|)
      ensures old(Valid()) ==> Valid()
    {
      idx := PrevIndex(idx, |items|);
    }
  }

  // ---------------------------------------------------------------------
  // promptForCategory

  const Categories := ["nature", "city", "abstract"]

  predicate AllDigits(s: string) {
    forall i :: 0 <= i < |s| ==> '0' <= s[i] <= '9'
  }

  /** The value of a string of decimal digits. */
  function DigitsValue(s: string): (v: nat)
    requires AllDigits(s)
    ensures |s| == 1 ==> v == s[0] as int - '0' as int
    ensures s != [] && s[0] != '0' ==> v >= 1
    ensures |s| >= 2 && s[0] != '0' ==> v >= 10
  {
    assert |s| == 1 ==> s[..0] == "";
    if s == [] then 0 else 10 * DigitsValue(s[..|s| - 1]) + (s[|s| - 1] as int - '0' as int)
  }

  /** `Number(choice)` for a cancelled prompt (null), an empty answer and
      plain decimal digits; None stands for NaN. */
  function ChoiceNumber(choice: Option<string>): (n: Option<int>)
    ensures n.Some? ==> n.value >= 0
    ensures choice.None? ==> n == Some(0)
    ensures choice == Some("") ==> n == Some(0)
    ensures choice.Some? && !AllDigits(choice.value) ==> n.None?
    ensures choice.Some? && |choice.value| == 1 && '0' <= choice.value[0] <= '9' ==>
              n == Some(choice.value[0] as int - '0' as int)
  {
    if choice.None? then Some(0)
    else if AllDigits(choice.value) then Some(DigitsValue(choice.value))
    else None
  }

  /** `map[Number(choice) - 1]?.tag || 'nature'`. */
  function CategoryFor(choice: Option<string>): (tag: string)
    ensures tag in Categories
  {
    var n := ChoiceNumber(choice);
    if n.Some? && 1 <= n.value <= |Categories| then Categories[n.value - 1] else "nature"
  }

  /** Leading zeros do not change the number of an answer: `Number("02")`
      is 2. */
  lemma {:induction false} LeadingZero(s: string)
    requires AllDigits(s)
    ensures ChoiceNumber(Some("0" + s)) == ChoiceNumber(Some(s))
  {
    DigitsLeadingZero(s);
  }

  lemma {:induction false} DigitsLeadingZero(s: string)
    requires AllDigits(s)
    ensures AllDigits("0" + s) && DigitsValue("0" + s) == DigitsValue(s)
  {
    var t := "0" + s;
    if s == [] {
      assert t[..0] == "";
    } else {
      assert t[..|t| - 1] == "0" + s[..|s| - 1];
      assert t[|t| - 1] == s[|s| - 1];
      DigitsLeadingZero(s[..|s| - 1]);
    }
  }

  /** An answer of two or more digits without a leading zero is at least 10,
      beyond the three entries of the prompt, so it gives "nature". */
  lemma MultiDigitNature(s: string)
    requires AllDigits(s) && |s| >= 2 && s[0] != '0'
    ensures CategoryFor(Some(s)) == "nature"
  {
  }

  /** "1", "2" and "3" pick the three categories. */
  lemma CategoryChoices()
    ensures CategoryFor(Some("1")) == "nature"
    ensures CategoryFor(Some("2")) == "city"
    ensures CategoryFor(Some("3")) == "abstract"
  {
    assert DigitsValue("1") == 1 by { assert "1"[..0] == ""; }
    assert DigitsValue("2") == 2 by { assert "2"[..0] == ""; }
    assert DigitsValue("3") == 3 by { assert "3"[..0] == ""; }
  }

  /** Any answer whose number is not 2 or 3 (a cancelled prompt, an empty
      answer, "1", a word, "7") gives "nature". */
  lemma CategoryOtherwise(choice: Option<string>)
    ensures CategoryFor(choice) != "nature" <==> ChoiceNumber(choice) == Some(2) || ChoiceNumber(choice) == Some(3)
  {
  }

  // ---------------------------------------------------------------------
  // Upload alt text and caption

  const CaptionLead := "New memory \U{2014} "

  function DashToSpace(c: char): char {
    if c == '-' || c == '_' then ' ' else c
  }

  /** `file.name.replace(/\.[^.]+$/, '').replace(/[-_]/g, ' ')`. */
  function UploadAlt(name: string): (alt: string)
    ensures |alt| == |StripFinalExtension(name)|
    ensures forall i :: 0 <= i < |alt| ==> alt[i] == DashToSpace(StripFinalExtension(name)[i])
    ensures forall i :: 0 <= i < |alt| ==> alt[i] != '-' && alt[i] != '_'
  {
    MapChars(StripFinalExtension(name), DashToSpace)
  }

  /** A name without dashes or underscores is its alt text, a dot and its
      extension. */
  lemma UploadAltRoundTrip(name: string)
    requires forall i :: 0 <= i < |name| ==> name[i] != '-' && name[i] != '_'
    requires Extension(name) != ""
    ensures UploadAlt(name) + "." + Extension(name) == name
  {
    var stem := StripFinalExtension(name);
    assert stem + "." + Extension(name) == name;
    forall i | 0 <= i < |stem| ensures UploadAlt(name)[i] == stem[i] {
      assert stem[i] == name[i];
    }
    assert UploadAlt(name) == stem;
  }

  /** `'New memory — ' + (alt || 'us')`. */
  function UploadCaption(alt: string): (caption: string)
    ensures |caption| > |CaptionLead| && caption[..|CaptionLead|] == CaptionLead
    ensures alt != "" ==> caption[|CaptionLead|..] == alt
    ensures alt == "" ==> caption[|CaptionLead|..] == "us"
  {
    CaptionLead + (if alt != "" then alt else "us")
  }

  /** The item an upload saves, with `id` standing for `uid()` and `now` for
      `Date.now()`. */
  function UploadedItem(name: string, id: string, src: string, tag: string, now: int): (item: SavedItem)
    ensures item.alt == Some(UploadAlt(name)) && item.captionText == Some(UploadCaption(UploadAlt(name)))
  {
    var alt := UploadAlt(name);
    SavedItem(id, src, Some(alt), Some(UploadCaption(alt)), Some(tag), Some(now))
  }
}
