/**
 * The `cardList` memo (src/App.js:109-116): the aggregated entries whose card
 * name contains the search text, ignoring case, sorted by the selected mode.
 */
module CardView {
  import opened Wrappers
  import opened Text
  import opened Assoc
  import opened Aggregation
  import opened Decks

  /** One `[card, cell]` pair of `Object.entries(aggregated)`. */
  type Entry = (string, Cell)

  datatype SortMode = Shared | Alpha | DeckList

  /** The `sortBy` select: any value other than the two named ones sorts by sharing. */
  function ModeOf(sortBy: string): (m: SortMode)
    ensures m == Alpha <==> sortBy == "alpha"
    ensures m == DeckList <==> sortBy == "decks"
  {
    if sortBy == "alpha" then Alpha
    else if sortBy == "decks" then DeckList
    else Shared
  }

  // ---------------------------------------------------------------- filter

  /** `card.toLowerCase().includes(q)` with `q` the lower-cased search text. */
  predicate Matches(card: string, search: string) {
    Contains(Lower(card), Lower(search))
  }

  function FilterEntries(entries: seq<Entry>, search: string): (r: seq<Entry>)
    ensures |r| <= |entries|
    ensures forall e :: e in r <==> e in entries && Matches(e.0, search)
    ensures forall e :: multiset(r)[e] == if Matches(e.0, search) then multiset(entries)[e] else 0
  {
    if entries == [] then []
    else
      assert entries == [entries[0]] + entries[1..];
      (if Matches(entries[0].0, search) then [entries[0]] else []) + FilterEntries(entries[1..], search)
  }

  /** An empty search keeps every entry, in order. */
  lemma {:induction false} FilterEmptySearch(entries: seq<Entry>)
    ensures FilterEntries(entries, "") == entries
    decreases |entries|
  {
    if entries != [] {
      ContainsEmpty(Lower(entries[0].0));
      FilterEmptySearch(entries[1..]);
    }
  }

  lemma LowerIdempotent(s: string)
    ensures Lower(Lower(s)) == Lower(s)
  {
  }

  /** The search ignores the case of the search text. */
  lemma {:induction false} FilterIgnoresSearchCase(entries: seq<Entry>, search: string)
    ensures FilterEntries(entries, Lower(search)) == FilterEntries(entries, search)
    decreases |entries|
  {
    if entries != [] {
      LowerIdempotent(search);
      FilterIgnoresSearchCase(entries[1..], search);
    }
  }

  // ---------------------------------------------------------------- order

  /** `Object.keys(cell).join(',')`. */
  function DeckNames(e: Entry): string {
    JoinWith(Keys(e.1), ",")
  }

  /**
   * The `decks` sort key of a card of the index: the names of the selected
   * decks holding it, joined by `,`, in the order of the first such deck of
   * each name.
   */
  lemma DeckNamesOfCell(decks: seq<Deck>, card: string)
    ensures DeckNames((card, CellOf(AggregateDecks(decks), card))) == JoinWith(KeyFold(Holders(decks, card)), ",")
  {
    CellKeys(decks, card);
  }

  /** `e` may come before `f`: the comparator returns a value `<= 0`. */
  predicate Precedes(mode: SortMode, e: Entry, f: Entry) {
    match mode
    case Alpha => LexLe(e.0, f.0)
    case DeckList => LexLe(DeckNames(e), DeckNames(f))
    case Shared => |f.1| < |e.1| || (|e.1| == |f.1| && LexLe(e.0, f.0))
  }

  lemma PrecedesTotal(mode: SortMode, e: Entry, f: Entry)
    ensures Precedes(mode, e, f) || Precedes(mode, f, e)
  {
    match mode
    case Alpha => LexLeTotal(e.0, f.0);
    case DeckList => LexLeTotal(DeckNames(e), DeckNames(f));
    case Shared => LexLeTotal(e.0, f.0);
  }

  lemma PrecedesTransitive(mode: SortMode, e: Entry, f: Entry, g: Entry)
    requires Precedes(mode, e, f) && Precedes(mode, f, g)
    ensures Precedes(mode, e, g)
  {
    match mode
    case Alpha => LexLeTransitive(e.0, f.0, g.0);
    case DeckList => LexLeTransitive(DeckNames(e), DeckNames(f), DeckNames(g));
    case Shared =>
      if |e.1| == |f.1| == |g.1| {
        LexLeTransitive(e.0, f.0, g.0);
      }
  }

  /** In shared order a card in more decks comes first. */
  lemma SharedPutsWiderFirst(e: Entry, f: Entry)
    requires |f.1| < |e.1|
    ensures Precedes(Shared, e, f) && !Precedes(Shared, f, e)
  {
  }

  ghost predicate Sorted(mode: SortMode, s: seq<Entry>) {
    forall i, j :: 0 <= i < j < |s| ==> Precedes(mode, s[i], s[j])
  }

  // ---------------------------------------------------------------- sort

  /** `items.sort(comparator)`, in place: an insertion sort by adjacent swaps. */
  method SortEntries(mode: SortMode, a: array<Entry>)
    modifies a
    ensures Sorted(mode, a[..])
    ensures multiset(a[..]) == multiset(old(a[..]))
  {
    var i := 0;
    while i < a.Length
      invariant 0 <= i <= a.Length
      invariant Sorted(mode, a[..i])
      invariant multiset(a[..]) == multiset(old(a[..]))
    {
      InsertNext(mode, a, i);
      i := i + 1;
    }
    assert a[..i] == a[..];
  }

  /**
   * The insertion invariant on `s[..i + 1]`: apart from the element at `j`
   * being moved, the prefix is sorted, and that element precedes everything
   * to its right.
   */
  ghost predicate Inserting(mode: SortMode, s: seq<Entry>, i: nat, j: nat)
    requires j <= i < |s|
  {
    (forall k, l :: 0 <= k < l <= i && l != j && k != j ==> Precedes(mode, s[k], s[l])) &&
    (forall l :: j < l <= i ==> Precedes(mode, s[j], s[l]))
  }

  /** Swapping the moved element with a left neighbour that may not precede it keeps the invariant. */
  lemma SwapKeepsInserting(mode: SortMode, s: seq<Entry>, i: nat, j: nat)
    requires 0 < j <= i < |s|
    requires Inserting(mode, s, i, j)
    requires !Precedes(mode, s[j - 1], s[j])
    ensures Inserting(mode, s[j - 1 := s[j]][j := s[j - 1]], i, j - 1)
  {
    PrecedesTotal(mode, s[j - 1], s[j]);
  }

  /** A sorted prefix with one more element appended is the invariant with nothing moved yet. */
  lemma StartInserting(mode: SortMode, s: seq<Entry>, i: nat)
    requires i < |s| && Sorted(mode, s[..i])
    ensures Inserting(mode, s, i, i)
  {
    forall k, l | 0 <= k < l < i
      ensures Precedes(mode, s[k], s[l])
    {
      assert s[k] == s[..i][k] && s[l] == s[..i][l];
    }
  }

  lemma SwapPermutes(s: seq<Entry>, p: nat, q: nat)
    requires p < |s| && q < |s|
    ensures multiset(s[p := s[q]][q := s[p]]) == multiset(s)
  {
  }

  /** Once the left neighbour precedes the moved element, the prefix is sorted. */
  lemma InsertedSorted(mode: SortMode, s: seq<Entry>, i: nat, j: nat)
    requires j <= i < |s|
    requires Inserting(mode, s, i, j)
    requires j > 0 ==> Precedes(mode, s[j - 1], s[j])
    ensures Sorted(mode, s[..i + 1])
  {
    if j > 0 {
      forall k | 0 <= k < j - 1
        ensures Precedes(mode, s[k], s[j])
      {
        PrecedesTransitive(mode, s[k], s[j - 1], s[j]);
      }
    }
  }

  /** Moves `a[i]` left until the first `i + 1` elements are sorted. */
  method InsertNext(mode: SortMode, a: array<Entry>, i: nat)
    requires i < a.Length
    requires Sorted(mode, a[..i])
    modifies a
    ensures Sorted(mode, a[..i + 1])
    ensures multiset(a[..]) == multiset(old(a[..]))
  {
    var j := i;
    StartInserting(mode, a[..], i);
    while j > 0 && !Precedes(mode, a[j - 1], a[j])
      invariant 0 <= j <= i
      invariant Inserting(mode, a[..], i, j)
      invariant multiset(a[..]) == multiset(old(a[..]))
    {
      ghost var s := a[..];
      SwapKeepsInserting(mode, s, i, j);
      SwapPermutes(s, j - 1, j);
      a[j - 1], a[j] := a[j], a[j - 1];
      assert a[..] == s[j - 1 := s[j]][j := s[j - 1]];
      j := j - 1;
    }
    InsertedSorted(mode, a[..], i, j);
  }

  /**
   * The whole memo: the matching entries of the aggregation, each kept once,
   * in the order the mode asks for.
   */
  method CardList(aggregated: Index, search: string, sortBy: string) returns (items: seq<Entry>)
    ensures multiset(items) == multiset(FilterEntries(aggregated, search))
    ensures forall e :: e in items <==> e in aggregated && Matches(e.0, search)
    ensures Sorted(ModeOf(sortBy), items)
  {
    var filtered := FilterEntries(aggregated, search);
    var a := new Entry[|filtered|](k requires 0 <= k < |filtered| => filtered[k]);
    assert a[..] == filtered;
    SortEntries(ModeOf(sortBy), a);
    items := a[..];
    forall e
      ensures e in items <==> e in filtered
    {
      assert e in items <==> e in multiset(items);
      assert e in filtered <==> e in multiset(filtered);
    }
  }
}
