/** The sequences the player shows and queues: the sorted library, the search
    result, a shuffled list, and the position of an entry in a sequence. */
module Views {
  import opened Text
  import opened Modes
  import opened Tracks
  import Sorting

  // ---------------------------------------------------------------------------
  // Sorting the library

  /** The keys OrderBy/ThenBy compare, most significant first. */
  function SortKey(mode: SortMode, x: Item): seq<string> {
    match mode
    case Alphabetical => [x.title]
    case Album => [x.album, x.title]
    case Artist => [x.artist, x.title]
    case ArtistAlbum => [x.artist, x.album, x.title]
  }

  function KeyOf(mode: SortMode): Item -> seq<string> {
    x => SortKey(mode, x)
  }

  /** Lexicographic order on key lists, each key in ordinal order. */
  predicate KeyLeq(a: seq<string>, b: seq<string>) {
    if a == [] then true
    else if b == [] then false
    else if a[0] == b[0] then KeyLeq(a[1..], b[1..])
    else StrLeq(a[0], b[0])
  }

  lemma {:induction false} KeyLeqTotalAt(a: seq<string>, b: seq<string>)
    ensures KeyLeq(a, b) || KeyLeq(b, a)
  {
    if a != [] && b != [] {
      if a[0] == b[0] {
        KeyLeqTotalAt(a[1..], b[1..]);
      } else {
        StrLeqTotal(a[0], b[0]);
      }
    }
  }

  lemma {:induction false} KeyLeqTransitiveAt(a: seq<string>, b: seq<string>, c: seq<string>)
    requires KeyLeq(a, b) && KeyLeq(b, c)
    ensures KeyLeq(a, c)
  {
    if a != [] && b != [] && c != [] {
      if a[0] == b[0] && b[0] == c[0] {
        KeyLeqTransitiveAt(a[1..], b[1..], c[1..]);
      } else if a[0] != b[0] && b[0] != c[0] {
        StrLeqTransitive(a[0], b[0], c[0]);
        if a[0] == c[0] {
          StrLeqAntisymmetric(a[0], b[0]);
        }
      }
    }
  }

  lemma KeyLeqTotalOrder()
    ensures Sorting.Total(KeyLeq) && Sorting.Transitive(KeyLeq)
  {
    forall a, b
      ensures KeyLeq(a, b) || KeyLeq(b, a)
    {
      KeyLeqTotalAt(a, b);
    }
    forall a, b, c | KeyLeq(a, b) && KeyLeq(b, c)
      ensures KeyLeq(a, c)
    {
      KeyLeqTransitiveAt(a, b, c);
    }
  }

  /** The entries of s whose sort key under mode is k, in their order in s. */
  function WithSortKey(s: seq<Item>, mode: SortMode, k: seq<string>): seq<Item> {
    Sorting.WithKey(s, KeyOf(mode), k)
  }

  /** The library ordered by the mode's keys: a permutation of it, in
      non-decreasing key order, entries with equal keys in library order. */
  function SortedView(items: seq<Item>, mode: SortMode): (r: seq<Item>)
    ensures multiset(r) == multiset(items)
    ensures forall i, j | 0 <= i < j < |r| :: KeyLeq(SortKey(mode, r[i]), SortKey(mode, r[j]))
    ensures forall k :: WithSortKey(r, mode, k) == WithSortKey(items, mode, k)
  {
    var r := Sorting.Sort(items, KeyOf(mode), KeyLeq);
    Sorting.SortMultiset(items, KeyOf(mode), KeyLeq);
    KeyLeqTotalOrder();
    Sorting.SortSorted(items, KeyOf(mode), KeyLeq);
    forall k
      ensures WithSortKey(r, mode, k) == WithSortKey(items, mode, k)
    {
      Sorting.SortWithKey(items, KeyOf(mode), KeyLeq, k);
    }
    r
  }

  // ---------------------------------------------------------------------------
  // Position of an entry

  /** List.IndexOf: the first position of x in s, or -1 when x is absent. */
  function IndexOf(s: seq<Item>, x: Item): (r: int)
    ensures r == -1 <==> x !in s
    ensures r != -1 ==> 0 <= r < |s| && s[r] == x && forall j | 0 <= j < r :: s[j] != x
  {
    if s == [] then -1
    else if s[0] == x then 0
    else
      var k := IndexOf(s[1..], x);
      if k == -1 then -1 else k + 1
  }

  // ---------------------------------------------------------------------------
  // Search

  /** The search filter: title or artist contains the text, ignoring case. */
  predicate Matches(x: Item, text: string) {
    ContainsIgnoreCase(x.title, text) || ContainsIgnoreCase(x.artist, text)
  }

  /** The library entries that match, in library order. */
  function Search(items: seq<Item>, text: string): seq<Item> {
    if items == [] then []
    else (if Matches(items[0], text) then [items[0]] else []) + Search(items[1..], text)
  }

  /** a is b with some entries left out, the rest in their order in b. */
  predicate IsSubsequence(a: seq<Item>, b: seq<Item>)
    decreases |b|
  {
    if b == [] then a == []
    else (a != [] && a[0] == b[0] && IsSubsequence(a[1..], b[1..])) || IsSubsequence(a, b[1..])
  }

  /** Every matching entry is kept as often as it occurs, every other one is dropped,
      and the kept ones stay in library order. */
  lemma {:induction false} SearchExact(items: seq<Item>, text: string, x: Item)
    ensures multiset(Search(items, text))[x] == if Matches(x, text) then multiset(items)[x] else 0
    ensures IsSubsequence(Search(items, text), items)
  {
    if items != [] {
      SearchExact(items[1..], text, x);
      assert items == [items[0]] + items[1..];
      var rest := Search(items[1..], text);
      if Matches(items[0], text) {
        var a := Search(items, text);
        assert a == [items[0]] + rest;
        assert a[0] == items[0] && a[1..] == rest;
        assert IsSubsequence(a[1..], items[1..]);
      } else {
        assert Search(items, text) == rest;
        assert IsSubsequence(rest, items[1..]);
      }
    }
  }

  /** When every entry matches, the search shows the whole library in library order. */
  lemma {:induction false} SearchAllMatch(items: seq<Item>, text: string)
    requires forall i | 0 <= i < |items| :: Matches(items[i], text)
    ensures Search(items, text) == items
  {
    if items != [] {
      SearchAllMatch(items[1..], text);
    }
  }

  // ---------------------------------------------------------------------------
  // Shuffle

  /** The i-th element paired with the i-th random number drawn. */
  function Tagged(s: seq<Item>, draws: nat -> int): seq<(int, Item)> {
    seq(|s|, i requires 0 <= i < |s| => (draws(i), s[i]))
  }

  function DrawKey(p: (int, Item)): int { p.0 }

  function DrawItem(p: (int, Item)): Item { p.1 }

  predicate IntLeq(a: int, b: int) { a <= b }

  /** OrderBy(x => random.Next()): the elements ordered stably by the random
      numbers drawn for them, draws(i) being the one for position i. */
  function ShuffleBy(s: seq<Item>, draws: nat -> int): (r: seq<Item>)
    ensures multiset(r) == multiset(s)
  {
    var t := Tagged(s, draws);
    var sorted := Sorting.Sort(t, DrawKey, IntLeq);
    Sorting.SortProjectMultiset(t, DrawKey, IntLeq, DrawItem);
    assert Sorting.Project(t, DrawItem) == s;
    Sorting.Project(sorted, DrawItem)
  }
}
