/** The three orders of the sort selector and the stable sort `render` applies. */
module Ordering {
  import opened Text
  import opened Sequences
  import opened Games

  /** The order the sort selector asks for. */
  datatype SortKey = ByTitle | ByAdded | ByPopularity

  /** `"az"` sorts by title, `"new"` by `added`, and every other value,
      `"popular"` included, by popularity. */
  function SortKeyOf(sort: string): (key: SortKey)
    ensures key == ByTitle <==> sort == "az"
    ensures key == ByAdded <==> sort == "new"
    ensures key == ByPopularity <==> sort != "az" && sort != "new"
  {
    if sort == "az" then ByTitle else if sort == "new" then ByAdded else ByPopularity
  }

  /** Three-way comparison of titles in code-unit order. */
  function CompareTitles(a: string, b: string): (c: int)
    ensures c == 0 <==> a == b
    ensures c < 0 <==> CodeUnitLess(a, b)
    ensures c > 0 <==> CodeUnitLess(b, a)
  {
    CodeUnitLessIrreflexive(a);
    CodeUnitLessAsymmetric(a, b);
    CodeUnitLessTotal(a, b);
    if a == b then 0 else if CodeUnitLess(a, b) then -1 else 1
  }

  /** The comparator handed to `list.sort`: negative when `a` goes first,
      positive when `b` goes first, zero for a tie. */
  function Compare(key: SortKey, a: Game, b: Game): int {
    match key
    case ByTitle => CompareTitles(a.title, b.title)
    case ByAdded => AddedOf(b) - AddedOf(a)
    case ByPopularity => PopularityOf(b) - PopularityOf(a)
  }

  /** Swapping the arguments flips the sign: the comparator is consistent. */
  lemma CompareAntisymmetric(key: SortKey, a: Game, b: Game)
    ensures Compare(key, a, a) == 0
    ensures Compare(key, a, b) == 0 <==> Compare(key, b, a) == 0
    ensures Compare(key, a, b) < 0 <==> Compare(key, b, a) > 0
  {
    if key == ByTitle {
      var _ := CompareTitles(a.title, a.title);
      var _ := CompareTitles(a.title, b.title);
      var _ := CompareTitles(b.title, a.title);
    }
  }

  /** The comparator orders games transitively, ties included. */
  lemma CompareTransitive(key: SortKey, a: Game, b: Game, c: Game)
    ensures Compare(key, a, b) <= 0 && Compare(key, b, c) <= 0 ==> Compare(key, a, c) <= 0
    ensures Compare(key, a, b) == 0 && Compare(key, b, c) == 0 ==> Compare(key, a, c) == 0
  {
    if key == ByTitle {
      var _ := CompareTitles(a.title, b.title);
      var _ := CompareTitles(b.title, c.title);
      var _ := CompareTitles(a.title, c.title);
      CodeUnitLessTransitive(a.title, b.title, c.title);
    }
  }

  /** Every earlier element may stand before every later one. */
  predicate SortedBy(key: SortKey, s: seq<Game>) {
    forall i, j :: 0 <= i < j < |s| ==> Compare(key, s[i], s[j]) <= 0
  }

  lemma SortedTail(key: SortKey, s: seq<Game>)
    requires SortedBy(key, s) && s != []
    ensures SortedBy(key, s[1..])
  {
    var t := s[1..];
    forall i, j | 0 <= i < j < |t|
      ensures Compare(key, t[i], t[j]) <= 0
    {
      assert t[i] == s[i + 1] && t[j] == s[j + 1];
    }
  }

  /** Puts `x` in front of the first element it may precede. */
  function Insert(key: SortKey, x: Game, s: seq<Game>): seq<Game>
    decreases |s|
  {
    if s == [] then [x]
    else if Compare(key, x, s[0]) <= 0 then [x] + s
    else [s[0]] + Insert(key, x, s[1..])
  }

  /** A stable sort by the comparator (insertion sort). */
  function SortBy(key: SortKey, s: seq<Game>): seq<Game>
    decreases |s|
  {
    if s == [] then [] else Insert(key, s[0], SortBy(key, s[1..]))
  }

  lemma {:induction false} InsertCount(key: SortKey, x: Game, s: seq<Game>)
    ensures multiset(Insert(key, x, s)) == multiset(s) + multiset{x}
    decreases |s|
  {
    if s != [] && Compare(key, x, s[0]) > 0 {
      InsertCount(key, x, s[1..]);
      assert s == [s[0]] + s[1..];
    }
  }

  /** The sort is a permutation of its input. */
  lemma {:induction false} SortPermutes(key: SortKey, s: seq<Game>)
    ensures multiset(SortBy(key, s)) == multiset(s)
    decreases |s|
  {
    if s != [] {
      SortPermutes(key, s[1..]);
      InsertCount(key, s[0], SortBy(key, s[1..]));
      assert s == [s[0]] + s[1..];
    }
  }

  /** The sort neither adds nor drops games. */
  lemma SortLength(key: SortKey, s: seq<Game>)
    ensures |SortBy(key, s)| == |s|
  {
    SortPermutes(key, s);
    assert |multiset(SortBy(key, s))| == |multiset(s)|;
  }

  lemma {:induction false} InsertSorted(key: SortKey, x: Game, s: seq<Game>)
    requires SortedBy(key, s)
    ensures SortedBy(key, Insert(key, x, s))
    decreases |s|
  {
    if s == [] {
    } else if Compare(key, x, s[0]) <= 0 {
      var r := [x] + s;
      forall i, j | 0 <= i < j < |r|
        ensures Compare(key, r[i], r[j]) <= 0
      {
        if i == 0 && j > 1 {
          CompareTransitive(key, x, s[0], s[j - 1]);
        }
      }
    } else {
      var t := s[1..];
      InsertSorted(key, x, t);
      InsertCount(key, x, t);
      CompareAntisymmetric(key, x, s[0]);
      var r := [s[0]] + Insert(key, x, t);
      forall i, j | 0 <= i < j < |r|
        ensures Compare(key, r[i], r[j]) <= 0
      {
        if i == 0 {
          var y := r[j];
          assert y in multiset(Insert(key, x, t));
          if y != x {
            assert y in multiset(t);
            var k :| 0 <= k < |t| && t[k] == y;
            assert s[k + 1] == y;
          }
        }
      }
    }
  }

  /** The sort's result is ordered by the comparator. */
  lemma {:induction false} SortSorted(key: SortKey, s: seq<Game>)
    ensures SortedBy(key, SortBy(key, s))
    decreases |s|
  {
    if s != [] {
      SortSorted(key, s[1..]);
      InsertSorted(key, s[0], SortBy(key, s[1..]));
    }
  }

  /** Sorting an ordered sequence leaves it as it is. */
  lemma {:induction false} SortOfSorted(key: SortKey, s: seq<Game>)
    requires SortedBy(key, s)
    ensures SortBy(key, s) == s
    decreases |s|
  {
    if s != [] {
      var t := s[1..];
      SortedTail(key, s);
      SortOfSorted(key, t);
      if t != [] {
        assert Compare(key, s[0], t[0]) <= 0 by { assert t[0] == s[1]; }
      }
      assert s == [s[0]] + t;
    }
  }

  /** Tests whether a game ties with `g`. */
  function TiesWith(key: SortKey, g: Game): Game -> bool {
    x => Compare(key, x, g) == 0
  }

  /** The games of `s` that tie with `g`, in their order in `s`. */
  function Ties(key: SortKey, s: seq<Game>, g: Game): seq<Game> {
    Filter(s, TiesWith(key, g))
  }

  lemma TiesCons(key: SortKey, x: Game, s: seq<Game>, g: Game)
    ensures Ties(key, [x] + s, g) == (if Compare(key, x, g) == 0 then [x] else []) + Ties(key, s, g)
  {
    FilterCons(x, s, TiesWith(key, g));
  }

  lemma TiesMembership(key: SortKey, s: seq<Game>, g: Game, x: Game)
    ensures x in Ties(key, s, g) <==> x in s && Compare(key, x, g) == 0
  {
    FilterMembership(s, TiesWith(key, g), x);
  }

  /** Inserting into an ordered sequence puts `x` at the head of its tie group. */
  lemma {:induction false} InsertTies(key: SortKey, x: Game, s: seq<Game>, g: Game)
    requires SortedBy(key, s)
    ensures Ties(key, Insert(key, x, s), g) == (if Compare(key, x, g) == 0 then [x] else []) + Ties(key, s, g)
    decreases |s|
  {
    if s == [] {
      TiesCons(key, x, [], g);
      assert [x] + [] == [x];
    } else if Compare(key, x, s[0]) <= 0 {
      TiesCons(key, x, s, g);
    } else {
      var t := s[1..];
      SortedTail(key, s);
      InsertTies(key, x, t, g);
      assert s == [s[0]] + t;
      InsertTiesStep(key, x, s[0], t, g);
    }
  }

  /** One step of InsertTies: `x` passes the head `y`, and `y` never ties
      with a game `x` ties with, so the head keeps its place in every group. */
  lemma InsertTiesStep(key: SortKey, x: Game, y: Game, t: seq<Game>, g: Game)
    requires Compare(key, x, y) > 0
    requires Ties(key, Insert(key, x, t), g) == (if Compare(key, x, g) == 0 then [x] else []) + Ties(key, t, g)
    ensures Ties(key, [y] + Insert(key, x, t), g) == (if Compare(key, x, g) == 0 then [x] else []) + Ties(key, [y] + t, g)
  {
    TiesCons(key, y, Insert(key, x, t), g);
    TiesCons(key, y, t, g);
    CompareAntisymmetric(key, y, g);
    CompareTransitive(key, x, g, y);
  }

  /** Stability: the games that tie with any `g` keep their input order. */
  lemma {:induction false} SortStable(key: SortKey, s: seq<Game>, g: Game)
    ensures Ties(key, SortBy(key, s), g) == Ties(key, s, g)
    decreases |s|
  {
    if s != [] {
      SortStable(key, s[1..], g);
      SortSorted(key, s[1..]);
      InsertTies(key, s[0], SortBy(key, s[1..]), g);
      TiesCons(key, s[0], s[1..], g);
      assert s == [s[0]] + s[1..];
    }
  }

  /** In an ordered sequence, the head may precede every game that has a tie in it. */
  lemma TieGroupFollowsHead(key: SortKey, s: seq<Game>, g: Game)
    requires SortedBy(key, s) && Ties(key, s, g) != []
    ensures s != [] && Compare(key, s[0], g) <= 0
  {
    var z := Ties(key, s, g)[0];
    TiesMembership(key, s, g, z);
    var k :| 0 <= k < |s| && s[k] == z;
    CompareAntisymmetric(key, s[0], z);
    CompareTransitive(key, s[0], z, g);
  }

  /** A sequence's head leads its own tie group. */
  lemma HeadLeadsTies(key: SortKey, s: seq<Game>)
    requires s != []
    ensures Ties(key, s, s[0]) == [s[0]] + Ties(key, s[1..], s[0])
  {
    CompareAntisymmetric(key, s[0], s[0]);
    TiesCons(key, s[0], s[1..], s[0]);
    assert s == [s[0]] + s[1..];
  }

  /** Two ordered sequences whose tie groups agree are equal. */
  lemma {:induction false} SortedTiesDetermine(key: SortKey, a: seq<Game>, b: seq<Game>)
    requires SortedBy(key, a) && SortedBy(key, b)
    requires forall g :: Ties(key, a, g) == Ties(key, b, g)
    ensures a == b
    decreases |a|
  {
    if a != [] {
      HeadLeadsTies(key, a);
      assert Ties(key, b, a[0]) == Ties(key, a, a[0]);
      TieGroupFollowsHead(key, b, a[0]);
    }
    if b != [] {
      HeadLeadsTies(key, b);
      assert Ties(key, a, b[0]) == Ties(key, b, b[0]);
      TieGroupFollowsHead(key, a, b[0]);
    }
    if a != [] && b != [] {
      var x, y := a[0], b[0];
      CompareAntisymmetric(key, x, y);
      assert Compare(key, y, x) == 0;
      // both heads lead the tie group of x
      TiesCons(key, y, b[1..], x);
      assert b == [y] + b[1..];
      assert Ties(key, b, x) == [y] + Ties(key, b[1..], x);
      assert Ties(key, a, x)[0] == x && Ties(key, b, x)[0] == y;
      assert x == y;
      forall g
        ensures Ties(key, a[1..], g) == Ties(key, b[1..], g)
      {
        TiesCons(key, x, a[1..], g);
        TiesCons(key, x, b[1..], g);
        assert a == [x] + a[1..];
        var head := if Compare(key, x, g) == 0 then [x] else [];
        assert head + Ties(key, a[1..], g) == head + Ties(key, b[1..], g);
        assert Ties(key, a[1..], g) == (head + Ties(key, a[1..], g))[|head|..];
      }
      SortedTail(key, a);
      SortedTail(key, b);
      SortedTiesDetermine(key, a[1..], b[1..]);
      assert a == [x] + a[1..];
    }
  }

  /** Any ordered sequence that keeps every tie group of `s` in its input
      order is exactly SortBy(key, s): every stable sort by this comparator
      returns the same sequence. */
  lemma StableSortIsUnique(key: SortKey, s: seq<Game>, r: seq<Game>)
    requires SortedBy(key, r)
    requires forall g :: Ties(key, r, g) == Ties(key, s, g)
    ensures r == SortBy(key, s)
  {
    SortSorted(key, s);
    forall g
      ensures Ties(key, r, g) == Ties(key, SortBy(key, s), g)
    {
      SortStable(key, s, g);
    }
    SortedTiesDetermine(key, r, SortBy(key, s));
  }
}
