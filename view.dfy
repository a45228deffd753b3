/** The list `render` shows: the catalog narrowed by the search query and the
    active tags, then sorted by the selected order. */
module View {
  import opened Text
  import opened Sequences
  import opened Games
  import opened Ordering

  /** The search test: the query occurs in the lower-cased title or in the
      lower-cased description, a missing description reading as "". */
  predicate MatchesQuery(g: Game, query: string) {
    Contains(Lower(g.title), query) || Contains(Lower(DescriptionOf(g)), query)
  }

  /** The tag test: at least one of the game's tags is active. */
  predicate HasActiveTag(g: Game, active: set<string>) {
    exists t :: t in g.tags && t in active
  }

  function QueryTest(query: string): Game -> bool {
    g => MatchesQuery(g, query)
  }

  function TagTest(active: set<string>): Game -> bool {
    g => HasActiveTag(g, active)
  }

  /** The text filter, applied only when the query is non-empty: it keeps
      exactly the catalog games that match the query. */
  function TextFilter(games: seq<Game>, query: string): (list: seq<Game>)
    ensures query == "" ==> list == games
    ensures query != "" ==> forall g :: g in list <==> g in games && MatchesQuery(g, query)
  {
    forall g
      ensures g in Filter(games, QueryTest(query)) <==> g in games && MatchesQuery(g, query)
    {
      FilterMembership(games, QueryTest(query), g);
    }
    if query != "" then Filter(games, QueryTest(query)) else games
  }

  /** The tag filter, applied only when some tag is active: it keeps exactly
      the games that carry an active tag. */
  function TagFilter(games: seq<Game>, active: set<string>): (list: seq<Game>)
    ensures active == {} ==> list == games
    ensures active != {} ==> forall g :: g in list <==> g in games && HasActiveTag(g, active)
  {
    forall g
      ensures g in Filter(games, TagTest(active)) <==> g in games && HasActiveTag(g, active)
    {
      FilterMembership(games, TagTest(active), g);
    }
    if active != {} then Filter(games, TagTest(active)) else games
  }

  /** The list `render` computes: copy, text filter, tag filter, sort. */
  function ComputeView(games: seq<Game>, query: string, active: set<string>, sort: string): seq<Game> {
    SortBy(SortKeyOf(sort), TagFilter(TextFilter(games, query), active))
  }

  /** Whether a game survives both filters. */
  predicate Passes(g: Game, query: string, active: set<string>) {
    (query == "" || MatchesQuery(g, query)) && (active == {} || HasActiveTag(g, active))
  }

  function PassTest(query: string, active: set<string>): Game -> bool {
    g => Passes(g, query, active)
  }

  /** The games that survive both filters, in catalog order. */
  function Selected(games: seq<Game>, query: string, active: set<string>): seq<Game> {
    Filter(games, PassTest(query, active))
  }

  /** The two filters in turn select exactly the games passing both: they
      combine conjunctively. */
  lemma FiltersCombine(games: seq<Game>, query: string, active: set<string>)
    ensures TagFilter(TextFilter(games, query), active) == Selected(games, query, active)
  {
    var both := PassTest(query, active);
    if query == "" && active == {} {
      FilterAll(games, both);
    } else if query == "" {
      FilterCongruent(games, TagTest(active), both);
    } else if active == {} {
      FilterCongruent(games, QueryTest(query), both);
    } else {
      FilterCompose(games, QueryTest(query), TagTest(active), both);
    }
  }

  /** Before sorting, the selection keeps catalog order. */
  lemma SelectedInCatalogOrder(games: seq<Game>, query: string, active: set<string>)
    ensures IsSubsequence(Selected(games, query, active), games)
  {
    FilterIsSubsequence(games, PassTest(query, active));
  }

  /** The view is the selection, sorted. */
  lemma ViewIsSortedSelection(games: seq<Game>, query: string, active: set<string>, sort: string)
    ensures ComputeView(games, query, active, sort) == SortBy(SortKeyOf(sort), Selected(games, query, active))
  {
    FiltersCombine(games, query, active);
  }

  /** Each game appears in the view as often as in the catalog when it passes
      both filters, and not at all otherwise. */
  lemma ViewCount(games: seq<Game>, query: string, active: set<string>, sort: string, g: Game)
    ensures multiset(ComputeView(games, query, active, sort))[g]
         == if Passes(g, query, active) then multiset(games)[g] else 0
  {
    ViewIsSortedSelection(games, query, active, sort);
    SortPermutes(SortKeyOf(sort), Selected(games, query, active));
    FilterCount(games, PassTest(query, active), g);
  }

  /** A game is shown iff it is in the catalog, matches a non-empty query in
      its title or description, and carries an active tag when any is active. */
  lemma ViewMembership(games: seq<Game>, query: string, active: set<string>, sort: string, g: Game)
    ensures g in ComputeView(games, query, active, sort)
        <==> && g in games
             && (query == "" || Contains(Lower(g.title), query) || Contains(Lower(DescriptionOf(g)), query))
             && (active == {} || exists t :: t in g.tags && t in active)
  {
    ViewCount(games, query, active, sort, g);
  }

  /** The view is a sub-multiset of the catalog, so never longer. */
  lemma ViewWithinCatalog(games: seq<Game>, query: string, active: set<string>, sort: string)
    ensures multiset(ComputeView(games, query, active, sort)) <= multiset(games)
    ensures |ComputeView(games, query, active, sort)| <= |games|
  {
    ViewIsSortedSelection(games, query, active, sort);
    SortPermutes(SortKeyOf(sort), Selected(games, query, active));
    SortLength(SortKeyOf(sort), Selected(games, query, active));
    FilterSubMultiset(games, PassTest(query, active));
  }

  /** With an empty query and no active tag the view is the whole catalog,
      only reordered. */
  lemma ViewUnfiltered(games: seq<Game>, sort: string)
    ensures multiset(ComputeView(games, "", {}, sort)) == multiset(games)
    ensures ComputeView(games, "", {}, sort) == SortBy(SortKeyOf(sort), games)
  {
    SortPermutes(SortKeyOf(sort), games);
  }

  /** "az" orders titles ascending, "new" orders `added` descending, and any
      other value orders popularity descending, missing numbers as 0. */
  lemma ViewOrder(games: seq<Game>, query: string, active: set<string>, sort: string)
    ensures var v := ComputeView(games, query, active, sort);
      && (sort == "az" ==>
            forall i, j :: 0 <= i < j < |v| ==> v[i].title == v[j].title || CodeUnitLess(v[i].title, v[j].title))
      && (sort == "new" ==>
            forall i, j :: 0 <= i < j < |v| ==> AddedOf(v[i]) >= AddedOf(v[j]))
      && (sort != "az" && sort != "new" ==>
            forall i, j :: 0 <= i < j < |v| ==> PopularityOf(v[i]) >= PopularityOf(v[j]))
  {
    var v := ComputeView(games, query, active, sort);
    SortSorted(SortKeyOf(sort), TagFilter(TextFilter(games, query), active));
    if sort == "az" {
      forall i, j | 0 <= i < j < |v|
        ensures v[i].title == v[j].title || CodeUnitLess(v[i].title, v[j].title)
      {
        assert Compare(ByTitle, v[i], v[j]) <= 0;
      }
    }
  }

  /** Games with equal sort keys keep their relative catalog order. */
  lemma ViewStable(games: seq<Game>, query: string, active: set<string>, sort: string, g: Game)
    ensures Ties(SortKeyOf(sort), ComputeView(games, query, active, sort), g)
         == Ties(SortKeyOf(sort), Selected(games, query, active), g)
  {
    ViewIsSortedSelection(games, query, active, sort);
    SortStable(SortKeyOf(sort), Selected(games, query, active), g);
  }

  /** Sorting the view again by the same order changes nothing. */
  lemma ViewSortIdempotent(games: seq<Game>, query: string, active: set<string>, sort: string)
    ensures SortBy(SortKeyOf(sort), ComputeView(games, query, active, sort))
         == ComputeView(games, query, active, sort)
  {
    var key := SortKeyOf(sort);
    SortSorted(key, TagFilter(TextFilter(games, query), active));
    SortOfSorted(key, ComputeView(games, query, active, sort));
  }

  /** The view is empty iff no catalog game passes both filters. */
  lemma ViewEmpty(games: seq<Game>, query: string, active: set<string>, sort: string)
    ensures ComputeView(games, query, active, sort) == []
        <==> forall i :: 0 <= i < |games| ==> !Passes(games[i], query, active)
  {
    var view := ComputeView(games, query, active, sort);
    if view != [] {
      ViewCount(games, query, active, sort, view[0]);
      assert view[0] in multiset(games);
      var i :| 0 <= i < |games| && games[i] == view[0];
    }
    if i :| 0 <= i < |games| && Passes(games[i], query, active) {
      ViewCount(games, query, active, sort, games[i]);
      assert games[i] in multiset(view);
    }
  }

  /** A two-game catalog to work examples on: Chess (popularity 5, tagged
      "strategy") and Snake (popularity 9, tagged "arcade"). */
  const chess := Game("Chess", None, ["strategy"], "", None, Some(5), None)
  const snake := Game("Snake", None, ["arcade"], "", None, Some(9), None)

  /** Popularity order puts Snake (9) before Chess (5). */
  lemma PopularityExample()
    ensures ComputeView([chess, snake], "", {}, "popular") == [snake, chess]
  {
    assert [chess, snake][1..] == [snake];
    assert SortBy(ByPopularity, [snake]) == Insert(ByPopularity, snake, SortBy(ByPopularity, [])) == [snake];
    assert SortBy(ByPopularity, [chess, snake]) == Insert(ByPopularity, chess, [snake]);
    assert Insert(ByPopularity, chess, [snake]) == [snake] + Insert(ByPopularity, chess, []);
  }

  /** Title order keeps Chess before Snake. */
  lemma TitleExample()
    ensures ComputeView([chess, snake], "", {}, "az") == [chess, snake]
  {
    assert [chess, snake][1..] == [snake];
    assert CodeUnitLess("Chess", "Snake");
    assert SortBy(ByTitle, [snake]) == Insert(ByTitle, snake, SortBy(ByTitle, [])) == [snake];
    assert SortBy(ByTitle, [chess, snake]) == Insert(ByTitle, chess, [snake]) == [chess, snake];
  }

  /** The query "chess" matches Chess's title and nothing of Snake. */
  lemma QueryExample()
    ensures ComputeView([chess, snake], "chess", {}, "popular") == [chess]
  {
    var games := [chess, snake];
    assert games[1..] == [snake];
    assert Lower("Chess") == "chess" && Lower("Snake") == "snake";
    assert MatchesQuery(chess, "chess");
    assert !Contains("snake", "chess") by {
      assert "snake"[..5] != "chess" by { assert "snake"[0] != "chess"[0]; }
    }
    assert !MatchesQuery(snake, "chess");
    assert Filter(games, QueryTest("chess")) == [chess] + Filter([snake], QueryTest("chess"));
    assert Filter([snake], QueryTest("chess")) == [] + Filter([snake][1..], QueryTest("chess"));
    assert Filter(games, QueryTest("chess")) == [chess];
    assert SortBy(ByPopularity, [chess]) == Insert(ByPopularity, chess, SortBy(ByPopularity, [])) == [chess];
  }

  /** The tag "arcade" selects Snake only. */
  lemma TagExample()
    ensures ComputeView([chess, snake], "", {"arcade"}, "popular") == [snake]
  {
    var games := [chess, snake];
    assert games[1..] == [snake];
    assert !HasActiveTag(chess, {"arcade"}) by {
      assert "strategy" != "arcade" by { assert "strategy"[0] != "arcade"[0]; }
    }
    assert HasActiveTag(snake, {"arcade"}) by { assert "arcade" in snake.tags; }
    assert Filter(games, TagTest({"arcade"})) == [] + Filter([snake], TagTest({"arcade"}));
    assert Filter([snake], TagTest({"arcade"})) == [snake] + Filter([snake][1..], TagTest({"arcade"}));
    assert Filter(games, TagTest({"arcade"})) == [snake];
    assert SortBy(ByPopularity, [snake]) == Insert(ByPopularity, snake, SortBy(ByPopularity, [])) == [snake];
  }
}
