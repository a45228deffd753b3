/** The browser's shared `state` object and the handlers that update it:
    loading the catalog, typing in the search box, choosing a sort order,
    clicking a tag, and rendering the list. */
module Browser {
  import opened Text
  import opened Sequences
  import opened Games
  import opened Ordering
  import opened View
  import opened Tags

  class CatalogState {
    var query: string
    var activeTags: set<string>
    var sort: string
    var games: seq<Game>
    var tags: seq<string>

    /** The query is stored normalised, the tag list is the catalog's
        vocabulary, and only vocabulary tags can be active. */
    ghost predicate Valid()
      reads this
    {
      && IsNormalized(query)
      && tags == TagVocabulary(games)
      && (forall t :: t in activeTags ==> t in tags)
    }

    /** The initial state: no query, no active tag, popularity order, no catalog. */
    constructor ()
      ensures Valid()
      ensures query == "" && activeTags == {} && sort == "popular"
      ensures games == [] && tags == []
    {
      query := "";
      activeTags := {};
      sort := "popular";
      games := [];
      tags := [];
    }

    /** `init`: stores the fetched catalog and derives its tag vocabulary.
        It runs once, before any tag button exists. */
    method Load(catalog: seq<Game>)
      requires Valid() && activeTags == {}
      modifies this
      ensures Valid()
      ensures games == catalog && tags == TagVocabulary(catalog)
      ensures query == old(query) && activeTags == old(activeTags) && sort == old(sort)
    {
      games := catalog;
      tags := TagVocabulary(catalog);
    }

    /** The search box's input handler: stores the trimmed, lower-cased text. */
    method SetQuery(raw: string)
      requires Valid()
      modifies this
      ensures Valid()
      ensures query == NormalizeQuery(raw)
      ensures activeTags == old(activeTags) && sort == old(sort)
      ensures games == old(games) && tags == old(tags)
    {
      query := NormalizeQuery(raw);
    }

    /** The sort selector's change handler: stores the chosen value as is. */
    method SetSort(value: string)
      requires Valid()
      modifies this
      ensures Valid()
      ensures sort == value
      ensures query == old(query) && activeTags == old(activeTags)
      ensures games == old(games) && tags == old(tags)
    {
      sort := value;
    }

    /** A tag button's click handler; buttons exist only for vocabulary tags.
        The clicked tag's membership flips and no other tag's changes. */
    method ToggleTag(tag: string)
      requires Valid() && tag in tags
      modifies this
      ensures Valid()
      ensures activeTags == Toggle(old(activeTags), tag)
      ensures tag in activeTags <==> tag !in old(activeTags)
      ensures forall t :: t != tag ==> (t in activeTags <==> t in old(activeTags))
      ensures query == old(query) && sort == old(sort)
      ensures games == old(games) && tags == old(tags)
    {
      if tag in activeTags {
        activeTags := activeTags - {tag};
      } else {
        activeTags := activeTags + {tag};
      }
    }

    /** `render`: the list shown in the grid, and whether the empty-state
        indicator is hidden, which it is iff the list is non-empty. */
    method Render() returns (view: seq<Game>, emptyHidden: bool)
      ensures view == ComputeView(games, query, activeTags, sort)
      ensures emptyHidden <==> view != []
    {
      var list := games;
      if query != "" {
        list := Filter(list, QueryTest(query));
      }
      if activeTags != {} {
        list := Filter(list, TagTest(activeTags));
      }
      list := SortBy(SortKeyOf(sort), list);
      view := list;
      emptyHidden := |list| > 0;
    }
  }
}
