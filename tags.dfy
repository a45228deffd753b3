/** The tag vocabulary derived when the catalog loads, and the toggling of
    active tags by the tag buttons. */
module Tags {
  import opened Text
  import opened Games

  /** `games.flatMap(g => g.tags)`: every tag of every game, in catalog order. */
  function AllTags(games: seq<Game>): seq<string>
    decreases |games|
  {
    if games == [] then [] else games[0].tags + AllTags(games[1..])
  }

  /** Some game of the catalog carries tag `t`. */
  predicate OccursInCatalog(t: string, games: seq<Game>) {
    exists i :: 0 <= i < |games| && t in games[i].tags
  }

  lemma {:induction false} AllTagsMembership(games: seq<Game>, t: string)
    ensures t in AllTags(games) <==> OccursInCatalog(t, games)
    decreases |games|
  {
    if games != [] {
      AllTagsMembership(games[1..], t);
      if OccursInCatalog(t, games[1..]) {
        var i :| 0 <= i < |games| - 1 && t in games[1..][i].tags;
        assert t in games[i + 1].tags;
      }
      if OccursInCatalog(t, games) && t !in games[0].tags {
        var i :| 0 <= i < |games| && t in games[i].tags;
        assert t in games[1..][i - 1].tags;
      }
    }
  }

  /** Each tag comes before every later one in code-unit order, so no tag repeats. */
  predicate StrictlyAscending(s: seq<string>) {
    forall i, j :: 0 <= i < j < |s| ==> CodeUnitLess(s[i], s[j])
  }

  /** Adds `t` to an ascending list of distinct tags, unless it is there. */
  function AddTag(t: string, s: seq<string>): seq<string>
    decreases |s|
  {
    if s == [] then [t]
    else if t == s[0] then s
    else if CodeUnitLess(t, s[0]) then [t] + s
    else [s[0]] + AddTag(t, s[1..])
  }

  lemma {:induction false} AddTagSpec(t: string, s: seq<string>)
    requires StrictlyAscending(s)
    ensures StrictlyAscending(AddTag(t, s))
    ensures forall u :: u in AddTag(t, s) <==> u == t || u in s
    decreases |s|
  {
    if s == [] {
    } else if t == s[0] {
    } else if CodeUnitLess(t, s[0]) {
      var r := [t] + s;
      forall i, j | 0 <= i < j < |r|
        ensures CodeUnitLess(r[i], r[j])
      {
        if i == 0 && j > 1 {
          CodeUnitLessTransitive(t, s[0], s[j - 1]);
        }
      }
    } else {
      var rest := s[1..];
      assert StrictlyAscending(rest) by {
        forall i, j | 0 <= i < j < |rest|
          ensures CodeUnitLess(rest[i], rest[j])
        {
          assert rest[i] == s[i + 1] && rest[j] == s[j + 1];
        }
      }
      AddTagSpec(t, rest);
      CodeUnitLessTotal(t, s[0]);
      assert s == [s[0]] + rest;
      var r := [s[0]] + AddTag(t, rest);
      forall i, j | 0 <= i < j < |r|
        ensures CodeUnitLess(r[i], r[j])
      {
        if i == 0 && r[j] != t {
          assert r[j] in rest;
          var k :| 0 <= k < |rest| && rest[k] == r[j];
          assert s[k + 1] == r[j];
        }
      }
    }
  }

  /** `Array.from(new Set(tags)).sort()`: the distinct tags, ascending. */
  function SortedDistinct(tags: seq<string>): seq<string>
    decreases |tags|
  {
    if tags == [] then [] else AddTag(tags[0], SortedDistinct(tags[1..]))
  }

  lemma {:induction false} SortedDistinctSpec(tags: seq<string>)
    ensures StrictlyAscending(SortedDistinct(tags))
    ensures forall t :: t in SortedDistinct(tags) <==> t in tags
    decreases |tags|
  {
    if tags != [] {
      SortedDistinctSpec(tags[1..]);
      AddTagSpec(tags[0], SortedDistinct(tags[1..]));
      assert tags == [tags[0]] + tags[1..];
    }
  }

  /** The vocabulary `init` stores: strictly ascending (so free of duplicates)
      and holding exactly the tags some game carries. */
  function TagVocabulary(games: seq<Game>): (vocabulary: seq<string>)
    ensures StrictlyAscending(vocabulary)
    ensures forall t :: t in vocabulary <==> OccursInCatalog(t, games)
  {
    SortedDistinctSpec(AllTags(games));
    forall t
      ensures t in AllTags(games) <==> OccursInCatalog(t, games)
    {
      AllTagsMembership(games, t);
    }
    SortedDistinct(AllTags(games))
  }

  /** Two strictly ascending lists with the same tags are equal: the
      vocabulary does not depend on the order in which the set was built. */
  lemma {:induction false} AscendingUnique(a: seq<string>, b: seq<string>)
    requires StrictlyAscending(a) && StrictlyAscending(b)
    requires forall t :: t in a <==> t in b
    ensures a == b
    decreases |a|
  {
    if a != [] {
      assert a[0] in b;
    }
    if b != [] {
      assert b[0] in a;
    }
    if a != [] && b != [] {
      var x, y := a[0], b[0];
      assert x in b && y in a;
      var j :| 0 <= j < |b| && b[j] == x;
      var i :| 0 <= i < |a| && a[i] == y;
      if x != y {
        assert i > 0 && j > 0;
        CodeUnitLessAsymmetric(x, y);
        assert false;
      }
      var a', b' := a[1..], b[1..];
      assert StrictlyAscending(a') by {
        forall p, q | 0 <= p < q < |a'|
          ensures CodeUnitLess(a'[p], a'[q])
        {
          assert a'[p] == a[p + 1] && a'[q] == a[q + 1];
        }
      }
      assert StrictlyAscending(b') by {
        forall p, q | 0 <= p < q < |b'|
          ensures CodeUnitLess(b'[p], b'[q])
        {
          assert b'[p] == b[p + 1] && b'[q] == b[q + 1];
        }
      }
      forall t
        ensures t in a' <==> t in b'
      {
        if t in a' {
          var k :| 0 <= k < |a'| && a'[k] == t;
          assert a[k + 1] == t;
          CodeUnitLessIrreflexive(x);
          assert t != x;
          assert t in b;
          assert b == [x] + b';
        }
        if t in b' {
          var k :| 0 <= k < |b'| && b'[k] == t;
          assert b[k + 1] == t;
          CodeUnitLessIrreflexive(x);
          assert t != x;
          assert t in a;
          assert a == [x] + a';
        }
      }
      AscendingUnique(a', b');
      assert a == [x] + a' && b == [x] + b';
    }
  }

  /** The tag buttons' click handler: an active tag is removed, an inactive
      one added; the membership of every other tag is unchanged. */
  function Toggle(active: set<string>, tag: string): (r: set<string>)
    ensures tag in r <==> tag !in active
    ensures forall t :: t != tag ==> (t in r <==> t in active)
  {
    if tag in active then active - {tag} else active + {tag}
  }

  /** Clicking the same tag twice restores the active set. */
  lemma ToggleTwice(active: set<string>, tag: string)
    ensures Toggle(Toggle(active, tag), tag) == active
  {
  }
}
