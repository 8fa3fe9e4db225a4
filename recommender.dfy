// The recommender object shared by src/train.py:43-57 and app/main.py:16-30.
// Its two fields are loaded once in `__init__` and never updated, so it is an
// immutable value here; the similarity table is an input rather than the
// result of a cosine computation.
module Recommender {
  import opened Collections
  import opened Train

  /** Column label -> (row label -> score), as `similarity_matrix[item_id]` indexes it. */
  type SimilarityTable = map<ItemId, map<ItemId, real>>

  datatype RecommenderSystem = RecommenderSystem(similarityMatrix: SimilarityTable, gameList: seq<ItemId>)

  /** The series `recommend_items` returns, or the message it returns on a `KeyError`. */
  datatype Recommendation = Ranked(scores: seq<(ItemId, real)>) | NotFound(message: string)

  /** Scores never increase along the series. */
  predicate Descending(s: seq<(ItemId, real)>) {
    forall a, b :: 0 <= a < b < |s| ==> s[a].1 >= s[b].1
  }

  /** No label occurs twice in the series. */
  predicate DistinctLabels(s: seq<(ItemId, real)>) {
    forall a, b :: 0 <= a < b < |s| ==> s[a].0 != s[b].0
  }

  /** Every entry of the series is a label of `column` with that label's score. */
  predicate EntriesOf(s: seq<(ItemId, real)>, column: map<ItemId, real>) {
    forall a :: 0 <= a < |s| ==> s[a].0 in column && s[a].1 == column[s[a].0]
  }

  function NotFoundMessage(item: ItemId): string {
    "Item " + item + " not found in the dataset."
  }

  /** A label of highest score among `keys`; which one, when several tie, is left open. */
  ghost function BestLabel(column: map<ItemId, real>, keys: set<ItemId>): (top: ItemId)
    requires keys != {} && keys <= column.Keys
    ensures top in keys && forall x :: x in keys ==> column[x] <= column[top]
    decreases keys
  {
    var some :| some in keys;
    var rest := keys - {some};
    assert forall x :: x in keys ==> x == some || x in rest;
    if rest == {} then some
    else
      var best := BestLabel(column, rest);
      if column[some] > column[best] then some else best
  }

  /** Putting a maximum in front of a ranking of the other labels ranks the whole column. */
  lemma RankWithTop(column: map<ItemId, real>, top: ItemId, tail: seq<(ItemId, real)>)
    requires top in column && forall x :: x in column ==> column[x] <= column[top]
    requires |tail| == |column| - 1
    requires EntriesOf(tail, column - {top})
    requires forall x :: x in column - {top} ==> exists a :: 0 <= a < |tail| && tail[a].0 == x
    requires DistinctLabels(tail) && Descending(tail)
    ensures var r := [(top, column[top])] + tail;
      && EntriesOf(r, column)
      && (forall x :: x in column ==> exists a :: 0 <= a < |r| && r[a].0 == x)
      && DistinctLabels(r)
      && Descending(r)
  {
    var r := [(top, column[top])] + tail;
    forall x | x in column ensures exists a :: 0 <= a < |r| && r[a].0 == x {
      if x == top {
        assert r[0].0 == x;
      } else {
        assert x in column - {top};
        var a :| 0 <= a < |tail| && tail[a].0 == x;
        assert r[a + 1].0 == x;
      }
    }
    forall a | 0 <= a < |tail| ensures tail[a].0 in column && tail[a].0 != top && tail[a].1 == column[tail[a].0] <= column[top] {
      assert tail[a].0 in column - {top};
    }
    forall a | 0 < a < |r| ensures r[a] == tail[a - 1] { }
    forall a, b | 0 <= a < b < |r| ensures r[a].0 != r[b].0 && r[a].1 >= r[b].1 {
      if a > 0 {
        assert r[a] == tail[a - 1] && r[b] == tail[b - 1];
      }
    }
  }

  /**
   * `sort_values(ascending=False)`: every label of `column` once, highest score first.
   * Equal scores come out in an unspecified order, as with pandas' default sort.
   */
  ghost function SortDescending(column: map<ItemId, real>): (r: seq<(ItemId, real)>)
    ensures |r| == |column|
    ensures EntriesOf(r, column)
    ensures forall x :: x in column ==> exists a :: 0 <= a < |r| && r[a].0 == x
    ensures DistinctLabels(r)
    ensures Descending(r)
    decreases |column|
  {
    if column.Keys == {} then []
    else
      var top := BestLabel(column, column.Keys);
      var rest := column - {top};
      assert rest.Keys == column.Keys - {top};
      var tail := SortDescending(rest);
      RankWithTop(column, top, tail);
      [(top, column[top])] + tail
  }

  /** The mask `drop(key)` applies: the entry is not labelled `key`. */
  function NotLabelled(key: ItemId): ((ItemId, real)) -> bool {
    (x: (ItemId, real)) => x.0 != key
  }

  /** `drop(item_id)`: the series without the entries labelled `key`, order kept. */
  function DropLabel(s: seq<(ItemId, real)>, key: ItemId): (r: seq<(ItemId, real)>)
    ensures forall x :: x in r <==> x in s && x.0 != key
  {
    Filter(s, NotLabelled(key))
  }

  /** Dropping a label keeps a descending series descending and its labels distinct. */
  lemma {:induction false} DropLabelKeepsOrder(s: seq<(ItemId, real)>, key: ItemId)
    ensures Descending(s) ==> Descending(DropLabel(s, key))
    ensures DistinctLabels(s) ==> DistinctLabels(DropLabel(s, key))
    decreases |s|
  {
    if s != [] {
      var init, last := s[..|s| - 1], s[|s| - 1];
      DropLabelKeepsOrder(init, key);
      var kept := DropLabel(init, key);
      if last.0 != key {
        forall x | x in kept ensures (Descending(s) ==> x.1 >= last.1) && (DistinctLabels(s) ==> x.0 != last.0) {
          var a :| 0 <= a < |init| && init[a] == x;
          assert s[a] == x;
        }
        assert Descending(init) <== Descending(s);
        assert DistinctLabels(init) <== DistinctLabels(s);
      } else {
        assert Descending(init) <== Descending(s);
        assert DistinctLabels(init) <== DistinctLabels(s);
      }
    }
  }

  /** Dropping a label that occurs exactly once removes exactly one entry. */
  lemma {:induction false} DropLabelLength(s: seq<(ItemId, real)>, key: ItemId)
    requires DistinctLabels(s)
    ensures (forall a :: 0 <= a < |s| ==> s[a].0 != key) ==> DropLabel(s, key) == s
    ensures (exists a :: 0 <= a < |s| && s[a].0 == key) ==> |DropLabel(s, key)| == |s| - 1
    decreases |s|
  {
    if s != [] {
      var init, last := s[..|s| - 1], s[|s| - 1];
      assert s == init + [last];
      assert DistinctLabels(init);
      DropLabelLength(init, key);
      if last.0 == key {
        forall a | 0 <= a < |init| ensures init[a].0 != key {
          assert s[a] == init[a];
        }
      } else if a :| 0 <= a < |s| && s[a].0 == key {
        assert init[a] == s[a];
      }
    }
  }

  /** `head(n)`: the first `n` entries, or all of them when there are fewer. */
  function Head(s: seq<(ItemId, real)>, n: nat): (r: seq<(ItemId, real)>)
    ensures |r| == if n < |s| then n else |s|
    ensures r == s[..|r|]
  {
    if n < |s| then s[..n] else s
  }

  /**
   * `recommend_items`: the `n` games most similar to `item`, best first, without
   * `item` itself; the not-found message when `item` is not a column label or is
   * missing from its own column (both are a `KeyError` caught by the method).
   */
  ghost function RecommendItems(rs: RecommenderSystem, item: ItemId, n: nat := 10): (r: Recommendation)
    ensures r.NotFound? <==> item !in rs.similarityMatrix || item !in rs.similarityMatrix[item]
    ensures r.NotFound? ==> r.message == NotFoundMessage(item)
    ensures r.Ranked? ==> TopOthers(r.scores, rs.similarityMatrix[item], item, n)
  {
    if item !in rs.similarityMatrix then NotFound(NotFoundMessage(item))
    else
      var column := rs.similarityMatrix[item];
      if item !in column then NotFound(NotFoundMessage(item))
      else
        var top := Head(DropLabel(SortDescending(column), item), n);
        RankingHead(column, item, n);
        Ranked(top)
  }

  /**
   * `scores` is a top-`n` list of the other labels of `column`: min(n, others)
   * entries, each an other label with its score, no label twice, best first,
   * and no omitted label scoring above an included one.
   */
  ghost predicate TopOthers(scores: seq<(ItemId, real)>, column: map<ItemId, real>, item: ItemId, n: nat)
    requires item in column
  {
    && |scores| == (if n < |column| - 1 then n else |column| - 1)
    && EntriesOf(scores, column)
    && DistinctLabels(scores)
    && Descending(scores)
    && (forall a :: 0 <= a < |scores| ==> scores[a].0 != item)
    && (forall x, a :: x in column && x != item && 0 <= a < |scores| && x !in Labels(scores) ==>
          column[x] <= scores[a].1)
  }

  /** The sort, drop and head chain yields a top-`n` list of the other labels. */
  lemma RankingHead(column: map<ItemId, real>, item: ItemId, n: nat)
    requires item in column
    ensures TopOthers(Head(DropLabel(SortDescending(column), item), n), column, item, n)
  {
    RankingOfOthers(column, item);
    HeadIsTop(DropLabel(SortDescending(column), item), column, item, n);
  }

  /** After the sort and the drop, the series ranks every other label of `column` exactly once. */
  lemma RankingOfOthers(column: map<ItemId, real>, item: ItemId)
    requires item in column
    ensures var others := DropLabel(SortDescending(column), item);
      && |others| == |column| - 1
      && EntriesOf(others, column)
      && DistinctLabels(others)
      && Descending(others)
      && (forall a :: 0 <= a < |others| ==> others[a].0 != item)
      && (forall x :: x in column && x != item ==> exists b :: 0 <= b < |others| && others[b].0 == x)
  {
    var ranked := SortDescending(column);
    DropLabelKeepsOrder(ranked, item);
    DropFromRanking(ranked, column, item);
  }

  /** Dropping one label of a complete ranking of `column` ranks the other labels. */
  lemma DropFromRanking(ranked: seq<(ItemId, real)>, column: map<ItemId, real>, item: ItemId)
    requires item in column
    requires |ranked| == |column| && EntriesOf(ranked, column) && DistinctLabels(ranked)
    requires forall x :: x in column ==> exists a :: 0 <= a < |ranked| && ranked[a].0 == x
    ensures var others := DropLabel(ranked, item);
      && |others| == |column| - 1
      && EntriesOf(others, column)
      && (forall a :: 0 <= a < |others| ==> others[a].0 != item)
      && (forall x :: x in column && x != item ==> exists b :: 0 <= b < |others| && others[b].0 == x)
  {
    var others := DropLabel(ranked, item);
    var c :| 0 <= c < |ranked| && ranked[c].0 == item;
    DropLabelLength(ranked, item);
    forall a | 0 <= a < |others|
      ensures others[a].0 in column && others[a].1 == column[others[a].0] && others[a].0 != item
    {
      assert others[a] in others;
      var c :| 0 <= c < |ranked| && ranked[c] == others[a];
    }
    forall x | x in column && x != item ensures exists b :: 0 <= b < |others| && others[b].0 == x {
      var c :| 0 <= c < |ranked| && ranked[c].0 == x;
      assert ranked[c] in others;
      var b :| 0 <= b < |others| && others[b] == ranked[c];
    }
  }

  /** The first `n` entries of such a ranking form a top-`n` list. */
  lemma HeadIsTop(others: seq<(ItemId, real)>, column: map<ItemId, real>, item: ItemId, n: nat)
    requires item in column
    requires |others| == |column| - 1
    requires EntriesOf(others, column) && DistinctLabels(others) && Descending(others)
    requires forall a :: 0 <= a < |others| ==> others[a].0 != item
    requires forall x :: x in column && x != item ==> exists b :: 0 <= b < |others| && others[b].0 == x
    ensures TopOthers(Head(others, n), column, item, n)
  {
    var top := Head(others, n);
    forall x, a | x in column && x != item && 0 <= a < |top| && x !in Labels(top)
      ensures column[x] <= top[a].1
    {
      var b :| 0 <= b < |others| && others[b].0 == x;
      assert others[a] == top[a];
    }
  }

  /** The labels of a series, as a set. */
  function Labels(s: seq<(ItemId, real)>): set<ItemId> {
    set a | 0 <= a < |s| :: s[a].0
  }

  /** `list_games`: the stored catalog, unchanged and in the same order. */
  function ListGames(rs: RecommenderSystem): (games: seq<ItemId>)
    ensures games == rs.gameList
  {
    rs.gameList
  }

  /** The recommender built by the training script: the catalog of the whole log and a similarity table. */
  function Build(events: seq<Event>, similarity: SimilarityTable): (rs: RecommenderSystem)
    ensures rs.similarityMatrix == similarity
    ensures ListGames(rs) == Catalog(events)
    ensures NoDuplicates(ListGames(rs))
    ensures forall e :: e in events ==> e.item in ListGames(rs)
    ensures forall i :: i in ListGames(rs) ==> exists e :: e in events && e.item == i
  {
    var games := Catalog(events);
    assert forall i :: i in games ==> exists e :: e in events && e.item == i by {
      forall i | i in games ensures exists e :: e in events && e.item == i {
        var j :| 0 <= j < |events| && ItemColumn(events)[j] == i;
        assert events[j] in events;
      }
    }
    RecommenderSystem(similarity, games)
  }
}
