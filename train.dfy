// The offline part of the recommender (src/train.py): from the raw Steam log
// to the item x user rating matrix, and the game catalog.
//
// The play frame of `get_ratings_df` is an array of rows; a row that the
// deduplication pass overwrites with missing values is `None`, and a rating
// that is 0/0 is `NaN`. `dropna` then removes both kinds.
module Train {
  import opened Collections

  type UserId = int
  type ItemId = string

  /** One line of the raw log: user, game, behaviour label and hours. */
  datatype Event = Event(user: UserId, item: ItemId, behaviour: string, hours: real)

  /** A rating cell: a quotient, or NaN when the user's play total is zero. */
  datatype Rating = NaN | Value(r: real)

  /** A row of the play frame once `behaviour`, `hours` and `total` are dropped. */
  datatype PlayRow = PlayRow(user: UserId, item: ItemId, rating: Rating)

  /** A row that survives `dropna`: every column is defined. */
  datatype Entry = Entry(user: UserId, item: ItemId, rating: real)

  /** Item x user matrix: one inner map (a row of the pivot) per item. */
  type RatingMatrix = map<ItemId, map<UserId, real>>

  // ---------------------------------------------------------------------------
  // Filtering and normalisation (src/train.py:16-22)

  predicate IsPlay(e: Event) {
    e.behaviour == "play"
  }

  /** The rows kept by `query('behaviour == "play"')`, in log order. */
  function PlayEvents(events: seq<Event>): (plays: seq<Event>)
    ensures forall e :: e in plays <==> e in events && e.behaviour == "play"
  {
    Filter(events, IsPlay)
  }

  /** Each play row is kept as often as it occurs in the log, and other rows never. */
  lemma PlayEventsMultiplicity(events: seq<Event>, e: Event)
    ensures multiset(PlayEvents(events))[e] == if IsPlay(e) then multiset(events)[e] else 0
  {
    FilterMultiplicity(events, IsPlay, e);
  }

  /** The filter works row by row in log order: it distributes over concatenation. */
  lemma PlayEventsConcat(a: seq<Event>, b: seq<Event>)
    ensures PlayEvents(a + b) == PlayEvents(a) + PlayEvents(b)
  {
    FilterConcat(a, b, IsPlay);
  }

  /** A single row is kept exactly when it is a play row. */
  lemma PlayEventsSingle(e: Event)
    ensures PlayEvents([e]) == if IsPlay(e) then [e] else []
  {
    assert [e][..0] == [];
  }

  /** The `total` column: the sum of `u`'s play hours, repeated rows included. */
  function UserTotal(plays: seq<Event>, u: UserId): real
    decreases |plays|
  {
    if plays == [] then 0.0
    else
      var last := plays[|plays| - 1];
      UserTotal(plays[..|plays| - 1], u) + (if last.user == u then last.hours else 0.0)
  }

  /** The total of a log made of two parts is the sum of the parts' totals. */
  lemma {:induction false} UserTotalConcat(a: seq<Event>, b: seq<Event>, u: UserId)
    ensures UserTotal(a + b, u) == UserTotal(a, u) + UserTotal(b, u)
    decreases |b|
  {
    if b == [] {
      assert a + b == a;
    } else {
      var init := b[..|b| - 1];
      assert (a + b)[..|a + b| - 1] == a + init;
      assert (a + b)[|a + b| - 1] == b[|b| - 1];
      UserTotalConcat(a, init, u);
    }
  }

  /** A one-row log totals that row's hours for its own user and 0 for every other. */
  lemma UserTotalSingle(e: Event, u: UserId)
    ensures UserTotal([e], u) == if e.user == u then e.hours else 0.0
  {
    assert [e][..0] == [];
  }

  /** Only `u`'s own rows count in `u`'s total. */
  lemma {:induction false} OtherUsersTotal(plays: seq<Event>, u: UserId)
    requires forall e :: e in plays ==> e.user != u
    ensures UserTotal(plays, u) == 0.0
    decreases |plays|
  {
    if plays != [] {
      var init := plays[..|plays| - 1];
      assert forall e :: e in init ==> e in plays;
      OtherUsersTotal(init, u);
    }
  }

  /** With no negative hours in the log, no total is negative. */
  lemma {:induction false} NonNegativeTotal(plays: seq<Event>, u: UserId)
    requires forall e :: e in plays ==> e.hours >= 0.0
    ensures UserTotal(plays, u) >= 0.0
    decreases |plays|
  {
    if plays != [] {
      var init := plays[..|plays| - 1];
      assert forall e :: e in init ==> e in plays;
      NonNegativeTotal(init, u);
    }
  }

  /** `hours / total`; with non-negative hours a zero total is 0/0, i.e. NaN. */
  function RatingOf(hours: real, total: real): (r: Rating)
    ensures r.NaN? <==> total == 0.0
    ensures total != 0.0 ==> r == Value(hours / total)
    ensures total != 0.0 && 0.0 <= hours <= total ==> 0.0 <= r.r <= 1.0
  {
    if total == 0.0 then NaN else Value(hours / total)
  }

  /**
   * The play frame after the merge and the division: one row per play event,
   * with the event's user and game and a rating that is NaN exactly when the
   * user's total is 0.
   */
  function Rated(plays: seq<Event>): (rows: seq<PlayRow>)
    ensures |rows| == |plays|
    ensures forall j :: 0 <= j < |plays| ==> rows[j].user == plays[j].user && rows[j].item == plays[j].item
    ensures forall j :: 0 <= j < |plays| ==> (rows[j].rating.NaN? <==> UserTotal(plays, plays[j].user) == 0.0)
    ensures forall j :: 0 <= j < |plays| && UserTotal(plays, plays[j].user) != 0.0 ==>
      rows[j].rating == Value(plays[j].hours / UserTotal(plays, plays[j].user))
  {
    seq(|plays|, j requires 0 <= j < |plays| =>
      PlayRow(plays[j].user, plays[j].item, RatingOf(plays[j].hours, UserTotal(plays, plays[j].user))))
  }

  // ---------------------------------------------------------------------------
  // Deduplication (src/train.py:23-33)

  /** Row `j` repeats an earlier row's (user, item) pair. */
  predicate IsRepeat(rows: seq<PlayRow>, j: int)
    requires 0 <= j < |rows|
  {
    exists k :: 0 <= k < j && rows[k].user == rows[j].user && rows[k].item == rows[j].item
  }

  /** `df_play.query(uid).duplicated('item_id').any()` for user `u`. */
  predicate HasRepeatedItem(rows: seq<PlayRow>, u: UserId) {
    exists j :: 0 <= j < |rows| && rows[j].user == u && IsRepeat(rows, j)
  }

  /** The frame after the overwrite loop: every repeat blanked, all else kept. */
  function Deduplicated(rows: seq<PlayRow>): (cells: seq<Option<PlayRow>>)
    ensures |cells| == |rows|
    ensures forall j :: 0 <= j < |rows| ==> cells[j] == None || cells[j] == Some(rows[j])
  {
    seq(|rows|, j requires 0 <= j < |rows| => if IsRepeat(rows, j) then None else Some(rows[j]))
  }

  /** The frame part way through the overwrite loop, once the users in `done` are handled. */
  function PartlyDeduplicated(rows: seq<PlayRow>, done: seq<UserId>, j: int): Option<PlayRow>
    requires 0 <= j < |rows|
  {
    if rows[j].user in done && IsRepeat(rows, j) then None else Some(rows[j])
  }

  /** The user column of the play frame. */
  function UserColumn(rows: seq<PlayRow>): (users: seq<UserId>)
  {
    seq(|rows|, j requires 0 <= j < |rows| => rows[j].user)
  }

  /** Two defined cells never share a (user, item) pair. */
  predicate UniqueKeys(cells: seq<Option<PlayRow>>) {
    forall a, b :: 0 <= a < b < |cells| && cells[a].Some? && cells[b].Some? ==>
      cells[a].value.user != cells[b].value.user || cells[a].value.item != cells[b].value.item
  }

  /** After deduplication each (user, item) pair is held by at most one row. */
  lemma DeduplicatedUniqueKeys(rows: seq<PlayRow>)
    ensures UniqueKeys(Deduplicated(rows))
  {
    var cells := Deduplicated(rows);
    forall a, b | 0 <= a < b < |cells| && cells[a].Some? && cells[b].Some?
      ensures cells[a].value.user != cells[b].value.user || cells[a].value.item != cells[b].value.item
    {
      if rows[a].user == rows[b].user && rows[a].item == rows[b].item {
        assert IsRepeat(rows, b);
      }
    }
  }

  /**
   * Every (user, item) pair of the frame survives deduplication in exactly the
   * row of its first occurrence, with that row's rating unchanged.
   */
  lemma DeduplicatedKeepsFirst(rows: seq<PlayRow>, j: nat)
    requires j < |rows|
    ensures exists k ::
              0 <= k <= j && Deduplicated(rows)[k] == Some(rows[k]) &&
              rows[k].user == rows[j].user && rows[k].item == rows[j].item &&
              (forall k' :: 0 <= k' < k ==> rows[k'].user != rows[j].user || rows[k'].item != rows[j].item)
  {
    FirstOfPair(rows, j);
  }

  /** The rows of a user who never repeats an item are left as they were. */
  lemma DeduplicatedSparesOtherUsers(rows: seq<PlayRow>, u: UserId)
    requires !HasRepeatedItem(rows, u)
    ensures forall j :: 0 <= j < |rows| && rows[j].user == u ==> Deduplicated(rows)[j] == Some(rows[j])
  {
    forall j | 0 <= j < |rows| && rows[j].user == u ensures !IsRepeat(rows, j) {
      assert IsRepeat(rows, j) ==> HasRepeatedItem(rows, u);
    }
  }

  // ---------------------------------------------------------------------------
  // dropna and pivot (src/train.py:34-35)

  /** Two entries never share an (item, user) pair: the condition under which `pivot` does not raise. */
  predicate UniquePairs(entries: seq<Entry>) {
    forall a, b :: 0 <= a < b < |entries| ==>
      entries[a].user != entries[b].user || entries[a].item != entries[b].item
  }

  /** `dropna`: the defined rows, in frame order. */
  function DropNa(cells: seq<Option<PlayRow>>): (r: seq<Entry>)
    ensures forall e :: e in r <==> Some(PlayRow(e.user, e.item, Value(e.rating))) in cells
    ensures UniqueKeys(cells) ==> UniquePairs(r)
    decreases |cells|
  {
    if cells == [] then []
    else
      var init, last := cells[..|cells| - 1], cells[|cells| - 1];
      assert cells == init + [last];
      var kept := DropNa(init);
      match last
      case Some(PlayRow(u, i, Value(x))) =>
        assert UniqueKeys(cells) ==> forall e :: e in kept ==> e.user != u || e.item != i by {
          if UniqueKeys(cells) {
            forall e | e in kept ensures e.user != u || e.item != i {
              var a :| 0 <= a < |init| && init[a] == Some(PlayRow(e.user, e.item, Value(e.rating)));
              assert cells[a] == init[a];
            }
          }
        }
        kept + [Entry(u, i, x)]
      case _ => kept
  }

  function ItemsOf(entries: seq<Entry>): set<ItemId> {
    set j | 0 <= j < |entries| :: entries[j].item
  }

  function UsersOf(entries: seq<Entry>): set<UserId> {
    set j | 0 <= j < |entries| :: entries[j].user
  }

  /** The rating stored for (`i`, `u`), or 0 (`fillna(0)`) if no entry has that pair. */
  function CellValue(entries: seq<Entry>, i: ItemId, u: UserId): (x: real)
    requires UniquePairs(entries)
    ensures forall e :: e in entries && e.item == i && e.user == u ==> x == e.rating
    ensures (forall e :: e in entries ==> e.item != i || e.user != u) ==> x == 0.0
    decreases |entries|
  {
    if entries == [] then 0.0
    else
      var init, last := entries[..|entries| - 1], entries[|entries| - 1];
      assert entries == init + [last];
      if last.item == i && last.user == u then
        assert forall e :: e in init ==> e.item != i || e.user != u by {
          forall e | e in init ensures e.item != i || e.user != u {
            var a :| 0 <= a < |init| && init[a] == e;
            assert entries[a] == e;
          }
        }
        last.rating
      else CellValue(init, i, u)
  }

  /** `pivot(index='item_id', columns='user_id', values='rating').fillna(0)`. */
  function Pivot(entries: seq<Entry>): (m: RatingMatrix)
    requires UniquePairs(entries)
    ensures m.Keys == ItemsOf(entries)
    ensures forall i :: i in m ==> m[i].Keys == UsersOf(entries)
    ensures forall e :: e in entries ==> e.item in m && e.user in m[e.item] && m[e.item][e.user] == e.rating
    ensures forall i, u :: i in m && u in m[i] && (forall e :: e in entries ==> e.item != i || e.user != u) ==>
      m[i][u] == 0.0
  {
    var items, users := ItemsOf(entries), UsersOf(entries);
    EntriesLabelled(entries);
    map i | i in items :: RowOf(entries, users, i)
  }

  /** Every entry's labels are among the pivot's labels; proved apart so that `Pivot` stays cheap. */
  lemma EntriesLabelled(entries: seq<Entry>)
    ensures forall e :: e in entries ==> e.item in ItemsOf(entries) && e.user in UsersOf(entries)
  {
  }

  /** One row of the pivot: item `i`'s rating for every user column. */
  function RowOf(entries: seq<Entry>, users: set<UserId>, i: ItemId): (row: map<UserId, real>)
    requires UniquePairs(entries)
    ensures row.Keys == users
    ensures forall e :: e in entries && e.item == i && e.user in users ==> row[e.user] == e.rating
    ensures forall u :: u in users && (forall e :: e in entries ==> e.item != i || e.user != u) ==> row[u] == 0.0
  {
    map u | u in users :: CellValue(entries, i, u)
  }

  // ---------------------------------------------------------------------------
  // The whole of get_ratings_df, as a specification

  /**
   * The rows of the play frame `plays` that reach the pivot: the first row of
   * each (user, item) pair, with its rating unchanged, when that rating is defined.
   */
  function RatingEntries(plays: seq<Event>): (r: seq<Entry>)
    ensures UniquePairs(r)
    ensures forall e :: e in r ==>
      exists j :: 0 <= j < |plays| && !IsRepeat(Rated(plays), j) &&
        plays[j].user == e.user && plays[j].item == e.item &&
        UserTotal(plays, e.user) != 0.0 && e.rating == plays[j].hours / UserTotal(plays, e.user)
    ensures forall j :: 0 <= j < |plays| && !IsRepeat(Rated(plays), j) && UserTotal(plays, plays[j].user) != 0.0 ==>
      Entry(plays[j].user, plays[j].item, plays[j].hours / UserTotal(plays, plays[j].user)) in r
  {
    var rows := Rated(plays);
    DeduplicatedUniqueKeys(rows);
    var cells := Deduplicated(rows);
    var r := DropNa(cells);
    assert forall j :: 0 <= j < |rows| && !IsRepeat(rows, j) ==> cells[j] == Some(rows[j]);
    r
  }

  /** The matrix `get_ratings_df` returns for the raw log `events`: every row has the same user columns. */
  function RatingsMatrix(events: seq<Event>): (m: RatingMatrix)
    ensures forall i, i' :: i in m && i' in m ==> m[i].Keys == m[i'].Keys
  {
    Pivot(RatingEntries(PlayEvents(events)))
  }

  // ---------------------------------------------------------------------------
  // Properties of the rating step

  /** Sum of the defined ratings of `u`'s rows. */
  function RowSum(rows: seq<PlayRow>, u: UserId): real
    decreases |rows|
  {
    if rows == [] then 0.0
    else
      var last := rows[|rows| - 1];
      RowSum(rows[..|rows| - 1], u) + (if last.user == u && last.rating.Value? then last.rating.r else 0.0)
  }

  /** Sum of the defined ratings of `u`'s rows that repeat an earlier (user, item) pair. */
  function RepeatSum(rows: seq<PlayRow>, u: UserId): real
    decreases |rows|
  {
    if rows == [] then 0.0
    else
      var last := rows[|rows| - 1];
      RepeatSum(rows[..|rows| - 1], u) +
        (if last.user == u && last.rating.Value? && IsRepeat(rows, |rows| - 1) then last.rating.r else 0.0)
  }

  /** Sum of the ratings of `u`'s rows that are still present in the frame. */
  function CellSum(cells: seq<Option<PlayRow>>, u: UserId): real
    decreases |cells|
  {
    if cells == [] then 0.0
    else
      var last := cells[|cells| - 1];
      CellSum(cells[..|cells| - 1], u) +
        (if last.Some? && last.value.user == u && last.value.rating.Value? then last.value.rating.r else 0.0)
  }

  /** Sum of `u`'s ratings among the rows that reach the pivot: the user's column of the matrix. */
  function EntrySum(entries: seq<Entry>, u: UserId): real
    decreases |entries|
  {
    if entries == [] then 0.0
    else
      var last := entries[|entries| - 1];
      EntrySum(entries[..|entries| - 1], u) + (if last.user == u then last.rating else 0.0)
  }

  lemma {:induction false} RatedPrefixSum(plays: seq<Event>, u: UserId, k: nat)
    requires k <= |plays| && UserTotal(plays, u) != 0.0
    ensures RowSum(Rated(plays)[..k], u) == UserTotal(plays[..k], u) / UserTotal(plays, u)
  {
    var total := UserTotal(plays, u);
    if k == 0 {
      assert plays[..0] == [];
    } else {
      var rows := Rated(plays);
      RatedPrefixSum(plays, u, k - 1);
      var before := UserTotal(plays[..k - 1], u);
      var h := if plays[k - 1].user == u then plays[k - 1].hours else 0.0;
      assert rows[..k][..k - 1] == rows[..k - 1];
      assert plays[..k][..k - 1] == plays[..k - 1];
      assert rows[k - 1].user == plays[k - 1].user;
      assert plays[k - 1].user == u ==> rows[k - 1].rating == Value(h / total);
      assert RowSum(rows[..k], u) == before / total + h / total;
      assert UserTotal(plays[..k], u) == before + h;
      QuotientSum(before, h, total);
    }
  }

  /** Quotients by the same total add up; the real-division step, proved in a context of its own. */
  lemma QuotientSum(a: real, b: real, t: real)
    requires t != 0.0
    ensures a / t + b / t == (a + b) / t
  {
  }

  /** Each user's ratings, one per play row and repeated rows included, sum to exactly 1. */
  lemma RatingsSumToOne(plays: seq<Event>, u: UserId)
    requires UserTotal(plays, u) != 0.0
    ensures RowSum(Rated(plays), u) == 1.0
  {
    var rows, total := Rated(plays), UserTotal(plays, u);
    RatedPrefixSum(plays, u, |plays|);
    assert rows[..|rows|] == rows;
    assert plays[..|plays|] == plays;
    assert RowSum(rows, u) == total / total;
    SelfQuotient(total);
  }

  /** A non-zero total divided by itself is 1; proved in a context of its own. */
  lemma SelfQuotient(t: real)
    requires t != 0.0
    ensures t / t == 1.0
  {
  }

  lemma {:induction false} TotalBoundsHours(plays: seq<Event>, j: nat)
    requires j < |plays|
    requires forall e :: e in plays ==> e.hours >= 0.0
    ensures 0.0 <= plays[j].hours <= UserTotal(plays, plays[j].user)
    decreases |plays|
  {
    var init := plays[..|plays| - 1];
    assert forall e :: e in init ==> e in plays;
    NonNegativeTotal(init, plays[j].user);
    if j < |plays| - 1 {
      TotalBoundsHours(init, j);
    }
  }

  /** With non-negative hours every defined rating lies in [0, 1]; it is NaN exactly when the user's total is 0. */
  lemma RatingInUnitInterval(plays: seq<Event>, j: nat)
    requires j < |plays|
    requires forall e :: e in plays ==> e.hours >= 0.0
    ensures Rated(plays)[j].rating.NaN? <==> UserTotal(plays, plays[j].user) == 0.0
    ensures Rated(plays)[j].rating.Value? ==> 0.0 <= Rated(plays)[j].rating.r <= 1.0
  {
    TotalBoundsHours(plays, j);
    var h, total := plays[j].hours, UserTotal(plays, plays[j].user);
    if total != 0.0 {
      QuotientInUnitInterval(h, total);
    }
  }

  /** A share of a total that bounds it lies in [0, 1]; proved in a context of its own. */
  lemma QuotientInUnitInterval(h: real, t: real)
    requires 0.0 <= h <= t && t != 0.0
    ensures 0.0 <= h / t <= 1.0
  {
  }

  lemma {:induction false} DropNaSum(cells: seq<Option<PlayRow>>, u: UserId)
    ensures EntrySum(DropNa(cells), u) == CellSum(cells, u)
    decreases |cells|
  {
    if cells != [] {
      var init := cells[..|cells| - 1];
      DropNaSum(init, u);
      var kept := DropNa(init);
      match cells[|cells| - 1]
      case Some(PlayRow(v, i, Value(x))) =>
        assert (kept + [Entry(v, i, x)])[..|kept|] == kept;
      case _ =>
    }
  }

  lemma {:induction false} DeduplicatedSum(rows: seq<PlayRow>, u: UserId)
    ensures CellSum(Deduplicated(rows), u) == RowSum(rows, u) - RepeatSum(rows, u)
    decreases |rows|
  {
    if rows != [] {
      var init := rows[..|rows| - 1];
      DeduplicatedSum(init, u);
      assert Deduplicated(rows)[..|rows| - 1] == Deduplicated(init) by {
        forall j | 0 <= j < |init| ensures IsRepeat(rows, j) == IsRepeat(init, j) {
          if IsRepeat(rows, j) {
            var k :| 0 <= k < j && rows[k].user == rows[j].user && rows[k].item == rows[j].item;
            assert init[k] == rows[k];
          }
        }
      }
    }
  }

  lemma {:induction false} NoRepeatNoRepeatSum(rows: seq<PlayRow>, u: UserId)
    requires !HasRepeatedItem(rows, u)
    ensures RepeatSum(rows, u) == 0.0
    decreases |rows|
  {
    if rows != [] {
      var init := rows[..|rows| - 1];
      NoRepeatNoRepeatSum(init, u);
    }
  }

  /**
   * The ratings of `u` that reach the pivot sum to 1 minus the ratings of the
   * discarded repeats: the total is taken before deduplication, so a discarded
   * repeat still counts in the denominator.
   */
  lemma SurvivingRatingsShare(plays: seq<Event>, u: UserId)
    requires UserTotal(plays, u) != 0.0
    ensures EntrySum(RatingEntries(plays), u) == 1.0 - RepeatSum(Rated(plays), u)
  {
    var rows := Rated(plays);
    DropNaSum(Deduplicated(rows), u);
    DeduplicatedSum(rows, u);
    RatingsSumToOne(plays, u);
  }

  /** A user with a positive total who never repeats a game has ratings that sum to exactly 1 in the matrix. */
  lemma SurvivingRatingsSumToOne(plays: seq<Event>, u: UserId)
    requires UserTotal(plays, u) != 0.0
    requires !HasRepeatedItem(Rated(plays), u)
    ensures EntrySum(RatingEntries(plays), u) == 1.0
  {
    SurvivingRatingsShare(plays, u);
    NoRepeatNoRepeatSum(Rated(plays), u);
  }

  /** Rows whose behaviour is not "play" never influence the matrix. */
  lemma NonPlayIgnored(before: seq<Event>, e: Event, after: seq<Event>)
    requires !IsPlay(e)
    ensures RatingsMatrix(before + [e] + after) == RatingsMatrix(before + after)
  {
    PlayEventsSkip(before, e, after);
  }

  lemma PlayEventsSkip(before: seq<Event>, e: Event, after: seq<Event>)
    requires !IsPlay(e)
    ensures PlayEvents(before + [e] + after) == PlayEvents(before + after)
  {
    assert before + [e] + after == before + ([e] + after);
    FilterConcat(before, [e] + after, IsPlay);
    FilterConcat([e], after, IsPlay);
    assert Filter([e], IsPlay) == [] by {
      assert [e][..0] == [];
    }
    assert Filter([e] + after, IsPlay) == Filter(after, IsPlay);
    FilterConcat(before, after, IsPlay);
  }

  // ---------------------------------------------------------------------------
  // Properties of the matrix

  /** Every (user, item) pair that occurs has a first occurrence at or before `j`. */
  lemma {:induction false} FirstOfPair(rows: seq<PlayRow>, j: nat)
    requires j < |rows|
    ensures exists k :: 0 <= k <= j && !IsRepeat(rows, k) && rows[k].user == rows[j].user && rows[k].item == rows[j].item
    decreases j
  {
    if IsRepeat(rows, j) {
      var k :| 0 <= k < j && rows[k].user == rows[j].user && rows[k].item == rows[j].item;
      FirstOfPair(rows, k);
    }
  }

  /** The cell of a first play row whose user has a non-zero total holds that row's rating. */
  lemma MatrixHoldsFirstRating(events: seq<Event>, j: nat)
    requires j < |PlayEvents(events)|
    requires !IsRepeat(Rated(PlayEvents(events)), j)
    requires UserTotal(PlayEvents(events), PlayEvents(events)[j].user) != 0.0
    ensures var plays, m := PlayEvents(events), RatingsMatrix(events);
      plays[j].item in m && plays[j].user in m[plays[j].item] &&
      m[plays[j].item][plays[j].user] == plays[j].hours / UserTotal(plays, plays[j].user)
  {
  }

  /** The matrix has one row per game played by some user whose total is not zero. */
  lemma MatrixRows(events: seq<Event>, i: ItemId)
    ensures var plays := PlayEvents(events);
      i in RatingsMatrix(events) <==>
        exists j :: 0 <= j < |plays| && plays[j].item == i && UserTotal(plays, plays[j].user) != 0.0
  {
    var plays := PlayEvents(events);
    var rows, entries := Rated(plays), RatingEntries(plays);
    if i in RatingsMatrix(events) {
      var a :| 0 <= a < |entries| && entries[a].item == i;
      assert entries[a] in entries;
    }
    if j :| 0 <= j < |plays| && plays[j].item == i && UserTotal(plays, plays[j].user) != 0.0 {
      FirstOfPair(rows, j);
      var k :| 0 <= k <= j && !IsRepeat(rows, k) && rows[k].user == rows[j].user && rows[k].item == rows[j].item;
      MatrixHoldsFirstRating(events, k);
    }
  }

  /** The matrix has one column per user with a non-zero total, in every row. */
  lemma MatrixColumns(events: seq<Event>, i: ItemId, u: UserId)
    requires i in RatingsMatrix(events)
    ensures var plays := PlayEvents(events);
      u in RatingsMatrix(events)[i] <==>
        exists j :: 0 <= j < |plays| && plays[j].user == u && UserTotal(plays, u) != 0.0
  {
    var plays := PlayEvents(events);
    var rows, entries := Rated(plays), RatingEntries(plays);
    if u in RatingsMatrix(events)[i] {
      var a :| 0 <= a < |entries| && entries[a].user == u;
      assert entries[a] in entries;
    }
    if j :| 0 <= j < |plays| && plays[j].user == u && UserTotal(plays, u) != 0.0 {
      FirstOfPair(rows, j);
      var k :| 0 <= k <= j && !IsRepeat(rows, k) && rows[k].user == rows[j].user && rows[k].item == rows[j].item;
      MatrixHoldsFirstRating(events, k);
    }
  }

  /** A non-zero cell holds hours / total of the first play row of its (game, user) pair. */
  lemma MatrixCellOrigin(events: seq<Event>, i: ItemId, u: UserId)
    requires i in RatingsMatrix(events) && u in RatingsMatrix(events)[i]
    requires RatingsMatrix(events)[i][u] != 0.0
    ensures FirstRowRating(PlayEvents(events), i, u, RatingsMatrix(events)[i][u])
  {
    var plays := PlayEvents(events);
    var entries := RatingEntries(plays);
    var m := Pivot(entries);
    assert RatingsMatrix(events) == m;
    PivotCellOrigin(entries, i, u);
    var e :| e in entries && e.item == i && e.user == u && m[i][u] == e.rating;
    var j := EntryOrigin(plays, e);
    assert FirstRowAt(plays, j, i, u, e.rating);
  }

  /** Some first play row of the pair (`i`, `u`) has rating `x`. */
  ghost predicate FirstRowRating(plays: seq<Event>, i: ItemId, u: UserId, x: real) {
    exists j :: FirstRowAt(plays, j, i, u, x)
  }

  /** Play row `j` is the first of the pair (`i`, `u`) and its rating is `x`. */
  predicate FirstRowAt(plays: seq<Event>, j: int, i: ItemId, u: UserId, x: real) {
    0 <= j < |plays| && !IsRepeat(Rated(plays), j) && plays[j].item == i && plays[j].user == u &&
    UserTotal(plays, u) != 0.0 && x == plays[j].hours / UserTotal(plays, u)
  }

  /** The index of the play row an entry that reaches the pivot comes from. */
  lemma EntryOrigin(plays: seq<Event>, e: Entry) returns (j: nat)
    requires e in RatingEntries(plays)
    ensures j < |plays| && !IsRepeat(Rated(plays), j) && plays[j].user == e.user && plays[j].item == e.item
    ensures UserTotal(plays, e.user) != 0.0 && e.rating == plays[j].hours / UserTotal(plays, e.user)
  {
    j :| 0 <= j < |plays| && !IsRepeat(Rated(plays), j) && plays[j].user == e.user && plays[j].item == e.item &&
      UserTotal(plays, e.user) != 0.0 && e.rating == plays[j].hours / UserTotal(plays, e.user);
  }

  /** A non-zero cell of the pivot comes from an entry with that (game, user) pair. */
  lemma PivotCellOrigin(entries: seq<Entry>, i: ItemId, u: UserId)
    requires UniquePairs(entries)
    requires i in Pivot(entries) && u in Pivot(entries)[i] && Pivot(entries)[i][u] != 0.0
    ensures exists e :: e in entries && e.item == i && e.user == u && Pivot(entries)[i][u] == e.rating
  {
    var m := Pivot(entries);
    assert exists e :: e in entries && e.item == i && e.user == u;
  }

  /** A pivot cell whose (game, user) pair no entry holds is filled with 0. */
  lemma PivotZeroFill(entries: seq<Entry>, i: ItemId, u: UserId)
    requires UniquePairs(entries)
    requires i in Pivot(entries) && u in Pivot(entries)[i]
    requires forall e :: e in entries ==> e.item != i || e.user != u
    ensures Pivot(entries)[i][u] == 0.0
  {
  }

  /** A (game, user) cell with no play row for that pair is 0. */
  lemma MatrixZeroFill(events: seq<Event>, i: ItemId, u: UserId)
    requires i in RatingsMatrix(events) && u in RatingsMatrix(events)[i]
    requires forall e :: e in events && IsPlay(e) ==> e.item != i || e.user != u
    ensures RatingsMatrix(events)[i][u] == 0.0
  {
    var plays := PlayEvents(events);
    var entries := RatingEntries(plays);
    assert Pivot(entries) == RatingsMatrix(events);
    forall e | e in entries ensures e.item != i || e.user != u {
      var j := EntryOrigin(plays, e);
      assert plays[j] in plays;
    }
    PivotZeroFill(entries, i, u);
  }

  /** The example of a user who played A for 10 hours and B for 30: ratings 0.25 and 0.75. */
  lemma TwoGamesExample()
    ensures var m := RatingsMatrix([Event(5, "A", "purchase", 1.0), Event(5, "A", "play", 10.0), Event(5, "B", "play", 30.0)]);
      "A" in m && 5 in m["A"] && m["A"][5] == 0.25 && "B" in m && 5 in m["B"] && m["B"][5] == 0.75
  {
    var buy := Event(5, "A", "purchase", 1.0);
    var plays := [Event(5, "A", "play", 10.0), Event(5, "B", "play", 30.0)];
    assert [buy, plays[0], plays[1]] == [] + [buy] + plays;
    assert [] + plays == plays;
    NonPlayIgnored([], buy, plays);
    TwoPlaysRatings();
  }

  lemma TwoPlaysRatings()
    ensures var m := RatingsMatrix([Event(5, "A", "play", 10.0), Event(5, "B", "play", 30.0)]);
      "A" in m && 5 in m["A"] && m["A"][5] == 0.25 && "B" in m && 5 in m["B"] && m["B"][5] == 0.75
  {
    var plays := [Event(5, "A", "play", 10.0), Event(5, "B", "play", 30.0)];
    TwoPlaysFacts(plays);
    MatrixHoldsFirstRating(plays, 0);
    MatrixHoldsFirstRating(plays, 1);
    assert RatingsMatrix(plays)["A"][5] == 10.0 / 40.0;
    assert RatingsMatrix(plays)["B"][5] == 30.0 / 40.0;
  }

  /** A repeated (user, game) row is discarded, yet its hours stay in the user's total. */
  lemma RepeatedRowExample()
    ensures var m := RatingsMatrix([Event(5, "A", "play", 10.0), Event(5, "A", "play", 30.0)]);
      "A" in m && 5 in m["A"] && m["A"][5] == 0.25
  {
    var plays := [Event(5, "A", "play", 10.0), Event(5, "A", "play", 30.0)];
    RepeatedRowFacts(plays);
    MatrixHoldsFirstRating(plays, 0);
    assert RatingsMatrix(plays)["A"][5] == 10.0 / 40.0;
  }

  lemma TwoPlaysFacts(plays: seq<Event>)
    requires plays == [Event(5, "A", "play", 10.0), Event(5, "B", "play", 30.0)]
    ensures PlayEvents(plays) == plays
    ensures UserTotal(plays, 5) == 40.0
    ensures !IsRepeat(Rated(plays), 0) && !IsRepeat(Rated(plays), 1)
  {
    OnlyPlays(plays);
    PairTotal(plays);
  }

  lemma RepeatedRowFacts(plays: seq<Event>)
    requires plays == [Event(5, "A", "play", 10.0), Event(5, "A", "play", 30.0)]
    ensures PlayEvents(plays) == plays
    ensures UserTotal(plays, 5) == 40.0
    ensures !IsRepeat(Rated(plays), 0)
  {
    OnlyPlays(plays);
    PairTotal(plays);
  }

  lemma OnlyPlays(plays: seq<Event>)
    requires forall e :: e in plays ==> IsPlay(e)
    ensures PlayEvents(plays) == plays
  {
    FilterAll(plays, IsPlay);
  }

  lemma PairTotal(plays: seq<Event>)
    requires |plays| == 2 && plays[0].user == plays[1].user
    ensures UserTotal(plays, plays[0].user) == plays[0].hours + plays[1].hours
  {
    var u := plays[0].user;
    assert plays[..1][..0] == [];
    assert UserTotal(plays[..1], u) == plays[0].hours;
  }

  // ---------------------------------------------------------------------------
  // The imperative pipeline (src/train.py:15-36)

  /** The loop at lines 24-29: the users, in order of first appearance, who repeat an item. */
  method UsersWithDuplicates(rows: seq<PlayRow>) returns (dups: seq<UserId>)
    ensures forall u :: u in dups <==> HasRepeatedItem(rows, u)
    ensures NoDuplicates(dups)
    ensures forall a, b :: 0 <= a < b < |dups| ==>
      dups[a] in UserColumn(rows) && dups[b] in UserColumn(rows) &&
      FirstIndex(UserColumn(rows), dups[a]) < FirstIndex(UserColumn(rows), dups[b])
  {
    var column := UserColumn(rows);
    var users := Distinct(column);
    dups := [];
    ghost var from: seq<nat> := [];
    var k := 0;
    while k < |users|
      invariant 0 <= k <= |users|
      invariant forall u :: u in dups <==> u in users[..k] && HasRepeatedItem(rows, u)
      invariant |from| == |dups|
      invariant forall a :: 0 <= a < |dups| ==> from[a] < k && users[from[a]] == dups[a]
      invariant forall a, b :: 0 <= a < b < |dups| ==> from[a] < from[b]
    {
      var u := users[k];
      assert users[..k + 1] == users[..k] + [u];
      if HasRepeatedItem(rows, u) {
        dups := dups + [u];
        from := from + [k];
      }
      k := k + 1;
    }
    assert users[..k] == users;
    forall u | HasRepeatedItem(rows, u) ensures u in users {
      var j :| 0 <= j < |rows| && rows[j].user == u && IsRepeat(rows, j);
      assert column[j] == u;
    }
  }

  /** Lines 31-33 for one user `u`: the user's rows whose item was already seen are blanked. */
  method DropUserDuplicates(frame: array<Option<PlayRow>>, u: UserId, ghost rows: seq<PlayRow>, ghost done: seq<UserId>)
    requires frame.Length == |rows| && u !in done
    requires forall j :: 0 <= j < frame.Length ==> frame[j] == PartlyDeduplicated(rows, done, j)
    modifies frame
    ensures forall j :: 0 <= j < frame.Length ==> frame[j] == PartlyDeduplicated(rows, done + [u], j)
  {
    var seen: set<ItemId> := {};
    var j := 0;
    while j < frame.Length
      invariant 0 <= j <= frame.Length
      invariant forall i :: i in seen <==> exists k :: 0 <= k < j && rows[k].user == u && rows[k].item == i
      invariant forall k :: 0 <= k < j ==> frame[k] == PartlyDeduplicated(rows, done + [u], k)
      invariant forall k :: j <= k < frame.Length ==> frame[k] == PartlyDeduplicated(rows, done, k)
    {
      match frame[j] {
        case Some(row) =>
          if row.user == u {
            assert row == rows[j];
            if row.item in seen {
              frame[j] := None;
            } else {
              seen := seen + {row.item};
            }
          }
        case None =>
      }
      j := j + 1;
    }
  }

  /** The loop at lines 30-33: blank the repeated rows of every user in `dups`. */
  method DropDuplicates(frame: array<Option<PlayRow>>, ghost rows: seq<PlayRow>, dups: seq<UserId>)
    requires frame[..] == seq(|rows|, j requires 0 <= j < |rows| => Some(rows[j]))
    requires NoDuplicates(dups)
    requires forall u :: u in dups <==> HasRepeatedItem(rows, u)
    modifies frame
    ensures frame[..] == Deduplicated(rows)
  {
    var k := 0;
    while k < |dups|
      invariant 0 <= k <= |dups|
      invariant frame.Length == |rows|
      invariant forall j :: 0 <= j < frame.Length ==> frame[j] == PartlyDeduplicated(rows, dups[..k], j)
    {
      assert dups[k] !in dups[..k];
      DropUserDuplicates(frame, dups[k], rows, dups[..k]);
      assert dups[..k + 1] == dups[..k] + [dups[k]];
      k := k + 1;
    }
    assert dups[..k] == dups;
    forall j | 0 <= j < frame.Length ensures frame[j] == Deduplicated(rows)[j] {
      if IsRepeat(rows, j) {
        assert HasRepeatedItem(rows, rows[j].user);
      }
    }
  }

  /** `get_ratings_df`: filter, normalise, deduplicate in place, drop undefined rows, pivot. */
  method GetRatingsDf(events: seq<Event>) returns (matrix: RatingMatrix)
    ensures matrix == RatingsMatrix(events)
  {
    var plays := PlayEvents(events);
    var rows := Rated(plays);
    var frame := new Option<PlayRow>[|rows|](j requires 0 <= j < |rows| => Some(rows[j]));
    var dups := UsersWithDuplicates(rows);
    DropDuplicates(frame, rows, dups);
    var entries := DropNa(frame[..]);
    DeduplicatedUniqueKeys(rows);
    matrix := Pivot(entries);
  }

  // ---------------------------------------------------------------------------
  // The catalog (src/train.py:65)

  function ItemColumn(events: seq<Event>): seq<ItemId> {
    seq(|events|, j requires 0 <= j < |events| => events[j].item)
  }

  /** `df['item_id'].unique().tolist()` over the whole log, whatever the behaviour. */
  function Catalog(events: seq<Event>): (games: seq<ItemId>)
    ensures NoDuplicates(games)
    ensures forall i :: i in games <==> i in ItemColumn(events)
    ensures forall e :: e in events ==> e.item in games
    ensures forall a, b :: 0 <= a < b < |games| ==>
      FirstIndex(ItemColumn(events), games[a]) < FirstIndex(ItemColumn(events), games[b])
  {
    var column := ItemColumn(events);
    assert forall e :: e in events ==> e.item in column by {
      forall e | e in events ensures e.item in column {
        var j :| 0 <= j < |events| && events[j] == e;
        assert column[j] == e.item;
      }
    }
    Distinct(column)
  }
}
