/** The view state of the title screen and the pure updates its handlers
    perform: the user's own selections rebuilt from their stored votes, the
    accordion of expanded trigger cards, and `saveVote`. */
module TitleScreen {
  import opened Wrappers
  import opened Triggers
  import opened Tmdb
  import opened VoteIds
  import opened Community
  import opened VoteStore

  // ---------------------------------------------------------------------
  // The user's selections

  /** `Record<TriggerKey, TriggerValue>`: `None` is the `null` of a trigger
      the user has not voted on. */
  type Selections = map<TriggerKey, Option<VoteValue>>

  /** `initialSelections`: nothing selected, for every catalogue key. */
  function InitialSelections(): (r: Selections)
    ensures forall k :: k in r && r[k].None?
  {
    map k | k in ListedKeys() :: None
  }

  /** The rebuild loop of the user-votes effect, over the records the
      query returned in order: a key's selection is the answer of the last
      well-formed vote for it, and `None` when there is none. Records with
      a missing key or an unrecognised answer are skipped. */
  function RebuildSelections(recs: seq<RawVote>): (r: Selections)
    ensures forall k :: k in r
    ensures forall k :: r[k].None? <==> forall i, v :: 0 <= i < |recs| ==> recs[i] != Ballot(k, v)
    ensures forall k :: r[k].Some? ==>
      exists i :: 0 <= i < |recs| && recs[i] == Ballot(k, r[k].value) && LastFor(recs, k, i)
    decreases |recs|
  {
    if |recs| == 0 then InitialSelections()
    else
      var init, last := recs[..|recs| - 1], recs[|recs| - 1];
      var prev := RebuildSelections(init);
      RebuildStep(recs, prev);
      if Recognised(last) && ParseKey(last.triggerKey.value).Some? then
        prev[ParseKey(last.triggerKey.value).value := ParseValue(last.value)]
      else prev
  }

  /** No well-formed vote for `k` follows position i. */
  predicate LastFor(recs: seq<RawVote>, k: TriggerKey, i: nat)
  {
    forall j, w :: i < j < |recs| ==> recs[j] != Ballot(k, w)
  }

  lemma RebuildStep(recs: seq<RawVote>, prev: Selections)
    requires |recs| > 0
    requires var init := recs[..|recs| - 1];
      && (forall k :: k in prev)
      && (forall k :: prev[k].None? <==> forall i, v :: 0 <= i < |init| ==> init[i] != Ballot(k, v))
      && (forall k :: prev[k].Some? ==>
            exists i :: 0 <= i < |init| && init[i] == Ballot(k, prev[k].value) && LastFor(init, k, i))
    ensures var last := recs[|recs| - 1];
      var r := if Recognised(last) && ParseKey(last.triggerKey.value).Some? then
        prev[ParseKey(last.triggerKey.value).value := ParseValue(last.value)]
      else prev;
      && (forall k :: k in r)
      && (forall k :: r[k].None? <==> forall i, v :: 0 <= i < |recs| ==> recs[i] != Ballot(k, v))
      && (forall k :: r[k].Some? ==>
            exists i :: 0 <= i < |recs| && recs[i] == Ballot(k, r[k].value) && LastFor(recs, k, i))
  {
    var init, last := recs[..|recs| - 1], recs[|recs| - 1];
    var n := |recs| - 1;
    BallotCounted(last);
    if Counted(last) {
      var k0, v0 := ParseKey(last.triggerKey.value).value, ParseValue(last.value).value;
      var r := prev[k0 := Some(v0)];
      forall k ensures r[k].None? <==> forall i, v :: 0 <= i < |recs| ==> recs[i] != Ballot(k, v) {
        if k != k0 {
          OtherKeyBallot(last, k0, v0, k);
          SameBallotsBefore(recs, init, k);
        }
      }
      forall k | r[k].Some?
        ensures exists i :: 0 <= i < |recs| && recs[i] == Ballot(k, r[k].value) && LastFor(recs, k, i)
      {
        if k == k0 {
          assert recs[n] == Ballot(k, r[k].value) && LastFor(recs, k, n);
        } else {
          var i :| 0 <= i < |init| && init[i] == Ballot(k, prev[k].value) && LastFor(init, k, i);
          OtherKeyBallot(last, k0, v0, k);
          assert recs[i] == init[i];
          forall j, w | i < j < |recs| ensures recs[j] != Ballot(k, w) {
            if j < n {
              assert recs[j] == init[j];
            }
          }
        }
      }
    } else {
      forall k
        ensures prev[k].None? <==> forall i, v :: 0 <= i < |recs| ==> recs[i] != Ballot(k, v)
      {
        NoBallotLast(recs, k);
        SameBallotsBefore(recs, init, k);
      }
      forall k | prev[k].Some?
        ensures exists i :: 0 <= i < |recs| && recs[i] == Ballot(k, prev[k].value) && LastFor(recs, k, i)
      {
        var i :| 0 <= i < |init| && init[i] == Ballot(k, prev[k].value) && LastFor(init, k, i);
        assert recs[i] == init[i];
        forall j, w | i < j < |recs| ensures recs[j] != Ballot(k, w) {
          if j < n {
            assert recs[j] == init[j];
          }
        }
      }
    }
  }

  lemma OtherKeyBallot(last: RawVote, k0: TriggerKey, v0: VoteValue, k: TriggerKey)
    requires last == Ballot(k0, v0) && k != k0
    ensures forall w :: last != Ballot(k, w)
  {
    forall w ensures last != Ballot(k, w) {
      if last == Ballot(k, w) {
        BallotInjective(k, w, k0, v0);
      }
    }
  }

  lemma NoBallotLast(recs: seq<RawVote>, k: TriggerKey)
    requires |recs| > 0 && !Counted(recs[|recs| - 1])
    ensures forall w :: recs[|recs| - 1] != Ballot(k, w)
  {
    BallotCounted(recs[|recs| - 1]);
  }

  /** Ballots for k among all records versus among all but the last, when
      the last is none. */
  lemma SameBallotsBefore(recs: seq<RawVote>, init: seq<RawVote>, k: TriggerKey)
    requires |recs| > 0 && init == recs[..|recs| - 1]
    requires forall w :: recs[|recs| - 1] != Ballot(k, w)
    ensures (forall i, v :: 0 <= i < |recs| ==> recs[i] != Ballot(k, v)) <==>
      (forall i, v :: 0 <= i < |init| ==> init[i] != Ballot(k, v))
  {
    assert forall i :: 0 <= i < |init| ==> init[i] == recs[i];
  }

  // ---------------------------------------------------------------------
  // The accordion

  /** Which trigger cards are open. */
  type Expanded = set<TriggerKey>

  /** `toggleExpanded(k)`: flips whether k is open and nothing else. */
  function ToggleExpanded(s: Expanded, k: TriggerKey): (r: Expanded)
    ensures k in r <==> k !in s
    ensures forall j :: j != k ==> (j in r <==> j in s)
  {
    if k in s then s - {k} else s + {k}
  }

  /** Toggling the same card twice restores the accordion. */
  lemma ToggleTwice(s: Expanded, k: TriggerKey)
    ensures ToggleExpanded(ToggleExpanded(s, k), k) == s
  {
  }

  /** `expandAll()`: every catalogue card open, which is every trigger. */
  function ExpandAll(): (r: Expanded)
    ensures forall k :: k in r
  {
    ListedKeys()
  }

  /** `collapseAll()`: no card open. */
  function CollapseAll(): (r: Expanded)
    ensures forall k :: k !in r
  {
    {}
  }

  /** From a fully collapsed accordion a tap opens exactly that card; from a
      fully expanded one it closes exactly that card. */
  lemma ToggleFromCollapsedOrExpanded(k: TriggerKey)
    ensures ToggleExpanded(CollapseAll(), k) == {k}
    ensures ToggleExpanded(ExpandAll(), k) == ExpandAll() - {k}
  {
  }

  // ---------------------------------------------------------------------
  // Saving a vote

  /** The route parameters as the screen reads them: the media type
      (`null` unless the `type` parameter is "movie" or "tv") and the title
      id when `Number(id)` is finite. */
  datatype Route = Route(mediaType: Option<MediaType>, tmdbId: Option<int>)

  function RouteOf(typeParam: Option<string>, tmdbId: Option<int>): Route
  {
    Route(ParseMediaType(typeParam), tmdbId)
  }

  /** The screen has a title key exactly when the `type` parameter is
      "movie" or "tv" and the id is known, and the key names that title. */
  lemma RouteTitleKey(typeParam: Option<string>, tmdbId: Option<int>)
    ensures CurrentTitleKey(RouteOf(typeParam, tmdbId)).Some? <==>
      (typeParam == Some("movie") || typeParam == Some("tv")) && tmdbId.Some?
    ensures typeParam == Some("movie") && tmdbId.Some? ==>
      CurrentTitleKey(RouteOf(typeParam, tmdbId)) == Some(TitleKey(Movie, tmdbId.value))
    ensures typeParam == Some("tv") && tmdbId.Some? ==>
      CurrentTitleKey(RouteOf(typeParam, tmdbId)) == Some(TitleKey(Tv, tmdbId.value))
  {
    var m := ParseMediaType(typeParam);
    if typeParam == Some("movie") {
      assert MediaName(Movie) == "movie";
    } else if typeParam == Some("tv") {
      assert MediaName(Tv) == "tv";
    } else {
      assert m.None?;
    }
  }

  /** `currentTitleKey`. */
  function CurrentTitleKey(route: Route): (r: Option<string>)
    ensures r.Some? <==> route.mediaType.Some? && route.tmdbId.Some?
    ensures r.Some? ==> ParseTitleKey(r.value) == Some((route.mediaType.value, route.tmdbId.value))
  {
    if route.mediaType.None? || route.tmdbId.None? then None
    else Some(TitleKey(route.mediaType.value, route.tmdbId.value))
  }

  datatype Screen = Screen(selections: Selections, community: Stats, expanded: Expanded)

  /** The alerts `saveVote` can raise. */
  datatype Notice = NotLoggedIn | MissingTitleInfo | SaveFailed

  /** How the two requests of a save turn out: the write, and the re-read
      of the title's votes by `refreshCommunity`. */
  datatype Network = Network(writeSucceeds: bool, readSucceeds: bool)

  datatype SaveResult = SaveResult(screen: Screen, store: Store, notice: Option<Notice>)

  /** Counting a title's documents gives the same statistics whatever
      order the query lists them in. */
  lemma EveryListingTallies(store: Store, tk: string)
    ensures forall ids :: IsListing(ids, store, tk) ==> Tally(Snapshot(store, ids)) == Some(StoreStats(store, tk))
  {
    forall ids | IsListing(ids, store, tk) ensures Tally(Snapshot(store, ids)) == Some(StoreStats(store, tk)) {
      QueryTally(store, tk, ids);
    }
  }

  /** `saveVote(triggerKey, value)` by the signed-in user `user` (their uid),
      as its final state: no write without a user or without the title's
      media type and id; otherwise the selection shows the new answer at
      once (and keeps it if the write fails), the write upserts the
      user's one vote document for this title and trigger, and a
      successful re-read replaces the statistics with what the stored
      votes add up to. */
  function SaveVote(screen: Screen, store: Store, user: Option<string>, route: Route,
                    k: TriggerKey, v: VoteValue, net: Network): (r: SaveResult)
    ensures user.None? ==> r == SaveResult(screen, store, Some(NotLoggedIn))
    ensures user.Some? && CurrentTitleKey(route).None? ==> r == SaveResult(screen, store, Some(MissingTitleInfo))
    ensures user.Some? && CurrentTitleKey(route).Some? ==>
      && r.screen.selections.Keys == screen.selections.Keys + {k}
      && r.screen.selections[k] == Some(v)
      && (forall j :: j in screen.selections && j != k ==> r.screen.selections[j] == screen.selections[j])
      && r.screen.expanded == screen.expanded
    ensures user.Some? && CurrentTitleKey(route).Some? && !net.writeSucceeds ==>
      r.store == store && r.screen.community == screen.community && r.notice == Some(SaveFailed)
    ensures user.Some? && CurrentTitleKey(route).Some? && net.writeSucceeds ==>
      var vid := VoteDocId(route.mediaType.value, route.tmdbId.value, k, user.value);
      && r.notice.None?
      && r.store.Keys == store.Keys + {vid}
      && r.store[vid] == VoteDoc(user.value, CurrentTitleKey(route).value, route.tmdbId.value, route.mediaType.value, k, v)
      && (forall id :: id in store && id != vid ==> r.store[id] == store[id])
      && (WellKeyed(store) ==> WellKeyed(r.store))
    ensures user.Some? && CurrentTitleKey(route).Some? && net.writeSucceeds && !net.readSucceeds ==>
      r.screen.community == screen.community
    ensures user.Some? && CurrentTitleKey(route).Some? && net.writeSucceeds && net.readSucceeds ==>
      forall ids :: IsListing(ids, r.store, CurrentTitleKey(route).value) ==>
        Tally(Snapshot(r.store, ids)) == Some(r.screen.community)
  {
    if user.None? then SaveResult(screen, store, Some(NotLoggedIn))
    else if CurrentTitleKey(route).None? then SaveResult(screen, store, Some(MissingTitleInfo))
    else
      var m, tmdbId, tk := route.mediaType.value, route.tmdbId.value, CurrentTitleKey(route).value;
      var shown := screen.(selections := screen.selections[k := Some(v)]);
      if !net.writeSucceeds then SaveResult(shown, store, Some(SaveFailed))
      else
        var store' := Upsert(store, m, tmdbId, k, user.value, v);
        if !net.readSucceeds then SaveResult(shown, store', None)
        else
          EveryListingTallies(store', tk);
          SaveResult(shown.(community := StoreStats(store', tk)), store', None)
  }

  // ---------------------------------------------------------------------
  // Reloading the user's own votes

  /** The user-votes effect: without a user or a title key nothing
      happens; otherwise the selections are reset before the query, stay
      reset if the query fails, and are rebuilt from its records when it
      succeeds. */
  function LoadUserVotes(sel: Selections, user: Option<string>, titleKey: Option<string>,
                         snapshot: Option<seq<RawVote>>): (r: Selections)
    ensures user.None? || titleKey.None? ==> r == sel
    ensures user.Some? && titleKey.Some? && snapshot.None? ==> forall k :: k in r && r[k].None?
    ensures user.Some? && titleKey.Some? && snapshot.Some? ==>
      forall k :: k in r && (r[k].None? <==> forall i, v :: 0 <= i < |snapshot.value| ==> snapshot.value[i] != Ballot(k, v))
    ensures user.Some? && titleKey.Some? && snapshot.Some? ==> r == RebuildSelections(snapshot.value)
  {
    if user.None? || titleKey.None? then sel
    else if snapshot.None? then InitialSelections()
    else RebuildSelections(snapshot.value)
  }

  /** `ids` is one possible answer to the query on `uid` and title key
      `tk`: every such document once, in some order. */
  predicate IsUserListing(ids: seq<string>, store: Store, uid: string, tk: string)
  {
    && (forall i :: 0 <= i < |ids| ==> ids[i] in store && store[ids[i]].uid == uid && store[ids[i]].titleKey == tk)
    && (forall id :: id in store && store[id].uid == uid && store[id].titleKey == tk ==> id in ids)
  }

  /** A well-formed record of the user's listing for trigger k is the
      document under the user's vote id for k. */
  lemma ListedBallotIsVote(store: Store, m: MediaType, tmdbId: int, uid: string, ids: seq<string>,
                           i: int, k: TriggerKey, w: VoteValue)
    requires WellKeyed(store) && IsUserListing(ids, store, uid, TitleKey(m, tmdbId))
    requires 0 <= i < |ids| && Snapshot(store, ids)[i] == Ballot(k, w)
    ensures ids[i] == VoteDocId(m, tmdbId, k, uid) && store[ids[i]].value == w
  {
    var d := store[ids[i]];
    BallotInjective(d.triggerKey, d.value, k, w);
    TitleKeyInjective(d.mediaType, d.tmdbId, m, tmdbId);
  }

  /** Whatever order the query returns the user's documents in, the
      rebuilt selection for each trigger is the answer stored under the
      user's vote id for it, and nothing when there is no such document. */
  lemma ReloadShowsStoredVotes(store: Store, m: MediaType, tmdbId: int, uid: string, ids: seq<string>, k: TriggerKey)
    requires WellKeyed(store) && IsUserListing(ids, store, uid, TitleKey(m, tmdbId))
    ensures var vid := VoteDocId(m, tmdbId, k, uid);
      RebuildSelections(Snapshot(store, ids))[k] == if vid in store then Some(store[vid].value) else None
  {
    var vid := VoteDocId(m, tmdbId, k, uid);
    var snap := Snapshot(store, ids);
    var sel := RebuildSelections(snap);
    if vid in store {
      PriorVoteAtId(store, m, tmdbId, k, uid);
      var i0 :| 0 <= i0 < |ids| && ids[i0] == vid;
      assert snap[i0] == Ballot(k, store[vid].value);
    }
    if sel[k].Some? {
      var i :| 0 <= i < |snap| && snap[i] == Ballot(k, sel[k].value) && LastFor(snap, k, i);
      ListedBallotIsVote(store, m, tmdbId, uid, ids, i, k, sel[k].value);
    }
  }

  /** A save that reaches the store shows, after a reload in any order,
      the same selection the screen showed optimistically. */
  lemma SaveThenReloadAgrees(screen: Screen, store: Store, uid: string, m: MediaType, tmdbId: int,
                             k: TriggerKey, v: VoteValue, readSucceeds: bool, ids: seq<string>)
    requires WellKeyed(store)
    requires var r := SaveVote(screen, store, Some(uid), Route(Some(m), Some(tmdbId)), k, v, Network(true, readSucceeds));
      IsUserListing(ids, r.store, uid, TitleKey(m, tmdbId))
    ensures var r := SaveVote(screen, store, Some(uid), Route(Some(m), Some(tmdbId)), k, v, Network(true, readSucceeds));
      RebuildSelections(Snapshot(r.store, ids))[k] == r.screen.selections[k] == Some(v)
  {
    var r := SaveVote(screen, store, Some(uid), Route(Some(m), Some(tmdbId)), k, v, Network(true, readSucceeds));
    ReloadShowsStoredVotes(r.store, m, tmdbId, uid, ids, k);
  }

  // ---------------------------------------------------------------------
  // Worked examples

  /** What a save that reaches the store and reads it back leaves behind. */
  lemma SaveOutcome(screen: Screen, store: Store, uid: string, m: MediaType, tmdbId: int, k: TriggerKey, v: VoteValue)
    ensures var r := SaveVote(screen, store, Some(uid), Route(Some(m), Some(tmdbId)), k, v, Network(true, true));
      && r.store == Upsert(store, m, tmdbId, k, uid, v)
      && r.screen.community == StoreStats(r.store, TitleKey(m, tmdbId))
      && r.screen.selections == screen.selections[k := Some(v)]
  {
  }

  /** A single vote for `v` makes `v` the verdict at 100%. */
  lemma SingleVoteVerdict(s: Stat, v: VoteValue)
    requires s.total == 1 && CountOf(s, v) == 1 && s.total == s.yes + s.no + s.unsure
    ensures TopVerdict(s) == Some(Verdict(v, LabelForValue(v), 100))
  {
    PctOfWhole(1);
  }

  /** Counts that grew by one for `v` and the total, and stayed for the
      other answers, are `before` bumped at `v`. */
  lemma GrewByOne(before: Stat, after: Stat, v: VoteValue)
    requires CountOf(after, v) == CountOf(before, v) + 1
    requires forall w :: w != v ==> CountOf(after, w) == CountOf(before, w)
    requires after.total == before.total + 1
    ensures after == Bump(before, v)
  {
    assert CountOf(after, Yes) == CountOf(Bump(before, v), Yes);
    assert CountOf(after, No) == CountOf(Bump(before, v), No);
    assert CountOf(after, Unsure) == CountOf(Bump(before, v), Unsure);
  }

  /** A first vote by a user who has not voted on that card yet. */
  lemma StoreFreshVote(store: Store, m: MediaType, tmdbId: int, k: TriggerKey, uid: string, v: VoteValue, before: Stat)
    requires WellKeyed(store) && VoteDocId(m, tmdbId, k, uid) !in store
    requires StoreStats(store, TitleKey(m, tmdbId))[k] == before
    ensures StoreStats(Upsert(store, m, tmdbId, k, uid, v), TitleKey(m, tmdbId))[k] == Bump(before, v)
  {
    var after := StoreStats(Upsert(store, m, tmdbId, k, uid, v), TitleKey(m, tmdbId))[k];
    RevoteReplaces(store, m, tmdbId, k, uid, v);
    GrewByOne(before, after, v);
  }

  /** A collection written by `saveVote` in which nobody has voted on
      card `k` of the title yet. */
  predicate UnvotedCard(store: Store, m: MediaType, tmdbId: int, k: TriggerKey)
  {
    WellKeyed(store) && StoreStats(store, TitleKey(m, tmdbId))[k] == ZeroStat
  }

  /** The first vote on a card nobody has voted on. */
  lemma StoreFirstVote(store: Store, m: MediaType, tmdbId: int, k: TriggerKey, uid: string, v: VoteValue)
    requires UnvotedCard(store, m, tmdbId, k)
    ensures var s1 := Upsert(store, m, tmdbId, k, uid, v);
      && WellKeyed(s1)
      && s1.Keys == store.Keys + {VoteDocId(m, tmdbId, k, uid)}
      && VoteDocId(m, tmdbId, k, uid) !in store
      && s1[VoteDocId(m, tmdbId, k, uid)].value == v
      && StoreStats(s1, TitleKey(m, tmdbId))[k] == Bump(ZeroStat, v)
  {
    StoredVoteCounted(store, m, tmdbId, k, uid);
    StoreFreshVote(store, m, tmdbId, k, uid, v, ZeroStat);
  }

  /** The store side of a re-vote on a card nobody else has voted on. */
  lemma StoreRevote(store: Store, m: MediaType, tmdbId: int, k: TriggerKey, uid: string, v1: VoteValue, v2: VoteValue)
    requires UnvotedCard(store, m, tmdbId, k)
    ensures var s1 := Upsert(store, m, tmdbId, k, uid, v1);
      var st := StoreStats(Upsert(s1, m, tmdbId, k, uid, v2), TitleKey(m, tmdbId))[k];
      st.total == 1 && CountOf(st, v2) == 1 && st.total == st.yes + st.no + st.unsure && st == Bump(ZeroStat, v2)
  {
    StoreFirstVote(store, m, tmdbId, k, uid, v1);
    RevoteOnlyVote(Upsert(store, m, tmdbId, k, uid, v1), m, tmdbId, k, uid, v1, v2);
  }

  /** A re-vote by the only voter on a card leaves one vote, the new answer. */
  lemma RevoteOnlyVote(s1: Store, m: MediaType, tmdbId: int, k: TriggerKey, uid: string, v1: VoteValue, v2: VoteValue)
    requires WellKeyed(s1) && VoteDocId(m, tmdbId, k, uid) in s1 && s1[VoteDocId(m, tmdbId, k, uid)].value == v1
    requires StoreStats(s1, TitleKey(m, tmdbId))[k] == Bump(ZeroStat, v1)
    ensures var st := StoreStats(Upsert(s1, m, tmdbId, k, uid, v2), TitleKey(m, tmdbId))[k];
      st.total == 1 && CountOf(st, v2) == 1 && st.total == st.yes + st.no + st.unsure && st == Bump(ZeroStat, v2)
  {
    RevoteReplaces(s1, m, tmdbId, k, uid, v2);
    var before := StoreStats(s1, TitleKey(m, tmdbId))[k];
    var after := StoreStats(Upsert(s1, m, tmdbId, k, uid, v2), TitleKey(m, tmdbId))[k];
    MovedOnlyVote(before, after, v1, v2);
  }

  /** Moving the single vote of a card from `v1` to `v2` leaves one vote
      for `v2`. */
  lemma MovedOnlyVote(before: Stat, after: Stat, v1: VoteValue, v2: VoteValue)
    requires before == Bump(ZeroStat, v1)
    requires CountOf(after, v2) == CountOf(before, v2) + (if v1 == v2 then 0 else 1)
    requires forall w :: w != v2 ==> CountOf(after, w) + (if v1 == w then 1 else 0) == CountOf(before, w)
    requires after.total == before.total
    ensures after.total == 1 && CountOf(after, v2) == 1 && after.total == after.yes + after.no + after.unsure
    ensures after == Bump(ZeroStat, v2)
  {
    assert CountOf(after, Yes) + CountOf(after, No) + CountOf(after, Unsure) == 1 by {
      assert CountOf(before, Yes) + CountOf(before, No) + CountOf(before, Unsure) == 1;
    }
  }

  /** One user votes on a card nobody has voted on, then changes the
      answer: the card counts one vote, the second answer, which is the
      verdict at 100%, and the screen shows the second answer selected. */
  lemma RevoteScenario(screen: Screen, store: Store, m: MediaType, tmdbId: int, k: TriggerKey, uid: string, v1: VoteValue, v2: VoteValue)
    requires UnvotedCard(store, m, tmdbId, k)
    ensures var route := Route(Some(m), Some(tmdbId));
      var first := SaveVote(screen, store, Some(uid), route, k, v1, Network(true, true));
      var second := SaveVote(first.screen, first.store, Some(uid), route, k, v2, Network(true, true));
      && second.screen.community[k].total == 1
      && CountOf(second.screen.community[k], v2) == 1
      && second.screen.community[k] == Bump(ZeroStat, v2)
      && TopVerdict(second.screen.community[k]) == Some(Verdict(v2, LabelForValue(v2), 100))
      && second.screen.selections[k] == Some(v2)
  {
    var route := Route(Some(m), Some(tmdbId));
    var first := SaveVote(screen, store, Some(uid), route, k, v1, Network(true, true));
    SaveOutcome(screen, store, uid, m, tmdbId, k, v1);
    SaveOutcome(first.screen, first.store, uid, m, tmdbId, k, v2);
    StoreRevote(store, m, tmdbId, k, uid, v1, v2);
    var second := SaveVote(first.screen, first.store, Some(uid), route, k, v2, Network(true, true));
    SingleVoteVerdict(second.screen.community[k], v2);
  }

  /** Two fresh votes by different users on one card add up. */
  lemma TwoFreshVotes(store: Store, m: MediaType, tmdbId: int, k: TriggerKey,
                      a: string, va: VoteValue, b: string, vb: VoteValue, before: Stat)
    requires WellKeyed(store) && StoreStats(store, TitleKey(m, tmdbId))[k] == before
    requires VoteDocId(m, tmdbId, k, a) !in store && VoteDocId(m, tmdbId, k, b) !in store && a != b
    ensures var sb := Upsert(Upsert(store, m, tmdbId, k, a, va), m, tmdbId, k, b, vb);
      StoreStats(sb, TitleKey(m, tmdbId))[k] == Bump(Bump(before, va), vb)
  {
    var sa := Upsert(store, m, tmdbId, k, a, va);
    StoreFreshVote(store, m, tmdbId, k, a, va, before);
    SameVoteIdSameUser(m, tmdbId, k, a, b);
    StoreFreshVote(sa, m, tmdbId, k, b, vb, Bump(before, va));
  }

  /** Two votes keep the collection well keyed and add their two ids. */
  lemma TwoUpserts(store: Store, m: MediaType, tmdbId: int, k: TriggerKey,
                   a: string, va: VoteValue, b: string, vb: VoteValue)
    requires WellKeyed(store)
    ensures var sb := Upsert(Upsert(store, m, tmdbId, k, a, va), m, tmdbId, k, b, vb);
      && WellKeyed(sb)
      && sb.Keys == store.Keys + {VoteDocId(m, tmdbId, k, a), VoteDocId(m, tmdbId, k, b)}
  {
  }

  /** The store side of two different users voting yes on a card nobody
      has voted on. */
  lemma StoreTwoYes(store: Store, m: MediaType, tmdbId: int, k: TriggerKey, a: string, b: string)
    requires UnvotedCard(store, m, tmdbId, k) && a != b
    ensures var sb := Upsert(Upsert(store, m, tmdbId, k, a, Yes), m, tmdbId, k, b, Yes);
      && WellKeyed(sb)
      && sb.Keys == store.Keys + {VoteDocId(m, tmdbId, k, a), VoteDocId(m, tmdbId, k, b)}
      && StoreStats(sb, TitleKey(m, tmdbId))[k] == Stat(2, 0, 0, 2)
  {
    StoredVoteCounted(store, m, tmdbId, k, a);
    StoredVoteCounted(store, m, tmdbId, k, b);
    TwoFreshVotes(store, m, tmdbId, k, a, Yes, b, Yes, ZeroStat);
    TwoUpserts(store, m, tmdbId, k, a, Yes, b, Yes);
  }

  /** After two users' votes on an unvoted card, a third user has still
      not voted on it. */
  lemma ThirdVoterAbsent(store: Store, m: MediaType, tmdbId: int, k: TriggerKey, a: string, b: string, c: string,
                         keys: set<string>)
    requires UnvotedCard(store, m, tmdbId, k) && a != c && b != c
    requires keys == store.Keys + {VoteDocId(m, tmdbId, k, a), VoteDocId(m, tmdbId, k, b)}
    ensures VoteDocId(m, tmdbId, k, c) !in keys
  {
    StoredVoteCounted(store, m, tmdbId, k, c);
    SameVoteIdSameUser(m, tmdbId, k, a, c);
    SameVoteIdSameUser(m, tmdbId, k, b, c);
  }

  /** The store side of three different users voting yes, yes and no on a
      card nobody has voted on. */
  lemma StoreThreeVoters(store: Store, m: MediaType, tmdbId: int, k: TriggerKey, a: string, b: string, c: string)
    requires UnvotedCard(store, m, tmdbId, k) && a != b && a != c && b != c
    ensures var sb := Upsert(Upsert(store, m, tmdbId, k, a, Yes), m, tmdbId, k, b, Yes);
      StoreStats(Upsert(sb, m, tmdbId, k, c, No), TitleKey(m, tmdbId))[k] == Stat(2, 1, 0, 3)
  {
    var sb := Upsert(Upsert(store, m, tmdbId, k, a, Yes), m, tmdbId, k, b, Yes);
    var tk := TitleKey(m, tmdbId);
    assert WellKeyed(sb) && StoreStats(sb, tk)[k] == Stat(2, 0, 0, 2) by {
      StoreTwoYes(store, m, tmdbId, k, a, b);
    }
    assert VoteDocId(m, tmdbId, k, c) !in sb by {
      StoreTwoYes(store, m, tmdbId, k, a, b);
      ThirdVoterAbsent(store, m, tmdbId, k, a, b, c, sb.Keys);
    }
    ThirdVoteNo(sb, m, tmdbId, k, c);
  }

  /** A fresh "no" on a card at two yes makes it two yes and one no. */
  lemma ThirdVoteNo(sb: Store, m: MediaType, tmdbId: int, k: TriggerKey, c: string)
    requires WellKeyed(sb) && VoteDocId(m, tmdbId, k, c) !in sb
    requires StoreStats(sb, TitleKey(m, tmdbId))[k] == Stat(2, 0, 0, 2)
    ensures StoreStats(Upsert(sb, m, tmdbId, k, c, No), TitleKey(m, tmdbId))[k] == Stat(2, 1, 0, 3)
  {
    var tk := TitleKey(m, tmdbId);
    var before := StoreStats(sb, tk)[k];
    StoreFreshVote(sb, m, tmdbId, k, c, No, before);
    assert Bump(Stat(2, 0, 0, 2), No) == Stat(2, 1, 0, 3);
  }

  /** Two of three votes: 66.67% rounds to 67. */
  lemma TwoOfThreeVerdict()
    ensures TopVerdict(Stat(2, 1, 0, 3)) == Some(Verdict(Yes, "Present", 67))
  {
  }

  /** Three different users vote yes, yes and no on a card nobody has
      voted on: the card counts two yes and one no, and its verdict is
      "Present" at 67%. */
  lemma ThreeVotersScenario(screen: Screen, store: Store, m: MediaType, tmdbId: int, k: TriggerKey, a: string, b: string, c: string)
    requires UnvotedCard(store, m, tmdbId, k) && a != b && a != c && b != c
    ensures var route := Route(Some(m), Some(tmdbId));
      var ra := SaveVote(screen, store, Some(a), route, k, Yes, Network(true, true));
      var rb := SaveVote(ra.screen, ra.store, Some(b), route, k, Yes, Network(true, true));
      var rc := SaveVote(rb.screen, rb.store, Some(c), route, k, No, Network(true, true));
      && rc.screen.community[k] == Stat(2, 1, 0, 3)
      && TopVerdict(rc.screen.community[k]) == Some(Verdict(Yes, "Present", 67))
  {
    var route := Route(Some(m), Some(tmdbId));
    var ra := SaveVote(screen, store, Some(a), route, k, Yes, Network(true, true));
    SaveOutcome(screen, store, a, m, tmdbId, k, Yes);
    var rb := SaveVote(ra.screen, ra.store, Some(b), route, k, Yes, Network(true, true));
    SaveOutcome(ra.screen, ra.store, b, m, tmdbId, k, Yes);
    SaveOutcome(rb.screen, rb.store, c, m, tmdbId, k, No);
    StoreThreeVoters(store, m, tmdbId, k, a, b, c);
    TwoOfThreeVerdict();
  }
}
