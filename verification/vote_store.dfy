/** The `triggerVotes` collection as a map from document id to document,
    the upsert `saveVote` performs on it, and what the title-key query
    returns from it. */
module VoteStore {
  import opened Wrappers
  import opened Triggers
  import opened Tmdb
  import opened VoteIds
  import opened Community

  /** A vote document as `saveVote` writes it (the two server timestamps
      are not modelled). */
  datatype VoteDoc = VoteDoc(
    uid: string,
    titleKey: string,
    tmdbId: int,
    mediaType: MediaType,
    triggerKey: TriggerKey,
    value: VoteValue)

  type Store = map<string, VoteDoc>

  function DocIdOf(d: VoteDoc): string
  {
    VoteDocId(d.mediaType, d.tmdbId, d.triggerKey, d.uid)
  }

  /** Every document sits under the id computed from its own fields, and
      carries its own title's key: what holds of a collection only
      `saveVote` writes to. */
  predicate WellKeyed(store: Store)
  {
    forall id :: id in store ==>
      id == DocIdOf(store[id]) && store[id].titleKey == TitleKey(store[id].mediaType, store[id].tmdbId)
  }

  /** `setDoc(doc(db, "triggerVotes", voteId), {...}, { merge: true })`:
      every modelled field is written, so the merge replaces them all;
      the document is created if absent and no other document changes. */
  function Upsert(store: Store, m: MediaType, tmdbId: int, k: TriggerKey, uid: string, v: VoteValue): (r: Store)
    ensures r.Keys == store.Keys + {VoteDocId(m, tmdbId, k, uid)}
    ensures r[VoteDocId(m, tmdbId, k, uid)] == VoteDoc(uid, TitleKey(m, tmdbId), tmdbId, m, k, v)
    ensures forall id :: id in store && id != VoteDocId(m, tmdbId, k, uid) ==> r[id] == store[id]
    ensures WellKeyed(store) ==> WellKeyed(r)
  {
    store[VoteDocId(m, tmdbId, k, uid) := VoteDoc(uid, TitleKey(m, tmdbId), tmdbId, m, k, v)]
  }

  /** In a collection written by `saveVote`, one user has at most one vote
      per title and trigger. */
  lemma AtMostOneVote(store: Store, i: string, j: string)
    requires WellKeyed(store) && i in store && j in store
    requires store[i].uid == store[j].uid
    requires store[i].titleKey == store[j].titleKey
    requires store[i].triggerKey == store[j].triggerKey
    ensures i == j
  {
    var a, b := store[i], store[j];
    TitleKeyInjective(a.mediaType, a.tmdbId, b.mediaType, b.tmdbId);
  }

  /** Voting never touches another user's vote, nor the same user's vote
      on another trigger or title. */
  lemma UpsertKeepsOtherVotes(store: Store, m: MediaType, tmdbId: int, k: TriggerKey, uid: string, v: VoteValue, id: string)
    requires WellKeyed(store) && id in store
    requires store[id].uid != uid || store[id].triggerKey != k || store[id].mediaType != m || store[id].tmdbId != tmdbId
    ensures Upsert(store, m, tmdbId, k, uid, v)[id] == store[id]
  {
    var d := store[id];
    if id == VoteDocId(m, tmdbId, k, uid) {
      VoteDocIdInjective(d.mediaType, d.tmdbId, d.triggerKey, d.uid, m, tmdbId, k, uid);
    }
  }

  /** Submitting the same vote again changes nothing: a retry is safe. */
  lemma UpsertIdempotent(store: Store, m: MediaType, tmdbId: int, k: TriggerKey, uid: string, v: VoteValue)
    ensures Upsert(Upsert(store, m, tmdbId, k, uid, v), m, tmdbId, k, uid, v) == Upsert(store, m, tmdbId, k, uid, v)
  {
    var d := VoteDoc(uid, TitleKey(m, tmdbId), tmdbId, m, k, v);
    WriteTwice(store, VoteDocId(m, tmdbId, k, uid), d, d);
  }

  /** A re-vote overwrites: only the last answer remains. */
  lemma UpsertOverwrites(store: Store, m: MediaType, tmdbId: int, k: TriggerKey, uid: string, v1: VoteValue, v2: VoteValue)
    ensures Upsert(Upsert(store, m, tmdbId, k, uid, v1), m, tmdbId, k, uid, v2) == Upsert(store, m, tmdbId, k, uid, v2)
  {
    var id := VoteDocId(m, tmdbId, k, uid);
    var tk := TitleKey(m, tmdbId);
    WriteTwice(store, id, VoteDoc(uid, tk, tmdbId, m, k, v1), VoteDoc(uid, tk, tmdbId, m, k, v2));
  }

  /** Writing one key twice leaves only the second write. */
  lemma WriteTwice<K, V>(s: map<K, V>, key: K, a: V, b: V)
    ensures s[key := a][key := b] == s[key := b]
  {
  }

  // ---------------------------------------------------------------------
  // Reading a title's votes back

  /** Ids of the documents of title `tk` voting `v` on trigger `k`. */
  function VotesFor(store: Store, tk: string, k: TriggerKey, v: VoteValue): set<string>
  {
    set id | id in store && store[id].titleKey == tk && store[id].triggerKey == k && store[id].value == v
  }

  /** The statistics a title's documents add up to. */
  function StoreStats(store: Store, tk: string): (r: Stats)
    ensures IsTotal(r)
  {
    map k | k in ListedKeys() ::
      var y, n, u := |VotesFor(store, tk, k, Yes)|, |VotesFor(store, tk, k, No)|, |VotesFor(store, tk, k, Unsure)|;
      Stat(y, n, u, y + n + u)
  }

  /** `ids` is one possible answer to `where("titleKey", "==", tk)`: every
      matching document once, in some order. */
  predicate IsListing(ids: seq<string>, store: Store, tk: string)
  {
    && (forall i, j :: 0 <= i < j < |ids| ==> ids[i] != ids[j])
    && (forall i :: 0 <= i < |ids| ==> ids[i] in store && store[ids[i]].titleKey == tk)
    && (forall id :: id in store && store[id].titleKey == tk ==> id in ids)
  }

  /** The two fields the tally reads from a document. */
  function ReadBack(d: VoteDoc): RawVote
  {
    Ballot(d.triggerKey, d.value)
  }

  function Snapshot(store: Store, ids: seq<string>): (r: seq<RawVote>)
    requires forall i :: 0 <= i < |ids| ==> ids[i] in store
    ensures |r| == |ids|
    ensures forall i :: 0 <= i < |ids| ==> r[i] == ReadBack(store[ids[i]])
  {
    seq(|ids|, i requires 0 <= i < |ids| => ReadBack(store[ids[i]]))
  }

  lemma BallotInjective(k1: TriggerKey, v1: VoteValue, k2: TriggerKey, v2: VoteValue)
    requires Ballot(k1, v1) == Ballot(k2, v2)
    ensures k1 == k2 && v1 == v2
  {
    KeyNameInjective(k1, k2);
    ParseValueName(v1);
    ParseValueName(v2);
  }

  /** Ids among `ids` of documents voting `v` on `k`. */
  function Matching(store: Store, ids: seq<string>, k: TriggerKey, v: VoteValue): set<string>
  {
    set id | id in ids && id in store && store[id].triggerKey == k && store[id].value == v
  }

  lemma {:induction false} SnapshotOccurrences(store: Store, ids: seq<string>, k: TriggerKey, v: VoteValue)
    requires forall i :: 0 <= i < |ids| ==> ids[i] in store
    requires forall i, j :: 0 <= i < j < |ids| ==> ids[i] != ids[j]
    ensures multiset(Snapshot(store, ids))[Ballot(k, v)] == |Matching(store, ids, k, v)|
    decreases |ids|
  {
    if |ids| == 0 {
      assert Matching(store, ids, k, v) == {};
    } else {
      var init, last := ids[..|ids| - 1], ids[|ids| - 1];
      assert ids == init + [last];
      SnapshotOccurrences(store, init, k, v);
      SnapshotAppend(store, init, last);
      assert last !in init;
      var d := store[last];
      MatchingAppend(store, init, last, k, v);
      if ReadBack(d) == Ballot(k, v) {
        BallotInjective(d.triggerKey, d.value, k, v);
      }
    }
  }

  lemma SnapshotAppend(store: Store, init: seq<string>, last: string)
    requires forall i :: 0 <= i < |init| ==> init[i] in store
    requires last in store
    ensures Snapshot(store, init + [last]) == Snapshot(store, init) + [ReadBack(store[last])]
  {
  }

  lemma MatchingAppend(store: Store, init: seq<string>, last: string, k: TriggerKey, v: VoteValue)
    requires last in store && last !in init
    ensures var d := store[last];
      |Matching(store, init + [last], k, v)| ==
        |Matching(store, init, k, v)| + if d.triggerKey == k && d.value == v then 1 else 0
  {
    var d := store[last];
    var a, b := Matching(store, init + [last], k, v), Matching(store, init, k, v);
    forall id ensures id in init + [last] <==> id in init || id == last {
      assert id in init + [last] <==> id in multiset(init + [last]);
    }
    if d.triggerKey == k && d.value == v {
      assert a == b + {last};
    } else {
      assert a == b;
    }
  }

  /** Whatever order the query returns a title's documents in, the
      tally of `refreshCommunity` succeeds and yields the statistics the
      documents add up to. */
  lemma QueryTally(store: Store, tk: string, ids: seq<string>)
    requires IsListing(ids, store, tk)
    ensures Tally(Snapshot(store, ids)) == Some(StoreStats(store, tk))
  {
    var snap := Snapshot(store, ids);
    SnapshotNeverThrows(store, ids);
    var r := Tally(snap).value;
    forall k, v ensures CountOf(r[k], v) == |VotesFor(store, tk, k, v)| {
      SnapshotOccurrences(store, ids, k, v);
      MatchingIsVotesFor(store, tk, ids, k, v);
    }
    SameCounts(r, StoreStats(store, tk), store, tk);
  }

  lemma SnapshotNeverThrows(store: Store, ids: seq<string>)
    requires forall i :: 0 <= i < |ids| ==> ids[i] in store
    ensures forall i :: 0 <= i < |ids| ==> !Throws(Snapshot(store, ids)[i])
  {
    forall i | 0 <= i < |ids| ensures !Throws(Snapshot(store, ids)[i]) {
      BallotCounted(Snapshot(store, ids)[i]);
    }
  }

  lemma MatchingIsVotesFor(store: Store, tk: string, ids: seq<string>, k: TriggerKey, v: VoteValue)
    requires IsListing(ids, store, tk)
    ensures Matching(store, ids, k, v) == VotesFor(store, tk, k, v)
  {
    forall id | id in ids ensures id in store && store[id].titleKey == tk {
      var i :| 0 <= i < |ids| && ids[i] == id;
    }
  }

  lemma SameCounts(r: Stats, s: Stats, store: Store, tk: string)
    requires IsTotal(r) && s == StoreStats(store, tk)
    requires forall k :: r[k].total == r[k].yes + r[k].no + r[k].unsure
    requires forall k, v :: CountOf(r[k], v) == |VotesFor(store, tk, k, v)|
    ensures r == s
  {
    forall k ensures r[k] == s[k] {
      assert CountOf(r[k], Yes) == CountOf(s[k], Yes);
      assert CountOf(r[k], No) == CountOf(s[k], No);
      assert CountOf(r[k], Unsure) == CountOf(s[k], Unsure);
    }
  }

  // ---------------------------------------------------------------------
  // What a vote does to the statistics

  /** The document at a vote's id, if any, belongs to that title and
      trigger. */
  lemma PriorVoteAtId(store: Store, m: MediaType, tmdbId: int, k: TriggerKey, uid: string)
    requires WellKeyed(store)
    requires VoteDocId(m, tmdbId, k, uid) in store
    ensures var d := store[VoteDocId(m, tmdbId, k, uid)];
      d.titleKey == TitleKey(m, tmdbId) && d.triggerKey == k && d.uid == uid
  {
    var d := store[VoteDocId(m, tmdbId, k, uid)];
    VoteDocIdInjective(d.mediaType, d.tmdbId, d.triggerKey, d.uid, m, tmdbId, k, uid);
  }

  /** Replacing the document at `vid` by `d`, where any document already
      there has the same title and trigger, moves at most one vote of
      that card from the old answer to `d`'s. */
  lemma UpdateCounts(store: Store, vid: string, d: VoteDoc, w: VoteValue)
    requires vid in store ==> store[vid].titleKey == d.titleKey && store[vid].triggerKey == d.triggerKey
    ensures |VotesFor(store[vid := d], d.titleKey, d.triggerKey, w)| + (if vid in store && store[vid].value == w then 1 else 0)
      == |VotesFor(store, d.titleKey, d.triggerKey, w)| + (if w == d.value then 1 else 0)
  {
    var before, after := VotesFor(store, d.titleKey, d.triggerKey, w), VotesFor(store[vid := d], d.titleKey, d.triggerKey, w);
    if w == d.value {
      assert after == before + {vid};
    } else {
      assert after == before - {vid};
    }
  }

  lemma UpdateOtherCards(store: Store, vid: string, d: VoteDoc, tk: string, k: TriggerKey, w: VoteValue)
    requires vid in store ==> store[vid].titleKey == d.titleKey && store[vid].triggerKey == d.triggerKey
    requires tk != d.titleKey || k != d.triggerKey
    ensures VotesFor(store[vid := d], tk, k, w) == VotesFor(store, tk, k, w)
  {
  }

  lemma StoreStatsAt(store: Store, tk: string, k: TriggerKey)
    ensures forall w :: CountOf(StoreStats(store, tk)[k], w) == |VotesFor(store, tk, k, w)|
    ensures StoreStats(store, tk)[k].total ==
      |VotesFor(store, tk, k, Yes)| + |VotesFor(store, tk, k, No)| + |VotesFor(store, tk, k, Unsure)|
  {
    assert k in ListedKeys();
  }

  /** A stored vote shows on its title's card: its answer and the total
      each count at least one. */
  lemma StoredVoteCounted(store: Store, m: MediaType, tmdbId: int, k: TriggerKey, uid: string)
    requires WellKeyed(store)
    ensures VoteDocId(m, tmdbId, k, uid) in store ==>
      var st := StoreStats(store, TitleKey(m, tmdbId))[k];
      CountOf(st, store[VoteDocId(m, tmdbId, k, uid)].value) >= 1 && st.total >= 1
  {
    var id := VoteDocId(m, tmdbId, k, uid);
    var tk := TitleKey(m, tmdbId);
    if id in store {
      var w := store[id].value;
      VoteAmongItsVotes(store, m, tmdbId, k, uid);
      MemberCounted(id, VotesFor(store, tk, k, w));
      StoreStatsAt(store, tk, k);
    }
  }

  /** A stored vote is among the votes of its title, trigger and answer. */
  lemma VoteAmongItsVotes(store: Store, m: MediaType, tmdbId: int, k: TriggerKey, uid: string)
    requires WellKeyed(store) && VoteDocId(m, tmdbId, k, uid) in store
    ensures VoteDocId(m, tmdbId, k, uid) in
      VotesFor(store, TitleKey(m, tmdbId), k, store[VoteDocId(m, tmdbId, k, uid)].value)
  {
    PriorVoteAtId(store, m, tmdbId, k, uid);
  }

  /** A set with a member is not empty. */
  lemma MemberCounted<T>(x: T, s: set<T>)
    requires x in s
    ensures |s| >= 1
  {
    assert {x} <= s;
  }

  /** The counting argument of a re-vote, for any id and document. */
  lemma ReplaceCounts(store: Store, vid: string, d: VoteDoc)
    requires vid in store ==> store[vid].titleKey == d.titleKey && store[vid].triggerKey == d.triggerKey
    ensures
      var before, after := StoreStats(store, d.titleKey)[d.triggerKey], StoreStats(store[vid := d], d.titleKey)[d.triggerKey];
      && CountOf(after, d.value) == CountOf(before, d.value) + (if vid in store && store[vid].value == d.value then 0 else 1)
      && (forall w :: w != d.value ==>
            CountOf(after, w) + (if vid in store && store[vid].value == w then 1 else 0) == CountOf(before, w))
      && after.total == before.total + (if vid in store then 0 else 1)
  {
    UpdateCounts(store, vid, d, Yes);
    UpdateCounts(store, vid, d, No);
    UpdateCounts(store, vid, d, Unsure);
    StoreStatsAt(store, d.titleKey, d.triggerKey);
    StoreStatsAt(store[vid := d], d.titleKey, d.triggerKey);
  }

  /** Voting `v` on trigger `k` of a title counts the user once, with the
      new answer: a first vote adds one to `v` and to the total; a re-vote
      moves the user's one vote from the old answer to `v` and leaves the
      total alone. */
  lemma RevoteReplaces(store: Store, m: MediaType, tmdbId: int, k: TriggerKey, uid: string, v: VoteValue)
    requires WellKeyed(store)
    ensures
      var tk, vid := TitleKey(m, tmdbId), VoteDocId(m, tmdbId, k, uid);
      var before, after := StoreStats(store, tk)[k], StoreStats(Upsert(store, m, tmdbId, k, uid, v), tk)[k];
      && CountOf(after, v) == CountOf(before, v) + (if vid in store && store[vid].value == v then 0 else 1)
      && (forall w :: w != v ==>
            CountOf(after, w) + (if vid in store && store[vid].value == w then 1 else 0) == CountOf(before, w))
      && after.total == before.total + (if vid in store then 0 else 1)
  {
    var vid := VoteDocId(m, tmdbId, k, uid);
    if vid in store {
      PriorVoteAtId(store, m, tmdbId, k, uid);
    }
    ReplaceCounts(store, vid, VoteDoc(uid, TitleKey(m, tmdbId), tmdbId, m, k, v));
  }

  /** A vote changes no other card of the title and nothing of other
      titles. */
  lemma UpsertTouchesOneCard(store: Store, m: MediaType, tmdbId: int, k: TriggerKey, uid: string, v: VoteValue,
                             tk: string, k': TriggerKey)
    requires WellKeyed(store)
    requires tk != TitleKey(m, tmdbId) || k' != k
    ensures StoreStats(Upsert(store, m, tmdbId, k, uid, v), tk)[k'] == StoreStats(store, tk)[k']
  {
    var vid := VoteDocId(m, tmdbId, k, uid);
    var d := VoteDoc(uid, TitleKey(m, tmdbId), tmdbId, m, k, v);
    var r := Upsert(store, m, tmdbId, k, uid, v);
    assert r == store[vid := d];
    if vid in store {
      PriorVoteAtId(store, m, tmdbId, k, uid);
    }
    UpdateOtherCards(store, vid, d, tk, k', Yes);
    UpdateOtherCards(store, vid, d, tk, k', No);
    UpdateOtherCards(store, vid, d, tk, k', Unsure);
    SameVotesSameStat(store, r, tk, k');
  }

  lemma SameVotesSameStat(s1: Store, s2: Store, tk: string, k: TriggerKey)
    requires VotesFor(s1, tk, k, Yes) == VotesFor(s2, tk, k, Yes)
    requires VotesFor(s1, tk, k, No) == VotesFor(s2, tk, k, No)
    requires VotesFor(s1, tk, k, Unsure) == VotesFor(s2, tk, k, Unsure)
    ensures StoreStats(s1, tk)[k] == StoreStats(s2, tk)[k]
  {
    assert k in ListedKeys();
  }
}
