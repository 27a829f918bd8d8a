# Trigger-warning votes: a Dafny model

This project models the vote logic of a mobile app in which signed-in users
say whether a film or TV show contains one of eight content triggers
(violence, self-harm, flashing lights, …). Each user votes yes, no or unsure
per trigger. The title screen adds up everyone's votes into per-trigger
statistics and a headline verdict.

The model covers:

- **Trigger catalogue** (`triggers.dfy`, module `Triggers`). The closed
  `TriggerKey` enum, its wire names, and the ordered list of eight triggers
  with their display labels.
- **Identity scheme** (`vote_ids.dfy`, module `VoteIds`).
  - `titleKey` is `${mediaType}_${tmdbId}`.
  - `voteDocId` is `${mediaType}_${tmdbId}_${triggerKey}_${uid}`.
  - A decimal rendering of the integer id, with the parser that reads it
    back.
  - The proofs that neither key collides, even when the uid contains `_`.
- **TMDB helpers** (`tmdb.dfy`, module `Tmdb`).
  - `posterUrl`.
  - The rules of `searchMulti`: the API-key check comes before the
    blank-query check; the query is trimmed with JavaScript's whitespace
    set; results are filtered to movies and TV shows in order; a non-ok
    response becomes an error.
- **Community statistics** (`community.dfy`, module `Community`).
  - `emptyCommunity`, `pct`, `topVerdict` and `labelForValue`.
  - The counting loop of `refreshCommunity`, over the records the query
    returns. The model includes the case where a record with an unknown
    trigger key makes the loop throw, so the screen keeps its previous
    statistics.
- **Vote store** (`vote_store.dfy`, module `VoteStore`).
  - The `triggerVotes` collection as a map from document id to document.
  - The upsert `saveVote` performs on it.
  - The bridge from any ordering of a title's documents to the statistics
    those documents add up to.
- **Title screen** (`title_screen.dfy`, module `TitleScreen`).
  - The user's selections, rebuilt from their own votes.
  - The accordion of expanded cards.
  - `saveVote`: its two guards, the optimistic selection, the upsert, and
    the re-read of the statistics.
  - Two worked examples, stated for any screen, title, trigger and users,
    and any store in which nobody has voted on that card yet.

I/O is turned into parameters:

- The API key.
- The HTTP response.
- Whether the Firestore write and read succeed.
- The records a query returns, given as a sequence, or as a listing of
  document ids whose order is arbitrary.
- The signed-in user's uid.

## Model

| member | source | states |
|---|---|---|
| Triggers.ListedKeys | src/constants/triggers.ts:1-20 | the keys of the catalogue list are every `TriggerKey`, so a map built from the list is total |
| Triggers.IndexOf | src/constants/triggers.ts:11-20 | every key has a position in the catalogue list holding that key |
| Triggers.ParseKey | src/constants/triggers.ts:1-9 | a string is read as a key exactly when it is that key's wire name; otherwise it matches no key |
| Triggers.ParseKeyName | src/constants/triggers.ts:1-9 | reading a key's wire name gives the key back, and no wire name is empty |
| Triggers.KeyNameInjective | src/constants/triggers.ts:1-9 | distinct keys have distinct wire names |
| Triggers.TriggerCount | src/constants/triggers.ts:11-20 | the catalogue has exactly eight entries |
| Triggers.TriggerKeysDistinct | src/constants/triggers.ts:11-20 | no key appears twice in the catalogue |
| Triggers.EveryKeyListed | src/constants/triggers.ts:1-20 | every enum value appears in the catalogue |
| Triggers.LabelsNonEmpty | src/constants/triggers.ts:12-19 | every display label is non-empty |
| Triggers.NoKeySepPrefix | src/constants/triggers.ts:1-9 | no wire name followed by `_` is a prefix of another wire name (e.g. "violence_" vs "sexual_violence") |
| Triggers.KeyThenSuffixInjective | src/constants/triggers.ts:1-9 | a wire name, `_` and any suffix determine both the key and the suffix |
| Tmdb.ParseMediaType | app/title.tsx:101-102 | the `type` parameter gives a media type exactly when it is "movie" or "tv" |
| Tmdb.ParseSize | src/lib/tmdb.ts:40 | a string is a poster size exactly when it is "w185", "w342" or "w500": each size's name reads back as that size, and any other string matches no size |
| Tmdb.PosterUrl | src/lib/tmdb.ts:40-43 | no URL for a missing or empty path; otherwise the image base, the size (default w342) and the path, from which both can be read back |
| Tmdb.PosterUrlInjective | src/lib/tmdb.ts:42 | different non-empty paths or sizes give different URLs |
| Tmdb.Trim | src/lib/tmdb.ts:25 | the result is the infix left after removing leading and trailing JavaScript whitespace; it is empty exactly when the query is all whitespace |
| Tmdb.FilterTitles | src/lib/tmdb.ts:36-37 | every kept result is a movie or a TV show |
| Tmdb.FilterTitlesCounts | src/lib/tmdb.ts:37 | each movie or TV item is kept as often as it occurs, and every other item is dropped |
| Tmdb.FilterTitlesAppend | src/lib/tmdb.ts:37 | filtering preserves order: it distributes over concatenation |
| Tmdb.FilterTitlesKeepsTitles | src/lib/tmdb.ts:37 | a list of only movies and TV shows passes unchanged |
| Tmdb.SearchMulti | src/lib/tmdb.ts:4-37 | a missing key fails even for a blank query; with a key, a blank query returns no results without a request; otherwise the trimmed query is sent, a non-ok status is an error, and an ok response yields its filtered results (none when absent) |
| VoteIds.ParseIntDecimal | src/lib/voteIds.ts:5 | the printed integer reads back as the same integer |
| VoteIds.NatDecimal | src/lib/voteIds.ts:5 | a natural prints as one or more digits, with a leading zero only for 0 itself |
| VoteIds.IntDecimal | src/lib/voteIds.ts:5 | an integer prints in canonical form: digits without leading zeros, preceded by `-` exactly when it is negative, never "-0" |
| VoteIds.CanonicalNatIsPrinted | src/lib/voteIds.ts:5 | every canonical digit string is the printed form of the natural it reads as |
| VoteIds.CanonicalIntIsPrinted | src/lib/voteIds.ts:5 | every canonical integer spelling is the printed form of the integer it reads as, so together with the read-back the printer writes exactly the canonical spelling |
| VoteIds.IntDecimalInjective | src/lib/voteIds.ts:5 | distinct integers print differently |
| VoteIds.TitleKey | src/lib/voteIds.ts:4-6 | the title key parses back to exactly the media type and id it was built from |
| VoteIds.TitleKeyCanonical | src/lib/voteIds.ts:4-6 | the title key is the media name and `_` followed by the id's canonical spelling, which reads back as the id and starts with `-` exactly for a negative id |
| VoteIds.TitleKeyInjective | src/lib/voteIds.ts:4-6 | different (media type, id) pairs get different title keys |
| VoteIds.VoteDocId | src/lib/voteIds.ts:8-10 | the vote id is the title key, `_`, the trigger's wire name, `_`, the uid, so the title key followed by `_` is a prefix of the id |
| VoteIds.VoteDocIdInjective | src/lib/voteIds.ts:8-10 | equal vote ids have equal media type, id, trigger and uid, for any uid including ones with `_` |
| VoteIds.SameVoteIdSameUser | app/title.tsx:228-229 | on one title and trigger, two users share a vote id exactly when their uids are equal |
| Community.ParseValue | app/title.tsx:193-196 | a stored value is an answer exactly when it is "yes", "no" or "unsure" |
| Community.LabelForValue | app/title.tsx:71-75 | the label is never empty; it is "Present" exactly for yes, "Not present" exactly for no and "Unsure" exactly for unsure |
| Community.LabelForValueInjective | app/title.tsx:71-75 | each answer's label is non-empty and different answers have different labels |
| Community.EmptyCommunity | app/title.tsx:48-52 | every trigger maps to all-zero counts |
| Community.Bump | app/title.tsx:198-199 | one answer's count and the total go up by one; the other counts stay |
| Community.Pct | app/title.tsx:54-57 | 0 for a zero total; otherwise the integer nearest to 100·part/total, halves rounded up |
| Community.PctBounded | app/title.tsx:54-57 | a part of the total gives at most 100 |
| Community.PctOfWhole | app/title.tsx:54-57 | the whole gives exactly 100 |
| Community.PctMonotone | app/title.tsx:54-57 | a larger part never gives a smaller percentage |
| Community.TopVerdict | app/title.tsx:59-69 | none exactly when there are no votes; otherwise the answer with the highest rounded percentage (ties go to yes, then no, then unsure), with that percentage and its label |
| Community.TopVerdictComparesRoundedPercents | app/title.tsx:62-66 | rounded percentages are compared, not counts: 333/334/333 of 1000 gives "Present" at 33% |
| Community.BallotCounted | app/title.tsx:192-196 | a record is counted exactly when it has a catalogue key and a recognised answer |
| Community.Tally | app/title.tsx:186-200 | fails exactly when some record has an unknown non-empty key and a recognised answer; otherwise every count equals the number of matching records and each total is the sum of its three counts |
| Community.TallySkips | app/title.tsx:195-196 | a record without a key or without a recognised answer changes nothing |
| Community.TallyFailsOnUnknownKey | app/title.tsx:198 | a recognised answer under a key outside the catalogue makes the whole count fail |
| Community.TallyOrderIndependent | app/title.tsx:188-200 | the result does not depend on the order of the records |
| Community.TallySumOfTotals | app/title.tsx:188-200 | the totals over the catalogue add up to the number of counted records |
| Community.RefreshCommunity | app/title.tsx:181-206 | the previous statistics stay without a title key, on a failed read, or when counting throws; otherwise they are the count of the records read |
| VoteStore.Upsert | app/title.tsx:228-243 | the store gains exactly the vote's id, which holds the new document; all other documents are unchanged; well-keyedness is kept |
| VoteStore.AtMostOneVote | app/title.tsx:228-243 | in a store only this upsert writes, one user has at most one document per title and trigger |
| VoteStore.UpsertKeepsOtherVotes | app/title.tsx:228-243 | a vote leaves other users' votes and the user's other votes alone |
| VoteStore.UpsertIdempotent | app/title.tsx:228-243 | saving the same vote twice is the same as saving it once |
| VoteStore.UpsertOverwrites | app/title.tsx:228-243 | a second save of a trigger replaces the first |
| VoteStore.QueryTally | app/title.tsx:185-200 | counting a title's documents, in whatever order the query returns them, never throws and gives the statistics those documents add up to |
| VoteStore.RevoteReplaces | app/title.tsx:228-246 | a first vote adds one to its answer and to the total; a re-vote moves the user's single vote from the old answer to the new one and leaves the total alone |
| VoteStore.UpsertTouchesOneCard | app/title.tsx:228-246 | a vote changes no other trigger's statistics and nothing of other titles |
| TitleScreen.InitialSelections | app/title.tsx:87-92 | every trigger starts with no selection |
| TitleScreen.RebuildSelections | app/title.tsx:160-169 | a trigger's selection is none exactly when no record has a catalogue key for it and a recognised answer; otherwise it is the answer of the last such record |
| TitleScreen.LoadUserVotes | app/title.tsx:144-178 | nothing happens without a user or a title key; a failed read leaves the reset selections; a successful one shows, for each trigger, exactly the selections rebuilt from the records, none exactly when no record answers it |
| TitleScreen.ReloadShowsStoredVotes | app/title.tsx:152-169 | reloading the user's votes in any order shows, for each trigger, the answer stored under the user's vote id, or nothing |
| TitleScreen.SaveThenReloadAgrees | app/title.tsx:225-243 | after a save reaches the store, a reload shows the same selection the screen showed optimistically |
| TitleScreen.ToggleExpanded | app/title.tsx:111-118 | the tapped card flips between open and closed; no other card changes |
| TitleScreen.ToggleTwice | app/title.tsx:111-118 | tapping a card twice restores the accordion |
| TitleScreen.ExpandAll | app/title.tsx:120 | every card is open |
| TitleScreen.CollapseAll | app/title.tsx:121 | no card is open |
| TitleScreen.ToggleFromCollapsedOrExpanded | app/title.tsx:111-121 | from all closed a tap opens just that card; from all open it closes just that card |
| TitleScreen.CurrentTitleKey | app/title.tsx:106-109 | there is a title key exactly when both the media type and the id are known, and it parses back to that media type and id |
| TitleScreen.RouteTitleKey | app/title.tsx:101-109 | a route yields a title key exactly when its `type` parameter is "movie" or "tv" and its id is known; the key is that title's key |
| TitleScreen.EveryListingTallies | app/title.tsx:185-200 | every ordering of a title's documents that the query may return counts to the same statistics, those the documents add up to |
| TitleScreen.SaveVote | app/title.tsx:213-252 | no user or no title info means no change and the matching alert; otherwise only the trigger's selection changes, to the new answer (with no rollback on failure); a failed write changes nothing else and alerts; a successful write upserts the user's one document, holding the uid, the title key, the route's id and media type, the trigger and the answer; a successful read sets statistics that any ordering of the title's documents counts to |
| TitleScreen.StoreFreshVote | app/title.tsx:228-243 | a user's first vote on a card bumps that card's count for the answer and its total |
| VoteStore.StoredVoteCounted | app/title.tsx:185-200 | a stored vote shows on its title's card: its answer's count and the total are at least one |
| TitleScreen.StoreFirstVote | app/title.tsx:228-243 | on a card nobody has voted on, a first vote adds a new id holding the answer and gives the card one vote for that answer |
| TitleScreen.TwoFreshVotes | app/title.tsx:228-243 | first votes by two different users on one card bump it once for each answer |
| TitleScreen.RevoteScenario | app/title.tsx:213-246 | from any screen and any store in which nobody has voted on the card, one user's two answers leave one vote, the second answer, with every other count zero, at 100%, and the second answer selected |
| TitleScreen.ThreeVotersScenario | app/title.tsx:213-246 | from any screen and any store in which nobody has voted on the card, three different users voting yes, yes, no give counts 2/1/0 of 3 and "Present" at 67% |

## Left out

- Rendering: JSX, `COLORS` and the button styles are presentation only.
- The `getDetails` call and `TmdbDetails`: `getDetails` is imported by the screen and only loads title details for display.
- `useAuth`, `db` and the Firebase configuration are outside the model. The user is an optional uid.
- `savingKey`, `loading` and the async sequencing of effects are not modelled. Only the final state of each handler is.
- Alert texts and `console.log` are not modelled. Alerts become a `Notice` value.
- `serverTimestamp`, `updatedAt` and `createdAt` are not modelled. The merge write overwrites all modelled fields.
- The Firestore queries are abstracted. The community query is any duplicate-free ordering of the title's documents. The user-votes query is any sequence listing every one of the user's documents for the title, each at least once, in any order. The store holds only documents this app writes, so their fields are typed.
- Records read by the tally are modelled with string-or-missing fields. A non-string `triggerKey` (a number, say) is not modelled.
- `Number(id)` parsing is not modelled: hexadecimal, whitespace, and fractional values such as "4.5". The route carries an optional integer id, present when the source's finiteness guard passes.
- VoteIds.IntDecimal: prints every integer as its exact plain decimal. JavaScript's `${n}` does the same only below 2^53 in magnitude. From 2^53 it prints the shortest digits that round-trip, padded with zeros: `${2**64}` is "18446744073709552000", not 18446744073709551616. From 10^21 it uses exponent form.
- VoteIds.TitleKey: uses that exact decimal, so for ids of magnitude 2^53 or more its digits can differ from the app's key.
- VoteIds.VoteDocId: embeds the title key, so it can differ from the app's id in the same cases.
- The request URL and `encodeURIComponent` are not modelled. The request is represented by the trimmed query.
- JSON parsing failures and a non-array `results` field are not modelled.
- A trigger key equal to an inherited property name such as "constructor" is not modelled. In JavaScript it does not throw in the counting loop, but the model treats every key outside the catalogue as throwing.
- Extra properties the selection rebuild adds for keys outside the catalogue are not modelled. The screen only reads catalogue keys, so selections are a map over `TriggerKey`.
- Community.Pct: computes exact round-half-up of 100·part/total. JavaScript evaluates `Math.round((part / total) * 100)` in floating point, which can land just below a .5 boundary. For example, 57/200·100 evaluates to 28.499…, which JavaScript rounds to 28 while the model gives 29.
