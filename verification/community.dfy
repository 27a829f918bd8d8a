/** Community statistics on the title screen: per-trigger vote counts
    tallied from the stored vote records of one title, the rounded
    percentage helper, and the majority verdict shown on each card. */
module Community {
  import opened Wrappers
  import opened Triggers

  datatype VoteValue = Yes | No | Unsure

  function ValueName(v: VoteValue): string
  {
    match v
    case Yes => "yes"
    case No => "no"
    case Unsure => "unsure"
  }

  /** `v === "yes" || v === "no" || v === "unsure"` on a stored field. */
  function ParseValue(v: Option<string>): (r: Option<VoteValue>)
    ensures r.Some? ==> v == Some(ValueName(r.value))
    ensures r.None? ==> forall x :: v != Some(ValueName(x))
  {
    if v == Some("yes") then Some(Yes)
    else if v == Some("no") then Some(No)
    else if v == Some("unsure") then Some(Unsure)
    else None
  }

  /** `labelForValue(v)`. */
  function LabelForValue(v: VoteValue): (r: string)
    ensures r != ""
    ensures r == "Present" <==> v == Yes
    ensures r == "Not present" <==> v == No
    ensures r == "Unsure" <==> v == Unsure
  {
    match v
    case Yes => "Present"
    case No => "Not present"
    case Unsure => "Unsure"
  }

  /** Each answer has its own, non-empty label. */
  lemma LabelForValueInjective(v: VoteValue, w: VoteValue)
    ensures LabelForValue(v) != ""
    ensures LabelForValue(v) == LabelForValue(w) ==> v == w
  {
  }

  datatype Stat = Stat(yes: nat, no: nat, unsure: nat, total: nat)

  const ZeroStat := Stat(0, 0, 0, 0)

  function CountOf(s: Stat, v: VoteValue): nat
  {
    match v
    case Yes => s.yes
    case No => s.no
    case Unsure => s.unsure
  }

  /** `stats[k][v] += 1; stats[k].total += 1`, on one stat. */
  function Bump(s: Stat, v: VoteValue): (r: Stat)
    ensures CountOf(r, v) == CountOf(s, v) + 1 && r.total == s.total + 1
    ensures forall w :: w != v ==> CountOf(r, w) == CountOf(s, w)
  {
    match v
    case Yes => s.(yes := s.yes + 1, total := s.total + 1)
    case No => s.(no := s.no + 1, total := s.total + 1)
    case Unsure => s.(unsure := s.unsure + 1, total := s.total + 1)
  }

  /** `Record<TriggerKey, CommunityStat>`. */
  type Stats = map<TriggerKey, Stat>

  predicate IsTotal(c: Stats)
  {
    forall k :: k in c
  }

  /** `emptyCommunity()`: a zero stat for every catalogue key. */
  function EmptyCommunity(): (r: Stats)
    ensures forall k :: k in r && r[k] == ZeroStat
  {
    map k | k in ListedKeys() :: ZeroStat
  }

  // ---------------------------------------------------------------------
  // Percentages and the verdict

  /** `pct(part, total)`: 0 for an empty total, otherwise 100 * part / total
      rounded to the nearest integer, halves upwards. */
  function Pct(part: nat, total: nat): (r: nat)
    ensures total == 0 ==> r == 0
    ensures total > 0 ==> 2 * total * r <= 200 * part + total < 2 * total * (r + 1)
  {
    if total == 0 then 0 else (200 * part + total) / (2 * total)
  }

  lemma MulMono(x: nat, a: nat, b: nat)
    ensures a <= b ==> x * a <= x * b
  {
    if a <= b {
      assert x * b == x * a + x * (b - a);
    }
  }

  /** A share of the total is a percentage. */
  lemma PctBounded(part: nat, total: nat)
    requires part <= total
    ensures Pct(part, total) <= 100
  {
    var r := Pct(part, total);
    MulMono(200, part, total);
    MulMono(2 * total, 101, r);
  }

  /** The whole is 100 percent. */
  lemma PctOfWhole(total: nat)
    requires total > 0
    ensures Pct(total, total) == 100
  {
    var r := Pct(total, total);
    MulMono(2 * total, r + 1, 100);
    MulMono(2 * total, 101, r);
  }

  /** More votes never show a smaller percentage. */
  lemma PctMonotone(a: nat, b: nat, total: nat)
    requires a <= b
    ensures Pct(a, total) <= Pct(b, total)
  {
    var ra, rb := Pct(a, total), Pct(b, total);
    MulMono(2 * total, rb + 1, ra);
  }

  datatype Verdict = Verdict(value: VoteValue, text: string, percent: nat)

  /** Preference among answers with the same percentage: yes, then no,
      then unsure. */
  function Rank(v: VoteValue): nat
  {
    match v
    case Yes => 0
    case No => 1
    case Unsure => 2
  }

  function PctOf(stat: Stat, v: VoteValue): nat
  {
    Pct(CountOf(stat, v), stat.total)
  }

  /** `topVerdict(stat)`: nothing for a stat without votes; otherwise the
      answer with the highest rounded percentage, the most preferred one
      among ties, with its label and percentage. */
  function TopVerdict(stat: Stat): (r: Option<Verdict>)
    ensures r.None? <==> stat.total == 0
    ensures r.Some? ==> r.value.percent == PctOf(stat, r.value.value)
    ensures r.Some? ==> forall v :: PctOf(stat, v) <= r.value.percent
    ensures r.Some? ==> forall v :: PctOf(stat, v) == r.value.percent ==> Rank(r.value.value) <= Rank(v)
    ensures r.Some? ==> r.value.text == LabelForValue(r.value.value)
  {
    if stat.total == 0 then None
    else
      var yesP, noP, unP := PctOf(stat, Yes), PctOf(stat, No), PctOf(stat, Unsure);
      if yesP >= noP && yesP >= unP then Some(Verdict(Yes, "Present", yesP))
      else if noP >= yesP && noP >= unP then Some(Verdict(No, "Not present", noP))
      else Some(Verdict(Unsure, "Unsure", unP))
  }

  /** The verdict compares rounded percentages, not counts: out of 1000
      votes, 333 yes and 334 no both show 33%, and yes wins the tie
      although no has more votes. */
  lemma TopVerdictComparesRoundedPercents()
    ensures TopVerdict(Stat(333, 334, 333, 1000)) == Some(Verdict(Yes, "Present", 33))
  {
    assert Pct(333, 1000) == 33;
    assert Pct(334, 1000) == 33;
  }

  // ---------------------------------------------------------------------
  // Tallying the stored records of one title

  /** The two fields the tally reads from a stored vote document; either
      may be absent. */
  datatype RawVote = RawVote(triggerKey: Option<string>, value: Option<string>)

  /** The record a well-formed vote for `k` with answer `v` reads as. */
  function Ballot(k: TriggerKey, v: VoteValue): RawVote
  {
    RawVote(Some(KeyName(k)), Some(ValueName(v)))
  }

  /** The trigger key is present and not empty (`!k` is false). */
  predicate HasKey(rec: RawVote)
  {
    rec.triggerKey.Some? && rec.triggerKey.value != ""
  }

  /** The record passes both early returns of the tally. */
  predicate Recognised(rec: RawVote)
  {
    HasKey(rec) && ParseValue(rec.value).Some?
  }

  /** The record passes both early returns but names no catalogue key, so
      `stats[k]` is undefined and the increment throws. */
  predicate Throws(rec: RawVote)
  {
    Recognised(rec) && ParseKey(rec.triggerKey.value).None?
  }

  /** The record is counted. */
  predicate Counted(rec: RawVote)
  {
    Recognised(rec) && ParseKey(rec.triggerKey.value).Some?
  }

  lemma ParseValueName(v: VoteValue)
    ensures ParseValue(Some(ValueName(v))) == Some(v)
  {
  }

  /** The counted records are exactly the well-formed ballots. */
  lemma BallotCounted(rec: RawVote)
    ensures Counted(rec) <==> exists k, v :: rec == Ballot(k, v)
    ensures Counted(rec) ==> rec == Ballot(ParseKey(rec.triggerKey.value).value, ParseValue(rec.value).value)
  {
    if Counted(rec) {
      var k, v := ParseKey(rec.triggerKey.value).value, ParseValue(rec.value).value;
      assert rec == Ballot(k, v);
    }
    if exists k, v :: rec == Ballot(k, v) {
      var k, v :| rec == Ballot(k, v);
      ParseKeyName(k);
      ParseValueName(v);
    }
  }

  /** One iteration of the `forEach` body. */
  function Step(stats: Stats, rec: RawVote): Option<Stats>
    requires IsTotal(stats)
  {
    if !HasKey(rec) then Some(stats)
    else match ParseValue(rec.value)
      case None => Some(stats)
      case Some(v) =>
        match ParseKey(rec.triggerKey.value)
        case None => None
        case Some(k) => Some(stats[k := Bump(stats[k], v)])
  }

  /** What the tally of some records promises about its statistics. */
  predicate TallyOf(stats: Stats, recs: seq<RawVote>)
  {
    && IsTotal(stats)
    && (forall k, v :: CountOf(stats[k], v) == multiset(recs)[Ballot(k, v)])
    && (forall k :: stats[k].total == stats[k].yes + stats[k].no + stats[k].unsure)
  }

  /** The counting loop of `refreshCommunity` over the records in the order
      the query returned them: `None` when some record throws, otherwise a
      stat for every catalogue key whose counts are the numbers of
      well-formed votes for that key and answer, and whose total is their
      sum. */
  function Tally(recs: seq<RawVote>): (r: Option<Stats>)
    ensures r.None? <==> exists i :: 0 <= i < |recs| && Throws(recs[i])
    ensures r.Some? ==> TallyOf(r.value, recs)
    decreases |recs|
  {
    if |recs| == 0 then Some(EmptyCommunity())
    else
      var init, last := recs[..|recs| - 1], recs[|recs| - 1];
      assert recs == init + [last];
      ThrowsSplit(init, last);
      match Tally(init)
      case None => None
      case Some(stats) =>
        StepTally(stats, init, last);
        Step(stats, last)
  }

  lemma ThrowsSplit(init: seq<RawVote>, last: RawVote)
    ensures (exists i :: 0 <= i < |init + [last]| && Throws((init + [last])[i])) <==>
      (exists i :: 0 <= i < |init| && Throws(init[i])) || Throws(last)
  {
    var recs := init + [last];
    if exists i :: 0 <= i < |recs| && Throws(recs[i]) {
      var i :| 0 <= i < |recs| && Throws(recs[i]);
      if i < |init| {
        assert init[i] == recs[i];
      }
    }
    if exists i :: 0 <= i < |init| && Throws(init[i]) {
      var i :| 0 <= i < |init| && Throws(init[i]);
      assert recs[i] == init[i];
    }
    assert recs[|init|] == last;
  }

  /** One step of the loop keeps the tally's promise. */
  lemma StepTally(stats: Stats, init: seq<RawVote>, last: RawVote)
    requires TallyOf(stats, init)
    ensures Step(stats, last).None? <==> Throws(last)
    ensures Step(stats, last).Some? ==> TallyOf(Step(stats, last).value, init + [last])
  {
    var m := multiset(init + [last]);
    assert m == multiset(init) + multiset{last};
    BallotCounted(last);
    if Counted(last) {
      var k, v := ParseKey(last.triggerKey.value).value, ParseValue(last.value).value;
      var r := Step(stats, last).value;
      assert r == stats[k := Bump(stats[k], v)];
      forall k', v' ensures CountOf(r[k'], v') == m[Ballot(k', v')] {
        if k' != k || v' != v {
          assert Ballot(k', v') != last by {
            if Ballot(k', v') == last {
              ParseKeyName(k');
              ParseValueName(v');
            }
          }
        }
      }
    } else if !Throws(last) {
      assert Step(stats, last) == Some(stats);
      forall k, v ensures Ballot(k, v) != last {
      }
    }
  }

  /** A record without a key, or with an answer other than the three, is
      skipped: the tally is as if it were not there. */
  lemma TallySkips(recs: seq<RawVote>, rec: RawVote)
    requires !Recognised(rec)
    ensures Tally(recs + [rec]) == Tally(recs)
  {
    assert (recs + [rec])[..|recs|] == recs;
  }

  /** A record with a recognised answer and an unknown key makes the whole
      tally fail, whatever comes before it. */
  lemma TallyFailsOnUnknownKey(recs: seq<RawVote>, rec: RawVote)
    requires Throws(rec)
    ensures Tally(recs + [rec]).None?
  {
    assert (recs + [rec])[|recs|] == rec;
  }

  /** The tally does not depend on the order the records arrive in. */
  lemma TallyOrderIndependent(a: seq<RawVote>, b: seq<RawVote>)
    requires multiset(a) == multiset(b)
    ensures Tally(a) == Tally(b)
  {
    var ta, tb := Tally(a), Tally(b);
    assert (exists i :: 0 <= i < |a| && Throws(a[i])) <==> (exists i :: 0 <= i < |b| && Throws(b[i])) by {
      forall i | 0 <= i < |a| && Throws(a[i])
        ensures exists j :: 0 <= j < |b| && Throws(b[j])
      {
        assert a[i] in multiset(b);
      }
      forall i | 0 <= i < |b| && Throws(b[i])
        ensures exists j :: 0 <= j < |a| && Throws(a[j])
      {
        assert b[i] in multiset(a);
      }
    }
    if ta.Some? {
      forall k ensures ta.value[k] == tb.value[k] {
        assert CountOf(ta.value[k], Yes) == CountOf(tb.value[k], Yes);
        assert CountOf(ta.value[k], No) == CountOf(tb.value[k], No);
        assert CountOf(ta.value[k], Unsure) == CountOf(tb.value[k], Unsure);
      }
      assert ta.value == tb.value;
    }
  }

  /** The keys of the catalogue, in order. */
  function CatalogueKeys(): (ks: seq<TriggerKey>)
    ensures |ks| == |TRIGGERS|
    ensures forall i :: 0 <= i < |ks| ==> ks[i] == TRIGGERS[i].key
  {
    seq(|TRIGGERS|, i requires 0 <= i < |TRIGGERS| => TRIGGERS[i].key)
  }

  /** Sum of the totals of the given keys. */
  function SumTotals(c: Stats, ks: seq<TriggerKey>): nat
    requires IsTotal(c)
  {
    if |ks| == 0 then 0 else c[ks[0]].total + SumTotals(c, ks[1..])
  }

  /** Number of records the tally counts. */
  function NumCounted(recs: seq<RawVote>): nat
  {
    if |recs| == 0 then 0
    else NumCounted(recs[..|recs| - 1]) + (if Counted(recs[|recs| - 1]) then 1 else 0)
  }

  lemma {:induction false} SumTotalsUpdate(c: Stats, k: TriggerKey, s: Stat, ks: seq<TriggerKey>)
    requires IsTotal(c)
    requires forall i, j :: 0 <= i < j < |ks| ==> ks[i] != ks[j]
    ensures k !in ks ==> SumTotals(c[k := s], ks) == SumTotals(c, ks)
    ensures k in ks ==> SumTotals(c[k := s], ks) + c[k].total == SumTotals(c, ks) + s.total
  {
    if |ks| > 0 {
      SumTotalsUpdate(c, k, s, ks[1..]);
      if ks[0] == k {
        assert k !in ks[1..];
      }
    }
  }

  /** Adding the totals of all catalogue keys gives the number of counted
      records. */
  lemma {:induction false} TallySumOfTotals(recs: seq<RawVote>)
    requires Tally(recs).Some?
    ensures SumTotals(Tally(recs).value, CatalogueKeys()) == NumCounted(recs)
    decreases |recs|
  {
    var ks := CatalogueKeys();
    TriggerKeysDistinct();
    if |recs| == 0 {
      ZeroSum(Tally(recs).value, ks);
    } else {
      var init, last := recs[..|recs| - 1], recs[|recs| - 1];
      TallySumOfTotals(init);
      var c0 := Tally(init).value;
      if Counted(last) {
        var k := ParseKey(last.triggerKey.value).value;
        var v := ParseValue(last.value).value;
        assert Tally(recs).value == c0[k := Bump(c0[k], v)];
        SumTotalsUpdate(c0, k, Bump(c0[k], v), ks);
        assert ks[IndexOf(k)] == k;
      } else {
        assert Tally(recs).value == c0;
      }
    }
  }

  lemma {:induction false} ZeroSum(c: Stats, ks: seq<TriggerKey>)
    requires IsTotal(c) && forall k :: c[k] == ZeroStat
    ensures SumTotals(c, ks) == 0
  {
    if |ks| > 0 {
      ZeroSum(c, ks[1..]);
    }
  }

  /** `refreshCommunity`: no title key, a failed read or a throwing record
      leave the shown statistics as they were; otherwise the tally replaces
      them. */
  function RefreshCommunity(prev: Stats, titleKey: Option<string>, snapshot: Option<seq<RawVote>>): (r: Stats)
    ensures titleKey.None? || snapshot.None? ==> r == prev
    ensures titleKey.Some? && snapshot.Some? && (exists i :: 0 <= i < |snapshot.value| && Throws(snapshot.value[i])) ==> r == prev
    ensures titleKey.Some? && snapshot.Some? && !(exists i :: 0 <= i < |snapshot.value| && Throws(snapshot.value[i])) ==>
      TallyOf(r, snapshot.value)
  {
    if titleKey.None? || snapshot.None? then prev
    else match Tally(snapshot.value)
      case None => prev
      case Some(stats) => stats
  }
}
