/** The trigger catalogue: the closed set of content-warning categories a
    title can be voted on, and the ordered list the screens iterate over. */
module Triggers {
  import opened Wrappers

  /** The string-literal union type of trigger identifiers. */
  datatype TriggerKey =
    | Violence
    | SexualViolence
    | SelfHarm
    | Suicide
    | SubstanceAbuse
    | War
    | FlashingLights
    | AnimalHarm

  /** The string each identifier is at run time (and inside document ids). */
  function KeyName(k: TriggerKey): string
  {
    match k
    case Violence => "violence"
    case SexualViolence => "sexual_violence"
    case SelfHarm => "self_harm"
    case Suicide => "suicide"
    case SubstanceAbuse => "substance_abuse"
    case War => "war"
    case FlashingLights => "flashing_lights"
    case AnimalHarm => "animal_harm"
  }

  datatype Trigger = Trigger(key: TriggerKey, text: string)

  /** The catalogue in display order. */
  const TRIGGERS: seq<Trigger> := [
    Trigger(Violence, "Violence"),
    Trigger(SexualViolence, "Sexual violence"),
    Trigger(SelfHarm, "Self-harm"),
    Trigger(Suicide, "Suicide"),
    Trigger(SubstanceAbuse, "Substance abuse"),
    Trigger(War, "War / combat"),
    Trigger(FlashingLights, "Flashing lights"),
    Trigger(AnimalHarm, "Animal harm")
  ]

  /** The separator used by the document-id scheme. */
  const Sep: char := '_'

  /** The set `TRIGGERS.map(t => t.key)` denotes; every record keyed by the
      catalogue has exactly these keys, and that is every identifier. */
  function ListedKeys(): (r: set<TriggerKey>)
    ensures forall k :: k in r
  {
    var r := set i | 0 <= i < |TRIGGERS| :: TRIGGERS[i].key;
    assert forall k :: k in r by {
      forall k ensures k in r {
        var i := IndexOf(k);
        assert TRIGGERS[i].key in r;
      }
    }
    r
  }

  /** Position of an identifier in the catalogue. */
  function IndexOf(k: TriggerKey): (i: nat)
    ensures i < |TRIGGERS| && TRIGGERS[i].key == k
  {
    match k
    case Violence => 0
    case SexualViolence => 1
    case SelfHarm => 2
    case Suicide => 3
    case SubstanceAbuse => 4
    case War => 5
    case FlashingLights => 6
    case AnimalHarm => 7
  }

  /** Reading a stored string back as an identifier: `Some` exactly for the
      eight names above (indexing a catalogue-keyed record with any other
      string finds nothing). */
  function ParseKey(s: string): (r: Option<TriggerKey>)
    ensures r.Some? ==> KeyName(r.value) == s
    ensures r.None? ==> forall k :: KeyName(k) != s
  {
    if s == "violence" then Some(Violence)
    else if s == "sexual_violence" then Some(SexualViolence)
    else if s == "self_harm" then Some(SelfHarm)
    else if s == "suicide" then Some(Suicide)
    else if s == "substance_abuse" then Some(SubstanceAbuse)
    else if s == "war" then Some(War)
    else if s == "flashing_lights" then Some(FlashingLights)
    else if s == "animal_harm" then Some(AnimalHarm)
    else None
  }

  lemma ParseKeyName(k: TriggerKey)
    ensures ParseKey(KeyName(k)) == Some(k)
    ensures KeyName(k) != ""
  {
  }

  lemma KeyNameInjective(k1: TriggerKey, k2: TriggerKey)
    requires KeyName(k1) == KeyName(k2)
    ensures k1 == k2
  {
    ParseKeyName(k1);
    ParseKeyName(k2);
  }

  lemma TriggerCount()
    ensures |TRIGGERS| == 8
  {
  }

  /** No identifier occurs twice in the list. */
  lemma TriggerKeysDistinct()
    ensures forall i, j :: 0 <= i < j < |TRIGGERS| ==> TRIGGERS[i].key != TRIGGERS[j].key
  {
  }

  /** Every identifier of the union type occurs in the list. */
  lemma EveryKeyListed(k: TriggerKey)
    ensures exists i :: 0 <= i < |TRIGGERS| && TRIGGERS[i].key == k
  {
    var i := IndexOf(k);
  }

  lemma LabelsNonEmpty()
    ensures forall i :: 0 <= i < |TRIGGERS| ==> |TRIGGERS[i].text| > 0
  {
  }

  /** What `a + [Sep] <= b` says about individual characters of b. */
  lemma SepPrefixChars(a: string, b: string)
    ensures a + [Sep] <= b ==>
      |a| < |b| && b[|a|] == Sep && (|a| >= 2 ==> b[0] == a[0] && b[1] == a[1])
  {
    if a + [Sep] <= b {
      assert (a + [Sep])[|a|] == Sep;
      if |a| >= 2 {
        assert (a + [Sep])[0] == a[0] && (a + [Sep])[1] == a[1];
      }
    }
  }

  /** No identifier followed by the separator is a prefix of another
      identifier ("violence_" is not a prefix of "sexual_violence", nor
      "self_harm_" of "substance_abuse"). */
  lemma NoKeySepPrefix(k1: TriggerKey, k2: TriggerKey)
    ensures !(KeyName(k1) + [Sep] <= KeyName(k2))
  {
    SepPrefixChars(KeyName(k1), KeyName(k2));
  }

  /** What the previous lemma buys: a key followed by the separator and an
      arbitrary suffix (a user id, which may itself contain separators)
      determines both the key and the suffix. */
  lemma KeyThenSuffixInjective(k1: TriggerKey, u1: string, k2: TriggerKey, u2: string)
    requires KeyName(k1) + [Sep] + u1 == KeyName(k2) + [Sep] + u2
    ensures k1 == k2 && u1 == u2
  {
    var s := KeyName(k1) + [Sep] + u1;
    var a, b := KeyName(k1), KeyName(k2);
    if |a| < |b| {
      assert a + [Sep] == s[..|a| + 1] == b[..|a| + 1];
      NoKeySepPrefix(k1, k2);
      assert false;
    } else if |b| < |a| {
      assert b + [Sep] == s[..|b| + 1] == a[..|b| + 1];
      NoKeySepPrefix(k2, k1);
      assert false;
    }
    assert a == s[..|a|] == b;
    KeyNameInjective(k1, k2);
    assert u1 == s[|a| + 1..] == u2;
  }
}
