/** The identity scheme: the string that names a title and the document id
    of one user's vote on one trigger of one title. Both are plain
    concatenations with `_`; the lemmas below show why that is still
    collision-free for the inputs the app passes. */
module VoteIds {
  import opened Wrappers
  import opened Triggers
  import opened Tmdb

  // ---------------------------------------------------------------------
  // Integers as JavaScript prints them in a template literal

  predicate IsDigit(c: char)
  {
    '0' <= c <= '9'
  }

  function DigitChar(d: nat): (c: char)
    requires d < 10
    ensures IsDigit(c) && c as int - '0' as int == d
  {
    ('0' as int + d) as char
  }

  /** The canonical spelling of a natural number: one or more digits, with
      no leading zero unless the number is 0 itself. */
  predicate CanonicalNat(s: string)
  {
    && |s| >= 1
    && (forall i :: 0 <= i < |s| ==> IsDigit(s[i]))
    && (s[0] == '0' ==> |s| == 1)
  }

  /** The canonical spelling of an integer: a canonical natural, or a minus
      sign before a canonical natural other than "0". */
  predicate CanonicalInt(s: string)
  {
    || CanonicalNat(s)
    || (|s| >= 2 && s[0] == '-' && CanonicalNat(s[1..]) && s[1] != '0')
  }

  /** Decimal digits of n, most significant first, without leading zeros. */
  function NatDecimal(n: nat): (r: string)
    ensures CanonicalNat(r)
    ensures r[0] == '0' ==> n == 0
    decreases n
  {
    if n < 10 then [DigitChar(n)] else NatDecimal(n / 10) + [DigitChar(n % 10)]
  }

  /** `${n}` for an integer n of magnitude below 2^53, where JavaScript
      prints the exact value: its decimal digits, after a minus sign when
      negative. Larger magnitudes are printed exactly here as well. */
  function IntDecimal(n: int): (r: string)
    ensures Sep !in r
    ensures CanonicalInt(r)
    ensures r[0] == '-' <==> n < 0
  {
    if n < 0 then "-" + NatDecimal(-n) else NatDecimal(n)
  }

  /** Reads a string of digits back. */
  function ParseNat(s: string): nat
  {
    if |s| == 0 then 0
    else
      var c := s[|s| - 1];
      10 * ParseNat(s[..|s| - 1]) + (if IsDigit(c) then c as int - '0' as int else 0)
  }

  function ParseInt(s: string): int
  {
    if |s| > 0 && s[0] == '-' then -(ParseNat(s[1..]) as int) else ParseNat(s)
  }

  lemma {:induction false} ParseNatDecimal(n: nat)
    ensures ParseNat(NatDecimal(n)) == n
    decreases n
  {
    if n >= 10 {
      var s := NatDecimal(n);
      assert s[..|s| - 1] == NatDecimal(n / 10);
      ParseNatDecimal(n / 10);
    }
  }

  /** Reading the printed integer gives the integer back. */
  lemma ParseIntDecimal(n: int)
    ensures ParseInt(IntDecimal(n)) == n
  {
    if n < 0 {
      ParseNatDecimal(-n);
      assert IntDecimal(n)[1..] == NatDecimal(-n);
    } else {
      ParseNatDecimal(n);
      assert IsDigit(NatDecimal(n)[0]);
    }
  }

  /** A canonical spelling is the printed form of the number it reads as:
      the printer writes the one canonical spelling of each number. */
  lemma {:induction false} CanonicalNatIsPrinted(s: string)
    requires CanonicalNat(s)
    ensures NatDecimal(ParseNat(s)) == s
    decreases |s|
  {
    var p, c := s[..|s| - 1], s[|s| - 1];
    var d := c as int - '0' as int;
    assert ParseNat(s) == 10 * ParseNat(p) + d;
    if |s| == 1 {
      assert p == [];
      assert NatDecimal(d) == [DigitChar(d)];
      assert s == [c];
    } else {
      assert CanonicalNat(p) by {
        assert p[0] == s[0];
        assert forall i :: 0 <= i < |p| ==> p[i] == s[i];
      }
      CanonicalNatIsPrinted(p);
      var q := ParseNat(p);
      assert ParseNat(s) / 10 == q && ParseNat(s) % 10 == d;
      assert NatDecimal(ParseNat(s)) == NatDecimal(q) + [DigitChar(d)];
      assert s == p + [c];
    }
  }

  /** The integer version: every canonical spelling is `IntDecimal` of the
      integer it reads as, so no other spelling (leading zeros, "-0") is
      ever printed. */
  lemma CanonicalIntIsPrinted(s: string)
    requires CanonicalInt(s)
    ensures IntDecimal(ParseInt(s)) == s
  {
    if CanonicalNat(s) {
      assert IsDigit(s[0]);
      CanonicalNatIsPrinted(s);
    } else {
      var t := s[1..];
      CanonicalNatIsPrinted(t);
      assert s == "-" + t;
    }
  }

  lemma IntDecimalInjective(a: int, b: int)
    requires IntDecimal(a) == IntDecimal(b)
    ensures a == b
  {
    ParseIntDecimal(a);
    ParseIntDecimal(b);
  }

  // ---------------------------------------------------------------------
  // The two keys

  /** `${a}_${b}`. */
  function Join(a: string, b: string): string
  {
    a + [Sep] + b
  }

  /** `titleKey(mediaType, tmdbId)`: `${mediaType}_${tmdbId}`, which
      reads back as the media type and the id. */
  function TitleKey(m: MediaType, tmdbId: int): (r: string)
    ensures ParseTitleKey(r) == Some((m, tmdbId))
  {
    ParseJoinedTitle(m, tmdbId);
    Join(MediaName(m), IntDecimal(tmdbId))
  }

  /** The title key is the media name and `_` followed by the canonical
      spelling of the id, which is what `${tmdbId}` prints (no leading
      zeros, a minus sign exactly for negative ids). */
  lemma TitleKeyCanonical(m: MediaType, tmdbId: int)
    ensures var r := TitleKey(m, tmdbId);
      && |r| > |MediaName(m)| && r[..|MediaName(m)| + 1] == MediaName(m) + [Sep]
      && CanonicalInt(r[|MediaName(m)| + 1..])
      && ParseInt(r[|MediaName(m)| + 1..]) == tmdbId
      && (r[|MediaName(m)| + 1] == '-' <==> tmdbId < 0)
  {
    JoinParts(MediaName(m), IntDecimal(tmdbId));
    ParseIntDecimal(tmdbId);
  }

  /** `voteDocId(mediaType, tmdbId, triggerKey, uid)`:
      `${mediaType}_${tmdbId}_${triggerKey}_${uid}`, that is the title key
      stored in the same document, the separator, the trigger's wire name,
      the separator and the uid. */
  function VoteDocId(m: MediaType, tmdbId: int, k: TriggerKey, uid: string): (r: string)
    ensures r == TitleKey(m, tmdbId) + [Sep] + KeyName(k) + [Sep] + uid
    ensures TitleKey(m, tmdbId) + [Sep] <= r
  {
    NestedJoin(MediaName(m), IntDecimal(tmdbId), KeyName(k), uid);
    Join(MediaName(m), Join(IntDecimal(tmdbId), Join(KeyName(k), uid)))
  }

  /** Position of the first separator in s, or |s| when there is none. */
  function FirstSep(s: string): (i: nat)
    ensures i <= |s|
    ensures forall j :: 0 <= j < i ==> s[j] != Sep
    ensures i < |s| ==> s[i] == Sep
  {
    if |s| == 0 || s[0] == Sep then 0 else 1 + FirstSep(s[1..])
  }

  /** Reads a title key back: the media type before the first separator
      and the integer after it. */
  function ParseTitleKey(s: string): Option<(MediaType, int)>
  {
    var i := FirstSep(s);
    if i == |s| then None
    else match ParseMediaType(Some(s[..i]))
      case None => None
      case Some(m) => Some((m, ParseInt(s[i + 1..])))
  }

  /** A media name and a printed integer joined by the separator read
      back as both. */
  lemma ParseJoinedTitle(m: MediaType, tmdbId: int)
    ensures ParseTitleKey(Join(MediaName(m), IntDecimal(tmdbId))) == Some((m, tmdbId))
  {
    var a, b := MediaName(m), IntDecimal(tmdbId);
    var s := Join(a, b);
    JoinedAt(a, b);
    assert Sep !in a;
    assert FirstSep(s) == |a|;
    assert s[..|a|] == a;
    assert s[|a| + 1..] == b;
    ParseIntDecimal(tmdbId);
  }

  lemma NestedJoin(a: string, b: string, c: string, u: string)
    ensures Join(a, Join(b, Join(c, u))) == Join(a, b) + [Sep] + c + [Sep] + u
  {
    assert a + [Sep] + (b + [Sep] + (c + [Sep] + u)) == (a + [Sep] + b) + [Sep] + c + [Sep] + u;
  }

  /** Where the separator and the left part sit in a joined string. */
  lemma JoinParts(x: string, y: string)
    ensures (x + [Sep] + y)[..|x| + 1] == x + [Sep]
    ensures (x + [Sep] + y)[|x| + 1..] == y
  {
  }

  lemma JoinedAt(x: string, y: string)
    ensures (x + [Sep] + y)[|x|] == Sep
    ensures forall i :: 0 <= i < |x| ==> (x + [Sep] + y)[i] == x[i]
  {
  }

  /** Two strings joined by the separator split back uniquely when the
      first part has no separator of its own. */
  lemma SplitAtFirstSep(a: string, b: string, c: string, d: string)
    requires Sep !in a && Sep !in c
    requires a + [Sep] + b == c + [Sep] + d
    ensures a == c && b == d
  {
    JoinedAt(a, b);
    JoinedAt(c, d);
    if |a| != |c| {
      assert false;
    }
    var s := a + [Sep] + b;
    assert a == s[..|a|] == c;
    assert b == s[|a| + 1..] == d;
  }

  lemma MediaNameInjective(m1: MediaType, m2: MediaType)
    requires MediaName(m1) == MediaName(m2)
    ensures m1 == m2
  {
  }

  /** Distinct titles have distinct title keys. */
  lemma TitleKeyInjective(m1: MediaType, id1: int, m2: MediaType, id2: int)
    requires TitleKey(m1, id1) == TitleKey(m2, id2)
    ensures m1 == m2 && id1 == id2
  {
    SplitAtFirstSep(MediaName(m1), IntDecimal(id1), MediaName(m2), IntDecimal(id2));
    MediaNameInjective(m1, m2);
    IntDecimalInjective(id1, id2);
  }

  /** Distinct (media type, id, trigger, user) tuples have distinct vote
      document ids, whatever characters the user id holds. */
  lemma VoteDocIdInjective(m1: MediaType, id1: int, k1: TriggerKey, u1: string,
                           m2: MediaType, id2: int, k2: TriggerKey, u2: string)
    requires VoteDocId(m1, id1, k1, u1) == VoteDocId(m2, id2, k2, u2)
    ensures m1 == m2 && id1 == id2 && k1 == k2 && u1 == u2
  {
    var rest1, rest2 := Join(KeyName(k1), u1), Join(KeyName(k2), u2);
    SplitAtFirstSep(MediaName(m1), Join(IntDecimal(id1), rest1), MediaName(m2), Join(IntDecimal(id2), rest2));
    MediaNameInjective(m1, m2);
    SplitAtFirstSep(IntDecimal(id1), rest1, IntDecimal(id2), rest2);
    IntDecimalInjective(id1, id2);
    KeyThenSuffixInjective(k1, u1, k2, u2);
  }

  /** For one title and one trigger, two users share a vote id exactly
      when they are the same user. */
  lemma SameVoteIdSameUser(m: MediaType, tmdbId: int, k: TriggerKey, u1: string, u2: string)
    ensures VoteDocId(m, tmdbId, k, u1) == VoteDocId(m, tmdbId, k, u2) <==> u1 == u2
  {
    if VoteDocId(m, tmdbId, k, u1) == VoteDocId(m, tmdbId, k, u2) {
      VoteDocIdInjective(m, tmdbId, k, u1, m, tmdbId, k, u2);
    }
  }
}
