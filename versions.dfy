/**
 * The two versions side by side: the current one matches caseless
 * patterns, the legacy one exact texts.
 */
module Versions {
  import opened Php
  import Dist = DistXssUrl
  import Legacy = LegacyXssUrl

  /** Why no text of a legacy group occurs in `%3c`: its first character is absent, or it differs from `%3c`. */
  lemma GroupMisses(group: seq<string>, s: string)
    requires forall w :: w in group ==> w != "" && (w[0] !in s || |w| > |s| || (|w| == |s| && w != s))
    ensures forall w :: w in group ==> StrPos(s, w).None?
  {
    forall w | w in group
      ensures StrPos(s, w).None?
    {
      if w[0] !in s {
        StrPosLeadAbsent(s, w);
      } else if |w| == |s| {
        StrPosSameLength(s, w);
      }
    }
  }

  // One lemma per legacy group, each taking `%3c` as a parameter fixed by its
  // `requires`: checking all four groups in one proof costs the verifier
  // far more than the four proofs together.

  lemma LeftMisses(s: string)
    requires s == "%3c"
    ensures forall w :: w in Legacy.Left ==> StrPos(s, w).None?
  {
    GroupMisses(Legacy.Left, s);
  }

  lemma RightMisses(s: string)
    requires s == "%3c"
    ensures forall w :: w in Legacy.Right ==> StrPos(s, w).None?
  {
    GroupMisses(Legacy.Right, s);
  }

  lemma QuoteMisses(s: string)
    requires s == "%3c"
    ensures forall w :: w in Legacy.Quote ==> StrPos(s, w).None?
  {
    GroupMisses(Legacy.Quote, s);
  }

  lemma DblQuoteMisses(s: string)
    requires s == "%3c"
    ensures forall w :: w in Legacy.DblQuote ==> StrPos(s, w).None?
  {
    GroupMisses(Legacy.DblQuote, s);
  }

  /** No legacy text occurs in a lower-case percent-encoded `<`. */
  lemma LegacyMissesLowerCase(s: string)
    requires s == "%3c"
    ensures !Legacy.Flagged(Legacy.LegacyList, s)
  {
    LeftMisses(s);
    RightMisses(s);
    QuoteMisses(s);
    DblQuoteMisses(s);
    LegacyMisses(s);
  }

  /** A string in which no text of any legacy group occurs is not flagged by the legacy list. */
  lemma LegacyMisses(s: string)
    requires forall w :: w in Legacy.Left ==> StrPos(s, w).None?
    requires forall w :: w in Legacy.Right ==> StrPos(s, w).None?
    requires forall w :: w in Legacy.Quote ==> StrPos(s, w).None?
    requires forall w :: w in Legacy.DblQuote ==> StrPos(s, w).None?
    ensures !Legacy.Flagged(Legacy.LegacyList, s)
  {
    forall k | 0 <= k < |Legacy.LegacyList|
      ensures StrPos(s, Legacy.LegacyList[k]).None?
    {
      assert Legacy.LegacyList[k] in Legacy.LegacyList;
    }
  }

  /** strpos is case-sensitive, so only the current version flags `%3c`. */
  lemma LowerCaseEncoding()
    ensures Dist.Flagged(Dist.Defaults, "%3c") && !Legacy.Flagged(Legacy.LegacyList, "%3c")
  {
    Dist.EncodedLessThanFlagged("%3c", 0, 0);
    LegacyMissesLowerCase("%3c");
  }
}
