/**
 * The legacy XssUrl class: a string is checked against four groups of
 * literal texts by plain, case-sensitive substring search (strpos).
 */
module LegacyXssUrl {
  import opened Wrappers
  import opened Php

  // The four groups, in the order the constructor merges them.

  /** `<`: raw, entity, percent-encoded, encoded `%`, double-encoded and decimal reference. */
  const Left: seq<string> := ["<", "&lt;", "%3C", "%25", "%253C", "&#060"]
  const Right: seq<string> := [">", "&gt;", "%3E", "%25", "%253E", "&#062"]
  const Quote: seq<string> := ["'", "&apos;", "%27", "&#39", "&#039"]
  const DblQuote: seq<string> := ["\"", "&quot;", "%22", "&#34;", "&#034;"]

  /** The list the constructor builds: array_merge of the four groups. */
  const LegacyList: seq<string> := Left + Right + Quote + DblQuote

  /** The characters the groups are about, each written raw as the first text of its group. */
  const RawChars: string := "<>'\""

  /** Every character that a text of the legacy list starts with. */
  const LeadChars: string := "<>'\"&%"

  /**
   * What _detect computes: the string is a true value in PHP's sense and
   * strpos finds some text of the list in it.
   */
  predicate Flagged(list: seq<string>, s: string) {
    Truthy(s) && exists k :: 0 <= k < |list| && StrPos(s, list[k]).Some?
  }

  class XssUrl {
    var source: string
    var list: seq<string>
    var xss: bool

    /** The constructor merges the groups, then sets the string as setUrl does. */
    constructor(s: string)
      ensures list == LegacyList && source == s && xss == Flagged(LegacyList, s)
    {
      list := LegacyList;
      source := "";
      xss := false;
      new;
      SetUrl(s);
    }

    /** _detect: recompute the flag from the current string and list. */
    method Detect()
      modifies this`xss
      ensures xss == Flagged(list, source)
    {
      xss := false;
      if !Truthy(source) {
        return;
      }
      var items, subject := list, source;
      for i := 0 to |items|
        invariant xss <==> exists k :: 0 <= k < i && StrPos(subject, items[k]).Some?
      {
        if StrPos(subject, items[i]).Some? {
          xss := true;
        }
      }
    }

    /** setUrl: store the string and run detection on it. */
    method SetUrl(s: string)
      modifies this`source, this`xss
      ensures source == s && xss == Flagged(list, s)
    {
      source := s;
      Detect();
    }

    function GetOriginal(): (s: string)
      reads this
      ensures s == source
    {
      source
    }

    function IsXss(): (b: bool)
      reads this
      ensures b == xss
    {
      xss
    }
  }

  // ---------------------------------------------------------------------
  // Properties of detection.
  // ---------------------------------------------------------------------

  /** Detection by the reference semantics: some text of the list is a substring of the string. */
  lemma FlaggedIff(list: seq<string>, s: string)
    ensures Flagged(list, s) <==> Truthy(s) && exists k :: 0 <= k < |list| && IsSubstring(list[k], s)
  {
  }

  /** A false string ('' or '0') is never flagged, whatever the list. */
  lemma FalsyNeverFlagged(list: seq<string>, s: string)
    requires !Truthy(s)
    ensures !Flagged(list, s)
  {
  }

  /** Containing a flagged string keeps a string flagged. */
  lemma FlaggedMonotone(list: seq<string>, s: string, a: string, b: string)
    requires Flagged(list, s)
    ensures Flagged(list, a + s + b)
  {
    var k :| 0 <= k < |list| && StrPos(s, list[k]).Some?;
    var i := StrPos(s, list[k]).value;
    var w := list[k];
    assert (a + s + b)[|a| + i..|a| + i + |w|] == s[i..i + |w|];
    assert OccursAt(a + s + b, w, |a| + i);
    TruthyWithin(s, a, b);
  }

  lemma LeftLeads() ensures forall w :: w in Left ==> w != "" && w[0] in LeadChars {}
  lemma RightLeads() ensures forall w :: w in Right ==> w != "" && w[0] in LeadChars {}
  lemma QuoteLeads() ensures forall w :: w in Quote ==> w != "" && w[0] in LeadChars {}
  lemma DblQuoteLeads() ensures forall w :: w in DblQuote ==> w != "" && w[0] in LeadChars {}

  /** A string with none of the characters the legacy texts start with is never flagged. */
  lemma BenignNotFlagged(s: string)
    requires forall i :: 0 <= i < |s| ==> s[i] !in LeadChars
    ensures !Flagged(LegacyList, s)
  {
    LeftLeads();
    RightLeads();
    QuoteLeads();
    DblQuoteLeads();
    forall k | 0 <= k < |LegacyList|
      ensures StrPos(s, LegacyList[k]).None?
    {
      var w := LegacyList[k];
      assert w in LegacyList;
    }
  }

  /** A string holding a raw character of any group is flagged. */
  lemma RawCharFlagged(s: string, c: char)
    requires c in RawChars && c in s
    ensures Flagged(LegacyList, s)
  {
    var k := if c == '<' then 0 else if c == '>' then 6 else if c == '\'' then 12 else 17;
    assert LegacyList[k] == [c];
    var i :| 0 <= i < |s| && s[i] == c;
    assert OccursAt(s, [c], i);
    assert s != "0";
  }
}
