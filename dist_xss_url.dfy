/**
 * The current XssUrl class: a URL is checked against a list of caseless
 * PCRE patterns (preg_match with the `i` modifier), and can be filtered by
 * removing every match of every pattern in list order (preg_replace).
 * The list starts as the seven groups below, one group per dangerous
 * character, and can be extended with include and shrunk with exclude.
 */
module DistXssUrl {
  import opened Php
  import opened Preg
  import opened Subsequence

  // The seven groups, in the order the constructor merges them.

  /** `<`: raw, entity, percent-encoded, double percent-encoded, decimal and hex references. */
  const LessThan: seq<string> := ["<", "&lt", "%0*3C", "%0*25", "%0*253C", "&#0*60", "&#x0*3c"]
  /** `>` (the source spells the group GREATHER_THAN). */
  const GreaterThan: seq<string> := [">", "&gt", "%0*3E", "%0*25", "%0*253E", "&#0*62", "&#x0*3e"]
  const Quote: seq<string> := ["'", "&apos", "%0*27", "&#0*39", "&#x0*27"]
  const DblQuote: seq<string> := ["\"", "&quot", "%0*22", "&#0*34", "&#x0*22"]
  const LeftBracket: seq<string> := ["\\(", "%0*28", "&#0*40", "&#x0*28"]
  const RightBracket: seq<string> := ["\\)", "%0*29", "&#0*41", "&#x0*29"]
  const Semicolon: seq<string> := ["\\;", "&#0*59", "&#x0*3b"]

  /** The list a new XssUrl starts with: array_merge of the seven groups. */
  const DefaultList: seq<string> :=
    LessThan + GreaterThan + Quote + DblQuote + LeftBracket + RightBracket + Semicolon

  /** The default list, as the pattern texts it is proved to hold. */
  const Defaults: seq<PatternText> := (DefaultListValid(); DefaultList)

  /** The characters the groups are about, each written raw as the first pattern of its group. */
  const RawChars: string := "<>'\"();"

  /** Every text that a pattern of the default list starts with. */
  const LeadChars: string := "<>'\"();&%"

  // ---------------------------------------------------------------------
  // Detection and filtering, as functions of the list and the URL.
  // ---------------------------------------------------------------------

  /**
   * What detect computes: the URL is a true value in PHP's sense and some
   * pattern of the list matches somewhere in it.
   */
  predicate Flagged(list: seq<PatternText>, url: string) {
    Truthy(url) && exists k :: 0 <= k < |list| && Search(Atoms(list[k]), url)
  }

  /** What getFiltered computes: each pattern's matches replaced in turn, in list order. */
  function Filter(list: seq<PatternText>, s: string, r: string): string
    decreases |list|
  {
    if list == [] then s else Filter(list[1..], ReplaceAll(Atoms(list[0]), s, r), r)
  }

  class XssUrl {
    var url: string
    var list: seq<PatternText>
    var xss: bool

    /** A new detector holds the default list, an empty URL, and no detection. */
    constructor()
      ensures url == "" && list == Defaults && !xss
    {
      url := "";
      list := Defaults;
      xss := false;
    }

    /** detect: recompute the flag from the current URL and list. */
    method Detect()
      modifies this`xss
      ensures xss == Flagged(list, url)
    {
      xss := false;
      if Truthy(url) {
        var items, subject := list, url;
        for i := 0 to |items|
          invariant xss <==> exists k :: 0 <= k < i && Search(Atoms(items[k]), subject)
        {
          if Search(Atoms(items[i]), subject) {
            xss := true;
          }
        }
      }
    }

    /** include: the given patterns are appended; the flag is not recomputed. */
    method Include(characters: seq<PatternText>)
      modifies this`list
      ensures list == old(list) + characters
    {
      list := list + characters;
    }

    /**
     * exclude: every entry equal to one of the given texts is dropped, the
     * others keep their order; the flag is not recomputed.
     */
    method Exclude(characters: seq<string>)
      modifies this`list
      ensures list == ArrayDiff(old(list), characters)
    {
      var kept := ArrayDiff(list, characters);
      ArrayDiffOrder(list, characters);
      forall t | t in kept
        ensures ValidPattern(t)
      {
        SubseqIn(kept, list, t);
      }
      list := kept;
    }

    /** setUrl: store the URL and run detection on it. */
    method SetUrl(u: string)
      modifies this`url, this`xss
      ensures url == u && xss == Flagged(list, u)
    {
      url := u;
      Detect();
    }

    /** getFiltered: the URL with every pattern's matches replaced, pattern by pattern. */
    method GetFiltered(replacement: string) returns (filtered: string)
      ensures filtered == Filter(list, url, replacement)
    {
      filtered := url;
      for i := 0 to |list|
        invariant Filter(list[i..], filtered, replacement) == Filter(list, url, replacement)
      {
        assert list[i..][1..] == list[i + 1..];
        filtered := ReplaceAll(Atoms(list[i]), filtered, replacement);
      }
    }

    function GetSource(): (u: string)
      reads this
      ensures u == url
    {
      url
    }

    function IsXss(): (b: bool)
      reads this
      ensures b == xss
    {
      xss
    }
  }

  // ---------------------------------------------------------------------
  // The default list.
  // ---------------------------------------------------------------------

  // Facts about the whole default list are proved one group at a time, in
  // one-line lemmas, and then combined: a single statement about all 35
  // texts at once costs the verifier far more than the seven together.

  lemma LessThanValid() ensures forall t :: t in LessThan ==> ValidPattern(t) {}
  lemma GreaterThanValid() ensures forall t :: t in GreaterThan ==> ValidPattern(t) {}
  lemma QuoteValid() ensures forall t :: t in Quote ==> ValidPattern(t) {}
  lemma DblQuoteValid() ensures forall t :: t in DblQuote ==> ValidPattern(t) {}
  lemma LeftBracketValid() ensures forall t :: t in LeftBracket ==> ValidPattern(t) {}
  lemma RightBracketValid() ensures forall t :: t in RightBracket ==> ValidPattern(t) {}
  lemma SemicolonValid() ensures forall t :: t in Semicolon ==> ValidPattern(t) {}

  /** Where each group sits in the default list: array_merge keeps the groups in order, back to back. */
  lemma DefaultGroups()
    ensures |Defaults| == 35
    ensures Defaults[..7] == LessThan && Defaults[7..14] == GreaterThan
    ensures Defaults[14..19] == Quote && Defaults[19..24] == DblQuote
    ensures Defaults[24..28] == LeftBracket && Defaults[28..32] == RightBracket
    ensures Defaults[32..] == Semicolon
  {
  }

  /** Every entry of the default list is pattern text the model admits. */
  lemma DefaultListValid()
    ensures forall t :: t in DefaultList ==> ValidPattern(t)
  {
    LessThanValid();
    GreaterThanValid();
    QuoteValid();
    DblQuoteValid();
    LeftBracketValid();
    RightBracketValid();
    SemicolonValid();
  }

  lemma LessThanLeads() ensures forall t :: t in LessThan ==> t != "" && Head(t, 0).Lit? && Head(t, 0).c in LeadChars {}
  lemma GreaterThanLeads() ensures forall t :: t in GreaterThan ==> t != "" && Head(t, 0).Lit? && Head(t, 0).c in LeadChars {}
  lemma QuoteLeads() ensures forall t :: t in Quote ==> t != "" && Head(t, 0).Lit? && Head(t, 0).c in LeadChars {}
  lemma DblQuoteLeads() ensures forall t :: t in DblQuote ==> t != "" && Head(t, 0).Lit? && Head(t, 0).c in LeadChars {}
  lemma LeftBracketLeads() ensures forall t :: t in LeftBracket ==> t != "" && Head(t, 0).Lit? && Head(t, 0).c in LeadChars {}
  lemma RightBracketLeads() ensures forall t :: t in RightBracket ==> t != "" && Head(t, 0).Lit? && Head(t, 0).c in LeadChars {}
  lemma SemicolonLeads() ensures forall t :: t in Semicolon ==> t != "" && Head(t, 0).Lit? && Head(t, 0).c in LeadChars {}

  /** Every default pattern starts with a literal drawn from LeadChars. */
  lemma DefaultLeads(k: nat)
    requires k < |Defaults|
    ensures Atoms(Defaults[k])[0].Lit? && Atoms(Defaults[k])[0].c in LeadChars
  {
    LessThanLeads();
    GreaterThanLeads();
    QuoteLeads();
    DblQuoteLeads();
    LeftBracketLeads();
    RightBracketLeads();
    SemicolonLeads();
    assert Defaults[k] in DefaultList;
    AtomsHead(Defaults[k]);
  }

  /** Where the first pattern of each group sits in the default list, and what it is. */
  lemma RawPattern(c: char) returns (k: nat)
    requires c in RawChars
    ensures k < |Defaults| && Atoms(Defaults[k]) == [Lit(c)]
  {
    if c == '<' { k := 0; }
    else if c == '>' { k := 7; }
    else if c == '\'' { k := 14; }
    else if c == '"' { k := 19; }
    else if c == '(' { k := 24; }
    else if c == ')' { k := 28; }
    else { k := 32; }
    assert Defaults[k] == if c in "<>'\"" then [c] else ['\\', c];
    SingleAtom(Defaults[k]);
  }

  // A lemma about one concrete text takes that text as a parameter fixed by
  // its `requires` (`requires t == "..."`) instead of naming the literal in
  // its `ensures`: the facts about the text are then derived step by step in
  // the body, which keeps each proof small.

  /** Three patterns of the LessThan group, named for the lemmas below. */
  const EncodedLessThan: PatternText := "%0*3C"
  const EncodedPercent: PatternText := "%0*25"
  const DoubleEncodedLessThan: PatternText := "%0*253C"

  /** The tokens of a percent-encoding pattern `%0*` followed by two digits. */
  lemma ScanEncoded(t: string, x: char, y: char)
    requires t == ['%', '0', '*', x, y] && x != '0' && !Special(x) && !Special(y)
    ensures Accepts(t, 0) && Scan(t, 0) == [Lit('%'), ZeroStar, Lit(x), Lit(y)]
  {
    assert Accepts(t, 5);
    assert Accepts(t, 4);
    assert Accepts(t, 3);
    assert Accepts(t, 1);
    assert Accepts(t, 0);
    assert Scan(t, 5) == [];
    assert Scan(t, 4) == [Lit(y)];
    assert Scan(t, 3) == [Lit(x), Lit(y)];
    assert Scan(t, 1) == [ZeroStar, Lit(x), Lit(y)];
  }

  lemma AtomsEncodedLessThan()
    ensures Atoms(EncodedLessThan) == [Lit('%'), ZeroStar, Lit('3'), Lit('C')]
  {
    ScanEncoded(EncodedLessThan, '3', 'C');
  }

  lemma AtomsEncodedPercent()
    ensures Atoms(EncodedPercent) == [Lit('%'), ZeroStar, Lit('2'), Lit('5')]
  {
    ScanEncoded(EncodedPercent, '2', '5');
  }

  /** The tokens of the double-encoded pattern, read one at a time. */
  lemma ScanDoubleEncoded(t: string)
    requires t == "%0*253C"
    ensures Accepts(t, 0) && Scan(t, 0) == [Lit('%'), ZeroStar, Lit('2'), Lit('5'), Lit('3'), Lit('C')]
  {
    assert Accepts(t, 7);
    assert Accepts(t, 6);
    assert Accepts(t, 5);
    assert Accepts(t, 4);
    assert Accepts(t, 3);
    assert Accepts(t, 1);
    assert Accepts(t, 0);
    assert Scan(t, 7) == [];
    assert Scan(t, 6) == [Lit('C')];
    assert Scan(t, 5) == [Lit('3'), Lit('C')];
    assert Scan(t, 4) == [Lit('5'), Lit('3'), Lit('C')];
    assert Scan(t, 3) == [Lit('2'), Lit('5'), Lit('3'), Lit('C')];
    assert Scan(t, 1) == [ZeroStar, Lit('2'), Lit('5'), Lit('3'), Lit('C')];
  }

  lemma AtomsDoubleEncoded()
    ensures Atoms(DoubleEncodedLessThan) == [Lit('%'), ZeroStar, Lit('2'), Lit('5'), Lit('3'), Lit('C')]
  {
    ScanDoubleEncoded(DoubleEncodedLessThan);
  }

  // ---------------------------------------------------------------------
  // Detection.
  // ---------------------------------------------------------------------

  /** Detection by the reference semantics: some pattern's language holds a substring of the URL. */
  lemma FlaggedIff(list: seq<PatternText>, url: string)
    ensures Flagged(list, url) <==> Truthy(url) && exists k :: 0 <= k < |list| && Occurs(Atoms(list[k]), url)
  {
    forall k | 0 <= k < |list|
      ensures Search(Atoms(list[k]), url) <==> Occurs(Atoms(list[k]), url)
    {
      SearchIff(Atoms(list[k]), url);
    }
  }

  /** Including patterns never clears a detection, wherever they go in the list. */
  lemma FlaggedMonotoneList(l1: seq<PatternText>, l2: seq<PatternText>, url: string)
    ensures Flagged(l1, url) || Flagged(l2, url) ==> Flagged(l1 + l2, url)
  {
    if Flagged(l1, url) {
      var k :| 0 <= k < |l1| && Search(Atoms(l1[k]), url);
      assert (l1 + l2)[k] == l1[k];
    }
    if Flagged(l2, url) {
      var k :| 0 <= k < |l2| && Search(Atoms(l2[k]), url);
      assert (l1 + l2)[|l1| + k] == l2[k];
    }
  }

  /** A flagged URL stays flagged with anything put around it. */
  lemma FlaggedMonotoneUrl(list: seq<PatternText>, url: string, a: string, b: string)
    requires Flagged(list, url)
    ensures Flagged(list, a + url + b)
  {
    var k :| 0 <= k < |list| && Search(Atoms(list[k]), url);
    SearchMonotone(Atoms(list[k]), url, a, b);
    assert (a + url + b)[|a|..|a| + |url|] == url;
  }

  /** A URL with none of the characters that default patterns start with is never flagged. */
  lemma BenignNotFlagged(url: string)
    requires forall i :: 0 <= i < |url| ==> url[i] !in LeadChars
    ensures !Flagged(Defaults, url)
  {
    forall k | 0 <= k < |Defaults|
      ensures !Search(Atoms(Defaults[k]), url)
    {
      var p := Atoms(Defaults[k]);
      DefaultLeads(k);
      SearchNeedsLead(p, url);
      forall i | 0 <= i < |url|
        ensures Fold(url[i]) != Fold(p[0].c)
      {
        assert Fold(p[0].c) == p[0].c;
      }
    }
  }

  /** A URL holding any raw character of a group is flagged. */
  lemma RawCharFlagged(url: string, c: char)
    requires c in RawChars && c in url
    ensures Flagged(Defaults, url)
  {
    var k := RawPattern(c);
    var i :| 0 <= i < |url| && url[i] == c;
    SearchLit(c, url, i);
  }

  /** A percent-encoded `<`, with any number of leading zeros and either case, matches its pattern. */
  lemma EncodedLessThanMatches(url: string, i: nat, n: nat)
    requires i + n + 3 <= |url| && url[i] == '%'
    requires forall m :: i + 1 <= m < i + 1 + n ==> url[m] == '0'
    requires url[i + 1 + n] == '3' && Fold(url[i + 2 + n]) == 'c'
    ensures Search(Atoms(EncodedLessThan), url)
  {
    var p := Atoms(EncodedLessThan);
    AtomsEncodedLessThan();
    var e := i + n + 3;
    assert Matches(p, 3, url, i + n + 2, e);
    assert Matches(p, 2, url, i + n + 1, e);
    assert Zeros(url, i + 1, i + 1 + n);
    assert Matches(p, 1, url, i + 1, e);
    assert Matches(p, 0, url, i, e);
    SearchIff(p, url);
  }

  /** Such a URL is therefore flagged by the default list. */
  lemma EncodedLessThanFlagged(url: string, i: nat, n: nat)
    requires i + n + 3 <= |url| && url[i] == '%'
    requires forall m :: i + 1 <= m < i + 1 + n ==> url[m] == '0'
    requires url[i + 1 + n] == '3' && Fold(url[i + 2 + n]) == 'c'
    ensures Flagged(Defaults, url)
  {
    EncodedLessThanMatches(url, i, n);
    DefaultGroups();
    assert Defaults[2] == Defaults[..7][2] == EncodedLessThan;
  }

  /**
   * The double-encoded `<` pattern of the LessThan group only matches where
   * the group's pattern for an encoded `%` does, so it never changes detection.
   */
  lemma DoubleEncodedRedundant(url: string)
    ensures Search(Atoms(DoubleEncodedLessThan), url) ==> Search(Atoms(EncodedPercent), url)
  {
    AtomsDoubleEncoded();
    AtomsEncodedPercent();
    var p, q := Atoms(DoubleEncodedLessThan), Atoms(EncodedPercent);
    assert q == p[..4];
    if Search(p, url) { SearchPrefix(p, q, url); }
  }

  /** The URL "0" is false in PHP, so detection skips it even where a pattern matches it. */
  lemma ZeroUrlNeverFlagged(list: seq<PatternText>)
    ensures !Flagged(list, "0") && Search(Atoms("0"), "0")
  {
    SearchLit('0', "0", 0);
    assert Atoms("0") == [Lit('0')] by {
      assert Scan("0", 0) == [Lit('0')] + [];
    }
  }

  // ---------------------------------------------------------------------
  // Filtering.
  // ---------------------------------------------------------------------

  /** An empty URL filters to the empty string, whatever the list and the replacement. */
  lemma {:induction false} FilterEmptyUrl(list: seq<PatternText>, r: string)
    ensures Filter(list, "", r) == ""
    decreases |list|
  {
    if list != [] {
      var p := Atoms(list[0]);
      assert MatchEnd(p, 0, "", 0).None?;
      assert ReplaceAll(p, "", r) == "";
      FilterEmptyUrl(list[1..], r);
    }
  }

  /** Filtering with a list made of two parts filters with the first part, then the second. */
  lemma {:induction false} FilterAppend(l1: seq<PatternText>, l2: seq<PatternText>, s: string, r: string)
    ensures Filter(l1 + l2, s, r) == Filter(l2, Filter(l1, s, r), r)
    decreases |l1|
  {
    if l1 == [] {
      assert l1 + l2 == l2;
    } else {
      assert (l1 + l2)[1..] == l1[1..] + l2;
      FilterAppend(l1[1..], l2, ReplaceAll(Atoms(l1[0]), s, r), r);
    }
  }

  /** Filtering with an empty replacement only deletes characters. */
  lemma {:induction false} FilterDeletes(list: seq<PatternText>, s: string)
    ensures Subseq(Filter(list, s, ""), s)
    decreases |list|
  {
    if list == [] {
      SubseqRefl(s);
    } else {
      var t := ReplaceAll(Atoms(list[0]), s, "");
      FilterDeletes(list[1..], t);
      ReplaceAllDeletes(Atoms(list[0]), s);
      SubseqTrans(Filter(list[1..], t, ""), t, s);
    }
  }

  /** Every character of the filtered URL comes from the URL or from the replacement. */
  lemma {:induction false} FilterChars(list: seq<PatternText>, s: string, r: string, x: char)
    ensures x in Filter(list, s, r) ==> x in s || x in r
    decreases |list|
  {
    if list != [] {
      var t := ReplaceAll(Atoms(list[0]), s, r);
      FilterChars(list[1..], t, r, x);
      ReplaceAllChars(Atoms(list[0]), s, r, x);
    }
  }

  /** Filtering with an empty replacement changes the URL exactly when some pattern matches it. */
  lemma {:induction false} FilterIdentity(list: seq<PatternText>, s: string)
    ensures Filter(list, s, "") == s <==> forall k :: 0 <= k < |list| ==> !Search(Atoms(list[k]), s)
    decreases |list|
  {
    if list != [] {
      var p := Atoms(list[0]);
      var t := ReplaceAll(p, s, "");
      if Search(p, s) {
        ReplaceAllShrinks(p, s);
        FilterDeletes(list[1..], t);
        SubseqLength(Filter(list[1..], t, ""), t);
      } else {
        ReplaceAllIdentity(p, s);
        FilterIdentity(list[1..], s);
        forall k | 1 <= k < |list| ensures list[1..][k - 1] == list[k] {}
      }
    }
  }

  /** For a URL detection looks at, detect flags it exactly when filtering would change it. */
  lemma FlaggedIffFilterChanges(list: seq<PatternText>, url: string)
    requires Truthy(url)
    ensures Flagged(list, url) <==> Filter(list, url, "") != url
  {
    FilterIdentity(list, url);
  }

  /**
   * A pattern consisting of one literal leaves none of that character
   * behind, whatever follows it, unless the replacement brings it or puts
   * the match back.
   */
  lemma LiteralCleared(list: seq<PatternText>, k: nat, c: char, s: string, r: string)
    requires k < |list| && Atoms(list[k]) == [Lit(c)] && c !in r
    ensures !RefersToMatch(r) ==> c !in Filter(list, s, r)
  {
    var before, after := list[..k], list[k + 1..];
    assert list == before + ([list[k]] + after);
    FilterAppend(before, [list[k]] + after, s, r);
    var mid := Filter(before, s, r);
    var t := ReplaceAll([Lit(c)], mid, r);
    assert ([list[k]] + after)[1..] == after;
    assert Filter([list[k]] + after, mid, r) == Filter(after, t, r);
    ReplaceAllClearsChar(c, mid, r, c);
    FilterChars(after, t, r, c);
  }

  /**
   * The default list filters away every raw dangerous character, unless the
   * replacement brings it back or refers to the match.
   */
  lemma NoRawCharLeft(s: string, r: string, c: char)
    requires c in RawChars && c !in r
    ensures !RefersToMatch(r) ==> c !in Filter(Defaults, s, r)
  {
    var k := RawPattern(c);
    LiteralCleared(Defaults, k, c, s, r);
  }
}
