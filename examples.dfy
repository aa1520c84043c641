/**
 * Concrete inputs, taken from the expected values of the repository's
 * tests, worked through the model of the current version.
 */
module Examples {
  import opened Wrappers
  import opened Php
  import opened Preg
  import opened DistXssUrl
  import Legacy = LegacyXssUrl

  // A lemma about one concrete text takes that text as a parameter fixed by
  // its `requires` (`requires t == "..."`) instead of naming the literal in
  // its `ensures`: the facts about the text are then derived step by step in
  // the body, which keeps each proof small.

  /** URLs the tests expect to pass: none holds a character any default pattern starts with. */
  const PlainUrls: seq<string> := [
    "https://example.com",
    "https://example.com/page?id=42",
    "http://aouka.com/search?q=test",
    "https://example.com/page?q=hello+world",
    "mailto:test@example.com",
    "ftp://ftp.example.com/file.txt",
    ""
  ]

  /** URLs the tests expect to be flagged, each holding a raw `(`. */
  const ParenUrls: seq<string> := [
    "javascript:alert(1)",
    "JaVaScRiPt:alert(\"x\")",
    "vbscript:msgbox(\"x\")",
    "data:text/javascript,alert(1)",
    "JaVaScRiPt:%61%6C%65%72%74(1)",
    "javascript://comment%0Aalert(1)"
  ]

  /** A pattern whose first literal does not occur in the subject, in either case, leaves it as it is. */
  lemma LeadAbsentKeeps(t: PatternText, s: string, r: string)
    requires Head(t, 0).Lit? && forall i :: 0 <= i < |s| ==> Fold(s[i]) != Fold(Head(t, 0).c)
    ensures ReplaceAll(Atoms(t), s, r) == s
  {
    AtomsHead(t);
    SearchNeedsLead(Atoms(t), s);
    assert s[0..] == s;
  }

  /** `%0*3C` does not match `%253C`: after the `%` comes a `2`. */
  lemma EncodedLessThanMisses(p: seq<Atom>, s: string)
    requires p == [Lit('%'), ZeroStar, Lit('3'), Lit('C')] && s == "%253C"
    ensures FirstMatch(p, s, 0).None?
  {
    assert MatchEnd(p, 0, s, 5).None?;
    assert MatchEnd(p, 0, s, 4).None?;
    assert MatchEnd(p, 0, s, 3).None?;
    assert MatchEnd(p, 0, s, 2).None?;
    assert MatchEnd(p, 0, s, 1).None?;
    assert ZeroEnd(s, 1) == 1;
    assert MatchEnd(p, 2, s, 1).None?;
    assert MatchEnd(p, 0, s, 0).None?;
  }

  /** `%0*25` deletes the leading `%25` of `%253C` and nothing else. */
  lemma EncodedPercentDeletes(p: seq<Atom>, s: string)
    requires p == [Lit('%'), ZeroStar, Lit('2'), Lit('5')] && s == "%253C"
    ensures ReplaceAll(p, s, "") == "3C"
  {
    assert MatchEnd(p, 0, s, 5).None?;
    assert MatchEnd(p, 0, s, 4).None?;
    assert MatchEnd(p, 0, s, 3).None?;
    assert FirstMatch(p, s, 3).None?;
    assert ZeroEnd(s, 1) == 1;
    assert MatchEnd(p, 4, s, 3) == Some(3);
    assert MatchEnd(p, 3, s, 2) == Some(3);
    assert MatchEnd(p, 2, s, 1) == Some(3);
    assert MatchEnd(p, 1, s, 1) == Some(3);
    assert FirstMatch(p, s, 0) == Some(Hit(0, 3));
    assert ReplaceFrom(p, s, "", 3) == "3C";
  }

  /** `%0*253C` matches the whole of `%253C`. */
  lemma DoubleEncodedDeletesAll(p: seq<Atom>, s: string)
    requires p == [Lit('%'), ZeroStar, Lit('2'), Lit('5'), Lit('3'), Lit('C')] && s == "%253C"
    ensures ReplaceAll(p, s, "") == ""
  {
    assert MatchEnd(p, 0, s, 5).None?;
    assert FirstMatch(p, s, 5).None?;
    assert ZeroEnd(s, 1) == 1;
    assert MatchEnd(p, 6, s, 5) == Some(5);
    assert MatchEnd(p, 5, s, 4) == Some(5);
    assert MatchEnd(p, 4, s, 3) == Some(5);
    assert MatchEnd(p, 3, s, 2) == Some(5);
    assert MatchEnd(p, 2, s, 1) == Some(5);
    assert MatchEnd(p, 1, s, 1) == Some(5);
    assert FirstMatch(p, s, 0) == Some(Hit(0, 5));
    assert ReplaceFrom(p, s, "", 5) == "";
  }

  /** `%0*253C` leaves `3C` alone: it holds no `%`. */
  lemma DoubleEncodedKeeps(t: string)
    requires t == "3C"
    ensures Filter([DoubleEncodedLessThan], t, "") == t
  {
    AtomsDoubleEncoded();
    AtomsHead(DoubleEncodedLessThan);
    LeadAbsentKeeps(DoubleEncodedLessThan, t, "");
    assert Filter([DoubleEncodedLessThan], t, "") == Filter([], t, "");
  }

  /** Run first, `%0*25` leaves the `3C` of a double-encoded `<`, which `%0*253C` then cannot match. */
  lemma PercentFirst(s: string)
    requires s == "%253C"
    ensures Filter([EncodedPercent, DoubleEncodedLessThan], s, "") == "3C"
  {
    var l := [EncodedPercent, DoubleEncodedLessThan];
    AtomsEncodedPercent();
    EncodedPercentDeletes(Atoms(EncodedPercent), s);
    DoubleEncodedKeeps("3C");
    assert l[1..] == [DoubleEncodedLessThan];
  }

  /** Run first, `%0*253C` deletes a double-encoded `<` whole. */
  lemma DoubleEncodedFirst(s: string)
    requires s == "%253C"
    ensures Filter([DoubleEncodedLessThan, EncodedPercent], s, "") == ""
  {
    var l := [DoubleEncodedLessThan, EncodedPercent];
    AtomsDoubleEncoded();
    DoubleEncodedDeletesAll(Atoms(DoubleEncodedLessThan), s);
    FilterEmptyUrl([EncodedPercent], "");
    assert l[1..] == [EncodedPercent];
  }

  /**
   * The order of the LessThan group matters to filtering: `%0*25` comes
   * before `%0*253C`, so a double-encoded `<` filters to `3C` and not to
   * nothing.
   */
  lemma FilterOrderMatters()
    ensures Filter([EncodedPercent, DoubleEncodedLessThan], "%253C", "") == "3C"
    ensures Filter([DoubleEncodedLessThan, EncodedPercent], "%253C", "") == ""
  {
    PercentFirst("%253C");
    DoubleEncodedFirst("%253C");
  }

  /** The first four default patterns, from the LessThan group. */
  lemma LessThanHead()
    ensures Defaults[..4] == ["<", "&lt", EncodedLessThan, EncodedPercent]
  {
    DefaultGroups();
    assert Defaults[..4] == Defaults[..7][..4];
  }

  /** `<` and `&lt` occur in neither `%253C` nor `%3%3CC`. */
  lemma RawAndEntityKeep(t0: PatternText, t1: PatternText, s: string)
    requires t0 == "<" && t1 == "&lt" && (s == "%253C" || s == "%3%3CC")
    ensures ReplaceAll(Atoms(t0), s, "") == s && ReplaceAll(Atoms(t1), s, "") == s
  {
    LeadAbsentKeeps(t0, s, "");
    LeadAbsentKeeps(t1, s, "");
  }

  /** `%0*3C` keeps `%253C`, and `%0*25` turns it into `3C`. */
  lemma EncodedStep(s: string)
    requires s == "%253C"
    ensures ReplaceAll(Atoms(EncodedLessThan), s, "") == s
    ensures ReplaceAll(Atoms(EncodedPercent), s, "") == "3C"
  {
    AtomsEncodedLessThan();
    EncodedLessThanMisses(Atoms(EncodedLessThan), s);
    assert s[0..] == s;
    AtomsEncodedPercent();
    EncodedPercentDeletes(Atoms(EncodedPercent), s);
  }

  /** The first four default patterns turn `%253C` into `3C`: only `%0*25` matches. */
  lemma LessThanHeadFilters(s: string)
    requires s == "%253C"
    ensures Filter(Defaults[..4], s, "") == "3C"
  {
    LessThanHead();
    var l := Defaults[..4];
    var l1, l2, l3 := l[1..], l[2..], l[3..];
    assert l1[1..] == l2 && l2[1..] == l3 && l3[1..] == [];
    RawAndEntityKeep(l[0], l1[0], s);
    EncodedStep(s);
    calc {
      Filter(l, s, "");
      Filter(l1, s, "");
      Filter(l2, s, "");
      Filter(l3, s, "");
      Filter([], "3C", "");
    }
  }

  /** No default pattern matches `3C`, so the rest of the list leaves it alone. */
  lemma RestKeepsDigits(t: string)
    requires t == "3C"
    ensures Filter(Defaults[4..], t, "") == t
  {
    BenignNotFlagged(t);
    var tail := Defaults[4..];
    forall k | 0 <= k < |tail|
      ensures !Search(Atoms(tail[k]), t)
    {
      assert tail[k] == Defaults[k + 4];
    }
    FilterIdentity(tail, t);
  }

  /**
   * Filtering a double-encoded `<` with the default list leaves `3C`, as the
   * test of getFiltered expects inside its payload.
   */
  lemma DoubleEncodedLessThanFiltered()
    ensures Filter(Defaults, "%253C", "") == "3C"
  {
    DefaultGroups();
    assert Defaults == Defaults[..4] + Defaults[4..];
    FilterAppend(Defaults[..4], Defaults[4..], "%253C", "");
    LessThanHeadFilters("%253C");
    RestKeepsDigits("3C");
  }

  // Each plain URL, character by character: none is in LeadChars.
  lemma SiteUrlHasNoLeads() ensures forall i :: 0 <= i < |"https://example.com"| ==> "https://example.com"[i] !in LeadChars {}
  lemma PageUrlHasNoLeads() ensures forall i :: 0 <= i < |"https://example.com/page?id=42"| ==> "https://example.com/page?id=42"[i] !in LeadChars {}
  lemma SearchUrlHasNoLeads() ensures forall i :: 0 <= i < |"http://aouka.com/search?q=test"| ==> "http://aouka.com/search?q=test"[i] !in LeadChars {}
  lemma QueryUrlHasNoLeads() ensures forall i :: 0 <= i < |"https://example.com/page?q=hello+world"| ==> "https://example.com/page?q=hello+world"[i] !in LeadChars {}
  lemma MailtoUrlHasNoLeads() ensures forall i :: 0 <= i < |"mailto:test@example.com"| ==> "mailto:test@example.com"[i] !in LeadChars {}
  lemma FtpUrlHasNoLeads() ensures forall i :: 0 <= i < |"ftp://ftp.example.com/file.txt"| ==> "ftp://ftp.example.com/file.txt"[i] !in LeadChars {}

  lemma PlainUrlsHaveNoLeads(u: string)
    requires u in PlainUrls
    ensures forall i :: 0 <= i < |u| ==> u[i] !in LeadChars
  {
    SiteUrlHasNoLeads();
    PageUrlHasNoLeads();
    SearchUrlHasNoLeads();
    QueryUrlHasNoLeads();
    MailtoUrlHasNoLeads();
    FtpUrlHasNoLeads();
  }

  /**
   * The plain URLs of the tests are flagged by neither version, and the
   * current version's filter returns them unchanged.
   */
  lemma PlainUrlsPass(u: string)
    requires u in PlainUrls
    ensures !Flagged(Defaults, u) && Filter(Defaults, u, "") == u
    ensures !Legacy.Flagged(Legacy.LegacyList, u)
  {
    PlainUrlsHaveNoLeads(u);
    BenignNotFlagged(u);
    if u == "" {
      FilterEmptyUrl(Defaults, "");
    } else {
      FlaggedIffFilterChanges(Defaults, u);
    }
    forall i | 0 <= i < |u|
      ensures u[i] !in Legacy.LeadChars
    {
      assert u[i] !in LeadChars;
    }
    Legacy.BenignNotFlagged(u);
  }

  /** The script-scheme URLs of the tests are flagged for their parenthesis alone. */
  lemma ParenUrlsFlagged(u: string)
    requires u in ParenUrls
    ensures Flagged(Defaults, u)
  {
    assert '(' in u;
    RawCharFlagged(u, '(');
  }

  /** A base64 data URI is flagged for the `;` of its media type. */
  lemma DataUriFlagged()
    ensures Flagged(Defaults, "data:text/html;base64,PHNjcmlwdD5hbGVydCgxKTwvc2NyaXB0Pg==")
  {
    var u := "data:text/html;base64,PHNjcmlwdD5hbGVydCgxKTwvc2NyaXB0Pg==";
    assert u[14] == ';';
    RawCharFlagged(u, ';');
  }

  /** A URL whose only markup is percent-encoded is flagged by `%0*3C`. */
  lemma EncodedMarkupFlagged(u: string)
    requires u == "https://example.com/?q=%3Cb%3Ebold%3C%2Fb%3E"
    ensures Flagged(Defaults, u)
  {
    assert u[23] == '%' && u[24] == '3' && Fold(u[25]) == 'c';
    EncodedLessThanFlagged(u, 23, 0);
  }

  /** `%0*3C` deletes the inner `%3C` of `%3%3CC`, and only that. */
  lemma InnerEncodedDeleted(p: seq<Atom>, s: string)
    requires p == [Lit('%'), ZeroStar, Lit('3'), Lit('C')] && s == "%3%3CC"
    ensures ReplaceAll(p, s, "") == "%3C"
  {
    assert MatchEnd(p, 0, s, 6).None?;
    assert MatchEnd(p, 0, s, 5).None?;
    assert FirstMatch(p, s, 5).None?;
    assert ZeroEnd(s, 1) == 1 && ZeroEnd(s, 3) == 3;
    assert MatchEnd(p, 2, s, 1).None?;
    assert MatchEnd(p, 0, s, 0).None?;
    assert MatchEnd(p, 0, s, 1).None?;
    assert MatchEnd(p, 4, s, 5) == Some(5);
    assert MatchEnd(p, 3, s, 4) == Some(5);
    assert MatchEnd(p, 2, s, 3) == Some(5);
    assert MatchEnd(p, 1, s, 3) == Some(5);
    assert FirstMatch(p, s, 2) == Some(Hit(2, 5));
    assert FirstMatch(p, s, 0) == Some(Hit(2, 5));
    assert ReplaceFrom(p, s, "", 5) == "C";
  }

  /**
   * preg_replace makes one pass: deleting a match can bring a new one
   * together, so a pattern can still match what it was used to filter.
   */
  lemma ReplaceLeavesNewMatch()
    ensures ReplaceAll(Atoms(EncodedLessThan), "%3%3CC", "") == "%3C"
    ensures Search(Atoms(EncodedLessThan), "%3C")
  {
    AtomsEncodedLessThan();
    InnerEncodedDeleted(Atoms(EncodedLessThan), "%3%3CC");
    EncodedLessThanMatches("%3C", 0, 0);
  }

  // ---------------------------------------------------------------------
  // One getFiltered pass can leave a URL that detection flags.
  // ---------------------------------------------------------------------

  /**
   * A default pattern that cannot match `%3C`: it starts with a literal
   * other than `%` drawn from LeadChars, or it is `%0*` followed by a
   * non-zero digit and a literal, the two not being `3` and `C`.
   */
  predicate MissesEncoded(t: string) {
    t != "" && Head(t, 0).Lit? &&
    if Head(t, 0).c == '%' then
      |t| >= 5 && t[0] == '%' && t[1] == '0' && t[2] == '*' && '1' <= t[3] <= '9' &&
      t[4] != '\\' && t[4] != '0' && (t[3] != '3' || Fold(t[4]) != 'c')
    else Head(t, 0).c in "<>'\"();&"
  }

  lemma LessThanTailMisses() ensures forall k :: 3 <= k < |LessThan| ==> MissesEncoded(LessThan[k]) {}
  lemma GreaterThanMisses() ensures forall t :: t in GreaterThan ==> MissesEncoded(t) {}
  lemma QuoteMisses() ensures forall t :: t in Quote ==> MissesEncoded(t) {}
  lemma DblQuoteMisses() ensures forall t :: t in DblQuote ==> MissesEncoded(t) {}
  lemma LeftBracketMisses() ensures forall t :: t in LeftBracket ==> MissesEncoded(t) {}
  lemma RightBracketMisses() ensures forall t :: t in RightBracket ==> MissesEncoded(t) {}
  lemma SemicolonMisses() ensures forall t :: t in Semicolon ==> MissesEncoded(t) {}

  /** Every default pattern after `%0*3C` has that shape. */
  lemma TailMisses(k: nat)
    requires 3 <= k < |Defaults|
    ensures MissesEncoded(Defaults[k])
  {
    DefaultGroups();
    if k < 7 {
      LessThanTailMisses();
      assert Defaults[k] == Defaults[..7][k];
    } else if k < 14 {
      GreaterThanMisses();
      assert Defaults[k] == Defaults[7..14][k - 7];
    } else if k < 19 {
      QuoteMisses();
      assert Defaults[k] == Defaults[14..19][k - 14];
    } else if k < 24 {
      DblQuoteMisses();
      assert Defaults[k] == Defaults[19..24][k - 19];
    } else if k < 28 {
      LeftBracketMisses();
      assert Defaults[k] == Defaults[24..28][k - 24];
    } else if k < 32 {
      RightBracketMisses();
      assert Defaults[k] == Defaults[28..32][k - 28];
    } else {
      SemicolonMisses();
      assert Defaults[k] == Defaults[32..][k - 32];
    }
  }

  /** The first atoms of pattern text `%0*` followed by a non-zero digit and a plain literal. */
  lemma EncodedAtoms(t: PatternText)
    requires |t| >= 5 && t[0] == '%' && t[1] == '0' && t[2] == '*' && '1' <= t[3] <= '9'
    requires t[4] != '\\' && t[4] != '0'
    ensures |Atoms(t)| >= 4 && Atoms(t)[..4] == [Lit('%'), ZeroStar, Lit(t[3]), Lit(t[4])]
  {
    assert Accepts(t, 1) && Accepts(t, 3) && Accepts(t, 4) && Accepts(t, 5);
    assert Scan(t, 4) == [Lit(t[4])] + Scan(t, 5);
    assert Scan(t, 3) == [Lit(t[3])] + Scan(t, 4);
    assert Scan(t, 1) == [ZeroStar] + Scan(t, 3);
    assert Scan(t, 0) == [Lit('%')] + Scan(t, 1);
  }

  /** `%`, zeros, then two literals other than `3` and `C` cannot match `%3C`. */
  lemma EncodedPairMisses(p: seq<Atom>, s: string)
    requires |p| >= 4 && p[0] == Lit('%') && p[1] == ZeroStar && p[2].Lit? && p[3].Lit?
    requires Fold(p[2].c) != '3' || Fold(p[3].c) != 'c'
    requires s == "%3C"
    ensures !Search(p, s)
  {
    assert MatchEnd(p, 0, s, 3).None?;
    assert MatchEnd(p, 0, s, 2).None?;
    assert MatchEnd(p, 0, s, 1).None?;
    assert ZeroEnd(s, 1) == 1;
    assert MatchEnd(p, 2, s, 1).None?;
    assert MatchEnd(p, 0, s, 0).None?;
  }

  /** A default pattern after `%0*3C` does not match `%3C`. */
  lemma TailMissesEncoded(t: PatternText, s: string)
    requires MissesEncoded(t) && s == "%3C"
    ensures !Search(Atoms(t), s)
  {
    AtomsHead(t);
    if Head(t, 0).c == '%' {
      EncodedAtoms(t);
      var p := Atoms(t);
      assert p[..4][2] == p[2] && p[..4][3] == p[3];
      EncodedPairMisses(p, s);
    } else {
      SearchNeedsLead(Atoms(t), s);
    }
  }

  /** The rest of the default list leaves `%3C` alone. */
  lemma RestKeepsEncoded(t: string)
    requires t == "%3C"
    ensures Filter(Defaults[3..], t, "") == t
  {
    var tail := Defaults[3..];
    forall k | 0 <= k < |tail|
      ensures !Search(Atoms(tail[k]), t)
    {
      assert tail[k] == Defaults[k + 3];
      TailMisses(k + 3);
      TailMissesEncoded(tail[k], t);
    }
    FilterIdentity(tail, t);
  }

  /** The first three default patterns, from the LessThan group. */
  lemma LessThanFirstThree()
    ensures Defaults[..3] == ["<", "&lt", EncodedLessThan]
  {
    LessThanHead();
    assert Defaults[..3] == Defaults[..4][..3];
  }

  /** `%0*3C` turns `%3%3CC` into `%3C`. */
  lemma InnerEncodedStep(s: string)
    requires s == "%3%3CC"
    ensures ReplaceAll(Atoms(EncodedLessThan), s, "") == "%3C"
  {
    AtomsEncodedLessThan();
    InnerEncodedDeleted(Atoms(EncodedLessThan), s);
  }

  /** The first three default patterns turn `%3%3CC` into `%3C`: only `%0*3C` matches. */
  lemma EncodedHeadFilters(s: string)
    requires s == "%3%3CC"
    ensures Filter(Defaults[..3], s, "") == "%3C"
  {
    LessThanFirstThree();
    var l := Defaults[..3];
    var l1, l2 := l[1..], l[2..];
    assert l1[1..] == l2 && l2[1..] == [];
    RawAndEntityKeep(l[0], l1[0], s);
    InnerEncodedStep(s);
    calc {
      Filter(l, s, "");
      Filter(l1, s, "");
      Filter(l2, s, "");
      Filter([], "%3C", "");
    }
  }

  /**
   * getFiltered is not idempotent: the default list filters `%3%3CC` to
   * `%3C`, which detection flags.
   */
  lemma FilterLeavesFlagged()
    ensures Filter(Defaults, "%3%3CC", "") == "%3C" && Flagged(Defaults, "%3C")
  {
    DefaultGroups();
    assert Defaults == Defaults[..3] + Defaults[3..];
    FilterAppend(Defaults[..3], Defaults[3..], "%3%3CC", "");
    EncodedHeadFilters("%3%3CC");
    RestKeepsEncoded("%3C");
    EncodedLessThanFlagged("%3C", 0, 0);
  }

  // ---------------------------------------------------------------------
  // The replacement argument of getFiltered, as preg_replace reads it.
  // ---------------------------------------------------------------------

  /** `$0`, `\0` and `${0}` all stand for the whole match. */
  lemma WholeMatchForms(m: string)
    ensures Expand("$0", m) == m && Expand("\\0", m) == m && Expand("${0}", m) == m
  {
    assert GroupRef("$0") == Some(Ref(0, 2));
    assert GroupRef("\\0") == Some(Ref(0, 2));
    assert GroupRef("${0}") == Some(Ref(0, 4));
    assert Fill([Group(0)], m) == m;
  }

  /** A pattern without groups leaves `$1` empty. */
  lemma OtherGroupEmpty(t: string, m: string)
    requires t == "$1"
    ensures Expand(t, m) == ""
  {
    assert GroupRef(t) == Some(Ref(1, 2)) && t[2..] == "";
    assert Template(t) == [Group(1)];
    assert [Group(1)][1..] == [];
    assert Fill([Group(1)], m) == [] + Fill([], m);
  }

  /** An unclosed `${` starts no reference and is copied as it is. */
  lemma UnclosedBraceCopied(t: string, m: string)
    requires t == "${1"
    ensures Expand(t, m) == t
  {
    assert GroupRef(t).None? && !EscapedAt(t) && t[1..] == "{1";
    assert Template(t) == [Text('$')] + Template("{1");
    ExpandLiteral("{1", m);
    assert Expand(t, m) == "$" + Expand("{1", m);
  }

  /** `\\` is one backslash and `\$` a dollar sign, which then starts no reference. */
  lemma EscapeForms(m: string)
    ensures Expand("\\\\", m) == "\\" && Expand("\\$0", m) == "$0"
  {
    assert GroupRef("\\\\").None? && EscapedAt("\\\\");
    assert GroupRef("\\$0").None? && EscapedAt("\\$0");
    assert "\\$0"[2..] == "0";
    ExpandLiteral("0", m);
  }

  /** With `$0` as the replacement, the raw `<` that the first pattern matches is put back. */
  lemma WholeMatchKeepsChar()
    ensures RefersToMatch("$0") && ReplaceAll([Lit('<')], "<", "$0") == "<"
  {
    var p, s := [Lit('<')], "<";
    assert GroupRef("$0") == Some(Ref(0, 2));
    assert MatchEnd(p, 0, s, 0) == Some(1);
    assert FirstMatch(p, s, 1).None?;
    WholeMatchForms(s[0..1]);
  }
}
