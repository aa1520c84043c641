/**
 * The part of PCRE that XssUrl's patterns use, as `preg_match` and
 * `preg_replace` see it with the `i` (caseless) modifier.
 *
 * A pattern is a sequence of atoms: a literal character, or `0*` (zero or
 * more '0' digits). Pattern text is read by Parse, which accepts plain
 * characters, the escapes `\(`, `\)` and `\;`, and `0*` when a literal other
 * than '0' follows it, and refuses every other regular-expression construct.
 * Caseless means ASCII case folding.
 */
module Preg {
  import opened Wrappers
  import opened Subsequence

  datatype Atom = Lit(c: char) | ZeroStar

  /** ASCII case folding: upper-case letters map to lower case, all else is kept. */
  function Fold(c: char): (f: char)
    ensures !('A' <= f <= 'Z')
    ensures f == c || ('A' <= c <= 'Z' && f as int == c as int + 32)
  {
    if 'A' <= c <= 'Z' then (c as int + 32) as char else c
  }

  /** Some atom at or after `j` is a literal, so every match of `p[j..]` is non-empty. */
  predicate HasLitFrom(p: seq<Atom>, j: nat)
    decreases |p| - j
  {
    j < |p| && (p[j].Lit? || HasLitFrom(p, j + 1))
  }

  /**
   * Every `0*` is followed by a literal other than '0'. Under this condition a
   * greedy `0*` never has to give digits back, so matching needs no backtracking.
   */
  ghost predicate NoBacktrack(p: seq<Atom>) {
    forall j :: 0 <= j < |p| && p[j].ZeroStar? ==> j + 1 < |p| && p[j + 1].Lit? && p[j + 1].c != '0'
  }

  /** The patterns this model admits: no backtracking, and no match can be empty. */
  ghost predicate WellFormed(p: seq<Atom>) {
    HasLitFrom(p, 0) && NoBacktrack(p)
  }

  /** Regular-expression metacharacters (and the backtick the source uses as delimiter). */
  predicate Special(c: char) {
    match c
    case '\\' => true case '^' => true case '$' => true case '.' => true case '[' => true
    case ']' => true case '|' => true case '(' => true case ')' => true case '?' => true
    case '*' => true case '+' => true case '{' => true case '}' => true case '`' => true
    case _ => false
  }

  /** The characters that the default patterns write with a backslash. */
  predicate Escapable(c: char) {
    c == '(' || c == ')' || c == ';'
  }

  /** The atom that pattern text starting at position i begins with. */
  function Head(s: string, i: nat): Atom
    requires i < |s|
  {
    if s[i] == '\\' && i + 1 < |s| then Lit(s[i + 1])
    else if s[i] == '0' && i + 1 < |s| && s[i + 1] == '*' then ZeroStar
    else Lit(s[i])
  }

  /** Length in characters of the token at position i. */
  function TokenLength(s: string, i: nat): nat
    requires i < |s|
  {
    if s[i] == '\\' || (i + 1 < |s| && s[i] == '0' && s[i + 1] == '*') then 2 else 1
  }

  /**
   * The pattern text `s[i..]` is in the sublanguage: plain characters that
   * are not metacharacters, the escapes, and `0*` followed by a character
   * other than '0' (which then starts a literal).
   */
  predicate Accepts(s: string, i: nat)
    requires i <= |s|
    decreases |s| - i
  {
    i == |s| ||
    (if s[i] == '\\' then i + 1 < |s| && Escapable(s[i + 1]) && Accepts(s, i + 2)
     else if i + 1 < |s| && s[i] == '0' && s[i + 1] == '*' then i + 2 < |s| && s[i + 2] != '0' && Accepts(s, i + 2)
     else !Special(s[i]) && Accepts(s, i + 1))
  }

  /** Splits accepted pattern text `s[i..]` into its atoms, one per token. */
  function Scan(s: string, i: nat): seq<Atom>
    requires i <= |s| && Accepts(s, i)
    decreases |s| - i
  {
    if i == |s| then [] else [Head(s, i)] + Scan(s, i + TokenLength(s, i))
  }

  /** What Scan yields needs no backtracking and holds only literals that pattern text can denote. */
  lemma {:induction false} ScanFacts(s: string, i: nat)
    requires i <= |s| && Accepts(s, i)
    ensures NoBacktrack(Scan(s, i))
    ensures forall j :: 0 <= j < |Scan(s, i)| && Scan(s, i)[j].Lit? ==> Expressible(Scan(s, i)[j].c)
    ensures i < |s| ==> HasLitFrom(Scan(s, i), 0)
    ensures i < |s| && s[i] != '0' ==> Head(s, i).Lit? && Head(s, i).c != '0'
    decreases |s| - i
  {
    if i < |s| {
      var n := TokenLength(s, i);
      ScanFacts(s, i + n);
      var p, q := Scan(s, i), Scan(s, i + n);
      assert p == [Head(s, i)] + q;
      forall j | 0 <= j < |p| && p[j].ZeroStar?
        ensures j + 1 < |p| && p[j + 1].Lit? && p[j + 1].c != '0'
      {
        if j > 0 { assert p[j] == q[j - 1]; assert p[j + 1] == q[j]; }
        else { assert s[i + 2] != '0' && q[0] == Head(s, i + 2); }
      }
      forall j | 0 <= j < |p| && p[j].Lit?
        ensures Expressible(p[j].c)
      {
        if j > 0 { assert p[j] == q[j - 1]; }
      }
      if Head(s, i).ZeroStar? {
        assert q[0] == Head(s, i + 2) && p[1] == q[0];
        assert HasLitFrom(p, 1);
      }
    }
  }

  /** The pattern text of `$item`, compiled; None for text the model does not admit. */
  function Parse(s: string): (r: Option<seq<Atom>>)
    ensures r.Some? ==> WellFormed(r.value)
  {
    if s != "" && Accepts(s, 0) then ScanFacts(s, 0); Some(Scan(s, 0)) else None
  }

  /** Pattern text the model admits: exactly the text Parse accepts. */
  predicate ValidPattern(s: string)
    ensures ValidPattern(s) <==> Parse(s).Some?
  {
    s != "" && Accepts(s, 0)
  }

  type PatternText = s: string | ValidPattern(s) witness "<"

  /** The compiled form of admitted pattern text. */
  function Atoms(t: PatternText): (p: seq<Atom>)
    ensures Parse(t) == Some(p) && WellFormed(p)
  {
    Parse(t).value
  }

  /** The first atom of admitted text is the atom of its first token. */
  lemma AtomsHead(t: PatternText)
    ensures Atoms(t) != [] && Atoms(t)[0] == Head(t, 0)
  {
  }

  /** Text made of a single token compiles to that one atom. */
  lemma SingleAtom(t: PatternText)
    requires TokenLength(t, 0) == |t|
    ensures Atoms(t) == [Head(t, 0)]
  {
    assert Scan(t, |t|) == [];
  }

  /** Literal characters that some pattern text can denote. */
  predicate Expressible(c: char) {
    !Special(c) || Escapable(c)
  }

  /** Canonical pattern text of one atom. */
  function Token(a: Atom): string {
    match a
    case Lit(c) => if Special(c) then ['\\', c] else [c]
    case ZeroStar => "0*"
  }

  /** Canonical pattern text for a sequence of atoms: the partner of Parse. */
  function Render(p: seq<Atom>): string
  {
    if p == [] then "" else Token(p[0]) + Render(p[1..])
  }

  /** Reading pattern text depends only on the text from the current position on. */
  lemma {:induction false} ScanSuffix(s: string, i: nat, t: string, k: nat)
    requires i <= |s| && k <= |t| && s[i..] == t[k..]
    ensures Accepts(s, i) == Accepts(t, k)
    ensures Accepts(s, i) ==> Scan(s, i) == Scan(t, k)
    decreases |s| - i
  {
    if i < |s| {
      assert s[i] == s[i..][0] == t[k];
      if i + 1 < |s| { assert s[i + 1] == s[i..][1] == t[k + 1]; }
      if i + 2 < |s| { assert s[i + 2] == s[i..][2] == t[k + 2]; }
      assert s[i + 1..] == s[i..][1..] == t[k + 1..];
      ScanSuffix(s, i + 1, t, k + 1);
      if i + 2 <= |s| { assert s[i + 2..] == s[i..][2..] == t[k + 2..]; ScanSuffix(s, i + 2, t, k + 2); }
    }
  }

  /** Reading the canonical text of atoms yields those atoms. */
  lemma {:induction false} ScanRender(p: seq<Atom>)
    requires NoBacktrack(p)
    requires forall j :: 0 <= j < |p| && p[j].Lit? ==> Expressible(p[j].c)
    ensures Accepts(Render(p), 0) && Scan(Render(p), 0) == p
  {
    if p != [] {
      var q := p[1..];
      assert NoBacktrack(q) by {
        forall j | 0 <= j < |q| && q[j].ZeroStar?
          ensures j + 1 < |q| && q[j + 1].Lit? && q[j + 1].c != '0'
        {
          assert p[j + 1] == q[j];
        }
      }
      assert forall j :: 0 <= j < |q| && q[j].Lit? ==> Expressible(q[j].c) by {
        forall j | 0 <= j < |q| && q[j].Lit? ensures Expressible(q[j].c) { assert p[j + 1] == q[j]; }
      }
      ScanRender(q);
      var h, s, rest := Token(p[0]), Render(p), Render(q);
      assert s == h + rest;
      assert s[|h|..] == rest[0..];
      ScanSuffix(s, |h|, rest, 0);
      assert [p[0]] + q == p;
      match p[0]
      case Lit(c) =>
        if !Special(c) && c == '0' && rest != [] {
          assert rest[0] != '*' by {
            if q[0].Lit? { assert Expressible(q[0].c); }
          }
        }
      case ZeroStar =>
        assert q[0].Lit? && q[0].c != '0';
        assert rest == Token(q[0]) + Render(q[1..]);
        assert s[2] == rest[0] != '0';
    }
  }

  /** Round trip: whatever Parse accepts, its canonical rendering parses to the same atoms. */
  lemma ParseRender(s: string)
    requires Parse(s).Some?
    ensures Parse(Render(Parse(s).value)) == Parse(s)
  {
    ScanFacts(s, 0);
    RenderParse(Parse(s).value);
  }

  /** Round trip: well-formed atoms with expressible literals survive Render then Parse. */
  lemma RenderParse(p: seq<Atom>)
    requires WellFormed(p)
    requires forall j :: 0 <= j < |p| && p[j].Lit? ==> Expressible(p[j].c)
    ensures Parse(Render(p)) == Some(p)
  {
    ScanRender(p);
    assert Render(p) == Token(p[0]) + Render(p[1..]);
  }

  // ---------------------------------------------------------------------
  // Matching. Positions are indices into the subject string `s`; a match
  // of the atoms p[j..] starting at position i is described by the
  // position where it stops.
  // ---------------------------------------------------------------------

  /** The characters `s[i..k]` are all the digit '0'. */
  ghost predicate Zeros(s: string, i: nat, k: nat)
    requires i <= k <= |s|
  {
    forall m :: i <= m < k ==> s[m] == '0'
  }

  /**
   * Reference semantics, as a regular expression reads: the atoms `p[j..]`
   * match exactly the characters `s[i..e]`, caselessly.
   */
  ghost predicate Matches(p: seq<Atom>, j: nat, s: string, i: nat, e: nat)
    requires j <= |p| && i <= e <= |s|
    decreases |p| - j
  {
    if j == |p| then i == e
    else if p[j].Lit? then i < e && Fold(s[i]) == Fold(p[j].c) && Matches(p, j + 1, s, i + 1, e)
    else exists k :: i <= k <= e && Zeros(s, i, k) && Matches(p, j + 1, s, k, e)
  }

  /** Where the run of '0' digits starting at position i stops. */
  function ZeroEnd(s: string, i: nat): (k: nat)
    requires i <= |s|
    ensures i <= k <= |s| && Zeros(s, i, k)
    ensures k < |s| ==> s[k] != '0'
    decreases |s| - i
  {
    if i < |s| && s[i] == '0' then ZeroEnd(s, i + 1) else i
  }

  /** A run of zeros that stops before a non-zero digit is the one ZeroEnd finds. */
  lemma {:induction false} ZeroEndAt(s: string, i: nat, k: nat)
    requires i <= k < |s| && Zeros(s, i, k) && s[k] != '0'
    ensures ZeroEnd(s, i) == k
    decreases k - i
  {
    if i < k { ZeroEndAt(s, i + 1, k); }
  }

  /**
   * The matcher: the atoms `p[j..]` tried at position i, each `0*` taking
   * every '0' it can. Returns where the match stops, or None.
   */
  function MatchEnd(p: seq<Atom>, j: nat, s: string, i: nat): (r: Option<nat>)
    requires j <= |p| && i <= |s|
    ensures r.Some? ==> i <= r.value <= |s| && (HasLitFrom(p, j) ==> i < r.value)
    decreases |p| - j
  {
    if j == |p| then Some(i)
    else if p[j].Lit? then
      if i < |s| && Fold(s[i]) == Fold(p[j].c) then MatchEnd(p, j + 1, s, i + 1) else None
    else MatchEnd(p, j + 1, s, ZeroEnd(s, i))
  }

  /** What the matcher finds is a match. */
  lemma {:induction false} MatchEndSound(p: seq<Atom>, j: nat, s: string, i: nat)
    requires j <= |p| && i <= |s| && MatchEnd(p, j, s, i).Some?
    ensures Matches(p, j, s, i, MatchEnd(p, j, s, i).value)
    decreases |p| - j
  {
    if j < |p| {
      if p[j].Lit? {
        MatchEndSound(p, j + 1, s, i + 1);
      } else {
        var k := ZeroEnd(s, i);
        MatchEndSound(p, j + 1, s, k);
      }
    }
  }

  /** Without backtracking, every match is the one the matcher finds. */
  lemma {:induction false} MatchEndComplete(p: seq<Atom>, j: nat, s: string, i: nat, e: nat)
    requires j <= |p| && i <= e <= |s| && NoBacktrack(p)
    ensures Matches(p, j, s, i, e) ==> MatchEnd(p, j, s, i) == Some(e)
    decreases |p| - j
  {
    if j < |p| && Matches(p, j, s, i, e) {
      if p[j].Lit? {
        MatchEndComplete(p, j + 1, s, i + 1, e);
      } else {
        var k :| i <= k <= e && Zeros(s, i, k) && Matches(p, j + 1, s, k, e);
        assert k < e && Fold(s[k]) == Fold(p[j + 1].c);
        ZeroEndAt(s, i, k);
        MatchEndComplete(p, j + 1, s, k, e);
      }
    }
  }

  /** The matcher is exact for patterns that need no backtracking. */
  lemma MatchEndIff(p: seq<Atom>, s: string, i: nat, e: nat)
    requires NoBacktrack(p) && i <= e <= |s|
    ensures MatchEnd(p, 0, s, i) == Some(e) <==> Matches(p, 0, s, i, e)
  {
    MatchEndComplete(p, 0, s, i, e);
    if MatchEnd(p, 0, s, i) == Some(e) { MatchEndSound(p, 0, s, i); }
  }

  /**
   * Where a match of the matcher starts and stops: positions `at` and `stop`
   * of the subject, so that it covers `s[at..stop]`.
   */
  datatype Hit = Hit(at: nat, stop: nat)

  /**
   * The scan of preg_match and of each round of preg_replace: the leftmost
   * position at or after i where the pattern matches, with where that match stops.
   */
  function FirstMatch(p: seq<Atom>, s: string, i: nat): (h: Option<Hit>)
    requires i <= |s|
    ensures h.Some? ==> i <= h.value.at <= |s| && MatchEnd(p, 0, s, h.value.at) == Some(h.value.stop)
    decreases |s| - i
  {
    var m := MatchEnd(p, 0, s, i);
    if m.Some? then Some(Hit(i, m.value))
    else if i == |s| then None
    else FirstMatch(p, s, i + 1)
  }

  /** No match is found before the first one. */
  lemma {:induction false} FirstMatchNoneBefore(p: seq<Atom>, s: string, i: nat, k: nat)
    requires i <= k <= |s|
    requires FirstMatch(p, s, i).None? || k < FirstMatch(p, s, i).value.at
    ensures MatchEnd(p, 0, s, k).None?
    decreases k - i
  {
    if i < k { FirstMatchNoneBefore(p, s, i + 1, k); }
  }

  /** Wherever the matcher succeeds, the scan finds a match there or earlier. */
  lemma {:induction false} FirstMatchFinds(p: seq<Atom>, s: string, i: nat, k: nat)
    requires i <= k <= |s| && MatchEnd(p, 0, s, k).Some?
    ensures FirstMatch(p, s, i).Some? && FirstMatch(p, s, i).value.at <= k
    decreases k - i
  {
    if i < k && MatchEnd(p, 0, s, i).None? { FirstMatchFinds(p, s, i + 1, k); }
  }

  /** The scan's result, stated by the reference semantics: the leftmost match. */
  ghost predicate Leftmost(p: seq<Atom>, s: string, i: nat, a: nat, e: nat)
    requires i <= |s|
  {
    i <= a <= e <= |s| && Matches(p, 0, s, a, e) &&
    forall a', e' :: i <= a' < a && a' <= e' <= |s| ==> !Matches(p, 0, s, a', e')
  }

  /** The hit is the leftmost match, and its end is the only end a match at that start can have. */
  lemma FirstMatchIsLeftmost(p: seq<Atom>, s: string, i: nat)
    requires NoBacktrack(p) && i <= |s| && FirstMatch(p, s, i).Some?
    ensures Leftmost(p, s, i, FirstMatch(p, s, i).value.at, FirstMatch(p, s, i).value.stop)
    ensures forall e' :: FirstMatch(p, s, i).value.at <= e' <= |s| && Matches(p, 0, s, FirstMatch(p, s, i).value.at, e') ==>
      e' == FirstMatch(p, s, i).value.stop
  {
    var h := FirstMatch(p, s, i).value;
    MatchEndSound(p, 0, s, h.at);
    forall e' | h.at <= e' <= |s| && Matches(p, 0, s, h.at, e')
      ensures e' == h.stop
    {
      MatchEndComplete(p, 0, s, h.at, e');
    }
    forall a', e' | i <= a' < h.at && a' <= e' <= |s|
      ensures !Matches(p, 0, s, a', e')
    {
      FirstMatchNoneBefore(p, s, i, a');
      MatchEndComplete(p, 0, s, a', e');
    }
  }

  lemma LeftmostIsFirstMatch(p: seq<Atom>, s: string, i: nat, a: nat, e: nat)
    requires NoBacktrack(p) && i <= |s| && Leftmost(p, s, i, a, e)
    ensures FirstMatch(p, s, i) == Some(Hit(a, e))
  {
    MatchEndComplete(p, 0, s, a, e);
    FirstMatchFinds(p, s, i, a);
    var h := FirstMatch(p, s, i).value;
    MatchEndSound(p, 0, s, h.at);
    assert !(h.at < a);
  }

  /** The scan finds exactly the leftmost match the reference semantics admits. */
  lemma FirstMatchIff(p: seq<Atom>, s: string, i: nat, a: nat, e: nat)
    requires NoBacktrack(p) && i <= |s|
    ensures FirstMatch(p, s, i) == Some(Hit(a, e)) <==> Leftmost(p, s, i, a, e)
  {
    if FirstMatch(p, s, i) == Some(Hit(a, e)) { FirstMatchIsLeftmost(p, s, i); }
    if Leftmost(p, s, i, a, e) { LeftmostIsFirstMatch(p, s, i, a, e); }
  }

  /** preg_match: whether the pattern matches anywhere in the subject. */
  predicate Search(p: seq<Atom>, s: string) {
    FirstMatch(p, s, 0).Some?
  }

  /** Some substring of `s` is in the pattern's language. */
  ghost predicate Occurs(p: seq<Atom>, s: string) {
    exists i, e :: 0 <= i <= e <= |s| && Matches(p, 0, s, i, e)
  }

  lemma SearchIff(p: seq<Atom>, s: string)
    requires NoBacktrack(p)
    ensures Search(p, s) <==> Occurs(p, s)
  {
    if Search(p, s) {
      var h := FirstMatch(p, s, 0).value;
      MatchEndSound(p, 0, s, h.at);
    }
    if Occurs(p, s) {
      var i, e :| 0 <= i <= e <= |s| && Matches(p, 0, s, i, e);
      MatchEndComplete(p, 0, s, i, e);
      FirstMatchFinds(p, s, 0, i);
    }
  }

  /** A match of `p[j..]` carries over to any string that holds the same characters, shifted by d. */
  lemma {:induction false} MatchesShift(p: seq<Atom>, j: nat, s: string, i: nat, e: nat, t: string, d: nat)
    requires j <= |p| && i <= e <= |s| && e + d <= |t|
    requires forall m :: i <= m < e ==> t[m + d] == s[m]
    requires Matches(p, j, s, i, e)
    ensures Matches(p, j, t, i + d, e + d)
    decreases |p| - j
  {
    if j < |p| {
      if p[j].Lit? {
        MatchesShift(p, j + 1, s, i + 1, e, t, d);
      } else {
        var k :| i <= k <= e && Zeros(s, i, k) && Matches(p, j + 1, s, k, e);
        MatchesShift(p, j + 1, s, k, e, t, d);
        forall m | i + d <= m < k + d
          ensures t[m] == '0'
        {
          assert t[(m - d) + d] == s[m - d];
        }
        assert Zeros(t, i + d, k + d);
      }
    }
  }

  /** A pattern found in a string is found in any string that contains it. */
  lemma SearchMonotone(p: seq<Atom>, s: string, a: string, b: string)
    requires NoBacktrack(p) && Search(p, s)
    ensures Search(p, a + s + b)
  {
    SearchIff(p, s);
    var i, e :| 0 <= i <= e <= |s| && Matches(p, 0, s, i, e);
    var t := a + s + b;
    MatchesShift(p, 0, s, i, e, t, |a|);
    SearchIff(p, t);
  }

  /** A match of a pattern gives a match of any non-empty prefix of it, at the same place. */
  lemma {:induction false} MatchEndPrefix(p: seq<Atom>, q: seq<Atom>, j: nat, s: string, i: nat)
    requires j <= |q| <= |p| && q == p[..|q|] && i <= |s| && MatchEnd(p, j, s, i).Some?
    ensures MatchEnd(q, j, s, i).Some?
    decreases |q| - j
  {
    if j < |q| {
      assert q[j] == p[j];
      if p[j].Lit? {
        MatchEndPrefix(p, q, j + 1, s, i + 1);
      } else {
        MatchEndPrefix(p, q, j + 1, s, ZeroEnd(s, i));
      }
    }
  }

  /** Wherever a pattern is found, every prefix of it is found too. */
  lemma SearchPrefix(p: seq<Atom>, q: seq<Atom>, s: string)
    requires |q| <= |p| && q == p[..|q|] && Search(p, s)
    ensures Search(q, s)
  {
    var h := FirstMatch(p, s, 0).value;
    MatchEndPrefix(p, q, 0, s, h.at);
    FirstMatchFinds(q, s, 0, h.at);
  }

  /** A pattern that starts with a literal is found only where that character occurs, in either case. */
  lemma SearchNeedsLead(p: seq<Atom>, s: string)
    requires p != [] && p[0].Lit?
    ensures Search(p, s) ==> exists i :: 0 <= i < |s| && Fold(s[i]) == Fold(p[0].c)
  {
    if Search(p, s) {
      var h := FirstMatch(p, s, 0).value;
      assert h.at < |s| && Fold(s[h.at]) == Fold(p[0].c);
    }
  }

  /** A one-literal pattern is found wherever its character occurs. */
  lemma SearchLit(c: char, s: string, i: nat)
    requires i < |s| && s[i] == c
    ensures Search([Lit(c)], s)
  {
    assert MatchEnd([Lit(c)], 0, s, i) == Some(i + 1);
    FirstMatchFinds([Lit(c)], s, 0, i);
  }

  // ---------------------------------------------------------------------
  // The replacement string of preg_replace. `\n`, `$n` and `${n}`, with n
  // one or two digits, stand for capture group n; `\\` stands for `\`
  // and `\$` for `$`; every other character is copied. Group 0 is the whole
  // match; the patterns here have no capture groups, so every other group
  // is empty.
  // ---------------------------------------------------------------------

  /** A piece of a replacement: a character to copy, or a reference to a group. */
  datatype Piece = Text(c: char) | Group(n: nat)

  /** A group reference at the start of a replacement: its group number and its length. */
  datatype Ref = Ref(group: nat, len: nat)

  predicate IsDigit(c: char) {
    '0' <= c <= '9'
  }

  function Digit(c: char): (d: nat)
    requires IsDigit(c)
    ensures d < 10 && d == c as int - '0' as int
  {
    c as int - '0' as int
  }

  /** The group reference `r` starts with, if any: `\` or `$`, then one or two digits, braced after `${`. */
  function GroupRef(r: string): (b: Option<Ref>)
    ensures b.Some? ==> 2 <= b.value.len <= |r| && (r[0] == '\\' || r[0] == '$') && b.value.group < 100
    ensures b.Some? ==> IsDigit(r[b.value.len - 1]) || (r[0] == '$' && r[1] == '{' && r[b.value.len - 1] == '}')
    ensures |r| >= 2 && (r[0] == '\\' || r[0] == '$') && IsDigit(r[1]) ==> b.Some?
    ensures |r| >= 1 && r[0] != '\\' && r[0] != '$' ==> b.None?
  {
    if |r| < 2 || (r[0] != '\\' && r[0] != '$') then None
    else
      var brace := r[0] == '$' && r[1] == '{';
      var j := if brace then 2 else 1;
      if j >= |r| || !IsDigit(r[j]) then None
      else
        var two := j + 1 < |r| && IsDigit(r[j + 1]);
        var n := if two then 10 * Digit(r[j]) + Digit(r[j + 1]) else Digit(r[j]);
        var k := if two then j + 2 else j + 1;
        if !brace then Some(Ref(n, k))
        else if k < |r| && r[k] == '}' then Some(Ref(n, k + 1))
        else None
  }

  /** An escaped `\` or `$`: a backslash followed by one of them. */
  predicate EscapedAt(r: string) {
    |r| >= 2 && r[0] == '\\' && (r[1] == '\\' || r[1] == '$')
  }

  /** The replacement read left to right, as preg_replace reads it. */
  function Template(r: string): (ps: seq<Piece>)
    ensures forall j :: 0 <= j < |ps| && ps[j].Text? ==> ps[j].c in r
    ensures |ps| <= |r|
    decreases |r|
  {
    if r == [] then []
    else match GroupRef(r)
      case Some(b) => [Group(b.group)] + Template(r[b.len..])
      case None =>
        if EscapedAt(r) then [Text(r[1])] + Template(r[2..]) else [Text(r[0])] + Template(r[1..])
  }

  /** The pieces with the match put in: group 0 is the whole match, any other group is empty. */
  function Fill(ps: seq<Piece>, m: string): string {
    if ps == [] then []
    else (match ps[0] case Text(c) => [c] case Group(n) => if n == 0 then m else []) + Fill(ps[1..], m)
  }

  /** What preg_replace puts in place of a match `m`. */
  function Expand(r: string, m: string): string {
    Fill(Template(r), m)
  }

  /** Whether the replacement puts the matched text back. */
  predicate RefersToMatch(r: string) {
    Group(0) in Template(r)
  }

  lemma {:induction false} FillChars(ps: seq<Piece>, m: string, x: char)
    ensures x in Fill(ps, m) ==> Text(x) in ps || (Group(0) in ps && x in m)
    decreases |ps|
  {
    if ps != [] {
      FillChars(ps[1..], m, x);
    }
  }

  /** Every character of the expansion is copied from the replacement or, when it refers to it, from the match. */
  lemma ExpandChars(r: string, m: string, x: char)
    ensures x in Expand(r, m) ==> x in r || (RefersToMatch(r) && x in m)
  {
    var ps := Template(r);
    FillChars(ps, m, x);
    if Text(x) in ps {
      var j :| 0 <= j < |ps| && ps[j] == Text(x);
    }
  }

  /** A replacement without `\` and `$` is inserted as it is and never refers to the match. */
  lemma {:induction false} ExpandLiteral(r: string, m: string)
    requires '\\' !in r && '$' !in r
    ensures Expand(r, m) == r && !RefersToMatch(r)
    decreases |r|
  {
    if r != [] {
      assert r[0] in r;
      assert GroupRef(r).None? && !EscapedAt(r);
      assert Template(r) == [Text(r[0])] + Template(r[1..]);
      forall y | y in r[1..] ensures y in r { }
      ExpandLiteral(r[1..], m);
    }
  }

  // ---------------------------------------------------------------------
  // preg_replace: every leftmost, non-overlapping match, scanning on from
  // where the previous one stopped, is replaced by the expansion of `r`.
  // ---------------------------------------------------------------------

  /** The result of replacing from position i on. */
  function ReplaceFrom(p: seq<Atom>, s: string, r: string, i: nat): string
    requires HasLitFrom(p, 0) && i <= |s|
    decreases |s| - i
  {
    var h := FirstMatch(p, s, i);
    if h.None? then s[i..]
    else s[i..h.value.at] + Expand(r, s[h.value.at..h.value.stop]) + ReplaceFrom(p, s, r, h.value.stop)
  }

  function ReplaceAll(p: seq<Atom>, s: string, r: string): string
    requires HasLitFrom(p, 0)
  {
    ReplaceFrom(p, s, r, 0)
  }

  /** ReplaceFrom by the reference semantics: the leftmost match is replaced, then the rest. */
  lemma ReplaceFromLeftmost(p: seq<Atom>, s: string, r: string, i: nat, a: nat, e: nat)
    requires WellFormed(p) && i <= |s| && Leftmost(p, s, i, a, e)
    ensures ReplaceFrom(p, s, r, i) == s[i..a] + Expand(r, s[a..e]) + ReplaceFrom(p, s, r, e)
  {
    LeftmostIsFirstMatch(p, s, i, a, e);
  }

  /** ReplaceFrom by the reference semantics: with no match left, the rest is kept. */
  lemma ReplaceFromNone(p: seq<Atom>, s: string, r: string, i: nat)
    requires WellFormed(p) && i <= |s|
    requires forall a, e :: i <= a <= e <= |s| ==> !Matches(p, 0, s, a, e)
    ensures ReplaceFrom(p, s, r, i) == s[i..]
  {
    if FirstMatch(p, s, i).Some? {
      var h := FirstMatch(p, s, i).value;
      MatchEndSound(p, 0, s, h.at);
      assert false;
    }
  }

  lemma SliceSplit(s: string, i: nat, a: nat, e: nat)
    requires i <= a <= e <= |s|
    ensures s[i..a] + s[a..e] + s[e..] == s[i..]
  {
  }

  /** Deleting matches only deletes characters. */
  lemma {:induction false} ReplaceFromDeletes(p: seq<Atom>, s: string, i: nat)
    requires HasLitFrom(p, 0) && i <= |s|
    ensures Subseq(ReplaceFrom(p, s, "", i), s[i..])
    decreases |s| - i
  {
    var h := FirstMatch(p, s, i);
    if h.None? {
      SubseqRefl(s[i..]);
    } else {
      var a, e := h.value.at, h.value.stop;
      ReplaceFromDeletes(p, s, e);
      var rest := ReplaceFrom(p, s, "", e);
      SubseqSplice(s[i..a], s[a..e], rest, s[e..]);
      SliceSplit(s, i, a, e);
      assert ReplaceFrom(p, s, "", i) == s[i..a] + "" + rest;
      assert s[i..a] + "" + rest == s[i..a] + rest;
    }
  }

  lemma ReplaceAllDeletes(p: seq<Atom>, s: string)
    requires HasLitFrom(p, 0)
    ensures Subseq(ReplaceAll(p, s, ""), s)
  {
    ReplaceFromDeletes(p, s, 0);
    assert s[0..] == s;
  }

  /** Deleting the matches of a pattern that matches makes the string strictly shorter. */
  lemma ReplaceAllShrinks(p: seq<Atom>, s: string)
    requires HasLitFrom(p, 0) && Search(p, s)
    ensures |ReplaceAll(p, s, "")| < |s|
  {
    var h := FirstMatch(p, s, 0).value;
    ReplaceFromDeletes(p, s, h.stop);
    SubseqLength(ReplaceFrom(p, s, "", h.stop), s[h.stop..]);
    assert ReplaceAll(p, s, "") == s[..h.at] + ReplaceFrom(p, s, "", h.stop);
  }

  /** Deleting matches leaves the string as it was exactly when nothing matches. */
  lemma ReplaceAllIdentity(p: seq<Atom>, s: string)
    requires HasLitFrom(p, 0)
    ensures ReplaceAll(p, s, "") == s <==> !Search(p, s)
  {
    assert s[0..] == s;
    if Search(p, s) { ReplaceAllShrinks(p, s); }
  }

  /** Every character of the result comes from the subject or from the replacement. */
  lemma {:induction false} ReplaceFromChars(p: seq<Atom>, s: string, r: string, i: nat, x: char)
    requires HasLitFrom(p, 0) && i <= |s|
    ensures x in ReplaceFrom(p, s, r, i) ==> x in s[i..] || x in r
    decreases |s| - i
  {
    var h := FirstMatch(p, s, i);
    if h.Some? {
      var a, e := h.value.at, h.value.stop;
      ReplaceFromChars(p, s, r, e, x);
      ExpandChars(r, s[a..e], x);
      SliceSplit(s, i, a, e);
    }
  }

  lemma ReplaceAllChars(p: seq<Atom>, s: string, r: string, x: char)
    requires HasLitFrom(p, 0)
    ensures x in ReplaceAll(p, s, r) ==> x in s || x in r
  {
    ReplaceFromChars(p, s, r, 0, x);
    assert s[0..] == s;
  }

  /**
   * Replacing a single literal: afterwards that character survives (in
   * either case) only where the replacement brings it, or puts the match back.
   */
  lemma {:induction false} ReplaceFromClearsChar(c: char, s: string, r: string, i: nat, x: char)
    requires i <= |s| && Fold(x) == Fold(c)
    ensures x in ReplaceFrom([Lit(c)], s, r, i) ==> x in r || (RefersToMatch(r) && x in s[i..])
    decreases |s| - i
  {
    var p := [Lit(c)];
    var h := FirstMatch(p, s, i);
    var a := if h.None? then |s| else h.value.at;
    forall k | i <= k < a
      ensures s[k] != x
    {
      FirstMatchNoneBefore(p, s, i, k);
    }
    if h.Some? {
      var e := h.value.stop;
      ReplaceFromClearsChar(c, s, r, e, x);
      ExpandChars(r, s[a..e], x);
      SliceSplit(s, i, a, e);
    }
  }

  lemma ReplaceAllClearsChar(c: char, s: string, r: string, x: char)
    requires Fold(x) == Fold(c)
    ensures x in ReplaceAll([Lit(c)], s, r) ==> x in r || (RefersToMatch(r) && x in s)
  {
    ReplaceFromClearsChar(c, s, r, 0, x);
    assert s[0..] == s;
  }
}
