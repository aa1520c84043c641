/**
 * The PHP built-ins that both versions of XssUrl lean on, modelled on strings:
 * string truthiness (`if ($url)`), `strpos` and `array_diff` on lists of strings.
 */
module Php {
  import opened Wrappers
  import opened Subsequence

  /** A PHP string is falsy exactly when it is '' or '0'. */
  predicate Truthy(s: string) {
    s != "" && s != "0"
  }

  /** A true string stays true with anything put around it. */
  lemma TruthyWithin(s: string, a: string, b: string)
    requires Truthy(s)
    ensures Truthy(a + s + b)
  {
    if |a| + |b| == 0 {
      assert a + s + b == s;
    }
  }

  /** `needle` occurs in `hay` starting at index `i`. */
  ghost predicate OccursAt(hay: string, needle: string, i: int) {
    0 <= i && i + |needle| <= |hay| && hay[i..i + |needle|] == needle
  }

  /** `needle` is a substring of `hay`. */
  ghost predicate IsSubstring(needle: string, hay: string) {
    exists i :: OccursAt(hay, needle, i)
  }

  /**
   * `strpos($hay, $needle)`: the first index at which `needle` occurs, or
   * None where PHP returns false.
   */
  function StrPos(hay: string, needle: string): (r: Option<nat>)
    ensures r.Some? ==> OccursAt(hay, needle, r.value)
    ensures r.Some? ==> forall j :: 0 <= j < r.value ==> !OccursAt(hay, needle, j)
    ensures r.None? <==> !IsSubstring(needle, hay)
    decreases |hay|
  {
    if |needle| > |hay| then None
    else if hay[..|needle|] == needle then Some(0)
    else
      match StrPos(hay[1..], needle)
      case Some(i) =>
        assert forall j :: 1 <= j ==> OccursAt(hay, needle, j) == OccursAt(hay[1..], needle, j - 1);
        Some(i + 1)
      case None =>
        assert forall j :: 1 <= j ==> OccursAt(hay, needle, j) == OccursAt(hay[1..], needle, j - 1);
        None
  }

  /** A needle whose first character is not in the haystack is not found. */
  lemma StrPosLeadAbsent(hay: string, needle: string)
    requires needle != [] && needle[0] !in hay
    ensures StrPos(hay, needle).None?
  {
  }

  /** Against a haystack of its own length, a needle is found exactly when the two are equal. */
  lemma StrPosSameLength(hay: string, needle: string)
    requires |hay| == |needle|
    ensures StrPos(hay, needle).Some? <==> hay == needle
  {
    assert hay[..|needle|] == hay;
  }

  /**
   * `array_diff($list, $remove)` on a list of strings: the entries of `list`
   * that are equal to no element of `remove`, in their original order.
   */
  function ArrayDiff<T(==)>(list: seq<T>, remove: seq<T>): (r: seq<T>)
    decreases |list|
  {
    if list == [] then []
    else (if list[0] in remove then [] else [list[0]]) + ArrayDiff(list[1..], remove)
  }

  /** array_diff keeps the survivors in order ... */
  lemma {:induction false} ArrayDiffOrder<T>(list: seq<T>, remove: seq<T>)
    ensures Subseq(ArrayDiff(list, remove), list)
    decreases |list|
  {
    if list != [] {
      ArrayDiffOrder(list[1..], remove);
      var rest := ArrayDiff(list[1..], remove);
      if list[0] in remove {
        SubseqPrepend(rest, [list[0]], list[1..]);
        assert [list[0]] + list[1..] == list;
        assert ArrayDiff(list, remove) == rest;
      } else {
        assert ArrayDiff(list, remove) == [list[0]] + rest;
      }
    }
  }

  /** ... and drops every copy of a removed value while keeping every copy of the others. */
  lemma {:induction false} ArrayDiffCount<T>(list: seq<T>, remove: seq<T>, x: T)
    ensures multiset(ArrayDiff(list, remove))[x] == if x in remove then 0 else multiset(list)[x]
    decreases |list|
  {
    if list != [] {
      ArrayDiffCount(list[1..], remove, x);
      assert list == [list[0]] + list[1..];
      assert multiset(list) == multiset([list[0]]) + multiset(list[1..]);
    }
  }
}
