/**
 * The quote record and the two read-only views the page builds from the quote list:
 * the category list behind the category drop-down, and the quotes of one category
 * from which a random one is shown.
 */
module Quotes {
  import opened Text

  /** A quote. Two quotes are the same record exactly when both fields are equal. */
  datatype Quote = Quote(text: string, category: string)

  /** The invariant manual entry establishes: both fields non-empty and trimmed. */
  predicate WellFormed(q: Quote) {
    q.text != [] && IsTrimmed(q.text) && q.category != [] && IsTrimmed(q.category)
  }

  predicate AllWellFormed(qs: seq<Quote>) {
    forall i :: 0 <= i < |qs| ==> WellFormed(qs[i])
  }

  predicate NoDuplicates<T(==)>(s: seq<T>) {
    forall i, j :: 0 <= i < j < |s| ==> s[i] != s[j]
  }

  /** Some quote of `qs` is filed under `c`. */
  predicate HasCategory(qs: seq<Quote>, c: string) {
    exists i :: 0 <= i < |qs| && qs[i].category == c
  }

  // ---------------------------------------------------------------------------
  // Category list: the categories of the quotes passed through a Set, so each
  // appears once, in the order in which it first occurs.

  /**
   * The distinct categories of `qs` in order of first occurrence. Built as a Set
   * is: the categories of all but the last quote, then the last quote's category
   * unless it is already there.
   */
  function Categories(qs: seq<Quote>): (cats: seq<string>)
    ensures NoDuplicates(cats)
    ensures forall c :: c in cats <==> HasCategory(qs, c)
  {
    if qs == [] then []
    else
      var prefix := qs[..|qs| - 1];
      var c := qs[|qs| - 1].category;
      var before := Categories(prefix);
      assert forall d :: HasCategory(prefix, d) ==> HasCategory(qs, d) by {
        forall d | HasCategory(prefix, d) ensures HasCategory(qs, d) {
          var i :| 0 <= i < |prefix| && prefix[i].category == d;
          assert qs[i].category == d;
        }
      }
      assert forall d :: HasCategory(qs, d) ==> d == c || HasCategory(prefix, d) by {
        forall d | HasCategory(qs, d) && d != c ensures HasCategory(prefix, d) {
          var i :| 0 <= i < |qs| && qs[i].category == d;
          assert prefix[i].category == d;
        }
      }
      if c in before then before else before + [c]
  }

  /** The index of the first quote of `qs` filed under `c`. */
  function FirstIndex(qs: seq<Quote>, c: string): (i: nat)
    requires HasCategory(qs, c)
    ensures i < |qs| && qs[i].category == c
    ensures forall j :: 0 <= j < i ==> qs[j].category != c
  {
    var prefix := qs[..|qs| - 1];
    if HasCategory(prefix, c) then
      var i := FirstIndex(prefix, c);
      assert forall j :: 0 <= j < i ==> qs[j] == prefix[j];
      i
    else
      assert forall j :: 0 <= j < |qs| - 1 ==> qs[j] == prefix[j];
      |qs| - 1
  }

  /** A category of a prefix first occurs at the same place in the whole list. */
  lemma {:induction false} FirstIndexOfPrefix(qs: seq<Quote>, n: nat, c: string)
    requires n <= |qs| && HasCategory(qs[..n], c)
    ensures HasCategory(qs, c) && FirstIndex(qs, c) == FirstIndex(qs[..n], c)
  {
  }

  /** The category list is in order of first occurrence: earlier entries first occur earlier. */
  lemma {:induction false} CategoriesInFirstOccurrenceOrder(qs: seq<Quote>)
    ensures forall i, j :: 0 <= i < j < |Categories(qs)| ==>
      FirstIndex(qs, Categories(qs)[i]) < FirstIndex(qs, Categories(qs)[j])
  {
    if qs != [] {
      var n := |qs| - 1;
      var prefix := qs[..n];
      var before := Categories(prefix);
      var c := qs[n].category;
      CategoriesInFirstOccurrenceOrder(prefix);
      var cats := Categories(qs);
      assert cats == if c in before then before else before + [c];
      forall i | 0 <= i < |before|
        ensures FirstIndex(qs, before[i]) == FirstIndex(prefix, before[i]) < n
      {
        assert before[i] in before;
        FirstIndexOfPrefix(qs, n, before[i]);
      }
      if c !in before {
        assert !HasCategory(prefix, c);
        assert FirstIndex(qs, c) == n;
      }
      forall i, j | 0 <= i < j < |cats|
        ensures FirstIndex(qs, cats[i]) < FirstIndex(qs, cats[j])
      {
        if j < |before| {
          assert cats[i] == before[i] && cats[j] == before[j];
        } else {
          assert cats[i] == before[i] && cats[j] == c;
        }
      }
    }
  }

  /** A worked case: repeated categories appear once, first one first. */
  lemma CategoriesExample()
    ensures Categories([Quote("a", "Motivation"), Quote("b", "Life"), Quote("c", "Motivation")])
         == ["Motivation", "Life"]
  {
    var one := [Quote("a", "Motivation")];
    assert one[..0] == [];
    assert Categories(one) == ["Motivation"];
    var two := one + [Quote("b", "Life")];
    assert two[..1] == one;
    assert Categories(two) == ["Motivation", "Life"];
    var qs := two + [Quote("c", "Motivation")];
    assert qs[..2] == two;
  }

  // ---------------------------------------------------------------------------
  // Category filter: the quotes whose category equals the selected one.

  /** The quotes of `qs` filed under exactly `c`, in their original order. */
  function FilterByCategory(qs: seq<Quote>, c: string): (r: seq<Quote>)
    ensures |r| <= |qs|
    ensures forall q :: q in r <==> q in qs && q.category == c
  {
    if qs == [] then []
    else (if qs[0].category == c then [qs[0]] else []) + FilterByCategory(qs[1..], c)
  }

  /** Filtering keeps order: the filter of a concatenation is the concatenation of the filters. */
  lemma {:induction false} FilterAppend(a: seq<Quote>, b: seq<Quote>, c: string)
    ensures FilterByCategory(a + b, c) == FilterByCategory(a, c) + FilterByCategory(b, c)
  {
    if a != [] {
      assert (a + b)[1..] == a[1..] + b;
      FilterAppend(a[1..], b, c);
    } else {
      assert a + b == b;
    }
  }

  /** Filtering keeps every copy of a matching quote and no copy of any other. */
  lemma {:induction false} FilterMultiplicity(qs: seq<Quote>, c: string, q: Quote)
    ensures multiset(FilterByCategory(qs, c))[q] == if q.category == c then multiset(qs)[q] else 0
  {
    if qs != [] {
      var rest := qs[1..];
      var head := if qs[0].category == c then [qs[0]] else [];
      assert FilterByCategory(qs, c) == head + FilterByCategory(rest, c);
      assert multiset(qs) == multiset([qs[0]]) + multiset(rest) by {
        assert qs == [qs[0]] + rest;
      }
      FilterMultiplicity(rest, c, q);
    }
  }

  /** A quote just appended is listed under its category, after the ones already there. */
  lemma {:induction false} AppendedQuoteIsListed(qs: seq<Quote>, q: Quote)
    ensures q.category in Categories(qs + [q])
    ensures FilterByCategory(qs + [q], q.category) == FilterByCategory(qs, q.category) + [q]
  {
    FilterAppend(qs, [q], q.category);
    assert [q][1..] == [];
    assert (qs + [q])[|qs|].category == q.category;
  }

  /** The filter is empty exactly when the category is not among the listed ones. */
  lemma FilterEmptyIffNotListed(qs: seq<Quote>, c: string)
    ensures FilterByCategory(qs, c) == [] <==> c !in Categories(qs)
  {
    var r := FilterByCategory(qs, c);
    if HasCategory(qs, c) {
      var i :| 0 <= i < |qs| && qs[i].category == c;
      assert qs[i] in r;
    }
    if r != [] {
      assert r[0] in qs;
    }
  }
}
