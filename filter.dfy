/**
 * The table search filter (filter.js): filterRows shows exactly the rows
 * whose lower-cased text contains the term, and the input stream is
 * lower-cased and stripped of immediate repeats before it reaches filterRows.
 */
module Filter {
  import opened Wrappers
  import opened JsString
  import opened Sequences

  /** A table body row: its text content, and whether it is shown (`display` is '' rather than 'none'). */
  datatype Row = Row(text: string, visible: bool)

  /** The visibility rule of filterRows. */
  function IsShown(text: string, term: string): (shown: bool)
    ensures term == "" ==> shown
    ensures shown ==> |term| <= |text|
  {
    Includes(ToLower(text), term)
  }

  /** The rows as filterRows(term) leaves them. */
  function Filtered(rows: seq<Row>, term: string): (r: seq<Row>)
    ensures |r| == |rows|
    ensures forall i :: 0 <= i < |rows| ==> r[i].text == rows[i].text
  {
    seq(|rows|, i requires 0 <= i < |rows| => Row(rows[i].text, IsShown(rows[i].text, term)))
  }

  /** filterRows: walks the rows and sets each one's display in place. */
  method FilterRows(rows: array<Row>, value: string)
    modifies rows
    ensures rows[..] == Filtered(old(rows[..]), value)
  {
    var i := 0;
    while i < rows.Length
      invariant 0 <= i <= rows.Length
      invariant forall j :: 0 <= j < i ==> rows[j] == Row(old(rows[j]).text, IsShown(old(rows[j]).text, value))
      invariant forall j :: i <= j < rows.Length ==> rows[j] == old(rows[j])
    {
      var text := ToLower(rows[i].text);
      rows[i] := rows[i].(visible := Includes(text, value));
      i := i + 1;
    }
  }

  /** A row is shown exactly when the term is a substring of its lower-cased text. */
  lemma ShownIffSubstring(rows: seq<Row>, term: string, i: nat)
    requires i < |rows|
    ensures Filtered(rows, term)[i].visible <==> exists k: nat :: OccursAt(ToLower(rows[i].text), term, k)
  {
    assert Filtered(rows, term)[i].visible == Includes(ToLower(rows[i].text), term);
    IncludesIsSubstring(ToLower(rows[i].text), term);
  }

  /** The empty term shows every row. */
  lemma EmptyTermShowsAll(rows: seq<Row>)
    ensures forall i :: 0 <= i < |rows| ==> Filtered(rows, "")[i].visible
  {
  }

  /** A term that occurs in no row's lower-cased text hides every row. */
  lemma UnmatchedTermHidesAll(rows: seq<Row>, term: string)
    requires forall i, k: nat :: 0 <= i < |rows| ==> !OccursAt(ToLower(rows[i].text), term, k)
    ensures forall i :: 0 <= i < |rows| ==> !Filtered(rows, term)[i].visible
  {
    forall i | 0 <= i < |rows|
      ensures !Filtered(rows, term)[i].visible
    {
      ShownIffSubstring(rows, term, i);
    }
  }

  /** Each filtering decides every row afresh: only the latest term matters. */
  lemma LatestTermDecides(rows: seq<Row>, first: string, second: string)
    ensures Filtered(Filtered(rows, first), second) == Filtered(rows, second)
  {
  }

  /** Filtering twice with one term is filtering once. */
  lemma FilterIdempotent(rows: seq<Row>, term: string)
    ensures Filtered(Filtered(rows, term), term) == Filtered(rows, term)
  {
    LatestTermDecides(rows, term, term);
  }

  /** Typed inputs that differ only in letter case show the same rows once lower-cased. */
  lemma CaseOfInputIrrelevant(rows: seq<Row>, a: string, b: string)
    requires SameIgnoringCase(a, b)
    ensures Filtered(rows, ToLower(a)) == Filtered(rows, ToLower(b))
  {
    ToLowerIdentifiesCase(a, b);
  }

  lemma LowerWeakMap()
    ensures ToLower("WeakMap") == "weakmap"
  {
  }

  lemma LowerQuery()
    ensures ToLower("WEAKMAP") == "weakmap"
  {
  }

  lemma WeakMapShown()
    ensures IsShown("WeakMap", "weakmap")
  {
    LowerWeakMap();
  }

  lemma ProxyHidden()
    ensures !IsShown("Proxy", "weakmap")
  {
    assert |ToLower("Proxy")| < |"weakmap"|;
  }

  lemma FilterExample()
    ensures Filtered([Row("WeakMap", false), Row("Proxy", true)], "weakmap")
            == [Row("WeakMap", true), Row("Proxy", false)]
  {
    WeakMapShown();
    ProxyHidden();
  }

  /** The search box example: "WEAKMAP" finds the row that mentions WeakMap and hides the other. */
  lemma UpperCaseQueryExample()
    ensures Filtered([Row("WeakMap", false), Row("Proxy", true)], ToLower("WEAKMAP"))
            == [Row("WeakMap", true), Row("Proxy", false)]
  {
    LowerQuery();
    FilterExample();
  }

  // ---------------------------------------------------------------------------
  // The input stream
  // ---------------------------------------------------------------------------

  /**
   * distinctUntilChanged after having emitted `previous` (None before the
   * first value): a value equal to the last one emitted is dropped.
   */
  function DistinctAfter<T(==)>(previous: Option<T>, xs: seq<T>): (r: seq<T>)
    ensures |r| <= |xs|
    decreases |xs|
  {
    if xs == [] then []
    else if previous == Some(xs[0]) then DistinctAfter(previous, xs[1..])
    else [xs[0]] + DistinctAfter(Some(xs[0]), xs[1..])
  }

  /** distinctUntilChanged on a whole stream of values. */
  function DistinctUntilChanged<T(==)>(xs: seq<T>): (r: seq<T>)
    ensures |r| <= |xs|
    ensures r != [] <==> xs != []
  {
    DistinctAfter(None, xs)
  }

  /** No two neighbours are equal. */
  predicate NoAdjacentRepeats<T(==)>(xs: seq<T>) {
    forall i :: 0 < i < |xs| ==> xs[i - 1] != xs[i]
  }

  lemma {:induction false} DistinctAfterShape<T>(previous: Option<T>, xs: seq<T>)
    ensures IsSubsequence(DistinctAfter(previous, xs), xs)
    ensures NoAdjacentRepeats(DistinctAfter(previous, xs))
    ensures DistinctAfter(previous, xs) != [] ==> previous != Some(DistinctAfter(previous, xs)[0])
    ensures xs != [] && previous != Some(xs[0]) ==> DistinctAfter(previous, xs) != [] && DistinctAfter(previous, xs)[0] == xs[0]
    ensures forall x :: x in xs ==> x in DistinctAfter(previous, xs) || previous == Some(x)
    decreases |xs|
  {
    if xs != [] {
      var r := DistinctAfter(previous, xs);
      if previous == Some(xs[0]) {
        DistinctAfterShape(previous, xs[1..]);
        var tail := DistinctAfter(previous, xs[1..]);
        if tail != [] {
          assert tail[0] != xs[0];
        }
      } else {
        DistinctAfterShape(Some(xs[0]), xs[1..]);
        var tail := DistinctAfter(Some(xs[0]), xs[1..]);
        assert r[1..] == tail;
        forall i | 0 < i < |r|
          ensures r[i - 1] != r[i]
        {
          if i > 1 {
            assert r[i - 1] == tail[i - 2] && r[i] == tail[i - 1];
          }
        }
      }
    }
  }

  /**
   * The values distinctUntilChanged passes on come from its input in order,
   * never repeat back to back, start with the first input, and lose no value.
   */
  lemma DistinctUntilChangedShape<T>(xs: seq<T>)
    ensures IsSubsequence(DistinctUntilChanged(xs), xs)
    ensures NoAdjacentRepeats(DistinctUntilChanged(xs))
    ensures xs != [] ==> DistinctUntilChanged(xs) != [] && DistinctUntilChanged(xs)[0] == xs[0]
    ensures forall x :: x in xs <==> x in DistinctUntilChanged(xs)
  {
    DistinctAfterShape(None, xs);
    SubsequenceElements(DistinctUntilChanged(xs), xs);
  }

  lemma {:induction false} DistinctAfterKeepsLast<T>(previous: Option<T>, xs: seq<T>)
    requires xs != []
    requires DistinctAfter(previous, xs) == [] ==> previous == Some(xs[|xs| - 1])
    ensures DistinctAfter(previous, xs) != [] ==> DistinctAfter(previous, xs)[|DistinctAfter(previous, xs)| - 1] == xs[|xs| - 1]
    decreases |xs|
  {
    if |xs| > 1 {
      var next := if previous == Some(xs[0]) then previous else Some(xs[0]);
      var tail := DistinctAfter(next, xs[1..]);
      if tail == [] {
        DistinctAfterEmpty(next, xs[1..]);
      } else {
        DistinctAfterKeepsLast(next, xs[1..]);
      }
    }
  }

  /** Nothing is passed on only when every value repeats the last one emitted. */
  lemma {:induction false} DistinctAfterEmpty<T>(previous: Option<T>, xs: seq<T>)
    requires DistinctAfter(previous, xs) == []
    ensures forall i :: 0 <= i < |xs| ==> previous == Some(xs[i])
    decreases |xs|
  {
    if xs != [] {
      DistinctAfterEmpty(previous, xs[1..]);
      assert forall i :: 1 <= i < |xs| ==> xs[i] == xs[1..][i - 1];
    }
  }

  /** The last value passed on is the last value typed. */
  lemma DistinctUntilChangedKeepsLast<T>(xs: seq<T>)
    requires xs != []
    ensures DistinctUntilChanged(xs) != []
    ensures DistinctUntilChanged(xs)[|DistinctUntilChanged(xs)| - 1] == xs[|xs| - 1]
  {
    DistinctAfterShape(None, xs);
    DistinctAfterKeepsLast(None, xs);
  }

  /** A stream without back-to-back repeats passes through unchanged. */
  lemma {:induction false} DistinctAfterOfDistinct<T>(previous: Option<T>, xs: seq<T>)
    requires NoAdjacentRepeats(xs)
    requires xs != [] ==> previous != Some(xs[0])
    ensures DistinctAfter(previous, xs) == xs
    decreases |xs|
  {
    if xs != [] {
      assert NoAdjacentRepeats(xs[1..]) by {
        forall i | 0 < i < |xs[1..]|
          ensures xs[1..][i - 1] != xs[1..][i]
        {
          assert xs[1..][i - 1] == xs[i] && xs[1..][i] == xs[i + 1];
        }
      }
      if |xs| > 1 {
        assert xs[1..][0] == xs[1];
      }
      DistinctAfterOfDistinct(Some(xs[0]), xs[1..]);
    }
  }

  /** Applying distinctUntilChanged twice is applying it once. */
  lemma DistinctUntilChangedIdempotent<T>(xs: seq<T>)
    ensures DistinctUntilChanged(DistinctUntilChanged(xs)) == DistinctUntilChanged(xs)
  {
    DistinctAfterShape(None, xs);
    DistinctAfterOfDistinct(None, DistinctUntilChanged(xs));
  }

  /**
   * The reference reading of distinctUntilChanged: position i is passed on
   * exactly when it is the first value or differs from the value before it.
   */
  function FirstOfEachRun<T(==)>(xs: seq<T>): (r: seq<T>)
    ensures |r| <= |xs|
  {
    if xs == [] then []
    else
      var n := |xs| - 1;
      FirstOfEachRun(xs[..n]) + (if n == 0 || xs[n - 1] != xs[n] then [xs[n]] else [])
  }

  /** The value distinctUntilChanged compares the next input with: the last input, or `previous` before any. */
  function LastSeen<T>(previous: Option<T>, xs: seq<T>): Option<T> {
    if xs == [] then previous else Some(xs[|xs| - 1])
  }

  /** A value typed after `xs` is passed on exactly when it differs from the last value seen. */
  lemma {:induction false} DistinctAfterSnoc<T>(previous: Option<T>, xs: seq<T>, x: T)
    ensures DistinctAfter(previous, xs + [x])
            == DistinctAfter(previous, xs) + (if LastSeen(previous, xs) == Some(x) then [] else [x])
    decreases |xs|
  {
    if xs == [] {
      assert [] + [x] == [x];
      assert [x][1..] == [];
    } else {
      AppendFront(xs, [x]);
      DistinctAfterSnoc(Some(xs[0]), xs[1..], x);
      if previous == Some(xs[0]) {
        assert DistinctAfter(previous, xs) == DistinctAfter(previous, xs[1..]);
      } else {
        assert DistinctAfter(previous, xs) == [xs[0]] + DistinctAfter(Some(xs[0]), xs[1..]);
        AppendAssociative([xs[0]], DistinctAfter(Some(xs[0]), xs[1..]),
                          if LastSeen(previous, xs) == Some(x) then [] else [x]);
      }
    }
  }

  /** distinctUntilChanged keeps exactly the first value of every run of equal values. */
  lemma {:induction false} DistinctUntilChangedIsFirstOfEachRun<T>(xs: seq<T>)
    ensures DistinctUntilChanged(xs) == FirstOfEachRun(xs)
    decreases |xs|
  {
    if xs != [] {
      var n := |xs| - 1;
      DistinctUntilChangedIsFirstOfEachRun(xs[..n]);
      FrontAndLast(xs);
      DistinctAfterSnoc(None, xs[..n], xs[n]);
      if n > 0 {
        assert xs[..n][n - 1] == xs[n - 1];
      }
    }
  }

  lemma DistinctUntilChangedExample()
    ensures DistinctUntilChanged(["a", "a", "b", "b", "b", "c", "c"]) == ["a", "b", "c"]
  {
  }

  // ---------------------------------------------------------------------------
  // From keystrokes to rows
  // ---------------------------------------------------------------------------

  /** `map(e => e.target.value.toLowerCase())` over the input events' values. */
  function LowerAll(values: seq<string>): (r: seq<string>)
    ensures |r| == |values|
    ensures forall i :: 0 <= i < |values| ==> r[i] == ToLower(values[i])
  {
    if values == [] then [] else [ToLower(values[0])] + LowerAll(values[1..])
  }

  /** The terms that reach filterRows (debounceTime not modelled). */
  function SearchTerms(values: seq<string>): (terms: seq<string>)
    ensures |terms| <= |values|
    ensures values != [] ==> terms != [] && terms[|terms| - 1] == ToLower(values[|values| - 1])
  {
    if values == [] then []
    else
      DistinctUntilChangedKeepsLast(LowerAll(values));
      DistinctUntilChanged(LowerAll(values))
  }

  /** The rows after filterRows has run once per term, in order. */
  function FilteredByEach(rows: seq<Row>, terms: seq<string>): (r: seq<Row>)
    ensures |r| == |rows|
    ensures forall i :: 0 <= i < |rows| ==> r[i].text == rows[i].text
    decreases |terms|
  {
    if terms == [] then rows else FilteredByEach(Filtered(rows, terms[0]), terms[1..])
  }

  lemma {:induction false} FilteredByEachIsLast(rows: seq<Row>, terms: seq<string>)
    requires terms != []
    ensures FilteredByEach(rows, terms) == Filtered(rows, terms[|terms| - 1])
    decreases |terms|
  {
    if |terms| > 1 {
      FilteredByEachIsLast(Filtered(rows, terms[0]), terms[1..]);
      LatestTermDecides(rows, terms[0], terms[|terms| - 1]);
    }
  }

  /**
   * After typing, the table shows exactly the rows matching the last value
   * typed, lower-cased: dropping repeats never changes what is shown.
   */
  lemma TypedSearchShowsLastValue(rows: seq<Row>, values: seq<string>)
    requires values != []
    ensures FilteredByEach(rows, SearchTerms(values)) == Filtered(rows, ToLower(values[|values| - 1]))
    ensures FilteredByEach(rows, SearchTerms(values)) == FilteredByEach(rows, LowerAll(values))
  {
    DistinctUntilChangedKeepsLast(LowerAll(values));
    FilteredByEachIsLast(rows, SearchTerms(values));
    FilteredByEachIsLast(rows, LowerAll(values));
  }
}
