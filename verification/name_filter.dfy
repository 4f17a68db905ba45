/**
  The list's live filter: a case-insensitive substring match on the
  employee's name, recomputed from the full list on every keystroke.
 */
module NameFilter {

  import opened JsStrings
  import opened EmployeeModel

  /** `employee.name.toLowerCase().includes(termLower)`. */
  predicate NameMatches(e: EmployeeResponse, termLower: string)
  {
    Includes(Lower(e.name), termLower)
  }

  /** `a` can be obtained from `b` by deleting elements, keeping the order of the rest. */
  predicate IsSubsequence<T(==)>(a: seq<T>, b: seq<T>)
    decreases |b|
  {
    |a| == 0 || (|b| > 0 && ((a[0] == b[0] && IsSubsequence(a[1..], b[1..])) || IsSubsequence(a, b[1..])))
  }

  /** `Array.prototype.filter` with the name test: the matching records, in their original order. */
  function KeepMatching(s: seq<EmployeeResponse>, termLower: string): (r: seq<EmployeeResponse>)
    ensures |r| <= |s|
    ensures IsSubsequence(r, s)
    ensures forall x :: multiset(r)[x] == if NameMatches(x, termLower) then multiset(s)[x] else 0
    decreases |s|
  {
    if |s| == 0 then []
    else
      var rest := KeepMatching(s[1..], termLower);
      assert s == [s[0]] + s[1..];
      if NameMatches(s[0], termLower) then [s[0]] + rest else rest
  }

  /** Membership follows from the counts: a record is kept exactly when it is in the list and matches. */
  lemma KeepMatchingMembers(s: seq<EmployeeResponse>, termLower: string, x: EmployeeResponse)
    ensures x in KeepMatching(s, termLower) <==> x in s && NameMatches(x, termLower)
  {
    assert multiset(KeepMatching(s, termLower))[x] == if NameMatches(x, termLower) then multiset(s)[x] else 0;
  }

  /**
    `onSearchChange` on the full list: a blank term (empty or whitespace
    only) shows a copy of the whole list; any other term is lower-cased, not
    trimmed, and matched against lower-cased names.
   */
  function FilterView(employees: seq<EmployeeResponse>, term: string): (r: seq<EmployeeResponse>)
    ensures AllWhitespace(term) ==> r == employees
    ensures !AllWhitespace(term) ==> r == KeepMatching(employees, Lower(term))
  {
    BlankIffAllWhitespace(term);
    if IsBlank(term) then employees else KeepMatching(employees, Lower(term))
  }

  /** With a non-blank term, a record is in the view exactly when it is in the list and its name matches. */
  lemma FilterViewMembers(employees: seq<EmployeeResponse>, term: string)
    ensures !AllWhitespace(term) ==> forall x ::
      x in FilterView(employees, term) <==> x in employees && NameMatches(x, Lower(term))
  {
    forall x {
      KeepMatchingMembers(employees, Lower(term), x);
    }
  }

  /** Every record of the view is one of the list's records, in the list's order, and the view is never longer. */
  lemma FilterViewIsSubsequence(employees: seq<EmployeeResponse>, term: string)
    ensures IsSubsequence(FilterView(employees, term), employees)
    ensures |FilterView(employees, term)| <= |employees|
  {
    if AllWhitespace(term) {
      SubsequenceReflexive(employees);
    }
  }

  lemma {:induction false} SubsequenceReflexive<T>(s: seq<T>)
    ensures IsSubsequence(s, s)
    decreases |s|
  {
    if |s| > 0 {
      SubsequenceReflexive(s[1..]);
    }
  }

  /** Filtering the matches again keeps all of them. */
  lemma {:induction false} KeepMatchingIdempotent(s: seq<EmployeeResponse>, termLower: string)
    ensures KeepMatching(KeepMatching(s, termLower), termLower) == KeepMatching(s, termLower)
    decreases |s|
  {
    if |s| > 0 {
      KeepMatchingIdempotent(s[1..], termLower);
      var rest := KeepMatching(s[1..], termLower);
      if NameMatches(s[0], termLower) {
        assert ([s[0]] + rest)[1..] == rest;
      }
    }
  }

  /** Applying the filter to its own view with the same term gives the same view. */
  lemma FilterViewIdempotent(employees: seq<EmployeeResponse>, term: string)
    ensures FilterView(FilterView(employees, term), term) == FilterView(employees, term)
  {
    if !AllWhitespace(term) {
      KeepMatchingIdempotent(employees, Lower(term));
    }
  }

  /** A term that occurs in no name leaves the view empty. */
  lemma NoMatchEmptyView(employees: seq<EmployeeResponse>, term: string)
    requires !AllWhitespace(term)
    requires forall i | 0 <= i < |employees| :: !NameMatches(employees[i], Lower(term))
    ensures FilterView(employees, term) == []
  {
    var r := FilterView(employees, term);
    if r != [] {
      KeepMatchingMembers(employees, Lower(term), r[0]);
    }
  }

  /** Lower-casing never turns a character into whitespace or whitespace into something else. */
  lemma LowerKeepsBlank(term: string)
    ensures AllWhitespace(Lower(term)) <==> AllWhitespace(term)
  {
    forall i | 0 <= i < |term|
      ensures IsJsWhitespace(Lower(term)[i]) <==> IsJsWhitespace(term[i])
    {
      assert !IsAsciiUpper(term[i]) ==> Lower(term)[i] == term[i];
    }
  }

  /** The view does not depend on the case of the term: typing it in upper or lower case shows the same records. */
  lemma FilterViewIgnoresTermCase(employees: seq<EmployeeResponse>, term: string)
    ensures FilterView(employees, Lower(term)) == FilterView(employees, term)
  {
    LowerKeepsBlank(term);
    LowerIdempotent(term);
  }
}
