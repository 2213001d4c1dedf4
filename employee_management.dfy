/** The employee directory page: filter the directory by status and by a
    case-insensitive search on name or email, sort a copy by a chosen column and
    direction, and the column-header state that chooses them. */
module EmployeeManagement {
  import opened Seqs
  import opened Text

  /** A directory entry (the optional profile picture is not modelled). */
  datatype Employee = Employee(
    id: string,
    name: string,
    contractType: string,
    status: string,
    email: string,
    phone: string,
    department: string,
    role: string)

  /** The text-valued keys of an employee a sort can use. */
  datatype SortKey = Id | Name | ContractType | Status | Email | Phone | Department | Role

  datatype SortOrder = Asc | Desc

  /** `employee[key]`. */
  function Field(e: Employee, key: SortKey): string {
    match key
    case Id => e.id
    case Name => e.name
    case ContractType => e.contractType
    case Status => e.status
    case Email => e.email
    case Phone => e.phone
    case Department => e.department
    case Role => e.role
  }

  // ---------------------------------------------------------------------------
  // Filters
  // ---------------------------------------------------------------------------

  /** The search test: the lower-cased name or email includes the lower-cased term. */
  predicate MatchesSearch(e: Employee, searchTerm: string) {
    Contains(Lower(e.name), Lower(searchTerm)) || Contains(Lower(e.email), Lower(searchTerm))
  }

  /** What the search test means: the lower-cased term occurs at some position
      of the lower-cased name, or of the lower-cased email. */
  lemma MatchesSearchMeaning(e: Employee, searchTerm: string)
    ensures MatchesSearch(e, searchTerm) <==>
      || (exists i :: OccursAt(Lower(e.name), Lower(searchTerm), i))
      || (exists i :: OccursAt(Lower(e.email), Lower(searchTerm), i))
  {
    ContainsIffOccurs(Lower(e.name), Lower(searchTerm));
    ContainsIffOccurs(Lower(e.email), Lower(searchTerm));
  }

  /** Both filters of the page; an empty filter value lets everything through. */
  predicate PassesFilters(e: Employee, statusFilter: string, searchTerm: string) {
    && (statusFilter == "" || e.status == statusFilter)
    && (searchTerm == "" || MatchesSearch(e, searchTerm))
  }

  /** The filtered directory, in directory order, before sorting. */
  function Visible(employees: seq<Employee>, statusFilter: string, searchTerm: string): (r: seq<Employee>)
    ensures forall e :: e in r <==> e in employees && PassesFilters(e, statusFilter, searchTerm)
  {
    Filter(employees, (e: Employee) => PassesFilters(e, statusFilter, searchTerm))
  }

  /** The search ignores letter case in the term: a term and its lower-cased
      form select the same employees. */
  lemma SearchIgnoresTermCase(e: Employee, searchTerm: string)
    ensures MatchesSearch(e, searchTerm) == MatchesSearch(e, Lower(searchTerm))
  {
    LowerIdempotent(searchTerm);
  }

  /** An employee whose name or email contains the term as typed is found. */
  lemma SearchFindsSubstring(e: Employee, searchTerm: string, i: int)
    requires OccursAt(e.name, searchTerm, i) || OccursAt(e.email, searchTerm, i)
    ensures MatchesSearch(e, searchTerm)
  {
    if OccursAt(e.name, searchTerm, i) {
      OccursLower(e.name, searchTerm, i);
      OccursContains(Lower(e.name), Lower(searchTerm), i);
    } else {
      OccursLower(e.email, searchTerm, i);
      OccursContains(Lower(e.email), Lower(searchTerm), i);
    }
  }

  /** The `if (searchTerm)` guard changes nothing: the empty term matches everyone. */
  lemma EmptySearchMatchesAll(e: Employee)
    ensures MatchesSearch(e, "")
  {
    assert Lower("") == "";
    ContainsEmpty(Lower(e.name));
  }

  // ---------------------------------------------------------------------------
  // Sorting
  // ---------------------------------------------------------------------------

  /** The comparator passed to `.sort`: by the key's text, reversed for Desc. */
  function Compare(a: Employee, b: Employee, key: SortKey, order: SortOrder): (r: int)
    ensures r in {-1, 0, 1}
  {
    if LexLess(Field(a, key), Field(b, key)) then (if order == Asc then -1 else 1)
    else if LexLess(Field(b, key), Field(a, key)) then (if order == Asc then 1 else -1)
    else 0
  }

  /** `a` may stay before `b`: the comparator does not ask to swap them. */
  predicate InOrder(a: Employee, b: Employee, key: SortKey, order: SortOrder) {
    Compare(a, b, key, order) <= 0
  }

  predicate Sorted(s: seq<Employee>, key: SortKey, order: SortOrder) {
    forall i, j :: 0 <= i < j < |s| ==> InOrder(s[i], s[j], key, order)
  }

  /** What InOrder means: the keys are non-decreasing for Asc and non-increasing for Desc. */
  lemma InOrderMeaning(a: Employee, b: Employee, key: SortKey, order: SortOrder)
    ensures order == Asc ==> (InOrder(a, b, key, order) <==> !LexLess(Field(b, key), Field(a, key)))
    ensures order == Desc ==> (InOrder(a, b, key, order) <==> !LexLess(Field(a, key), Field(b, key)))
  {
    if LexLess(Field(a, key), Field(b, key)) {
      LexLessAsymmetric(Field(a, key), Field(b, key));
    }
  }

  lemma InOrderTotal(a: Employee, b: Employee, key: SortKey, order: SortOrder)
    ensures Compare(a, b, key, order) > 0 ==> InOrder(b, a, key, order)
  {
    var x, y := Field(a, key), Field(b, key);
    if LexLess(x, y) {
      LexLessAsymmetric(x, y);
    }
    if LexLess(y, x) {
      LexLessAsymmetric(y, x);
    }
  }

  lemma InOrderTransitive(a: Employee, b: Employee, c: Employee, key: SortKey, order: SortOrder)
    requires InOrder(a, b, key, order) && InOrder(b, c, key, order)
    ensures InOrder(a, c, key, order)
  {
    var x, y, z := Field(a, key), Field(b, key), Field(c, key);
    InOrderMeaning(a, b, key, order);
    InOrderMeaning(b, c, key, order);
    InOrderMeaning(a, c, key, order);
    LexLessTotal(x, y);
    LexLessTotal(y, z);
    if order == Asc {
      if LexLess(z, x) {
        if x == y { } else if y == z { } else { LexLessTransitive(x, y, z); LexLessAsymmetric(x, z); }
      }
    } else {
      if LexLess(x, z) {
        if x == y { } else if y == z { } else { LexLessTransitive(z, y, x); LexLessAsymmetric(z, x); }
      }
    }
  }

  /** A sorted list is ordered by the key: ascending text for Asc, descending for Desc. */
  lemma SortedMeaning(s: seq<Employee>, key: SortKey, order: SortOrder)
    requires Sorted(s, key, order)
    ensures order == Asc ==> forall i, j :: 0 <= i < j < |s| ==> !LexLess(Field(s[j], key), Field(s[i], key))
    ensures order == Desc ==> forall i, j :: 0 <= i < j < |s| ==> !LexLess(Field(s[i], key), Field(s[j], key))
  {
    forall i, j | 0 <= i < j < |s| ensures InOrder(s[i], s[j], key, order) {
      InOrderMeaning(s[i], s[j], key, order);
    }
    forall i, j | 0 <= i < j < |s|
      ensures order == Asc ==> !LexLess(Field(s[j], key), Field(s[i], key))
      ensures order == Desc ==> !LexLess(Field(s[i], key), Field(s[j], key))
    {
      InOrderMeaning(s[i], s[j], key, order);
    }
  }

  method Swap(a: array<Employee>, i: int, j: int)
    requires 0 <= i < a.Length && 0 <= j < a.Length
    modifies a
    ensures a[..] == old(a[..])[i := old(a[j])][j := old(a[i])]
    ensures multiset(a[..]) == multiset(old(a[..]))
  {
    a[i], a[j] := a[j], a[i];
  }

  /** `.sort(comparator)` on the array: insertion by adjacent swaps, which leaves
      the array ordered by the comparator and a permutation of what it held. */
  method SortInPlace(a: array<Employee>, key: SortKey, order: SortOrder)
    modifies a
    ensures Sorted(a[..], key, order)
    ensures multiset(a[..]) == multiset(old(a[..]))
  {
    var i := 0;
    while i < a.Length
      invariant 0 <= i <= a.Length
      invariant forall p, q :: 0 <= p < q < i ==> InOrder(a[p], a[q], key, order)
      invariant multiset(a[..]) == multiset(old(a[..]))
    {
      InsertInto(a, i, key, order);
      i := i + 1;
    }
  }

  /** One insertion step: `a[i]` is swapped down past every element the
      comparator puts after it, extending the ordered prefix by one. */
  method InsertInto(a: array<Employee>, i: int, key: SortKey, order: SortOrder)
    requires 0 <= i < a.Length
    requires forall p, q :: 0 <= p < q < i ==> InOrder(a[p], a[q], key, order)
    modifies a
    ensures forall p, q :: 0 <= p < q <= i ==> InOrder(a[p], a[q], key, order)
    ensures multiset(a[..]) == multiset(old(a[..]))
  {
    var j := i;
    while j > 0 && Compare(a[j - 1], a[j], key, order) > 0
      invariant 0 <= j <= i
      invariant multiset(a[..]) == multiset(old(a[..]))
      invariant OrderedBut(a[..], i, j, key, order)
      invariant OrderedAfter(a[..], j, i, key, order)
    {
      InOrderTotal(a[j - 1], a[j], key, order);
      SwapDown(a[..], j, i, key, order);
      Swap(a, j - 1, j);
      j := j - 1;
    }
    InsertFinished(a[..], j, i, key, order);
  }

  /** During insertion: the prefix up to `hi` is ordered apart from the moving
      element at `j` ... */
  predicate OrderedBut(s: seq<Employee>, hi: int, j: int, key: SortKey, order: SortOrder)
    requires hi < |s|
  {
    forall p, q :: 0 <= p < q <= hi && p != j && q != j ==> InOrder(s[p], s[q], key, order)
  }

  /** ... and the moving element comes before everything it has passed. */
  predicate OrderedAfter(s: seq<Employee>, j: int, hi: int, key: SortKey, order: SortOrder)
    requires 0 <= j && hi < |s|
  {
    forall q :: j < q <= hi ==> InOrder(s[j], s[q], key, order)
  }

  /** Swapping the moving element with a predecessor it should precede keeps
      both insertion invariants one position lower. */
  lemma SwapDown(s: seq<Employee>, j: int, hi: int, key: SortKey, order: SortOrder)
    requires 0 < j <= hi < |s|
    requires OrderedBut(s, hi, j, key, order) && OrderedAfter(s, j, hi, key, order)
    requires InOrder(s[j], s[j - 1], key, order)
    ensures OrderedBut(s[j - 1 := s[j]][j := s[j - 1]], hi, j - 1, key, order)
    ensures OrderedAfter(s[j - 1 := s[j]][j := s[j - 1]], j - 1, hi, key, order)
  {
    var t := s[j - 1 := s[j]][j := s[j - 1]];
    assert forall k :: 0 <= k < |s| && k != j - 1 && k != j ==> t[k] == s[k];
    assert t[j - 1] == s[j] && t[j] == s[j - 1];
    forall p, q | 0 <= p < q <= hi && p != j - 1 && q != j - 1
      ensures InOrder(t[p], t[q], key, order)
    {
      if q == j {
        assert InOrder(s[p], s[j - 1], key, order);
      } else if p == j {
        assert InOrder(s[j - 1], s[q], key, order);
      } else {
        assert InOrder(s[p], s[q], key, order);
      }
    }
    forall q | j - 1 < q <= hi ensures InOrder(t[j - 1], t[q], key, order) {
      if q > j {
        assert InOrder(s[j], s[q], key, order);
      }
    }
  }

  /** When the moving element stops (at the front, or behind an element that
      may precede it), the whole prefix up to `hi` is ordered. */
  lemma InsertFinished(s: seq<Employee>, j: int, hi: int, key: SortKey, order: SortOrder)
    requires 0 <= j <= hi < |s|
    requires OrderedBut(s, hi, j, key, order) && OrderedAfter(s, j, hi, key, order)
    requires j > 0 ==> InOrder(s[j - 1], s[j], key, order)
    ensures forall p, q :: 0 <= p < q <= hi ==> InOrder(s[p], s[q], key, order)
  {
    forall p, q | 0 <= p < q <= hi ensures InOrder(s[p], s[q], key, order) {
      if q == j && p < j - 1 {
        InOrderTransitive(s[p], s[j - 1], s[j], key, order);
      }
    }
  }

  /** filteredAndSortedEmployees: filter a copy of the directory by status, then
      by search term, then sort it. The result holds exactly the employees that
      pass both filters, each as often as in the directory, ordered by the key. */
  method FilteredAndSortedEmployees(employees: seq<Employee>, statusFilter: string, searchTerm: string,
                                    sortKey: SortKey, sortOrder: SortOrder)
    returns (r: seq<Employee>)
    ensures Sorted(r, sortKey, sortOrder)
    ensures multiset(r) == multiset(Visible(employees, statusFilter, searchTerm))
    ensures forall e :: e in r <==> e in employees && PassesFilters(e, statusFilter, searchTerm)
  {
    var processed := employees;
    if statusFilter != "" {
      processed := Filter(processed, (e: Employee) => e.status == statusFilter);
    }
    if searchTerm != "" {
      processed := Filter(processed, (e: Employee) => MatchesSearch(e, searchTerm));
    }
    FilterStagesAgree(employees, statusFilter, searchTerm);
    assert processed == Visible(employees, statusFilter, searchTerm);
    var a := new Employee[|processed|](k requires 0 <= k < |processed| => processed[k]);
    assert a[..] == processed;
    SortInPlace(a, sortKey, sortOrder);
    r := a[..];
    assert forall e :: e in r <==> e in multiset(r);
  }

  /** The page's two optional filter stages select what Visible selects. */
  lemma FilterStagesAgree(employees: seq<Employee>, statusFilter: string, searchTerm: string)
    ensures var byStatus := if statusFilter != "" then Filter(employees, (e: Employee) => e.status == statusFilter) else employees;
            var bySearch := if searchTerm != "" then Filter(byStatus, (e: Employee) => MatchesSearch(e, searchTerm)) else byStatus;
            bySearch == Visible(employees, statusFilter, searchTerm)
  {
    var passes := (e: Employee) => PassesFilters(e, statusFilter, searchTerm);
    var byStatus := if statusFilter != "" then Filter(employees, (e: Employee) => e.status == statusFilter) else employees;
    if statusFilter != "" && searchTerm != "" {
      FilterTwice(employees, (e: Employee) => e.status == statusFilter, (e: Employee) => MatchesSearch(e, searchTerm), passes);
    } else if statusFilter != "" {
      FilterAgree(employees, (e: Employee) => e.status == statusFilter, passes);
    } else if searchTerm != "" {
      FilterAgree(employees, (e: Employee) => MatchesSearch(e, searchTerm), passes);
    } else {
      FilterKeepsAll(employees, passes);
    }
  }

  // ---------------------------------------------------------------------------
  // Column-header state
  // ---------------------------------------------------------------------------

  function Flip(order: SortOrder): SortOrder {
    if order == Asc then Desc else Asc
  }

  /** The sort state after a click on column `key`: the same column flips the
      direction, another column becomes the key in ascending order. */
  function ClickHeader(sortKey: SortKey, sortOrder: SortOrder, key: SortKey): (r: (SortKey, SortOrder))
    ensures r.0 == key
    ensures key == sortKey ==> r.1 != sortOrder
    ensures key != sortKey ==> r.1 == Asc
  {
    if sortKey == key then (sortKey, Flip(sortOrder)) else (key, Asc)
  }

  /** Two clicks on the same column restore the state; after two clicks on a new
      column the order is descending. */
  lemma ClickHeaderTwice(sortKey: SortKey, sortOrder: SortOrder, key: SortKey)
    ensures var (k1, o1) := ClickHeader(sortKey, sortOrder, key);
            key == sortKey ==> ClickHeader(k1, o1, key) == (sortKey, sortOrder)
    ensures var (k1, o1) := ClickHeader(sortKey, sortOrder, key);
            key != sortKey ==> ClickHeader(k1, o1, key) == (key, Desc)
  {
  }

  /** getSortIndicator: an up arrow on the active column when ascending, a down
      arrow when descending, nothing on other columns. */
  function SortIndicator(sortKey: SortKey, sortOrder: SortOrder, key: SortKey): (r: string)
    ensures r == "" <==> key != sortKey
    ensures r == " \U{25B2}" <==> key == sortKey && sortOrder == Asc
    ensures r == " \U{25BC}" <==> key == sortKey && sortOrder == Desc
  {
    assert " \U{25B2}" != " \U{25BC}" by {
      assert " \U{25B2}"[1] != " \U{25BC}"[1];
    }
    if sortKey != key then ""
    else
      match sortOrder
      case Asc => " \U{25B2}"
      case Desc => " \U{25BC}"
  }

  /** The EmployeeManagement component's sort state. */
  class SortState {
    var sortKey: SortKey
    var sortOrder: SortOrder

    /** The page opens sorted by name, ascending. */
    constructor ()
      ensures sortKey == Name && sortOrder == Asc
    {
      sortKey := Name;
      sortOrder := Asc;
    }

    /** handleSort(key). */
    method HandleSort(key: SortKey)
      modifies this
      ensures (sortKey, sortOrder) == ClickHeader(old(sortKey), old(sortOrder), key)
    {
      if sortKey == key {
        sortOrder := if sortOrder == Asc then Desc else Asc;
      } else {
        sortKey := key;
        sortOrder := Asc;
      }
    }
  }
}
