/** Ordering: the comparator of the consolidated output (year descending,
    then quarter descending, then registration ascending, all as string
    comparisons) and an in-place sort of the records by it. */
module Ordering {
  import opened Text
  import opened Records

  /** The comparator of `gerarCSVConsolidado`: negative when `r1` goes
      first, positive when `r2` goes first, 0 when it does not decide. */
  function CompareRecords(r1: Record, r2: Record): int {
    var cmpYear := CompareTo(r2.year, r1.year);
    if cmpYear != 0 then cmpYear
    else
      var cmpQuarter := CompareTo(r2.quarter, r1.quarter);
      if cmpQuarter != 0 then cmpQuarter
      else CompareTo(r1.regAns, r2.regAns)
  }

  /** Swapping the arguments negates the comparison. */
  lemma CompareRecordsAntisymmetric(r1: Record, r2: Record)
    ensures CompareRecords(r1, r2) == -CompareRecords(r2, r1)
  {
    CompareToAntisymmetric(r2.year, r1.year);
    CompareToAntisymmetric(r2.quarter, r1.quarter);
    CompareToAntisymmetric(r1.regAns, r2.regAns);
  }

  /** The comparator ties exactly the records that agree on year, quarter
      and registration. */
  lemma CompareRecordsZero(r1: Record, r2: Record)
    ensures CompareRecords(r1, r2) == 0 <==>
      r1.year == r2.year && r1.quarter == r2.quarter && r1.regAns == r2.regAns
  {
    CompareToZero(r2.year, r1.year);
    CompareToZero(r2.quarter, r1.quarter);
    CompareToZero(r1.regAns, r2.regAns);
  }

  /** `CompareTo(a, b) <= 0` is transitive. */
  lemma CompareToAtMost(a: string, b: string, c: string)
    requires CompareTo(a, b) <= 0 && CompareTo(b, c) <= 0
    ensures CompareTo(a, c) <= 0
  {
    CompareToZero(a, b);
    CompareToZero(b, c);
    if CompareTo(a, b) < 0 && CompareTo(b, c) < 0 {
      CompareToTransitive(a, b, c);
    }
  }

  /** "Goes no later than" is transitive. */
  lemma CompareRecordsTransitive(r1: Record, r2: Record, r3: Record)
    requires CompareRecords(r1, r2) <= 0 && CompareRecords(r2, r3) <= 0
    ensures CompareRecords(r1, r3) <= 0
  {
    CompareToZero(r2.year, r1.year);
    CompareToZero(r3.year, r2.year);
    CompareToZero(r2.quarter, r1.quarter);
    CompareToZero(r3.quarter, r2.quarter);
    CompareToZero(r3.year, r1.year);
    if CompareTo(r2.year, r1.year) < 0 || CompareTo(r3.year, r2.year) < 0 {
      CompareToAtMost(r3.year, r2.year, r1.year);
      if CompareTo(r3.year, r1.year) == 0 {
        CompareToAntisymmetric(r3.year, r2.year);
        CompareToAntisymmetric(r2.year, r1.year);
        if CompareTo(r2.year, r1.year) < 0 {
          CompareToAtMost(r2.year, r1.year, r3.year);
        } else {
          CompareToAtMost(r3.year, r2.year, r1.year);
          CompareToAtMost(r1.year, r3.year, r2.year);
        }
      }
    } else if CompareTo(r2.quarter, r1.quarter) < 0 || CompareTo(r3.quarter, r2.quarter) < 0 {
      CompareToAtMost(r3.quarter, r2.quarter, r1.quarter);
      CompareToZero(r3.quarter, r1.quarter);
      if CompareTo(r3.quarter, r1.quarter) == 0 {
        CompareToAntisymmetric(r3.quarter, r2.quarter);
        CompareToAntisymmetric(r2.quarter, r1.quarter);
        if CompareTo(r2.quarter, r1.quarter) < 0 {
          CompareToAtMost(r2.quarter, r1.quarter, r3.quarter);
        } else {
          CompareToAtMost(r1.quarter, r3.quarter, r2.quarter);
        }
      }
    } else {
      CompareToAtMost(r1.regAns, r2.regAns, r3.regAns);
    }
  }

  /** Consecutive records are in comparator order. */
  predicate Ordered(s: seq<Record>) {
    forall k :: 0 < k < |s| ==> CompareRecords(s[k - 1], s[k]) <= 0
  }

  /** When `r1` may precede `r2`, spelt out field by field. */
  predicate FieldsInOrder(r1: Record, r2: Record) {
    CompareTo(r2.year, r1.year) <= 0 &&
    (r2.year == r1.year ==> CompareTo(r2.quarter, r1.quarter) <= 0) &&
    (r2.year == r1.year && r2.quarter == r1.quarter ==> CompareTo(r1.regAns, r2.regAns) <= 0)
  }

  lemma CompareRecordsFields(r1: Record, r2: Record)
    ensures CompareRecords(r1, r2) <= 0 <==> FieldsInOrder(r1, r2)
  {
    CompareToZero(r2.year, r1.year);
    CompareToZero(r2.quarter, r1.quarter);
  }

  /** What "in comparator order" means for the output: along consecutive
      records the year never increases, within one year the quarter never
      increases, and within one year and quarter the registration never
      decreases (all in string order). */
  lemma OrderedMeans(s: seq<Record>)
    ensures Ordered(s) <==> forall k :: 0 < k < |s| ==> FieldsInOrder(s[k - 1], s[k])
  {
    forall k | 0 < k < |s|
      ensures CompareRecords(s[k - 1], s[k]) <= 0 <==> FieldsInOrder(s[k - 1], s[k])
    {
      CompareRecordsFields(s[k - 1], s[k]);
    }
  }

  /** In an ordered sequence every earlier record goes no later than every
      later one, not just its neighbour. */
  lemma {:induction false} OrderedPairwise(s: seq<Record>, i: int, j: int)
    requires Ordered(s) && 0 <= i < j < |s|
    ensures CompareRecords(s[i], s[j]) <= 0
    decreases j - i
  {
    if i + 1 < j {
      OrderedPairwise(s, i + 1, j);
      CompareRecordsTransitive(s[i], s[i + 1], s[j]);
    }
  }

  /** Consecutive elements of `s[lo..hi]` are in comparator order. */
  predicate OrderedRange(s: seq<Record>, lo: int, hi: int)
    requires 0 <= lo && hi <= |s|
  {
    forall k :: lo < k < hi ==> CompareRecords(s[k - 1], s[k]) <= 0
  }

  /** The invariant of the insertion step while the moving element sits
      at `j`: both sides of it are ordered, and its neighbours fit together
      once it has passed. */
  predicate Inserting(s: seq<Record>, j: int, i: int)
    requires 0 <= j <= i < |s|
  {
    OrderedRange(s, 0, j) && OrderedRange(s, j, i + 1) &&
    (0 < j < i ==> CompareRecords(s[j - 1], s[j + 1]) <= 0)
  }

  /** `s` with the elements at `j - 1` and `j` exchanged. */
  function SwapAt(s: seq<Record>, j: int): (t: seq<Record>)
    requires 0 < j < |s|
    ensures |t| == |s| && t[j - 1] == s[j] && t[j] == s[j - 1]
    ensures forall k :: 0 <= k < |s| && k != j - 1 && k != j ==> t[k] == s[k]
  {
    s[j - 1 := s[j]][j := s[j - 1]]
  }

  /** Exchanging two neighbours permutes the sequence. */
  lemma SwapAtPermutes(s: seq<Record>, j: int)
    requires 0 < j < |s|
    ensures multiset(SwapAt(s, j)) == multiset(s)
  {
    var t := s[j - 1 := s[j]];
    assert multiset(t) == multiset(s) - multiset{s[j - 1]} + multiset{s[j]};
    assert multiset(t[j := s[j - 1]]) == multiset(t) - multiset{t[j]} + multiset{s[j - 1]};
  }

  /** One swap of the insertion step: the element at `j` moves to `j - 1`
      past a neighbour that must follow it, and the invariant moves with it. */
  lemma SwapStep(s: seq<Record>, j: int, i: int)
    requires 0 < j <= i < |s|
    requires Inserting(s, j, i) && CompareRecords(s[j - 1], s[j]) > 0
    ensures Inserting(SwapAt(s, j), j - 1, i)
  {
    CompareRecordsAntisymmetric(s[j - 1], s[j]);
  }

  /** The insertion step ends with `s[..i + 1]` in order. */
  lemma InsertDone(s: seq<Record>, j: int, i: int)
    requires 0 <= j <= i < |s|
    requires OrderedRange(s, 0, j) && OrderedRange(s, j, i + 1)
    requires j > 0 ==> CompareRecords(s[j - 1], s[j]) <= 0
    ensures OrderedRange(s, 0, i + 1)
  {
  }

  /** Swaps the moving element with its left neighbour, which must follow it. */
  method SwapLeft(a: array<Record>, j: int, i: int)
    requires 0 < j <= i < a.Length
    requires Inserting(a[..], j, i) && CompareRecords(a[j - 1], a[j]) > 0
    modifies a
    ensures a[..] == SwapAt(old(a[..]), j)
    ensures Inserting(a[..], j - 1, i)
    ensures multiset(a[..]) == multiset(old(a[..]))
  {
    ghost var s := a[..];
    SwapStep(s, j, i);
    SwapAtPermutes(s, j);
    a[j - 1], a[j] := a[j], a[j - 1];
    assert a[..] == SwapAt(s, j);
  }

  /** One insertion step: `a[i]` is swapped leftwards past the elements
      of the ordered prefix `a[..i]` that must follow it. */
  method InsertNext(a: array<Record>, i: int)
    requires 0 < i < a.Length
    requires OrderedRange(a[..], 0, i)
    modifies a
    ensures OrderedRange(a[..], 0, i + 1)
    ensures multiset(a[..]) == multiset(old(a[..]))
  {
    var j := i;
    while j > 0 && CompareRecords(a[j - 1], a[j]) > 0
      invariant 0 <= j <= i
      invariant Inserting(a[..], j, i)
      invariant multiset(a[..]) == multiset(old(a[..]))
    {
      SwapLeft(a, j, i);
      j := j - 1;
    }
    InsertDone(a[..], j, i);
  }

  /** `Collections.sort` with the comparator, as an insertion sort. The
      result is a permutation of the input in comparator order. */
  method SortRecords(a: array<Record>)
    modifies a
    ensures Ordered(a[..])
    ensures multiset(a[..]) == multiset(old(a[..]))
  {
    var i := 1;
    while i < a.Length
      invariant a.Length == 0 || 1 <= i <= a.Length
      invariant a.Length > 0 ==> OrderedRange(a[..], 0, i)
      invariant multiset(a[..]) == multiset(old(a[..]))
    {
      InsertNext(a, i);
      i := i + 1;
    }
  }
}
