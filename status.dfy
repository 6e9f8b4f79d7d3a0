/**
 * The part of RefactoringStatus that condition checking relies on. A status
 * is the list of entries reported so far; `merge` adds the entries of another
 * status to it. The severity of a merged status is not modelled here (its
 * rule lives in RefactoringStatus, which is not part of this model); what is
 * kept is that merging loses no entry and invents none.
 */
module Status {

  datatype Severity = Ok | Info | Warning | Error | Fatal

  datatype StatusEntry = StatusEntry(severity: Severity, message: string)

  datatype RefactoringStatus = RefactoringStatus(entries: seq<StatusEntry>)

  /** A freshly created status (`new RefactoringStatus()`): no entries. */
  function Empty(): (r: RefactoringStatus)
    ensures r.entries == []
  {
    RefactoringStatus([])
  }

  /** `a.merge(b)`: the entries of `a`, followed by the entries of `b`. */
  function Merge(a: RefactoringStatus, b: RefactoringStatus): (r: RefactoringStatus)
    ensures |r.entries| == |a.entries| + |b.entries|
    ensures forall e :: e in r.entries <==> e in a.entries || e in b.entries
  {
    RefactoringStatus(a.entries + b.entries)
  }

  /** Merging is associative and the fresh status is its identity. */
  lemma MergeMonoid(a: RefactoringStatus, b: RefactoringStatus, c: RefactoringStatus)
    ensures Merge(Merge(a, b), c) == Merge(a, Merge(b, c))
    ensures Merge(Empty(), a) == a && Merge(a, Empty()) == a
  {
    assert (a.entries + b.entries) + c.entries == a.entries + (b.entries + c.entries);
    assert a.entries + [] == a.entries;
    assert [] + a.entries == a.entries;
  }
}
