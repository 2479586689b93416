/**
 * FTGSModifiers: the post-filter settings of an FTGS request, and the rule
 * that picks which filter wraps a result iterator. The sort order of the
 * top-terms filter is carried along untouched, so its type is a parameter.
 */
module FTGSModifiers {
  import opened Wrappers

  const LONG_MAX: int := 0x7fff_ffff_ffff_ffff
  const INT_MIN: int := -0x8000_0000
  const INT_MAX: int := 0x7fff_ffff

  type long = x: int | -LONG_MAX - 1 <= x <= LONG_MAX
  type int32 = x: int | INT_MIN <= x <= INT_MAX
  /** A term limit as the constructor lets it through: a non-negative long. */
  type Limit = x: int | 0 <= x <= LONG_MAX

  datatype Modifiers<O> = Modifiers(termLimit: Limit, sortStat: int32, sorted: bool, statsSortOrder: O)

  datatype ConfigError = NegativeTermLimit

  /** The constructor: rejects a negative term limit, keeps every argument otherwise. */
  function New<O>(termLimit: long, sortStat: int32, sorted: bool, statsSortOrder: O): (r: Result<Modifiers<O>, ConfigError>)
    ensures r.Failure? <==> termLimit < 0
    ensures r.Success? ==> r.value == Modifiers(termLimit, sortStat, sorted, statsSortOrder)
  {
    if termLimit < 0 then Failure(NegativeTermLimit)
    else Success(Modifiers(termLimit, sortStat, sorted, statsSortOrder))
  }

  predicate IsTopTerms<O>(m: Modifiers<O>) {
    m.sortStat >= 0 && m.termLimit > 0
  }

  predicate IsTermLimit<O>(m: Modifiers<O>) {
    m.sortStat < 0 && m.termLimit > 0
  }

  /** At most one filter applies, and none without a term limit. */
  lemma FiltersExclusive<O>(m: Modifiers<O>)
    ensures !(IsTopTerms(m) && IsTermLimit(m))
    ensures m.termLimit == 0 ==> !IsTopTerms(m) && !IsTermLimit(m)
    ensures m.termLimit > 0 ==> IsTopTerms(m) || IsTermLimit(m)
  {
  }

  /** Every object the constructor can return is rebuilt unchanged from its own fields. */
  lemma NewOfFields<O>(m: Modifiers<O>)
    ensures New(m.termLimit, m.sortStat, m.sorted, m.statsSortOrder) == Success(m)
  {
  }

  // ----- the copy constructors (each goes through the constructor's check, which they always pass) -----

  function Copy<O>(m: Modifiers<O>): (r: Modifiers<O>)
    ensures New(m.termLimit, m.sortStat, m.sorted, m.statsSortOrder) == Success(r)
  {
    New(m.termLimit, m.sortStat, m.sorted, m.statsSortOrder).value
  }

  function SortedCopy<O>(m: Modifiers<O>): (r: Modifiers<O>)
    ensures New(m.termLimit, m.sortStat, true, m.statsSortOrder) == Success(r)
  {
    New(m.termLimit, m.sortStat, true, m.statsSortOrder).value
  }

  function UnsortedCopy<O>(m: Modifiers<O>): (r: Modifiers<O>)
    ensures New(m.termLimit, m.sortStat, false, m.statsSortOrder) == Success(r)
  {
    New(m.termLimit, m.sortStat, false, m.statsSortOrder).value
  }

  function UnlimitedCopy<O>(m: Modifiers<O>): (r: Modifiers<O>)
    ensures New(0, -1, m.sorted, m.statsSortOrder) == Success(r)
  {
    New(0, -1, m.sorted, m.statsSortOrder).value
  }

  /** copy is an exact copy; sortedCopy and unsortedCopy change `sorted` only. */
  lemma CopiesKeepFields<O>(m: Modifiers<O>)
    ensures Copy(m) == m
    ensures SortedCopy(m) == m.(sorted := true) && UnsortedCopy(m) == m.(sorted := false)
  {
  }

  /** unlimitedCopy switches both filters off and keeps `sorted` and the sort order. */
  lemma UnlimitedCopyDisablesFilters<O>(m: Modifiers<O>)
    ensures !IsTopTerms(UnlimitedCopy(m)) && !IsTermLimit(UnlimitedCopy(m))
    ensures UnlimitedCopy(m).sorted == m.sorted && UnlimitedCopy(m).statsSortOrder == m.statsSortOrder
  {
  }

  // ----- wrap -----

  /**
   * What wrap returns for an iterator `it`: the top-terms iterator over it,
   * the term-limited iterator over it, or `it` itself. Both overloads of the
   * source (FTGSIterator and FTGAIterator) choose alike, so the iterator type
   * is a parameter.
   */
  datatype Wrapped<It, O> =
    | TopTerms(inner: It, limit: Limit, stat: int32, order: O)
    | TermLimited(inner: It, limit: Limit)
    | Unwrapped(inner: It)

  function Wrap<It, O>(m: Modifiers<O>, it: It): (w: Wrapped<It, O>)
    ensures w.inner == it
  {
    if m.termLimit > 0 then
      if m.sortStat >= 0 then TopTerms(it, m.termLimit, m.sortStat, m.statsSortOrder)
      else TermLimited(it, m.termLimit)
    else Unwrapped(it)
  }

  /** wrap's nested branches pick top-terms exactly when isTopTerms, the term limit exactly when isTermLimit. */
  lemma WrapFollowsPredicates<It, O>(m: Modifiers<O>, it: It)
    ensures Wrap(m, it).TopTerms? <==> IsTopTerms(m)
    ensures Wrap(m, it).TermLimited? <==> IsTermLimit(m)
    ensures Wrap(m, it).Unwrapped? <==> !IsTopTerms(m) && !IsTermLimit(m)
    ensures Wrap(m, it).TopTerms? ==> Wrap(m, it) == TopTerms(it, m.termLimit, m.sortStat, m.statsSortOrder)
    ensures Wrap(m, it).TermLimited? ==> Wrap(m, it) == TermLimited(it, m.termLimit)
  {
  }

  /** Re-sorting a request never changes which filter applies. */
  lemma SortingKeepsFilter<It, O>(m: Modifiers<O>, it: It)
    ensures Wrap(SortedCopy(m), it) == Wrap(m, it)
    ensures Wrap(UnsortedCopy(m), it) == Wrap(m, it)
  {
  }

  /** An unlimited copy leaves the iterator as it is. */
  lemma UnlimitedCopyUnwrapped<It, O>(m: Modifiers<O>, it: It)
    ensures Wrap(UnlimitedCopy(m), it) == Unwrapped(it)
  {
  }
}
