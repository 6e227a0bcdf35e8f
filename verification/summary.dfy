/** `summarize_by_dtype` and the selection of `print_top_branches`: records
    are grouped by category with summed byte counts and a branch count, the
    groups are ordered by compressed bytes, largest first, and the top `n`
    records by compressed bytes are picked. */
module Summary {
  import opened Optional
  import opened Dtype
  import opened BranchInfo
  import opened Seqs
  import opened Ordering

  /** One row of the per-category summary. */
  datatype CategorySummary = CategorySummary(category: Category, compressed: nat, uncompressed: nat, branches: nat)

  function RecordCompressed(r: BranchRecord): nat { r.compressed }
  function RecordUncompressed(r: BranchRecord): nat { r.uncompressed }
  function SummaryCompressed(g: CategorySummary): nat { g.compressed }
  function SummaryUncompressed(g: CategorySummary): nat { g.uncompressed }
  function SummaryBranches(g: CategorySummary): nat { g.branches }
  function SummaryCategory(g: CategorySummary): Category { g.category }

  /** The records of category `c`, in order. */
  function OfCategory(rs: seq<BranchRecord>, c: Category): (sel: seq<BranchRecord>)
    ensures |sel| > 0 <==> exists j :: 0 <= j < |rs| && rs[j].category == c
    decreases |rs|
  {
    if |rs| == 0 then []
    else
      var last := rs[|rs| - 1];
      var front := OfCategory(rs[..|rs| - 1], c);
      assert forall j :: 0 <= j < |rs| - 1 ==> rs[..|rs| - 1][j] == rs[j];
      if last.category == c then front + [last] else front
  }

  /** The summary row the records of category `c` call for. */
  function SummaryOf(rs: seq<BranchRecord>, c: Category): CategorySummary {
    var sel := OfCategory(rs, c);
    CategorySummary(c, SumBy(sel, RecordCompressed), SumBy(sel, RecordUncompressed), |sel|)
  }

  /** Adds one record to its category's row, or opens a row for it at the end. */
  function AddRecord(g: seq<CategorySummary>, r: BranchRecord): (g': seq<CategorySummary>)
    ensures |g'| == |g| || |g'| == |g| + 1
    decreases |g|
  {
    if |g| == 0 then
      [CategorySummary(r.category, r.compressed, r.uncompressed, 1)]
    else if g[0].category == r.category then
      [CategorySummary(r.category, g[0].compressed + r.compressed,
                       g[0].uncompressed + r.uncompressed, g[0].branches + 1)] + g[1..]
    else
      [g[0]] + AddRecord(g[1..], r)
  }

  /** Which rows `AddRecord` changes: only the row of the record's category,
      which gains the record, and a new last row when there was none. */
  lemma {:induction false} AddRecordRows(g: seq<CategorySummary>, r: BranchRecord)
    requires DistinctBy(g, SummaryCategory)
    ensures var g' := AddRecord(g, r);
      && (forall i :: 0 <= i < |g| ==> g'[i].category == g[i].category)
      && (forall i :: 0 <= i < |g| && g[i].category != r.category ==> g'[i] == g[i])
      && (forall i :: 0 <= i < |g| && g[i].category == r.category ==>
            g'[i] == CategorySummary(r.category, g[i].compressed + r.compressed,
                                     g[i].uncompressed + r.uncompressed, g[i].branches + 1))
      && (|g'| == |g| + 1 <==> forall i :: 0 <= i < |g| ==> g[i].category != r.category)
      && (|g'| == |g| + 1 ==> g'[|g|] == CategorySummary(r.category, r.compressed, r.uncompressed, 1))
    decreases |g|
  {
    if |g| > 0 && g[0].category == r.category {
      forall i | 1 <= i < |g| ensures g[i].category != r.category {
        assert g[0].category != g[i].category;
      }
    } else if |g| > 0 {
      AddRecordRows(g[1..], r);
      var g' := AddRecord(g, r);
      assert g' == [g[0]] + AddRecord(g[1..], r);
      forall i | 1 <= i < |g| ensures g[1..][i - 1] == g[i] { }
      if forall i :: 0 <= i < |g| ==> g[i].category != r.category {
        assert forall i :: 0 <= i < |g[1..]| ==> g[1..][i].category != r.category;
      }
    }
  }

  /** `AddRecord` adds the record's bytes and one branch to the totals. */
  lemma {:induction false} AddRecordTotals(g: seq<CategorySummary>, r: BranchRecord)
    ensures SumBy(AddRecord(g, r), SummaryCompressed) == SumBy(g, SummaryCompressed) + r.compressed
    ensures SumBy(AddRecord(g, r), SummaryUncompressed) == SumBy(g, SummaryUncompressed) + r.uncompressed
    ensures SumBy(AddRecord(g, r), SummaryBranches) == SumBy(g, SummaryBranches) + 1
    decreases |g|
  {
    if |g| > 0 {
      var g' := AddRecord(g, r);
      assert g'[1..] == if g[0].category == r.category then g[1..] else AddRecord(g[1..], r);
      if g[0].category != r.category {
        AddRecordTotals(g[1..], r);
      }
    }
  }

  /** `g` summarises `rs`: one row per category present and no other, each
      row holding the summed byte counts and the count of that category's
      records, so that the rows partition the records and their totals are
      the totals over all records. */
  ghost predicate Summarizes(g: seq<CategorySummary>, rs: seq<BranchRecord>) {
    && DistinctBy(g, SummaryCategory)
    && RowsSummarize(g, rs)
    && CoversRecords(g, rs)
    && TotalsAgree(g, rs)
  }

  /** Every row is the summary of its category's records, and not empty. */
  ghost predicate RowsSummarize(g: seq<CategorySummary>, rs: seq<BranchRecord>) {
    forall i :: 0 <= i < |g| ==> g[i] == SummaryOf(rs, g[i].category) && g[i].branches > 0
  }

  /** Every record's category has a row. */
  ghost predicate CoversRecords(g: seq<CategorySummary>, rs: seq<BranchRecord>) {
    forall j :: 0 <= j < |rs| ==> exists i :: 0 <= i < |g| && g[i].category == rs[j].category
  }

  /** The rows' totals are the totals over all records. */
  ghost predicate TotalsAgree(g: seq<CategorySummary>, rs: seq<BranchRecord>) {
    && SumBy(g, SummaryCompressed) == SumBy(rs, RecordCompressed)
    && SumBy(g, SummaryUncompressed) == SumBy(rs, RecordUncompressed)
    && SumBy(g, SummaryBranches) == |rs|
  }

  /** The groups of `rs`, one per category present, in first-seen order. */
  function Group(rs: seq<BranchRecord>): (g: seq<CategorySummary>)
    ensures Summarizes(g, rs)
    decreases |rs|
  {
    if |rs| == 0 then []
    else
      var g0 := Group(rs[..|rs| - 1]);
      GroupStep(rs, g0);
      AddRecord(g0, rs[|rs| - 1])
  }

  /** Appending one record extends only the selection of its own category. */
  lemma OfCategoryAppend(front: seq<BranchRecord>, last: BranchRecord, c: Category)
    ensures OfCategory(front + [last], c) == OfCategory(front, c) + (if last.category == c then [last] else [])
  {
    assert (front + [last])[..|front|] == front;
  }

  /** Adding the last record keeps a summary a summary. */
  lemma GroupStep(rs: seq<BranchRecord>, g0: seq<CategorySummary>)
    requires |rs| > 0 && Summarizes(g0, rs[..|rs| - 1])
    ensures Summarizes(AddRecord(g0, rs[|rs| - 1]), rs)
  {
    var front, last := rs[..|rs| - 1], rs[|rs| - 1];
    assert rs == front + [last];
    GroupStepDistinct(g0, last);
    GroupStepRows(front, last, g0);
    GroupStepCovers(front, last, g0);
    GroupStepTotals(front, last, g0);
  }

  lemma GroupStepTotals(front: seq<BranchRecord>, last: BranchRecord, g0: seq<CategorySummary>)
    requires TotalsAgree(g0, front)
    ensures TotalsAgree(AddRecord(g0, last), front + [last])
  {
    AddRecordTotals(g0, last);
    SumByAppend(front, [last], RecordCompressed);
    SumByAppend(front, [last], RecordUncompressed);
  }

  lemma {:induction false} GroupStepRows(front: seq<BranchRecord>, last: BranchRecord, g0: seq<CategorySummary>)
    requires DistinctBy(g0, SummaryCategory)
    requires RowsSummarize(g0, front)
    requires CoversRecords(g0, front)
    ensures RowsSummarize(AddRecord(g0, last), front + [last])
  {
    var g := AddRecord(g0, last);
    AddRecordEnd(g0, last);
    forall i | 0 <= i < |g|
      ensures g[i] == SummaryOf(front + [last], g[i].category) && g[i].branches > 0
    {
      if i < |g0| {
        GroupStepOld(front, last, g0, i);
      } else {
        GroupStepNewRow(front, last, g0);
      }
    }
  }

  /** A row that existed before adding `last` still summarises its category. */
  lemma GroupStepOld(front: seq<BranchRecord>, last: BranchRecord, g0: seq<CategorySummary>, i: nat)
    requires DistinctBy(g0, SummaryCategory) && i < |g0|
    requires g0[i] == SummaryOf(front, g0[i].category) && g0[i].branches > 0
    ensures i < |AddRecord(g0, last)|
    ensures AddRecord(g0, last)[i].category == g0[i].category
    ensures AddRecord(g0, last)[i] == SummaryOf(front + [last], g0[i].category)
    ensures AddRecord(g0, last)[i].branches > 0
  {
    AddRecordAt(g0, last, i);
    GroupStepOldRow(front, last, g0[i]);
  }

  /** The row at index `i` after `AddRecord`, for a row that existed before. */
  lemma AddRecordAt(g: seq<CategorySummary>, r: BranchRecord, i: nat)
    requires DistinctBy(g, SummaryCategory) && i < |g|
    ensures i < |AddRecord(g, r)|
    ensures AddRecord(g, r)[i] ==
      if g[i].category == r.category then
        CategorySummary(r.category, g[i].compressed + r.compressed, g[i].uncompressed + r.uncompressed, g[i].branches + 1)
      else g[i]
  {
    AddRecordRows(g, r);
  }

  /** A row past the old ones exists only for a new category, and holds just `r`. */
  lemma AddRecordEnd(g: seq<CategorySummary>, r: BranchRecord)
    requires DistinctBy(g, SummaryCategory)
    ensures |AddRecord(g, r)| == |g| + 1 <==> forall i :: 0 <= i < |g| ==> g[i].category != r.category
    ensures |AddRecord(g, r)| == |g| + 1 ==>
      AddRecord(g, r)[|g|] == CategorySummary(r.category, r.compressed, r.uncompressed, 1)
  {
    AddRecordRows(g, r);
  }

  /** A row for an existing category gains `last` exactly when it is of
      that category. */
  lemma GroupStepOldRow(front: seq<BranchRecord>, last: BranchRecord, row: CategorySummary)
    requires row == SummaryOf(front, row.category)
    ensures last.category != row.category ==> row == SummaryOf(front + [last], row.category)
    ensures last.category == row.category ==>
      CategorySummary(row.category, row.compressed + last.compressed, row.uncompressed + last.uncompressed,
                      row.branches + 1) == SummaryOf(front + [last], row.category)
  {
    var c := row.category;
    OfCategoryAppend(front, last, c);
    SumByAppend(OfCategory(front, c), [last], RecordCompressed);
    SumByAppend(OfCategory(front, c), [last], RecordUncompressed);
  }

  /** The row opened for a category not seen before holds just `last`. */
  lemma GroupStepNewRow(front: seq<BranchRecord>, last: BranchRecord, g0: seq<CategorySummary>)
    requires CoversRecords(g0, front)
    requires forall i :: 0 <= i < |g0| ==> g0[i].category != last.category
    ensures CategorySummary(last.category, last.compressed, last.uncompressed, 1)
              == SummaryOf(front + [last], last.category)
  {
    var c := last.category;
    OfCategoryAppend(front, last, c);
    assert OfCategory(front, c) == [] by {
      forall j | 0 <= j < |front|
        ensures front[j].category != c
      {
        var k :| 0 <= k < |g0| && g0[k].category == front[j].category;
      }
    }
    var sel := OfCategory(front + [last], c);
    assert sel == [last];
    assert sel[1..] == [];
    assert SumBy(sel, RecordCompressed) == last.compressed;
    assert SumBy(sel, RecordUncompressed) == last.uncompressed;
  }

  lemma GroupStepDistinct(g0: seq<CategorySummary>, last: BranchRecord)
    requires DistinctBy(g0, SummaryCategory)
    ensures DistinctBy(AddRecord(g0, last), SummaryCategory)
  {
    var g := AddRecord(g0, last);
    AddRecordRows(g0, last);
    forall i, j | 0 <= i < j < |g|
      ensures g[i].category != g[j].category
    {
      if j == |g0| {
        assert g0[i].category != last.category;
      } else {
        assert g0[i].category != g0[j].category;
      }
    }
  }

  lemma GroupStepCovers(front: seq<BranchRecord>, last: BranchRecord, g0: seq<CategorySummary>)
    requires DistinctBy(g0, SummaryCategory)
    requires CoversRecords(g0, front)
    ensures CoversRecords(AddRecord(g0, last), front + [last])
  {
    var rs := front + [last];
    var g := AddRecord(g0, last);
    AddRecordRows(g0, last);
    forall j | 0 <= j < |rs|
      ensures exists i :: 0 <= i < |g| && g[i].category == rs[j].category
    {
      if j < |front| {
        assert rs[j] == front[j];
        var i :| 0 <= i < |g0| && g0[i].category == front[j].category;
        assert g[i].category == rs[j].category;
      } else if |g| == |g0| + 1 {
        assert g[|g0|].category == rs[j].category;
      } else {
        var i :| 0 <= i < |g0| && g0[i].category == last.category;
        assert g[i].category == rs[j].category;
      }
    }
  }

  /** `summarize_by_dtype`: rows that summarise the records (one per
      distinct category, with summed byte counts and branch counts, totals
      equal to the totals over records), ordered by compressed bytes, largest
      first. `None` for no records: an empty frame has no `dtype_category`
      column and the grouping raises. */
  function SummarizeByDtype(rs: seq<BranchRecord>): (r: Option<seq<CategorySummary>>)
    ensures r.None? <==> |rs| == 0
    ensures r.Some? ==> SortedDesc(r.value, SummaryCompressed)
    ensures r.Some? ==> Summarizes(r.value, rs)
  {
    if |rs| == 0 then None
    else
      var g := Group(rs);
      var s := SortDesc(g, SummaryCompressed);
      SummaryPermutation(rs, g, s);
      Some(s)
  }

  /** Reordering the rows of a summary leaves a summary. */
  lemma SummaryPermutation(rs: seq<BranchRecord>, g: seq<CategorySummary>, s: seq<CategorySummary>)
    requires multiset(s) == multiset(g)
    requires Summarizes(g, rs)
    ensures Summarizes(s, rs)
  {
    DistinctByPermutation(g, s, SummaryCategory);
    SumByPermutation(s, g, SummaryCompressed);
    SumByPermutation(s, g, SummaryUncompressed);
    SumByPermutation(s, g, SummaryBranches);
    forall i | 0 <= i < |s|
      ensures s[i] == SummaryOf(rs, s[i].category) && s[i].branches > 0
    {
      assert s[i] in multiset(g);
      var k :| 0 <= k < |g| && g[k] == s[i];
    }
    forall j | 0 <= j < |rs|
      ensures exists i :: 0 <= i < |s| && s[i].category == rs[j].category
    {
      var i :| 0 <= i < |g| && g[i].category == rs[j].category;
      assert g[i] in multiset(s);
      var k :| 0 <= k < |s| && s[k] == g[i];
    }
  }

  /** The per-category compression ratio, defined only when the category has
      compressed bytes (the source divides by the summed compressed bytes). */
  function CategoryRatio(g: CategorySummary): (ratio: real)
    requires g.compressed > 0
    ensures ratio * g.compressed as real == g.uncompressed as real
    ensures ratio >= 0.0
  {
    g.uncompressed as real / g.compressed as real
  }

  /** `df.nlargest(n, 'compressed_bytes')`: `min(n, |rs|)` records of `rs`,
      largest compressed size first, none smaller than a record left out.
      `None` for no records, where the frame has no `compressed_bytes`
      column and the call raises. */
  function TopBranches(rs: seq<BranchRecord>, n: nat): (r: Option<seq<BranchRecord>>)
    ensures r.None? <==> |rs| == 0
    ensures r.Some? ==> |r.value| == if n < |rs| then n else |rs|
    ensures r.Some? ==> SortedDesc(r.value, RecordCompressed)
    ensures r.Some? ==> multiset(r.value) <= multiset(rs)
    ensures r.Some? ==> forall x, y :: x in multiset(rs) - multiset(r.value) && y in r.value ==>
              y.compressed >= x.compressed
  {
    if |rs| == 0 then None else Some(TopN(rs, n, RecordCompressed))
  }
}
