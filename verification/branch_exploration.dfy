/** `create_branch_df` without its file access: the rows of one tree are
    cut down to the `vector<float>` branches whose names mention none of the
    exclusion strings, each row is tagged with the file's base name, and the
    statistics columns start unset and are filled from the branch's values
    when it has any. The values of a branch come from a `load` parameter. */
module BranchExploration {
  import opened Optional
  import opened Text
  import opened Dtype
  import opened BranchInfo
  import opened Seqs
  import opened Values

  /** `b` is the tail of `s`. */
  predicate EndsWith(s: string, b: string) {
    |b| <= |s| && s[|s| - |b|..] == b
  }

  /** `path.split('/')[-1]`: the text after the last `/`, or the whole path
      when it has none. */
  function BaseName(path: string): (b: string)
    ensures '/' !in b
    ensures EndsWith(path, b)
    ensures |b| < |path| ==> path[|path| - |b| - 1] == '/'
    ensures '/' !in path ==> b == path
    decreases |path|
  {
    if |path| == 0 || path[|path| - 1] == '/' then ""
    else BaseName(path[..|path| - 1]) + [path[|path| - 1]]
  }

  /** The base name of a file placed in a directory is the file's name. */
  lemma {:induction false} BaseNameOfJoin(dir: string, name: string)
    requires '/' !in name
    ensures BaseName(dir + "/" + name) == name
    decreases |name|
  {
    var path := dir + "/" + name;
    if |name| == 0 {
      assert path[|path| - 1] == '/';
    } else {
      var init := name[..|name| - 1];
      assert path[..|path| - 1] == dir + "/" + init;
      assert '/' !in init by {
        assert forall i :: 0 <= i < |init| ==> init[i] == name[i];
      }
      BaseNameOfJoin(dir, init);
      assert name == init + [name[|name| - 1]];
    }
  }

  /** The row describes a `vector<float>` branch. */
  predicate IsVectorFloat(row: ContainerRow) {
    row.record.category == VectorFloat
  }

  /** The branch name of the row contains one of the exclusion strings. */
  predicate MentionsAny(row: ContainerRow, fs: seq<string>) {
    exists f :: f in fs && Contains(row.record.branch, f)
  }

  /** A row the selection keeps: a `vector<float>` branch whose name
      mentions none of the exclusion strings. */
  predicate Wanted(row: ContainerRow, fs: seq<string>) {
    IsVectorFloat(row) && !MentionsAny(row, fs)
  }

  function Avoids(f: string): ContainerRow -> bool {
    (row: ContainerRow) => !Contains(row.record.branch, f)
  }

  function AvoidsAll(fs: seq<string>): ContainerRow -> bool {
    (row: ContainerRow) => !MentionsAny(row, fs)
  }

  function WantedBy(fs: seq<string>): ContainerRow -> bool {
    (row: ContainerRow) => Wanted(row, fs)
  }

  /** The exclusion strings in force: none when `filters` is `None`. */
  function Exclusions(filters: Option<seq<string>>): seq<string> {
    match filters
    case None => []
    case Some(fs) => fs
  }

  /** One pass of the exclusion loop: drops the rows whose branch name
      contains `f`. */
  function Exclude(rows: seq<ContainerRow>, f: string): (kept: seq<ContainerRow>)
    ensures forall i :: 0 <= i < |kept| ==> !Contains(kept[i].record.branch, f)
    ensures forall i :: 0 <= i < |rows| && !Contains(rows[i].record.branch, f) ==> rows[i] in kept
    ensures IsSubsequence(kept, rows)
    ensures forall x :: multiset(kept)[x] == if Contains(x.record.branch, f) then 0 else multiset(rows)[x]
  {
    FilterIsSubsequence(rows, Avoids(f));
    FilterCounts(rows, Avoids(f));
    Filter(rows, Avoids(f))
  }

  /** The exclusion loop, one string after another. */
  function ExcludeAll(rows: seq<ContainerRow>, fs: seq<string>): seq<ContainerRow>
    decreases |fs|
  {
    if |fs| == 0 then rows else ExcludeAll(Exclude(rows, fs[0]), fs[1..])
  }

  /** Running the exclusion loop keeps exactly the rows that mention none of
      the strings, in order. */
  lemma {:induction false} ExcludeAllKeepsClear(rows: seq<ContainerRow>, fs: seq<string>)
    ensures ExcludeAll(rows, fs) == Filter(rows, AvoidsAll(fs))
    decreases |fs|
  {
    if |fs| == 0 {
      FilterAll(rows, AvoidsAll(fs));
    } else {
      var once := Exclude(rows, fs[0]);
      ExcludeAllKeepsClear(once, fs[1..]);
      forall i | 0 <= i < |rows|
        ensures AvoidsAll(fs)(rows[i]) == (Avoids(fs[0])(rows[i]) && AvoidsAll(fs[1..])(rows[i]))
      {
        MentionsAnyCons(rows[i], fs);
      }
      FilterFilter(rows, Avoids(fs[0]), AvoidsAll(fs[1..]), AvoidsAll(fs));
    }
  }

  lemma MentionsAnyCons(row: ContainerRow, fs: seq<string>)
    requires |fs| > 0
    ensures MentionsAny(row, fs) <==> Contains(row.record.branch, fs[0]) || MentionsAny(row, fs[1..])
  {
    assert fs == [fs[0]] + fs[1..];
    if MentionsAny(row, fs) {
      var f :| f in fs && Contains(row.record.branch, f);
      if f != fs[0] {
        assert f in fs[1..];
      }
    }
  }

  /** The reference selection: the wanted rows, in order. */
  function KeepWanted(rows: seq<ContainerRow>, fs: seq<string>): seq<ContainerRow> {
    Filter(rows, WantedBy(fs))
  }

  /** Lines 19-24 of `create_branch_df`: the `vector<float>` rows, then, when
      `filters` is given, the exclusion loop over them. The result keeps the
      input order, holds only `vector<float>` rows mentioning no exclusion
      string, and keeps every such row: it is the reference selection. */
  function SelectBranches(rows: seq<ContainerRow>, filters: Option<seq<string>>): (sel: seq<ContainerRow>)
    ensures sel == KeepWanted(rows, Exclusions(filters))
    ensures IsSubsequence(sel, rows)
    ensures forall i :: 0 <= i < |sel| ==> sel[i].record.category == VectorFloat
    ensures forall i, f :: 0 <= i < |sel| && f in Exclusions(filters) ==> !Contains(sel[i].record.branch, f)
    ensures forall i :: 0 <= i < |rows| && Wanted(rows[i], Exclusions(filters)) ==> rows[i] in sel
  {
    var vf := Filter(rows, IsVectorFloat);
    var sel := match filters
      case None => vf
      case Some(fs) => ExcludeAll(vf, fs);
    var fs := Exclusions(filters);
    ExcludeAllKeepsClear(vf, fs);
    FilterFilter(rows, IsVectorFloat, AvoidsAll(fs), WantedBy(fs));
    assert sel == KeepWanted(rows, fs);
    FilterIsSubsequence(rows, WantedBy(fs));
    sel
  }

  /** With `filters=None` nothing is excluded: the selection is exactly the
      `vector<float>` rows, as with an empty list. */
  lemma NoFiltersIsEmptyList(rows: seq<ContainerRow>)
    ensures SelectBranches(rows, None) == Filter(rows, IsVectorFloat)
    ensures SelectBranches(rows, None) == SelectBranches(rows, Some([]))
  {
    FilterAgree(rows, WantedBy([]), IsVectorFloat);
  }

  /** The order of the exclusion strings, and repeats among them, do not
      change the selection. */
  lemma FilterOrderIrrelevant(rows: seq<ContainerRow>, fs: seq<string>, gs: seq<string>)
    requires forall f :: f in fs <==> f in gs
    ensures SelectBranches(rows, Some(fs)) == SelectBranches(rows, Some(gs))
  {
    FilterAgree(rows, WantedBy(fs), WantedBy(gs));
  }

  /** The statistics columns of a row: all unset (`None`), or filled. */
  datatype Stats = Unset | Filled(min: real, max: real, dynamicRange: real)

  /** The statistics of a branch's values: unset when it holds no value at
      all; otherwise the least and the greatest of its values and the
      distance between them. What they satisfy is `ComputeStatsMeaning`. */
  function ComputeStats(data: seq<seq<real>>): Stats {
    var flat := Flatten(data);
    if |flat| == 0 then Unset
    else
      var lo, hi := Min(flat), Max(flat);
      Filled(lo, hi, hi - lo)
  }

  /** The statistics are unset exactly when the branch holds no value;
      otherwise min and max are values of the branch that bound all of its
      values, and the dynamic range is their non-negative difference. */
  lemma ComputeStatsMeaning(data: seq<seq<real>>)
    ensures var st := ComputeStats(data);
      && (st.Unset? <==> forall i :: 0 <= i < |data| ==> |data[i]| == 0)
      && (st.Filled? ==> exists i :: 0 <= i < |data| && st.min in data[i])
      && (st.Filled? ==> exists i :: 0 <= i < |data| && st.max in data[i])
      && (st.Filled? ==> forall i, j :: 0 <= i < |data| && 0 <= j < |data[i]| ==>
            st.min <= data[i][j] <= st.max)
      && (st.Filled? ==> st.dynamicRange == st.max - st.min && st.dynamicRange >= 0.0)
  {
    var flat := Flatten(data);
    FlattenEmpty(data);
    if |flat| > 0 {
      var lo, hi := Min(flat), Max(flat);
      FlattenMembers(data, lo);
      FlattenMembers(data, hi);
      forall i, j | 0 <= i < |data| && 0 <= j < |data[i]|
        ensures lo <= data[i][j] <= hi
      {
        FlattenMembers(data, data[i][j]);
        var k :| 0 <= k < |flat| && flat[k] == data[i][j];
      }
    }
  }

  /** A row of the table `create_branch_df` writes. */
  datatype StatRow = StatRow(row: ContainerRow, file: string, stats: Stats)

  /** Lines 27-50 of `create_branch_df`: every selected row starts with its
      statistics unset, and the rows whose branch holds values get them
      filled in, one row at a time. */
  method FillStats(sel: seq<ContainerRow>, file: string, load: string -> seq<seq<real>>)
    returns (table: seq<StatRow>)
    ensures |table| == |sel|
    ensures forall i :: 0 <= i < |sel| ==> table[i].row == sel[i] && table[i].file == file
    ensures forall i :: 0 <= i < |sel| ==> table[i].stats == ComputeStats(load(sel[i].record.branch))
  {
    table := seq(|sel|, i requires 0 <= i < |sel| => StatRow(sel[i], file, Unset));
    var k := 0;
    while k < |sel|
      invariant 0 <= k <= |sel| && |table| == |sel|
      invariant forall i :: 0 <= i < |sel| ==> table[i].row == sel[i] && table[i].file == file
      invariant forall i :: 0 <= i < k ==> table[i].stats == ComputeStats(load(sel[i].record.branch))
      invariant forall i :: k <= i < |sel| ==> table[i].stats == Unset
    {
      var data := load(sel[k].record.branch);
      var flat := Flatten(data);
      if |flat| > 0 {
        var lo, hi := Min(flat), Max(flat);
        table := table[k := StatRow(sel[k], file, Filled(lo, hi, hi - lo))];
      }
      k := k + 1;
    }
  }

  /** `create_branch_df` for tree `tree` of the file at `path`, whose trees
      are `trees` and whose branch values `load` gives. `None` where the
      source raises: the tree is not in the file, or no branch of it could
      be read (the frame then has no `dtype_category` column). Otherwise one
      row per selected branch, in order, tagged with the file's base name
      and carrying the statistics of that branch's values. */
  method CreateBranchTable(path: string, trees: map<string, seq<BranchEntry>>, tree: string,
                           filters: Option<seq<string>>, load: string -> seq<seq<real>>)
    returns (r: Option<seq<StatRow>>)
    ensures r.None? <==> tree !in trees || |Readable(trees[tree])| == 0
    ensures r.Some? ==>
              var sel := SelectBranches(GetBranchInfo(trees[tree]), filters);
              && |r.value| == |sel|
              && forall i :: 0 <= i < |sel| ==>
                   && r.value[i].row == sel[i]
                   && r.value[i].file == BaseName(path)
                   && r.value[i].stats == ComputeStats(load(sel[i].record.branch))
  {
    if tree !in trees {
      return None;
    }
    var rows := GetBranchInfo(trees[tree]);
    if |rows| == 0 {
      return None;
    }
    var sel := SelectBranches(rows, filters);
    var table := FillStats(sel, BaseName(path), load);
    return Some(table);
  }
}
