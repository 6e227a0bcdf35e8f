/** Per-branch records as `get_branch_info` and `analyze_file` build them:
    the category of the interpretation, the byte counts, the compression
    ratio with its zero-byte fallbacks, and the container name. A branch
    whose metadata cannot be read is skipped, and the others are kept. */
module BranchInfo {
  import opened Optional
  import opened Text
  import opened Dtype

  /** A compression ratio: a finite value or Python's `float('inf')`. */
  datatype Ratio = Finite(value: real) | Infinite

  /** The per-branch compression ratio: `1.0` for an empty branch, infinite
      for a branch with data but no compressed bytes, and otherwise the
      factor by which compression shrinks the branch. */
  function CompressionRatio(compressed: nat, uncompressed: nat): (r: Ratio)
    ensures uncompressed == 0 ==> r == Finite(1.0)
    ensures r.Infinite? <==> uncompressed > 0 && compressed == 0
    ensures r.Finite? ==> r.value > 0.0
    ensures r.Finite? && uncompressed > 0 ==> r.value * compressed as real == uncompressed as real
    ensures r.Finite? ==> (r.value > 1.0 <==> uncompressed > compressed)
  {
    if uncompressed > 0 then
      if compressed > 0 then Finite(uncompressed as real / compressed as real) else Infinite
    else
      Finite(1.0)
  }

  /** The container of a branch: its name up to, not including, the first
      `.`, or the whole name when there is none. */
  function ContainerOf(name: string): (c: string)
    ensures IsPrefix(c, name)
    ensures '.' !in c
    ensures |c| < |name| ==> name[|c|] == '.'
    ensures '.' !in name ==> c == name
  {
    if |name| == 0 || name[0] == '.' then ""
    else [name[0]] + ContainerOf(name[1..])
  }

  /** What reading a branch's metadata yields when it does not raise. */
  datatype BranchMeta = BranchMeta(interpretation: string, compressed: nat, uncompressed: nat)

  /** A branch of a tree; `meta` is `None` when reading its metadata raises. */
  datatype BranchEntry = BranchEntry(name: string, meta: Option<BranchMeta>)

  datatype Tree = Tree(name: string, branches: seq<BranchEntry>)

  /** The columns shared by the rows of both record builders. */
  datatype BranchRecord = BranchRecord(
    branch: string,
    category: Category,
    interpretation: string,
    compressed: nat,
    uncompressed: nat,
    ratio: Ratio)

  /** A row of `get_branch_info`. */
  datatype ContainerRow = ContainerRow(record: BranchRecord, container: string)

  /** A row of `analyze_file`. */
  datatype TreeRow = TreeRow(tree: string, record: BranchRecord)

  /** `r` records the branch `name` with metadata `m`. */
  ghost predicate Describes(r: BranchRecord, name: string, m: BranchMeta) {
    && r.branch == name
    && r.category == Categorize(m.interpretation)
    && r.interpretation == m.interpretation
    && r.compressed == m.compressed
    && r.uncompressed == m.uncompressed
    && r.ratio == CompressionRatio(m.compressed, m.uncompressed)
  }

  /** The record built for branch `name` with metadata `m`. */
  function RecordOf(name: string, m: BranchMeta): (r: BranchRecord)
    ensures Describes(r, name, m)
  {
    BranchRecord(name, Categorize(m.interpretation), m.interpretation,
                 m.compressed, m.uncompressed, CompressionRatio(m.compressed, m.uncompressed))
  }

  /** The branches whose metadata could be read, in order. */
  function Readable(entries: seq<BranchEntry>): (rs: seq<BranchEntry>)
    ensures forall i :: 0 <= i < |rs| ==> rs[i].meta.Some?
    ensures |rs| <= |entries|
    decreases |entries|
  {
    if |entries| == 0 then []
    else if entries[0].meta.Some? then [entries[0]] + Readable(entries[1..])
    else Readable(entries[1..])
  }

  /** `get_branch_info`: one row per readable branch, in tree order. */
  function GetBranchInfo(entries: seq<BranchEntry>): (rows: seq<ContainerRow>)
    ensures |rows| == |Readable(entries)|
    decreases |entries|
  {
    if |entries| == 0 then []
    else
      var rest := GetBranchInfo(entries[1..]);
      match entries[0].meta
      case None => rest
      case Some(_) =>
        [RowOf(entries[0])] + rest
  }

  /** The row `get_branch_info` builds for a readable branch. */
  function RowOf(e: BranchEntry): ContainerRow
    requires e.meta.Some?
  {
    ContainerRow(RecordOf(e.name, e.meta.value), ContainerOf(e.name))
  }

  /** Skipping unreadable branches while building rows gives the rows of
      the readable branches: row `i` is built from the `i`-th readable one. */
  lemma {:induction false} GetBranchInfoMaps(entries: seq<BranchEntry>)
    ensures forall i :: 0 <= i < |GetBranchInfo(entries)| ==>
              GetBranchInfo(entries)[i] == RowOf(Readable(entries)[i])
    decreases |entries|
  {
    if |entries| > 0 {
      GetBranchInfoMaps(entries[1..]);
      var rows, rest := GetBranchInfo(entries), GetBranchInfo(entries[1..]);
      var rd, rdRest := Readable(entries), Readable(entries[1..]);
      var k := if entries[0].meta.Some? then 1 else 0;
      assert k == 1 ==> rows == [RowOf(entries[0])] + rest && rd == [entries[0]] + rdRest;
      assert k == 0 ==> rows == rest && rd == rdRest;
      forall i | 0 <= i < |rows|
        ensures rows[i] == RowOf(rd[i])
      {
        if i >= k {
          assert rows[i] == rest[i - k] && rd[i] == rdRest[i - k];
        }
      }
    }
  }

  /** Row `i` of `get_branch_info` describes the `i`-th readable branch and
      names its container. */
  lemma {:induction false} GetBranchInfoRows(entries: seq<BranchEntry>)
    ensures forall i :: 0 <= i < |GetBranchInfo(entries)| ==>
              && Describes(GetBranchInfo(entries)[i].record, Readable(entries)[i].name, Readable(entries)[i].meta.value)
              && GetBranchInfo(entries)[i].container == ContainerOf(Readable(entries)[i].name)
  {
    GetBranchInfoMaps(entries);
  }

  /** The rows for a list of branches are the rows for its two halves. */
  lemma {:induction false} GetBranchInfoAppend(a: seq<BranchEntry>, b: seq<BranchEntry>)
    ensures GetBranchInfo(a + b) == GetBranchInfo(a) + GetBranchInfo(b)
    decreases |a|
  {
    if |a| == 0 {
      assert a + b == b;
    } else {
      assert (a + b)[1..] == a[1..] + b;
      GetBranchInfoAppend(a[1..], b);
    }
  }

  /** A branch whose metadata read raises is skipped and nothing else changes. */
  lemma SkipsUnreadable(a: seq<BranchEntry>, name: string, b: seq<BranchEntry>)
    ensures GetBranchInfo(a + [BranchEntry(name, None)] + b) == GetBranchInfo(a) + GetBranchInfo(b)
  {
    GetBranchInfoAppend(a + [BranchEntry(name, None)], b);
    GetBranchInfoAppend(a, [BranchEntry(name, None)]);
  }

  /** The rows `analyze_file` builds for one tree. */
  function TreeRows(t: Tree): (rows: seq<TreeRow>)
    ensures |rows| == |Readable(t.branches)|
    ensures forall i :: 0 <= i < |rows| ==> rows[i].tree == t.name
  {
    TreeRowsOf(t.name, t.branches)
  }

  function TreeRowsOf(tree: string, entries: seq<BranchEntry>): (rows: seq<TreeRow>)
    ensures |rows| == |Readable(entries)|
    ensures forall i :: 0 <= i < |rows| ==> rows[i].tree == tree
    decreases |entries|
  {
    if |entries| == 0 then []
    else
      var rest := TreeRowsOf(tree, entries[1..]);
      match entries[0].meta
      case None => rest
      case Some(m) => [TreeRow(tree, RecordOf(entries[0].name, m))] + rest
  }

  /** Both builders compute the same record for every branch: the rows
      `analyze_file` gives a tree are those of `get_branch_info`, tagged with
      the tree name instead of the container. */
  lemma {:induction false} BuildersAgree(tree: string, entries: seq<BranchEntry>)
    ensures |TreeRowsOf(tree, entries)| == |GetBranchInfo(entries)|
    ensures forall i :: 0 <= i < |GetBranchInfo(entries)| ==>
              TreeRowsOf(tree, entries)[i].record == GetBranchInfo(entries)[i].record
    decreases |entries|
  {
    if |entries| > 0 {
      BuildersAgree(tree, entries[1..]);
      var t := TreeRowsOf(tree, entries[1..]);
      var g := GetBranchInfo(entries[1..]);
      match entries[0].meta
      case None =>
        assert TreeRowsOf(tree, entries) == t;
        assert GetBranchInfo(entries) == g;
      case Some(m) =>
        var name := entries[0].name;
        assert TreeRowsOf(tree, entries) == [TreeRow(tree, RecordOf(name, m))] + t;
        assert GetBranchInfo(entries) == [RowOf(entries[0])] + g;
    }
  }

  /** The rows of all trees, tree after tree. */
  function AllTreeRows(trees: seq<Tree>): (rows: seq<TreeRow>)
    decreases |trees|
  {
    if |trees| == 0 then [] else TreeRows(trees[0]) + AllTreeRows(trees[1..])
  }

  /** The number of readable branches over all trees. */
  function ReadableCount(trees: seq<Tree>): nat
    decreases |trees|
  {
    if |trees| == 0 then 0 else |Readable(trees[0].branches)| + ReadableCount(trees[1..])
  }

  /** `analyze_file`: `None` when the file holds no tree; otherwise the rows
      of the trees one after another. The rows of `trees[k]` start after
      those of the trees before it, and row `i` among them records the
      `i`-th readable branch of `trees[k]`, tagged with that tree's name. */
  function AnalyzeFile(trees: seq<Tree>): (r: Option<seq<TreeRow>>)
    ensures r.None? <==> |trees| == 0
    ensures r.Some? ==> |r.value| == ReadableCount(trees)
    ensures r.Some? ==> forall k :: 0 <= k < |trees| ==>
              ReadableCount(trees[..k]) + |Readable(trees[k].branches)| <= |r.value|
    ensures r.Some? ==> forall k, i :: 0 <= k < |trees| && 0 <= i < |Readable(trees[k].branches)| ==>
              r.value[ReadableCount(trees[..k]) + i]
              == TreeRow(trees[k].name, RecordOf(Readable(trees[k].branches)[i].name,
                                                 Readable(trees[k].branches)[i].meta.value))
  {
    if |trees| == 0 then None
    else
      AllTreeRowsFacts(trees);
      AllTreeRowsLayout(trees);
      Some(AllTreeRows(trees))
  }

  /** Row `i` of a tree's rows records its `i`-th readable branch. */
  lemma {:induction false} TreeRowsRecords(tree: string, entries: seq<BranchEntry>)
    ensures forall i :: 0 <= i < |TreeRowsOf(tree, entries)| ==>
              TreeRowsOf(tree, entries)[i]
              == TreeRow(tree, RecordOf(Readable(entries)[i].name, Readable(entries)[i].meta.value))
  {
    BuildersAgree(tree, entries);
    GetBranchInfoMaps(entries);
  }

  /** The rows of a list of trees are the rows of its two halves. */
  lemma {:induction false} AllTreeRowsAppend(a: seq<Tree>, b: seq<Tree>)
    ensures AllTreeRows(a + b) == AllTreeRows(a) + AllTreeRows(b)
    decreases |a|
  {
    if |a| == 0 {
      assert a + b == b;
    } else {
      assert (a + b)[0] == a[0];
      assert (a + b)[1..] == a[1..] + b;
      AllTreeRowsAppend(a[1..], b);
    }
  }

  /** The rows of `trees[k]` sit together, right after the rows of the trees
      before it. */
  lemma AllTreeRowsLayout(trees: seq<Tree>)
    ensures forall k :: 0 <= k < |trees| ==>
              ReadableCount(trees[..k]) + |Readable(trees[k].branches)| <= |AllTreeRows(trees)|
    ensures forall k, i :: 0 <= k < |trees| && 0 <= i < |Readable(trees[k].branches)| ==>
              AllTreeRows(trees)[ReadableCount(trees[..k]) + i]
              == TreeRow(trees[k].name, RecordOf(Readable(trees[k].branches)[i].name,
                                                 Readable(trees[k].branches)[i].meta.value))
  {
    forall k | 0 <= k < |trees|
      ensures ReadableCount(trees[..k]) + |Readable(trees[k].branches)| <= |AllTreeRows(trees)|
    {
      BlockAt(trees, k);
    }
    forall k, i | 0 <= k < |trees| && 0 <= i < |Readable(trees[k].branches)|
      ensures AllTreeRows(trees)[ReadableCount(trees[..k]) + i]
              == TreeRow(trees[k].name, RecordOf(Readable(trees[k].branches)[i].name,
                                                 Readable(trees[k].branches)[i].meta.value))
    {
      BlockAt(trees, k);
      var before, block := AllTreeRows(trees[..k]), TreeRows(trees[k]);
      assert (before + block + AllTreeRows(trees[k + 1..]))[|before| + i] == block[i];
    }
  }

  lemma BlockAt(trees: seq<Tree>, k: nat)
    requires k < |trees|
    ensures AllTreeRows(trees)
            == AllTreeRows(trees[..k]) + TreeRows(trees[k]) + AllTreeRows(trees[k + 1..])
    ensures |AllTreeRows(trees[..k])| == ReadableCount(trees[..k])
    ensures forall i :: 0 <= i < |TreeRows(trees[k])| ==>
              TreeRows(trees[k])[i]
              == TreeRow(trees[k].name, RecordOf(Readable(trees[k].branches)[i].name,
                                                 Readable(trees[k].branches)[i].meta.value))
  {
    var tail := trees[k..];
    assert trees == trees[..k] + tail;
    AllTreeRowsAppend(trees[..k], tail);
    assert tail[0] == trees[k] && tail[1..] == trees[k + 1..];
    AllTreeRowsFacts(trees[..k]);
    TreeRowsRecords(trees[k].name, trees[k].branches);
  }

  lemma {:induction false} AllTreeRowsFacts(trees: seq<Tree>)
    ensures |AllTreeRows(trees)| == ReadableCount(trees)
    ensures forall i :: 0 <= i < |AllTreeRows(trees)| ==>
              exists k :: 0 <= k < |trees| && AllTreeRows(trees)[i].tree == trees[k].name
    decreases |trees|
  {
    if |trees| > 0 {
      AllTreeRowsFacts(trees[1..]);
      var head := TreeRows(trees[0]);
      var rows := AllTreeRows(trees);
      forall i | 0 <= i < |rows|
        ensures exists k :: 0 <= k < |trees| && rows[i].tree == trees[k].name
      {
        if i < |head| {
          assert rows[i] == head[i];
        } else {
          var j := i - |head|;
          assert rows[i] == AllTreeRows(trees[1..])[j];
          var k :| 0 <= k < |trees[1..]| && AllTreeRows(trees[1..])[j].tree == trees[1..][k].name;
          assert trees[1..][k] == trees[k + 1];
        }
      }
    }
  }
}
