/**
 * `fetchChildPages` (scripts/notion-sync.js): the depth-first walk that
 * turns the remote page tree into an ordered list of page records.
 */
module TreeWalker {
  import opened Wrappers
  import opened Notion

  /** `page_size: 100`, with no pagination cursor followed. */
  const PageSize: nat := 100

  /** The `pageInfo` object built for each discovered page. */
  datatype PageRecord = PageRecord(
    page: Page,
    parent: Option<string>,
    parentTitle: Option<string>,
    hierarchy: seq<string>,
    tags: seq<string>,
    level: nat,
    id: string,
    title: string)

  /** The blocks one `blocks.children.list` call returns: at most the first `PageSize`. */
  function Listed(blocks: seq<Block>): (r: seq<Block>)
    ensures |r| <= PageSize && |r| <= |blocks|
    ensures r == blocks[..|r|]
    ensures |blocks| <= PageSize ==> r == blocks
  {
    if |blocks| <= PageSize then blocks else blocks[..PageSize]
  }

  // ---------------------------------------------------------------------
  // Termination measure for the walk
  // ---------------------------------------------------------------------

  function BlockSize(b: Block): nat
    decreases b
  {
    match b
    case OtherBlock => 1
    case ChildPage(_, _, children) => 1 + ListSize(children)
  }

  function ListSize(blocks: seq<Block>): nat
    decreases blocks
  {
    if |blocks| == 0 then 0 else BlockSize(blocks[0]) + ListSize(blocks[1..])
  }

  lemma {:induction false} ListSizePrefix(blocks: seq<Block>, n: nat)
    requires n <= |blocks|
    ensures ListSize(blocks[..n]) <= ListSize(blocks)
    decreases n
  {
    if n > 0 {
      assert blocks[..n][1..] == blocks[1..][..n - 1];
      ListSizePrefix(blocks[1..], n - 1);
    }
  }

  // ---------------------------------------------------------------------
  // The walk
  // ---------------------------------------------------------------------

  /** The record for `page` found under `parentInfo` at `level`. */
  function MakeRecord(page: Page, parentInfo: Option<PageRecord>, level: nat): PageRecord {
    var title := GetPageTitle(page);
    match parentInfo
    case None => PageRecord(page, None, None, [title], [], level, page.id, title)
    case Some(p) => PageRecord(page, Some(p.id), Some(p.title), p.hierarchy + [title], p.tags, level, page.id, title)
  }

  /**
   * `fetchChildPages(blockId, parentInfo, level)` for a node whose listing
   * threw `listError` or returned `blocks`. Any error aborts the whole call.
   */
  function FetchChildPages(listError: Option<string>, blocks: seq<Block>, parentInfo: Option<PageRecord>, level: nat): Result<seq<PageRecord>>
    decreases ListSize(blocks), 1
  {
    if listError.Some? then Err(listError.value)
    else
      ListSizePrefix(blocks, |Listed(blocks)|);
      WalkBlocks(Listed(blocks), parentInfo, level)
  }

  /**
   * The `for (const block of response.results)` loop: each `child_page`
   * block is retrieved, recorded, and then walked before its next sibling;
   * every other block is skipped.
   */
  function WalkBlocks(blocks: seq<Block>, parentInfo: Option<PageRecord>, level: nat): Result<seq<PageRecord>>
    decreases ListSize(blocks), 0
  {
    if |blocks| == 0 then Ok([])
    else
      assert ListSize(blocks) == BlockSize(blocks[0]) + ListSize(blocks[1..]);
      match blocks[0]
      case OtherBlock => WalkBlocks(blocks[1..], parentInfo, level)
      case ChildPage(retrieved, listError, children) =>
        if retrieved.Err? then Err(retrieved.error)
        else
          var record := MakeRecord(retrieved.value, parentInfo, level);
          var below := FetchChildPages(listError, children, Some(record), level + 1);
          if below.Err? then below
          else
            var after := WalkBlocks(blocks[1..], parentInfo, level);
            if after.Err? then after
            else Ok([record] + below.value + after.value)
  }

  /** The walk from the configured root page, whose listing threw `rootError` or returned `rootBlocks`. */
  function Discover(rootError: Option<string>, rootBlocks: seq<Block>): Result<seq<PageRecord>> {
    FetchChildPages(rootError, rootBlocks, None, 0)
  }

  // ---------------------------------------------------------------------
  // Reference definitions over the visible tree
  // ---------------------------------------------------------------------

  /** Every `child_page` block among `blocks`, and below them within the listing limit, can be retrieved and listed. */
  predicate BlocksOk(blocks: seq<Block>)
    decreases ListSize(blocks)
  {
    if |blocks| == 0 then true
    else
      assert ListSize(blocks) == BlockSize(blocks[0]) + ListSize(blocks[1..]);
      && (match blocks[0]
          case OtherBlock => true
          case ChildPage(retrieved, listError, children) =>
            ListSizePrefix(children, |Listed(children)|);
            retrieved.Ok? && listError.None? && BlocksOk(Listed(children)))
      && BlocksOk(blocks[1..])
  }

  /** The number of `child_page` blocks among `blocks` and below them, within the listing limit. */
  function CountPages(blocks: seq<Block>): nat
    decreases ListSize(blocks)
  {
    if |blocks| == 0 then 0
    else
      assert ListSize(blocks) == BlockSize(blocks[0]) + ListSize(blocks[1..]);
      (match blocks[0]
       case OtherBlock => 0
       case ChildPage(_, _, children) =>
         ListSizePrefix(children, |Listed(children)|);
         1 + CountPages(Listed(children)))
      + CountPages(blocks[1..])
  }

  /**
   * The pages of the visible tree in pre-order: each retrieved
   * `child_page` block, followed by the pages under it, before its next
   * sibling; other blocks contribute nothing.
   */
  function VisiblePages(blocks: seq<Block>): seq<Page>
    decreases ListSize(blocks)
  {
    if |blocks| == 0 then []
    else
      assert ListSize(blocks) == BlockSize(blocks[0]) + ListSize(blocks[1..]);
      (match blocks[0]
       case OtherBlock => []
       case ChildPage(retrieved, _, children) =>
         ListSizePrefix(children, |Listed(children)|);
         if retrieved.Ok? then [retrieved.value] + VisiblePages(Listed(children)) else [])
      + VisiblePages(blocks[1..])
  }

  /**
   * The depth of each page of `VisiblePages(blocks)` in the same order,
   * for pages found at `level`: a page's own pages lie one level deeper.
   */
  function VisibleDepths(blocks: seq<Block>, level: nat): seq<nat>
    decreases ListSize(blocks)
  {
    if |blocks| == 0 then []
    else
      assert ListSize(blocks) == BlockSize(blocks[0]) + ListSize(blocks[1..]);
      (match blocks[0]
       case OtherBlock => []
       case ChildPage(retrieved, _, children) =>
         ListSizePrefix(children, |Listed(children)|);
         if retrieved.Ok? then [level] + VisibleDepths(Listed(children), level + 1) else [])
      + VisibleDepths(blocks[1..], level)
  }

  /** The levels of the records, in order. */
  function LevelsOf(rs: seq<PageRecord>): (ls: seq<nat>)
    ensures |ls| == |rs| && forall j :: 0 <= j < |rs| ==> ls[j] == rs[j].level
  {
    seq(|rs|, j requires 0 <= j < |rs| => rs[j].level)
  }

  /** The pages the records stand for, in order. */
  function PagesOf(rs: seq<PageRecord>): (ps: seq<Page>)
    ensures |ps| == |rs| && forall j :: 0 <= j < |rs| ==> ps[j] == rs[j].page
  {
    seq(|rs|, j requires 0 <= j < |rs| => rs[j].page)
  }

  /**
   * The walk succeeds exactly when nothing it visits fails, and then it
   * returns one record per visible `child_page` block: other blocks are
   * neither recorded nor descended into, and a failure anywhere fails the
   * whole walk.
   */
  lemma {:induction false} WalkBlocksOutcome(blocks: seq<Block>, parentInfo: Option<PageRecord>, level: nat)
    ensures WalkBlocks(blocks, parentInfo, level).Ok? <==> BlocksOk(blocks)
    ensures WalkBlocks(blocks, parentInfo, level).Ok? ==> |WalkBlocks(blocks, parentInfo, level).value| == CountPages(blocks)
    decreases ListSize(blocks)
  {
    if |blocks| > 0 {
      assert ListSize(blocks) == BlockSize(blocks[0]) + ListSize(blocks[1..]);
      WalkBlocksOutcome(blocks[1..], parentInfo, level);
      match blocks[0]
      case OtherBlock =>
      case ChildPage(retrieved, listError, children) =>
        if retrieved.Ok? {
          var record := MakeRecord(retrieved.value, parentInfo, level);
          ListSizePrefix(children, |Listed(children)|);
          WalkBlocksOutcome(Listed(children), Some(record), level + 1);
        }
    }
  }

  /** The same statement for a whole node, including its own listing. */
  lemma FetchChildPagesOutcome(listError: Option<string>, blocks: seq<Block>, parentInfo: Option<PageRecord>, level: nat)
    ensures FetchChildPages(listError, blocks, parentInfo, level).Ok? <==> listError.None? && BlocksOk(Listed(blocks))
    ensures FetchChildPages(listError, blocks, parentInfo, level).Ok? ==>
      |FetchChildPages(listError, blocks, parentInfo, level).value| == CountPages(Listed(blocks))
  {
    WalkBlocksOutcome(Listed(blocks), parentInfo, level);
  }

  /**
   * The records of a successful walk are the visible pages themselves, one
   * each, in pre-order and in sibling order.
   */
  lemma {:induction false} WalkBlocksPages(blocks: seq<Block>, parentInfo: Option<PageRecord>, level: nat)
    ensures var r := WalkBlocks(blocks, parentInfo, level);
      r.Ok? ==> PagesOf(r.value) == VisiblePages(blocks)
    decreases ListSize(blocks)
  {
    var r := WalkBlocks(blocks, parentInfo, level);
    if |blocks| > 0 && r.Ok? {
      assert ListSize(blocks) == BlockSize(blocks[0]) + ListSize(blocks[1..]);
      WalkBlocksPages(blocks[1..], parentInfo, level);
      match blocks[0]
      case OtherBlock =>
      case ChildPage(retrieved, listError, children) =>
        var record := MakeRecord(retrieved.value, parentInfo, level);
        ListSizePrefix(children, |Listed(children)|);
        WalkBlocksPages(Listed(children), Some(record), level + 1);
        var below := WalkBlocks(Listed(children), Some(record), level + 1).value;
        var after := WalkBlocks(blocks[1..], parentInfo, level).value;
        assert r.value == [record] + below + after;
        PagesOfConcat(record, below, after);
    }
  }

  lemma PagesOfConcat(record: PageRecord, below: seq<PageRecord>, after: seq<PageRecord>)
    ensures PagesOf([record] + below + after) == [record.page] + PagesOf(below) + PagesOf(after)
  {
    var rs := [record] + below + after;
    var pb, pa := PagesOf(below), PagesOf(after);
    var ps := [record.page] + pb + pa;
    forall j | 0 <= j < |rs|
      ensures PagesOf(rs)[j] == ps[j]
    {
      if j == 0 {
      } else if j <= |below| {
        MiddleAt([record], below, after, j - 1);
        MiddleAt([record.page], pb, pa, j - 1);
      } else {
        MiddleAt([record] + below, after, [], j - 1 - |below|);
        MiddleAt([record.page] + pb, pa, [], j - 1 - |below|);
        assert rs == [record] + below + after + [];
        assert ps == [record.page] + pb + pa + [];
      }
    }
  }

  /** The records of a successful walk carry the depth of their page in the tree as their level. */
  lemma {:induction false} WalkBlocksLevels(blocks: seq<Block>, parentInfo: Option<PageRecord>, level: nat)
    ensures var r := WalkBlocks(blocks, parentInfo, level);
      r.Ok? ==> LevelsOf(r.value) == VisibleDepths(blocks, level)
    decreases ListSize(blocks)
  {
    var r := WalkBlocks(blocks, parentInfo, level);
    if |blocks| > 0 && r.Ok? {
      assert ListSize(blocks) == BlockSize(blocks[0]) + ListSize(blocks[1..]);
      WalkBlocksLevels(blocks[1..], parentInfo, level);
      match blocks[0]
      case OtherBlock =>
      case ChildPage(retrieved, listError, children) =>
        var record := MakeRecord(retrieved.value, parentInfo, level);
        ListSizePrefix(children, |Listed(children)|);
        WalkBlocksLevels(Listed(children), Some(record), level + 1);
        var below := WalkBlocks(Listed(children), Some(record), level + 1).value;
        var after := WalkBlocks(blocks[1..], parentInfo, level).value;
        assert r.value == [record] + below + after;
        LevelsOfConcat(record, below, after);
    }
  }

  lemma LevelsOfConcat(record: PageRecord, below: seq<PageRecord>, after: seq<PageRecord>)
    ensures LevelsOf([record] + below + after) == [record.level] + LevelsOf(below) + LevelsOf(after)
  {
    var rs := [record] + below + after;
    var lb, la := LevelsOf(below), LevelsOf(after);
    var ls := [record.level] + lb + la;
    forall j | 0 <= j < |rs|
      ensures LevelsOf(rs)[j] == ls[j]
    {
      if j == 0 {
      } else if j <= |below| {
        MiddleAt([record], below, after, j - 1);
        MiddleAt([record.level], lb, la, j - 1);
      } else {
        MiddleAt([record] + below, after, [], j - 1 - |below|);
        MiddleAt([record.level] + lb, la, [], j - 1 - |below|);
        assert rs == [record] + below + after + [];
        assert ls == [record.level] + lb + la + [];
      }
    }
  }

  /** From the root, a record's level is its page's depth below the root page, the root's children at 0. */
  lemma DiscoverLevels(rootError: Option<string>, rootBlocks: seq<Block>)
    ensures var r := Discover(rootError, rootBlocks);
      r.Ok? ==> LevelsOf(r.value) == VisibleDepths(Listed(rootBlocks), 0)
  {
    WalkBlocksLevels(Listed(rootBlocks), None, 0);
  }

  /** The records of a successful walk from the root are the visible pages of the root's listing, in pre-order. */
  lemma DiscoverPages(rootError: Option<string>, rootBlocks: seq<Block>)
    ensures var r := Discover(rootError, rootBlocks);
      r.Ok? ==> PagesOf(r.value) == VisiblePages(Listed(rootBlocks))
  {
    WalkBlocksPages(Listed(rootBlocks), None, 0);
  }

  /** Blocks past the first `PageSize` of a listing are never seen. */
  lemma BeyondPageSizeIgnored(listError: Option<string>, blocks: seq<Block>, more: seq<Block>, parentInfo: Option<PageRecord>, level: nat)
    requires |blocks| >= PageSize
    ensures FetchChildPages(listError, blocks + more, parentInfo, level) == FetchChildPages(listError, blocks, parentInfo, level)
  {
    assert Listed(blocks + more) == Listed(blocks);
  }

  // ---------------------------------------------------------------------
  // Shape of the records
  // ---------------------------------------------------------------------

  /** What every record satisfies on its own. */
  predicate RecordOk(r: PageRecord) {
    && |r.hierarchy| == r.level + 1
    && r.hierarchy[|r.hierarchy| - 1] == r.title
    && r.tags == []
    && (r.parent.None? <==> r.level == 0)
    && (r.parentTitle.None? <==> r.level == 0)
    && r.id == r.page.id
    && r.title == GetPageTitle(r.page)
  }

  predicate AllRecordsOk(rs: seq<PageRecord>) {
    forall j :: 0 <= j < |rs| ==> RecordOk(rs[j])
  }

  /** `child` was found directly under `parent`. */
  predicate ChildOf(child: PageRecord, parent: PageRecord) {
    && child.parent == Some(parent.id)
    && child.parentTitle == Some(parent.title)
    && child.hierarchy == parent.hierarchy + [child.title]
    && child.level == parent.level + 1
  }

  /** A record found directly under the walk's starting context. */
  predicate Attached(r: PageRecord, parentInfo: Option<PageRecord>) {
    match parentInfo
    case None => r.parent.None? && r.parentTitle.None? && r.hierarchy == [r.title]
    case Some(p) => ChildOf(r, p)
  }

  /** The context a walk at `level` is started with: the root at 0, or a well-formed parent one level up. */
  predicate ContextOk(parentInfo: Option<PageRecord>, level: nat) {
    match parentInfo
    case None => level == 0
    case Some(p) => RecordOk(p) && level == p.level + 1
  }

  /**
   * The records of a walk started at `level` under `parentInfo` lie in
   * pre-order: every record is at `level` or deeper; those at `level` hang
   * directly under the starting context; and each deeper record hangs under
   * the nearest earlier record one level up, with every record in between
   * at least as deep as itself (earlier siblings and their descendants).
   */
  predicate PreOrder(rs: seq<PageRecord>, parentInfo: Option<PageRecord>, level: nat) {
    && (forall j :: 0 <= j < |rs| ==> rs[j].level >= level)
    && (forall j :: 0 <= j < |rs| && rs[j].level == level ==> Attached(rs[j], parentInfo))
    && (forall j {:trigger HasParentBefore(rs, j)} :: 0 <= j < |rs| && rs[j].level > level ==> HasParentBefore(rs, j))
  }

  /** `rs[i]` is the parent of `rs[j]`, and every record in between is at least as deep as `rs[j]`. */
  predicate IsParentAt(rs: seq<PageRecord>, i: nat, j: nat) {
    && i < j < |rs|
    && ChildOf(rs[j], rs[i])
    && forall k :: i < k < j ==> rs[k].level >= rs[j].level
  }

  predicate HasParentBefore(rs: seq<PageRecord>, j: nat) {
    exists i: nat :: i < j && IsParentAt(rs, i, j)
  }

  /** Every record of a walk is well formed and the records lie in pre-order. */
  lemma {:induction false} WalkBlocksShape(blocks: seq<Block>, parentInfo: Option<PageRecord>, level: nat)
    requires ContextOk(parentInfo, level)
    ensures var r := WalkBlocks(blocks, parentInfo, level);
      r.Ok? ==> AllRecordsOk(r.value) && PreOrder(r.value, parentInfo, level)
    decreases ListSize(blocks)
  {
    var r := WalkBlocks(blocks, parentInfo, level);
    if |blocks| > 0 && r.Ok? {
      assert ListSize(blocks) == BlockSize(blocks[0]) + ListSize(blocks[1..]);
      WalkBlocksShape(blocks[1..], parentInfo, level);
      match blocks[0]
      case OtherBlock =>
      case ChildPage(retrieved, listError, children) =>
        var record := MakeRecord(retrieved.value, parentInfo, level);
        MakeRecordOk(retrieved.value, parentInfo, level);
        ListSizePrefix(children, |Listed(children)|);
        WalkBlocksShape(Listed(children), Some(record), level + 1);
        var below := WalkBlocks(Listed(children), Some(record), level + 1).value;
        var after := WalkBlocks(blocks[1..], parentInfo, level).value;
        assert r.value == [record] + below + after;
        ConcatAllOk(record, below, after);
        ConcatPreOrder(record, below, after, parentInfo, level);
    }
  }

  /** A record made in a well-formed context is well formed, hangs under that context, and is a context for the next level. */
  lemma MakeRecordOk(page: Page, parentInfo: Option<PageRecord>, level: nat)
    requires ContextOk(parentInfo, level)
    ensures var record := MakeRecord(page, parentInfo, level);
      RecordOk(record) && record.level == level && Attached(record, parentInfo) && ContextOk(Some(record), level + 1)
  {
  }

  lemma ConcatAllOk(record: PageRecord, below: seq<PageRecord>, after: seq<PageRecord>)
    requires RecordOk(record) && AllRecordsOk(below) && AllRecordsOk(after)
    ensures AllRecordsOk([record] + below + after)
  {
    ConcatLayout(record, below, after);
    var rs := [record] + below + after;
    forall j | 0 <= j < |rs|
      ensures RecordOk(rs[j])
    {
      if 1 <= j <= |below| {
        assert rs[j] == below[j - 1];
      } else if j > |below| {
        assert rs[j] == after[j - 1 - |below|];
      }
    }
  }

  /** `[record] + below + after` is in pre-order when its parts are. */
  lemma ConcatPreOrder(record: PageRecord, below: seq<PageRecord>, after: seq<PageRecord>, parentInfo: Option<PageRecord>, level: nat)
    requires record.level == level && Attached(record, parentInfo)
    requires PreOrder(below, Some(record), level + 1)
    requires PreOrder(after, parentInfo, level)
    ensures PreOrder([record] + below + after, parentInfo, level)
  {
    var rs := [record] + below + after;
    forall j | 0 <= j < |rs| && rs[j].level > level
      ensures HasParentBefore(rs, j)
    {
      if j <= |below| {
        ParentInBelow(record, below, after, level, j);
      } else {
        ParentInAfter(record, below, after, parentInfo, level, j);
      }
    }
  }

  /** Where the parts of `[record] + below + after` sit. */
  lemma ConcatLayout(record: PageRecord, below: seq<PageRecord>, after: seq<PageRecord>)
    ensures var rs := [record] + below + after;
      && |rs| == 1 + |below| + |after|
      && rs[0] == record
      && (forall k :: 0 <= k < |below| ==> rs[1 + k] == below[k])
      && (forall k :: 0 <= k < |after| ==> rs[1 + |below| + k] == after[k])
  {
  }

  /** A parent found inside a run of records is still found once the run sits at `off` of a longer sequence. */
  lemma ParentShifted(pre: seq<PageRecord>, xs: seq<PageRecord>, post: seq<PageRecord>, jx: nat, j: nat)
    requires jx < |xs| && HasParentBefore(xs, jx) && j == |pre| + jx
    ensures HasParentBefore(pre + xs + post, j)
  {
    var rs, off := pre + xs + post, |pre|;
    var ix: nat :| ix < jx && IsParentAt(xs, ix, jx);
    var i := off + ix;
    MiddleAt(pre, xs, post, ix);
    MiddleAt(pre, xs, post, jx);
    forall k | i < k < j
      ensures rs[k].level >= rs[j].level
    {
      MiddleAt(pre, xs, post, k - off);
    }
    assert IsParentAt(rs, i, j);
  }

  lemma MiddleAt<T>(pre: seq<T>, xs: seq<T>, post: seq<T>, k: nat)
    requires k < |xs|
    ensures |pre| + k < |pre + xs + post| && (pre + xs + post)[|pre| + k] == xs[k]
  {
  }

  lemma ParentInBelow(record: PageRecord, below: seq<PageRecord>, after: seq<PageRecord>, level: nat, j: nat)
    requires PreOrder(below, Some(record), level + 1)
    requires 0 < j <= |below|
    ensures HasParentBefore([record] + below + after, j)
  {
    var rs := [record] + below + after;
    ConcatLayout(record, below, after);
    var jb := j - 1;
    if below[jb].level == level + 1 {
      assert Attached(below[jb], Some(record));
      assert ChildOf(rs[j], rs[0]);
      forall k | 0 < k < j
        ensures rs[k].level >= rs[j].level
      {
        assert rs[k] == below[k - 1];
      }
      assert IsParentAt(rs, 0, j);
    } else {
      ParentShifted([record], below, after, jb, j);
    }
  }

  lemma ParentInAfter(record: PageRecord, below: seq<PageRecord>, after: seq<PageRecord>, parentInfo: Option<PageRecord>, level: nat, j: nat)
    requires PreOrder(after, parentInfo, level)
    requires |below| < j < 1 + |below| + |after|
    requires ([record] + below + after)[j].level > level
    ensures HasParentBefore([record] + below + after, j)
  {
    var rs := [record] + below + after;
    ConcatLayout(record, below, after);
    var ja := j - 1 - |below|;
    assert rs[j] == after[ja];
    assert HasParentBefore(after, ja);
    ParentShifted([record] + below, after, [], ja, j);
    assert rs == [record] + below + after + [];
  }

  /** The walk from the root yields well-formed records in pre-order, starting at level 0. */
  lemma DiscoverShape(rootError: Option<string>, rootBlocks: seq<Block>)
    ensures var r := Discover(rootError, rootBlocks);
      r.Ok? ==> AllRecordsOk(r.value) && PreOrder(r.value, None, 0)
  {
    WalkBlocksShape(Listed(rootBlocks), None, 0);
  }
}
