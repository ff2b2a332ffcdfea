/**
 * `getRootItemRange`: walk the list, count root entries (paths without a
 * slash), and keep everything from the first root up to the root that would
 * exceed the requested count. On the generator's output this selects whole
 * root blocks, which is how the small sample is cut from the full data.
 */
module RootRange {
  import opened Strings
  import opened TreeTypes
  import opened TreeUtils
  import opened SampleData

  /** `!item.path.includes('/')`: the loop's test for a root entry. */
  predicate IsRootEntry(x: Item)
  {
    !Includes(x.path, "/")
  }

  lemma IncludesChar(s: string, c: char)
    ensures Includes(s, [c]) <==> c in s
  {
    if c in s {
      var i :| 0 <= i < |s| && s[i] == c;
      assert OccursAt(s, [c], i);
    }
    if Includes(s, [c]) {
      var i :| OccursAt(s, [c], i);
      assert s[i] == s[i..i + 1][0];
    }
  }

  /** The loop's root test agrees with the tree builder's: a single path segment. */
  lemma RootEntryIsRootPath(x: Item)
    ensures IsRootEntry(x) <==> IsRootPath(x.path)
  {
    IncludesChar(x.path, '/');
    RootPathHasNoSlash(x.path);
  }

  /** The number of root entries in a list. */
  function RootsIn(s: seq<Item>): nat
  {
    if |s| == 0 then 0 else RootsIn(s[..|s| - 1]) + (if IsRootEntry(s[|s| - 1]) then 1 else 0)
  }

  /** The loop breaks at position `i`: a root entry met with `n` roots already counted. */
  predicate Stops(data: seq<Item>, n: int, i: nat)
    requires i < |data|
  {
    IsRootEntry(data[i]) && RootsIn(data[..i]) >= n
  }

  /** The first position at or after `from` where the loop breaks, or the end of the list. */
  function FirstStop(data: seq<Item>, n: int, from: nat): (i: nat)
    requires from <= |data|
    ensures from <= i <= |data|
    ensures i < |data| ==> Stops(data, n, i)
    ensures forall j :: from <= j < i ==> !Stops(data, n, j)
    decreases |data| - from
  {
    if from == |data| then from
    else if Stops(data, n, from) then from
    else FirstStop(data, n, from + 1)
  }

  /** The position of the first root entry (or the end): where counting starts. */
  function FirstRoot(data: seq<Item>): nat
  {
    FirstStop(data, 0, 0)
  }

  /** Where the range ends: the root entry that would be one too many, or the end. */
  function RangeEnd(data: seq<Item>, n: int): nat
  {
    FirstStop(data, n, 0)
  }

  lemma FirstRootFirst(data: seq<Item>, n: int)
    ensures FirstRoot(data) <= RangeEnd(data, n) <= |data|
  {
    var e := RangeEnd(data, n);
    if e < |data| {
      assert Stops(data, 0, e);
    }
  }

  /** Reference definition: the slice from the first root to the range end. */
  function RootItemRange(data: seq<Item>, n: int): (range: seq<Item>)
    ensures |range| <= |data|
  {
    FirstRootFirst(data, n);
    data[FirstRoot(data)..RangeEnd(data, n)]
  }

  /** `getRootItemRange(data, rootCount)`, with its `for`-loop and `break`. */
  method GetRootItemRange(data: seq<Item>, rootCount: int) returns (result: seq<Item>)
    ensures result == RootItemRange(data, rootCount)
  {
    result := [];
    var rootsFound: int := 0;
    var i := 0;
    ghost var first := FirstRoot(data);
    ghost var end := RangeEnd(data, rootCount);
    FirstRootFirst(data, rootCount);
    while i < |data|
      invariant i <= end
      invariant rootsFound == RootsIn(data[..i])
      invariant rootsFound > 0 ==> rootsFound <= rootCount
      invariant result == if i <= first then [] else data[first..i]
    {
      LoopStep(data, rootCount, i);
      var item := data[i];
      if !Includes(item.path, "/") {
        if rootsFound >= rootCount {
          break;
        }
        rootsFound := rootsFound + 1;
      }
      if rootsFound > 0 && rootsFound <= rootCount {
        result := result + [item];
      }
      i := i + 1;
    }
  }

  // ---------------------------------------------------------------------------
  // Counting roots

  /** One pass of the loop body: when it breaks, what it counts, and when it keeps the item. */
  lemma LoopStep(data: seq<Item>, n: int, i: nat)
    requires i < |data| && i <= RangeEnd(data, n)
    ensures Stops(data, n, i) <==> i == RangeEnd(data, n)
    ensures RootsIn(data[..i + 1]) == RootsIn(data[..i]) + if IsRootEntry(data[i]) then 1 else 0
    ensures RootsIn(data[..i + 1]) > 0 <==> i >= FirstRoot(data)
    ensures RootsIn(data[..i]) > 0 <==> i > FirstRoot(data)
  {
    NoRootsBeforeFirst(data, i + 1);
    NoRootsBeforeFirst(data, i);
    assert data[..i + 1][..i] == data[..i];
  }

  lemma {:induction false} RootsInAppend(a: seq<Item>, b: seq<Item>)
    ensures RootsIn(a + b) == RootsIn(a) + RootsIn(b)
    decreases |b|
  {
    if |b| > 0 {
      assert (a + b)[..|a + b| - 1] == a + b[..|b| - 1];
      assert (a + b)[|a + b| - 1] == b[|b| - 1];
      assert RootsIn(a + b) == RootsIn(a + b[..|b| - 1]) + if IsRootEntry(b[|b| - 1]) then 1 else 0;
      RootsInAppend(a, b[..|b| - 1]);
    } else {
      assert a + b == a;
    }
  }

  /** No root is counted before the first root entry, and one is counted right after it. */
  lemma {:induction false} NoRootsBeforeFirst(data: seq<Item>, i: nat)
    requires i <= |data|
    ensures RootsIn(data[..i]) == 0 <==> i <= FirstRoot(data)
    decreases i
  {
    if i > 0 {
      NoRootsBeforeFirst(data, i - 1);
      assert data[..i][..i - 1] == data[..i - 1];
      if i - 1 == FirstRoot(data) {
        assert Stops(data, 0, i - 1);
      } else if i - 1 < FirstRoot(data) {
        assert !Stops(data, 0, i - 1);
      }
    }
  }

  /** Counting over a longer prefix never gives fewer roots. */
  lemma {:induction false} RootsInMonotone(data: seq<Item>, i: nat, j: nat)
    requires i <= j <= |data|
    ensures RootsIn(data[..i]) <= RootsIn(data[..j])
    decreases j - i
  {
    if i < j {
      RootsInMonotone(data, i, j - 1);
      assert data[..j][..j - 1] == data[..j - 1];
    }
  }

  /** If more than `n` roots lie before `e`, the `n + 1`-st of them is a root met with exactly `n` counted. */
  lemma {:induction false} RootReached(data: seq<Item>, n: nat, e: nat) returns (j: nat)
    requires e <= |data|
    requires RootsIn(data[..e]) > n
    ensures j < e && IsRootEntry(data[j]) && RootsIn(data[..j]) == n
    decreases e
  {
    assert data[..e][..e - 1] == data[..e - 1];
    if RootsIn(data[..e - 1]) > n {
      j := RootReached(data, n, e - 1);
    } else {
      j := e - 1;
    }
  }

  /** A position is the range end when exactly `n` roots precede it and it is a root entry or the end. */
  lemma RangeEndAt(data: seq<Item>, n: nat, e: nat)
    requires e <= |data|
    requires RootsIn(data[..e]) == n
    requires e == |data| || IsRootEntry(data[e])
    ensures RangeEnd(data, n) == e
  {
    forall j | 0 <= j < e
      ensures !Stops(data, n, j)
    {
      if Stops(data, n, j) {
        assert data[..j + 1][..j] == data[..j];
        RootsInMonotone(data, j + 1, e);
        assert false;
      }
    }
    var end := RangeEnd(data, n);
    if end > e {
      assert Stops(data, n, e);
    }
  }

  // ---------------------------------------------------------------------------
  // What the range holds

  /** A non-positive count gives nothing: the loop breaks at the first root. */
  lemma NonPositiveCountEmpty(data: seq<Item>, n: int)
    requires n <= 0
    ensures RootItemRange(data, n) == []
  {
    var first := FirstRoot(data);
    if first < |data| {
      assert Stops(data, 0, first);
      NoRootsBeforeFirst(data, first);
      assert Stops(data, n, first);
    }
    FirstRootFirst(data, n);
  }

  /** A non-empty range starts with a root entry, and the range stops at a root entry or at the end. */
  lemma RangeBounds(data: seq<Item>, n: int)
    ensures |RootItemRange(data, n)| > 0 ==> IsRootEntry(RootItemRange(data, n)[0])
    ensures RangeEnd(data, n) == |data| || IsRootEntry(data[RangeEnd(data, n)])
  {
    FirstRootFirst(data, n);
    var first := FirstRoot(data);
    if first < |data| {
      assert Stops(data, 0, first);
    }
  }

  /** The range holds `rootCount` roots, or every root when there are fewer. */
  lemma RangeRootCount(data: seq<Item>, n: nat)
    ensures RootsIn(RootItemRange(data, n)) == if RootsIn(data) < n then RootsIn(data) else n
  {
    RangeSliceCount(data, n);
    RangeEndCount(data, n);
  }

  /** No roots lie before the first root entry, so the range counts as many roots as the list up to the range end. */
  lemma RangeSliceCount(data: seq<Item>, n: nat)
    ensures RootsIn(RootItemRange(data, n)) == RootsIn(data[..RangeEnd(data, n)])
  {
    FirstRootFirst(data, n);
    var first := FirstRoot(data);
    var end := RangeEnd(data, n);
    NoRootsBeforeFirst(data, first);
    assert data[..end] == data[..first] + data[first..end];
    RootsInAppend(data[..first], data[first..end]);
  }

  /** Up to the range end the loop has met `n` roots, or every root when there are fewer. */
  lemma RangeEndCount(data: seq<Item>, n: nat)
    ensures RootsIn(data[..RangeEnd(data, n)]) == if RootsIn(data) < n then RootsIn(data) else n
  {
    var end := RangeEnd(data, n);
    if RootsIn(data[..end]) > n {
      var j := RootReached(data, n, end);
      assert Stops(data, n, j);
    }
    assert data[..|data|] == data;
    RootsInMonotone(data, end, |data|);
  }

  // ---------------------------------------------------------------------------
  // On the generated data

  /** An item whose path contains a slash. */
  predicate Nested(x: Item)
  {
    '/' in x.path
  }

  lemma {:induction false} NestedCountsNoRoots(s: seq<Item>)
    requires forall k :: 0 <= k < |s| ==> Nested(s[k])
    ensures RootsIn(s) == 0
    decreases |s|
  {
    if |s| > 0 {
      NestedCountsNoRoots(s[..|s| - 1]);
      IncludesChar(s[|s| - 1].path, '/');
    }
  }

  lemma SlashInJoin(a: string, b: string)
    ensures '/' in a + "/" + b
  {
    assert (a + "/" + b)[|a|] == '/';
  }

  lemma {:induction false} LeafChildrenNested(r: nat, first: nat, n: nat, labels: Labels)
    ensures forall k :: 0 <= k < n ==> Nested(LeafChildren(r, first, n, labels)[k])
    decreases n
  {
    if n > 0 {
      LeafChildrenNested(r, first, n - 1, labels);
      SlashInJoin(S(r), S(r) + "-" + S(first + n));
    }
  }

  lemma {:induction false} GrandchildrenNested(r: nat, c: nat, n: nat, labels: Labels)
    ensures forall k :: 0 <= k < n ==> Nested(Grandchildren(r, c, n, labels)[k])
    decreases n
  {
    if n > 0 {
      GrandchildrenNested(r, c, n - 1, labels);
      var branchId := S(r) + "-" + S(c);
      var id := S(r) + "-" + S(c) + "-" + S(n);
      assert (S(r) + "/" + branchId + "/" + id) == S(r) + "/" + (branchId + "/" + id);
      SlashInJoin(S(r), branchId + "/" + id);
    }
  }

  lemma {:induction false} BranchesNested(r: nat, n: nat, labels: Labels)
    ensures forall k :: 0 <= k < 3 * n ==> Nested(Branches(r, n, labels)[k])
    decreases n
  {
    if n > 0 {
      BranchesNested(r, n - 1, labels);
      GrandchildrenNested(r, n, GrandchildCount, labels);
      SlashInJoin(S(r), S(r) + "-" + S(n));
      var front := Branches(r, n - 1, labels) + [BranchItem(r, n, labels)];
      assert forall k :: 0 <= k < |front| ==> Nested(front[k]);
    }
  }

  /** Every item of a root's block except the first has a slash in its path. */
  lemma BlockNested(r: nat, labels: Labels)
    ensures forall k :: 1 <= k < |GenerateRootItem(r, labels)| ==> Nested(GenerateRootItem(r, labels)[k])
  {
    match TemplateOf(r)
    case Leaf =>
    case Depth2(count) =>
      LeafChildrenNested(r, 0, count, labels);
    case Depth3(b, l) =>
      BranchesNested(r, b, labels);
      LeafChildrenNested(r, b, l, labels);
  }

  /** Each generated block holds exactly one root entry, at its head. */
  lemma BlockOneRoot(r: nat, labels: Labels)
    ensures IsRootEntry(GenerateRootItem(r, labels)[0])
    ensures RootsIn(GenerateRootItem(r, labels)) == 1
  {
    var block := GenerateRootItem(r, labels);
    IncludesChar(block[0].path, '/');
    assert block[0].path == S(r);
    BlockNested(r, labels);
    assert block == [block[0]] + block[1..];
    NestedCountsNoRoots(block[1..]);
    RootsInAppend([block[0]], block[1..]);
    assert [block[0]][..0] == [];
  }

  lemma {:induction false} GeneratedRootCount(n: nat, labels: Labels)
    ensures RootsIn(GenerateRoots(n, labels)) == n
    decreases n
  {
    if n > 0 {
      GeneratedRootCount(n - 1, labels);
      BlockOneRoot(n, labels);
      RootsInAppend(GenerateRoots(n - 1, labels), GenerateRootItem(n, labels));
    }
  }

  /** The blocks of roots `1 .. k` are a prefix of the blocks of roots `1 .. n`. */
  lemma GeneratedPrefix(k: nat, n: nat, labels: Labels)
    requires k <= n
    ensures |GenerateRoots(k, labels)| <= |GenerateRoots(n, labels)|
    ensures GenerateRoots(n, labels)[..|GenerateRoots(k, labels)|] == GenerateRoots(k, labels)
  {
    var a := GenerateRoots(n, labels);
    var c := GenerateRoots(k, labels);
    if |c| > 0 {
      GeneratedAt(k, n, labels, |c| - 1);
    }
    forall i | 0 <= i < |c|
      ensures a[i] == c[i]
    {
      GeneratedAt(k, n, labels, i);
    }
    PrefixFromPointwise(a, c);
  }

  /** Position `i` of the blocks of roots `1 .. k` holds the same item in the blocks of roots `1 .. n`. */
  lemma {:induction false} GeneratedAt(k: nat, n: nat, labels: Labels, i: nat)
    requires k <= n && i < |GenerateRoots(k, labels)|
    ensures i < |GenerateRoots(n, labels)| && GenerateRoots(n, labels)[i] == GenerateRoots(k, labels)[i]
    decreases n
  {
    if k < n {
      GeneratedAt(k, n - 1, labels, i);
      GeneratedStep(n, labels);
      AppendAt(GenerateRoots(n - 1, labels), GenerateRootItem(n, labels), i);
    }
  }

  lemma GeneratedStep(n: nat, labels: Labels)
    requires n > 0
    ensures GenerateRoots(n, labels) == GenerateRoots(n - 1, labels) + GenerateRootItem(n, labels)
  {
  }

  lemma AppendAt(a: seq<Item>, b: seq<Item>, i: nat)
    requires i < |a|
    ensures i < |a + b| && (a + b)[i] == a[i]
  {
  }

  lemma PrefixFromPointwise(a: seq<Item>, c: seq<Item>)
    requires |c| <= |a|
    requires forall i :: 0 <= i < |c| ==> a[i] == c[i]
    ensures a[..|c|] == c
  {
  }

  /** After the blocks of roots `1 .. k` comes the next root, unless the data ends there. */
  lemma GeneratedNextRoot(k: nat, n: nat, labels: Labels)
    requires k <= n
    ensures |GenerateRoots(k, labels)| < |GenerateRoots(n, labels)| ==>
      IsRootEntry(GenerateRoots(n, labels)[|GenerateRoots(k, labels)|])
  {
    if k < n {
      GeneratedPrefix(k + 1, n, labels);
      BlockOneRoot(k + 1, labels);
      IndexAfterPrefix(GenerateRoots(n, labels), GenerateRoots(k, labels), GenerateRootItem(k + 1, labels));
    }
  }

  lemma IndexAfterPrefix(data: seq<Item>, a: seq<Item>, b: seq<Item>)
    requires |b| > 0 && |a + b| <= |data| && data[..|a + b|] == a + b
    ensures |a| < |data| && data[|a|] == b[0]
  {
    assert data[|a|] == data[..|a + b|][|a|];
  }

  /** The generated data starts with a root entry, so counting starts at its head. */
  lemma GeneratedFirstRoot(n: nat, labels: Labels)
    requires n > 0
    ensures FirstRoot(GenerateRoots(n, labels)) == 0
  {
    var data := GenerateRoots(n, labels);
    GeneratedPrefix(1, n, labels);
    BlockOneRoot(1, labels);
    var one := GenerateRoots(1, labels);
    assert one == [] + GenerateRootItem(1, labels);
    assert data[..|one|][0] == one[0];
    assert Stops(data, 0, 0);
  }

  /** Asking the generated data for `k` roots gives exactly the blocks of roots `1 .. k`. */
  lemma GeneratedRange(k: nat, n: nat, labels: Labels)
    requires k <= n
    ensures RootItemRange(GenerateRoots(n, labels), k) == GenerateRoots(k, labels)
  {
    var data := GenerateRoots(n, labels);
    var e := |GenerateRoots(k, labels)|;
    GeneratedPrefix(k, n, labels);
    GeneratedRootCount(k, labels);
    GeneratedNextRoot(k, n, labels);
    RangeEndAt(data, k, e);
    if n > 0 {
      GeneratedFirstRoot(n, labels);
    } else {
      assert data == [];
    }
  }

  /** `createSampleData`: the first seven root blocks of the full data. */
  function CreateSampleData(labels: Labels): (items: seq<Item>)
    ensures items == GenerateRoots(7, labels)
  {
    GeneratedRange(7, 200, labels);
    RootItemRange(GenerateAllData(labels), 7)
  }
}
