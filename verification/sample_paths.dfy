/**
 * The generator's output follows the path convention the tree builder and
 * the filters rely on. Each generated item is addressed by a key, the list of
 * numbers `[r]`, `[r, c]` or `[r, c, j]`: its id is the key's numbers joined
 * with `-`, and its path is its parent's path, a slash and its id. Keys are
 * emitted without repetition and every key's parent is emitted too.
 */
module SamplePaths {
  import opened Wrappers
  import opened Strings
  import opened Seqs
  import opened TreeTypes
  import opened TreeUtils
  import opened BuildTree
  import opened SampleData

  // ---------------------------------------------------------------------------
  // Ids and paths of keys

  /** The id of a key: its numbers in decimal, joined with `-`. */
  function IdOf(key: seq<nat>): string
  {
    Join(Map(key, S), '-')
  }

  /** The path of a key: the parent key's path, a slash and the key's id. */
  function PathOf(key: seq<nat>): string
    requires |key| >= 1
  {
    if |key| == 1 then IdOf(key) else PathOf(key[..|key| - 1]) + "/" + IdOf(key)
  }

  /** An item addressed by `key`. */
  predicate Keyed(x: Item, key: seq<nat>)
  {
    |key| >= 1 && x.id == IdOf(key) && x.path == PathOf(key)
  }

  predicate KeyedAll(items: seq<Item>, keys: seq<seq<nat>>)
  {
    |items| == |keys| && forall i :: 0 <= i < |items| ==> Keyed(items[i], keys[i])
  }

  predicate Distinct(keys: seq<seq<nat>>)
  {
    forall i, j :: 0 <= i < j < |keys| ==> keys[i] != keys[j]
  }

  /** Every key longer than one number has its parent key earlier in the list. */
  predicate ParentClosed(keys: seq<seq<nat>>)
  {
    forall i :: 0 <= i < |keys| && |keys[i]| > 1 ==> keys[i][..|keys[i]| - 1] in keys[..i]
  }

  /** Every item that names a parent comes after an item with that id. */
  predicate ParentsEarlier(items: seq<Item>)
  {
    forall i :: 0 <= i < |items| && ParentId(items[i].path).Some? ==>
      exists j :: 0 <= j < i && ParentId(items[i].path) == Some(items[j].id)
  }

  lemma {:induction false} JoinAvoids(parts: seq<string>, sep: char, c: char)
    requires c != sep
    requires forall k :: 0 <= k < |parts| ==> c !in parts[k]
    ensures c !in Join(parts, sep)
    decreases |parts|
  {
    if |parts| > 1 {
      JoinAvoids(parts[1..], sep, c);
    }
  }

  lemma DigitsAvoid(n: nat, c: char)
    requires !IsDigit(c)
    ensures c !in S(n)
  {
  }

  lemma IdOfAvoidsSlash(key: seq<nat>)
    ensures '/' !in IdOf(key)
  {
    var parts := Map(key, S);
    forall k | 0 <= k < |parts|
      ensures '/' !in parts[k]
    {
      DigitsAvoid(key[k], '/');
    }
    JoinAvoids(parts, '-', '/');
  }

  /** Splitting an id on `-` gives back the decimal forms of the key's numbers. */
  lemma SplitIdOf(key: seq<nat>)
    requires |key| >= 1
    ensures Split(IdOf(key), '-') == Map(key, S)
  {
    var parts := Map(key, S);
    forall k | 0 <= k < |parts|
      ensures '-' !in parts[k]
    {
      DigitsAvoid(key[k], '-');
    }
    SplitJoin(parts, '-');
  }

  /** Distinct keys have distinct ids. */
  lemma IdOfInjective(a: seq<nat>, b: seq<nat>)
    requires |a| >= 1 && |b| >= 1
    requires IdOf(a) == IdOf(b)
    ensures a == b
  {
    SplitIdOf(a);
    SplitIdOf(b);
    assert Map(a, S) == Map(b, S);
    forall k | 0 <= k < |a|
      ensures a[k] == b[k]
    {
      assert S(a[k]) == Map(a, S)[k] == Map(b, S)[k] == S(b[k]);
      NatToStringInjective(a[k], b[k]);
    }
  }

  /** A key's path ends in the key's id, and names the parent key's id as parent. */
  lemma {:induction false} PathOfSegments(key: seq<nat>)
    requires |key| >= 1
    ensures LastSegment(PathOf(key)) == IdOf(key)
    ensures ParentId(PathOf(key)) == if |key| == 1 then None else Some(IdOf(key[..|key| - 1]))
    decreases |key|
  {
    IdOfAvoidsSlash(key);
    if |key| == 1 {
      RootPathAncestors(IdOf(key));
    } else {
      PathOfSegments(key[..|key| - 1]);
      ChildPathAncestors(PathOf(key[..|key| - 1]), IdOf(key));
    }
  }

  /**
   * Keyed items with distinct, parent-closed keys follow the path convention
   * and have no dangling parents.
   */
  lemma KeyedWellFormed(items: seq<Item>, keys: seq<seq<nat>>)
    requires KeyedAll(items, keys) && Distinct(keys) && ParentClosed(keys)
    ensures PathsWellFormed(items)
    ensures ParentsPresent(items)
    ensures ParentsEarlier(items)
  {
    KeyedPathsWellFormed(items, keys);
    KeyedParentsEarlier(items, keys);
    EarlierIsPresent(items);
  }

  lemma EarlierIsPresent(items: seq<Item>)
    requires ParentsEarlier(items)
    ensures ParentsPresent(items)
  {
  }

  lemma KeyedParentsEarlier(items: seq<Item>, keys: seq<seq<nat>>)
    requires KeyedAll(items, keys) && ParentClosed(keys)
    ensures ParentsEarlier(items)
  {
    forall i | 0 <= i < |items| && ParentId(items[i].path).Some?
      ensures exists j :: 0 <= j < i && ParentId(items[i].path) == Some(items[j].id)
    {
      var j := ParentIndex(items, keys, i);
    }
  }

  lemma ParentIndex(items: seq<Item>, keys: seq<seq<nat>>, i: nat) returns (j: nat)
    requires KeyedAll(items, keys) && ParentClosed(keys)
    requires i < |items| && ParentId(items[i].path).Some?
    ensures j < i && ParentId(items[i].path) == Some(items[j].id)
  {
    var key := keys[i];
    assert Keyed(items[i], key);
    PathOfSegments(key);
    var parent := key[..|key| - 1];
    assert parent in keys[..i];
    var k :| 0 <= k < i && keys[..i][k] == parent;
    j := k;
    assert Keyed(items[j], keys[j]);
  }

  lemma KeyedPathsWellFormed(items: seq<Item>, keys: seq<seq<nat>>)
    requires KeyedAll(items, keys) && Distinct(keys)
    ensures PathsWellFormed(items)
  {
    forall i, j | 0 <= i < j < |items|
      ensures items[i].id != items[j].id
    {
      if items[i].id == items[j].id {
        IdOfInjective(keys[i], keys[j]);
      }
    }
    forall i | 0 <= i < |items|
      ensures LastSegment(items[i].path) == items[i].id
    {
      PathOfSegments(keys[i]);
    }
    forall i, j | 0 <= i < |items| && 0 <= j < |items| && ParentId(items[i].path) == Some(items[j].id)
      ensures items[i].path == items[j].path + "/" + items[i].id
    {
      PathOfSegments(keys[i]);
      IdOfInjective(keys[i][..|keys[i]| - 1], keys[j]);
    }
  }

  // ---------------------------------------------------------------------------
  // Combining lists

  lemma KeyedAllAppend(a: seq<Item>, ka: seq<seq<nat>>, b: seq<Item>, kb: seq<seq<nat>>)
    requires KeyedAll(a, ka) && KeyedAll(b, kb)
    ensures KeyedAll(a + b, ka + kb)
  {
    forall i | 0 <= i < |a + b|
      ensures Keyed((a + b)[i], (ka + kb)[i])
    {
      if i >= |a| {
        assert (a + b)[i] == b[i - |a|] && (ka + kb)[i] == kb[i - |a|];
      }
    }
  }

  lemma DistinctAppend(a: seq<seq<nat>>, b: seq<seq<nat>>)
    requires Distinct(a) && Distinct(b)
    requires forall x :: x in a ==> x !in b
    ensures Distinct(a + b)
  {
    forall i, j | 0 <= i < j < |a + b|
      ensures (a + b)[i] != (a + b)[j]
    {
      if j >= |a| {
        assert (a + b)[j] == b[j - |a|];
        if i < |a| {
          assert (a + b)[i] == a[i] && a[i] in a;
        } else {
          assert (a + b)[i] == b[i - |a|];
        }
      }
    }
  }

  lemma ParentClosedAppend(a: seq<seq<nat>>, b: seq<seq<nat>>)
    requires ParentClosed(a) && ParentClosed(b)
    ensures ParentClosed(a + b)
  {
    forall i | 0 <= i < |a + b| && |(a + b)[i]| > 1
      ensures (a + b)[i][..|(a + b)[i]| - 1] in (a + b)[..i]
    {
      if i < |a| {
        assert (a + b)[i] == a[i];
        assert (a + b)[..i] == a[..i];
      } else {
        assert (a + b)[i] == b[i - |a|];
        assert (a + b)[..i] == a + b[..i - |a|];
      }
    }
  }

  // ---------------------------------------------------------------------------
  // The keys of one root's block

  /** Keys `[r, first + 1] .. [r, first + n]`. */
  function LeafKeys(r: nat, first: nat, n: nat): (keys: seq<seq<nat>>)
    ensures |keys| == n
  {
    if n == 0 then [] else LeafKeys(r, first, n - 1) + [[r, first + n]]
  }

  /** Keys `[r, c, 1] .. [r, c, n]`. */
  function GrandchildKeys(r: nat, c: nat, n: nat): (keys: seq<seq<nat>>)
    ensures |keys| == n
  {
    if n == 0 then [] else GrandchildKeys(r, c, n - 1) + [[r, c, n]]
  }

  /** For branches `1 .. n`: the branch key `[r, c]` followed by its grandchild keys. */
  function BranchKeys(r: nat, n: nat): (keys: seq<seq<nat>>)
    ensures |keys| == 3 * n
  {
    if n == 0 then [] else BranchKeys(r, n - 1) + [[r, n]] + GrandchildKeys(r, n, GrandchildCount)
  }

  lemma {:induction false} LeafKeysMembers(r: nat, first: nat, n: nat)
    ensures forall x :: x in LeafKeys(r, first, n) <==> |x| == 2 && x[0] == r && first < x[1] <= first + n
    decreases n
  {
    if n > 0 {
      LeafKeysMembers(r, first, n - 1);
      forall x | |x| == 2 && x[0] == r && x[1] == first + n
        ensures x == [r, first + n]
      {
      }
    }
  }

  lemma {:induction false} GrandchildKeysMembers(r: nat, c: nat, n: nat)
    ensures forall x :: x in GrandchildKeys(r, c, n) <==> |x| == 3 && x[0] == r && x[1] == c && 0 < x[2] <= n
    decreases n
  {
    if n > 0 {
      GrandchildKeysMembers(r, c, n - 1);
      forall x | |x| == 3 && x[0] == r && x[1] == c && x[2] == n
        ensures x == [r, c, n]
      {
      }
    }
  }

  /** Branch keys are `[r, c]` or `[r, c, j]` with `c` among the branch numbers `1 .. n`. */
  lemma BranchKeysMembers(r: nat, n: nat)
    ensures forall x :: x in BranchKeys(r, n) ==> 2 <= |x| <= 3 && x[0] == r && 0 < x[1] <= n
  {
    var keys := BranchKeys(r, n);
    BranchKeysAt(r, n);
    forall x | x in keys
      ensures 2 <= |x| <= 3 && x[0] == r && 0 < x[1] <= n
    {
      var i :| 0 <= i < |keys| && keys[i] == x;
    }
  }

  lemma BranchKeysAt(r: nat, n: nat)
    ensures forall i :: 0 <= i < |BranchKeys(r, n)| ==>
      2 <= |BranchKeys(r, n)[i]| <= 3 && BranchKeys(r, n)[i][0] == r && 0 < BranchKeys(r, n)[i][1] <= n
  {
    forall i | 0 <= i < |BranchKeys(r, n)|
      ensures 2 <= |BranchKeys(r, n)[i]| <= 3 && BranchKeys(r, n)[i][0] == r && 0 < BranchKeys(r, n)[i][1] <= n
    {
      BranchKeyAt(r, n, i);
    }
  }

  lemma {:induction false} BranchKeyAt(r: nat, n: nat, i: nat)
    requires i < |BranchKeys(r, n)|
    ensures 2 <= |BranchKeys(r, n)[i]| <= 3 && BranchKeys(r, n)[i][0] == r && 0 < BranchKeys(r, n)[i][1] <= n
    decreases n
  {
    var before := BranchKeys(r, n - 1);
    var front := before + [[r, n]];
    assert BranchKeys(r, n) == front + GrandchildKeys(r, n, GrandchildCount);
    if i < |before| {
      assert BranchKeys(r, n)[i] == before[i];
      BranchKeyAt(r, n - 1, i);
    } else if i > |before| {
      assert BranchKeys(r, n)[i] == GrandchildKeys(r, n, GrandchildCount)[i - |front|];
      GrandchildKeyAt(r, n, GrandchildCount, i - |front|);
    }
  }

  lemma {:induction false} GrandchildKeyAt(r: nat, c: nat, n: nat, k: nat)
    requires k < n
    ensures GrandchildKeys(r, c, n)[k] == [r, c, k + 1]
    decreases n
  {
    if k < n - 1 {
      GrandchildKeyAt(r, c, n - 1, k);
    }
  }

  function RootKeys(r: nat): seq<seq<nat>>
  {
    [[r]] +
      match TemplateOf(r)
      case Leaf => []
      case Depth2(count) => LeafKeys(r, 0, count)
      case Depth3(branchCount, leafCount) => BranchKeys(r, branchCount) + LeafKeys(r, branchCount, leafCount)
  }

  function AllKeys(n: nat): seq<seq<nat>>
  {
    if n == 0 then [] else AllKeys(n - 1) + RootKeys(n)
  }

  // ---------------------------------------------------------------------------
  // The generated items are keyed

  lemma IdOfOne(r: nat)
    ensures IdOf([r]) == S(r) && PathOf([r]) == S(r)
  {
    assert Map([r], S) == [S(r)];
  }

  lemma IdOfTwo(r: nat, c: nat)
    ensures IdOf([r, c]) == S(r) + "-" + S(c)
    ensures PathOf([r, c]) == S(r) + "/" + IdOf([r, c])
  {
    var parts := Map([r, c], S);
    assert parts[1..] == [S(c)];
    assert Join(parts, '-') == parts[0] + ['-'] + Join(parts[1..], '-');
    assert [r, c][..1] == [r];
    IdOfOne(r);
  }

  lemma IdOfThree(r: nat, c: nat, j: nat)
    ensures IdOf([r, c, j]) == S(r) + "-" + S(c) + "-" + S(j)
    ensures PathOf([r, c, j]) == S(r) + "/" + IdOf([r, c]) + "/" + IdOf([r, c, j])
  {
    var parts := Map([r, c, j], S);
    assert parts[1..] == [S(c), S(j)];
    assert parts[1..][1..] == [S(j)];
    assert Join(parts[1..], '-') == S(c) + ['-'] + S(j);
    assert Join(parts, '-') == parts[0] + ['-'] + Join(parts[1..], '-');
    assert [r, c, j][..2] == [r, c];
    IdOfTwo(r, c);
  }

  lemma LeafChildKeyed(r: nat, c: nat, labels: Labels)
    ensures Keyed(LeafChild(r, c, labels), [r, c])
  {
    IdOfTwo(r, c);
  }

  lemma BranchItemKeyed(r: nat, c: nat, labels: Labels)
    ensures Keyed(BranchItem(r, c, labels), [r, c])
  {
    IdOfTwo(r, c);
  }

  lemma GrandchildKeyed(r: nat, c: nat, j: nat, labels: Labels)
    ensures Keyed(Grandchild(r, c, j, labels), [r, c, j])
  {
    IdOfTwo(r, c);
    IdOfThree(r, c, j);
  }

  lemma {:induction false} LeafChildrenKeyed(r: nat, first: nat, n: nat, labels: Labels)
    ensures KeyedAll(LeafChildren(r, first, n, labels), LeafKeys(r, first, n))
    decreases n
  {
    if n > 0 {
      LeafChildrenKeyed(r, first, n - 1, labels);
      LeafChildKeyed(r, first + n, labels);
      KeyedAllAppend(LeafChildren(r, first, n - 1, labels), LeafKeys(r, first, n - 1),
        [LeafChild(r, first + n, labels)], [[r, first + n]]);
    }
  }

  lemma {:induction false} GrandchildrenKeyed(r: nat, c: nat, n: nat, labels: Labels)
    ensures KeyedAll(Grandchildren(r, c, n, labels), GrandchildKeys(r, c, n))
    decreases n
  {
    if n > 0 {
      GrandchildrenKeyed(r, c, n - 1, labels);
      GrandchildKeyed(r, c, n, labels);
      KeyedAllAppend(Grandchildren(r, c, n - 1, labels), GrandchildKeys(r, c, n - 1),
        [Grandchild(r, c, n, labels)], [[r, c, n]]);
    }
  }

  lemma {:induction false} BranchesKeyed(r: nat, n: nat, labels: Labels)
    ensures KeyedAll(Branches(r, n, labels), BranchKeys(r, n))
    decreases n
  {
    if n > 0 {
      BranchesKeyed(r, n - 1, labels);
      BranchItemKeyed(r, n, labels);
      KeyedAllAppend(Branches(r, n - 1, labels), BranchKeys(r, n - 1), [BranchItem(r, n, labels)], [[r, n]]);
      GrandchildrenKeyed(r, n, GrandchildCount, labels);
      KeyedAllAppend(Branches(r, n - 1, labels) + [BranchItem(r, n, labels)], BranchKeys(r, n - 1) + [[r, n]],
        Grandchildren(r, n, GrandchildCount, labels), GrandchildKeys(r, n, GrandchildCount));
    }
  }

  lemma RootKeyed(r: nat, labels: Labels)
    ensures KeyedAll(GenerateRootItem(r, labels), RootKeys(r))
  {
    IdOfOne(r);
    var head := [RootItem(r, labels)];
    match TemplateOf(r)
    case Leaf =>
    case Depth2(count) =>
      LeafChildrenKeyed(r, 0, count, labels);
      KeyedAllAppend(head, [[r]], LeafChildren(r, 0, count, labels), LeafKeys(r, 0, count));
    case Depth3(b, l) =>
      BranchesKeyed(r, b, labels);
      LeafChildrenKeyed(r, b, l, labels);
      KeyedAllAppend(Branches(r, b, labels), BranchKeys(r, b), LeafChildren(r, b, l, labels), LeafKeys(r, b, l));
      KeyedAllAppend(head, [[r]], Branches(r, b, labels) + LeafChildren(r, b, l, labels), BranchKeys(r, b) + LeafKeys(r, b, l));
  }

  lemma {:induction false} AllKeyed(n: nat, labels: Labels)
    ensures KeyedAll(GenerateRoots(n, labels), AllKeys(n))
    decreases n
  {
    if n > 0 {
      AllKeyed(n - 1, labels);
      RootKeyed(n, labels);
      KeyedAllAppend(GenerateRoots(n - 1, labels), AllKeys(n - 1), GenerateRootItem(n, labels), RootKeys(n));
    }
  }

  // ---------------------------------------------------------------------------
  // The keys are distinct and parent-closed

  lemma {:induction false} LeafKeysDistinct(r: nat, first: nat, n: nat)
    ensures Distinct(LeafKeys(r, first, n))
    decreases n
  {
    if n > 0 {
      LeafKeysDistinct(r, first, n - 1);
      LeafKeysMembers(r, first, n - 1);
      DistinctAppend(LeafKeys(r, first, n - 1), [[r, first + n]]);
    }
  }

  lemma {:induction false} GrandchildKeysDistinct(r: nat, c: nat, n: nat)
    ensures Distinct(GrandchildKeys(r, c, n))
    decreases n
  {
    if n > 0 {
      GrandchildKeysDistinct(r, c, n - 1);
      GrandchildKeysMembers(r, c, n - 1);
      DistinctAppend(GrandchildKeys(r, c, n - 1), [[r, c, n]]);
    }
  }

  lemma {:induction false} BranchKeysDistinct(r: nat, n: nat)
    ensures Distinct(BranchKeys(r, n))
    decreases n
  {
    if n > 0 {
      var before := BranchKeys(r, n - 1);
      var front := before + [[r, n]];
      var grand := GrandchildKeys(r, n, GrandchildCount);
      BranchKeysDistinct(r, n - 1);
      BranchKeysAt(r, n - 1);
      AppendKeyDistinct(before, [r, n]);
      forall i | 0 <= i < |front|
        ensures |front[i]| >= 2 && (|front[i]| == 2 || front[i][1] < n)
      {
        if i < |before| {
          assert front[i] == before[i];
        }
      }
      forall j | 0 <= j < |grand|
        ensures |grand[j]| == 3 && grand[j][1] == n
      {
        GrandchildKeyAt(r, n, GrandchildCount, j);
      }
      GrandchildKeysDistinct(r, n, GrandchildCount);
      AppendGrandchildrenDistinct(front, grand, n);
    }
  }

  /** A key whose second number exceeds that of every key in `a` is new to `a`. */
  lemma AppendKeyDistinct(a: seq<seq<nat>>, key: seq<nat>)
    requires Distinct(a) && |key| >= 2
    requires forall i :: 0 <= i < |a| ==> |a[i]| >= 2 && a[i][1] < key[1]
    ensures Distinct(a + [key])
  {
    forall i | 0 <= i < |a|
      ensures a[i] != key
    {
      DiffersAt(a[i], key, 1);
    }
    DistinctAppendApart(a, [key]);
  }

  /** Three-number keys under `c` are new to a list whose three-number keys all sit under smaller numbers. */
  lemma AppendGrandchildrenDistinct(a: seq<seq<nat>>, g: seq<seq<nat>>, c: nat)
    requires Distinct(a) && Distinct(g)
    requires forall i :: 0 <= i < |a| ==> |a[i]| >= 2 && (|a[i]| == 2 || a[i][1] < c)
    requires forall j :: 0 <= j < |g| ==> |g[j]| == 3 && g[j][1] == c
    ensures Distinct(a + g)
  {
    forall i, j | 0 <= i < |a| && 0 <= j < |g|
      ensures a[i] != g[j]
    {
      if |a[i]| == 3 {
        DiffersAt(a[i], g[j], 1);
      }
    }
    DistinctAppendApart(a, g);
  }

  lemma DiffersAt(x: seq<nat>, y: seq<nat>, k: nat)
    requires k < |x| && k < |y| && x[k] != y[k]
    ensures x != y
  {
  }

  /** Two repetition-free lists whose elements differ position by position concatenate without repetition. */
  lemma DistinctAppendApart(a: seq<seq<nat>>, b: seq<seq<nat>>)
    requires Distinct(a) && Distinct(b)
    requires forall i, j :: 0 <= i < |a| && 0 <= j < |b| ==> a[i] != b[j]
    ensures Distinct(a + b)
  {
    forall i, j | 0 <= i < j < |a + b|
      ensures (a + b)[i] != (a + b)[j]
    {
      if j >= |a| {
        assert (a + b)[j] == b[j - |a|];
        if i >= |a| {
          assert (a + b)[i] == b[i - |a|];
        }
      }
    }
  }

  /** Every key of root `r`'s block starts with `r`. */
  lemma RootKeysMembers(r: nat)
    ensures StartsIn(RootKeys(r), r, r)
  {
    var keys := RootKeys(r);
    forall i | 0 <= i < |keys|
      ensures |keys[i]| >= 1 && keys[i][0] == r
    {
      assert keys[i] in keys;
      RootKeysStart(r, keys[i]);
    }
  }

  lemma RootKeysStart(r: nat, x: seq<nat>)
    requires x in RootKeys(r)
    ensures |x| >= 1 && x[0] == r
  {
    match TemplateOf(r)
    case Leaf =>
    case Depth2(count) =>
      LeafKeysMembers(r, 0, count);
    case Depth3(b, l) =>
      LeafKeysMembers(r, b, l);
      BranchKeysMembers(r, b);
  }

  lemma RootKeysDistinct(r: nat)
    ensures Distinct(RootKeys(r))
  {
    match TemplateOf(r)
    case Leaf =>
    case Depth2(count) =>
      LeafKeysDistinct(r, 0, count);
      LeafKeysMembers(r, 0, count);
      DistinctAppend([[r]], LeafKeys(r, 0, count));
    case Depth3(b, l) =>
      BranchKeysDistinct(r, b);
      LeafKeysDistinct(r, b, l);
      LeafKeysMembers(r, b, l);
      BranchKeysMembers(r, b);
      DistinctAppend(BranchKeys(r, b), LeafKeys(r, b, l));
      DistinctAppend([[r]], BranchKeys(r, b) + LeafKeys(r, b, l));
  }

  /**
   * Appended after `a`, every key of `b` longer than one number has as parent
   * key the root key `[r]`, or a key of `a` or an earlier key of `b`.
   */
  predicate ClosedAfter(r: nat, a: seq<seq<nat>>, b: seq<seq<nat>>)
  {
    forall i :: 0 <= i < |b| && |b[i]| > 1 ==>
      b[i][..|b[i]| - 1] == [r] || b[i][..|b[i]| - 1] in a + b[..i]
  }

  lemma ClosedAfterAppend(r: nat, a: seq<seq<nat>>, b: seq<seq<nat>>, c: seq<seq<nat>>)
    requires ClosedAfter(r, a, b) && ClosedAfter(r, a + b, c)
    ensures ClosedAfter(r, a, b + c)
  {
    forall i | 0 <= i < |b + c| && |(b + c)[i]| > 1
      ensures (b + c)[i][..|(b + c)[i]| - 1] == [r] || (b + c)[i][..|(b + c)[i]| - 1] in a + (b + c)[..i]
    {
      if i < |b| {
        assert (b + c)[i] == b[i];
        assert (b + c)[..i] == b[..i];
      } else {
        assert (b + c)[i] == c[i - |b|];
        assert a + (b + c)[..i] == (a + b) + c[..i - |b|];
      }
    }
  }

  /** Leaf keys `[r, c]` all hang directly below the root key. */
  lemma LeafKeysClosed(r: nat, first: nat, n: nat, a: seq<seq<nat>>)
    ensures ClosedAfter(r, a, LeafKeys(r, first, n))
  {
    var keys := LeafKeys(r, first, n);
    LeafKeysMembers(r, first, n);
    forall i | 0 <= i < |keys| && |keys[i]| > 1
      ensures keys[i][..|keys[i]| - 1] == [r]
    {
      assert keys[i] in keys;
    }
  }

  /** Grandchild keys `[r, c, j]` follow their branch key `[r, c]`. */
  lemma GrandchildKeysClosed(r: nat, c: nat, n: nat, a: seq<seq<nat>>)
    requires [r, c] in a
    ensures ClosedAfter(r, a, GrandchildKeys(r, c, n))
  {
    var keys := GrandchildKeys(r, c, n);
    GrandchildKeysMembers(r, c, n);
    forall i | 0 <= i < |keys| && |keys[i]| > 1
      ensures keys[i][..|keys[i]| - 1] in a + keys[..i]
    {
      assert keys[i] in keys;
      assert keys[i][..2] == [r, c];
    }
  }

  /** Within the branch keys, each grandchild key comes after its branch key. */
  lemma {:induction false} BranchKeysClosed(r: nat, n: nat)
    ensures ClosedAfter(r, [], BranchKeys(r, n))
    decreases n
  {
    if n > 0 {
      var before := BranchKeys(r, n - 1);
      var front := before + [[r, n]];
      BranchKeysClosed(r, n - 1);
      assert ClosedAfter(r, before, [[r, n]]) by {
        assert [r, n][..1] == [r];
      }
      ClosedAfterAppend(r, [], before, [[r, n]]);
      assert [r, n] in [] + front by {
        assert front[|before|] == [r, n];
      }
      GrandchildKeysClosed(r, n, GrandchildCount, [] + front);
      ClosedAfterAppend(r, [], front, GrandchildKeys(r, n, GrandchildCount));
    }
  }

  /** Keys that are closed after the root key, put behind it, form a parent-closed list. */
  lemma ClosedUnderRoot(r: nat, tail: seq<seq<nat>>)
    requires ClosedAfter(r, [], tail)
    ensures ParentClosed([[r]] + tail)
  {
    var keys := [[r]] + tail;
    forall i | 0 <= i < |keys| && |keys[i]| > 1
      ensures keys[i][..|keys[i]| - 1] in keys[..i]
    {
      assert keys[i] == tail[i - 1];
      assert keys[..i] == [[r]] + ([] + tail[..i - 1]);
    }
  }

  /** Within a block each parent key comes before its children. */
  lemma RootKeysClosed(r: nat)
    ensures ParentClosed(RootKeys(r))
  {
    match TemplateOf(r)
    case Leaf =>
      ClosedUnderRoot(r, []);
    case Depth2(count) =>
      LeafKeysClosed(r, 0, count, []);
      ClosedUnderRoot(r, LeafKeys(r, 0, count));
    case Depth3(b, l) =>
      BranchKeysClosed(r, b);
      LeafKeysClosed(r, b, l, [] + BranchKeys(r, b));
      ClosedAfterAppend(r, [], BranchKeys(r, b), LeafKeys(r, b, l));
      ClosedUnderRoot(r, BranchKeys(r, b) + LeafKeys(r, b, l));
  }

  /** The keys of roots `lo .. hi` start with a number in that range. */
  predicate StartsIn(keys: seq<seq<nat>>, lo: nat, hi: nat)
  {
    forall i :: 0 <= i < |keys| ==> |keys[i]| >= 1 && lo <= keys[i][0] <= hi
  }

  lemma StartsInAppend(a: seq<seq<nat>>, b: seq<seq<nat>>, n: nat)
    requires n >= 1 && StartsIn(a, 1, n - 1) && StartsIn(b, n, n)
    ensures StartsIn(a + b, 1, n)
    ensures forall x :: x in a ==> x !in b
  {
    forall i | 0 <= i < |a + b|
      ensures |(a + b)[i]| >= 1 && 1 <= (a + b)[i][0] <= n
    {
      if i >= |a| {
        assert (a + b)[i] == b[i - |a|];
      }
    }
  }

  lemma {:induction false} AllKeysStart(n: nat)
    ensures StartsIn(AllKeys(n), 1, n)
    decreases n
  {
    if n > 0 {
      AllKeysStart(n - 1);
      RootKeysMembers(n);
      StartsInAppend(AllKeys(n - 1), RootKeys(n), n);
    }
  }

  lemma {:induction false} AllKeysDistinct(n: nat)
    ensures Distinct(AllKeys(n))
    decreases n
  {
    if n > 0 {
      AllKeysDistinct(n - 1);
      AllKeysStart(n - 1);
      RootKeysMembers(n);
      RootKeysDistinct(n);
      StartsInAppend(AllKeys(n - 1), RootKeys(n), n);
      DistinctAppend(AllKeys(n - 1), RootKeys(n));
    }
  }

  lemma {:induction false} AllKeysClosed(n: nat)
    ensures ParentClosed(AllKeys(n))
    decreases n
  {
    if n > 0 {
      AllKeysClosed(n - 1);
      RootKeysClosed(n);
      ParentClosedAppend(AllKeys(n - 1), RootKeys(n));
    }
  }

  /**
   * The blocks of roots `1 .. n` follow the path convention (unique ids, each
   * path ending in the item's id, each child path its parent's path plus a
   * slash and its id), and every parent is emitted before its children.
   */
  lemma GeneratedWellFormed(n: nat, labels: Labels)
    ensures PathsWellFormed(GenerateRoots(n, labels))
    ensures ParentsPresent(GenerateRoots(n, labels))
    ensures ParentsEarlier(GenerateRoots(n, labels))
  {
    AllKeyed(n, labels);
    AllKeysDistinct(n);
    AllKeysClosed(n);
    KeyedWellFormed(GenerateRoots(n, labels), AllKeys(n));
  }
}
