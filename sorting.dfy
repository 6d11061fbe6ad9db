/** `sort_items`: the two comparators of the listing and the sort of the
    directory and file lists. `usort` sorts by a comparator; the model sorts
    by insertion and promises what `usort` promises, an ordered permutation.
    PHP's `strnatcasecmp` is the parameter `natcmp`. */
module Sorting {
  import opened Listing

  /** The validated `sort` parameter. */
  datatype SortKey = ByName | BySize | ByMtime

  /** The validated `order` parameter. */
  datatype Order = Asc | Desc

  /** The sign of a comparison result. */
  function Sign(x: int): int {
    if x < 0 then -1 else if x == 0 then 0 else 1
  }

  /** PHP's `<=>` on integers. */
  function Spaceship(a: int, b: int): (r: int)
    ensures r < 0 <==> a < b
    ensures r == 0 <==> a == b
    ensures r > 0 <==> a > b
  {
    if a < b then -1 else if a == b then 0 else 1
  }

  /** A comparator that orders consistently: swapping the arguments flips
      the sign, and "not after" is transitive. `usort` gives an ordered
      result only for such comparators. */
  ghost predicate TotalPreorder<T(!new)>(cmp: (T, T) -> int) {
    && (forall a, b :: Sign(cmp(a, b)) == -Sign(cmp(b, a)))
    && (forall a, b, c :: cmp(a, b) <= 0 && cmp(b, c) <= 0 ==> cmp(a, c) <= 0)
  }

  /** Every element is not after any later one. */
  ghost predicate SortedBy<T>(s: seq<T>, cmp: (T, T) -> int) {
    forall i, j | 0 <= i < j < |s| :: cmp(s[i], s[j]) <= 0
  }

  /** The result of a comparator, reversed for a descending order. */
  function Orient(order: Order, res: int): int {
    if order == Desc then -res else res
  }

  /** `$dirCmp`: by time for `mtime`, by natural name order otherwise
      (directories have no size, so `size` compares names). */
  function DirCmp(key: SortKey, order: Order, natcmp: (string, string) -> int, a: DirItem, b: DirItem): int {
    var res := if key == ByMtime then Spaceship(a.mtime, b.mtime) else natcmp(a.name, b.name);
    Orient(order, res)
  }

  /** `$fileCmp`: by size, by time or by natural name order. */
  function FileCmp(key: SortKey, order: Order, natcmp: (string, string) -> int, a: FileItem, b: FileItem): int {
    var res :=
      if key == BySize then Spaceship(a.size, b.size)
      else if key == ByMtime then Spaceship(a.mtime, b.mtime)
      else natcmp(a.name, b.name);
    Orient(order, res)
  }

  /** The descending comparators are the exact negation of the ascending
      ones. */
  lemma DescNegatesAsc(key: SortKey, natcmp: (string, string) -> int, a: DirItem, b: DirItem, f: FileItem, g: FileItem)
    ensures DirCmp(key, Desc, natcmp, a, b) == -DirCmp(key, Asc, natcmp, a, b)
    ensures FileCmp(key, Desc, natcmp, f, g) == -FileCmp(key, Asc, natcmp, f, g)
  {
  }

  /** Directories are never compared by size: a size request compares
      their names. */
  lemma DirSizeIsName(order: Order, natcmp: (string, string) -> int, a: DirItem, b: DirItem)
    ensures DirCmp(BySize, order, natcmp, a, b) == DirCmp(ByName, order, natcmp, a, b)
    ensures DirCmp(BySize, order, natcmp, a, b) == Orient(order, natcmp(a.name, b.name))
  {
  }

  /** The sign of a negated result is the negated sign. */
  lemma SignNeg(x: int)
    ensures Sign(-x) == -Sign(x)
  {
  }

  /** Both directory comparators order consistently when `natcmp` does. */
  lemma DirCmpPreorder(key: SortKey, order: Order, natcmp: (string, string) -> int)
    requires TotalPreorder(natcmp)
    ensures TotalPreorder((a: DirItem, b: DirItem) => DirCmp(key, order, natcmp, a, b))
  {
    var cmp := (a: DirItem, b: DirItem) => DirCmp(key, order, natcmp, a, b);
    forall a: DirItem, b: DirItem
      ensures Sign(cmp(a, b)) == -Sign(cmp(b, a))
    {
      var x := if key == ByMtime then Spaceship(a.mtime, b.mtime) else natcmp(a.name, b.name);
      var y := if key == ByMtime then Spaceship(b.mtime, a.mtime) else natcmp(b.name, a.name);
      assert Sign(x) == -Sign(y);
      SignNeg(x);
      SignNeg(y);
    }
    forall a: DirItem, b: DirItem, c: DirItem | cmp(a, b) <= 0 && cmp(b, c) <= 0
      ensures cmp(a, c) <= 0
    {
      if key != ByMtime && order == Desc {
        assert Sign(natcmp(b.name, a.name)) == -Sign(natcmp(a.name, b.name));
        assert Sign(natcmp(c.name, b.name)) == -Sign(natcmp(b.name, c.name));
        assert natcmp(c.name, a.name) <= 0;
        assert Sign(natcmp(a.name, c.name)) == -Sign(natcmp(c.name, a.name));
      }
    }
  }

  /** Both file comparators order consistently when `natcmp` does. */
  lemma FileCmpPreorder(key: SortKey, order: Order, natcmp: (string, string) -> int)
    requires TotalPreorder(natcmp)
    ensures TotalPreorder((a: FileItem, b: FileItem) => FileCmp(key, order, natcmp, a, b))
  {
    var cmp := (a: FileItem, b: FileItem) => FileCmp(key, order, natcmp, a, b);
    forall a: FileItem, b: FileItem
      ensures Sign(cmp(a, b)) == -Sign(cmp(b, a))
    {
      var x :=
        if key == BySize then Spaceship(a.size, b.size)
        else if key == ByMtime then Spaceship(a.mtime, b.mtime)
        else natcmp(a.name, b.name);
      var y :=
        if key == BySize then Spaceship(b.size, a.size)
        else if key == ByMtime then Spaceship(b.mtime, a.mtime)
        else natcmp(b.name, a.name);
      assert Sign(x) == -Sign(y);
      SignNeg(x);
      SignNeg(y);
    }
    forall a: FileItem, b: FileItem, c: FileItem | cmp(a, b) <= 0 && cmp(b, c) <= 0
      ensures cmp(a, c) <= 0
    {
      if key == ByName && order == Desc {
        assert Sign(natcmp(b.name, a.name)) == -Sign(natcmp(a.name, b.name));
        assert Sign(natcmp(c.name, b.name)) == -Sign(natcmp(b.name, c.name));
        assert natcmp(c.name, a.name) <= 0;
        assert Sign(natcmp(a.name, c.name)) == -Sign(natcmp(c.name, a.name));
      }
    }
  }

  /** Puts `x` into the ordered `s` after every element not after it. */
  method Insert<T(!new)>(s: seq<T>, x: T, cmp: (T, T) -> int) returns (r: seq<T>)
    requires TotalPreorder(cmp) && SortedBy(s, cmp)
    ensures multiset(r) == multiset(s) + multiset{x}
    ensures SortedBy(r, cmp)
  {
    var i := 0;
    while i < |s| && cmp(s[i], x) <= 0
      invariant 0 <= i <= |s|
      invariant forall j | 0 <= j < i :: cmp(s[j], x) <= 0
    {
      i := i + 1;
    }
    r := s[..i] + [x] + s[i..];
    InsertedPerm(s, x, i);
    InsertedSorted(s, x, i, cmp);
  }

  /** Putting `x` at any position adds exactly `x`. */
  lemma InsertedPerm<T>(s: seq<T>, x: T, i: nat)
    requires i <= |s|
    ensures multiset(s[..i] + [x] + s[i..]) == multiset(s) + multiset{x}
  {
    assert s == s[..i] + s[i..];
  }

  /** Inserting at the first element that is after `x` keeps the order. */
  lemma InsertedSorted<T(!new)>(s: seq<T>, x: T, i: nat, cmp: (T, T) -> int)
    requires TotalPreorder(cmp) && SortedBy(s, cmp) && i <= |s|
    requires forall j | 0 <= j < i :: cmp(s[j], x) <= 0
    requires i < |s| ==> cmp(s[i], x) > 0
    ensures SortedBy(s[..i] + [x] + s[i..], cmp)
  {
    var r := s[..i] + [x] + s[i..];
    NotAfterRest(s, x, i, cmp);
    forall a, b | 0 <= a < b < |r|
      ensures cmp(r[a], r[b]) <= 0
    {
      if b < i {
        assert r[a] == s[a] && r[b] == s[b];
      } else if a > i {
        assert r[a] == s[a - 1] && r[b] == s[b - 1];
      } else if a == i {
        assert r[a] == x && r[b] == s[b - 1];
      } else if b == i {
        assert r[a] == s[a] && r[b] == x;
      } else {
        assert r[a] == s[a] && r[b] == s[b - 1];
      }
    }
  }

  /** `x` is not after any element from the insertion point on. */
  lemma NotAfterRest<T(!new)>(s: seq<T>, x: T, i: nat, cmp: (T, T) -> int)
    requires TotalPreorder(cmp) && SortedBy(s, cmp) && i <= |s|
    requires i < |s| ==> cmp(s[i], x) > 0
    ensures forall j | i <= j < |s| :: cmp(x, s[j]) <= 0
  {
    forall j | i <= j < |s|
      ensures cmp(x, s[j]) <= 0
    {
      assert Sign(cmp(s[i], x)) == -Sign(cmp(x, s[i]));
      if j > i {
        assert cmp(s[i], s[j]) <= 0;
      }
    }
  }

  /** An ordered permutation of `s`. */
  method Sort<T(!new)>(s: seq<T>, cmp: (T, T) -> int) returns (r: seq<T>)
    requires TotalPreorder(cmp)
    ensures multiset(r) == multiset(s)
    ensures SortedBy(r, cmp)
  {
    r := [];
    for i := 0 to |s|
      invariant multiset(r) == multiset(s[..i])
      invariant SortedBy(r, cmp)
    {
      assert s[..i + 1] == s[..i] + [s[i]];
      r := Insert(r, s[i], cmp);
    }
    assert s[..|s|] == s;
  }

  /** The directories ordered by `$dirCmp`. */
  ghost predicate DirsSorted(dirs: seq<DirItem>, key: SortKey, order: Order, natcmp: (string, string) -> int) {
    forall i, j | 0 <= i < j < |dirs| :: DirCmp(key, order, natcmp, dirs[i], dirs[j]) <= 0
  }

  /** The files ordered by `$fileCmp`. */
  ghost predicate FilesSorted(files: seq<FileItem>, key: SortKey, order: Order, natcmp: (string, string) -> int) {
    forall i, j | 0 <= i < j < |files| :: FileCmp(key, order, natcmp, files[i], files[j]) <= 0
  }

  /** `sort_items($dirs, $files, $sort, $order)`: each list becomes an
      ordered permutation of itself. */
  method SortItems(dirs: seq<DirItem>, files: seq<FileItem>, key: SortKey, order: Order, natcmp: (string, string) -> int)
    returns (sortedDirs: seq<DirItem>, sortedFiles: seq<FileItem>)
    requires TotalPreorder(natcmp)
    ensures multiset(sortedDirs) == multiset(dirs) && DirsSorted(sortedDirs, key, order, natcmp)
    ensures multiset(sortedFiles) == multiset(files) && FilesSorted(sortedFiles, key, order, natcmp)
  {
    DirCmpPreorder(key, order, natcmp);
    FileCmpPreorder(key, order, natcmp);
    sortedDirs := Sort(dirs, (a: DirItem, b: DirItem) => DirCmp(key, order, natcmp, a, b));
    sortedFiles := Sort(files, (a: FileItem, b: FileItem) => FileCmp(key, order, natcmp, a, b));
  }
}
