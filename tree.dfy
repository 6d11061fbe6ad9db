/** The directory below the base, seen as a tree: every entry is addressed
    by the names on the way down from the base (its location), and is a file
    or a directory. The file manager's file system calls (`is_dir`,
    `file_exists`, `scandir`, `filesize`, `filemtime`, `is_readable`,
    `rename`, `unlink`, `rrmdir`, `mkdir`) become queries on and updates of
    this map. */
module Tree {

  /** A location: the names from the base down to an entry; `[]` is the base. */
  type Path = seq<string>

  /** `mtime` 0 stands for a `filemtime` that failed or gave 0. */
  datatype Node =
    | File(size: nat, mtime: int, readable: bool)
    | Dir(mtime: int, readable: bool)

  type Entries = map<Path, Node>

  /** A name a directory can hold. */
  predicate ValidName(n: string) {
    n != "" && n != "." && n != ".." && '/' !in n
  }

  function Parent(p: Path): Path
    requires p != []
  {
    p[..|p| - 1]
  }

  function Last(p: Path): string
    requires p != []
  {
    p[|p| - 1]
  }

  /** The base is a directory, every other entry sits in a directory of the
      map and has a valid name. */
  predicate WellFormed(m: Entries) {
    && [] in m && m[[]].Dir?
    && forall p | p in m && p != [] :: Parent(p) in m && m[Parent(p)].Dir? && ValidName(Last(p))
  }

  predicate IsDir(m: Entries, p: Path) {
    p in m && m[p].Dir?
  }

  predicate IsFile(m: Entries, p: Path) {
    p in m && m[p].File?
  }

  /** Every proper ancestor of an entry is a directory of the map. */
  lemma {:induction false} AncestorsAreDirs(m: Entries, p: Path, k: nat)
    requires WellFormed(m) && p in m && k < |p|
    ensures IsDir(m, p[..k])
    decreases |p| - k
  {
    var q := p[..k + 1];
    if k + 1 < |p| {
      AncestorsAreDirs(m, p, k + 1);
    } else {
      assert q == p;
    }
    assert Parent(q) == p[..k];
  }

  /** An entry below another is below a directory. */
  lemma BelowIsDir(m: Entries, a: Path, b: Path)
    requires WellFormed(m) && a in m && b in m && a <= b && a != b
    ensures IsDir(m, a)
  {
    AncestorsAreDirs(m, b, |a|);
    assert b[..|a|] == a;
  }

  /** The names in directory `d`: what `scandir` lists besides '.' and '..'. */
  function Children(m: Entries, d: Path): (r: set<string>)
    ensures forall n | n in r :: d + [n] in m
    ensures forall n | d + [n] in m :: n in r
  {
    var r := set p | p in m && |p| == |d| + 1 && p[..|d|] == d :: Last(p);
    forall n | d + [n] in m
      ensures n in r
    {
      var p := d + [n];
      assert p[..|d|] == d && Last(p) == n;
    }
    forall p | p in m && |p| == |d| + 1 && p[..|d|] == d
      ensures d + [Last(p)] in m
    {
      assert p == d + [Last(p)];
    }
    r
  }

  /** The map without the entry `t` and everything below it. */
  function RemoveSubtree(m: Entries, t: Path): (r: Entries)
    ensures forall p :: p in r <==> p in m && !(t <= p)
    ensures forall p | p in r :: r[p] == m[p]
  {
    map p | p in m && !(t <= p) :: m[p]
  }

  /** Removing anything but the base keeps the map well formed. */
  lemma RemoveKeepsWellFormed(m: Entries, t: Path)
    requires WellFormed(m) && t != []
    ensures WellFormed(RemoveSubtree(m, t))
  {
    var r := RemoveSubtree(m, t);
    forall p | p in r && p != []
      ensures Parent(p) in r
    {
      assert !(t <= Parent(p)) by {
        assert Parent(p) <= p;
      }
    }
  }

  /** Adding an entry with a valid name under a directory keeps the map well
      formed, whatever was at that location before unless it was a directory
      with entries below it. */
  lemma AddKeepsWellFormed(m: Entries, d: Path, n: string, node: Node)
    requires WellFormed(m) && IsDir(m, d) && ValidName(n)
    requires node.File? ==> forall p | p in m :: !(d + [n] < p)
    ensures WellFormed(m[d + [n] := node])
  {
    var r := m[d + [n] := node];
    var q := d + [n];
    assert Parent(q) == d && Last(q) == n;
    assert d != q;
    forall p | p in r && p != []
      ensures Parent(p) in r && r[Parent(p)].Dir? && ValidName(Last(p))
    {
      if p == q {
        assert r[d] == m[d];
      } else {
        assert p in m;
        if Parent(p) == q {
          assert q < p by {
            assert Parent(p) <= p;
          }
          assert node.Dir?;
        } else {
          assert r[Parent(p)] == m[Parent(p)];
        }
      }
    }
  }

  /** The entry `src` and everything below it moved to `dst`; what was at
      `src + s` is now at `dst + s`, everything else stays. This is what
      `rename($src, $dst)` does to the tree when it succeeds. */
  function Relocate(m: Entries, src: Path, dst: Path): (r: Entries)
    ensures forall p | p in m && !(src <= p) && !(dst <= p) :: p in r && r[p] == m[p]
    ensures forall s: Path | src + s in m :: dst + s in r && r[dst + s] == m[src + s]
  {
    var kept := set p | p in m && !(src <= p);
    var moved := set p | p in m && src <= p :: dst + p[|src|..];
    assert forall p | p in moved :: dst <= p && src + p[|dst|..] in m by {
      forall p | p in moved ensures dst <= p && src + p[|dst|..] in m {
        var q :| q in m && src <= q && p == dst + q[|src|..];
        assert p[|dst|..] == q[|src|..];
        assert src + q[|src|..] == q;
      }
    }
    assert forall p | dst <= p && src + p[|dst|..] in m :: p in moved by {
      forall p | dst <= p && src + p[|dst|..] in m ensures p in moved {
        var q := src + p[|dst|..];
        assert q[|src|..] == p[|dst|..];
        assert dst + p[|dst|..] == p;
      }
    }
    var r := map p | p in kept + moved ::
      if dst <= p && src + p[|dst|..] in m then m[src + p[|dst|..]] else m[p];
    assert forall s: Path | src + s in m :: dst + s in r && r[dst + s] == m[src + s] by {
      forall s: Path | src + s in m ensures dst + s in r && r[dst + s] == m[src + s] {
        assert (dst + s)[|dst|..] == s;
      }
    }
    r
  }

  /** What the moved map holds: what stays, and what came from below the
      source. */
  lemma RelocateDomain(m: Entries, src: Path, dst: Path, p: Path)
    requires p in Relocate(m, src, dst)
    ensures (p in m && !(src <= p)) || (dst <= p && src + p[|dst|..] in m)
  {
    if !(p in m && !(src <= p)) {
      var kept := set p | p in m && !(src <= p);
      var moved := set p | p in m && src <= p :: dst + p[|src|..];
      assert p in kept + moved;
      var q :| q in m && src <= q && p == dst + q[|src|..];
      assert p[|dst|..] == q[|src|..];
      assert src + q[|src|..] == q;
    }
  }

  /** A move that `move` and `rename` allow keeps the map well formed: the
      source is not the base, nothing is at the destination, the
      destination's parent is a directory not at or below the source, and
      the new name is valid. The source location is then free and the
      destination holds what the source held. */
  lemma RelocateKeepsWellFormed(m: Entries, src: Path, dst: Path)
    requires WellFormed(m) && src in m && src != []
    requires dst != [] && dst !in m && IsDir(m, Parent(dst)) && ValidName(Last(dst))
    requires !(src <= Parent(dst))
    ensures WellFormed(Relocate(m, src, dst))
    ensures src !in Relocate(m, src, dst)
    ensures dst in Relocate(m, src, dst) && Relocate(m, src, dst)[dst] == m[src]
  {
    var r := Relocate(m, src, dst);
    NothingBelowAbsent(m, dst);
    assert src + [] == src && dst + [] == dst;
    assert [] in r && r[[]] == m[[]];
    if src in r {
      RelocateDomain(m, src, dst, src);
      AboveIsPresent(m, src, dst);
    }
    forall p | p in r && p != []
      ensures Parent(p) in r && r[Parent(p)].Dir? && ValidName(Last(p))
    {
      RelocateDomain(m, src, dst, p);
      if p in m && !(src <= p) {
        RelocateKeptParent(m, src, dst, p);
      } else {
        var t := src + p[|dst|..];
        assert dst <= p && t in m;
        if p != dst {
          assert t != [];
        }
        RelocateMovedParent(m, src, dst, p);
      }
    }
  }

  /** An entry that stays has its parent staying too. */
  lemma RelocateKeptParent(m: Entries, src: Path, dst: Path, p: Path)
    requires WellFormed(m) && p in m && p != [] && !(src <= p)
    requires forall q | q in m :: !(dst <= q)
    ensures Parent(p) in Relocate(m, src, dst) && Relocate(m, src, dst)[Parent(p)] == m[Parent(p)]
  {
    assert !(src <= Parent(p)) by {
      assert Parent(p) <= p;
    }
  }

  /** An entry that moves has a directory above it: the parent of the
      destination, or the moved parent. */
  lemma RelocateMovedParent(m: Entries, src: Path, dst: Path, p: Path)
    requires dst != [] && IsDir(m, Parent(dst)) && ValidName(Last(dst)) && !(src <= Parent(dst))
    requires forall q | q in m :: !(dst <= q)
    requires dst <= p && src + p[|dst|..] in m
    requires p != dst ==> IsDir(m, Parent(src + p[|dst|..])) && ValidName(Last(src + p[|dst|..]))
    ensures p != [] && Parent(p) in Relocate(m, src, dst) && Relocate(m, src, dst)[Parent(p)].Dir? && ValidName(Last(p))
  {
    var s := p[|dst|..];
    assert p == dst + s;
    if s == [] {
      assert p == dst;
      RelocateDestinationParent(m, src, dst);
    } else {
      RelocateInnerParent(m, src, dst, s);
    }
  }

  lemma RelocateDestinationParent(m: Entries, src: Path, dst: Path)
    requires dst != [] && IsDir(m, Parent(dst)) && !(src <= Parent(dst))
    requires forall q | q in m :: !(dst <= q)
    ensures Parent(dst) in Relocate(m, src, dst) && Relocate(m, src, dst)[Parent(dst)].Dir?
  {
  }

  lemma RelocateInnerParent(m: Entries, src: Path, dst: Path, s: Path)
    requires s != [] && IsDir(m, Parent(src + s)) && ValidName(Last(src + s))
    ensures Parent(dst + s) in Relocate(m, src, dst)
    ensures Relocate(m, src, dst)[Parent(dst + s)].Dir? && ValidName(Last(dst + s))
  {
    var t := src + s;
    assert Parent(dst + s) == dst + Parent(s);
    assert src + Parent(s) == Parent(t);
    assert Last(t) == Last(s) == Last(dst + s);
  }

  /** Every location above an entry is in the map. */
  lemma AboveIsPresent(m: Entries, p: Path, t: Path)
    requires WellFormed(m) && p in m && t <= p
    ensures t in m
  {
    if t != p {
      AncestorsAreDirs(m, p, |t|);
      assert p[..|t|] == t;
    }
  }

  /** Nothing in a well-formed map is below a location that is not in it. */
  lemma NothingBelowAbsent(m: Entries, t: Path)
    requires WellFormed(m) && t !in m
    ensures forall p | p in m :: !(t <= p)
  {
    forall p | p in m
      ensures !(t <= p)
    {
      if t <= p {
        AboveIsPresent(m, p, t);
      }
    }
  }

  /** Every name on the way to an entry is a valid name. */
  lemma NamesOnPathValid(m: Entries, p: Path)
    requires WellFormed(m) && p in m
    ensures forall i | 0 <= i < |p| :: ValidName(p[i])
  {
    forall i | 0 <= i < |p|
      ensures ValidName(p[i])
    {
      var q := p[..i + 1];
      AboveIsPresent(m, p, q);
      assert Last(q) == p[i];
    }
  }
}
