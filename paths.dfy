/** Path normalisation and the root-scope check of `resolve_path`, and the
    correspondence between absolute path strings and locations in the tree
    (sequences of names below the base). */
module Paths {
  import opened Strings
  import opened Wrappers

  /** `clean_seg`: NULs dropped, backslashes turned into '/', then the
      default `trim` (`CleanSegSpec`). */
  function CleanSeg(seg: string): (r: string)
    ensures '\0' !in r && '\\' !in r
    ensures r != [] ==> r[0] !in TrimSet && r[|r| - 1] !in TrimSet
  {
    var noNul := RemoveChar(seg, '\0');
    var slashed := ReplaceChar(noNul, '\\', '/');
    assert '\0' !in slashed by {
      forall i | 0 <= i < |slashed| ensures slashed[i] != '\0' {
        assert noNul[i] in noNul;
      }
    }
    Trim(slashed, TrimSet)
  }

  /** The cleaned segment is the segment without its NULs, backslashes turned
      into '/', trimmed of blanks at both ends; a segment with no NUL and no
      blank end only has its backslashes turned. */
  lemma CleanSegSpec(seg: string)
    ensures TrimmedOf(CleanSeg(seg), ReplaceChar(RemoveChar(seg, '\0'), '\\', '/'), TrimSet)
    ensures '\0' !in seg && (seg != [] ==> seg[0] !in TrimSet && seg[|seg| - 1] !in TrimSet) ==>
              CleanSeg(seg) == ReplaceChar(seg, '\\', '/')
  {
    var slashed := ReplaceChar(RemoveChar(seg, '\0'), '\\', '/');
    TrimSpec(slashed, TrimSet);
    if '\0' !in seg && (seg != [] ==> seg[0] !in TrimSet && seg[|seg| - 1] !in TrimSet) {
      TrimOfPlain(seg);
      assert RemoveChar(seg, '\0') == seg;
    }
  }

  /** Turning backslashes into '/' brings no blank to either end, so a
      segment with no blank end is left alone by the `trim` that follows. */
  lemma TrimOfPlain(seg: string)
    requires seg != [] ==> seg[0] !in TrimSet && seg[|seg| - 1] !in TrimSet
    ensures Trim(ReplaceChar(seg, '\\', '/'), TrimSet) == ReplaceChar(seg, '\\', '/')
  {
    var t := ReplaceChar(seg, '\\', '/');
    if seg != [] {
      assert t[0] == (if seg[0] == '\\' then '/' else seg[0]);
      assert t[|t| - 1] == (if seg[|seg| - 1] == '\\' then '/' else seg[|seg| - 1]);
    }
    TrimOfTrimmed(t, TrimSet);
  }

  /** Cleaning twice is cleaning once. */
  lemma CleanSegIdempotent(seg: string)
    ensures CleanSeg(CleanSeg(seg)) == CleanSeg(seg)
  {
    var t := CleanSeg(seg);
    assert ReplaceChar(t, '\\', '/') == t;
    TrimOfTrimmed(t, TrimSet);
  }

  /** The three values `resolve_path` returns: the normalised real base, the
      checked absolute path and the cleaned relative part. */
  datatype Resolved = Resolved(realBase: string, absPath: string, relative: string)

  /** The relative part: cleaned, with every leading '/' removed. */
  function RelativePart(rel: string): (r: string)
    ensures '\0' !in r && '\\' !in r
    ensures r != [] ==> r[0] != '/'
  {
    TrimLeft(CleanSeg(rel), {'/'})
  }

  /** The relative part is what follows the leading slashes of the cleaned
      segment. */
  lemma RelativePartSpec(rel: string)
    ensures var c := CleanSeg(rel);
            var r := RelativePart(rel);
            && |r| <= |c|
            && r == c[|c| - |r|..]
            && (forall i | 0 <= i < |c| - |r| :: c[i] == '/')
  {
    var c := CleanSeg(rel);
    LeadingSlashesCut(c);
    assert RelativePart(rel) == TrimLeft(c, {'/'});
  }

  /** `ltrim($c, '/')` cuts exactly the leading slashes. */
  lemma LeadingSlashesCut(c: string)
    ensures var r := TrimLeft(c, {'/'});
            && |r| <= |c|
            && r == c[|c| - |r|..]
            && (forall i | 0 <= i < |c| - |r| :: c[i] == '/')
  {
    var r := TrimLeft(c, {'/'});
    forall i | 0 <= i < |c| - |r|
      ensures c[i] == '/'
    {
      assert c[i] in {'/'};
    }
    assert r == c[|c| - |r|..];
  }

  /** The joined candidate: the base without trailing '/', a '/', the
      relative part. */
  function Candidate(basePath: string, relative: string): string {
    TrimRight(basePath, {'/'}) + "/" + relative
  }

  /** Everything `resolve_path` computes before its prefix test. `realpath`
      is the file system's canonicalisation, given as an oracle: `None` is
      PHP's `false`. A base that does not resolve stops the request with 500;
      a candidate that does not resolve is kept as written, backslashes
      turned into '/'. */
  function Canonical(basePath: string, rel: string, realpath: string -> Option<string>): (r: Result<Resolved>)
    ensures r.Exit? <==> realpath(basePath).None?
    ensures r.Exit? ==> r == Exit(500, "BASE_PATH invalid")
    ensures r.Ok? ==> r.value.relative == RelativePart(rel)
    ensures r.Ok? ==> '\\' !in r.value.absPath && '\\' !in r.value.realBase
    ensures r.Ok? ==> r.value.realBase == [] || r.value.realBase[|r.value.realBase| - 1] != '/'
    ensures r.Ok? && realpath(Candidate(basePath, RelativePart(rel))).None? ==>
              r.value.absPath == ReplaceChar(Candidate(basePath, RelativePart(rel)), '\\', '/')
  {
    var relative := RelativePart(rel);
    var candidate := Candidate(basePath, relative);
    if realpath(basePath).None? then Exit(500, "BASE_PATH invalid")
    else
      var realCand := ReplaceChar(RealOrSelf(candidate, realpath), '\\', '/');
      var slashed := ReplaceChar(realpath(basePath).value, '\\', '/');
      var realBase := TrimRight(slashed, {'/'});
      assert realBase != [] ==> realBase[|realBase| - 1] !in {'/'};
      assert '\\' !in realBase by {
        forall i | 0 <= i < |realBase| ensures realBase[i] != '\\' {
          assert realBase[i] == slashed[i];
        }
      }
      Ok(Resolved(realBase, realCand, relative))
  }

  /** The real base is the base's canonical form with backslashes turned
      into '/' and trailing slashes dropped; a candidate that resolves is
      replaced by its canonical form, backslashes turned into '/'. */
  lemma CanonicalOracle(basePath: string, rel: string, realpath: string -> Option<string>)
    requires realpath(basePath).Some?
    ensures var r := Canonical(basePath, rel, realpath);
            && r.Ok?
            && r.value.realBase == TrimRight(ReplaceChar(realpath(basePath).value, '\\', '/'), {'/'})
            && r.value.relative == RelativePart(rel)
    ensures var cand := Candidate(basePath, RelativePart(rel));
            realpath(cand).Some? ==>
              Canonical(basePath, rel, realpath).value.absPath == ReplaceChar(realpath(cand).value, '\\', '/')
  {
  }

  /** `realpath($p) ?: $p`. */
  function RealOrSelf(p: string, realpath: string -> Option<string>): string {
    if realpath(p).Some? then realpath(p).value else p
  }

  /** `resolve_path` as written: the request stops with 403 unless the
      absolute path begins with the real base as a plain string, and
      otherwise the resolution is returned. Whatever it returns has no NUL
      or backslash in the relative part, no leading '/', and an absolute
      path that begins with the base. */
  function ResolvePath(basePath: string, rel: string, realpath: string -> Option<string>): (r: Result<Resolved>)
    ensures r.Ok? ==> '\0' !in r.value.relative && '\\' !in r.value.relative
    ensures r.Ok? ==> r.value.relative == [] || r.value.relative[0] != '/'
    ensures r.Ok? ==> StartsWith(r.value.absPath, r.value.realBase)
    ensures r == Exit(500, "BASE_PATH invalid") <==> realpath(basePath).None?
    ensures r == Exit(403, "Forbidden path") <==>
              Canonical(basePath, rel, realpath).Ok? &&
              !StartsWith(Canonical(basePath, rel, realpath).value.absPath, Canonical(basePath, rel, realpath).value.realBase)
    ensures r.Ok? ==> r == Canonical(basePath, rel, realpath)
    ensures Canonical(basePath, rel, realpath).Ok? &&
            StartsWith(Canonical(basePath, rel, realpath).value.absPath, Canonical(basePath, rel, realpath).value.realBase)
            ==> r == Canonical(basePath, rel, realpath)
  {
    var c :- Canonical(basePath, rel, realpath);
    if !StartsWith(c.absPath, c.realBase) then Exit(403, "Forbidden path") else Ok(c)
  }

  /** A path is inside the base when it is the base or lies below "base/". */
  predicate Inside(absPath: string, realBase: string) {
    absPath == realBase || StartsWith(absPath, realBase + "/")
  }

  /** The check as evidently intended: the same resolution, but accepted only
      when the path is the base itself or lies below "base/"; a request that
      `resolve_path` ends is ended the same way, and a path it would accept
      outside the base ends with 403. */
  function ResolveContained(basePath: string, rel: string, realpath: string -> Option<string>): (r: Result<Resolved>)
    ensures r.Ok? ==> Inside(r.value.absPath, r.value.realBase)
    ensures r.Ok? ==> ResolvePath(basePath, rel, realpath) == r
    ensures ResolvePath(basePath, rel, realpath).Ok? &&
            Inside(ResolvePath(basePath, rel, realpath).value.absPath, ResolvePath(basePath, rel, realpath).value.realBase)
            ==> r == ResolvePath(basePath, rel, realpath)
    ensures ResolvePath(basePath, rel, realpath).Exit? ==> r == ResolvePath(basePath, rel, realpath)
    ensures ResolvePath(basePath, rel, realpath).Ok? &&
            !Inside(ResolvePath(basePath, rel, realpath).value.absPath, ResolvePath(basePath, rel, realpath).value.realBase)
            ==> r == Exit(403, "Forbidden path")
  {
    var c :- Canonical(basePath, rel, realpath);
    InsidePassesPrefixTest(c.absPath, c.realBase);
    assert ResolvePath(basePath, rel, realpath) ==
             if !StartsWith(c.absPath, c.realBase) then Exit(403, "Forbidden path") else Ok(c);
    if !Inside(c.absPath, c.realBase) then Exit(403, "Forbidden path") else Ok(c)
  }

  /** A path inside the base begins with the base. */
  lemma InsidePassesPrefixTest(absPath: string, realBase: string)
    ensures Inside(absPath, realBase) ==> StartsWith(absPath, realBase)
  {
    if StartsWith(absPath, realBase + "/") {
      assert absPath[..|realBase|] == (realBase + "/")[..|realBase|];
    }
  }

  /** The flaw of the plain prefix test, in general: if `realpath` sends the
      candidate to a sibling whose name merely extends the base's name, the
      sibling is accepted although it is neither the base nor below it. */
  lemma {:induction false} SiblingPassesPrefixTest(basePath: string, rel: string, realpath: string -> Option<string>, tail: string)
    requires realpath(basePath) == Some(basePath)
    requires '\\' !in basePath && basePath != [] && basePath[|basePath| - 1] != '/'
    requires '\\' !in tail && tail != [] && tail[0] != '/'
    requires forall p | p != basePath :: realpath(p) == Some(basePath + tail)
    ensures ResolvePath(basePath, rel, realpath).Ok?
    ensures ResolvePath(basePath, rel, realpath).value.absPath == basePath + tail
    ensures !Inside(basePath + tail, basePath)
    ensures ResolveContained(basePath, rel, realpath) == Exit(403, "Forbidden path")
  {
    CandidateLonger(basePath, RelativePart(rel));
    assert ReplaceChar(basePath, '\\', '/') == basePath;
    assert TrimRight(basePath, {'/'}) == basePath;
    assert ReplaceChar(basePath + tail, '\\', '/') == basePath + tail;
    assert StartsWith(basePath + tail, basePath) by {
      assert (basePath + tail)[..|basePath|] == basePath;
    }
    assert (basePath + tail)[|basePath|] == tail[0] != '/' == (basePath + "/")[|basePath|];
  }

  /** A concrete instance: with the base "/srv/www", a request for
      "../www-evil" that the file system resolves to "/srv/www-evil" is
      accepted by `resolve_path`; the contained check refuses it. */
  lemma SiblingDirectoryExample(base: string, request: string)
    requires base == "/srv/www" && request == "../www-evil"
    ensures ResolvePath(base, request, SiblingOracle).Ok?
    ensures ResolvePath(base, request, SiblingOracle).value.absPath == "/srv/www-evil"
    ensures ResolveContained(base, request, SiblingOracle).Exit?
  {
    assert base + "-evil" == "/srv/www-evil";
    SiblingPassesPrefixTest(base, request, SiblingOracle, "-evil");
  }

  /** The candidate is longer than a base that does not end in '/'. */
  lemma CandidateLonger(basePath: string, relative: string)
    requires basePath != [] && basePath[|basePath| - 1] != '/'
    ensures |Candidate(basePath, relative)| > |basePath|
  {
    assert TrimRight(basePath, {'/'}) == basePath;
  }

  /** A file system in which "/srv/www" is itself and every other path is
      the sibling directory "/srv/www-evil". */
  function SiblingOracle(p: string): Option<string> {
    if p == "/srv/www" then Some("/srv/www") else Some("/srv/www-evil")
  }

  /** The string an absolute location has: the base followed by "/name" for
      each name on the way down. */
  function Segs(p: seq<string>): string
    decreases |p|
  {
    if p == [] then "" else "/" + p[0] + Segs(p[1..])
  }

  function AbsOf(realBase: string, p: seq<string>): string {
    realBase + Segs(p)
  }

  /** The guard of `move` (line 353) compares "dst/" with "src/" as strings;
      for names without '/', that is exactly the test that the destination's
      location lies at or below the source's. */
  lemma SlashPrefixIsAncestor(realBase: string, src: seq<string>, dst: seq<string>)
    requires forall i | 0 <= i < |src| :: '/' !in src[i]
    requires forall i | 0 <= i < |dst| :: '/' !in dst[i]
    ensures StartsWith(AbsOf(realBase, dst) + "/", AbsOf(realBase, src) + "/") <==> src <= dst
  {
    assert AbsOf(realBase, dst) + "/" == realBase + (Segs(dst) + "/");
    assert AbsOf(realBase, src) + "/" == realBase + (Segs(src) + "/");
    StartsWithCommon(realBase, Segs(dst) + "/", Segs(src) + "/");
    SegsPrefix(src, dst);
  }

  lemma {:induction false} SegsPrefix(a: seq<string>, b: seq<string>)
    requires forall i | 0 <= i < |a| :: '/' !in a[i]
    requires forall i | 0 <= i < |b| :: '/' !in b[i]
    ensures StartsWith(Segs(b) + "/", Segs(a) + "/") <==> a <= b
    decreases |a|
  {
    if a == [] {
      SegsStartsWithSlash(b);
    } else if b == [] {
      assert |Segs(a) + "/"| >= 2;
    } else {
      SegsCons(a);
      SegsCons(b);
      StartsWithCommon("/", b[0] + (Segs(b[1..]) + "/"), a[0] + (Segs(a[1..]) + "/"));
      SegsStartsWithSlash(a[1..]);
      SegsStartsWithSlash(b[1..]);
      FirstSegment(a[0], b[0], Segs(a[1..]) + "/", Segs(b[1..]) + "/");
      SegsPrefix(a[1..], b[1..]);
      PrefixCons(a, b);
    }
  }

  /** The string of a non-empty location, with its first name split off. */
  lemma SegsCons(p: seq<string>)
    requires p != []
    ensures Segs(p) + "/" == "/" + (p[0] + (Segs(p[1..]) + "/"))
  {
  }

  /** One non-empty sequence begins another exactly when their heads agree
      and the tail of the one begins the tail of the other. */
  lemma PrefixCons<T>(a: seq<T>, b: seq<T>)
    requires a != [] && b != []
    ensures a <= b <==> a[0] == b[0] && a[1..] <= b[1..]
  {
    if a[0] == b[0] && a[1..] <= b[1..] {
      assert a == [a[0]] + a[1..];
      assert b[..|a|] == [b[0]] + b[1..][..|a| - 1];
    }
  }

  /** `Segs(p) + "/"` always begins with '/'. */
  lemma SegsStartsWithSlash(p: seq<string>)
    ensures |Segs(p) + "/"| >= 1 && (Segs(p) + "/")[0] == '/'
  {
  }

  /** Two slash-free names each followed by a slash-led rest: one begins the
      other exactly when the names agree and the rests do. */
  lemma FirstSegment(x: string, y: string, s: string, t: string)
    requires '/' !in x && '/' !in y
    requires |s| >= 1 && s[0] == '/' && |t| >= 1 && t[0] == '/'
    ensures StartsWith(y + t, x + s) <==> x == y && StartsWith(t, s)
  {
    if StartsWith(y + t, x + s) {
      assert x == (x + s)[..|x|] == (y + t)[..|y|] == y;
      StartsWithCommon(x, t, s);
    } else if x == y {
      StartsWithCommon(x, t, s);
    }
  }

  /** The location an absolute path string denotes: none when it is outside
      the base, the root for the base itself, otherwise the '/'-separated
      names of the remainder. */
  function Locate(res: Resolved): (r: Option<seq<string>>)
    ensures Inside(res.absPath, res.realBase) <==> r.Some?
    ensures r.Some? ==> forall i | 0 <= i < |r.value| :: '/' !in r.value[i]
    ensures res.absPath == res.realBase ==> r == Some([])
  {
    if res.absPath == res.realBase then Some([])
    else if StartsWith(res.absPath, res.realBase + "/") then
      Some(Split(res.absPath[|res.realBase| + 1..], '/'))
    else None
  }

  /** Locating is undone by `AbsOf`: the location's string is the path. */
  lemma LocateRoundTrip(res: Resolved)
    requires Locate(res).Some?
    ensures AbsOf(res.realBase, Locate(res).value) == res.absPath
  {
    if res.absPath != res.realBase {
      var rest := res.absPath[|res.realBase| + 1..];
      assert res.absPath == res.realBase + "/" + rest;
      SegsOfSplit(rest);
    }
  }

  /** Locating undoes `AbsOf`: a location whose names hold no '/', written
      out below the base, is located as itself. With `LocateRoundTrip`
      this makes the location of a path unique. */
  lemma LocateOfAbsOf(realBase: string, p: seq<string>, relative: string)
    requires forall i | 0 <= i < |p| :: '/' !in p[i]
    ensures Locate(Resolved(realBase, AbsOf(realBase, p), relative)) == Some(p)
  {
    if p != [] {
      SegsJoin(p);
      var joined := Join(p, '/');
      var abs := realBase + "/" + joined;
      assert AbsOf(realBase, p) == abs;
      assert |abs| > |realBase|;
      assert abs[..|realBase| + 1] == realBase + "/";
      assert abs[|realBase| + 1..] == joined;
      SplitJoin(p, '/');
    }
  }

  /** The segments string of the pieces of `s` is "/" followed by `s`. */
  lemma {:induction false} SegsOfSplit(s: string)
    ensures Segs(Split(s, '/')) == "/" + s
  {
    SegsJoin(Split(s, '/'));
  }

  lemma {:induction false} SegsJoin(parts: seq<string>)
    requires |parts| >= 1
    ensures Segs(parts) == "/" + Join(parts, '/')
    decreases |parts|
  {
    if |parts| > 1 {
      SegsJoin(parts[1..]);
    }
  }
}
