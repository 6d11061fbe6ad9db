/** The breadcrumb trail and the "Up" link of the listing page. */
module Crumbs {
  import opened Strings

  /** One breadcrumb: the folder name shown and the relative directory the
      crumb links to. */
  datatype Crumb = Crumb(name: string, link: string)

  /** The names the trail is built from: the relative directory with its
      slashes trimmed at both ends, cut at every '/'. */
  function CrumbParts(relative: string): seq<string> {
    Split(Trim(relative, {'/'}), '/')
  }

  /** The top directory has no trail. */
  predicate IsTop(relative: string) {
    relative == "" || relative == "/"
  }

  /** PHP's truthiness of a string: only "" and "0" are false. */
  predicate Truthy(s: string) {
    s != "" && s != "0"
  }

  /** One step of the accumulation in `breadcrumb`, as written: a '/' is put
      before the next name only when the accumulated path is truthy. */
  function AccumStep(accum: string, p: string): string {
    if Truthy(accum) then accum + "/" + p else accum + p
  }

  /** The accumulated path after the given names, as written. */
  function AccumAsWritten(parts: seq<string>): string
    decreases |parts|
  {
    if parts == [] then "" else AccumStep(AccumAsWritten(parts[..|parts| - 1]), parts[|parts| - 1])
  }

  /** The crumbs of a trail as written: the accumulated path after each
      name. */
  predicate AsWrittenTrail(parts: seq<string>, crumbs: seq<Crumb>) {
    |crumbs| == |parts| &&
    forall i | 0 <= i < |crumbs| :: crumbs[i] == Crumb(parts[i], AccumAsWritten(parts[..i + 1]))
  }

  /** The crumbs of a trail as intended: the first `i + 1` names joined by
      '/'. */
  predicate JoinedTrail(parts: seq<string>, crumbs: seq<Crumb>) {
    |crumbs| == |parts| &&
    forall i | 0 <= i < |crumbs| :: crumbs[i] == Crumb(parts[i], Join(parts[..i + 1], '/'))
  }

  /** `breadcrumb` as written (lines 139-146). */
  method BreadcrumbAsWritten(relative: string) returns (crumbs: seq<Crumb>)
    ensures IsTop(relative) ==> crumbs == []
    ensures !IsTop(relative) ==> AsWrittenTrail(CrumbParts(relative), crumbs)
  {
    crumbs := [];
    if IsTop(relative) {
      return;
    }
    crumbs := AccumulateAsWritten(CrumbParts(relative));
  }

  /** The loop of `breadcrumb` as written. */
  method AccumulateAsWritten(parts: seq<string>) returns (crumbs: seq<Crumb>)
    ensures AsWrittenTrail(parts, crumbs)
  {
    crumbs := [];
    var accum := "";
    for i := 0 to |parts|
      invariant accum == AccumAsWritten(parts[..i])
      invariant |crumbs| == i
      invariant forall k | 0 <= k < i :: crumbs[k] == Crumb(parts[k], AccumAsWritten(parts[..k + 1]))
    {
      assert parts[..i + 1][..i] == parts[..i];
      accum := AccumStep(accum, parts[i]);
      crumbs := crumbs + [Crumb(parts[i], accum)];
    }
  }

  /** `breadcrumb` as evidently intended: crumb `i` links to the first
      `i + 1` names joined by '/'. */
  method Breadcrumb(relative: string) returns (crumbs: seq<Crumb>)
    ensures IsTop(relative) ==> crumbs == []
    ensures !IsTop(relative) ==> JoinedTrail(CrumbParts(relative), crumbs)
  {
    crumbs := [];
    if IsTop(relative) {
      return;
    }
    crumbs := Accumulate(CrumbParts(relative));
  }

  /** The loop of `breadcrumb` with the separator put between every two
      names. */
  method Accumulate(parts: seq<string>) returns (crumbs: seq<Crumb>)
    ensures JoinedTrail(parts, crumbs)
  {
    crumbs := [];
    var accum := "";
    for i := 0 to |parts|
      invariant i > 0 ==> accum == Join(parts[..i], '/')
      invariant |crumbs| == i
      invariant forall k | 0 <= k < i :: crumbs[k] == Crumb(parts[k], Join(parts[..k + 1], '/'))
    {
      if i == 0 {
        accum := parts[0];
        assert parts[..1] == [parts[0]];
      } else {
        JoinAppend(parts[..i], parts[i], '/');
        assert parts[..i] + [parts[i]] == parts[..i + 1];
        accum := accum + "/" + parts[i];
      }
      crumbs := crumbs + [Crumb(parts[i], accum)];
    }
  }

  /** Appending one name to a non-empty list adds "/name" to its join. */
  lemma {:induction false} JoinAppend(parts: seq<string>, x: string, sep: char)
    requires |parts| >= 1
    ensures Join(parts + [x], sep) == Join(parts, sep) + [sep] + x
    decreases |parts|
  {
    if |parts| > 1 {
      assert (parts + [x])[1..] == parts[1..] + [x];
      JoinAppend(parts[1..], x, sep);
    }
  }

  /** The joins of the first names are prefixes of the whole join. */
  lemma {:induction false} JoinPrefix(parts: seq<string>, k: nat, sep: char)
    requires 1 <= k <= |parts|
    ensures StartsWith(Join(parts, sep), Join(parts[..k], sep))
    decreases |parts| - k
  {
    if k < |parts| {
      JoinPrefix(parts, k + 1, sep);
      JoinAppend(parts[..k], parts[k], sep);
      assert parts[..k] + [parts[k]] == parts[..k + 1];
      var a, b := Join(parts[..k], sep), Join(parts[..k + 1], sep);
      assert b[..|a|] == a;
      assert Join(parts, sep)[..|b|] == b;
      assert Join(parts, sep)[..|a|] == b[..|a|];
    } else {
      assert parts[..k] == parts;
    }
  }

  /** Every crumb of the corrected trail links to an ancestor of the current
      directory (or to the directory itself), and the last crumb links to
      the current directory, slashes trimmed. */
  lemma CrumbsAreAncestors(relative: string, i: nat)
    requires !IsTop(relative) && i < |CrumbParts(relative)|
    ensures StartsWith(Trim(relative, {'/'}), Join(CrumbParts(relative)[..i + 1], '/'))
    ensures i == |CrumbParts(relative)| - 1 ==> Join(CrumbParts(relative)[..i + 1], '/') == Trim(relative, {'/'})
  {
    var parts := CrumbParts(relative);
    JoinPrefix(parts, i + 1, '/');
    if i == |parts| - 1 {
      assert parts[..i + 1] == parts;
    }
  }

  /** The trail as written and as intended agree whenever the first name is
      not "0": the accumulated path is then truthy after the first step. */
  lemma {:induction false} AccumAgrees(parts: seq<string>, k: nat)
    requires |parts| >= 1 && parts[0] != "" && parts[0] != "0"
    requires 1 <= k <= |parts|
    ensures AccumAsWritten(parts[..k]) == Join(parts[..k], '/')
    decreases k
  {
    if k == 1 {
      assert parts[..1][..0] == [];
      assert AccumAsWritten(parts[..1]) == AccumStep("", parts[0]) == parts[0];
    } else {
      AccumAgrees(parts, k - 1);
      assert parts[..k][..k - 1] == parts[..k - 1];
      var prev := Join(parts[..k - 1], '/');
      JoinPrefix(parts[..k - 1], 1, '/');
      assert parts[..k - 1][..1] == [parts[0]];
      assert Truthy(prev) by {
        assert StartsWith(prev, parts[0]);
      }
      JoinAppend(parts[..k - 1], parts[k - 1], '/');
      assert parts[..k - 1] + [parts[k - 1]] == parts[..k];
    }
  }

  /** The trail as written loses the separator after a first folder named
      "0": the crumb for "0/x" links to "0x". */
  lemma ZeroFolderLosesSeparator(parts: seq<string>)
    requires |parts| == 2 && parts[0] == "0" && parts[1] != ""
    ensures AccumAsWritten(parts) == "0" + parts[1]
    ensures Join(parts, '/') == "0/" + parts[1]
    ensures AccumAsWritten(parts) != Join(parts, '/')
  {
    assert parts[..1] == ["0"];
    assert AccumAsWritten(parts[..1]) == "0" by {
      assert parts[..1][..0] == [];
    }
    assert |AccumAsWritten(parts)| < |Join(parts, '/')|;
  }

  /** The "Up" link (line 425): the parent of the current directory, that is
      the names without the last one, joined again; the top is its own
      parent. */
  function ParentRel(relative: string): (r: string)
    ensures IsTop(relative) ==> r == ""
    ensures !IsTop(relative) && |CrumbParts(relative)| == 1 ==> r == ""
    ensures !IsTop(relative) && |CrumbParts(relative)| >= 2 ==>
              r + "/" + CrumbParts(relative)[|CrumbParts(relative)| - 1] == Trim(relative, {'/'})
  {
    if IsTop(relative) then ""
    else
      var parts := CrumbParts(relative);
      var bits := parts[..|parts| - 1];
      if |bits| >= 1 then
        JoinAppend(bits, parts[|parts| - 1], '/');
        assert bits + [parts[|parts| - 1]] == parts;
        Join(bits, '/')
      else Join(bits, '/')
  }
}
