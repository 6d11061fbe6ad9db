/** Byte-string helpers with the meaning PHP's string functions have for the
    file manager. Strings are sequences of characters; every edit the file
    manager makes concerns ASCII characters, which never occur inside a
    multi-byte UTF-8 sequence, so a character stands for a byte here. */
module Strings {

  /** The set PHP's `trim`, `ltrim` and `rtrim` strip when no list is given:
      space, tab, newline, carriage return, NUL and vertical tab. */
  const TrimSet: set<char> := {' ', '\t', '\n', '\r', '\0', '\U{000B}'}

  /** `strpos($s, $prefix) === 0`, with PHP 8's reading that the empty needle
      is found at offset 0. */
  predicate StartsWith(s: string, prefix: string) {
    |prefix| <= |s| && s[..|prefix|] == prefix
  }

  /** `ltrim($s, $cs)`: drops the longest prefix made of characters of `cs`. */
  function TrimLeft(s: string, cs: set<char>): (r: string)
    ensures |r| <= |s|
    ensures forall i | 0 <= i < |r| :: r[i] == s[|s| - |r| + i]
    ensures forall i | 0 <= i < |s| - |r| :: s[i] in cs
    ensures r != [] ==> r[0] !in cs
    ensures forall c | c in r :: c in s
    decreases |s|
  {
    if s != [] && s[0] in cs then
      assert forall i | 0 <= i < |s| - 1 :: s[1..][i] == s[i + 1];
      TrimLeft(s[1..], cs)
    else s
  }

  /** `rtrim($s, $cs)`: drops the longest suffix made of characters of `cs`. */
  function TrimRight(s: string, cs: set<char>): (r: string)
    ensures |r| <= |s|
    ensures forall i | 0 <= i < |r| :: r[i] == s[i]
    ensures forall i | |r| <= i < |s| :: s[i] in cs
    ensures r != [] ==> r[|r| - 1] !in cs
    ensures forall c | c in r :: c in s
    decreases |s|
  {
    if s != [] && s[|s| - 1] in cs then TrimRight(s[..|s| - 1], cs) else s
  }

  /** `r` is `s` with a prefix of `lead` characters and a suffix made of
      characters of `cs` cut off. */
  predicate CutAt(r: string, s: string, cs: set<char>, lead: nat)
    requires lead + |r| <= |s|
  {
    && (forall k | 0 <= k < |r| :: r[k] == s[lead + k])
    && (forall k | 0 <= k < lead :: s[k] in cs)
    && (forall k | lead + |r| <= k < |s| :: s[k] in cs)
  }

  /** `r` is what remains of `s` once a run of characters of `cs` is cut from
      each end, and neither end of `r` is in `cs`: the longest runs were cut. */
  predicate TrimmedOf(r: string, s: string, cs: set<char>) {
    && |r| <= |s|
    && (r != [] ==> r[0] !in cs && r[|r| - 1] !in cs)
    && exists lead | 0 <= lead <= |s| - |r| :: CutAt(r, s, cs, lead)
  }

  /** `trim($s, $cs)`: both ends. What it returns is pinned down by
      `TrimSpec` and `TrimmedUnique`. */
  function Trim(s: string, cs: set<char>): (r: string)
    ensures |r| <= |s|
    ensures r != [] ==> r[0] !in cs && r[|r| - 1] !in cs
    ensures forall c | c in r :: c in s
  {
    TrimRight(TrimLeft(s, cs), cs)
  }

  /** `trim` cuts a run of characters of `cs` from each end and leaves an
      end that is not in `cs`. */
  lemma TrimSpec(s: string, cs: set<char>)
    ensures TrimmedOf(Trim(s, cs), s, cs)
  {
    var l := TrimLeft(s, cs);
    CutTwice(TrimRight(l, cs), l, s, cs);
  }

  /** Cutting a suffix of characters of `cs` from what is left after a
      prefix of them was cut is one cut of both. */
  lemma CutTwice(r: string, l: string, s: string, cs: set<char>)
    requires |l| <= |s| && |r| <= |l|
    requires forall i | 0 <= i < |l| :: l[i] == s[|s| - |l| + i]
    requires forall i | 0 <= i < |s| - |l| :: s[i] in cs
    requires forall i | 0 <= i < |r| :: r[i] == l[i]
    requires forall i | |r| <= i < |l| :: l[i] in cs
    ensures CutAt(r, s, cs, |s| - |l|)
  {
    var lead := |s| - |l|;
    forall k | lead + |r| <= k < |s|
      ensures s[k] in cs
    {
      assert s[k] == l[k - lead];
    }
  }

  /** At most one string is `s` trimmed of `cs`: `TrimmedOf` pins the result
      of `Trim` down completely. */
  lemma TrimmedUnique(r1: string, r2: string, s: string, cs: set<char>)
    requires TrimmedOf(r1, s, cs) && TrimmedOf(r2, s, cs)
    ensures r1 == r2
  {
    var l1 :| 0 <= l1 <= |s| - |r1| && CutAt(r1, s, cs, l1);
    var l2 :| 0 <= l2 <= |s| - |r2| && CutAt(r2, s, cs, l2);
    if r1 != [] && r2 != [] {
      assert s[l1] == r1[0] && s[l2] == r2[0];
      assert l1 == l2;
      assert s[l1 + |r1| - 1] == r1[|r1| - 1];
      assert s[l2 + |r2| - 1] == r2[|r2| - 1];
      assert |r1| == |r2|;
      assert forall k | 0 <= k < |r1| :: r1[k] == r2[k];
    }
  }

  /** A string that begins or ends with no character of `cs` is left alone. */
  lemma TrimOfTrimmed(s: string, cs: set<char>)
    requires s != [] ==> s[0] !in cs && s[|s| - 1] !in cs
    ensures Trim(s, cs) == s
  {
    assert CutAt(s, s, cs, 0);
    TrimSpec(s, cs);
    TrimmedUnique(Trim(s, cs), s, s, cs);
  }

  /** `ltrim` leaves a string alone that does not start with a character
      of `cs`. */
  lemma TrimLeftNone(s: string, cs: set<char>)
    requires s != [] ==> s[0] !in cs
    ensures TrimLeft(s, cs) == s
  {
  }

  /** `rtrim` leaves a string alone that does not end with a character of
      `cs`. */
  lemma TrimRightNone(s: string, cs: set<char>)
    requires s != [] ==> s[|s| - 1] !in cs
    ensures TrimRight(s, cs) == s
  {
  }

  /** `ltrim` drops a leading character of `cs`. */
  lemma TrimLeftCons(c: char, s: string, cs: set<char>)
    requires c in cs
    ensures TrimLeft([c] + s, cs) == TrimLeft(s, cs)
  {
    assert ([c] + s)[1..] == s;
  }

  /** `str_replace($from, $to, $s)` for one character replaced by one. */
  function ReplaceChar(s: string, from: char, to: char): (r: string)
    ensures |r| == |s|
    ensures forall i | 0 <= i < |s| :: r[i] == (if s[i] == from then to else s[i])
    ensures from != to ==> from !in r
  {
    seq(|s|, i requires 0 <= i < |s| => if s[i] == from then to else s[i])
  }

  /** `str_replace($c, '', $s)`: every occurrence of `c` removed, every other
      character kept in order (`RemoveCharConcat`). */
  function RemoveChar(s: string, c: char): (r: string)
    ensures c !in r
    ensures |r| <= |s|
    ensures forall x | x != c :: multiset(r)[x] == multiset(s)[x]
    ensures c !in s ==> r == s
    decreases |s|
  {
    if s == [] then []
    else
      assert s == [s[0]] + s[1..];
      assert c !in s ==> c !in s[1..] by {
        assert forall x | x in s[1..] :: x in s;
      }
      if s[0] == c then RemoveChar(s[1..], c)
      else [s[0]] + RemoveChar(s[1..], c)
  }

  /** Removal works piece by piece: what is kept of `a` comes before what is
      kept of `b`. With the one-character cases this fixes the order. */
  lemma {:induction false} RemoveCharConcat(a: string, b: string, c: char)
    ensures RemoveChar(a + b, c) == RemoveChar(a, c) + RemoveChar(b, c)
    decreases |a|
  {
    if a == [] {
      assert a + b == b;
    } else {
      assert (a + b)[0] == a[0];
      assert (a + b)[1..] == a[1..] + b;
      RemoveCharConcat(a[1..], b, c);
    }
  }

  /** One character is kept exactly when it is not the one removed. */
  lemma RemoveCharOne(x: char, c: char)
    ensures RemoveChar([x], c) == (if x == c then [] else [x])
  {
    assert [x][1..] == [];
  }

  /** `s` begins with `prefix` exactly when `r + s` begins with `r + prefix`. */
  lemma StartsWithCommon(r: string, s: string, prefix: string)
    ensures StartsWith(r + s, r + prefix) <==> StartsWith(s, prefix)
  {
    if StartsWith(r + s, r + prefix) {
      assert s[..|prefix|] == (r + s)[|r|..|r| + |prefix|];
      assert prefix == (r + prefix)[|r|..];
    }
    if StartsWith(s, prefix) {
      assert (r + s)[..|r + prefix|] == r + s[..|prefix|];
    }
  }

  /** ASCII lower-casing of one character, as PHP's `strtolower` does it. */
  function LowerChar(c: char): char {
    if 'A' <= c <= 'Z' then (c as int + 32) as char else c
  }

  /** `strtolower`: every ASCII capital replaced by its small letter. */
  function Lower(s: string): (r: string)
    ensures |r| == |s|
    ensures forall i | 0 <= i < |s| :: r[i] == LowerChar(s[i])
    ensures forall i | 0 <= i < |s| :: !('A' <= r[i] <= 'Z')
  {
    seq(|s|, i requires 0 <= i < |s| => LowerChar(s[i]))
  }

  /** Lower-casing twice is lower-casing once. */
  lemma LowerIdempotent(s: string)
    ensures Lower(Lower(s)) == Lower(s)
  {
    var r := Lower(s);
    assert forall i | 0 <= i < |r| :: Lower(r)[i] == r[i];
  }

  /** Lower-casing brings in no character that is not a capital's image:
      a character that is not a small letter and is absent stays absent. */
  lemma LowerKeepsAbsent(s: string, c: char)
    requires c !in s && !('a' <= c <= 'z')
    ensures c !in Lower(s)
  {
    var r := Lower(s);
    forall i | 0 <= i < |r|
      ensures r[i] != c
    {
      assert s[i] in s;
    }
  }

  /** `strcasecmp($a, $b) === 0`: equal up to ASCII case. */
  predicate EqualsIgnoreCase(a: string, b: string) {
    Lower(a) == Lower(b)
  }

  /** `stripos($s, $prefix) === 0`: `prefix` begins `s` up to ASCII case. */
  predicate StartsWithIgnoreCase(s: string, prefix: string) {
    StartsWith(Lower(s), Lower(prefix))
  }

  /** `strpos($hay, $needle) !== false`. */
  predicate Contains(hay: string, needle: string) {
    exists i | 0 <= i <= |hay| - |needle| :: StartsWith(hay[i..], needle)
  }

  /** The index of the last occurrence of `c` in `s`, if any. */
  function LastIndexOf(s: string, c: char): (r: int)
    ensures -1 <= r < |s|
    ensures r >= 0 ==> s[r] == c
    ensures forall i | r < i < |s| :: s[i] != c
    decreases |s|
  {
    if s == [] then -1
    else if s[|s| - 1] == c then |s| - 1
    else LastIndexOf(s[..|s| - 1], c)
  }

  /** `explode($sep, $s)`: the pieces between separators; never empty, and
      `''` gives `['']`. Joining the pieces again gives back `s`. */
  function Split(s: string, sep: char): (parts: seq<string>)
    ensures |parts| >= 1
    ensures forall i | 0 <= i < |parts| :: sep !in parts[i]
    ensures Join(parts, sep) == s
    decreases |s|
  {
    if s == [] then [""]
    else if s[0] == sep then
      var rest := Split(s[1..], sep);
      assert s == [sep] + s[1..];
      [""] + rest
    else
      var rest := Split(s[1..], sep);
      var parts := [[s[0]] + rest[0]] + rest[1..];
      assert parts[1..] == rest[1..];
      assert s == [s[0]] + s[1..];
      parts
  }

  /** `implode($sep, $parts)`. */
  function Join(parts: seq<string>, sep: char): string
    decreases |parts|
  {
    if parts == [] then ""
    else if |parts| == 1 then parts[0]
    else parts[0] + [sep] + Join(parts[1..], sep)
  }

  /** Joining pieces that hold no separator and splitting again gives back the
      pieces: the other half of the round trip stated on `Split`. */
  lemma {:induction false} SplitJoin(parts: seq<string>, sep: char)
    requires |parts| >= 1
    requires forall i | 0 <= i < |parts| :: sep !in parts[i]
    ensures Split(Join(parts, sep), sep) == parts
    decreases |parts|
  {
    if |parts| == 1 {
      SplitNoSep(parts[0], sep);
    } else {
      SplitJoin(parts[1..], sep);
      SplitAround(parts[0], Join(parts[1..], sep), sep);
    }
  }

  /** A string holding no separator is one piece. */
  lemma {:induction false} SplitNoSep(s: string, sep: char)
    requires sep !in s
    ensures Split(s, sep) == [s]
    decreases |s|
  {
    if s != [] {
      SplitNoSep(s[1..], sep);
    }
  }

  /** Splitting `a + sep + b` where `a` holds no separator. */
  lemma {:induction false} SplitAround(a: string, b: string, sep: char)
    requires sep !in a
    ensures Split(a + [sep] + b, sep) == [a] + Split(b, sep)
    decreases |a|
  {
    if a == [] {
      assert a + [sep] + b == [sep] + b;
      assert ([sep] + b)[1..] == b;
    } else {
      assert (a + [sep] + b)[1..] == a[1..] + [sep] + b;
      SplitAround(a[1..], b, sep);
      assert [a[0]] + a[1..] == a;
    }
  }
}
