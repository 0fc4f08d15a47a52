/** Python string operations the generator relies on, over `seq<char>`:
    substring search (`in`), `str.split` with a non-empty separator,
    `str.join`, and `str.strip()` over the ASCII whitespace characters. */
module Text {
  import opened Wrappers

  /** `pat` occurs in `s` starting at index `i`. */
  predicate OccursAt(s: string, pat: string, i: nat) {
    i + |pat| <= |s| && s[i..i + |pat|] == pat
  }

  /** The first index at or after `from` where `pat` occurs, if any. */
  function FindFrom(s: string, pat: string, from: nat): (r: Option<nat>)
    ensures r.Some? ==> from <= r.value && OccursAt(s, pat, r.value)
    ensures forall k: nat {:trigger OccursAt(s, pat, k)} ::
              from <= k && (r.None? || k < r.value) ==> !OccursAt(s, pat, k)
    decreases |s| + 1 - from
  {
    if from + |pat| > |s| then None
    else if OccursAt(s, pat, from) then Some(from)
    else FindFrom(s, pat, from + 1)
  }

  /** `s.find(pat)`, as an option instead of -1. */
  function FindFirst(s: string, pat: string): Option<nat> {
    FindFrom(s, pat, 0)
  }

  /** Python's `pat in s`. */
  predicate Contains(s: string, pat: string) {
    FindFirst(s, pat).Some?
  }

  lemma ContainsAt(s: string, pat: string, i: nat)
    requires OccursAt(s, pat, i)
    ensures Contains(s, pat) && FindFirst(s, pat).value <= i
  {
  }

  /** An occurrence inside a slice is an occurrence in the whole string. */
  lemma OccursInSlice(s: string, a: nat, b: nat, pat: string, k: nat)
    requires a <= b <= |s|
    requires OccursAt(s[a..b], pat, k)
    ensures OccursAt(s, pat, a + k)
  {
    var w := s[a..b][k..k + |pat|];
    assert |w| == |pat|;
    forall j | 0 <= j < |pat| ensures w[j] == s[a + k + j] { }
    assert w == s[a + k..a + k + |pat|];
  }

  /** Whatever a slice of `s` contains, `s` contains too. */
  lemma ContainsFromSlice(s: string, a: nat, b: nat, pat: string)
    requires a <= b <= |s|
    requires Contains(s[a..b], pat)
    ensures Contains(s, pat)
  {
    OccursInSlice(s, a, b, pat, FindFirst(s[a..b], pat).value);
    ContainsAt(s, pat, a + FindFirst(s[a..b], pat).value);
  }

  /** An occurrence with none before it is the first. */
  lemma FirstAt(s: string, pat: string, i: nat)
    requires OccursAt(s, pat, i)
    requires forall k: nat :: k < i ==> !OccursAt(s, pat, k)
    ensures FindFirst(s, pat) == Some(i)
  {
    ContainsAt(s, pat, i);
  }

  /** A text missing one of the pattern's characters does not contain it. */
  lemma LacksCharOf(s: string, pat: string, m: nat)
    requires m < |pat| && forall k :: 0 <= k < |s| ==> s[k] != pat[m]
    ensures !Contains(s, pat)
  {
  }

  /** A slice that ends at or before the first occurrence holds no occurrence. */
  lemma NoneBeforeFirst(s: string, pat: string, i: nat, b: nat)
    requires pat != []
    requires FindFirst(s, pat).Some? && b <= FindFirst(s, pat).value
    requires i <= b <= |s|
    ensures !Contains(s[i..b], pat)
  {
    if Contains(s[i..b], pat) {
      var k := FindFirst(s[i..b], pat).value;
      OccursInSlice(s, i, b, pat, k);
      assert false;
    }
  }

  /** An occurrence of `p + q` is an occurrence of `p` at the same place. */
  lemma PrefixOccurs(s: string, p: string, q: string, i: nat)
    requires OccursAt(s, p + q, i)
    ensures OccursAt(s, p, i)
  {
    assert s[i..i + |p|] == (p + q)[..|p|];
  }

  /** Text up to (not including) the first `sep`, or all of `s`:
      Python's `s.split(sep)[0]`. */
  function UpTo(s: string, sep: string): (r: string)
    ensures |r| <= |s| && r == s[..|r|]
  {
    match FindFirst(s, sep)
    case None => s
    case Some(i) => s[..i]
  }

  /** Text after the first occurrence of `sep`. */
  function AfterFirst(s: string, sep: string): (r: string)
    requires Contains(s, sep)
    ensures |r| + |sep| <= |s| && r == s[|s| - |r|..]
  {
    s[FindFirst(s, sep).value + |sep|..]
  }

  /** Python's `s.split(sep)` for a non-empty separator: the pieces between
      successive non-overlapping occurrences, scanned left to right. */
  function Split(s: string, sep: string): (parts: seq<string>)
    requires sep != []
    ensures |parts| >= 1
    ensures Contains(s, sep) ==> |parts| >= 2
    ensures parts[0] == UpTo(s, sep)
    decreases |s|
  {
    match FindFirst(s, sep)
    case None => [s]
    case Some(i) => [s[..i]] + Split(s[i + |sep|..], sep)
  }

  /** The text before the first separator holds no separator. */
  lemma UpToLacks(s: string, sep: string)
    requires sep != []
    ensures !Contains(UpTo(s, sep), sep)
  {
    if Contains(s, sep) {
      var i := FindFirst(s, sep).value;
      NoneBeforeFirst(s, sep, 0, i);
      assert s[0..i] == UpTo(s, sep);
    }
  }

  /** A text without the separator splits into just itself, and only such
      a text gives a single piece. */
  lemma SplitWithout(s: string, sep: string)
    requires sep != []
    ensures !Contains(s, sep) <==> Split(s, sep) == [s]
  {
  }

  /** Python's `sep.join(parts)`. */
  function Join(parts: seq<string>, sep: string): string
  {
    if |parts| == 0 then ""
    else if |parts| == 1 then parts[0]
    else parts[0] + sep + Join(parts[1..], sep)
  }

  /** The second piece of a split is the text after the first separator,
      up to the next one. */
  lemma SplitSecond(s: string, sep: string)
    requires sep != [] && Contains(s, sep)
    ensures |Split(s, sep)| >= 2 && Split(s, sep)[1] == UpTo(AfterFirst(s, sep), sep)
  {
  }

  lemma JoinCons(p: string, tail: seq<string>, sep: string)
    requires |tail| >= 1
    ensures Join([p] + tail, sep) == p + sep + Join(tail, sep)
  {
    assert ([p] + tail)[1..] == tail;
  }

  /** One step of a split at the first separator. */
  lemma SplitStep(s: string, sep: string, i: nat)
    requires sep != [] && FindFirst(s, sep) == Some(i)
    ensures Split(s, sep) == [s[..i]] + Split(s[i + |sep|..], sep)
  {
  }

  /** No piece of a split holds the separator. */
  lemma {:induction false} SplitPieceLacks(s: string, sep: string, k: nat)
    requires sep != [] && k < |Split(s, sep)|
    ensures !Contains(Split(s, sep)[k], sep)
    decreases |s|
  {
    if k == 0 {
      UpToLacks(s, sep);
    } else {
      var i := FindFirst(s, sep).value;
      SplitStep(s, sep, i);
      SplitPieceLacks(s[i + |sep|..], sep, k - 1);
    }
  }

  /** The text around its first separator. */
  lemma AroundFirst(s: string, sep: string, i: nat)
    requires FindFirst(s, sep) == Some(i)
    ensures s == s[..i] + sep + s[i + |sep|..]
  {
    assert OccursAt(s, sep, i);
    assert s == s[..i] + s[i..i + |sep|] + s[i + |sep|..];
  }

  /** A prefix of the suffix from `a` occurs at `a`. */
  lemma PrefixOfSuffixOccurs(s: string, a: nat, p: string)
    requires a <= |s| && |p| <= |s| - a && p == s[a..][..|p|]
    ensures OccursAt(s, p, a)
  {
    assert s[a..][..|p|] == s[a..a + |p|];
  }

  /** Splitting and re-joining with the same separator gives back the text. */
  lemma {:induction false} JoinSplit(s: string, sep: string)
    requires sep != []
    ensures Join(Split(s, sep), sep) == s
    decreases |s|
  {
    var f := FindFirst(s, sep);
    if f.Some? {
      var i := f.value;
      var rest := s[i + |sep|..];
      SplitStep(s, sep, i);
      AroundFirst(s, sep, i);
      JoinSplit(rest, sep);
      JoinCons(s[..i], Split(rest, sep), sep);
    }
  }

  /** Joining pieces free of a one-character separator and splitting again
      gives back the pieces. */
  lemma {:induction false} SplitJoin(parts: seq<string>, sep: string)
    requires |sep| == 1 && |parts| >= 1
    requires forall k :: 0 <= k < |parts| ==> !Contains(parts[k], sep)
    ensures Split(Join(parts, sep), sep) == parts
    decreases |parts|
  {
    if |parts| > 1 {
      var p := parts[0];
      var tail := Join(parts[1..], sep);
      var s := p + sep + tail;
      assert Join(parts, sep) == s;
      assert OccursAt(s, sep, |p|) by { assert s[|p|..|p| + 1] == sep; }
      ContainsAt(s, sep, |p|);
      var i := FindFirst(s, sep).value;
      if i < |p| {
        assert s[i..i + 1] == p[i..i + 1];
        ContainsAt(p, sep, i);
        assert false;
      }
      assert s[..i] == p;
      assert s[i + |sep|..] == tail;
      SplitJoin(parts[1..], sep);
      assert Split(s, sep) == [p] + Split(tail, sep);
    }
  }

  /** The whitespace `str.strip()` removes, restricted to ASCII: tab, line
      feed, vertical tab, form feed, carriage return, the four separators
      0x1C-0x1F and space. */
  predicate IsSpace(c: char) {
    (9 <= c as int <= 13) || (28 <= c as int <= 32)
  }

  function SkipSpaces(s: string, i: nat): (j: nat)
    requires i <= |s|
    ensures i <= j <= |s|
    ensures forall k :: i <= k < j ==> IsSpace(s[k])
    ensures j < |s| ==> !IsSpace(s[j])
    decreases |s| - i
  {
    if i < |s| && IsSpace(s[i]) then SkipSpaces(s, i + 1) else i
  }

  function SkipSpacesBack(s: string, lo: nat, j: nat): (k: nat)
    requires lo <= j <= |s|
    ensures lo <= k <= j
    ensures forall m :: k <= m < j ==> IsSpace(s[m])
    ensures lo < k ==> !IsSpace(s[k - 1])
    decreases j
  {
    if lo < j && IsSpace(s[j - 1]) then SkipSpacesBack(s, lo, j - 1) else j
  }

  /** The bounds of `s.strip()`: everything before and after them is
      whitespace, and the kept text neither starts nor ends with it. */
  function StripBounds(s: string): (b: (nat, nat))
    ensures b.0 <= b.1 <= |s|
    ensures forall k :: 0 <= k < b.0 ==> IsSpace(s[k])
    ensures forall k :: b.1 <= k < |s| ==> IsSpace(s[k])
    ensures b.0 < b.1 ==> !IsSpace(s[b.0]) && !IsSpace(s[b.1 - 1])
  {
    var i := SkipSpaces(s, 0);
    (i, SkipSpacesBack(s, i, |s|))
  }

  /** Python's `s.strip()` (ASCII whitespace only). */
  function Strip(s: string): (r: string)
    ensures r == [] || (!IsSpace(r[0]) && !IsSpace(r[|r| - 1]))
  {
    s[StripBounds(s).0..StripBounds(s).1]
  }

  /** The stripped text occurs in the original and is no longer. */
  lemma StripIsInfix(s: string)
    ensures |Strip(s)| <= |s|
    ensures OccursAt(s, Strip(s), StripBounds(s).0)
    ensures Contains(s, Strip(s))
  {
    ContainsAt(s, Strip(s), StripBounds(s).0);
  }

  /** A text that neither starts nor ends with whitespace strips to itself. */
  lemma StripKeeps(s: string)
    requires s != [] && !IsSpace(s[0]) && !IsSpace(s[|s| - 1])
    ensures Strip(s) == s
  {
    assert StripBounds(s) == (0, |s|);
  }

  /** Stripping twice is stripping once. */
  lemma StripIdempotent(s: string)
    ensures Strip(Strip(s)) == Strip(s)
  {
    var r := Strip(s);
    var b := StripBounds(r);
    if r != [] {
      assert b.0 == 0;
      assert b.1 == |r|;
    }
  }

  /** A string without `pat` has no slice containing `pat`. */
  lemma SliceLacks(s: string, a: nat, b: nat, pat: string)
    requires a <= b <= |s| && !Contains(s, pat)
    ensures !Contains(s[a..b], pat)
  {
    if Contains(s[a..b], pat) {
      ContainsFromSlice(s, a, b, pat);
    }
  }
}
