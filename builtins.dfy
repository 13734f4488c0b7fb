/** The Python built-ins the core relies on, written out on `seq<char>`:
    `str.join`, concatenation of a list of strings, `str.strip`, `str.lower`,
    `sub in s`, `str.split`, `str(n)` for a natural number, list subscripts
    with negative indexes, and POSIX `os.path.splitext`. A prefix test
    (`str.startswith`) is Dafny's `<=` on sequences. */
module Builtins {
  import opened Wrappers

  // ---------------------------------------------------------------------
  // sep.join(xs) and the concatenation of a list of lists
  // ---------------------------------------------------------------------

  /** `sep.join(xs)`, defined from the right so that it unfolds the way a
      loop that appends one element at a time builds it. */
  function Join(xs: seq<string>, sep: string): string
    decreases |xs|
  {
    if |xs| == 0 then ""
    else if |xs| == 1 then xs[0]
    else Join(xs[..|xs| - 1], sep) + sep + xs[|xs| - 1]
  }

  lemma JoinSnoc(xs: seq<string>, x: string, sep: string)
    requires xs != []
    ensures Join(xs + [x], sep) == Join(xs, sep) + sep + x
  {
    assert (xs + [x])[..|xs|] == xs;
  }

  lemma {:induction false} JoinAppend(a: seq<string>, b: seq<string>, sep: string)
    requires a != [] && b != []
    ensures Join(a + b, sep) == Join(a, sep) + sep + Join(b, sep)
    decreases |b|
  {
    if |b| == 1 {
      JoinSnoc(a, b[0], sep);
      assert a + b == a + [b[0]];
    } else {
      var front, last := b[..|b| - 1], b[|b| - 1];
      assert b == front + [last];
      assert a + b == (a + front) + [last];
      JoinAppend(a, front, sep);
      JoinSnoc(a + front, last, sep);
      JoinSnoc(front, last, sep);
    }
  }

  /** The first element of a non-empty list starts the joined string. */
  lemma {:induction false} JoinStartsWithFirst(xs: seq<string>, sep: string)
    requires xs != []
    ensures xs[0] <= Join(xs, sep)
    decreases |xs|
  {
    if |xs| > 1 {
      JoinStartsWithFirst(xs[..|xs| - 1], sep);
    }
  }

  /** Every element is at most as long as the joined string. */
  lemma {:induction false} JoinLengthAtLeast(xs: seq<string>, sep: string, j: nat)
    requires j < |xs|
    ensures |Join(xs, sep)| >= |xs[j]|
    decreases |xs|
  {
    if |xs| > 1 && j < |xs| - 1 {
      JoinLengthAtLeast(xs[..|xs| - 1], sep, j);
    }
  }

  /** With two or more non-empty elements, the joined string is longer than
      any element by at least one separator and one more character. */
  lemma JoinLengthOfSeveral(xs: seq<string>, sep: string, j: nat)
    requires j < |xs| && |xs| >= 2
    requires forall k :: 0 <= k < |xs| ==> xs[k] != ""
    ensures |Join(xs, sep)| >= |xs[j]| + |sep| + 1
  {
    var front := xs[..|xs| - 1];
    if j == |xs| - 1 {
      JoinLengthAtLeast(front, sep, 0);
      assert front[0] == xs[0];
    } else {
      JoinLengthAtLeast(front, sep, j);
      assert front[j] == xs[j];
    }
  }

  /** Concatenation of a list of lists, `"".join(xs)` when the lists are
      strings; defined from the right like `Join`. */
  function Flatten<T>(xss: seq<seq<T>>): seq<T>
    decreases |xss|
  {
    if |xss| == 0 then [] else Flatten(xss[..|xss| - 1]) + xss[|xss| - 1]
  }

  lemma FlattenSnoc<T>(xss: seq<seq<T>>, xs: seq<T>)
    ensures Flatten(xss + [xs]) == Flatten(xss) + xs
  {
    assert (xss + [xs])[..|xss|] == xss;
  }

  lemma {:induction false} FlattenAppend<T>(a: seq<seq<T>>, b: seq<seq<T>>)
    ensures Flatten(a + b) == Flatten(a) + Flatten(b)
    decreases |b|
  {
    if b == [] {
      assert a + b == a;
    } else {
      var front := b[..|b| - 1];
      assert a + b == (a + front) + [b[|b| - 1]];
      FlattenSnoc(a + front, b[|b| - 1]);
      FlattenAppend(a, front);
    }
  }

  // ---------------------------------------------------------------------
  // str.isspace and str.strip
  // ---------------------------------------------------------------------

  /** The characters for which Python's `str.isspace` holds. */
  predicate IsSpace(c: char)
  {
    ('\t' <= c <= '\r') || ('\U{1C}' <= c <= ' ') || c == '\U{85}' || c == '\U{A0}' ||
    c == '\U{1680}' || ('\U{2000}' <= c <= '\U{200A}') || c == '\U{2028}' ||
    c == '\U{2029}' || c == '\U{202F}' || c == '\U{205F}' || c == '\U{3000}'
  }

  /** The length of the longest all-whitespace prefix. */
  function LeadingSpace(s: string): (n: nat)
    ensures n <= |s|
    ensures forall k :: 0 <= k < n ==> IsSpace(s[k])
    ensures n < |s| ==> !IsSpace(s[n])
    decreases |s|
  {
    if |s| == 0 || !IsSpace(s[0]) then 0 else 1 + LeadingSpace(s[1..])
  }

  /** The length of the longest all-whitespace suffix. */
  function TrailingSpace(s: string): (n: nat)
    ensures n <= |s|
    ensures forall k :: |s| - n <= k < |s| ==> IsSpace(s[k])
    ensures n < |s| ==> !IsSpace(s[|s| - 1 - n])
    decreases |s|
  {
    if |s| == 0 || !IsSpace(s[|s| - 1]) then 0 else 1 + TrailingSpace(s[..|s| - 1])
  }

  /** `s.strip()`: `s` without its leading and trailing whitespace. */
  function Strip(s: string): string
  {
    var t := s[LeadingSpace(s)..];
    t[..|t| - TrailingSpace(t)]
  }

  /** What `strip` computes: a slice of `s` that neither starts nor ends
      with whitespace, and everything cut away on either side is
      whitespace. */
  lemma StripCharacterised(s: string)
    ensures Strip(s) == "" || (!IsSpace(Strip(s)[0]) && !IsSpace(Strip(s)[|Strip(s)| - 1]))
    ensures StrippedAt(s, Strip(s), LeadingSpace(s))
  {
  }

  ghost predicate StrippedAt(s: string, r: string, i: int)
  {
    0 <= i && i + |r| <= |s| && s[i..i + |r|] == r &&
    (forall k :: 0 <= k < i ==> IsSpace(s[k])) &&
    (forall k :: i + |r| <= k < |s| ==> IsSpace(s[k]))
  }

  /** A string that neither starts nor ends with whitespace is its own
      strip, also once a single space is put in front of it. */
  lemma StripClean(s: string)
    requires s != "" && !IsSpace(s[0]) && !IsSpace(s[|s| - 1])
    ensures Strip(s) == s
    ensures Strip(" " + s) == s
  {
    assert (" " + s)[1..] == s;
    assert LeadingSpace(" " + s) == 1;
  }

  // ---------------------------------------------------------------------
  // str.lower, `sub in s`, str.split
  // ---------------------------------------------------------------------

  function LowerChar(c: char): char
  {
    if 'A' <= c <= 'Z' then (c as int + 32) as char else c
  }

  /** `s.lower()` on the letters A to Z; every other character is unchanged. */
  function Lower(s: string): (r: string)
    ensures |r| == |s|
  {
    seq(|s|, i requires 0 <= i < |s| => LowerChar(s[i]))
  }

  ghost predicate OccursAt(s: string, sub: string, i: int)
  {
    0 <= i && i + |sub| <= |s| && s[i..i + |sub|] == sub
  }

  /** `sub in s`: some slice of `s` equals `sub`. */
  function Contains(s: string, sub: string): (b: bool)
    ensures b <==> exists i :: OccursAt(s, sub, i)
    decreases |s|
  {
    if sub <= s then
      assert OccursAt(s, sub, 0);
      true
    else if |s| == 0 then false
    else
      OccursShift(s, sub);
      Contains(s[1..], sub)
  }

  lemma OccursShift(s: string, sub: string)
    requires |s| > 0 && !(sub <= s)
    ensures (exists i :: OccursAt(s, sub, i)) <==> (exists i :: OccursAt(s[1..], sub, i))
  {
    if i :| OccursAt(s[1..], sub, i) {
      assert OccursAt(s, sub, i + 1);
    }
    if i :| OccursAt(s, sub, i) {
      assert i != 0;
      assert OccursAt(s[1..], sub, i - 1);
    }
  }

  /** Two characters are one letter of A to Z written in either case,
      or the same character. */
  predicate SameUpToCase(c: char, d: char)
  {
    c == d || ('A' <= c <= 'Z' && d as int == c as int + 32)
    || ('A' <= d <= 'Z' && c as int == d as int + 32)
  }

  /** `a.lower() == b.lower()` exactly when `a` and `b` have the same
      length and differ only in the case of letters A to Z. */
  lemma {:induction false} LowerEqual(a: string, b: string)
    ensures Lower(a) == Lower(b) <==>
      |a| == |b| && forall k :: 0 <= k < |a| ==> SameUpToCase(a[k], b[k])
  {
    if Lower(a) == Lower(b) {
      forall k | 0 <= k < |a|
        ensures SameUpToCase(a[k], b[k])
      {
        assert Lower(a)[k] == Lower(b)[k];
      }
    }
    if |a| == |b| && forall k :: 0 <= k < |a| ==> SameUpToCase(a[k], b[k]) {
      forall k | 0 <= k < |a|
        ensures Lower(a)[k] == Lower(b)[k]
      {
        assert SameUpToCase(a[k], b[k]);
      }
    }
  }

  /** Lowercasing commutes with slicing. */
  lemma LowerSlice(s: string, i: int, j: int)
    requires 0 <= i <= j <= |s|
    ensures Lower(s[i..j]) == Lower(s)[i..j]
  {
  }

  /** The slice of `s` at `i`, lowercased, is `sub`. */
  ghost predicate OccursLowered(s: string, sub: string, i: int)
  {
    0 <= i && i + |sub| <= |s| && Lower(s[i..i + |sub|]) == sub
  }

  /** `sub in s.lower()` holds exactly when some slice of the raw `s`
      lowercases to `sub`. */
  lemma {:induction false} ContainsLowered(s: string, sub: string)
    ensures Contains(Lower(s), sub) <==> exists i :: OccursLowered(s, sub, i)
  {
    if i :| OccursAt(Lower(s), sub, i) {
      LowerSlice(s, i, i + |sub|);
      assert OccursLowered(s, sub, i);
    }
    if i :| OccursLowered(s, sub, i) {
      LowerSlice(s, i, i + |sub|);
      assert OccursAt(Lower(s), sub, i);
    }
  }

  /** The index of the last `c` in `s`, or -1 (`s.rfind(c)`). */
  function LastIndexOf(s: string, c: char): (i: int)
    ensures -1 <= i < |s|
    ensures i >= 0 ==> s[i] == c
    ensures forall k :: i < k < |s| ==> s[k] != c
    decreases |s|
  {
    if |s| == 0 then -1
    else if s[|s| - 1] == c then |s| - 1
    else LastIndexOf(s[..|s| - 1], c)
  }

  /** The last `c` of `s` is the one at `i` when none follows it. */
  lemma {:induction false} LastIndexOfAt(s: string, c: char, i: int)
    requires -1 <= i < |s| && (i >= 0 ==> s[i] == c)
    requires forall k :: i < k < |s| ==> s[k] != c
    ensures LastIndexOf(s, c) == i
    decreases |s|
  {
    if |s| > 0 && i < |s| - 1 {
      LastIndexOfAt(s[..|s| - 1], c, i);
    }
  }

  /** The index of the first `c` in `s`, or -1 (`s.find(c)`). */
  function FirstIndexOf(s: string, c: char): (i: int)
    ensures -1 <= i < |s|
    ensures i >= 0 ==> s[i] == c
    ensures forall k :: 0 <= k < |s| && (i < 0 || k < i) ==> s[k] != c
    decreases |s|
  {
    if |s| == 0 then -1
    else if s[0] == c then 0
    else
      var j := FirstIndexOf(s[1..], c);
      if j < 0 then -1 else j + 1
  }

  /** `s.split(c)` for a one-character separator. */
  function Split(s: string, c: char): (parts: seq<string>)
    ensures |parts| >= 1
    decreases |s|
  {
    var i := LastIndexOf(s, c);
    if i < 0 then [s] else Split(s[..i], c) + [s[i + 1..]]
  }

  /** Splitting at a separator that none of the parts contains undoes the
      join. */
  lemma {:induction false} SplitJoin(xs: seq<string>, c: char)
    requires xs != []
    requires forall k :: 0 <= k < |xs| ==> c !in xs[k]
    ensures Split(Join(xs, [c]), c) == xs
    decreases |xs|
  {
    if |xs| == 1 {
      assert LastIndexOf(xs[0], c) == -1;
    } else {
      var front, last := xs[..|xs| - 1], xs[|xs| - 1];
      var s := Join(xs, [c]);
      var head := Join(front, [c]);
      assert s == head + [c] + last;
      assert s[|head|] == c;
      assert LastIndexOf(s, c) == |head|;
      assert s[..|head|] == head;
      assert s[|head| + 1..] == last;
      SplitJoin(front, c);
      assert xs == front + [last];
    }
  }

  // ---------------------------------------------------------------------
  // list subscripts, str(n)
  // ---------------------------------------------------------------------

  /** `xs[i]` on a Python list: a negative index counts from the end, and
      an index outside `-len(xs) .. len(xs) - 1` raises IndexError. */
  function PyIndex<T>(xs: seq<T>, i: int): (r: Result<T>)
    ensures r.Ok? <==> -|xs| <= i < |xs|
    ensures 0 <= i < |xs| ==> r == Ok(xs[i])
    ensures -|xs| <= i < 0 ==> r == Ok(xs[|xs| + i])
  {
    if 0 <= i < |xs| then Ok(xs[i])
    else if -|xs| <= i < 0 then Ok(xs[|xs| + i])
    else Err("list index out of range")
  }

  /** No element occurs twice. */
  predicate NoDuplicates<T(==)>(xs: seq<T>)
  {
    forall i, j :: 0 <= i < j < |xs| ==> xs[i] != xs[j]
  }

  /** Every index is valid for `xs` under Python's indexing. */
  predicate InRange<T>(xs: seq<T>, indices: seq<int>)
  {
    forall k :: 0 <= k < |indices| ==> -|xs| <= indices[k] < |xs|
  }

  /** `[xs[i] for i in indices]`. */
  function Retrieved<T>(xs: seq<T>, indices: seq<int>): (r: seq<T>)
    requires InRange(xs, indices)
    ensures |r| == |indices|
    ensures forall k :: 0 <= k < |indices| ==> PyIndex(xs, indices[k]) == Ok(r[k])
  {
    seq(|indices|, k requires 0 <= k < |indices| =>
      if indices[k] >= 0 then xs[indices[k]] else xs[|xs| + indices[k]])
  }

  function DigitChar(d: nat): (c: char)
    requires d < 10
    ensures '0' <= c <= '9'
  {
    (48 + d) as char
  }

  /** `str(n)`: the decimal digits of `n`, without leading zeros. */
  function Decimal(n: nat): (s: string)
    ensures |s| >= 1
    ensures forall k :: 0 <= k < |s| ==> '0' <= s[k] <= '9'
    ensures |s| > 1 ==> s[0] != '0'
    decreases n
  {
    if n < 10 then [DigitChar(n)] else Decimal(n / 10) + [DigitChar(n % 10)]
  }

  /** The number a string of decimal digits denotes (`int(s)`). */
  function DigitsValue(s: string): nat
    requires forall k :: 0 <= k < |s| ==> '0' <= s[k] <= '9'
    decreases |s|
  {
    if |s| == 0 then 0
    else DigitsValue(s[..|s| - 1]) * 10 + (s[|s| - 1] as int - 48)
  }

  /** `int(str(n)) == n`. */
  lemma {:induction false} DecimalRoundTrip(n: nat)
    ensures DigitsValue(Decimal(n)) == n
    decreases n
  {
    if n >= 10 {
      DecimalRoundTrip(n / 10);
      var s := Decimal(n);
      assert s[..|s| - 1] == Decimal(n / 10);
    }
  }

  // ---------------------------------------------------------------------
  // os.path.splitext (POSIX)
  // ---------------------------------------------------------------------

  /** Every character of `s` at an index in `lo .. hi - 1` is a '.'. */
  predicate DotsBetween(s: string, lo: int, hi: int)
    requires 0 <= lo <= hi <= |s|
  {
    forall k :: lo <= k < hi ==> s[k] == '.'
  }

  /** The final path component: everything after the last '/'. */
  function Basename(p: string): string
  {
    p[LastIndexOf(p, '/') + 1..]
  }

  /** `os.path.splitext(p)`: the extension starts at the last '.' of the
      final path component, provided some character before it in that
      component is not a '.'; otherwise the extension is empty. */
  function SplitExt(p: string): (string, string)
  {
    var sepIndex := LastIndexOf(p, '/');
    var dotIndex := LastIndexOf(p, '.');
    if dotIndex > sepIndex && !DotsBetween(p, sepIndex + 1, dotIndex) then
      (p[..dotIndex], p[dotIndex..])
    else
      (p, "")
  }

  /** A '.' of the final component that has a non-dot character before it:
      such a dot can start an extension. */
  ghost predicate ExtensionDot(b: string, k: int)
  {
    0 <= k < |b| && b[k] == '.' && !DotsBetween(b, 0, k)
  }

  /** What `splitext` computes, stated without its search: root and
      extension put back together give the path; the extension is
      non-empty exactly when the final component has a dot with a non-dot
      before it; and then the extension is a '.' followed by neither '.'
      nor '/'. */
  lemma SplitExtCharacterised(p: string)
    ensures SplitExt(p).0 + SplitExt(p).1 == p
    ensures SplitExt(p).1 != "" <==> exists k :: ExtensionDot(Basename(p), k)
    ensures SplitExt(p).1 != "" ==>
      SplitExt(p).1[0] == '.' &&
      forall k :: 0 < k < |SplitExt(p).1| ==> SplitExt(p).1[k] != '.' && SplitExt(p).1[k] != '/'
  {
    if SplitExt(p).1 != "" {
      SplitGivesExtensionDot(p);
      ExtensionHasNoSeparator(p);
    }
    if k :| ExtensionDot(Basename(p), k) {
      ExtensionDotGivesSplit(p, k);
    }
  }

  lemma SplitGivesExtensionDot(p: string)
    requires SplitExt(p).1 != ""
    ensures ExtensionDot(Basename(p), LastIndexOf(p, '.') - LastIndexOf(p, '/') - 1)
  {
    DotStartsExtension(p, LastIndexOf(p, '/'), LastIndexOf(p, '.'));
  }

  lemma DotStartsExtension(p: string, s: int, d: int)
    requires -1 <= s < d < |p| && p[d] == '.'
    requires !DotsBetween(p, s + 1, d)
    ensures ExtensionDot(p[s + 1..], d - s - 1)
  {
    var b := p[s + 1..];
    var m :| s + 1 <= m < d && p[m] != '.';
    assert b[m - s - 1] == p[m];
  }

  lemma ExtensionHasNoSeparator(p: string)
    requires SplitExt(p).1 != ""
    ensures SplitExt(p).1[0] == '.'
    ensures forall k :: 0 < k < |SplitExt(p).1| ==> SplitExt(p).1[k] != '.' && SplitExt(p).1[k] != '/'
  {
    var d := LastIndexOf(p, '.');
    var ext := SplitExt(p).1;
    assert ext == p[d..];
    forall k | 0 < k < |ext| ensures ext[k] != '.' && ext[k] != '/' {
      assert ext[k] == p[d + k];
    }
  }

  lemma ExtensionDotGivesSplit(p: string, k: int)
    requires ExtensionDot(Basename(p), k)
    ensures SplitExt(p).1 != ""
  {
    ExtensionDotBeforeLastDot(p, LastIndexOf(p, '/'), LastIndexOf(p, '.'), k);
  }

  lemma ExtensionDotBeforeLastDot(p: string, s: int, d: int, k: int)
    requires -1 <= s < |p| && -1 <= d < |p|
    requires forall j :: d < j < |p| ==> p[j] != '.'
    requires ExtensionDot(p[s + 1..], k)
    ensures d > s && !DotsBetween(p, s + 1, d)
  {
    var b := p[s + 1..];
    assert b[k] == p[s + 1 + k];
    var m :| 0 <= m < k && b[m] != '.';
    assert b[m] == p[s + 1 + m];
  }
}
