/**
 * The fragment of Python's `str` behaviour that the spiders rely on:
 * substring search (`in`, `find`), `split`, `join`, `replace`, `strip`,
 * `lower`, and decimal rendering of integers as done by f-strings.
 */
module Strings {
  import opened Wrappers

  /** `pat` occurs in `s` starting at index `i`. */
  predicate OccursAt(s: string, pat: string, i: nat) {
    i + |pat| <= |s| && s[i..i + |pat|] == pat
  }

  /** The first index at or after `from` where `pat` occurs. */
  function FindFrom(s: string, pat: string, from: nat): (r: Option<nat>)
    requires |pat| > 0
    ensures r.Some? ==> from <= r.value && OccursAt(s, pat, r.value)
    ensures r.Some? ==> forall j: nat :: from <= j < r.value ==> !OccursAt(s, pat, j)
    ensures r.None? ==> forall j: nat :: from <= j ==> !OccursAt(s, pat, j)
    decreases |s| - from
  {
    if from + |pat| > |s| then None
    else if OccursAt(s, pat, from) then Some(from)
    else FindFrom(s, pat, from + 1)
  }

  /** Python's `s.find(pat)` for a non-empty pattern: the first index where `pat` occurs. */
  function FindFirst(s: string, pat: string): (r: Option<nat>)
    requires |pat| > 0
    ensures r.Some? ==> OccursAt(s, pat, r.value)
    ensures r.Some? ==> forall j: nat :: j < r.value ==> !OccursAt(s, pat, j)
    ensures r.None? ==> forall j: nat :: !OccursAt(s, pat, j)
  {
    FindFrom(s, pat, 0)
  }

  /** Python's `pat in s` for a non-empty pattern. */
  predicate Contains(s: string, pat: string)
    requires |pat| > 0
  {
    FindFirst(s, pat).Some?
  }

  /** The first occurrence is the only candidate: it pins down `FindFirst`. */
  lemma FindFirstIs(s: string, pat: string, i: nat)
    requires |pat| > 0
    requires OccursAt(s, pat, i)
    requires forall j: nat :: j < i ==> !OccursAt(s, pat, j)
    ensures FindFirst(s, pat) == Some(i)
  {
  }

  /** Python's `s.split(sep)` for a non-empty separator. */
  function Split(s: string, sep: string): (r: seq<string>)
    requires |sep| > 0
    ensures |r| >= 1
    decreases |s|
  {
    match FindFirst(s, sep)
    case None => [s]
    case Some(i) => [s[..i]] + Split(s[i + |sep|..], sep)
  }

  /** Python's `sep.join(xs)`. */
  function Join(xs: seq<string>, sep: string): string
  {
    if |xs| == 0 then ""
    else if |xs| == 1 then xs[0]
    else xs[0] + sep + Join(xs[1..], sep)
  }

  /** Python's `s.replace(target, repl)` for a non-empty `target`: leftmost, non-overlapping. */
  function Replace(s: string, target: string, repl: string): string
    requires |target| > 0
    decreases |s|
  {
    match FindFirst(s, target)
    case None => s
    case Some(i) => s[..i] + repl + Replace(s[i + |target|..], target, repl)
  }

  /** `r.join(s.split(sep))` is the same string as `s.replace(sep, r)`. */
  lemma {:induction false} JoinSplitIsReplace(s: string, sep: string, r: string)
    requires |sep| > 0
    ensures Join(Split(s, sep), r) == Replace(s, sep, r)
    decreases |s|
  {
    match FindFirst(s, sep)
    case None =>
    case Some(i) =>
      var rest := s[i + |sep|..];
      JoinSplitIsReplace(rest, sep, r);
      assert Split(s, sep) == [s[..i]] + Split(rest, sep);
      assert ([s[..i]] + Split(rest, sep))[1..] == Split(rest, sep);
  }

  /** Replacing a pattern by itself changes nothing. */
  lemma {:induction false} ReplaceBySelf(s: string, sep: string)
    requires |sep| > 0
    ensures Replace(s, sep, sep) == s
    decreases |s|
  {
    match FindFirst(s, sep)
    case None =>
    case Some(i) =>
      ReplaceBySelf(s[i + |sep|..], sep);
      assert s[..i] + sep + s[i + |sep|..] == s by {
        assert s[i..i + |sep|] == sep;
        assert s == s[..i] + s[i..i + |sep|] + s[i + |sep|..];
      }
  }

  /** Joining the pieces of a split with the same separator gives the string back. */
  lemma JoinSplit(s: string, sep: string)
    requires |sep| > 0
    ensures Join(Split(s, sep), sep) == s
  {
    JoinSplitIsReplace(s, sep, sep);
    ReplaceBySelf(s, sep);
  }

  /** The separator the photo list of a colour is stored with. */
  const ListSeparator: string := ", "

  /**
   * Splitting a ", "-joined, non-empty list gives the list back, provided
   * no element contains ", " itself.
   */
  lemma {:induction false} SplitJoin(xs: seq<string>)
    requires |xs| >= 1
    requires forall k :: 0 <= k < |xs| ==> !Contains(xs[k], ListSeparator)
    ensures Split(Join(xs, ListSeparator), ListSeparator) == xs
  {
    var sep := ListSeparator;
    if |xs| == 1 {
      assert Join(xs, sep) == xs[0];
    } else {
      var x0 := xs[0];
      var tail := Join(xs[1..], sep);
      var s := x0 + sep + tail;
      assert Join(xs, sep) == s;
      assert OccursAt(s, sep, |x0|) by {
        assert s[|x0|..|x0| + 2] == sep;
      }
      forall j: nat | j < |x0| ensures !OccursAt(s, sep, j) {
        NoSeparatorInFirst(x0, tail, j);
      }
      FindFirstIs(s, sep, |x0|);
      assert s[..|x0|] == x0;
      assert s[|x0| + 2..] == tail;
      SplitJoin(xs[1..]);
    }
  }

  /** The separator cannot start inside a first element that does not contain it. */
  lemma NoSeparatorInFirst(x0: string, tail: string, j: nat)
    requires !Contains(x0, ListSeparator) && j < |x0|
    ensures !OccursAt(x0 + ListSeparator + tail, ListSeparator, j)
  {
    var s := x0 + ListSeparator + tail;
    if j + 2 <= |x0| {
      assert x0[j..j + 2] == s[j..j + 2];
      assert !OccursAt(x0, ListSeparator, j);
    } else {
      assert s[j + 1] == ',';
    }
  }

  /** Python's `"".split(", ")` is `[""]`, not the empty list. */
  lemma SplitEmpty(sep: string)
    requires |sep| > 0
    ensures Split("", sep) == [""]
  {
  }

  /** `s` holds no occurrence of the character `c`. */
  predicate Lacks(s: string, c: char) {
    forall i :: 0 <= i < |s| ==> s[i] != c
  }

  /** A string that does not contain the one-character pattern `[c]` lacks `c`. */
  lemma NotContainsLacks(s: string, c: char)
    requires !Contains(s, [c])
    ensures Lacks(s, c)
  {
    forall i | 0 <= i < |s| ensures s[i] != c {
      assert !OccursAt(s, [c], i);
      assert s[i..i + 1] == [s[i]];
    }
  }

  /** A string lacking the first character of a pattern does not contain it. */
  lemma LacksNotContains(s: string, pat: string)
    requires |pat| > 0 && Lacks(s, pat[0])
    ensures !Contains(s, pat)
  {
  }

  /** Replacing a single character by a string without it leaves none of it behind. */
  lemma {:induction false} ReplaceRemovesChar(s: string, c: char, repl: string)
    requires Lacks(repl, c)
    ensures Lacks(Replace(s, [c], repl), c)
    decreases |s|
  {
    match FindFirst(s, [c])
    case None =>
      forall i | 0 <= i < |s| ensures s[i] != c {
        assert !OccursAt(s, [c], i);
        assert s[i..i + 1] == [s[i]];
      }
    case Some(i) =>
      ReplaceRemovesChar(s[i + 1..], c, repl);
      forall j | 0 <= j < i ensures s[j] != c {
        assert !OccursAt(s, [c], j);
        assert s[j..j + 1] == [s[j]];
      }
  }

  /** `r` is `s` with every `a` turned into `b` and every other character kept. */
  predicate CharRewritten(s: string, a: char, b: char, r: string) {
    |r| == |s| && forall i :: 0 <= i < |s| ==> r[i] == if s[i] == a then b else s[i]
  }

  /**
   * Replacing one character by another rewrites the string position by
   * position: each `a` becomes `b` and every other character stays.
   */
  lemma {:induction false} ReplaceCharAt(s: string, a: char, b: char)
    ensures CharRewritten(s, a, b, Replace(s, [a], [b]))
    decreases |s|
  {
    match FindFirst(s, [a])
    case None =>
      forall i | 0 <= i < |s| ensures s[i] != a {
        assert !OccursAt(s, [a], i);
        assert s[i..i + 1] == [s[i]];
      }
    case Some(i) =>
      var rest := s[i + 1..];
      ReplaceCharAt(rest, a, b);
      var r := Replace(s, [a], [b]);
      assert r == s[..i] + [b] + Replace(rest, [a], [b]);
      assert s[i..i + 1] == [a];
      forall j | 0 <= j < |s| ensures r[j] == if s[j] == a then b else s[j] {
        if j < i {
          assert !OccursAt(s, [a], j);
          assert s[j..j + 1] == [s[j]];
        } else if j > i {
          assert rest[j - i - 1] == s[j];
        }
      }
  }

  /** Replacing never introduces a character that neither `s` nor `repl` had. */
  lemma {:induction false} ReplaceKeepsLack(s: string, target: string, repl: string, c: char)
    requires |target| > 0
    requires Lacks(s, c) && Lacks(repl, c)
    ensures Lacks(Replace(s, target, repl), c)
    decreases |s|
  {
    match FindFirst(s, target)
    case None =>
    case Some(i) =>
      ReplaceKeepsLack(s[i + |target|..], target, repl, c);
  }

  /** The pieces of a split are made of characters of the string. */
  lemma {:induction false} SplitPiecesLack(s: string, sep: string, c: char)
    requires |sep| > 0
    requires Lacks(s, c)
    ensures forall k :: 0 <= k < |Split(s, sep)| ==> Lacks(Split(s, sep)[k], c)
    decreases |s|
  {
    match FindFirst(s, sep)
    case None =>
    case Some(i) =>
      SplitPiecesLack(s[i + |sep|..], sep, c);
  }

  /** A join lacks `c` when its pieces and its separator do. */
  lemma {:induction false} JoinLacks(xs: seq<string>, sep: string, c: char)
    requires forall k :: 0 <= k < |xs| ==> Lacks(xs[k], c)
    requires Lacks(sep, c)
    ensures Lacks(Join(xs, sep), c)
  {
    if |xs| > 1 {
      JoinLacks(xs[1..], sep, c);
    }
  }

  /** Python's `str.isspace()`: the characters `strip()` removes. */
  predicate IsSpace(c: char) {
    var k := c as int;
    || (9 <= k <= 13) || (0x1c <= k <= 0x20) || k == 0x85 || k == 0xa0 || k == 0x1680
    || (0x2000 <= k <= 0x200a) || k == 0x2028 || k == 0x2029 || k == 0x202f
    || k == 0x205f || k == 0x3000
  }

  /** Python's `s.lstrip()`. */
  function TrimStart(s: string): (r: string)
    ensures |r| <= |s| && r == s[|s| - |r|..]
    ensures r == [] || !IsSpace(r[0])
  {
    if |s| > 0 && IsSpace(s[0]) then TrimStart(s[1..]) else s
  }

  /** Python's `s.rstrip()`. */
  function TrimEnd(s: string): (r: string)
    ensures |r| <= |s| && r == s[..|r|]
    ensures r == [] || !IsSpace(r[|r| - 1])
  {
    if |s| > 0 && IsSpace(s[|s| - 1]) then TrimEnd(s[..|s| - 1]) else s
  }

  /** Python's `s.strip()`: a slice of `s` with no surrounding whitespace. */
  function Strip(s: string): (r: string)
    ensures exists i, j :: 0 <= i <= j <= |s| && r == s[i..j]
    ensures r == [] || (!IsSpace(r[0]) && !IsSpace(r[|r| - 1]))
  {
    var t := TrimStart(s);
    var r := TrimEnd(t);
    assert r == s[|s| - |t|..|s| - |t| + |r|];
    r
  }

  /** A slice lacks every character its string lacks. */
  lemma SliceLacks(s: string, i: nat, j: nat, c: char)
    requires i <= j <= |s|
    requires Lacks(s, c)
    ensures Lacks(s[i..j], c)
  {
  }

  /**
   * The lower-case form of one character, as `str.lower()` gives it for
   * ASCII, Latin-1 and Latin Extended-A letters (U+0130 becomes two characters).
   */
  function LowerChar(c: char): string {
    var k := c as int;
    if (0x41 <= k <= 0x5a) || (0xc0 <= k <= 0xde && k != 0xd7) then
      [(k + 32) as char]
    else if k == 0x130 then
      ['i', 0x307 as char]
    else if (0x100 <= k <= 0x137 && k % 2 == 0)
         || (0x139 <= k <= 0x148 && k % 2 == 1)
         || (0x14a <= k <= 0x177 && k % 2 == 0)
         || (0x179 <= k <= 0x17e && k % 2 == 1) then
      [(k + 1) as char]
    else if k == 0x178 then
      [0xff as char]
    else
      [c]
  }

  /** Python's `s.lower()`, character by character. */
  function Lower(s: string): string {
    if s == [] then [] else LowerChar(s[0]) + Lower(s[1..])
  }

  /** Lowering removes every upper-case letter of the Latin alphabet. */
  lemma {:induction false} LowerLacksUpper(s: string, c: char)
    requires 'A' <= c <= 'Z'
    ensures Lacks(Lower(s), c)
  {
    if s != [] {
      LowerLacksUpper(s[1..], c);
      assert Lacks(LowerChar(s[0]), c);
    }
  }

  /** The decimal digit for `d < 10`. */
  function DigitChar(d: nat): char
    requires d < 10
  {
    ('0' as int + d) as char
  }

  /** The value of a decimal digit character (0 for anything else). */
  function DigitValue(c: char): nat {
    if '0' <= c <= '9' then c as int - '0' as int else 0
  }

  predicate IsDigits(s: string) {
    forall i :: 0 <= i < |s| ==> '0' <= s[i] <= '9'
  }

  /** The decimal rendering of a natural number, as `str(n)` gives it. */
  function NatText(n: nat): (r: string)
    ensures |r| >= 1 && IsDigits(r)
  {
    if n < 10 then [DigitChar(n)] else NatText(n / 10) + [DigitChar(n % 10)]
  }

  /** The decimal rendering of an integer, as `str(n)` gives it: a minus sign before a negative one. */
  function IntText(n: int): (r: string)
    ensures |r| >= 1
    ensures n >= 0 ==> IsDigits(r)
    ensures n < 0 ==> r[0] == '-' && |r| >= 2 && IsDigits(r[1..])
  {
    if n < 0 then "-" + NatText(-n) else NatText(n)
  }

  /** `n` zero digits. */
  function Zeros(n: nat): (r: string)
    ensures |r| == n && forall i :: 0 <= i < n ==> r[i] == '0'
  {
    if n == 0 then [] else Zeros(n - 1) + "0"
  }

  /** `n` zero-padded on the left to at least `width` digits (`%0<width>d`). */
  function PadNat(n: nat, width: nat): (r: string)
    ensures IsDigits(r) && |r| >= width
  {
    var t := NatText(n);
    var zeros := if |t| < width then Zeros(width - |t|) else [];
    zeros + t
  }

  /** The value of a string of decimal digits. */
  function ParseNat(s: string): nat {
    if s == [] then 0 else ParseNat(s[..|s| - 1]) * 10 + DigitValue(s[|s| - 1])
  }

  /** Reading back a rendered number gives the number. */
  lemma {:induction false} ParseNatText(n: nat)
    ensures ParseNat(NatText(n)) == n
  {
    if n >= 10 {
      ParseNatText(n / 10);
      var t := NatText(n / 10) + [DigitChar(n % 10)];
      assert t[..|t| - 1] == NatText(n / 10);
    }
  }

  /** Leading zeros do not change the value read. */
  lemma {:induction false} ParseNatLeadingZeros(z: string, s: string)
    requires forall i :: 0 <= i < |z| ==> z[i] == '0'
    ensures ParseNat(z + s) == ParseNat(s)
    decreases |s|
  {
    if s == [] {
      assert z + s == z;
      ZerosParseToZero(z);
    } else {
      assert (z + s)[..|z + s| - 1] == z + s[..|s| - 1];
      ParseNatLeadingZeros(z, s[..|s| - 1]);
    }
  }

  lemma {:induction false} ZerosParseToZero(z: string)
    requires forall i :: 0 <= i < |z| ==> z[i] == '0'
    ensures ParseNat(z) == 0
  {
    if z != [] {
      ZerosParseToZero(z[..|z| - 1]);
    }
  }

  /** Reading back a zero-padded number gives the number. */
  lemma ParsePadNat(n: nat, width: nat)
    ensures ParseNat(PadNat(n, width)) == n
  {
    var t := NatText(n);
    var zeros := if |t| < width then Zeros(width - |t|) else [];
    ParseNatLeadingZeros(zeros, t);
    ParseNatText(n);
  }
}
