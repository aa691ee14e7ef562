/**
  The string operations the batch driver relies on, written out over `seq<char>`:
  substring search (`in`), `str.split` with an explicit separator, `str.join`,
  ASCII lower-casing, and decimal rendering of natural numbers (`f"{n}"`).
 */
module Strings {
  import opened Wrappers

  /** `pat` occurs in `s` starting at index `i`. */
  predicate OccursAt(s: string, pat: string, i: int)
  {
    0 <= i && i + |pat| <= |s| && s[i..i + |pat|] == pat
  }

  /** Python's `pat in s`. */
  predicate Contains(s: string, pat: string)
  {
    exists i :: 0 <= i <= |s| && OccursAt(s, pat, i)
  }

  /** The first occurrence of `pat` in `s` at or after `k`. */
  function FindFrom(s: string, pat: string, k: nat): (r: Option<nat>)
    requires k <= |s|
    ensures r.Some? ==> k <= r.value && OccursAt(s, pat, r.value)
    ensures r.Some? ==> forall j :: k <= j < r.value ==> !OccursAt(s, pat, j)
    ensures r.None? ==> forall j :: k <= j ==> !OccursAt(s, pat, j)
    decreases |s| - k
  {
    if OccursAt(s, pat, k) then Some(k)
    else if k == |s| then None
    else FindFrom(s, pat, k + 1)
  }

  /** The first occurrence of `pat` in `s`, if any. */
  function Find(s: string, pat: string): (r: Option<nat>)
    ensures r.None? <==> !Contains(s, pat)
    ensures r.Some? ==> OccursAt(s, pat, r.value)
    ensures r.Some? ==> forall j :: 0 <= j < r.value ==> !OccursAt(s, pat, j)
  {
    FindFrom(s, pat, 0)
  }

  /**
    Python's `s.split(sep)` for a non-empty separator: cut at every
    occurrence found scanning left to right, occurrences not overlapping.
   */
  function Split(s: string, sep: string): (pieces: seq<string>)
    requires |sep| > 0
    ensures |pieces| >= 1
    decreases |s|
  {
    match Find(s, sep)
    case None => [s]
    case Some(i) => [s[..i]] + Split(s[i + |sep|..], sep)
  }

  /** No piece of a split contains the separator. */
  lemma {:induction false} SplitPiecesFree(s: string, sep: string)
    requires |sep| > 0
    ensures forall i :: 0 <= i < |Split(s, sep)| ==> !Contains(Split(s, sep)[i], sep)
    decreases |s|
  {
    match Find(s, sep)
    case None =>
    case Some(i) =>
      var piece := s[..i];
      forall j | 0 <= j <= |piece|
        ensures !OccursAt(piece, sep, j)
      {
        if j + |sep| <= |piece| {
          assert piece[j..j + |sep|] == s[j..j + |sep|];
          assert !OccursAt(s, sep, j);
        }
      }
      SplitPiecesFree(s[i + |sep|..], sep);
  }

  /** Python's `sep.join(pieces)`. */
  function Join(sep: string, pieces: seq<string>): string
  {
    if |pieces| == 0 then ""
    else if |pieces| == 1 then pieces[0]
    else pieces[0] + sep + Join(sep, pieces[1..])
  }

  /** Joining a piece in front of a non-empty list puts the separator after it. */
  lemma JoinCons(sep: string, a: string, tail: seq<string>)
    requires |tail| >= 1
    ensures Join(sep, [a] + tail) == a + sep + Join(sep, tail)
  {
    assert ([a] + tail)[1..] == tail;
  }

  /** A string with `sep` at `i` is the text before, `sep`, and the text after. */
  lemma Reassemble(s: string, sep: string, i: nat)
    requires OccursAt(s, sep, i)
    ensures s == s[..i] + sep + s[i + |sep|..]
  {
    assert s == s[..i] + s[i..i + |sep|] + s[i + |sep|..];
  }

  /** A split that finds the separator at `i` is the piece before it followed by the split of the rest. */
  lemma SplitStep(s: string, sep: string, i: nat)
    requires |sep| > 0 && Find(s, sep) == Some(i)
    ensures Split(s, sep) == [s[..i]] + Split(s[i + |sep|..], sep)
  {
    var pieces := Split(s, sep);  // one unfolding of the split is all the proof needs
  }

  /** Splitting and joining back with the same separator gives the string back. */
  lemma {:induction false} JoinSplit(s: string, sep: string)
    requires |sep| > 0
    ensures Join(sep, Split(s, sep)) == s
    decreases |s|
  {
    var found := Find(s, sep);
    if found.Some? {
      var i := found.value;
      var rest := s[i + |sep|..];
      SplitStep(s, sep, i);
      JoinSplit(rest, sep);
      JoinCons(sep, s[..i], Split(rest, sep));
      Reassemble(s, sep, i);
    }
  }

  /** Python's `s.replace(pat, rep)`, written as the source writes it: `rep.join(s.split(pat))`. */
  function ReplaceAll(s: string, pat: string, rep: string): string
    requires |pat| > 0
  {
    Join(rep, Split(s, pat))
  }

  /** A string free of the pattern splits into itself alone. */
  lemma SplitWithout(s: string, sep: string)
    requires |sep| > 0 && !Contains(s, sep)
    ensures Split(s, sep) == [s]
  {
  }

  /** Splitting `a + sep + b` cuts first at the `sep` written between them when `a + sep` holds no earlier occurrence. */
  lemma SplitAt(a: string, sep: string, b: string)
    requires |sep| > 0
    requires forall j :: 0 <= j < |a| ==> !OccursAt(a + sep + b, sep, j)
    ensures Split(a + sep + b, sep) == [a] + Split(b, sep)
  {
    var s := a + sep + b;
    assert OccursAt(s, sep, |a|) by {
      assert s[|a|..|a| + |sep|] == sep;
    }
    assert s[..|a|] == a;
    assert s[|a| + |sep|..] == b;
  }

  /** Where a prefix of a pattern does not occur, the whole pattern does not either. */
  lemma NoLongerOccurrence(s: string, pat: string, j: int, n: nat)
    requires n <= |pat| && !OccursAt(s, pat[..n], j)
    ensures !OccursAt(s, pat, j)
  {
    if 0 <= j && j + |pat| <= |s| {
      assert s[j..j + n] == s[j..j + |pat|][..n];
    }
  }

  /** Joining two or more pieces puts the separator right before the last one. */
  lemma {:induction false} JoinLast(sep: string, pieces: seq<string>)
    requires |pieces| >= 2
    ensures Join(sep, pieces) == Join(sep, pieces[..|pieces| - 1]) + sep + pieces[|pieces| - 1]
    decreases |pieces|
  {
    if |pieces| > 2 {
      var init := pieces[..|pieces| - 1];
      JoinLast(sep, pieces[1..]);
      assert pieces[1..][..|pieces| - 2] == init[1..];
      assert init[0] == pieces[0];
    }
  }

  /** The last piece of a split is the suffix after the last separator. */
  lemma SplitLast(s: string, sep: string)
    requires |sep| > 0
    ensures var p := Split(s, sep); var last := p[|p| - 1];
      && |last| <= |s|
      && s[|s| - |last|..] == last
      && (|p| == 1 <==> last == s)
      && (|p| > 1 ==> |last| + |sep| <= |s| && s[|s| - |last| - |sep|..|s| - |last|] == sep)
  {
    var p := Split(s, sep);
    JoinSplit(s, sep);
    if |p| > 1 {
      JoinLast(sep, p);
      var pre := Join(sep, p[..|p| - 1]);
      var last := p[|p| - 1];
      assert s == pre + sep + last;
      assert s[|s| - |last|..] == last;
      assert s[|s| - |last| - |sep|..|s| - |last|] == sep;
    }
  }

  /** ASCII lower-casing of one character. */
  predicate IsUpperAscii(c: char)
  {
    'A' <= c <= 'Z'
  }

  /** ASCII lower-casing of one character: `A`..`Z` move to `a`..`z`, every other character stays. */
  function LowerChar(c: char): (d: char)
    ensures !IsUpperAscii(d)
    ensures IsUpperAscii(c) ==> 'a' <= d <= 'z' && d as int - 'a' as int == c as int - 'A' as int
    ensures !IsUpperAscii(c) ==> d == c
  {
    if IsUpperAscii(c) then (c as int - 'A' as int + 'a' as int) as char else c
  }

  /** Lower-casing applied character by character: same length, no upper-case letter left, nothing else touched. */
  function LowerAscii(s: string): (r: string)
    ensures |r| == |s|
    ensures forall i :: 0 <= i < |s| ==> !IsUpperAscii(r[i])
    ensures forall i :: 0 <= i < |s| ==> IsUpperAscii(s[i]) ==> r[i] as int - 'a' as int == s[i] as int - 'A' as int
    ensures forall i :: 0 <= i < |s| ==> !IsUpperAscii(s[i]) ==> r[i] == s[i]
  {
    seq(|s|, i requires 0 <= i < |s| => LowerChar(s[i]))
  }

  /** Lower-casing twice is lower-casing once, and a string without upper-case letters is its own lower-case form. */
  lemma LowerAsciiIdempotent(s: string)
    ensures LowerAscii(LowerAscii(s)) == LowerAscii(s)
    ensures (forall i :: 0 <= i < |s| ==> !IsUpperAscii(s[i])) ==> LowerAscii(s) == s
  {
  }

  predicate IsDigit(c: char)
  {
    '0' <= c <= '9'
  }

  predicate AllDigits(s: string)
  {
    forall i :: 0 <= i < |s| ==> IsDigit(s[i])
  }

  function DigitChar(d: nat): (c: char)
    requires d < 10
    ensures IsDigit(c)
  {
    ('0' as int + d) as char
  }

  /** The decimal rendering Python's `f"{n}"` gives a non-negative integer. */
  function NatToString(n: nat): (r: string)
    ensures |r| >= 1 && AllDigits(r)
    ensures |r| > 1 ==> r[0] != '0'
    decreases n
  {
    if n < 10 then [DigitChar(n)] else NatToString(n / 10) + [DigitChar(n % 10)]
  }

  /** The value of a string of decimal digits. */
  function ParseNat(s: string): nat
    requires AllDigits(s)
  {
    if |s| == 0 then 0
    else ParseNat(s[..|s| - 1]) * 10 + (s[|s| - 1] as int - '0' as int)
  }

  /** Decimal rendering is undone by parsing. */
  lemma {:induction false} ParseNatToString(n: nat)
    ensures ParseNat(NatToString(n)) == n
    decreases n
  {
    if n >= 10 {
      ParseNatToString(n / 10);
      var s := NatToString(n);
      assert s[..|s| - 1] == NatToString(n / 10);
    }
  }

  /** The longest prefix of `s` made of decimal digits. */
  function TakeDigits(s: string): (r: string)
    ensures AllDigits(r) && |r| <= |s| && r == s[..|r|]
    ensures |r| < |s| ==> !IsDigit(s[|r|])
  {
    if |s| == 0 || !IsDigit(s[0]) then "" else [s[0]] + TakeDigits(s[1..])
  }

  /** The digit prefix of digits followed by a non-digit is exactly those digits. */
  lemma {:induction false} TakeDigitsOf(digits: string, rest: string)
    requires AllDigits(digits)
    requires |rest| == 0 || !IsDigit(rest[0])
    ensures TakeDigits(digits + rest) == digits
    decreases |digits|
  {
    if |digits| > 0 {
      TakeDigitsOf(digits[1..], rest);
      assert (digits + rest)[1..] == digits[1..] + rest;
      assert [digits[0]] + digits[1..] == digits;
    } else {
      assert digits + rest == rest;
    }
  }

  predicate EndsWith(s: string, suffix: string)
  {
    |suffix| <= |s| && s[|s| - |suffix|..] == suffix
  }

  /** A common tail can be added to or dropped from both sides of a suffix test. */
  lemma EndsWithAppend(s: string, suffix: string, tail: string)
    ensures EndsWith(s + tail, suffix + tail) <==> EndsWith(s, suffix)
  {
    var x := s + tail;
    if |suffix| <= |s| {
      assert x[|x| - |suffix + tail|..] == s[|s| - |suffix|..] + tail;
    }
    if EndsWith(x, suffix + tail) {
      assert s[|s| - |suffix|..] == x[|x| - |suffix + tail|..][..|suffix|];
    }
  }

  /** A suffix of a string stays a suffix when text is put in front. */
  lemma EndsWithExtend(prefix: string, s: string, suffix: string)
    requires EndsWith(s, suffix)
    ensures EndsWith(prefix + s, suffix)
  {
    var x := prefix + s;
    assert x[|x| - |suffix|..] == s[|s| - |suffix|..];
  }

  /** Strings whose last characters differ do not end one with the other. */
  lemma LastCharDiffers(s: string, suffix: string)
    requires |s| > 0 && |suffix| > 0 && s[|s| - 1] != suffix[|suffix| - 1]
    ensures !EndsWith(s, suffix)
  {
    if |suffix| <= |s| {
      assert s[|s| - |suffix|..][|suffix| - 1] == s[|s| - 1];
    }
  }
}
