/**
 * The Python `str` operations the blog relies on, over `seq<char>`:
 * the prefix slice `s[:k]`, `str.replace`, `str.split` on one separator,
 * `''.join` and `str(int)`.
 */
module Text {

  function Min(a: int, b: int): int { if a < b then a else b }

  /** `s[:k]` for `k >= 0`: the first `k` characters, or all of `s` when it is shorter. */
  function Prefix(s: string, k: nat): (r: string)
    ensures |r| == Min(k, |s|)
    ensures r <= s
  {
    if |s| <= k then s else s[..k]
  }

  /** `pat` occurs in `s` starting at index `i`. */
  predicate OccursAt(pat: string, s: string, i: nat)
  {
    i + |pat| <= |s| && s[i..i + |pat|] == pat
  }

  /** `pat in s` in Python. */
  predicate Occurs(pat: string, s: string)
  {
    exists i: nat | i <= |s| :: OccursAt(pat, s, i)
  }

  /** No character of `a` occurs in `b`. */
  predicate NoSharedChar(a: string, b: string)
  {
    forall i :: 0 <= i < |a| ==> a[i] !in b
  }

  /**
   * `s.replace(pat, rep)`: scanning left to right, every non-overlapping
   * occurrence of `pat` is replaced by `rep`. An empty `pat` matches before
   * every character and at the end, as in Python.
   */
  function ReplaceAll(s: string, pat: string, rep: string): (r: string)
    ensures |pat| > 0 && rep == pat ==> r == s
    decreases |s|
  {
    if |pat| == 0 then
      if s == [] then rep else rep + [s[0]] + ReplaceAll(s[1..], pat, rep)
    else if |s| < |pat| then s
    else if s[..|pat|] == pat then rep + ReplaceAll(s[|pat|..], pat, rep)
    else [s[0]] + ReplaceAll(s[1..], pat, rep)
  }

  lemma OccursInTail(pat: string, s: string, i: nat)
    requires |s| > 0 && OccursAt(pat, s[1..], i)
    ensures OccursAt(pat, s, i + 1)
  {
    assert s[1..][i..i + |pat|] == s[i + 1..i + 1 + |pat|];
  }

  /** A string without the pattern comes back unchanged. */
  lemma {:induction false} ReplaceAbsent(s: string, pat: string, rep: string)
    requires |pat| > 0 && !Occurs(pat, s)
    ensures ReplaceAll(s, pat, rep) == s
    decreases |s|
  {
    if |s| >= |pat| {
      assert !OccursAt(pat, s, 0);
      if Occurs(pat, s[1..]) {
        var i: nat :| OccursAt(pat, s[1..], i);
        assert OccursAt(pat, s[1..], i);
        OccursInTail(pat, s, i);
        assert false;
      }
      ReplaceAbsent(s[1..], pat, rep);
    }
  }

  /** A first character that cannot start the pattern is copied through. */
  lemma ReplaceKeepsHead(s: string, pat: string, rep: string)
    requires |pat| > 0 && |s| > 0 && s[0] != pat[0]
    ensures ReplaceAll(s, pat, rep) == [s[0]] + ReplaceAll(s[1..], pat, rep)
  {
    if |s| < |pat| {
      assert ReplaceAll(s[1..], pat, rep) == s[1..];
    } else {
      assert s[..|pat|][0] == s[0];
    }
  }

  /** A leading part free of the pattern's first character is copied through untouched. */
  lemma {:induction false} ReplaceAfterFreePrefix(a: string, t: string, pat: string, rep: string)
    requires |pat| > 0 && pat[0] !in a
    ensures ReplaceAll(a + t, pat, rep) == a + ReplaceAll(t, pat, rep)
    decreases |a|
  {
    if a == [] {
      assert a + t == t;
    } else {
      var s := a + t;
      var tail := a[1..];
      assert s[0] == a[0] && s[1..] == tail + t;
      assert pat[0] !in tail;
      ReplaceKeepsHead(s, pat, rep);
      ReplaceAfterFreePrefix(tail, t, pat, rep);
      var rt := ReplaceAll(t, pat, rep);
      assert a == [a[0]] + tail;
      assert [a[0]] + (tail + rt) == a + rt;
    }
  }

  /**
   * One occurrence between a part free of the pattern's first character and a
   * part free of the pattern: exactly that occurrence is substituted.
   */
  lemma ReplaceSingle(a: string, b: string, pat: string, rep: string)
    requires |pat| > 0 && pat[0] !in a && !Occurs(pat, b)
    ensures ReplaceAll(a + pat + b, pat, rep) == a + rep + b
  {
    assert a + pat + b == a + (pat + b);
    ReplaceAfterFreePrefix(a, pat + b, pat, rep);
    assert (pat + b)[..|pat|] == pat;
    assert (pat + b)[|pat|..] == b;
    ReplaceAbsent(b, pat, rep);
  }

  lemma ConcatHead(x: string, y: string)
    ensures |x| > 0 ==> (x + y)[0] == x[0]
  {
  }

  /**
   * When the replacement is non-empty and shares no character with the pattern,
   * a prefix of the result made only of pattern characters is a prefix of the input.
   */
  lemma {:induction false} KeptPrefix(s: string, pat: string, rep: string, k: nat)
    requires |pat| > 0 && |rep| > 0 && NoSharedChar(rep, pat)
    requires k <= |ReplaceAll(s, pat, rep)|
    requires forall j :: 0 <= j < k ==> ReplaceAll(s, pat, rep)[j] in pat
    ensures k <= |s| && ReplaceAll(s, pat, rep)[..k] == s[..k]
    decreases |s|
  {
    var r := ReplaceAll(s, pat, rep);
    if k > 0 && |s| >= |pat| {
      if s[..|pat|] == pat {
        assert r == rep + ReplaceAll(s[|pat|..], pat, rep);
        ConcatHead(rep, ReplaceAll(s[|pat|..], pat, rep));
        assert false;
      } else {
        var tail := ReplaceAll(s[1..], pat, rep);
        assert r == [s[0]] + tail;
        forall j | 0 <= j < k - 1 ensures tail[j] in pat {
          assert tail[j] == r[j + 1];
        }
        KeptPrefix(s[1..], pat, rep, k - 1);
        assert r[..k] == [s[0]] + tail[..k - 1];
      }
    }
  }

  /**
   * Replace-all leaves no occurrence of the pattern behind, provided the
   * replacement is non-empty and shares no character with the pattern.
   */
  lemma {:induction false} ReplaceRemovesAll(s: string, pat: string, rep: string)
    requires |pat| > 0 && |rep| > 0 && NoSharedChar(rep, pat)
    ensures !Occurs(pat, ReplaceAll(s, pat, rep))
    decreases |s|
  {
    var r := ReplaceAll(s, pat, rep);
    if |s| < |pat| {
      assert r == s;
    } else if s[..|pat|] == pat {
      var tail := ReplaceAll(s[|pat|..], pat, rep);
      assert r == rep + tail;
      ReplaceRemovesAll(s[|pat|..], pat, rep);
      NoOccurrenceAfterRep(rep, tail, pat);
    } else {
      var tail := ReplaceAll(s[1..], pat, rep);
      assert r == [s[0]] + tail;
      ReplaceRemovesAll(s[1..], pat, rep);
      FirstWindowKept(s, pat, rep);
      NoOccurrenceAfterHead(r, s[0], tail, pat);
    }
  }

  /** A replacement free of pattern characters followed by a clean tail is clean. */
  lemma NoOccurrenceAfterRep(rep: string, tail: string, pat: string)
    requires |pat| > 0 && |rep| > 0 && NoSharedChar(rep, pat) && !Occurs(pat, tail)
    ensures !Occurs(pat, rep + tail)
  {
    var r := rep + tail;
    forall i: nat | i <= |r| ensures !OccursAt(pat, r, i) {
      if i + |pat| <= |r| {
        if i < |rep| {
          assert r[i..i + |pat|][0] == rep[i];
          assert rep[i] !in pat;
        } else {
          assert r[i..i + |pat|] == tail[i - |rep|..i - |rep| + |pat|];
          assert !OccursAt(pat, tail, i - |rep|);
        }
      }
    }
  }

  /** A string that does not start with the pattern and whose tail is clean is clean. */
  lemma NoOccurrenceAfterHead(r: string, c: char, tail: string, pat: string)
    requires |pat| > 0 && r == [c] + tail
    requires !OccursAt(pat, r, 0) && !Occurs(pat, tail)
    ensures !Occurs(pat, r)
  {
    forall i: nat | i <= |r| ensures !OccursAt(pat, r, i) {
      if 0 < i && i + |pat| <= |r| {
        assert r[i..i + |pat|] == tail[i - 1..i - 1 + |pat|];
        assert !OccursAt(pat, tail, i - 1);
      }
    }
  }

  /** The result does not start with the pattern when the input does not. */
  lemma FirstWindowKept(s: string, pat: string, rep: string)
    requires |pat| > 0 && |rep| > 0 && NoSharedChar(rep, pat)
    requires |s| >= |pat| && s[..|pat|] != pat
    ensures !OccursAt(pat, ReplaceAll(s, pat, rep), 0)
  {
    var r := ReplaceAll(s, pat, rep);
    if |pat| <= |r| {
      if forall j :: 0 <= j < |pat| ==> r[j] in pat {
        KeptPrefix(s, pat, rep, |pat|);
      } else {
        var j :| 0 <= j < |pat| && r[j] !in pat;
        assert r[..|pat|][j] == r[j];
      }
    }
  }

  /** Replacing a one-character pattern by nothing deletes every copy of that character. */
  lemma {:induction false} ReplaceByEmptyDeletes(s: string, pat: string)
    requires |pat| == 1
    ensures pat[0] !in ReplaceAll(s, pat, [])
    decreases |s|
  {
    if |s| >= 1 {
      ReplaceByEmptyDeletes(s[1..], pat);
      if s[..1] != pat {
        assert s[0] != pat[0] by { assert s[..1] == [s[0]]; }
      }
    }
  }

  /** `s.split(sep)`: the pieces between the separators, always at least one. */
  function Split(s: string, sep: char): (parts: seq<string>)
    ensures |parts| == multiset(s)[sep] + 1
    ensures forall i :: 0 <= i < |parts| ==> sep !in parts[i]
    decreases |s|
  {
    if s == [] then [[]]
    else
      assert s == [s[0]] + s[1..];
      var rest := Split(s[1..], sep);
      if s[0] == sep then [[]] + rest
      else [[s[0]] + rest[0]] + rest[1..]
  }

  /** `sep.join(parts)` for a one-character separator. */
  function Join(parts: seq<string>, sep: char): string
  {
    if |parts| == 0 then []
    else if |parts| == 1 then parts[0]
    else parts[0] + [sep] + Join(parts[1..], sep)
  }

  /** Splitting and joining on the same separator gives the original string back. */
  lemma {:induction false} JoinSplit(s: string, sep: char)
    ensures Join(Split(s, sep), sep) == s
    decreases |s|
  {
    if s != [] {
      var tail := s[1..];
      var rest := Split(tail, sep);
      SplitStep(s, sep);
      JoinSplit(tail, sep);
      if s[0] == sep {
        JoinPrependEmpty(rest, sep);
      } else {
        JoinExtendFirst(s[0], rest, sep);
      }
      assert s == [s[0]] + tail;
    }
  }

  /** One step of `Split`: the first character either ends an empty first part or starts the first part. */
  lemma SplitStep(s: string, sep: char)
    requires s != []
    ensures Split(s, sep) == if s[0] == sep then [[]] + Split(s[1..], sep)
                             else [[s[0]] + Split(s[1..], sep)[0]] + Split(s[1..], sep)[1..]
  {
  }

  /** An empty first part contributes just the separator to the joined text. */
  lemma JoinPrependEmpty(parts: seq<string>, sep: char)
    requires |parts| >= 1
    ensures Join([[]] + parts, sep) == [sep] + Join(parts, sep)
  {
    assert ([[]] + parts)[1..] == parts;
  }

  /** Putting a character in front of the first part puts it in front of the joined text. */
  lemma JoinExtendFirst(c: char, parts: seq<string>, sep: char)
    requires |parts| >= 1
    ensures Join([[c] + parts[0]] + parts[1..], sep) == [c] + Join(parts, sep)
  {
    var ext := [[c] + parts[0]] + parts[1..];
    if |parts| > 1 {
      assert ext[1..] == parts[1..];
      assert Join(ext, sep) == ext[0] + [sep] + Join(ext[1..], sep);
    }
  }

  /** A string without the separator is a single piece. */
  lemma {:induction false} SplitWithoutSep(a: string, sep: char)
    requires sep !in a
    ensures Split(a, sep) == [a]
  {
    var parts := Split(a, sep);
    assert multiset(a)[sep] == 0;
    assert |parts| == 1;
    JoinSplit(a, sep);
  }

  /** A string with exactly one separator splits into the parts on either side of it. */
  lemma SplitAtOnlySep(a: string, b: string, sep: char)
    requires sep !in a && sep !in b
    ensures Split(a + [sep] + b, sep) == [a, b]
  {
    var s := a + [sep] + b;
    var parts := Split(s, sep);
    assert multiset(s) == multiset(a) + multiset{sep} + multiset(b);
    assert |parts| == 2;
    JoinSplit(s, sep);
    assert parts[0] + [sep] + parts[1] == a + [sep] + b;
    SepFreeSplitPoint(parts[0], parts[1], a, b, sep);
  }

  lemma {:induction false} SepFreeSplitPoint(x: string, y: string, a: string, b: string, sep: char)
    requires sep !in x && sep !in a
    requires x + [sep] + y == a + [sep] + b
    ensures x == a && y == b
    decreases |x|
  {
    var s := x + [sep] + y;
    assert s[|x|] == sep;
    assert s == a + [sep] + b;
    assert s[|a|] == sep;
    assert forall j :: 0 <= j < |x| ==> s[j] == x[j];
    assert forall j :: 0 <= j < |a| ==> s[j] == a[j];
    assert x == s[..|x|];
    assert a == s[..|a|];
    assert y == s[|x| + 1..];
    assert b == s[|a| + 1..];
  }

  /** The character for a decimal digit. */
  function DigitChar(d: nat): (c: char)
    requires d < 10
    ensures '0' <= c <= '9' && c as int - '0' as int == d
  {
    (d + '0' as int) as char
  }

  predicate IsDigits(s: string)
  {
    forall i :: 0 <= i < |s| ==> '0' <= s[i] <= '9'
  }

  /** `str(n)` for `n >= 0`: decimal digits, most significant first, never empty. */
  function NatToString(n: nat): (r: string)
    ensures |r| > 0 && IsDigits(r)
    decreases n
  {
    if n < 10 then [DigitChar(n)] else NatToString(n / 10) + [DigitChar(n % 10)]
  }

  /** `str(i)` for any Python int. */
  function IntToString(i: int): (r: string)
    ensures |r| > 0
    ensures forall k :: 0 <= k < |r| ==> r[k] == '-' || '0' <= r[k] <= '9'
  {
    if i < 0 then "-" + NatToString(-i) else NatToString(i)
  }

  /** The value of a string of decimal digits. */
  function DigitsValue(s: string): nat
    requires IsDigits(s)
  {
    if |s| == 0 then 0 else DigitsValue(s[..|s| - 1]) * 10 + (s[|s| - 1] as int - '0' as int)
  }

  /** Reading back the decimal text of a natural number gives that number. */
  lemma {:induction false} DigitsValueOfNatToString(n: nat)
    ensures DigitsValue(NatToString(n)) == n
    decreases n
  {
    if n >= 10 {
      var s := NatToString(n);
      DigitsValueOfNatToString(n / 10);
      assert s[..|s| - 1] == NatToString(n / 10);
    }
  }
}
