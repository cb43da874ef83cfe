/** Option, used where the editor's lookups may find nothing. */
module Wrappers {
  datatype Option<T> = None | Some(value: T) {
    /** The value, or `default` when there is none. */
    function GetOr(default: T): T {
      match this
      case Some(v) => v
      case None => default
    }
  }
}

/**
 * The handful of Python 2 `str` operations the hotkey editor relies on:
 * `strip`, `rstrip`, `replace` of one character by nothing, `in`,
 * `partition`, `startswith`, `'%d' % n`, and iterating over the lines
 * of a file opened for reading.
 */
module PyText {
  import opened Wrappers

  /** The characters `str.strip()` removes: space, tab, LF, VT, FF and CR. */
  predicate IsSpace(c: char) {
    c == ' ' || c == '\t' || c == '\n' || c == '\r' || c as int == 11 || c as int == 12
  }

  predicate AllSpace(s: string) {
    forall k :: 0 <= k < |s| ==> IsSpace(s[k])
  }

  /** Neither end of `s` is whitespace. */
  predicate NoEdgeSpace(s: string) {
    s == [] || (!IsSpace(s[0]) && !IsSpace(s[|s| - 1]))
  }

  /** The first index at or after `i` that does not hold whitespace, or |s|. */
  function SkipSpace(s: string, i: nat): (j: nat)
    requires i <= |s|
    ensures i <= j <= |s|
    ensures forall k :: i <= k < j ==> IsSpace(s[k])
    ensures j == |s| || !IsSpace(s[j])
    decreases |s| - i
  {
    if i < |s| && IsSpace(s[i]) then SkipSpace(s, i + 1) else i
  }

  /** The end of `s[..n]` once the whitespace at its end is dropped. */
  function SolidEnd(s: string, n: nat): (m: nat)
    requires n <= |s|
    ensures m <= n
    ensures forall k :: m <= k < n ==> IsSpace(s[k])
    ensures m == 0 || !IsSpace(s[m - 1])
  {
    if n > 0 && IsSpace(s[n - 1]) then SolidEnd(s, n - 1) else n
  }

  /** `s.lstrip()`: a suffix of `s`, preceded only by whitespace. */
  function LStrip(s: string): (r: string)
    ensures |r| <= |s| && r == s[|s| - |r|..]
    ensures AllSpace(s[..|s| - |r|])
    ensures r == [] || !IsSpace(r[0])
  {
    var i := SkipSpace(s, 0);
    assert forall k :: 0 <= k < i ==> s[..i][k] == s[k];
    s[i..]
  }

  /** `s.rstrip()`: a prefix of `s`, followed only by whitespace. */
  function RStrip(s: string): (r: string)
    ensures |r| <= |s| && r == s[..|r|]
    ensures AllSpace(s[|r|..])
    ensures r == [] || !IsSpace(r[|r| - 1])
  {
    var m := SolidEnd(s, |s|);
    assert forall k :: m <= k < |s| ==> s[m..][k - m] == s[k];
    s[..m]
  }

  /** `r` is `s` less the whitespace run `s[..i]` in front and an all-whitespace tail. */
  predicate Trims(s: string, r: string, i: int) {
    0 <= i && i + |r| <= |s| && r == s[i..i + |r|] && AllSpace(s[..i]) && AllSpace(s[i + |r|..])
  }

  /** `s.strip()` */
  function Strip(s: string): (r: string)
    ensures NoEdgeSpace(r)
    ensures exists i :: Trims(s, r, i)
  {
    var l := LStrip(s);
    var r := RStrip(l);
    assert Trims(s, r, |s| - |l|) by {
      assert s[|s| - |l| + |r|..] == l[|r|..];
    }
    r
  }

  /** `s.replace(c, '')`: every `c` deleted, everything else kept in order. */
  function Without(s: string, c: char): (r: string)
    ensures c !in r
    ensures c !in s ==> r == s
  {
    if s == [] then []
    else
      var head := if s[0] == c then [] else [s[0]];
      head + Without(s[1..], c)
  }

  /** `replace(c, '')` keeps every other character exactly as often as it occurs in `s`. */
  lemma {:induction false} WithoutCounts(s: string, c: char)
    ensures multiset(Without(s, c)) == multiset(s)[c := 0]
  {
    if s != [] {
      WithoutCounts(s[1..], c);
      assert s == [s[0]] + s[1..];
    }
  }

  /** Deleting a character brings in no new one. */
  lemma {:induction false} WithoutNoNewChars(s: string, c: char)
    ensures forall d :: d in Without(s, c) ==> d in s
  {
    if s != [] {
      WithoutNoNewChars(s[1..], c);
      assert forall d :: d in s[1..] ==> d in s;
    }
  }

  /** `pat` occurs in `s` starting at index `i`. */
  predicate OccursAt(s: string, pat: string, i: int) {
    0 <= i && i + |pat| <= |s| && s[i..i + |pat|] == pat
  }

  /** `i` is where `pat` occurs in `s` for the first time. */
  predicate FirstOccurrence(s: string, pat: string, i: int) {
    OccursAt(s, pat, i) && forall j :: 0 <= j < i ==> !OccursAt(s, pat, j)
  }

  /** The first index at or after `from` where `pat` occurs in `s`. */
  function FindFrom(s: string, pat: string, from: nat): (r: Option<nat>)
    ensures r.Some? ==> from <= r.value && OccursAt(s, pat, r.value)
    ensures r.Some? ==> forall j :: from <= j < r.value ==> !OccursAt(s, pat, j)
    ensures r.None? ==> forall j :: from <= j ==> !OccursAt(s, pat, j)
    decreases |s| - from
  {
    if from + |pat| > |s| then None
    else if s[from..from + |pat|] == pat then Some(from)
    else FindFrom(s, pat, from + 1)
  }

  /** `s.find(pat)`, with None for Python's -1. */
  function Find(s: string, pat: string): (r: Option<nat>)
    ensures r.Some? ==> FirstOccurrence(s, pat, r.value)
    ensures r.None? <==> forall j :: !OccursAt(s, pat, j)
  {
    FindFrom(s, pat, 0)
  }

  /** `pat in s` */
  predicate Contains(s: string, pat: string) {
    Find(s, pat).Some?
  }

  /** `s.startswith(p)` */
  predicate StartsWith(s: string, p: string) {
    |p| <= |s| && s[..|p|] == p
  }

  /** A first occurrence is the one `Find` reports. */
  lemma FindFirst(s: string, pat: string, i: int)
    requires FirstOccurrence(s, pat, i)
    ensures Find(s, pat) == Some(i)
  {
    var r := Find(s, pat);
    assert r.Some?;
    assert !(r.value < i);
    assert !(i < r.value);
  }

  /** A one-character pattern occurs exactly where that character stands. */
  lemma OccursAtChar(s: string, c: char, j: int)
    ensures OccursAt(s, [c], j) <==> 0 <= j < |s| && s[j] == c
  {
    if 0 <= j < |s| {
      assert s[j..j + 1] == [s[j]];
    }
  }

  /** The three parts of `s.partition(pat)`. */
  datatype Parts = Parts(head: string, sep: string, tail: string)

  /** `s.partition(pat)`: split around the first occurrence of `pat`, or `(s, '', '')`. */
  function Partition(s: string, pat: string): (r: Parts)
    requires pat != []
    ensures r.head + r.sep + r.tail == s
    ensures Contains(s, pat) ==> r.sep == pat && FirstOccurrence(s, pat, |r.head|)
    ensures !Contains(s, pat) ==> r == Parts(s, "", "")
  {
    match Find(s, pat)
    case Some(i) =>
      assert s[..i] + pat + s[i + |pat|..] == s by {
        assert s[i..i + |pat|] == pat;
        assert s == s[..i] + s[i..i + |pat|] + s[i + |pat|..];
      }
      Parts(s[..i], pat, s[i + |pat|..])
    case None => Parts(s, "", "")
  }

  /** Partition's inverse: a split at the first occurrence is the one `partition` finds. */
  lemma PartitionOf(s: string, x: string, pat: string, y: string)
    requires pat != [] && s == x + pat + y
    requires forall j :: 0 <= j < |x| ==> !OccursAt(s, pat, j)
    ensures Partition(s, pat) == Parts(x, pat, y)
  {
    assert s[|x|..|x| + |pat|] == pat;
    FindFirst(s, pat, |x|);
    assert s[..|x|] == x;
    assert s[|x| + |pat|..] == y;
  }

  /** Partition on a single character `c`: the head never holds `c`. */
  lemma PartitionChar(s: string, c: char)
    ensures var p := Partition(s, [c]);
      c !in p.head &&
      (c in s ==> p.head + [c] + p.tail == s) &&
      (c !in s ==> p == Parts(s, "", ""))
  {
    var p := Partition(s, [c]);
    forall j | 0 <= j < |p.head|
      ensures p.head[j] != c
    {
      OccursAtChar(s, c, j);
      assert s[j] == p.head[j];
    }
    if c in s {
      var j :| 0 <= j < |s| && s[j] == c;
      OccursAtChar(s, c, j);
    } else if Contains(s, [c]) {
      OccursAtChar(s, c, |p.head|);
    }
  }

  /** A chunk that reads back as exactly one line: its only newline is its last character. */
  predicate IsLine(c: string) {
    |c| > 0 && c[|c| - 1] == '\n' && '\n' !in c[..|c| - 1]
  }

  /** What a line read from a file looks like: not empty, no newline before its last character. */
  predicate IsReadLine(c: string) {
    |c| > 0 && '\n' !in c[..|c| - 1]
  }

  /** The text of a file written as the chunks in order. */
  function Concat(chunks: seq<string>): string {
    if chunks == [] then [] else chunks[0] + Concat(chunks[1..])
  }

  lemma {:induction false} ConcatAppend(chunks: seq<string>, c: string)
    ensures Concat(chunks + [c]) == Concat(chunks) + c
  {
    if chunks == [] {
      assert [] + [c] == [c];
    } else {
      assert (chunks + [c])[1..] == chunks[1..] + [c];
      ConcatAppend(chunks[1..], c);
    }
  }

  /** Writing the chunks one at a time: the first `x + 1` chunks are the first `x` followed by chunk `x`. */
  lemma ConcatNext(chunks: seq<string>, x: int)
    requires 0 <= x < |chunks|
    ensures Concat(chunks[..x + 1]) == Concat(chunks[..x]) + chunks[x]
  {
    assert chunks[..x + 1] == chunks[..x] + [chunks[x]];
    ConcatAppend(chunks[..x], chunks[x]);
  }

  /** Length of the first line of `text`: up to and including its first '\n', or all of it. */
  function FirstLineLength(text: string): (k: nat)
    requires text != []
    ensures 0 < k <= |text|
    ensures IsReadLine(text[..k])
    ensures k < |text| ==> text[k - 1] == '\n'
  {
    match Find(text, "\n")
    case Some(i) =>
      assert forall j :: 0 <= j < i ==> text[j] != '\n' by {
        forall j | 0 <= j < i ensures text[j] != '\n' { OccursAtChar(text, '\n', j); }
      }
      OccursAtChar(text, '\n', i);
      i + 1
    case None =>
      assert forall j :: 0 <= j < |text| ==> text[j] != '\n' by {
        forall j | 0 <= j < |text| ensures text[j] != '\n' { OccursAtChar(text, '\n', j); }
      }
      |text|
  }

  /**
   * The lines Python yields for `for line in f` or `f.readlines()` over a file
   * holding `text`: each ends just after a '\n', and a final line without one is kept.
   */
  function Lines(text: string): (r: seq<string>)
    ensures Concat(r) == text
    ensures forall i :: 0 <= i < |r| ==> IsReadLine(r[i])
    ensures forall i :: 0 <= i < |r| - 1 ==> IsLine(r[i])
    decreases |text|
  {
    if text == [] then []
    else
      var k := FirstLineLength(text);
      var rest := Lines(text[k..]);
      var r := [text[..k]] + rest;
      assert r[1..] == rest;
      assert text[..k] + text[k..] == text;
      assert forall i :: 1 <= i < |r| ==> r[i] == rest[i - 1];
      r
  }

  /** Writing whole lines and reading the file back gives the same lines. */
  lemma {:induction false} LinesOfConcat(chunks: seq<string>)
    requires forall i :: 0 <= i < |chunks| ==> IsLine(chunks[i])
    ensures Lines(Concat(chunks)) == chunks
  {
    if chunks != [] {
      var c := chunks[0];
      var text := Concat(chunks);
      assert text == c + Concat(chunks[1..]);
      assert FirstOccurrence(text, "\n", |c| - 1) by {
        OccursAtChar(text, '\n', |c| - 1);
        forall j | 0 <= j < |c| - 1 ensures !OccursAt(text, "\n", j) {
          OccursAtChar(text, '\n', j);
          assert text[j] == c[..|c| - 1][j];
        }
      }
      FindFirst(text, "\n", |c| - 1);
      assert text[..|c|] == c;
      assert text[|c|..] == Concat(chunks[1..]);
      LinesOfConcat(chunks[1..]);
    }
  }

  predicate IsDigit(c: char) {
    '0' <= c <= '9'
  }

  predicate AllDigits(s: string) {
    forall k :: 0 <= k < |s| ==> IsDigit(s[k])
  }

  function Digit(d: nat): (c: char)
    requires d < 10
    ensures IsDigit(c) && c as int == d + 48
  {
    (d + 48) as char
  }

  /** The number a string of decimal digits spells, most significant digit first. */
  function DigitsValue(s: string): nat
    requires AllDigits(s)
  {
    if s == [] then 0 else DigitsValue(s[..|s| - 1]) * 10 + (s[|s| - 1] as int - 48)
  }

  /** `'%d' % n`: the decimal digits of `n`, most significant first, without leading zeros. */
  function DecimalString(n: nat): (r: string)
    ensures |r| > 0 && AllDigits(r)
    ensures DigitsValue(r) == n
    ensures n > 0 ==> r[0] != '0'
    ensures n < 10 <==> |r| == 1
  {
    if n < 10 then
      [Digit(n)]
    else
      var r := DecimalString(n / 10) + [Digit(n % 10)];
      assert r[..|r| - 1] == DecimalString(n / 10);
      r
  }

  /** The slot numbers of a fresh ActionScript file print as one or two digits. */
  lemma SlotNumbersPrinted()
    ensures DecimalString(1) == "1" && DecimalString(9) == "9"
    ensures DecimalString(10) == "10" && DecimalString(12) == "12"
  {
    assert DecimalString(1) == [Digit(1)];
    assert DecimalString(12) == DecimalString(1) + [Digit(2)];
    assert DecimalString(10) == DecimalString(1) + [Digit(0)];
  }

  /** Different numbers print differently. */
  lemma {:induction false} DecimalStringInjective(m: nat, n: nat)
    ensures DecimalString(m) == DecimalString(n) <==> m == n
  {
    var dm, dn := DecimalString(m), DecimalString(n);
    if m < 10 && n < 10 {
      assert dm[0] == Digit(m) && dn[0] == Digit(n);
    } else if m >= 10 && n >= 10 {
      assert dm[..|dm| - 1] == DecimalString(m / 10);
      assert dn[..|dn| - 1] == DecimalString(n / 10);
      DecimalStringInjective(m / 10, n / 10);
      if dm == dn {
        assert Digit(m % 10) == dm[|dm| - 1] == Digit(n % 10);
      }
    }
  }

  /** `lstrip` drops exactly a whitespace run put in front of a text that starts solid. */
  lemma {:induction false} LStripPadded(t: string, y: string)
    requires AllSpace(t) && (y == [] || !IsSpace(y[0]))
    ensures LStrip(t + y) == y
  {
    if t == [] {
      assert t + y == y;
    } else {
      assert (t + y)[1..] == t[1..] + y;
      LStripPadded(t[1..], y);
    }
  }

  /** `rstrip` drops exactly a whitespace run put behind a text that ends solid. */
  lemma {:induction false} RStripPadded(y: string, t: string)
    requires AllSpace(t) && (y == [] || !IsSpace(y[|y| - 1]))
    ensures RStrip(y + t) == y
  {
    if t == [] {
      assert y + t == y;
    } else {
      assert (y + t)[..|y + t| - 1] == y + t[..|t| - 1];
      RStripPadded(y, t[..|t| - 1]);
    }
  }

  /** `strip` undoes whitespace padding on both sides of a text with solid ends. */
  lemma StripPadded(t1: string, x: string, t2: string)
    requires AllSpace(t1) && AllSpace(t2) && NoEdgeSpace(x) && x != []
    ensures Strip(t1 + x + t2) == x
  {
    assert t1 + x + t2 == t1 + (x + t2);
    LStripPadded(t1, x + t2);
    RStripPadded(x, t2);
  }

  /** `strip` leaves a text with solid ends alone. */
  lemma StripFixed(x: string)
    requires NoEdgeSpace(x)
    ensures Strip(x) == x
  {
    LStripPadded([], x);
    RStripPadded(x, []);
    assert [] + x == x + [] == x;
  }

  /** `strip` gives the empty string exactly for all-whitespace input. */
  lemma StripEmpty(s: string)
    ensures Strip(s) == [] <==> AllSpace(s)
  {
    var r := Strip(s);
    var i :| Trims(s, r, i);
    if r == [] {
      assert s == s[..i] + s[i..];
    }
  }

  /** `strip` keeps every character that is not whitespace. */
  lemma StripKeepsSolid(s: string, c: char)
    requires !IsSpace(c) && c in s
    ensures c in Strip(s)
  {
    var r := Strip(s);
    var i :| Trims(s, r, i);
    var j :| 0 <= j < |s| && s[j] == c;
    forall k | 0 <= k < i ensures IsSpace(s[k]) {
      assert s[..i][k] == s[k];
    }
    forall k | i + |r| <= k < |s| ensures IsSpace(s[k]) {
      assert s[i + |r|..][k - i - |r|] == s[k];
    }
    assert r[j - i] == c;
  }

  /** `strip` and `rstrip` introduce no character. */
  lemma StripNoNewChars(s: string)
    ensures forall c :: c in Strip(s) ==> c in s
    ensures forall c :: c in RStrip(s) ==> c in s
  {
    var r := Strip(s);
    var i :| Trims(s, r, i);
    forall c | c in r ensures c in s {
      var k :| 0 <= k < |r| && r[k] == c;
      assert s[i + k] == c;
    }
  }
}
