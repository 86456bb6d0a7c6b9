/**
 * The parts of Python's `str` that the monitor relies on: `isspace` (which is
 * also what `\s` matches in a `str` regular expression and what `strip()`
 * removes), `split`, clamped slicing, `strip`, the `>` alignment of format
 * specifications, and `str()` of a non-negative integer.
 */
module PyStr {

  /**
   * Python's `str.isspace` for a single character: the ASCII whitespace and
   * separator controls (tab to carriage return, and 0x1C to 0x1F), and the
   * Unicode spaces and line and paragraph separators.
   */
  predicate IsSpace(c: char) {
    c == ' ' || ('\t' <= c <= '\r') || ('\U{1C}' <= c <= '\U{1F}')
    || c == '\U{85}' || c == '\U{A0}' || c == '\U{1680}' || ('\U{2000}' <= c <= '\U{200A}')
    || c == '\U{2028}' || c == '\U{2029}' || c == '\U{202F}' || c == '\U{205F}' || c == '\U{3000}'
  }

  // ---------------------------------------------------------------------------
  // s.split(sep) for a one-character separator

  function Split(s: string, sep: char): (parts: seq<string>)
    ensures |parts| >= 1
  {
    if s == [] then [""]
    else
      var rest := Split(s[1..], sep);
      if s[0] == sep then [""] + rest else [[s[0]] + rest[0]] + rest[1..]
  }

  /** `sep.join(parts)`, the inverse of `Split`. */
  function Join(parts: seq<string>, sep: char): string {
    if parts == [] then ""
    else if |parts| == 1 then parts[0]
    else parts[0] + [sep] + Join(parts[1..], sep)
  }

  lemma {:induction false} JoinSplit(s: string, sep: char)
    ensures Join(Split(s, sep), sep) == s
  {
    if s != [] {
      var rest := Split(s[1..], sep);
      JoinSplit(s[1..], sep);
      if s[0] == sep {
        assert Split(s, sep) == [""] + rest;
      } else if |rest| == 1 {
        assert Split(s, sep) == [[s[0]] + rest[0]];
      } else {
        assert Split(s, sep)[1..] == rest[1..];
        assert Join(rest, sep) == rest[0] + [sep] + Join(rest[1..], sep);
      }
    }
  }

  /** No piece contains the separator. */
  lemma {:induction false} SplitNoSeparator(s: string, sep: char)
    ensures forall i :: 0 <= i < |Split(s, sep)| ==> sep !in Split(s, sep)[i]
  {
    if s != [] {
      SplitNoSeparator(s[1..], sep);
    }
  }

  /** There is one more piece than there are separators. */
  lemma {:induction false} SplitCount(s: string, sep: char)
    ensures |Split(s, sep)| == multiset(s)[sep] + 1
  {
    if s != [] {
      SplitCount(s[1..], sep);
      assert s == [s[0]] + s[1..];
      assert multiset(s) == multiset([s[0]]) + multiset(s[1..]);
    }
  }

  // ---------------------------------------------------------------------------
  // substring test `t in s`

  predicate Contains(s: string, t: string)
    decreases |s|
  {
    |t| <= |s| && (s[..|t|] == t || Contains(s[1..], t))
  }

  /** `t` occurs in `s` starting at offset `i`. */
  predicate OccursAt(s: string, t: string, i: nat) {
    i + |t| <= |s| && s[i..i + |t|] == t
  }

  /** `t in s` holds exactly when `t` occurs in `s` at some offset. */
  lemma {:induction false} ContainsAt(s: string, t: string)
    ensures Contains(s, t) <==> exists i: nat :: OccursAt(s, t, i)
    decreases |s|
  {
    if |t| <= |s| {
      if s[..|t|] == t {
        assert OccursAt(s, t, 0);
      } else {
        ContainsAt(s[1..], t);
        if exists i: nat :: OccursAt(s, t, i) {
          var i: nat :| OccursAt(s, t, i);
          assert i != 0;
          assert s[1..][i - 1..i - 1 + |t|] == s[i..i + |t|];
          assert OccursAt(s[1..], t, i - 1);
        }
        if exists j: nat :: OccursAt(s[1..], t, j) {
          var j: nat :| OccursAt(s[1..], t, j);
          assert s[j + 1..j + 1 + |t|] == s[1..][j..j + |t|];
          assert OccursAt(s, t, j + 1);
        }
      }
    } else {
      assert forall i: nat :: !OccursAt(s, t, i);
    }
  }

  // ---------------------------------------------------------------------------
  // s[lo:hi] for non-negative bounds: out-of-range bounds are clamped to |s|

  function Slice(s: string, lo: nat, hi: nat): (r: string)
    ensures |r| == if lo < hi && lo < |s| then Min(hi, |s|) - lo else 0
  {
    if lo < hi && lo < |s| then s[lo..Min(hi, |s|)] else ""
  }

  function Min(a: int, b: int): int {
    if a <= b then a else b
  }

  /** Two adjacent slices make up the slice that spans both. */
  lemma SliceAppend(s: string, lo: nat, mid: nat, hi: nat)
    requires lo <= mid <= hi
    ensures Slice(s, lo, mid) + Slice(s, mid, hi) == Slice(s, lo, hi)
  {
    var l, r := Slice(s, lo, mid) + Slice(s, mid, hi), Slice(s, lo, hi);
    assert |l| == |r|;
    forall k | 0 <= k < |l| ensures l[k] == r[k] {
      if k < |Slice(s, lo, mid)| {
      } else {
        assert l[k] == Slice(s, mid, hi)[k - |Slice(s, lo, mid)|];
      }
    }
  }

  /** The slice up to any offset followed by the rest of the string from there is the whole slice. */
  lemma SliceSplit(s: string, lo: nat, mid: nat)
    requires lo <= mid
    ensures Slice(s, lo, mid) + Slice(s, mid, |s|) == Slice(s, lo, |s|)
  {
    if mid <= |s| {
      SliceAppend(s, lo, mid, |s|);
    } else {
      assert Slice(s, mid, |s|) == "";
    }
  }

  // ---------------------------------------------------------------------------
  // s.strip()

  function LStrip(s: string): (r: string)
    ensures |r| <= |s|
  {
    if s != [] && IsSpace(s[0]) then LStrip(s[1..]) else s
  }

  function RStrip(s: string): (r: string)
    ensures |r| <= |s|
  {
    if s != [] && IsSpace(s[|s| - 1]) then RStrip(s[..|s| - 1]) else s
  }

  /** `lstrip()` removes exactly the leading whitespace. */
  lemma {:induction false} LStripShape(s: string)
    ensures var r := LStrip(s);
      r == s[|s| - |r|..] && (forall k :: 0 <= k < |s| - |r| ==> IsSpace(s[k])) && (r == [] || !IsSpace(r[0]))
    decreases |s|
  {
    if s != [] && IsSpace(s[0]) {
      LStripShape(s[1..]);
    }
  }

  /** `rstrip()` removes exactly the trailing whitespace. */
  lemma {:induction false} RStripShape(s: string)
    ensures var r := RStrip(s);
      r == s[..|r|] && (forall k :: |r| <= k < |s| ==> IsSpace(s[k])) && (r == [] || !IsSpace(r[|r| - 1]))
    decreases |s|
  {
    if s != [] && IsSpace(s[|s| - 1]) {
      RStripShape(s[..|s| - 1]);
    }
  }

  function Strip(s: string): (r: string)
    ensures |r| <= |s|
  {
    RStrip(LStrip(s))
  }

  /**
   * The result is the part of `s` left after removing whitespace at both ends:
   * it neither starts nor ends with whitespace, and what was removed is all whitespace.
   */
  lemma StripShape(s: string)
    ensures var r := Strip(s);
      var i := |s| - |LStrip(s)|;
      (r == [] || (!IsSpace(r[0]) && !IsSpace(r[|r| - 1])))
      && i + |r| <= |s| && r == s[i..i + |r|]
      && (forall k :: 0 <= k < i ==> IsSpace(s[k]))
      && (forall k :: i + |r| <= k < |s| ==> IsSpace(s[k]))
  {
    var l := LStrip(s);
    LStripShape(s);
    RStripShape(l);
    var i := |s| - |l|;
    var r := Strip(s);
    assert r == l[..|r|];
    forall k | i + |r| <= k < |s| ensures IsSpace(s[k]) {
      assert s[k] == l[k - i];
    }
  }

  /** Text made only of whitespace strips to the empty string. */
  lemma {:induction false} StripBlank(s: string)
    requires forall k :: 0 <= k < |s| ==> IsSpace(s[k])
    ensures LStrip(s) == "" && Strip(s) == ""
    decreases |s|
  {
    if s != [] {
      StripBlank(s[1..]);
    }
  }

  // ---------------------------------------------------------------------------
  // f"{s:>w}": right-justify in a field of width w, padding with spaces

  function RJust(s: string, w: nat): (r: string)
    ensures |r| == if |s| < w then w else |s|
  {
    if |s| < w then " " + RJust(s, w - 1) else s
  }

  /** The text ends the field and only spaces come before it. */
  lemma {:induction false} RJustShape(s: string, w: nat)
    ensures var r := RJust(s, w);
      r[|r| - |s|..] == s && forall k :: 0 <= k < |r| - |s| ==> r[k] == ' '
  {
    if |s| < w {
      var r, r' := RJust(s, w), RJust(s, w - 1);
      RJustShape(s, w - 1);
      assert r == " " + r' && r[1..] == r';
      assert r[|r| - |s|..] == r'[|r'| - |s|..];
      forall k | 0 <= k < |r| - |s| ensures r[k] == ' ' {
        if k > 0 {
          assert r[k] == r'[k - 1];
        }
      }
    }
  }

  // ---------------------------------------------------------------------------
  // str(n) for n >= 0, and its inverse int(s) on decimal digits

  function DigitChar(d: nat): (c: char)
    requires d < 10
    ensures '0' <= c <= '9'
  {
    ('0' as int + d) as char
  }

  predicate IsDigits(s: string) {
    forall k :: 0 <= k < |s| ==> '0' <= s[k] <= '9'
  }

  function NatToString(n: nat): (r: string)
    ensures |r| >= 1 && IsDigits(r)
    ensures |r| > 1 ==> r[0] != '0'
    decreases n
  {
    if n < 10 then [DigitChar(n)] else NatToString(n / 10) + [DigitChar(n % 10)]
  }

  function DecimalValue(s: string): nat
    requires IsDigits(s)
  {
    if s == [] then 0 else 10 * DecimalValue(s[..|s| - 1]) + (s[|s| - 1] as int - '0' as int)
  }

  lemma {:induction false} DecimalValueOfNatToString(n: nat)
    ensures DecimalValue(NatToString(n)) == n
    decreases n
  {
    if n >= 10 {
      DecimalValueOfNatToString(n / 10);
      var s := NatToString(n);
      assert s[..|s| - 1] == NatToString(n / 10);
    }
  }

  /** Distinct numbers print differently. */
  lemma NatToStringInjective(a: nat, b: nat)
    requires NatToString(a) == NatToString(b)
    ensures a == b
  {
    DecimalValueOfNatToString(a);
    DecimalValueOfNatToString(b);
  }

  function Pow10(k: nat): (p: nat)
    ensures p >= 1
  {
    if k == 0 then 1 else 10 * Pow10(k - 1)
  }

  /** A number below 10^k, for k at least 1, prints in at most k digits. */
  lemma {:induction false} NatToStringDigits(n: nat, k: nat)
    requires k >= 1 && n < Pow10(k)
    ensures |NatToString(n)| <= k
    decreases n
  {
    if n >= 10 {
      assert n / 10 < Pow10(k - 1);
      NatToStringDigits(n / 10, k - 1);
    }
  }

  /** Numbers below 100000 print in at most five digits. */
  lemma NatToStringLength(n: nat)
    requires n < 100000
    ensures |NatToString(n)| <= 5
  {
    assert Pow10(5) == 100000;
    NatToStringDigits(n, 5);
  }
}
