/**
 * The Python string operations the service relies on, as functions on `string`:
 * `in` on substrings, `str.strip`, `str.split` on one character, `str.replace`
 * with an empty replacement and `str(int)`. Each comes with an independent
 * characterisation of its result, so that callers never have to unfold the bodies.
 */
module PyStrings {

  // ---------------------------------------------------------------------------
  // Substrings: Python's `p in s`

  /** `p` occurs in `s` starting at position `i`. */
  predicate OccursAt(s: string, p: string, i: nat)
  {
    i + |p| <= |s| && s[i..i + |p|] == p
  }

  /** Python's `p in s` for two strings. */
  predicate Contains(s: string, p: string)
  {
    exists i | 0 <= i <= |s| - |p| :: OccursAt(s, p, i)
  }

  /** Occurrences in `s[1..]` are the occurrences in `s` that do not start at 0. */
  lemma OccursAtTail(s: string, p: string, i: nat)
    requires |s| > 0
    ensures OccursAt(s[1..], p, i) <==> OccursAt(s, p, i + 1)
  {
    if i + 1 + |p| <= |s| {
      assert s[1..][i..i + |p|] == s[i + 1..i + 1 + |p|];
    }
  }

  /** `p` is in `s` exactly when it starts at 0 or is in `s[1..]`. */
  lemma {:induction false} ContainsTail(s: string, p: string)
    requires |s| > 0
    ensures Contains(s, p) <==> OccursAt(s, p, 0) || Contains(s[1..], p)
  {
    if Contains(s, p) && !OccursAt(s, p, 0) {
      var i :| 0 <= i <= |s| - |p| && OccursAt(s, p, i);
      OccursAtTail(s, p, i - 1);
    }
    if Contains(s[1..], p) {
      var i :| 0 <= i <= |s[1..]| - |p| && OccursAt(s[1..], p, i);
      OccursAtTail(s, p, i);
    }
  }

  // ---------------------------------------------------------------------------
  // Stripping: Python's `s.strip(chars)` and `s.strip()`

  /**
   * The characters for which Python's `str.isspace` holds, among U+0000..U+00FF;
   * `s.strip()` without arguments removes exactly these from both ends.
   */
  const Whitespace: set<char> := {
    '\t', '\n', '\U{B}', '\U{C}', '\r', '\U{1C}', '\U{1D}', '\U{1E}', '\U{1F}', ' ', '\U{85}', '\U{A0}'
  }

  /** Number of leading characters of `s` that belong to `cs`. */
  function LeadingCount(s: string, cs: set<char>): (k: nat)
    ensures k <= |s|
    ensures forall i :: 0 <= i < k ==> s[i] in cs
    ensures k < |s| ==> s[k] !in cs
  {
    if |s| > 0 && s[0] in cs then 1 + LeadingCount(s[1..], cs) else 0
  }

  /** Number of trailing characters of `s` that belong to `cs`. */
  function TrailingCount(s: string, cs: set<char>): (k: nat)
    ensures k <= |s|
    ensures forall i :: |s| - k <= i < |s| ==> s[i] in cs
    ensures k < |s| ==> s[|s| - 1 - k] !in cs
  {
    if |s| > 0 && s[|s| - 1] in cs then 1 + TrailingCount(s[..|s| - 1], cs) else 0
  }

  /** Neither end of `s` is a character of `cs`. */
  predicate IsStrippedOf(s: string, cs: set<char>)
  {
    s == [] || (s[0] !in cs && s[|s| - 1] !in cs)
  }

  /**
   * Python's `s.strip(chars)`: the slice of `s` that remains once the run of
   * characters of `cs` at each end is removed.
   */
  function StripChars(s: string, cs: set<char>): (r: string)
    ensures IsStrippedOf(r, cs)
    ensures var a := LeadingCount(s, cs);
      && a + |r| <= |s|
      && r == s[a..a + |r|]
      && forall i :: a + |r| <= i < |s| ==> s[i] in cs
    ensures IsStrippedOf(s, cs) ==> r == s
  {
    var a := LeadingCount(s, cs);
    var left := s[a..];
    var t := TrailingCount(left, cs);
    assert IsStrippedOf(s, cs) ==> a == 0 && t == 0;
    left[..|left| - t]
  }

  /** Python's `s.strip()`. */
  function Strip(s: string): (r: string)
    ensures IsStrippedOf(r, Whitespace)
    ensures |r| <= |s|
    ensures IsStrippedOf(s, Whitespace) ==> r == s
  {
    StripChars(s, Whitespace)
  }

  // ---------------------------------------------------------------------------
  // Splitting on one character: Python's `s.split(c)`

  /** No piece of `parts` contains `c`. */
  predicate NoneContains(parts: seq<string>, c: char)
  {
    forall k :: 0 <= k < |parts| ==> c !in parts[k]
  }

  /** Python's `s.split(c)` for a one-character separator. */
  function Split(s: string, c: char): (parts: seq<string>)
    ensures |parts| >= 1
  {
    if |s| == 0 then [""]
    else
      var rest := Split(s[1..], c);
      if s[0] == c then [""] + rest
      else [[s[0]] + rest[0]] + rest[1..]
  }

  /** A split has two or more pieces exactly when the separator occurs. */
  lemma {:induction false} SplitCount(s: string, c: char)
    ensures |Split(s, c)| >= 2 <==> c in s
  {
    if |s| > 0 {
      var t := s[1..];
      SplitCount(t, c);
      assert c in s <==> s[0] == c || c in t by {
        assert s == [s[0]] + t;
      }
    }
  }

  /** No piece of a split holds the separator. */
  lemma {:induction false} SplitPiecesFree(s: string, c: char)
    ensures NoneContains(Split(s, c), c)
  {
    if |s| > 0 {
      var t := s[1..];
      var rest := Split(t, c);
      SplitPiecesFree(t, c);
      if s[0] != c {
        var parts := [[s[0]] + rest[0]] + rest[1..];
        assert c !in parts[0] by {
          assert c !in rest[0];
        }
        forall k | 1 <= k < |parts|
          ensures c !in parts[k]
        {
          assert parts[k] == rest[k];
        }
      } else {
        var parts := [""] + rest;
        forall k | 1 <= k < |parts|
          ensures c !in parts[k]
        {
          assert parts[k] == rest[k - 1];
        }
      }
    }
  }

  /** Python's `c.join(parts)`, the inverse of `Split`. */
  function Join(parts: seq<string>, c: char): (s: string)
    requires |parts| >= 1
  {
    if |parts| == 1 then parts[0] else parts[0] + [c] + Join(parts[1..], c)
  }

  /** Joining the pieces of a split gives back the string. */
  lemma {:induction false} JoinSplit(s: string, c: char)
    ensures Join(Split(s, c), c) == s
  {
    if |s| > 0 {
      var t := s[1..];
      var rest := Split(t, c);
      JoinSplit(t, c);
      assert s == [s[0]] + t;
      if s[0] == c {
        var parts := [""] + rest;
        assert parts[1..] == rest;
        assert Join(parts, c) == "" + [c] + Join(rest, c);
      } else if |rest| == 1 {
        assert Join(rest, c) == rest[0];
      } else {
        var parts := [[s[0]] + rest[0]] + rest[1..];
        assert parts[1..] == rest[1..];
        assert Join(parts, c) == [s[0]] + rest[0] + [c] + Join(rest[1..], c);
        assert Join(rest, c) == rest[0] + [c] + Join(rest[1..], c);
      }
    }
  }

  /** Splitting a string whose first piece is `p` (a run without `c`). */
  lemma {:induction false} SplitPrefix(p: string, t: string, c: char)
    requires c !in p
    ensures Split(p + t, c) == [p + Split(t, c)[0]] + Split(t, c)[1..]
  {
    var st := Split(t, c);
    if |p| == 0 {
      assert p + t == t;
      assert p + st[0] == st[0];
      assert st == [st[0]] + st[1..];
    } else {
      SplitPrefix(p[1..], t, c);
      assert (p + t)[1..] == p[1..] + t;
      assert (p + t)[0] == p[0] != c;
      assert [p[0]] + (p[1..] + st[0]) == p + st[0];
    }
  }

  /** Splitting a join of `c`-free pieces gives back the pieces. */
  lemma {:induction false} SplitJoin(parts: seq<string>, c: char)
    requires |parts| >= 1
    requires NoneContains(parts, c)
    ensures Split(Join(parts, c), c) == parts
  {
    if |parts| == 1 {
      SplitPrefix(parts[0], "", c);
      assert parts[0] + "" == parts[0];
    } else {
      var tail := Join(parts[1..], c);
      SplitJoin(parts[1..], c);
      SplitPrefix(parts[0], [c] + tail, c);
      assert ([c] + tail)[1..] == tail;
      assert Split([c] + tail, c) == [""] + parts[1..];
      assert parts[0] + "" == parts[0];
      assert parts[0] + [c] + tail == parts[0] + ([c] + tail);
    }
  }

  /** The part of `s` before its first `c` (all of `s` when there is none). */
  function BeforeFirst(s: string, c: char): (t: string)
    ensures |t| <= |s| && t == s[..|t|]
    ensures c !in t
    ensures |t| < |s| ==> s[|t|] == c
  {
    if |s| == 0 || s[0] == c then [] else [s[0]] + BeforeFirst(s[1..], c)
  }

  /** The part of `s` after its last `c` (all of `s` when there is none). */
  function AfterLast(s: string, c: char): (t: string)
    ensures |t| <= |s| && t == s[|s| - |t|..]
    ensures c !in t
    ensures |t| < |s| ==> s[|s| - |t| - 1] == c
  {
    if |s| == 0 || s[|s| - 1] == c then [] else AfterLast(s[..|s| - 1], c) + [s[|s| - 1]]
  }

  /** The three properties of `BeforeFirst` determine it. */
  lemma BeforeFirstUnique(s: string, c: char, t: string)
    requires |t| <= |s| && t == s[..|t|] && c !in t
    requires |t| < |s| ==> s[|t|] == c
    ensures t == BeforeFirst(s, c)
  {
  }

  /** The three properties of `AfterLast` determine it. */
  lemma AfterLastUnique(s: string, c: char, t: string)
    requires |t| <= |s| && t == s[|s| - |t|..] && c !in t
    requires |t| < |s| ==> s[|s| - |t| - 1] == c
    ensures t == AfterLast(s, c)
  {
  }

  /** Without a `c`, all of `s` comes before the first one. */
  lemma BeforeFirstWhole(s: string, c: char)
    requires c !in s
    ensures BeforeFirst(s, c) == s
  {
    assert s[..|s|] == s;
    BeforeFirstUnique(s, c, s);
  }

  /** The first piece of a split is the text before the first separator. */
  lemma {:induction false} SplitFirst(s: string, c: char)
    ensures Split(s, c)[0] == BeforeFirst(s, c)
  {
    if |s| > 0 && s[0] != c {
      SplitFirst(s[1..], c);
    }
  }

  /** Dropping the first character keeps the last piece, when a separator remains or was dropped. */
  lemma {:induction false} AfterLastTail(s: string, c: char)
    requires |s| > 0
    requires s[0] == c || c in s[1..]
    ensures AfterLast(s, c) == AfterLast(s[1..], c)
  {
    var t := s[1..];
    if |t| > 0 && t[|t| - 1] != c {
      var init := s[..|s| - 1];
      assert init[1..] == t[..|t| - 1];
      assert s[|s| - 1] == t[|t| - 1];
      assert c in t ==> c in init[1..] by {
        if c in t {
          var i :| 0 <= i < |t| && t[i] == c;
          assert init[1..][i] == c;
        }
      }
      AfterLastTail(init, c);
    }
  }

  /** Without a separator, a split has the one piece `s`, which is also the text after the last one. */
  lemma SplitNoSeparator(s: string, c: char)
    requires c !in s
    ensures Split(s, c) == [s]
    ensures AfterLast(s, c) == s
  {
    SplitCount(s, c);
    JoinSplit(s, c);
    AfterLastUnique(s, c, s);
  }

  /** Dropping the first character keeps the last piece of a split, when a separator remains or was dropped. */
  lemma SplitLastTail(s: string, c: char)
    requires |s| > 0
    requires s[0] == c || c in s[1..]
    ensures Split(s, c)[|Split(s, c)| - 1] == Split(s[1..], c)[|Split(s[1..], c)| - 1]
  {
    var rest := Split(s[1..], c);
    SplitCount(s[1..], c);
    if s[0] == c {
      assert Split(s, c) == [""] + rest;
    } else {
      assert Split(s, c) == [[s[0]] + rest[0]] + rest[1..];
    }
  }

  /** The last piece of a split is the text after the last separator. */
  lemma {:induction false} SplitLast(s: string, c: char)
    ensures Split(s, c)[|Split(s, c)| - 1] == AfterLast(s, c)
    decreases |s|, 1
  {
    if c !in s {
      SplitNoSeparator(s, c);
    } else {
      SplitLastWithSeparator(s, c);
    }
  }

  /** The inductive step of `SplitLast`. */
  lemma {:induction false} SplitLastWithSeparator(s: string, c: char)
    requires c in s
    ensures Split(s, c)[|Split(s, c)| - 1] == AfterLast(s, c)
    decreases |s|, 0
  {
    SeparatorAtHeadOrInTail(s, c);
    SplitLast(s[1..], c);
    SplitLastStep(s, c);
  }

  /** Dropping a first character that leaves the last piece alone on both sides. */
  lemma SplitLastStep(s: string, c: char)
    requires |s| > 0 && (s[0] == c || c in s[1..])
    requires Split(s[1..], c)[|Split(s[1..], c)| - 1] == AfterLast(s[1..], c)
    ensures Split(s, c)[|Split(s, c)| - 1] == AfterLast(s, c)
  {
    SplitLastTail(s, c);
    AfterLastTail(s, c);
  }

  /** A character of `s` is its first one or occurs in the rest. */
  lemma SeparatorAtHeadOrInTail(s: string, c: char)
    requires c in s
    ensures |s| > 0 && (s[0] == c || c in s[1..])
  {
    var i :| 0 <= i < |s| && s[i] == c;
    if i > 0 {
      assert s[1..][i - 1] == c;
    }
  }

  // ---------------------------------------------------------------------------
  // Removing a substring: Python's `s.replace(p, "")`

  /**
   * Python's `s.replace(p, "")` for a non-empty `p`: scanning left to right,
   * every non-overlapping occurrence of `p` is removed.
   */
  function RemoveAll(s: string, p: string): (r: string)
    requires |p| > 0
    ensures |r| <= |s|
    ensures Contains(s, p) ==> |r| < |s|
    ensures !Contains(s, p) ==> r == s
    decreases |s|
  {
    if |s| < |p| then
      s
    else if s[..|p|] == p then
      assert OccursAt(s, p, 0);
      RemoveAll(s[|p|..], p)
    else
      ContainsTail(s, p);
      [s[0]] + RemoveAll(s[1..], p)
  }

  /**
   * Removal is leftmost-first: when the first occurrence of `p` in `a + p + b`
   * starts right after `a`, the result keeps `a`, drops that occurrence and
   * carries on in `b`.
   */
  lemma RemoveAllLeftmost(a: string, p: string, b: string)
    requires |p| > 0
    requires forall i :: 0 <= i < |a| ==> !OccursAt(a + p + b, p, i)
    ensures RemoveAll(a + p + b, p) == a + RemoveAll(b, p)
  {
    var rest := p + b;
    assert a + p + b == a + rest;
    assert rest[|p|..] == b;
    RemoveAllKeepsPrefix(a, rest, p);
  }

  /** `RemoveAllLeftmost` with the occurrence and what follows it as one string `rest`. */
  lemma {:induction false} RemoveAllKeepsPrefix(a: string, rest: string, p: string)
    requires |p| > 0 && OccursAt(rest, p, 0)
    requires forall i :: 0 <= i < |a| ==> !OccursAt(a + rest, p, i)
    ensures RemoveAll(a + rest, p) == a + RemoveAll(rest[|p|..], p)
  {
    if |a| == 0 {
      assert a + rest == rest;
      assert rest[..|p|] == p;
    } else {
      HeadTailOfJoin(a, rest);
      NoOccurrenceInTail(a + rest, a[1..] + rest, p, |a|);
      RemoveAllKeepsPrefix(a[1..], rest, p);
      RemoveAllKeepsHead(a, rest, p, RemoveAll(rest[|p|..], p));
    }
  }

  /** The inductive step of `RemoveAllKeepsPrefix`: a first character that starts no occurrence is kept. */
  lemma RemoveAllKeepsHead(a: string, y: string, p: string, x: string)
    requires |p| > 0 && |a| > 0
    requires !OccursAt(a + y, p, 0)
    requires RemoveAll(a[1..] + y, p) == a[1..] + x
    ensures RemoveAll(a + y, p) == a + x
  {
    HeadTailOfJoin(a, y);
    RemoveAllSkip(a + y, p);
    HeadTailOfJoin(a, x);
  }

  /** Splitting the head off a non-empty `x` in `x + y`. */
  lemma HeadTailOfJoin(x: string, y: string)
    requires |x| > 0
    ensures (x + y)[0] == x[0] && (x + y)[1..] == x[1..] + y
    ensures [x[0]] + (x[1..] + y) == x + y
  {
  }

  /** Where `p` does not start at 0, removal keeps the first character. */
  lemma RemoveAllSkip(s: string, p: string)
    requires |p| > 0 && |s| > 0
    requires !OccursAt(s, p, 0)
    ensures RemoveAll(s, p) == [s[0]] + RemoveAll(s[1..], p)
  {
    if |s| >= |p| {
      assert s[..|p|] != p;
    }
  }

  /** No occurrence in `s` starts before `n`, so none in `s[1..]` starts before `n - 1`. */
  lemma NoOccurrenceInTail(s: string, t: string, p: string, n: nat)
    requires |s| > 0 && t == s[1..] && n <= |s|
    requires forall i :: 0 <= i < n ==> !OccursAt(s, p, i)
    ensures forall i :: 0 <= i < n - 1 ==> !OccursAt(t, p, i)
  {
    forall i | 0 <= i < n - 1
      ensures !OccursAt(t, p, i)
    {
      OccursAtTail(s, p, i);
    }
  }

  // ---------------------------------------------------------------------------
  // Decimal text: Python's `str(n)` for an int

  /** The digit character of `d`. */
  function DigitChar(d: nat): (ch: char)
    requires d < 10
    ensures '0' <= ch <= '9'
  {
    (('0' as int) + d) as char
  }

  predicate IsDigits(s: string)
  {
    forall i :: 0 <= i < |s| ==> '0' <= s[i] <= '9'
  }

  /** Python's `str(n)` for `n >= 0`: decimal digits, no leading zero. */
  function NatToDecimal(n: nat): (s: string)
    ensures |s| >= 1 && IsDigits(s)
    ensures |s| > 1 ==> s[0] != '0'
  {
    if n < 10 then [DigitChar(n)] else NatToDecimal(n / 10) + [DigitChar(n % 10)]
  }

  /** Python's `str(n)` for any int. */
  function IntToString(n: int): (s: string)
  {
    if n < 0 then "-" + NatToDecimal(-n) else NatToDecimal(n)
  }

  /** The value of a string of decimal digits: the inverse of `NatToDecimal`. */
  function ParseDecimal(s: string): nat
    requires IsDigits(s)
  {
    if s == [] then 0 else ParseDecimal(s[..|s| - 1]) * 10 + ((s[|s| - 1] as int) - ('0' as int))
  }

  /** The value of an optionally signed decimal: the inverse of `IntToString`. */
  function ParseInt(s: string): int
    requires (|s| > 0 && s[0] == '-') ==> IsDigits(s[1..])
    requires !(|s| > 0 && s[0] == '-') ==> IsDigits(s)
  {
    if |s| > 0 && s[0] == '-' then 0 - ParseDecimal(s[1..]) else ParseDecimal(s)
  }

  lemma {:induction false} DecimalRoundTrip(n: nat)
    ensures ParseDecimal(NatToDecimal(n)) == n
  {
    if n >= 10 {
      var s := NatToDecimal(n);
      assert s[..|s| - 1] == NatToDecimal(n / 10);
      DecimalRoundTrip(n / 10);
    }
  }

  /** `str(n)` loses nothing: it reads back as `n`. */
  lemma IntToStringRoundTrip(n: int)
    ensures var s := IntToString(n);
      && ((|s| > 0 && s[0] == '-') ==> IsDigits(s[1..]))
      && (!(|s| > 0 && s[0] == '-') ==> IsDigits(s))
      && ParseInt(s) == n
  {
    var s := IntToString(n);
    if n < 0 {
      assert s[1..] == NatToDecimal(-n);
      DecimalRoundTrip(-n);
    } else {
      DecimalRoundTrip(n);
    }
  }

  /** Different ints have different decimal texts. */
  lemma IntToStringInjective(m: int, n: int)
    requires m != n
    ensures IntToString(m) != IntToString(n)
  {
    IntToStringRoundTrip(m);
    IntToStringRoundTrip(n);
  }
}
