/** The Python `str` operations the core relies on, as pure functions over
    `seq<char>`, each with the law that makes it useful: `split` and `join`
    are inverse, `replace` is `join` of `split`, `strip` is idempotent and
    `str`/`int` on integers round-trip. */
module PyStrings {
  import opened Common

  predicate StartsWith(s: string, prefix: string)
  {
    |prefix| <= |s| && s[..|prefix|] == prefix
  }

  predicate EndsWith(s: string, suffix: string)
  {
    |suffix| <= |s| && s[|s| - |suffix|..] == suffix
  }

  /** `pat` occurs in `s` starting at index `i`. */
  predicate OccursAt(s: string, pat: string, i: nat)
  {
    i + |pat| <= |s| && s[i..i + |pat|] == pat
  }

  predicate Occurs(s: string, pat: string)
  {
    exists i: nat | i <= |s| :: OccursAt(s, pat, i)
  }

  // ---------------------------------------------------------------------------
  // str.split(sep), str.join, str.replace(pat, repl)
  // ---------------------------------------------------------------------------

  /** `s.split(sep)`: scans left to right and cuts at every non-overlapping
      occurrence of `sep`. */
  function SplitOn(s: string, sep: string): (parts: seq<string>)
    requires |sep| > 0
    ensures |parts| >= 1
    decreases |s|
  {
    if |s| < |sep| then [s]
    else if s[..|sep|] == sep then [""] + SplitOn(s[|sep|..], sep)
    else
      var rest := SplitOn(s[1..], sep);
      [[s[0]] + rest[0]] + rest[1..]
  }

  /** `sep.join(parts)` */
  function Join(parts: seq<string>, sep: string): string
  {
    if |parts| == 0 then ""
    else if |parts| == 1 then parts[0]
    else parts[0] + sep + Join(parts[1..], sep)
  }

  /** `s.replace(pat, repl)`: every non-overlapping occurrence of `pat`, found
      left to right, is replaced by `repl`. */
  function Replace(s: string, pat: string, repl: string): string
    requires |pat| > 0
    decreases |s|
  {
    if |s| < |pat| then s
    else if s[..|pat|] == pat then repl + Replace(s[|pat|..], pat, repl)
    else [s[0]] + Replace(s[1..], pat, repl)
  }

  lemma JoinPrepend(x: string, parts: seq<string>, sep: string)
    requires |parts| >= 1
    ensures Join([x + parts[0]] + parts[1..], sep) == x + Join(parts, sep)
  {
    if |parts| > 1 {
      assert ([x + parts[0]] + parts[1..])[1..] == parts[1..];
    }
  }

  /** Python's identity `s.replace(pat, repl) == repl.join(s.split(pat))`. */
  lemma {:induction false} ReplaceIsJoinOfSplit(s: string, pat: string, repl: string)
    requires |pat| > 0
    ensures Replace(s, pat, repl) == Join(SplitOn(s, pat), repl)
    decreases |s|
  {
    if |s| < |pat| {
    } else if s[..|pat|] == pat {
      ReplaceIsJoinOfSplit(s[|pat|..], pat, repl);
      var rest := SplitOn(s[|pat|..], pat);
      assert SplitOn(s, pat) == [""] + rest;
      assert ([""] + rest)[1..] == rest;
    } else {
      ReplaceIsJoinOfSplit(s[1..], pat, repl);
      var rest := SplitOn(s[1..], pat);
      JoinPrepend([s[0]], rest, repl);
    }
  }

  /** Replacing a string by itself changes nothing. */
  lemma {:induction false} ReplaceSelf(s: string, pat: string)
    requires |pat| > 0
    ensures Replace(s, pat, pat) == s
    decreases |s|
  {
    if |s| < |pat| {
    } else if s[..|pat|] == pat {
      ReplaceSelf(s[|pat|..], pat);
      assert s == s[..|pat|] + s[|pat|..];
    } else {
      ReplaceSelf(s[1..], pat);
      assert s == [s[0]] + s[1..];
    }
  }

  /** `sep.join(s.split(sep)) == s`. */
  lemma JoinSplitRoundTrip(s: string, sep: string)
    requires |sep| > 0
    ensures Join(SplitOn(s, sep), sep) == s
  {
    ReplaceIsJoinOfSplit(s, sep, sep);
    ReplaceSelf(s, sep);
  }

  /** A string in which `pat` does not occur is returned unchanged. */
  lemma {:induction false} ReplaceAbsent(s: string, pat: string, repl: string)
    requires |pat| > 0
    requires !Occurs(s, pat)
    ensures Replace(s, pat, repl) == s
    decreases |s|
  {
    if |s| < |pat| {
    } else {
      assert !OccursAt(s, pat, 0);
      assert s[..|pat|] != pat;
      if Occurs(s[1..], pat) {
        var i: nat :| i <= |s| - 1 && OccursAt(s[1..], pat, i);
        assert i + 1 + |pat| <= |s|;
        assert s[i + 1..i + 1 + |pat|] == s[1..][i..i + |pat|];
        assert OccursAt(s, pat, i + 1);
      }
      ReplaceAbsent(s[1..], pat, repl);
    }
  }

  /** Splitting on one character: no part contains it and there is one part
      more than there are separators. */
  lemma {:induction false} SplitOnChar(s: string, c: char)
    ensures |SplitOn(s, [c])| == multiset(s)[c] + 1
    ensures forall k :: 0 <= k < |SplitOn(s, [c])| ==> c !in SplitOn(s, [c])[k]
    decreases |s|
  {
    if |s| == 0 {
    } else {
      SplitOnChar(s[1..], c);
      assert s == [s[0]] + s[1..];
      assert multiset(s) == multiset{s[0]} + multiset(s[1..]);
      assert s[..1] == [s[0]];
    }
  }

  /** Cutting at the first separator: a part free of `c` followed by `c` is
      the first part. */
  lemma {:induction false} SplitOnCharConcat(a: string, c: char, b: string)
    requires c !in a
    ensures SplitOn(a + [c] + b, [c]) == [a] + SplitOn(b, [c])
    decreases |a|
  {
    if |a| == 0 {
      assert (a + [c] + b)[..1] == [c];
      assert (a + [c] + b)[1..] == b;
    } else {
      var s := a + [c] + b;
      assert s[..1] == [a[0]];
      assert s[1..] == a[1..] + [c] + b;
      SplitOnCharConcat(a[1..], c, b);
      assert a == [a[0]] + a[1..];
    }
  }

  /** The first part runs up to the first `c`, or to the end when there is
      none. */
  lemma {:induction false} SplitOnCharFirst(s: string, c: char)
    ensures var p := SplitOn(s, [c])[0];
            |p| <= |s| && p == s[..|p|] && c !in p && (|p| == |s| || s[|p|] == c)
    decreases |s|
  {
    if |s| >= 1 && s[..1] != [c] {
      SplitOnCharFirst(s[1..], c);
      var q := SplitOn(s[1..], [c])[0];
      assert SplitOn(s, [c])[0] == [s[0]] + q;
      assert s[..|q| + 1] == [s[0]] + s[1..][..|q|];
      assert s[0] != c by {
        assert s[..1][0] == s[0];
      }
    } else if |s| >= 1 {
      assert s[0] == c by {
        assert s[..1][0] == s[0];
      }
    }
  }

  /** A string free of `c` splits into itself. */
  lemma {:induction false} SplitOnCharAbsent(s: string, c: char)
    requires c !in s
    ensures SplitOn(s, [c]) == [s]
    decreases |s|
  {
    if |s| > 0 {
      assert s[..1] == [s[0]];
      SplitOnCharAbsent(s[1..], c);
      assert s == [s[0]] + s[1..];
    }
  }

  /** The part after the last separator: splitting `a + c + b` where `b` is
      free of `c` ends with `b`. */
  lemma {:induction false} SplitOnCharLast(a: string, c: char, b: string)
    requires c !in b
    ensures var parts := SplitOn(a + [c] + b, [c]); parts[|parts| - 1] == b
    decreases |a|
  {
    var s := a + [c] + b;
    if |a| == 0 {
      assert s[..1] == [c];
      assert s[1..] == b;
      SplitOnCharAbsent(b, c);
    } else {
      assert s[1..] == a[1..] + [c] + b;
      SplitOnCharLast(a[1..], c, b);
      SplitOnChar(s[1..], c);
      assert s[1..][|a| - 1] == c;
      assert s[..1] == [s[0]];
    }
  }

  // ---------------------------------------------------------------------------
  // str.strip(), str.rstrip(chars), str.lower()
  // ---------------------------------------------------------------------------

  /** The characters for which Python's `str.isspace()` holds. */
  predicate IsSpace(c: char)
  {
    c in {' ', '\t', '\n', '\r', '\U{000B}', '\U{000C}', '\U{001C}', '\U{001D}', '\U{001E}', '\U{001F}',
          '\U{0085}', '\U{00A0}', '\U{1680}', '\U{2000}', '\U{2001}', '\U{2002}', '\U{2003}', '\U{2004}',
          '\U{2005}', '\U{2006}', '\U{2007}', '\U{2008}', '\U{2009}', '\U{200A}', '\U{2028}', '\U{2029}',
          '\U{202F}', '\U{205F}', '\U{3000}'}
  }

  predicate AllSpace(s: string)
  {
    forall i :: 0 <= i < |s| ==> IsSpace(s[i])
  }

  /** No whitespace at either end. */
  predicate Stripped(s: string)
  {
    |s| == 0 || (!IsSpace(s[0]) && !IsSpace(s[|s| - 1]))
  }

  function LStrip(s: string): (r: string)
    ensures |r| <= |s| && r == s[|s| - |r|..]
    ensures AllSpace(s[..|s| - |r|])
    ensures |r| > 0 ==> !IsSpace(r[0])
  {
    if |s| > 0 && IsSpace(s[0]) then
      var tail := s[1..];
      var r := LStrip(tail);
      assert tail[|tail| - |r|..] == s[|s| - |r|..];
      assert forall k :: 0 <= k < |s| - |r| ==> IsSpace(s[k]) by {
        forall k | 0 <= k < |s| - |r|
          ensures IsSpace(s[k])
        {
          if k > 0 {
            assert s[k] == tail[..|tail| - |r|][k - 1];
          }
        }
      }
      r
    else s
  }

  function RStrip(s: string): (r: string)
    ensures |r| <= |s| && r == s[..|r|]
    ensures AllSpace(s[|r|..])
    ensures |r| > 0 ==> !IsSpace(r[|r| - 1])
  {
    if |s| > 0 && IsSpace(s[|s| - 1]) then
      var init := s[..|s| - 1];
      var r := RStrip(init);
      assert s[|r|..] == init[|r|..] + [s[|s| - 1]];
      r
    else s
  }

  /** `s.strip()` */
  function Strip(s: string): (r: string)
    ensures Stripped(r)
  {
    var l := LStrip(s);
    var r := RStrip(l);
    assert |r| > 0 ==> r[0] == l[0];
    r
  }

  /** `s.strip()` removes whitespace and nothing else: `s` is some
      whitespace, the result, and more whitespace. */
  lemma StripRemovesOnlySpace(s: string)
    ensures exists i, j :: 0 <= i <= j <= |s| && Strip(s) == s[i..j] && AllSpace(s[..i]) && AllSpace(s[j..])
  {
    var l := LStrip(s);
    var r := RStrip(l);
    var i := |s| - |l|;
    var j := i + |r|;
    assert l == s[i..];
    assert r == s[i..j];
    assert s[j..] == l[|r|..];
  }

  lemma StripIdempotent(s: string)
    ensures Strip(Strip(s)) == Strip(s)
  {
    var r := Strip(s);
    assert LStrip(r) == r;
    assert RStrip(r) == r;
  }

  /** `s.rstrip(c)` for a single character `c`. */
  function RStripChar(s: string, c: char): (r: string)
    ensures |r| <= |s| && r == s[..|r|]
    ensures forall i :: |r| <= i < |s| ==> s[i] == c
    ensures |r| == 0 || r[|r| - 1] != c
  {
    if |s| > 0 && s[|s| - 1] == c then RStripChar(s[..|s| - 1], c) else s
  }

  /** `c.lower()` restricted to the mappings that yield an ASCII letter: the
      ASCII capitals and KELVIN SIGN, whose lower case is `k`. */
  function LowerChar(c: char): char
  {
    if 'A' <= c <= 'Z' then (c as int + 32) as char
    else if c == '\U{212A}' then 'k'
    else c
  }

  /** The characters `LowerChar` changes. */
  predicate IsCapital(c: char)
  {
    'A' <= c <= 'Z' || c == '\U{212A}'
  }

  predicate NoCapital(s: string)
  {
    forall i :: 0 <= i < |s| ==> !IsCapital(s[i])
  }

  /** `s.lower()`: no capital survives, every other character stays where
      it was, and a capital becomes its lower-case letter; so a string
      without capitals is its own lower case. */
  function Lower(s: string): (r: string)
    ensures |r| == |s| && NoCapital(r)
    ensures forall i :: 0 <= i < |s| && !IsCapital(s[i]) ==> r[i] == s[i]
    ensures forall i :: 0 <= i < |s| && IsCapital(s[i]) ==> r[i] == LowerChar(s[i])
    ensures NoCapital(s) ==> r == s
  {
    seq(|s|, i requires 0 <= i < |s| => LowerChar(s[i]))
  }

  /** Lower-casing twice is lower-casing once. */
  lemma LowerIdempotent(s: string)
    ensures Lower(Lower(s)) == Lower(s)
  {
  }

  // ---------------------------------------------------------------------------
  // str(int) and int(str)
  // ---------------------------------------------------------------------------

  predicate IsDigit(c: char)
  {
    '0' <= c <= '9'
  }

  predicate AllDigits(s: string)
  {
    forall i :: 0 <= i < |s| ==> IsDigit(s[i])
  }

  function DigitChar(d: nat): (c: char)
    requires d < 10
    ensures IsDigit(c) && c as int - '0' as int == d
  {
    ('0' as int + d) as char
  }

  /** `str(n)` for `n >= 0`: decimal digits, no leading zero. */
  function NatToString(n: nat): (s: string)
    ensures |s| >= 1 && AllDigits(s)
    ensures s[0] == '0' ==> n == 0
  {
    if n < 10 then [DigitChar(n)] else NatToString(n / 10) + [DigitChar(n % 10)]
  }

  /** `str(i)` */
  function IntToString(i: int): (s: string)
    ensures |s| >= 1 && IsDigit(s[|s| - 1])
  {
    if i < 0 then "-" + NatToString(-i) else NatToString(i)
  }

  /** `str(i)` is made of digits and at most a leading minus sign. */
  lemma NumeralAvoids(i: int, c: char)
    requires !IsDigit(c) && c != '-'
    ensures c !in IntToString(i)
  {
    var s := IntToString(i);
    if i < 0 {
      assert s == "-" + NatToString(-i);
      assert forall k :: 1 <= k < |s| ==> s[k] == NatToString(-i)[k - 1];
    }
  }

  function DigitsValue(s: string): nat
    requires AllDigits(s)
  {
    if |s| == 0 then 0
    else DigitsValue(s[..|s| - 1]) * 10 + (s[|s| - 1] as int - '0' as int)
  }

  /** `int(s)` for an unsigned decimal numeral. */
  function ParseNat(s: string): Option<nat>
  {
    if |s| > 0 && AllDigits(s) then Some(DigitsValue(s)) else None
  }

  /** `int(s)`: an optional sign followed by decimal digits. */
  function ParseInt(s: string): Option<int>
  {
    if |s| > 0 && s[0] == '-' then
      match ParseNat(s[1..]) case Some(n) => Some(-(n as int)) case None => None
    else if |s| > 0 && s[0] == '+' then
      match ParseNat(s[1..]) case Some(n) => Some(n) case None => None
    else
      match ParseNat(s) case Some(n) => Some(n) case None => None
  }

  lemma {:induction false} ParseNatToString(n: nat)
    ensures ParseNat(NatToString(n)) == Some(n)
  {
    if n >= 10 {
      ParseNatToString(n / 10);
      var s := NatToString(n);
      assert s[..|s| - 1] == NatToString(n / 10);
      assert s[|s| - 1] == DigitChar(n % 10);
      assert DigitsValue(s) == DigitsValue(NatToString(n / 10)) * 10 + n % 10;
    }
  }

  /** `int(str(i)) == i` */
  lemma ParseIntToString(i: int)
    ensures ParseInt(IntToString(i)) == Some(i)
  {
    var s := IntToString(i);
    if i < 0 {
      var digits := NatToString(-i);
      ParseNatToString(-i);
      assert s[0] == '-' && s[1..] == digits by {
        assert s == "-" + digits;
      }
    } else {
      ParseNatToString(i);
      assert IsDigit(s[0]);
    }
  }
}
