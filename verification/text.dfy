/** Small optional-value wrapper shared by the other modules. */
module Outcomes {

  datatype Option<+T> = None | Some(value: T)
}

/**
 The string rules the scripts rely on: ASCII lower-casing, suffix tests,
 digit extraction and decimal parsing, Python's code-point string order,
 `str.replace`, and the POSIX `os.path` helpers `basename` and `join`.
 */
module Text {

  /** Concatenation regrouped; a lemma of its own so that callers can use it
      without the rest of their context in view. */
  lemma SeqAssoc(x: seq<string>, y: seq<string>, z: seq<string>)
    ensures x + y + z == x + (y + z)
  {
  }

  /** Python's `str.lower` restricted to ASCII letters. */
  function LowerChar(c: char): char {
    if 'A' <= c <= 'Z' then (c as int + 32) as char else c
  }

  function Lower(s: string): (r: string)
    ensures |r| == |s|
    ensures forall i :: 0 <= i < |s| ==> r[i] == LowerChar(s[i])
  {
    if |s| == 0 then [] else [LowerChar(s[0])] + Lower(s[1..])
  }

  /** `s.endswith(suffix)` */
  predicate EndsWith(s: string, suffix: string) {
    |suffix| <= |s| && s[|s| - |suffix|..] == suffix
  }

  /** `s.lower().endswith(suffix)` */
  predicate EndsWithIgnoringCase(s: string, suffix: string)
    ensures EndsWithIgnoringCase(s, suffix) <==> |suffix| <= |s| && Lower(s[|s| - |suffix|..]) == suffix
  {
    if |suffix| <= |s| then
      LowerSlice(s, |s| - |suffix|);
      EndsWith(Lower(s), suffix)
    else EndsWith(Lower(s), suffix)
  }

  lemma LowerIdempotent(s: string)
    ensures Lower(Lower(s)) == Lower(s)
  {
    assert forall i :: 0 <= i < |s| ==> Lower(Lower(s))[i] == Lower(s)[i];
  }

  lemma LowerSlice(s: string, k: int)
    requires 0 <= k <= |s|
    ensures Lower(s[k..]) == Lower(s)[k..]
  {
  }

  lemma LowerAppend(a: string, b: string)
    ensures Lower(a + b) == Lower(a) + Lower(b)
  {
    var l := Lower(a + b);
    forall i | 0 <= i < |a + b| ensures l[i] == (Lower(a) + Lower(b))[i] {
      if i < |a| {
        assert (a + b)[i] == a[i];
      } else {
        assert (a + b)[i] == b[i - |a|];
      }
    }
  }

  /** The lower-cased `stem + ext` ends with the lower-cased `ext`. */
  lemma LowerEndsWith(stem: string, ext: string)
    ensures EndsWith(Lower(stem + ext), Lower(ext))
  {
    LowerAppend(stem, ext);
    var l := Lower(stem + ext);
    assert l[|l| - |ext|..] == Lower(ext);
  }

  /** A four-character suffix whose second character differs from the one three from the end is ruled out. */
  lemma ThreeFromEndRulesOut(l: string, suffix: string)
    requires |suffix| == 4 && |l| >= 3 && l[|l| - 3] != suffix[1]
    ensures !EndsWith(l, suffix)
  {
    if |l| >= 4 {
      assert l[|l| - 4..][1] == l[|l| - 3];
    }
  }

  // ---------------------------------------------------------------------
  // Digits

  /** `str.isdigit`, restricted to the ASCII digits that `int()` accepts. */
  predicate IsDigit(c: char) {
    '0' <= c <= '9'
  }

  predicate AllDigits(s: string) {
    forall i :: 0 <= i < |s| ==> IsDigit(s[i])
  }

  /** `any(c.isdigit() for c in s)` */
  predicate HasDigit(s: string) {
    exists i :: 0 <= i < |s| && IsDigit(s[i])
  }

  /** `''.join(filter(str.isdigit, s))`: the digits of `s`, left to right. */
  function Digits(s: string): (d: string)
    ensures AllDigits(d)
    ensures |d| <= |s|
  {
    if |s| == 0 then []
    else (if IsDigit(s[0]) then [s[0]] else []) + Digits(s[1..])
  }

  lemma {:induction false} DigitsAppend(a: string, b: string)
    ensures Digits(a + b) == Digits(a) + Digits(b)
    decreases |a|
  {
    if |a| == 0 {
      assert a + b == b;
    } else {
      var head := if IsDigit(a[0]) then [a[0]] else [];
      assert (a + b)[0] == a[0];
      assert (a + b)[1..] == a[1..] + b;
      assert Digits(a + b) == head + Digits(a[1..] + b);
      DigitsAppend(a[1..], b);
      assert head + (Digits(a[1..]) + Digits(b)) == (head + Digits(a[1..])) + Digits(b);
    }
  }

  /** Digits are kept exactly when there is one: `Digits(s)` is empty iff `s` has no digit. */
  lemma {:induction false} DigitsEmptyIff(s: string)
    ensures |Digits(s)| > 0 <==> HasDigit(s)
    decreases |s|
  {
    if |s| > 0 {
      DigitsEmptyIff(s[1..]);
      if HasDigit(s[1..]) {
        var i :| 0 <= i < |s[1..]| && IsDigit(s[1..][i]);
        assert IsDigit(s[i + 1]);
      }
      if HasDigit(s) && !IsDigit(s[0]) {
        var i :| 0 <= i < |s| && IsDigit(s[i]);
        assert IsDigit(s[1..][i - 1]);
      }
    }
  }

  /** A digit-free string contributes no digits. */
  lemma {:induction false} DigitsOfDigitFree(s: string)
    requires !HasDigit(s)
    ensures Digits(s) == []
  {
    DigitsEmptyIff(s);
  }

  /** An all-digit string is its own digit string. */
  lemma {:induction false} DigitsOfAllDigits(s: string)
    requires AllDigits(s)
    ensures Digits(s) == s
    decreases |s|
  {
    if |s| > 0 {
      DigitsOfAllDigits(s[1..]);
    }
  }

  function DigitValue(c: char): (v: nat)
    requires IsDigit(c)
    ensures v < 10
  {
    c as int - '0' as int
  }

  function Pow10(n: nat): (p: nat)
    ensures p >= 1
  {
    if n == 0 then 1 else 10 * Pow10(n - 1)
  }

  /** `int(d)` for a non-empty string of ASCII digits; leading zeros are allowed. */
  function DecimalValue(d: string): (r: nat)
    requires AllDigits(d)
    ensures r < Pow10(|d|)
    ensures |d| == 1 ==> r == DigitValue(d[0])
  {
    if |d| == 0 then 0
    else
      var high := DecimalValue(d[..|d| - 1]);
      assert high * 10 <= (Pow10(|d| - 1) - 1) * 10;
      high * 10 + DigitValue(d[|d| - 1])
  }

  lemma AllDigitsAppend(a: string, b: string)
    requires AllDigits(a) && AllDigits(b)
    ensures AllDigits(a + b)
  {
    forall i | 0 <= i < |a + b|
      ensures IsDigit((a + b)[i])
    {
      if i < |a| { assert (a + b)[i] == a[i]; } else { assert (a + b)[i] == b[i - |a|]; }
    }
  }

  /** Reading `a + b` is reading `a` shifted past the digits of `b`, plus `b`. */
  lemma {:induction false} DecimalValueAppend(a: string, b: string)
    requires AllDigits(a) && AllDigits(b)
    ensures AllDigits(a + b)
    ensures DecimalValue(a + b) == DecimalValue(a) * Pow10(|b|) + DecimalValue(b)
    decreases |b|
  {
    AllDigitsAppend(a, b);
    if |b| == 0 {
      assert a + b == a;
    } else {
      var b' := b[..|b| - 1];
      var last := DigitValue(b[|b| - 1]);
      assert (a + b)[..|a + b| - 1] == a + b';
      assert (a + b)[|a + b| - 1] == b[|b| - 1];
      DecimalValueAppend(a, b');
      ShiftArith(DecimalValue(a), Pow10(|b'|), DecimalValue(b'), last);
    }
  }

  lemma ShiftArith(x: int, p: int, y: int, last: int)
    ensures (x * p + y) * 10 + last == x * (p * 10) + (y * 10 + last)
  {
  }

  /** Leading zeros do not change the value: `int("007") == int("7")`. */
  lemma LeadingZero(d: string)
    requires AllDigits(d)
    ensures AllDigits("0" + d)
    ensures DecimalValue("0" + d) == DecimalValue(d)
  {
    DecimalValueAppend("0", d);
    assert "0"[..0] == [];
  }

  // ---------------------------------------------------------------------
  // Python's string order

  /**
   Python's `a < b` on `str`: lexicographic by code point, a proper
   prefix sorting first.
   */
  predicate LexLess(a: string, b: string)
    ensures a < b ==> LexLess(a, b)
    ensures LexLess(a, b) ==> !(b <= a)
    decreases |a|
  {
    if |a| == 0 then |b| > 0
    else if |b| == 0 then false
    else if a[0] != b[0] then a[0] < b[0]
    else LexLess(a[1..], b[1..])
  }

  lemma {:induction false} LexIrreflexive(a: string)
    ensures !LexLess(a, a)
    decreases |a|
  {
    if |a| > 0 {
      LexIrreflexive(a[1..]);
    }
  }

  lemma {:induction false} LexTransitive(a: string, b: string, c: string)
    requires LexLess(a, b) && LexLess(b, c)
    ensures LexLess(a, c)
    decreases |a|
  {
    if |a| > 0 && a[0] == b[0] && b[0] == c[0] {
      LexTransitive(a[1..], b[1..], c[1..]);
    }
  }

  /** Two different strings are always ordered one way or the other. */
  lemma {:induction false} LexTotal(a: string, b: string)
    requires a != b
    ensures LexLess(a, b) || LexLess(b, a)
    decreases |a|
  {
    if |a| > 0 && |b| > 0 && a[0] == b[0] {
      assert a == [a[0]] + a[1..] && b == [b[0]] + b[1..];
      LexTotal(a[1..], b[1..]);
    }
  }

  // ---------------------------------------------------------------------
  // str.replace

  /** `pat` occurs in `s` starting at index `i`. */
  predicate OccursAt(s: string, pat: string, i: int) {
    0 <= i && i + |pat| <= |s| && s[i..i + |pat|] == pat
  }

  predicate Occurs(s: string, pat: string) {
    exists i :: 0 <= i <= |s| && OccursAt(s, pat, i)
  }

  /**
   `s.replace(pat, rep)` for a non-empty `pat`: occurrences are found left to
   right and replaced without overlap, and the text produced is not rescanned.
   */
  function Replace(s: string, pat: string, rep: string): (r: string)
    requires |pat| > 0
    ensures |rep| >= |pat| ==> |r| >= |s|
    decreases |s|
  {
    if |s| < |pat| then s
    else if s[..|pat|] == pat then rep + Replace(s[|pat|..], pat, rep)
    else [s[0]] + Replace(s[1..], pat, rep)
  }

  lemma OccursShift(c: char, s: string, pat: string, i: int)
    requires OccursAt(s, pat, i)
    ensures OccursAt([c] + s, pat, i + 1)
  {
    assert ([c] + s)[i + 1..i + 1 + |pat|] == s[i..i + |pat|];
  }

  lemma OccursUnshift(s: string, pat: string, i: int)
    requires |s| > 0 && i > 0 && OccursAt(s, pat, i)
    ensures OccursAt(s[1..], pat, i - 1)
  {
    assert s[1..][i - 1..i - 1 + |pat|] == s[i..i + |pat|];
  }

  /** Without an occurrence of `pat`, `s.replace(pat, rep)` is `s` itself. */
  lemma {:induction false} ReplaceAbsent(s: string, pat: string, rep: string)
    requires |pat| > 0
    requires !Occurs(s, pat)
    ensures Replace(s, pat, rep) == s
    decreases |s|
  {
    if |s| >= |pat| {
      assert !OccursAt(s, pat, 0);
      assert [s[0]] + s[1..] == s;
      forall i | 0 <= i <= |s[1..]| && OccursAt(s[1..], pat, i)
        ensures OccursAt(s, pat, i + 1)
      {
        OccursShift(s[0], s[1..], pat, i);
      }
      ReplaceAbsent(s[1..], pat, rep);
    }
  }

  /**
   The first occurrence is replaced and scanning resumes after it: when `pat`
   does not occur in `a + pat` before its final copy, `Replace(a + pat + b)`
   is `a + rep + Replace(b)`. With `ReplaceAbsent` this pins `Replace` down.
   */
  lemma {:induction false} ReplaceFirst(a: string, pat: string, b: string, rep: string)
    requires |pat| > 0
    requires !Occurs(a + pat[..|pat| - 1], pat)
    ensures Replace(a + pat + b, pat, rep) == a + rep + Replace(b, pat, rep)
    decreases |a|
  {
    var s := a + pat + b;
    if |a| == 0 {
      assert s == pat + b;
      assert s[..|pat|] == pat;
      assert s[|pat|..] == b;
    } else {
      var rest := a[1..] + pat + b;
      NoEarlierOccurrence(a, pat, b);
      ReplaceSkip(s, pat, rep);
      assert s[0] == a[0] && s[1..] == rest;
      ReplaceFirst(a[1..], pat, b, rep);
      assert [a[0]] + (a[1..] + rep + Replace(b, pat, rep)) == a + rep + Replace(b, pat, rep);
    }
  }

  /** Without a match at the front, the first character is kept and scanning moves on by one. */
  lemma ReplaceSkip(s: string, pat: string, rep: string)
    requires 0 < |pat| <= |s| && s[..|pat|] != pat
    ensures Replace(s, pat, rep) == [s[0]] + Replace(s[1..], pat, rep)
  {
  }

  /** The step of `ReplaceFirst`: no match at the front, and none earlier in the rest. */
  lemma NoEarlierOccurrence(a: string, pat: string, b: string)
    requires |pat| > 0 && |a| > 0
    requires !Occurs(a + pat[..|pat| - 1], pat)
    ensures (a + pat + b)[..|pat|] != pat
    ensures !Occurs(a[1..] + pat[..|pat| - 1], pat)
  {
    var s := a + pat + b;
    var a1 := a + pat[..|pat| - 1];
    var t := a[1..] + pat[..|pat| - 1];
    assert s[..|pat|] == a1[..|pat|];
    assert !OccursAt(a1, pat, 0);
    assert [a[0]] + t == a1;
    forall i | 0 <= i <= |t| && OccursAt(t, pat, i)
      ensures OccursAt(a1, pat, i + 1)
    {
      OccursShift(a[0], t, pat, i);
    }
  }

  /**
   Replacing with text at least as long never shortens the string, and it
   lengthens it exactly when something is replaced by longer text.
   */
  lemma {:induction false} ReplaceLength(s: string, pat: string, rep: string)
    requires |pat| > 0 && |rep| >= |pat|
    ensures |Replace(s, pat, rep)| >= |s|
    ensures |rep| > |pat| && Occurs(s, pat) ==> |Replace(s, pat, rep)| > |s|
    decreases |s|
  {
    if |s| >= |pat| {
      if s[..|pat|] == pat {
        ReplaceLength(s[|pat|..], pat, rep);
      } else {
        ReplaceLength(s[1..], pat, rep);
        forall i | 0 <= i <= |s| && OccursAt(s, pat, i)
          ensures OccursAt(s[1..], pat, i - 1)
        {
          assert i != 0;
          OccursUnshift(s, pat, i);
        }
      }
    } else {
      assert forall i :: 0 <= i <= |s| ==> !OccursAt(s, pat, i);
    }
  }

  /** If some character of `pat` is missing from `s`, `pat` cannot occur in `s`. */
  lemma MissingCharRulesOut(s: string, pat: string, k: nat)
    requires k < |pat| && pat[k] !in s
    ensures !Occurs(s, pat)
  {
    forall i | 0 <= i <= |s|
      ensures !OccursAt(s, pat, i)
    {
      if i + |pat| <= |s| {
        assert s[i..i + |pat|][k] == s[i + k];
        assert s[i + k] in s;
      }
    }
  }

  // ---------------------------------------------------------------------
  // os.path (POSIX)

  /** `os.path.basename(p)`: everything after the last `/`. */
  function Basename(p: string): (b: string)
    ensures '/' !in b
    ensures |b| <= |p| && b == p[|p| - |b|..]
    decreases |p|
  {
    if |p| == 0 then []
    else if p[|p| - 1] == '/' then []
    else Basename(p[..|p| - 1]) + [p[|p| - 1]]
  }

  /** The basename is the longest slash-free tail: when it is shorter than the path, a `/` precedes it. */
  lemma {:induction false} BasenameStopsAtSlash(p: string)
    ensures var b := Basename(p); |b| < |p| ==> p[|p| - |b| - 1] == '/'
    decreases |p|
  {
    if |p| > 0 && p[|p| - 1] != '/' {
      var init := p[..|p| - 1];
      BasenameStopsAtSlash(init);
      assert Basename(p) == Basename(init) + [p[|p| - 1]];
    }
  }

  /** The basename of `dir + "/" + name` is `name` when `name` holds no `/`. */
  lemma BasenameAfterSlash(dir: string, name: string)
    requires '/' !in name
    ensures Basename(dir + "/" + name) == name
  {
    var pre := dir + "/";
    assert pre + name == dir + "/" + name;
    BasenameAfterSeparator(pre, name);
  }

  lemma {:induction false} BasenameAfterSeparator(pre: string, name: string)
    requires |pre| > 0 && pre[|pre| - 1] == '/' && '/' !in name
    ensures Basename(pre + name) == name
    decreases |name|
  {
    var p := pre + name;
    if |name| == 0 {
      assert p == pre;
    } else {
      var init, last := name[..|name| - 1], name[|name| - 1];
      assert name == init + [last];
      assert p == (pre + init) + [last];
      assert p[..|p| - 1] == pre + init;
      assert '/' !in init by {
        assert forall c :: c in init ==> c in name;
      }
      BasenameAfterSeparator(pre, init);
    }
  }

  /** Joining a slash-free name to a directory and taking the basename gives the name back. */
  lemma JoinThenBasename(dir: string, name: string)
    requires '/' !in name
    ensures Basename(Join(dir, name)) == name
  {
    if |dir| == 0 {
      assert Join(dir, name) == name;
      BasenameStopsAtSlash(name);
    } else if dir[|dir| - 1] == '/' {
      BasenameAfterSeparator(dir, name);
    } else {
      BasenameAfterSlash(dir, name);
    }
  }

  /** `os.path.join(dir, name)` for one component. */
  function Join(dir: string, name: string): (r: string)
    ensures EndsWith(r, name)
    ensures (|name| == 0 || name[0] != '/') ==> dir <= r
  {
    if |name| > 0 && name[0] == '/' then name
    else if |dir| == 0 || dir[|dir| - 1] == '/' then dir + name
    else dir + "/" + name
  }
}
