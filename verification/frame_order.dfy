/**
 The sequence order of `process_exr_sequence`: each file name gets a key,
 the number formed by all of its digits, or the name itself when it has
 none, and the names are put in key order by Python's stable sort. A list
 that mixes the two kinds of key makes Python compare an `int` with a `str`,
 which raises; `SortByKey` reports that as `None`.
 */
module FrameOrder {
  import opened Outcomes
  import opened Text

  datatype SortKey = Number(n: nat) | Name(s: string)

  /** The sort key of a file name. */
  function Key(name: string): (k: SortKey)
    ensures k.Number? <==> HasDigit(name)
    ensures k.Name? ==> k.s == name
  {
    if HasDigit(name) then Number(DecimalValue(Digits(name))) else Name(name)
  }

  /**
   A frame name `prefix + digits + suffix` whose prefix and suffix carry no
   digit is keyed by the value of its digit run, leading zeros ignored.
   */
  lemma FrameNameKey(prefix: string, digits: string, suffix: string)
    requires !HasDigit(prefix) && !HasDigit(suffix)
    requires |digits| > 0 && AllDigits(digits)
    ensures Key(prefix + digits + suffix) == Number(DecimalValue(digits))
  {
    var front := prefix + digits;
    var name := front + suffix;
    assert Digits(front) == digits by {
      DigitsAppend(prefix, digits);
      DigitsOfDigitFree(prefix);
      DigitsOfAllDigits(digits);
      assert [] + digits == digits;
    }
    assert Digits(name) == digits by {
      DigitsAppend(front, suffix);
      DigitsOfDigitFree(suffix);
      assert digits + [] == digits;
    }
    DigitsEmptyIff(name);
  }

  /** Two digit runs separated by digit-free text contribute their digits in order. */
  lemma {:induction false} TwoDigitRuns(a: string, d1: string, b: string, d2: string, c: string)
    requires !HasDigit(a) && !HasDigit(b) && !HasDigit(c)
    requires AllDigits(d1) && AllDigits(d2)
    ensures Digits(a + d1 + b + d2 + c) == d1 + d2
  {
    DigitsOfDigitFree(a);
    DigitsOfDigitFree(b);
    DigitsOfDigitFree(c);
    DigitsOfAllDigits(d1);
    DigitsOfAllDigits(d2);
    var x1 := a + d1;
    DigitsAppend(a, d1);
    assert Digits(x1) == d1 by {
      assert [] + d1 == d1;
    }
    var x2 := x1 + b;
    DigitsAppend(x1, b);
    assert Digits(x2) == d1 by {
      assert d1 + [] == d1;
    }
    var x3 := x2 + d2;
    DigitsAppend(x2, d2);
    DigitsAppend(x3, c);
    assert d1 + d2 + [] == d1 + d2;
  }

  lemma SampleDigitFreeParts()
    ensures !HasDigit("a") && !HasDigit("_b") && !HasDigit(".exr")
  {
    assert forall c :: c in "a" + "_b" + ".exr" ==> !IsDigit(c);
  }

  lemma SampleDigits()
    ensures Digits("a01_b2.exr") == "012"
  {
    assert "a01_b2.exr" == "a" + "01" + "_b" + "2" + ".exr";
    SampleDigitFreeParts();
    TwoDigitRuns("a", "01", "_b", "2", ".exr");
    assert "01" + "2" == "012";
  }

  lemma SampleValue()
    ensures DecimalValue("012") == 12
  {
    LeadingZero("12");
    assert "0" + "12" == "012";
    assert "12"[..1] == "1";
    assert "1"[..0] == "";
  }

  /** All the digits count, wherever they stand: `a01_b2.exr` has key 12. */
  lemma ScatteredDigitsKey()
    ensures Key("a01_b2.exr") == Number(12)
  {
    SampleDigits();
    SampleValue();
    DigitsEmptyIff("a01_b2.exr");
  }

  /**
   The order `sort` uses on keys: numbers by value, names by Python's string
   order. Python cannot compare a number with a name; the cross-kind arms
   only make the relation total and are never consulted by `SortByKey`.
   */
  predicate KeyLess(a: SortKey, b: SortKey) {
    match (a, b)
    case (Number(x), Number(y)) => x < y
    case (Name(x), Name(y)) => LexLess(x, y)
    case (Number(_), Name(_)) => true
    case (Name(_), Number(_)) => false
  }

  lemma KeyLessTransitive(a: SortKey, b: SortKey, c: SortKey)
    requires KeyLess(a, b) && KeyLess(b, c)
    ensures KeyLess(a, c)
  {
    if a.Name? && b.Name? && c.Name? {
      LexTransitive(a.s, b.s, c.s);
    }
  }

  lemma KeyLessIrreflexive(a: SortKey)
    ensures !KeyLess(a, a)
  {
    if a.Name? {
      LexIrreflexive(a.s);
    }
  }

  /** No later name has a smaller key than an earlier one. */
  ghost predicate Sorted(s: seq<string>, key: string -> SortKey) {
    forall i, j :: 0 <= i < j < |s| ==> !KeyLess(key(s[j]), key(s[i]))
  }

  /** The names of `s` whose key is `k`, in the order of `s`. */
  function KeyFilter(s: seq<string>, key: string -> SortKey, k: SortKey): seq<string> {
    if |s| == 0 then []
    else (if key(s[0]) == k then [s[0]] else []) + KeyFilter(s[1..], key, k)
  }

  lemma {:induction false} KeyFilterAppend(a: seq<string>, b: seq<string>, key: string -> SortKey, k: SortKey)
    ensures KeyFilter(a + b, key, k) == KeyFilter(a, key, k) + KeyFilter(b, key, k)
    decreases |a|
  {
    if |a| == 0 {
      assert a + b == b;
    } else {
      var head := if key(a[0]) == k then [a[0]] else [];
      assert (a + b)[0] == a[0];
      assert (a + b)[1..] == a[1..] + b;
      assert KeyFilter(a + b, key, k) == head + KeyFilter(a[1..] + b, key, k);
      KeyFilterAppend(a[1..], b, key, k);
      assert head + (KeyFilter(a[1..], key, k) + KeyFilter(b, key, k)) ==
             (head + KeyFilter(a[1..], key, k)) + KeyFilter(b, key, k);
    }
  }

  lemma {:induction false} KeyFilterNone(s: seq<string>, key: string -> SortKey, k: SortKey)
    requires forall i :: 0 <= i < |s| ==> key(s[i]) != k
    ensures KeyFilter(s, key, k) == []
    decreases |s|
  {
    if |s| > 0 {
      KeyFilterNone(s[1..], key, k);
    }
  }

  /** Puts `x` after every name whose key is not greater than its own. */
  function Insert(x: string, s: seq<string>, key: string -> SortKey): (r: seq<string>)
    ensures multiset(r) == multiset(s) + multiset{x}
  {
    if |s| == 0 then [x]
    else if KeyLess(key(x), key(s[0])) then [x] + s
    else
      assert s == [s[0]] + s[1..];
      [s[0]] + Insert(x, s[1..], key)
  }

  /** A name whose key is not above any key of a sorted list can head it. */
  lemma ConsSorted(h: string, t: seq<string>, key: string -> SortKey)
    requires Sorted(t, key)
    requires forall j :: 0 <= j < |t| ==> !KeyLess(key(t[j]), key(h))
    ensures Sorted([h] + t, key)
  {
    var r := [h] + t;
    forall i, j | 0 <= i < j < |r|
      ensures !KeyLess(key(r[j]), key(r[i]))
    {
      if i == 0 {
        assert r[j] == t[j - 1];
      } else {
        assert r[i] == t[i - 1] && r[j] == t[j - 1];
      }
    }
  }

  lemma {:induction false} InsertSorted(x: string, s: seq<string>, key: string -> SortKey)
    requires Sorted(s, key)
    ensures Sorted(Insert(x, s, key), key)
    decreases |s|
  {
    if |s| > 0 {
      if KeyLess(key(x), key(s[0])) {
        forall j | 0 <= j < |s|
          ensures !KeyLess(key(s[j]), key(x))
        {
          if KeyLess(key(s[j]), key(x)) {
            KeyLessTransitive(key(s[j]), key(x), key(s[0]));
            KeyLessIrreflexive(key(s[0]));
          }
        }
        ConsSorted(x, s, key);
      } else {
        var t := Insert(x, s[1..], key);
        SortedTail(s, key);
        InsertSorted(x, s[1..], key);
        forall j | 0 <= j < |t|
          ensures !KeyLess(key(t[j]), key(s[0]))
        {
          assert t[j] in multiset(t);
          if t[j] != x {
            assert t[j] in multiset(s[1..]);
            var m :| 0 <= m < |s[1..]| && s[1..][m] == t[j];
            assert s[m + 1] == t[j];
          }
        }
        ConsSorted(s[0], t, key);
      }
    }
  }

  lemma SortedTail(s: seq<string>, key: string -> SortKey)
    requires |s| > 0 && Sorted(s, key)
    ensures Sorted(s[1..], key)
  {
    forall i, j | 0 <= i < j < |s[1..]|
      ensures !KeyLess(key(s[1..][j]), key(s[1..][i]))
    {
      assert s[1..][j] == s[j + 1] && s[1..][i] == s[i + 1];
    }
  }

  /** In a sorted list headed by a key greater than `k`, no name has key `k`. */
  lemma AboveKeyFilter(s: seq<string>, key: string -> SortKey, k: SortKey)
    requires |s| > 0 && Sorted(s, key) && KeyLess(k, key(s[0]))
    ensures KeyFilter(s, key, k) == []
  {
    forall i | 0 <= i < |s|
      ensures key(s[i]) != k
    {
      KeyLessIrreflexive(key(s[0]));
      if i > 0 {
        assert !KeyLess(key(s[i]), key(s[0]));
      }
    }
    KeyFilterNone(s, key, k);
  }

  lemma KeyFilterSingle(x: string, key: string -> SortKey, k: SortKey)
    ensures KeyFilter([x], key, k) == if key(x) == k then [x] else []
  {
    assert [x][1..] == [];
  }

  /** Inserting in front of larger keys adds `x` at the end of its key's names. */
  lemma InsertFrontKeyFilter(x: string, s: seq<string>, key: string -> SortKey, k: SortKey)
    requires |s| > 0 && Sorted(s, key) && KeyLess(key(x), key(s[0]))
    ensures KeyFilter(Insert(x, s, key), key, k) == KeyFilter(s, key, k) + (if key(x) == k then [x] else [])
  {
    InsertFront(x, s, key);
    KeyFilterAppend([x], s, key, k);
    KeyFilterSingle(x, key, k);
    if key(x) == k {
      AboveKeyFilter(s, key, k);
      assert [x] + [] == [] + [x];
    } else {
      assert [] + KeyFilter(s, key, k) == KeyFilter(s, key, k) + [];
    }
  }

  /** Names with key `k` keep their order; `x` joins them at the end. */
  lemma {:induction false} InsertKeyFilter(x: string, s: seq<string>, key: string -> SortKey, k: SortKey)
    requires Sorted(s, key)
    ensures KeyFilter(Insert(x, s, key), key, k) == KeyFilter(s, key, k) + (if key(x) == k then [x] else [])
    decreases |s|
  {
    var tail := if key(x) == k then [x] else [];
    if |s| == 0 {
      KeyFilterSingle(x, key, k);
      assert KeyFilter(s, key, k) + tail == tail;
    } else if KeyLess(key(x), key(s[0])) {
      InsertFrontKeyFilter(x, s, key, k);
    } else {
      SortedTail(s, key);
      InsertKeyFilter(x, s[1..], key, k);
      InsertAfterKeyFilter(x, s, key, k);
    }
  }

  lemma KeyFilterCons(y: string, t: seq<string>, key: string -> SortKey, k: SortKey)
    ensures KeyFilter([y] + t, key, k) == (if key(y) == k then [y] else []) + KeyFilter(t, key, k)
  {
    assert ([y] + t)[0] == y && ([y] + t)[1..] == t;
  }

  /** Inserting past the head keeps the head's filter entry in front. */
  lemma InsertAfterKeyFilter(x: string, s: seq<string>, key: string -> SortKey, k: SortKey)
    requires |s| > 0 && !KeyLess(key(x), key(s[0]))
    requires KeyFilter(Insert(x, s[1..], key), key, k) ==
             KeyFilter(s[1..], key, k) + (if key(x) == k then [x] else [])
    ensures KeyFilter(Insert(x, s, key), key, k) == KeyFilter(s, key, k) + (if key(x) == k then [x] else [])
  {
    var tail := if key(x) == k then [x] else [];
    var t := Insert(x, s[1..], key);
    var head := if key(s[0]) == k then [s[0]] else [];
    var rest := KeyFilter(s[1..], key, k);
    InsertAfter(x, s, key);
    KeyFilterCons(s[0], t, key, k);
    assert s == [s[0]] + s[1..];
    KeyFilterCons(s[0], s[1..], key, k);
    SeqAssoc(head, rest, tail);
  }

  /** Insertion sort with insertion after equal keys, so it is stable. */
  function InsertionSort(s: seq<string>, key: string -> SortKey): (r: seq<string>)
    ensures multiset(r) == multiset(s)
  {
    if |s| == 0 then []
    else
      assert s == s[..|s| - 1] + [s[|s| - 1]];
      Insert(s[|s| - 1], InsertionSort(s[..|s| - 1], key), key)
  }

  lemma {:induction false} InsertionSortSorted(s: seq<string>, key: string -> SortKey)
    ensures Sorted(InsertionSort(s, key), key)
    decreases |s|
  {
    if |s| > 0 {
      InsertionSortSorted(s[..|s| - 1], key);
      InsertSorted(s[|s| - 1], InsertionSort(s[..|s| - 1], key), key);
    }
  }

  /** Stability: for every key, the names carrying it come out in input order. */
  lemma {:induction false} InsertionSortStable(s: seq<string>, key: string -> SortKey, k: SortKey)
    ensures KeyFilter(InsertionSort(s, key), key, k) == KeyFilter(s, key, k)
    decreases |s|
  {
    if |s| > 0 {
      var init, last := s[..|s| - 1], s[|s| - 1];
      var sortedInit := InsertionSort(init, key);
      var tail := if key(last) == k then [last] else [];
      assert s == init + [last];
      assert KeyFilter([last], key, k) == tail by {
        assert KeyFilter([last], key, k) == tail + KeyFilter([last][1..], key, k);
      }
      calc {
        KeyFilter(InsertionSort(s, key), key, k);
        KeyFilter(Insert(last, sortedInit, key), key, k);
        { InsertionSortSorted(init, key); InsertKeyFilter(last, sortedInit, key, k); }
        KeyFilter(sortedInit, key, k) + tail;
        { InsertionSortStable(init, key, k); }
        KeyFilter(init, key, k) + tail;
        { KeyFilterAppend(init, [last], key, k); }
        KeyFilter(s, key, k);
      }
    }
  }

  /**
   Some names have a digit and some do not, so some key is an `int` and
   another a `str`, which Python cannot compare.
   */
  predicate MixedKeys(names: seq<string>)
    ensures MixedKeys(names) <==>
              exists i, j :: 0 <= i < |names| && 0 <= j < |names| &&
                             Key(names[i]).Number? && Key(names[j]).Name?
    ensures MixedKeys(names) ==> |names| >= 2
  {
    (exists i :: 0 <= i < |names| && HasDigit(names[i])) &&
    (exists j :: 0 <= j < |names| && !HasDigit(names[j]))
  }

  /**
   `names.sort(key=...)` at get_meta_data.py:80: `None` when Python raises
   on mixed keys, otherwise a sorted, stable permutation of `names`.
   */
  function SortByKey(names: seq<string>): (r: Option<seq<string>>)
    ensures r.None? <==> MixedKeys(names)
    ensures r.Some? ==> multiset(r.value) == multiset(names)
    ensures r.Some? ==> Sorted(r.value, Key)
    ensures r.Some? ==> forall k :: KeyFilter(r.value, Key, k) == KeyFilter(names, Key, k)
  {
    if MixedKeys(names) then None
    else
      InsertionSortSorted(names, Key);
      forall k ensures KeyFilter(InsertionSort(names, Key), Key, k) == KeyFilter(names, Key, k) {
        InsertionSortStable(names, Key, k);
      }
      Some(InsertionSort(names, Key))
  }

  /** When every name has a digit, the keys of the sorted names never decrease. */
  lemma NumericOrder(names: seq<string>)
    requires forall i :: 0 <= i < |names| ==> HasDigit(names[i])
    ensures SortByKey(names).Some?
    ensures var r := SortByKey(names).value;
      forall i, j :: 0 <= i < j < |r| ==>
        Key(r[i]).Number? && Key(r[j]).Number? && Key(r[i]).n <= Key(r[j]).n
  {
    var r := SortByKey(names).value;
    forall i | 0 <= i < |r|
      ensures Key(r[i]).Number?
    {
      assert r[i] in multiset(names);
      var m :| 0 <= m < |names| && names[m] == r[i];
    }
    forall i, j | 0 <= i < j < |r|
      ensures Key(r[i]).n <= Key(r[j]).n
    {
      assert !KeyLess(Key(r[j]), Key(r[i]));
    }
  }

  /** When no name has a digit, the names come out in Python's string order. */
  lemma LexicalOrder(names: seq<string>)
    requires forall i :: 0 <= i < |names| ==> !HasDigit(names[i])
    ensures SortByKey(names).Some?
    ensures var r := SortByKey(names).value;
      forall i, j :: 0 <= i < j < |r| ==> r[i] == r[j] || LexLess(r[i], r[j])
  {
    var r := SortByKey(names).value;
    forall i, j | 0 <= i < j < |r|
      ensures r[i] == r[j] || LexLess(r[i], r[j])
    {
      assert r[i] in multiset(names) && r[j] in multiset(names);
      if r[i] != r[j] {
        LexTotal(r[i], r[j]);
      }
    }
  }

  /** The digit runs of the frame example and their values. */
  lemma SampleRunValues()
    ensures AllDigits("1") && AllDigits("2") && AllDigits("10")
    ensures DecimalValue("1") == 1 && DecimalValue("2") == 2 && DecimalValue("10") == 10
  {
    assert "1"[..0] == "" && "2"[..0] == "" && "10"[..1] == "1";
  }

  /** Three numbered names come out in the order of their numbers. */
  lemma ThreeNumberedNames(a: string, b: string, c: string)
    requires Key(a).Number? && Key(b).Number? && Key(c).Number?
    requires Key(c).n < Key(a).n < Key(b).n
    ensures SortByKey([a, b, c]) == Some([c, a, b])
  {
    var s := [a, b, c];
    assert !MixedKeys(s) by {
      assert forall j :: 0 <= j < |s| ==> HasDigit(s[j]);
    }
    SortThree(a, b, c, Key);
  }

  /** Insertion sort of three numbered names, the last smallest and the first in the middle. */
  lemma {:induction false} SortThree(a: string, b: string, c: string, key: string -> SortKey)
    requires key(a).Number? && key(b).Number? && key(c).Number?
    requires key(c).n < key(a).n < key(b).n
    ensures InsertionSort([a, b, c], key) == [c, a, b]
  {
    SortTwo(a, b, key);
    var s := [a, b, c];
    assert s[..2] == [a, b];
    InsertFront(c, [a, b], key);
  }

  lemma {:induction false} SortTwo(a: string, b: string, key: string -> SortKey)
    requires key(a).Number? && key(b).Number? && key(a).n < key(b).n
    ensures InsertionSort([a, b], key) == [a, b]
  {
    var s := [a, b];
    assert s[..1] == [a] && [a][..0] == [];
    assert InsertionSort([a], key) == [a];
    assert Insert(b, [a], key) == [a] + Insert(b, [], key);
  }

  lemma {:induction false} InsertAfter(x: string, s: seq<string>, key: string -> SortKey)
    requires |s| > 0 && !KeyLess(key(x), key(s[0]))
    ensures Insert(x, s, key) == [s[0]] + Insert(x, s[1..], key)
  {
  }

  lemma {:induction false} InsertFront(x: string, s: seq<string>, key: string -> SortKey)
    requires |s| > 0 && KeyLess(key(x), key(s[0]))
    ensures Insert(x, s, key) == [x] + s
  {
  }

  /**
   Frames 2, 10 and 1 of one sequence come out as 1, 2, 10, not in string
   order, whatever digit-free text surrounds the numbers.
   */
  lemma FrameNumbersSortNumerically(prefix: string, suffix: string)
    requires !HasDigit(prefix) && !HasDigit(suffix)
    ensures SortByKey([prefix + "2" + suffix, prefix + "10" + suffix, prefix + "1" + suffix]) ==
            Some([prefix + "1" + suffix, prefix + "2" + suffix, prefix + "10" + suffix])
  {
    SampleRunValues();
    FrameNameKey(prefix, "2", suffix);
    FrameNameKey(prefix, "10", suffix);
    FrameNameKey(prefix, "1", suffix);
    ThreeNumberedNames(prefix + "2" + suffix, prefix + "10" + suffix, prefix + "1" + suffix);
  }
}
