/** The JavaScript string operations the quote route relies on:
    `String.prototype.slice`, `replace(/-/g, "")` and the `<`/`>` comparison
    of two strings. */
module JsString {

  /** `s.slice(from, to)` for non-negative bounds: both bounds are clamped to
      the length of `s`, and a range that is empty after clamping gives "". */
  function Slice(s: string, from: nat, to: nat): (r: string)
    ensures |r| <= |s|
    ensures from <= to <= |s| ==> r == s[from..to]
    ensures from <= |s| <= to ==> r == s[from..]
    ensures to <= from || |s| <= from ==> r == ""
    ensures forall i :: 0 <= i < |r| ==> from + i < |s| && r[i] == s[from + i]
  {
    var lo := if from < |s| then from else |s|;
    var hi := if to < |s| then to else |s|;
    if lo < hi then s[lo..hi] else ""
  }

  /** `s.replace(/-/g, "")`: every '-' is dropped, every other character is
      kept, in order. */
  function RemoveDashes(s: string): string
  {
    if |s| == 0 then "" else (if s[0] == '-' then "" else [s[0]]) + RemoveDashes(s[1..])
  }

  /** What is left has no '-', is shorter by the number of '-' removed, and
      is the input itself when there was none. */
  lemma {:induction false} RemoveDashesRemovesOnlyDashes(s: string)
    ensures var r := RemoveDashes(s);
      && '-' !in r
      && |r| + multiset(s)['-'] == |s|
      && ('-' !in s ==> r == s)
  {
    if |s| > 0 {
      RemoveDashesRemovesOnlyDashes(s[1..]);
      assert s == [s[0]] + s[1..];
    }
  }

  lemma {:induction false} RemoveDashesAppend(a: string, b: string)
    ensures RemoveDashes(a + b) == RemoveDashes(a) + RemoveDashes(b)
  {
    if |a| == 0 {
      assert a + b == b;
    } else {
      assert (a + b)[1..] == a[1..] + b;
      RemoveDashesAppend(a[1..], b);
    }
  }

  lemma {:induction false} RemoveDashesKeepsDashFree(s: string)
    requires '-' !in s
    ensures RemoveDashes(s) == s
  {
    if |s| > 0 {
      assert s[0] != '-' && '-' !in s[1..];
      RemoveDashesKeepsDashFree(s[1..]);
      assert s == [s[0]] + s[1..];
    }
  }

  lemma RemoveDashesAcrossDash(a: string, b: string)
    ensures RemoveDashes(a + "-" + b) == RemoveDashes(a) + RemoveDashes(b)
  {
    var dash := "-";
    assert RemoveDashes(dash) == "" by {
      assert dash[1..] == "";
    }
    RemoveDashesAppend(a + dash, b);
    RemoveDashesAppend(a, dash);
  }

  /** Deleting the dashes of `y-m-d` when the parts have none. */
  lemma RemoveDashesOfParts(y: string, m: string, d: string)
    requires '-' !in y && '-' !in m && '-' !in d
    ensures RemoveDashes(y + "-" + m + "-" + d) == y + m + d
  {
    RemoveDashesAcrossDash(y + "-" + m, d);
    RemoveDashesAcrossDash(y, m);
    RemoveDashesKeepsDashFree(y);
    RemoveDashesKeepsDashFree(m);
    RemoveDashesKeepsDashFree(d);
  }

  /** `x < y` on two strings (IsLessThan, section 7.2.13 of ECMA-262): a
      proper prefix is smaller; otherwise the first position where the two
      differ decides. `a > b` in the source is `Less(b, a)`. */
  predicate Less(x: string, y: string)
  {
    if |y| == 0 then false
    else if |x| == 0 then true
    else if x[0] != y[0] then x[0] < y[0]
    else Less(x[1..], y[1..])
  }

  /** `x` does not sort after `y`: the order a sorted chart keeps. */
  predicate NotAfter(x: string, y: string)
  {
    !Less(y, x)
  }

  lemma {:induction false} LessIrreflexive(x: string)
    ensures !Less(x, x)
  {
    if |x| > 0 {
      LessIrreflexive(x[1..]);
    }
  }

  lemma {:induction false} LessAsymmetric(x: string, y: string)
    ensures Less(x, y) ==> !Less(y, x)
  {
    if |x| > 0 && |y| > 0 && x[0] == y[0] {
      LessAsymmetric(x[1..], y[1..]);
    }
  }

  lemma {:induction false} LessTransitive(x: string, y: string, z: string)
    requires Less(x, y) && Less(y, z)
    ensures Less(x, z)
  {
    if |x| > 0 && x[0] == y[0] && y[0] == z[0] {
      LessTransitive(x[1..], y[1..], z[1..]);
    }
  }

  /** Two different strings are always ordered one way or the other. */
  lemma {:induction false} LessTrichotomous(x: string, y: string)
    ensures x == y || Less(x, y) || Less(y, x)
  {
    if |x| > 0 && |y| > 0 && x[0] == y[0] {
      LessTrichotomous(x[1..], y[1..]);
      if x[1..] == y[1..] {
        assert x == [x[0]] + x[1..] && y == [y[0]] + y[1..];
      }
    }
  }

  lemma NotAfterTransitive(x: string, y: string, z: string)
    requires NotAfter(x, y) && NotAfter(y, z)
    ensures NotAfter(x, z)
  {
    if Less(z, x) {
      LessTrichotomous(x, y);
      if Less(x, y) {
        LessTransitive(z, x, y);
      }
    }
  }

  lemma NotAfterAntisymmetric(x: string, y: string)
    requires NotAfter(x, y) && NotAfter(y, x)
    ensures x == y
  {
    LessTrichotomous(x, y);
  }

  /** Comparing two strings whose first parts have the same length compares
      the first parts, and the rest only when the first parts are equal. */
  lemma {:induction false} LessAppend(a1: string, a2: string, b1: string, b2: string)
    requires |a1| == |b1|
    ensures Less(a1 + a2, b1 + b2) <==> Less(a1, b1) || (a1 == b1 && Less(a2, b2))
  {
    if |a1| == 0 {
      assert a1 + a2 == a2 && b1 + b2 == b2;
    } else {
      assert (a1 + a2)[0] == a1[0] && (b1 + b2)[0] == b1[0];
      assert (a1 + a2)[1..] == a1[1..] + a2 && (b1 + b2)[1..] == b1[1..] + b2;
      LessAppend(a1[1..], a2, b1[1..], b2);
      if a1[0] == b1[0] && a1[1..] == b1[1..] {
        assert a1 == [a1[0]] + a1[1..] && b1 == [b1[0]] + b1[1..];
      }
    }
  }
}
