/**
 * The JavaScript string operations the core relies on: `Array.prototype.join`,
 * `String.prototype.split` on one character, `endsWith`, `includes` and
 * `toLowerCase` (the last restricted to ASCII letters).
 */
module Strings {

  /** `xs.join(sep)`: the elements with `sep` between neighbours; `[]` joins to "". */
  function Join(xs: seq<string>, sep: string): string
  {
    if |xs| == 0 then ""
    else if |xs| == 1 then xs[0]
    else Join(xs[..|xs| - 1], sep) + sep + xs[|xs| - 1]
  }

  /** Appending one element adds the separator and the element (the JavaScript definition, read left to right). */
  lemma JoinSnoc(xs: seq<string>, x: string, sep: string)
    ensures Join(xs + [x], sep) == if xs == [] then x else Join(xs, sep) + sep + x
  {
    if xs != [] {
      assert (xs + [x])[..|xs|] == xs;
    }
  }

  /** A join ends with its last element, so it is empty only if that element is. */
  lemma JoinEndsWithLast(xs: seq<string>, sep: string)
    requires xs != []
    ensures EndsWith(Join(xs, sep), xs[|xs| - 1])
  {
  }

  /** Every element of a join occurs in it. */
  lemma {:induction false} JoinIncludes(xs: seq<string>, sep: string, i: nat)
    requires i < |xs|
    ensures Includes(Join(xs, sep), xs[i])
  {
    var j := Join(xs, sep);
    if i == |xs| - 1 {
      if |xs| == 1 {
        IncludesInfix("", xs[i], "");
        assert "" + xs[i] + "" == j;
      } else {
        IncludesInfix(Join(xs[..|xs| - 1], sep) + sep, xs[i], "");
        assert Join(xs[..|xs| - 1], sep) + sep + xs[i] + "" == j;
      }
    } else {
      var init := xs[..|xs| - 1];
      assert init[i] == xs[i];
      JoinIncludes(init, sep, i);
      IncludesIff(Join(init, sep), xs[i]);
      var k :| OccursAt(Join(init, sep), xs[i], k);
      IncludesIff(j, xs[i]);
      assert j[..|Join(init, sep)|] == Join(init, sep);
      assert OccursAt(j, xs[i], k);
    }
  }

  /** `s.split([sep])`: the pieces between occurrences of `sep`, empty pieces included. */
  function Split(s: string, sep: char): (r: seq<string>)
    ensures |r| >= 1
    ensures forall i :: 0 <= i < |r| ==> sep !in r[i]
  {
    if s == [] then [""]
    else
      var r := Split(s[..|s| - 1], sep);
      var c := s[|s| - 1];
      if c == sep then r + [""]
      else r[..|r| - 1] + [r[|r| - 1] + [c]]
  }

  /** Joining the pieces of a split with the same separator gives back the string. */
  lemma {:induction false} JoinSplit(s: string, sep: char)
    ensures Join(Split(s, sep), [sep]) == s
  {
    if s != [] {
      var init := s[..|s| - 1];
      var c := s[|s| - 1];
      var r := Split(init, sep);
      assert init + [c] == s;
      JoinSplit(init, sep);
      if c == sep {
        assert Split(s, sep) == r + [""];
        JoinSnoc(r, "", [sep]);
      } else {
        var k := |r| - 1;
        assert Split(s, sep) == r[..k] + [r[k] + [c]];
        assert r == r[..k] + [r[k]];
        JoinSnoc(r[..k], r[k], [sep]);
        JoinSnoc(r[..k], r[k] + [c], [sep]);
      }
    }
  }

  /** Appending one character other than the separator lengthens the last piece by it. */
  lemma SplitSnoc(t: string, c: char, sep: char)
    requires c != sep
    ensures var r := Split(t, sep);
            Split(t + [c], sep) == r[..|r| - 1] + [r[|r| - 1] + [c]]
  {
    assert (t + [c])[..|t + [c]| - 1] == t;
  }

  /** Appending text without the separator only lengthens the last piece. */
  lemma {:induction false} SplitExtend(s: string, w: string, sep: char)
    requires sep !in w
    ensures var r := Split(s, sep);
            Split(s + w, sep) == r[..|r| - 1] + [r[|r| - 1] + w]
    decreases |w|
  {
    var r := Split(s, sep);
    var k := |r| - 1;
    if w == [] {
      assert s + w == s;
      assert r[k] + w == r[k];
      assert r == r[..k] + [r[k]];
    } else {
      var c := w[0];
      assert c in w;
      SplitSnoc(s, c, sep);
      var r' := Split(s + [c], sep);
      SplitExtend(s + [c], w[1..], sep);
      assert (s + [c]) + w[1..] == s + w;
      assert r'[..k] == r[..k];
      assert r'[k] + w[1..] == r[k] + w;
    }
  }

  /** Splitting a join of separator-free pieces gives back the pieces. */
  lemma {:induction false} SplitJoin(xs: seq<string>, sep: char)
    requires |xs| >= 1
    requires forall i :: 0 <= i < |xs| ==> sep !in xs[i]
    ensures Split(Join(xs, [sep]), sep) == xs
  {
    var last := xs[|xs| - 1];
    if |xs| == 1 {
      SplitExtend("", last, sep);
      assert "" + last == last;
    } else {
      var init := xs[..|xs| - 1];
      SplitJoin(init, sep);
      var j := Join(init, [sep]);
      assert Split(j + [sep], sep) == init + [""] by {
        assert (j + [sep])[..|j + [sep]| - 1] == j;
      }
      SplitExtend(j + [sep], last, sep);
      assert Join(xs, [sep]) == j + [sep] + last;
      assert (init + [""])[..|init|] == init;
      assert (init + [""])[|init|] + last == last;
      assert init + [last] == xs;
    }
  }

  /** `s.endsWith(suffix)` */
  predicate EndsWith(s: string, suffix: string)
  {
    |suffix| <= |s| && s[|s| - |suffix|..] == suffix
  }

  /** `s.startsWith(prefix)` */
  predicate StartsWith(s: string, prefix: string)
  {
    |prefix| <= |s| && s[..|prefix|] == prefix
  }

  /** A copy of `q` starts at position `i` of `s`. */
  predicate OccursAt(s: string, q: string, i: int)
  {
    0 <= i <= |s| - |q| && s[i..i + |q|] == q
  }

  /** `s.includes(q)`: some position of `s` starts a copy of `q`. */
  predicate Includes(s: string, q: string)
    decreases |s|
  {
    StartsWith(s, q) || (s != [] && Includes(s[1..], q))
  }

  /** `Includes` agrees with the positional definition of a substring, in both directions. */
  lemma {:induction false} IncludesIff(s: string, q: string)
    ensures Includes(s, q) <==> exists i :: OccursAt(s, q, i)
    decreases |s|
  {
    if StartsWith(s, q) {
      assert OccursAt(s, q, 0);
    } else if s == [] {
    } else {
      IncludesIff(s[1..], q);
      if Includes(s[1..], q) {
        var i :| OccursAt(s[1..], q, i);
        assert s[1..][i..i + |q|] == s[i + 1..i + 1 + |q|];
        assert OccursAt(s, q, i + 1);
      } else {
        forall i | 0 < i <= |s| - |q|
          ensures !OccursAt(s, q, i)
        {
          assert s[1..][i - 1..i - 1 + |q|] == s[i..i + |q|];
          assert !OccursAt(s[1..], q, i - 1);
        }
      }
    }
  }

  /** Every string includes the empty string (so `"abc".includes("")` is true). */
  lemma {:induction false} IncludesEmpty(s: string)
    ensures Includes(s, "")
  {
    assert StartsWith(s, "");
  }

  /** A string never includes a longer one. */
  lemma {:induction false} IncludesShorter(s: string, q: string)
    requires |s| < |q|
    ensures !Includes(s, q)
    decreases |s|
  {
    if s != [] {
      IncludesShorter(s[1..], q);
    }
  }

  /** A string includes every string embedded in it. */
  lemma {:induction false} IncludesInfix(a: string, b: string, c: string)
    ensures Includes(a + b + c, b)
  {
    var s := a + b + c;
    IncludesIff(s, b);
    assert s[|a|..|a| + |b|] == b;
    assert OccursAt(s, b, |a|);
  }

  /** `toLowerCase` on one character, ASCII letters only. */
  function LowerChar(c: char): char
  {
    if 'A' <= c <= 'Z' then (c as int + 32) as char else c
  }

  /** `s.toLowerCase()`, ASCII letters only. */
  function Lower(s: string): (r: string)
    ensures |r| == |s|
    ensures forall i :: 0 <= i < |s| ==> r[i] == LowerChar(s[i])
  {
    seq(|s|, i requires 0 <= i < |s| => LowerChar(s[i]))
  }

  /** Lower-casing twice is lower-casing once. */
  lemma LowerIdempotent(s: string)
    ensures Lower(Lower(s)) == Lower(s)
  {
  }
}
