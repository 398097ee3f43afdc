/**
 * Character-level helpers standing in for the regular expressions and the
 * `String.prototype.replace(/-/g, '')` call of the source.
 */
module Text {

  /** `\d` of a JavaScript regular expression: an ASCII digit. */
  predicate IsDigit(c: char) {
    '0' <= c <= '9'
  }

  predicate AllDigits(s: string) {
    forall i | 0 <= i < |s| :: IsDigit(s[i])
  }

  lemma AllDigitsAppend(a: string, b: string)
    requires AllDigits(a) && AllDigits(b)
    ensures AllDigits(a + b)
  {
    forall i | 0 <= i < |a + b|
      ensures IsDigit((a + b)[i])
    {
      if i < |a| {
        assert (a + b)[i] == a[i];
      } else {
        assert (a + b)[i] == b[i - |a|];
      }
    }
  }

  /** The `-?` token: consumes one leading hyphen when there is one. */
  function DropOptionalHyphen(s: string): (rest: string)
    ensures s != [] && s[0] == '-' ==> rest == s[1..]
    ensures (s == [] || s[0] != '-') ==> rest == s
  {
    if s != [] && s[0] == '-' then s[1..] else s
  }

  /** `s.replace(/-/g, '')`: the characters of `s` other than `-`, in order. */
  function StripHyphens(s: string): (r: string)
    ensures '-' !in r
    ensures |r| <= |s|
    ensures '-' !in s ==> r == s
  {
    if s == [] then []
    else
      assert s == [s[0]] + s[1..];
      (if s[0] == '-' then [] else [s[0]]) + StripHyphens(s[1..])
  }

  /** Removing hyphens distributes over concatenation. */
  lemma {:induction false} StripHyphensAppend(a: string, b: string)
    ensures StripHyphens(a + b) == StripHyphens(a) + StripHyphens(b)
  {
    if a == [] {
      assert a + b == b;
    } else {
      calc {
        StripHyphens(a + b);
        (if a[0] == '-' then [] else [a[0]]) + StripHyphens((a + b)[1..]);
        { assert (a + b)[1..] == a[1..] + b; }
        (if a[0] == '-' then [] else [a[0]]) + StripHyphens(a[1..] + b);
        { StripHyphensAppend(a[1..], b); }
        (if a[0] == '-' then [] else [a[0]]) + (StripHyphens(a[1..]) + StripHyphens(b));
        StripHyphens(a) + StripHyphens(b);
      }
    }
  }

  /** Removing hyphens from `s` is removing them from its two halves around `m`. */
  lemma StripHyphensSplit(s: string, m: nat)
    requires m <= |s|
    ensures StripHyphens(s) == StripHyphens(s[..m]) + StripHyphens(s[m..])
  {
    assert s == s[..m] + s[m..];
    StripHyphensAppend(s[..m], s[m..]);
  }

  /** Removing hyphens drops only hyphens: every other character keeps its count. */
  lemma {:induction false} StripHyphensKeepsOthers(s: string)
    ensures forall c | c != '-' :: multiset(StripHyphens(s))[c] == multiset(s)[c]
  {
    if s != [] {
      StripHyphensKeepsOthers(s[1..]);
      assert s == [s[0]] + s[1..];
      assert multiset(s) == multiset([s[0]]) + multiset(s[1..]);
      var head := if s[0] == '-' then [] else [s[0]];
      assert multiset(StripHyphens(s)) == multiset(head) + multiset(StripHyphens(s[1..]));
    }
  }

  /** Removing hyphens twice is the same as removing them once. */
  lemma StripHyphensIdempotent(s: string)
    ensures StripHyphens(StripHyphens(s)) == StripHyphens(s)
  {
  }

  /** An optional leading hyphen disappears once hyphens are removed. */
  lemma StripHyphensDropOptional(s: string)
    ensures StripHyphens(DropOptionalHyphen(s)) == StripHyphens(s)
  {
  }

  /** A run of digits has no hyphen to remove. */
  lemma DigitsHaveNoHyphen(s: string)
    requires AllDigits(s)
    ensures '-' !in s
    ensures StripHyphens(s) == s
  {
  }

  /** `s` ends with `suffix`, character for character (case-sensitive). */
  predicate EndsWith(s: string, suffix: string) {
    |suffix| <= |s| && s[|s| - |suffix|..] == suffix
  }

  /** When `x + "-" + r1 == y + "-" + r2` with `x` the shorter head, the separator after `x` lies inside `y`. */
  lemma SeparatorInLongerHead(x: string, r1: string, y: string, r2: string)
    requires x + "-" + r1 == y + "-" + r2
    requires |x| < |y|
    ensures '-' in y
  {
    var s := x + "-" + r1;
    assert s[|x|] == '-';
    assert s[|x|] == y[|x|];
  }

  /** A hyphen-free head is recovered from `head + "-" + rest`: the first hyphen is the separator. */
  lemma SplitAtFirstHyphen(x: string, r1: string, y: string, r2: string)
    requires '-' !in x && '-' !in y
    requires x + "-" + r1 == y + "-" + r2
    ensures x == y && r1 == r2
  {
    var s := x + "-" + r1;
    if |x| == |y| {
      assert x == s[..|x|] == y;
      assert r1 == s[|x| + 1..] == r2;
    } else if |x| < |y| {
      SeparatorInLongerHead(x, r1, y, r2);
      assert false;
    } else {
      SeparatorInLongerHead(y, r2, x, r1);
      assert false;
    }
  }

  /** Three fields joined by hyphens come apart again when the first two carry no hyphen. */
  lemma JoinedFieldsAgree(x1: string, p1: string, c1: string, x2: string, p2: string, c2: string)
    requires '-' !in x1 && '-' !in x2 && '-' !in p1 && '-' !in p2
    ensures x1 + "-" + p1 + "-" + c1 == x2 + "-" + p2 + "-" + c2 <==> x1 == x2 && p1 == p2 && c1 == c2
  {
    if x1 + "-" + p1 + "-" + c1 == x2 + "-" + p2 + "-" + c2 {
      var r1, r2 := p1 + "-" + c1, p2 + "-" + c2;
      assert x1 + "-" + p1 + "-" + c1 == x1 + "-" + r1;
      assert x2 + "-" + p2 + "-" + c2 == x2 + "-" + r2;
      SplitAtFirstHyphen(x1, r1, x2, r2);
      SplitAtFirstHyphen(p1, c1, p2, c2);
    }
  }
}
