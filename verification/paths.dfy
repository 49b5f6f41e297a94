/** Object paths as strings: substring search and subtrees. */
module Paths {

  /** `find(part) != npos`. */
  predicate Contains(s: string, part: string) {
    part <= s || (s != [] && Contains(s[1..], part))
  }

  /** `path` lies in the subtree below `base`. */
  predicate Under(base: string, path: string) { base + "/" <= path }

  lemma {:induction false} ContainedInLonger(s: string, part: string, rest: string)
    requires Contains(s, part)
    ensures Contains(s + rest, part)
    decreases |s|
  {
    if part <= s {
      assert part <= s + rest;
    } else {
      ContainedInLonger(s[1..], part, rest);
      assert (s + rest)[1..] == s[1..] + rest;
    }
  }

  lemma {:induction false} ContainedBehind(before: string, part: string)
    ensures Contains(before + part, part)
    decreases |before|
  {
    if before == "" {
      assert before + part == part;
    } else {
      assert (before + part)[1..] == before[1..] + part;
      ContainedBehind(before[1..], part);
    }
  }

  /** Whatever the base contains, everything below it contains. */
  lemma SubtreeContains(base: string, path: string, part: string)
    requires Contains(base, part) && Under(base, path)
    ensures Contains(path, part)
  {
    ContainedInLonger(base, part, path[|base|..]);
    assert path == base + path[|base|..];
  }

  // -------- the order of `std::string` --------

  predicate Before(a: string, b: string) {
    b != "" && (a == "" || a[0] < b[0] || (a[0] == b[0] && Before(a[1..], b[1..])))
  }

  lemma {:induction false} BeforeTotal(a: string, b: string)
    ensures a == b || Before(a, b) || Before(b, a)
    decreases |a|
  {
    if a != "" && b != "" && a[0] == b[0] {
      BeforeTotal(a[1..], b[1..]);
      assert a == [a[0]] + a[1..] && b == [b[0]] + b[1..];
    }
  }

  lemma {:induction false} BeforeAsymmetric(a: string, b: string)
    ensures !(Before(a, b) && Before(b, a))
    decreases |a|
  {
    if a != "" && b != "" && a[0] == b[0] {
      BeforeAsymmetric(a[1..], b[1..]);
    }
  }

  lemma {:induction false} BeforeTransitive(a: string, b: string, c: string)
    requires Before(a, b) && Before(b, c)
    ensures Before(a, c)
    decreases |a|
  {
    if a != "" && a[0] == b[0] && b[0] == c[0] {
      BeforeTransitive(a[1..], b[1..], c[1..]);
    }
  }

  /** Below one object the order of the paths is that of the names. */
  lemma {:induction false} BeforeBehindPrefix(prefix: string, a: string, b: string)
    ensures Before(prefix + a, prefix + b) <==> Before(a, b)
    decreases |prefix|
  {
    if prefix == "" {
      assert prefix + a == a && prefix + b == b;
    } else {
      assert (prefix + a)[1..] == prefix[1..] + a && (prefix + b)[1..] == prefix[1..] + b;
      BeforeBehindPrefix(prefix[1..], a, b);
    }
  }
}
