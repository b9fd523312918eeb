/** Shell-style wildcard matching of one name against a pattern, as `fnmatch.fnmatch`
    does it on a POSIX system: `*` matches any run of characters (including none and
    including `/`), `?` matches any single character, and every other character
    matches itself. */
module Wildcard {
  import opened Strings

  predicate Match(name: string, pattern: string)
    decreases |name| + |pattern|
  {
    if pattern == [] then name == []
    else if pattern[0] == '*' then
      Match(name, pattern[1..]) || (name != [] && Match(name[1..], pattern))
    else
      name != [] && (pattern[0] == '?' || pattern[0] == name[0]) && Match(name[1..], pattern[1..])
  }

  /** A pattern piece without wildcards, such as a candidate sequence or mode name. */
  predicate Literal(p: string) {
    forall i :: 0 <= i < |p| ==> p[i] != '*' && p[i] != '?'
  }

  /** `*` matches every name. */
  lemma {:induction false} MatchStar(name: string)
    ensures Match(name, "*")
  {
    assert "*"[1..] == "";
    if name != [] {
      MatchStar(name[1..]);
    }
  }

  /** A literal head of the pattern must be the head of the name. */
  lemma {:induction false} MatchLiteralHead(name: string, lit: string, rest: string)
    requires Literal(lit)
    ensures Match(name, lit + rest) <==> StartsWith(name, lit) && Match(name[|lit|..], rest)
  {
    if lit == [] {
      assert lit + rest == rest && name[0..] == name;
    } else {
      assert (lit + rest)[1..] == lit[1..] + rest;
      MatchLiteralHead(if name == [] then [] else name[1..], lit[1..], rest);
      if name != [] {
        if |lit| <= |name| {
          assert name[1..][|lit| - 1..] == name[|lit|..];
        }
        assert StartsWith(name, lit) <==> name[0] == lit[0] && StartsWith(name[1..], lit[1..]) by {
          if name[0] == lit[0] && StartsWith(name[1..], lit[1..]) {
            assert name[..|lit|] == [name[0]] + name[1..][..|lit| - 1];
            assert lit == [lit[0]] + lit[1..];
          }
        }
      }
    }
  }

  /** `mvn_iuv*`: a literal followed by `*` matches exactly the names starting with it. */
  lemma MatchPrefixPattern(name: string, lit: string)
    requires Literal(lit)
    ensures Match(name, lit + "*") <==> StartsWith(name, lit)
  {
    MatchLiteralHead(name, lit, "*");
    if StartsWith(name, lit) {
      MatchStar(name[|lit|..]);
    }
  }

  /** `*c*`: a literal between two stars matches exactly the names containing it. */
  lemma {:induction false} MatchContains(name: string, lit: string)
    requires Literal(lit)
    ensures Match(name, "*" + lit + "*") <==> Contains(name, lit)
  {
    var p := "*" + lit + "*";
    assert p[1..] == lit + "*";
    MatchPrefixPattern(name, lit);
    if name != [] {
      MatchContains(name[1..], lit);
    }
  }

  /** `*` followed by a literal: the literal occurs somewhere and what follows that
      occurrence matches the rest of the pattern. */
  lemma {:induction false} MatchStarLiteral(name: string, lit: string, rest: string)
    requires Literal(lit)
    ensures Match(name, "*" + lit + rest) <==>
            exists k: nat :: OccursAt(name, lit, k) && Match(name[k + |lit|..], rest)
  {
    var p := "*" + lit + rest;
    assert p[1..] == lit + rest;
    MatchLiteralHead(name, lit, rest);
    assert StartsWith(name, lit) <==> OccursAt(name, lit, 0);
    if name != [] {
      MatchStarLiteral(name[1..], lit, rest);
      forall k: nat | k + 1 + |lit| <= |name|
        ensures OccursAt(name, lit, k + 1) <==> OccursAt(name[1..], lit, k)
        ensures name[k + 1 + |lit|..] == name[1..][k + |lit|..]
      {
        var tail := name[1..];
        var a, b := name[k + 1..k + 1 + |lit|], tail[k..k + |lit|];
        assert forall i :: 0 <= i < |lit| ==> a[i] == b[i];
        assert a == b;
      }
      if Match(name, p) && !Match(name, lit + rest) {
        var k: nat :| OccursAt(name[1..], lit, k) && Match(name[1..][k + |lit|..], rest);
        assert OccursAt(name, lit, k + 1);
      }
      if exists k: nat :: OccursAt(name, lit, k) && Match(name[k + |lit|..], rest) {
        var k: nat :| OccursAt(name, lit, k) && Match(name[k + |lit|..], rest);
        if k > 0 {
          assert OccursAt(name[1..], lit, k - 1);
        }
      }
    } else {
      if exists k: nat :: OccursAt(name, lit, k) && Match(name[k + |lit|..], rest) {
        var k: nat :| OccursAt(name, lit, k) && Match(name[k + |lit|..], rest);
        assert k == 0;
      }
    }
  }
}
