/** The string operations the checker uses on file names and header text. */
module Strings {

  /** Lower-case mapping of one character (ASCII letters only). */
  function LowerChar(c: char): char
  {
    if 'A' <= c <= 'Z' then (c as int + 32) as char else c
  }

  /** Lower-casing, letter by letter. */
  function Lower(s: string): (r: string)
    ensures |r| == |s|
    ensures forall i :: 0 <= i < |s| ==> r[i] == LowerChar(s[i])
  {
    seq(|s|, i requires 0 <= i < |s| => LowerChar(s[i]))
  }

  lemma LowerIdempotent(s: string)
    ensures Lower(Lower(s)) == Lower(s)
  {
  }

  /** `sub` occurs in `s` starting at position `i`. */
  predicate OccursAt(s: string, sub: string, i: int)
  {
    0 <= i && i + |sub| <= |s| && s[i..i + |sub|] == sub
  }

  /** Python's `sub in s`: a left-to-right search for `sub`. */
  function Contains(s: string, sub: string): bool
    decreases |s|
  {
    if |sub| > |s| then false
    else if s[..|sub|] == sub then true
    else Contains(s[1..], sub)
  }

  /** The search finds `sub` exactly when it occurs somewhere in `s`. */
  lemma {:induction false} ContainsIffOccurs(s: string, sub: string)
    ensures Contains(s, sub) <==> exists i :: OccursAt(s, sub, i)
    decreases |s|
  {
    if |sub| > |s| {
      forall i | OccursAt(s, sub, i) ensures false { }
    } else if s[..|sub|] == sub {
      assert OccursAt(s, sub, 0);
    } else {
      ContainsIffOccurs(s[1..], sub);
      if Contains(s[1..], sub) {
        var i :| OccursAt(s[1..], sub, i);
        assert s[1..][i..i + |sub|] == s[i + 1..i + 1 + |sub|];
        assert OccursAt(s, sub, i + 1);
      } else {
        forall i | OccursAt(s, sub, i) ensures false {
          if i > 0 {
            assert s[1..][i - 1..i - 1 + |sub|] == s[i..i + |sub|];
            assert OccursAt(s[1..], sub, i - 1);
          }
        }
      }
    }
  }

  /** A text that contains `sub` contains each of its characters. */
  lemma ContainsOnlyIfChars(s: string, sub: string, c: char)
    ensures Contains(s, sub) && c in sub ==> c in s
  {
    ContainsIffOccurs(s, sub);
    if Contains(s, sub) && c in sub {
      var i :| OccursAt(s, sub, i);
      var k :| 0 <= k < |sub| && sub[k] == c;
      assert s[i + k] == s[i..i + |sub|][k];
    }
  }

  /** `s` ends with `suffix`. */
  predicate EndsWith(s: string, suffix: string)
  {
    |suffix| <= |s| && s[|s| - |suffix|..] == suffix
  }

  /** The part of a file name before its first dot, or the whole name when it has none. */
  function Stem(s: string): (r: string)
    ensures '.' !in r
    ensures r <= s
    ensures r == s || s[|r|] == '.'
  {
    if |s| == 0 || s[0] == '.' then "" else [s[0]] + Stem(s[1..])
  }

  /** The three facts above pin the stem down: no other prefix has them. */
  lemma {:induction false} StemUnique(s: string, r: string)
    requires '.' !in r && r <= s && (r == s || s[|r|] == '.')
    ensures r == Stem(s)
    decreases |s|
  {
    if |s| == 0 {
    } else if s[0] == '.' {
    } else {
      assert r[0] == s[0];
      assert r[1..] <= s[1..];
      assert r[1..] == s[1..] || s[1..][|r[1..]|] == '.';
      StemUnique(s[1..], r[1..]);
      assert r == [r[0]] + r[1..];
    }
  }

  /** The stem of `name + suffix` is `name` when `name` holds no dot and `suffix` starts with one. */
  lemma StemOfDotted(name: string, suffix: string)
    requires '.' !in name
    requires |suffix| > 0 && suffix[0] == '.'
    ensures Stem(name + suffix) == name
  {
    var s := name + suffix;
    assert name <= s;
    assert s[|name|] == '.';
    StemUnique(s, name);
  }
}
