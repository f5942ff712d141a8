/**
 * The three Python string operations the topology code relies on, stated on
 * `seq<char>`: the `in` operator on strings, `str.replace` and the `<` order
 * on strings (code point by code point; a proper prefix is smaller).
 */
module PyStrings {

  /** `s.startswith(pat)`, character by character. */
  predicate StartsWith(s: string, pat: string)
    decreases |pat|
  {
    pat == [] || (s != [] && s[0] == pat[0] && StartsWith(s[1..], pat[1..]))
  }

  /** `StartsWith` is the prefix order on sequences. */
  lemma {:induction false} StartsWithIsPrefix(s: string, pat: string)
    ensures StartsWith(s, pat) <==> pat <= s
    decreases |pat|
  {
    if pat != [] && s != [] {
      StartsWithIsPrefix(s[1..], pat[1..]);
      assert pat <= s <==> pat[0] == s[0] && pat[1..] <= s[1..];
    }
  }

  /** `sub in s`: `sub` occurs in `s` at some position. */
  predicate Contains(s: string, sub: string)
    decreases |s|
  {
    StartsWith(s, sub) || (s != [] && Contains(s[1..], sub))
  }

  /** `s.replace(pat, rep)` for a non-empty `pat`: every leftmost, non-overlapping occurrence of `pat` is replaced. */
  function ReplaceAll(s: string, pat: string, rep: string): string
    requires pat != []
    decreases |s|
  {
    if StartsWith(s, pat) then
      StartsWithIsPrefix(s, pat);
      rep + ReplaceAll(s[|pat|..], pat, rep)
    else if s == [] then []
    else [s[0]] + ReplaceAll(s[1..], pat, rep)
  }

  /** A string in which `pat` does not occur is left unchanged by `replace`. */
  lemma {:induction false} ReplaceAllAbsent(s: string, pat: string, rep: string)
    requires pat != [] && !Contains(s, pat)
    ensures ReplaceAll(s, pat, rep) == s
  {
    if s != [] {
      ReplaceAllAbsent(s[1..], pat, rep);
    }
  }

  /** `s` with every `c` deleted, the other characters kept in order. */
  function Drop(s: string, c: char): string
    decreases |s|
  {
    if s == [] then [] else (if s[0] == c then [] else [s[0]]) + Drop(s[1..], c)
  }

  /** The filter keeps no `c` and every other character of `s`. */
  lemma {:induction false} DropMembers(s: string, c: char)
    ensures c !in Drop(s, c)
    ensures forall x :: x in Drop(s, c) <==> x in s && x != c
    decreases |s|
  {
    if s != [] {
      DropMembers(s[1..], c);
      assert s == [s[0]] + s[1..];
    }
  }

  /** `s.replace(c, '')` is exactly `s` with every `c` deleted. */
  lemma {:induction false} RemoveCharExact(s: string, c: char)
    ensures ReplaceAll(s, [c], []) == Drop(s, c)
  {
    if s != [] {
      RemoveCharExact(s[1..], c);
      assert StartsWith(s, [c]) <==> s[0] == c by {
        assert [c][1..] == [];
      }
    }
  }

  /** The replacement at the front of a string. */
  lemma ReplaceAllPrefix(pat: string, rep: string, t: string)
    requires pat != []
    ensures ReplaceAll(pat + t, pat, rep) == rep + ReplaceAll(t, pat, rep)
  {
    StartsWithIsPrefix(pat + t, pat);
    assert (pat + t)[|pat|..] == t;
  }

  /** Python's `a < b` on strings. */
  predicate LexLt(a: string, b: string)
    decreases |a|
  {
    if a == [] then b != []
    else if b == [] then false
    else if a[0] != b[0] then a[0] < b[0]
    else LexLt(a[1..], b[1..])
  }

  lemma {:induction false} LexLtIrreflexive(a: string)
    ensures !LexLt(a, a)
  {
    if a != [] {
      LexLtIrreflexive(a[1..]);
    }
  }

  lemma {:induction false} LexLtAsymmetric(a: string, b: string)
    ensures !(LexLt(a, b) && LexLt(b, a))
  {
    if a != [] && b != [] && a[0] == b[0] {
      LexLtAsymmetric(a[1..], b[1..]);
    }
  }

  /** Two different strings are always ordered one way or the other. */
  lemma {:induction false} LexLtTotal(a: string, b: string)
    ensures a == b || LexLt(a, b) || LexLt(b, a)
  {
    if a != [] && b != [] && a[0] == b[0] {
      LexLtTotal(a[1..], b[1..]);
      if a[1..] == b[1..] {
        assert a == [a[0]] + a[1..] && b == [b[0]] + b[1..];
      }
    }
  }

  lemma {:induction false} LexLtTransitive(a: string, b: string, c: string)
    requires LexLt(a, b) && LexLt(b, c)
    ensures LexLt(a, c)
  {
    if a != [] && a[0] == b[0] && b[0] == c[0] {
      LexLtTransitive(a[1..], b[1..], c[1..]);
    }
  }
}
