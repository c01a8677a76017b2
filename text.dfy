/** The Python string operations the converter relies on, with the meaning Python gives them. */
module Text {

  /** Python's `str.isspace()` for one character: the characters `str.strip()` with no argument removes. */
  predicate IsSpace(c: char)
  {
    ('\t' <= c <= '\r') || ('\U{1C}' <= c <= '\U{1F}') || c == ' ' || c == '\U{85}' || c == '\U{A0}'
    || c == '\U{1680}' || ('\U{2000}' <= c <= '\U{200A}') || c == '\U{2028}' || c == '\U{2029}'
    || c == '\U{202F}' || c == '\U{205F}' || c == '\U{3000}'
  }

  /** `s.startswith(p)`. */
  predicate StartsWith(s: string, p: string)
  {
    |p| <= |s| && s[..|p|] == p
  }

  /** A text cannot start with two prefixes that differ at a position both cover. */
  lemma PrefixesClash(s: string, p: string, q: string, i: nat)
    requires StartsWith(s, p) && i < |p| && i < |q| && p[i] != q[i]
    ensures !StartsWith(s, q)
  {
    assert s[i] == s[..|p|][i];
  }

  /** `s.endswith(p)`. */
  predicate EndsWith(s: string, p: string)
  {
    |p| <= |s| && s[|s| - |p|..] == p
  }

  /** `s[n:]` for a non-negative `n`: Python's slice is empty when `n` is past the end. */
  function Drop(s: string, n: nat): string
  {
    if n <= |s| then s[n..] else []
  }

  /** `s.lstrip()`. */
  function TrimStart(s: string): string
    decreases |s|
  {
    if s != [] && IsSpace(s[0]) then TrimStart(s[1..]) else s
  }

  /** `s.rstrip()`. */
  function TrimEnd(s: string): string
    decreases |s|
  {
    if s != [] && IsSpace(s[|s| - 1]) then TrimEnd(s[..|s| - 1]) else s
  }

  /** What `lstrip()` leaves is a suffix of `s`, everything it dropped is whitespace, and it does not
      start with whitespace. */
  lemma {:induction false} TrimStartSpec(s: string)
    ensures |TrimStart(s)| <= |s| && TrimStart(s) == s[|s| - |TrimStart(s)|..]
    ensures forall k :: 0 <= k < |s| - |TrimStart(s)| ==> IsSpace(s[k])
    ensures TrimStart(s) != [] ==> !IsSpace(TrimStart(s)[0])
    decreases |s|
  {
    if s != [] && IsSpace(s[0]) {
      TrimStartSpec(s[1..]);
      var r := TrimStart(s[1..]);
      assert s[1..][|s| - 1 - |r|..] == s[|s| - |r|..];
      forall k | 0 <= k < |s| - |r| ensures IsSpace(s[k]) {
        if k > 0 {
          assert s[k] == s[1..][k - 1];
        }
      }
    }
  }

  /** What `rstrip()` leaves is a prefix of `s`, everything it dropped is whitespace, and it does not
      end with whitespace. */
  lemma {:induction false} TrimEndSpec(s: string)
    ensures |TrimEnd(s)| <= |s| && TrimEnd(s) == s[..|TrimEnd(s)|]
    ensures forall k :: |TrimEnd(s)| <= k < |s| ==> IsSpace(s[k])
    ensures TrimEnd(s) != [] ==> !IsSpace(TrimEnd(s)[|TrimEnd(s)| - 1])
    decreases |s|
  {
    if s != [] && IsSpace(s[|s| - 1]) {
      TrimEndSpec(s[..|s| - 1]);
      var r := TrimEnd(s[..|s| - 1]);
      assert s[..|s| - 1][..|r|] == s[..|r|];
      forall k | |r| <= k < |s| ensures IsSpace(s[k]) {
        if k < |s| - 1 {
          assert s[k] == s[..|s| - 1][k];
        }
      }
    }
  }

  /** `s.strip()`. */
  function Strip(s: string): string
  {
    TrimEnd(TrimStart(s))
  }

  /** `s.strip()` is the slice of `s` left once the whitespace on both ends is cut, and has none on either end. */
  lemma StripIsTrimmedSlice(s: string)
    ensures var i, r := |s| - |TrimStart(s)|, Strip(s);
      0 <= i <= i + |r| <= |s| && r == s[i..i + |r|]
      && (forall k :: 0 <= k < i ==> IsSpace(s[k]))
      && (forall k :: i + |r| <= k < |s| ==> IsSpace(s[k]))
    ensures Strip(s) != [] ==> !IsSpace(Strip(s)[0]) && !IsSpace(Strip(s)[|Strip(s)| - 1])
  {
    var t := TrimStart(s);
    var r := TrimEnd(t);
    TrimStartSpec(s);
    TrimEndSpec(t);
    var i := |s| - |t|;
    assert r == t[..|r|];
    assert s[i..i + |r|] == t[..|r|];
    forall k | i + |r| <= k < |s| ensures IsSpace(s[k]) {
      assert s[k] == t[k - i];
    }
  }

  /** A string with no whitespace on either end is its own `strip()`. */
  lemma StripUntrimmed(s: string)
    requires s != [] ==> !IsSpace(s[0]) && !IsSpace(s[|s| - 1])
    ensures Strip(s) == s
  {
    if s != [] {
      assert TrimStart(s) == s;
    }
  }

  /** `strip()` is idempotent. */
  lemma StripIdempotent(s: string)
    ensures Strip(Strip(s)) == Strip(s)
  {
    StripIsTrimmedSlice(s);
    StripUntrimmed(Strip(s));
  }

  /** When `s` starts with a non-space character, `s.strip()` starts with it too. */
  lemma StripKeepsFirst(s: string)
    requires s != [] && !IsSpace(s[0])
    ensures 0 < |Strip(s)| <= |s|
    ensures Strip(s) == s[..|Strip(s)|] && Strip(s)[0] == s[0]
  {
    assert TrimStart(s) == s;
    TrimEndSpec(s);
  }

  /** `s.split('\n')`: never empty, and no piece holds a newline. */
  function SplitLines(s: string): (r: seq<string>)
    ensures |r| >= 1
    ensures forall i :: 0 <= i < |r| ==> '\n' !in r[i]
    decreases |s|
  {
    if s == [] then [""]
    else
      var rest := SplitLines(s[1..]);
      if s[0] == '\n' then [""] + rest
      else [[s[0]] + rest[0]] + rest[1..]
  }

  /** `'\n'.join(r)`. */
  function JoinLines(r: seq<string>): string
    requires |r| >= 1
    decreases |r|
  {
    if |r| == 1 then r[0] else r[0] + "\n" + JoinLines(r[1..])
  }

  /** Joining the pieces of a split gives back the text. */
  lemma {:induction false} JoinSplitLines(s: string)
    ensures JoinLines(SplitLines(s)) == s
    decreases |s|
  {
    if s != [] {
      var rest := SplitLines(s[1..]);
      JoinSplitLines(s[1..]);
      if s[0] == '\n' {
        assert ([""] + rest)[1..] == rest;
      } else {
        var r := [[s[0]] + rest[0]] + rest[1..];
        assert r[1..] == rest[1..];
        if |rest| > 1 {
          assert JoinLines(rest) == rest[0] + "\n" + JoinLines(rest[1..]);
        }
      }
    }
  }

  /** Splitting text that opens with a newline-free `a` puts `a` in front of the first piece. */
  lemma {:induction false} SplitLinesPrefix(a: string, t: string)
    requires '\n' !in a
    ensures SplitLines(a + t) == [a + SplitLines(t)[0]] + SplitLines(t)[1..]
    decreases |a|
  {
    if a != [] {
      var s := a + t;
      assert s[1..] == a[1..] + t;
      assert s[0] == a[0] && a[0] in a && s[0] != '\n';
      SplitLinesPrefix(a[1..], t);
      var rest := SplitLines(s[1..]);
      assert SplitLines(s) == [[s[0]] + rest[0]] + rest[1..];
      assert rest[0] == a[1..] + SplitLines(t)[0];
      assert rest[1..] == SplitLines(t)[1..];
      assert a == [a[0]] + a[1..];
      assert [a[0]] + (a[1..] + SplitLines(t)[0]) == a + SplitLines(t)[0];
    } else {
      assert a + t == t && a + SplitLines(t)[0] == SplitLines(t)[0];
      assert SplitLines(t) == [SplitLines(t)[0]] + SplitLines(t)[1..];
    }
  }

  /** Splitting a join of newline-free pieces gives back the pieces. */
  lemma {:induction false} SplitJoinLines(r: seq<string>)
    requires |r| >= 1
    requires forall i :: 0 <= i < |r| ==> '\n' !in r[i]
    ensures SplitLines(JoinLines(r)) == r
    decreases |r|
  {
    if |r| == 1 {
      SplitLinesPrefix(r[0], "");
      assert r[0] + "" == r[0];
    } else {
      var t := "\n" + JoinLines(r[1..]);
      SplitJoinLines(r[1..]);
      assert t[1..] == JoinLines(r[1..]);
      assert SplitLines(t) == [""] + r[1..];
      SplitLinesPrefix(r[0], t);
      assert r[0] + t == JoinLines(r);
      assert r[0] + "" == r[0];
    }
  }

  /** The first piece of a split starts with any newline-free prefix of the text. */
  lemma FirstLineKeepsPrefix(s: string, p: string)
    requires StartsWith(s, p) && '\n' !in p
    ensures StartsWith(SplitLines(s)[0], p)
  {
    var t := s[|p|..];
    assert s == p + t;
    SplitLinesPrefix(p, t);
    assert SplitLines(s)[0] == p + SplitLines(t)[0];
    assert (p + SplitLines(t)[0])[..|p|] == p;
  }

  /** `s.replace(pat, '')`: the non-overlapping occurrences of `pat`, found left to right, are dropped;
      the result is no longer and holds no character `s` lacks. */
  function RemoveAll(s: string, pat: string): (r: string)
    requires pat != []
    ensures |r| <= |s|
    ensures forall c :: c in r ==> c in s
    decreases |s|
  {
    if s == [] then []
    else if StartsWith(s, pat) then RemoveAll(s[|pat|..], pat)
    else [s[0]] + RemoveAll(s[1..], pat)
  }

  /** `s.replace(c, '')` for one character keeps every other character, as often as `s` has it, and no `c`. */
  lemma {:induction false} RemoveCharExact(s: string, c: char)
    ensures c !in RemoveAll(s, [c])
    ensures forall x :: x != c ==> multiset(RemoveAll(s, [c]))[x] == multiset(s)[x]
    decreases |s|
  {
    if s != [] {
      RemoveCharExact(s[1..], c);
      assert s == [s[0]] + s[1..];
      if s[0] != c {
        assert !StartsWith(s, [c]);
        assert RemoveAll(s, [c]) == [s[0]] + RemoveAll(s[1..], [c]);
      } else {
        assert StartsWith(s, [c]);
      }
    }
  }

  /** Replacing a pattern whose first character does not occur changes nothing. */
  lemma {:induction false} RemoveAbsent(s: string, pat: string)
    requires pat != [] && pat[0] !in s
    ensures RemoveAll(s, pat) == s
    decreases |s|
  {
    if s != [] {
      assert s[0] != pat[0];
      assert !StartsWith(s, pat);
      assert pat[0] !in s[1..];
      RemoveAbsent(s[1..], pat);
    }
  }

  /** A first character that does not begin the pattern is kept in front. */
  lemma RemoveAllKeepsFirst(s: string, pat: string)
    requires pat != [] && s != [] && s[0] != pat[0]
    ensures RemoveAll(s, pat) == [s[0]] + RemoveAll(s[1..], pat)
  {
    assert !StartsWith(s, pat);
  }

  /** No two adjacent asterisks. */
  predicate NoDoubleStar(s: string)
  {
    forall k :: 0 <= k < |s| - 1 ==> !(s[k] == '*' && s[k + 1] == '*')
  }

  /** After `s.replace('**', '')` no `**` is left, and the result starts with `*` only if `s` does. */
  lemma {:induction false} RemoveBoldLeavesNoDoubleStar(s: string)
    ensures NoDoubleStar(RemoveAll(s, "**"))
    ensures RemoveAll(s, "**") != [] && RemoveAll(s, "**")[0] == '*' ==> s[0] == '*'
    decreases |s|
  {
    if s != [] {
      if StartsWith(s, "**") {
        RemoveBoldLeavesNoDoubleStar(s[2..]);
      } else {
        var rest := RemoveAll(s[1..], "**");
        RemoveBoldLeavesNoDoubleStar(s[1..]);
        var r := [s[0]] + rest;
        assert RemoveAll(s, "**") == r;
        forall k | 0 <= k < |r| - 1 ensures !(r[k] == '*' && r[k + 1] == '*') {
          if k > 0 {
            assert r[k] == rest[k - 1] && r[k + 1] == rest[k];
          }
        }
      }
    }
  }

  /** `''.join(parts)`. */
  function Concat(parts: seq<string>): string
    decreases |parts|
  {
    if parts == [] then "" else parts[0] + Concat(parts[1..])
  }

  /** Joining two runs of parts one after the other is joining them all. */
  lemma {:induction false} ConcatAppend(a: seq<string>, b: seq<string>)
    ensures Concat(a + b) == Concat(a) + Concat(b)
    decreases |a|
  {
    if a != [] {
      assert (a + b)[0] == a[0] && (a + b)[1..] == a[1..] + b;
      ConcatAppend(a[1..], b);
    } else {
      assert a + b == b;
    }
  }
}
