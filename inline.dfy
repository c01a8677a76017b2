/** Inline cleanup of a plain-text line: bold and code markers removed, Markdown links reduced to their text. */
module Inline {
  import opened Text

  datatype Option<T> = None | Some(value: T)

  /** `s` opens with a match of the link pattern `\[([^\]]+)\]\([^\)]+\)` that ends at `e`:
      the link text is `s[1..t]`, the url `s[t + 2..e - 1]`, both non-empty, the text holds no `]`
      and the url no `)`. */
  predicate IsLink(s: string, t: int, e: int)
  {
    1 < t && t + 3 < e <= |s| && s[0] == '[' && s[t] == ']' && s[t + 1] == '(' && s[e - 1] == ')'
    && (forall k :: 1 <= k < t ==> s[k] != ']')
    && (forall k :: t + 2 <= k < e - 1 ==> s[k] != ')')
  }

  /** The first index at or after `i` that holds `stop`, or `|s|` when there is none. */
  function NextIndexOf(s: string, i: nat, stop: char): (j: nat)
    requires i <= |s|
    ensures i <= j <= |s|
    ensures forall k :: i <= k < j ==> s[k] != stop
    ensures j < |s| ==> s[j] == stop
    decreases |s| - i
  {
    if i == |s| || s[i] == stop then i else NextIndexOf(s, i + 1, stop)
  }

  /** The link pattern tried at the start of `s`: the end of the link text and the end of the match.
      Each character class excludes the delimiter that follows it, so a match is unique: whenever the
      pattern matches, this is the match. */
  function LinkAt(s: string): (m: Option<(nat, nat)>)
    ensures m.Some? ==> IsLink(s, m.value.0, m.value.1)
    ensures forall t, e :: IsLink(s, t, e) ==> m == Some((t, e))
  {
    if s == [] || s[0] != '[' then None
    else
      var t := NextIndexOf(s, 1, ']');
      if t == 1 || t + 1 >= |s| || s[t + 1] != '(' then None
      else
        var u := NextIndexOf(s, t + 2, ')');
        if u == t + 2 || u == |s| then None else Some((t, u + 1))
  }

  /** `re.sub(r'\[([^\]]+)\]\([^\)]+\)', r'\1', s)`: scanning left to right, every match is replaced by
      its link text and scanning resumes after it; elsewhere characters are copied. The result is no
      longer than `s`, holds no character `s` lacks, and is empty only when `s` is. */
  function StripLinks(s: string): (r: string)
    ensures |r| <= |s|
    ensures forall c :: c in r ==> c in s
    ensures r == [] <==> s == []
    decreases |s|
  {
    if s == [] then []
    else
      match LinkAt(s)
      case Some((t, e)) => s[1..t] + StripLinks(s[e..])
      case None => [s[0]] + StripLinks(s[1..])
  }

  /** A link `[text](url)` with non-empty text and url is replaced by its text. */
  lemma StripLinksReplacesLink(text: string, url: string, rest: string)
    requires text != [] && ']' !in text
    requires url != [] && ')' !in url
    ensures StripLinks("[" + text + "](" + url + ")" + rest) == text + StripLinks(rest)
  {
    var s := "[" + text + "](" + url + ")" + rest;
    var t, e := |text| + 1, |text| + |url| + 4;
    assert s[1..t] == text;
    assert s[t + 2..e - 1] == url;
    assert s[e..] == rest;
    forall k | 1 <= k < t ensures s[k] != ']' {
      assert s[k] == text[k - 1];
    }
    forall k | t + 2 <= k < e - 1 ensures s[k] != ')' {
      assert s[k] == url[k - t - 2];
    }
    assert IsLink(s, t, e);
  }

  /** Text with no `[` holds no link and is left as it is. */
  lemma {:induction false} StripLinksWithoutBracket(s: string)
    requires '[' !in s
    ensures StripLinks(s) == s
    decreases |s|
  {
    if s != [] {
      assert s[0] != '[' && '[' !in s[1..];
      StripLinksWithoutBracket(s[1..]);
    }
  }

  /** When `s` does not open with `[`, its first character is kept in front. */
  lemma StripLinksKeepsFirst(s: string)
    requires s != [] && s[0] != '['
    ensures StripLinks(s) == [s[0]] + StripLinks(s[1..])
  {
  }

  /** A `[` (or any first character) that opens no match is copied and the scan moves on by one. */
  lemma StripLinksCopiesUnmatched(s: string)
    requires s != [] && forall t, e :: !IsLink(s, t, e)
    ensures StripLinks(s) == [s[0]] + StripLinks(s[1..])
  {
  }

  /** `line.replace('**', '').replace('`', '').replace('`', '')`, the text tested before a paragraph is emitted. */
  function CleanMarkers(line: string): string
  {
    RemoveAll(RemoveAll(RemoveAll(line, "**"), "`"), "`")
  }

  /** The text of a paragraph: the cleaned line with its links reduced to their text. */
  function ParagraphText(line: string): string
  {
    StripLinks(CleanMarkers(line))
  }

  /** The cleanup drops every backtick and keeps every other character except `*`, as often as the
      line has it; the second backtick pass changes nothing. */
  lemma CleanMarkersDropsBackticks(line: string)
    ensures '`' !in CleanMarkers(line)
    ensures CleanMarkers(line) == RemoveAll(RemoveAll(line, "**"), "`")
    ensures forall x :: x != '`' && x != '*' ==> multiset(CleanMarkers(line))[x] == multiset(line)[x]
  {
    var once := RemoveAll(RemoveAll(line, "**"), "`");
    RemoveCharExact(RemoveAll(line, "**"), '`');
    RemoveAbsent(once, "`");
    RemoveBoldKeepsOthers(line);
  }

  /** Dropping `**` keeps every character other than `*`, as often as `s` has it. */
  lemma {:induction false} RemoveBoldKeepsOthers(s: string)
    ensures forall x :: x != '*' ==> multiset(RemoveAll(s, "**"))[x] == multiset(s)[x]
    decreases |s|
  {
    if s != [] {
      assert s == [s[0]] + s[1..];
      if StartsWith(s, "**") {
        RemoveBoldKeepsOthers(s[2..]);
        assert s == s[..2] + s[2..];
        assert s[..2] == "**";
      } else {
        RemoveBoldKeepsOthers(s[1..]);
      }
    }
  }

  /** Paragraph text holds no backtick, is empty exactly when the cleaned line is, and holds no
      character the line lacks. */
  lemma ParagraphTextClean(line: string)
    ensures '`' !in ParagraphText(line)
    ensures ParagraphText(line) == [] <==> CleanMarkers(line) == []
    ensures forall c :: c in ParagraphText(line) ==> c in line
  {
    CleanMarkersDropsBackticks(line);
  }

  /** Bold markers are gone after the first pass, but the backtick pass that follows can join two
      single asterisks into a new `**`: the cleanup does not promise text free of `**`. */
  lemma BacktickRemovalCanJoinStars()
    ensures NoDoubleStar(RemoveAll("*`*", "**"))
    ensures CleanMarkers("*`*") == "**"
  {
    RemoveBoldLeavesNoDoubleStar("*`*");
    assert RemoveAll("*`*", "**") == "*`*" by {
      assert !StartsWith("*`*", "**");
      assert !StartsWith("`*", "**");
      assert !StartsWith("*", "**");
    }
    assert RemoveAll("*`*", "`") == "**" by {
      assert StartsWith("`*", "`");
    }
    assert RemoveAll("**", "`") == "**";
  }
}
