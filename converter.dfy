/** `markdown_to_html`: the document is split into lines, each stripped line is classified by its
    prefix under two flags (inside a code block, inside a list), each class appends zero, one or two
    HTML fragments, and the joined fragments are wrapped in a fixed page. */
module Converter {
  import opened Text
  import opened Inline
  import Template

  const DivOpen: string := "<div class=\"content\">"
  const DivClose: string := "</div>"
  const ListOpen: string := "<ul>"
  const ListClose: string := "</ul>"

  /** The scan after some lines: the fragments emitted so far and the two flags. */
  datatype State = State(parts: seq<string>, inCodeBlock: bool, inList: bool)

  /** `lines[0][2:].strip()`: the title taken from the first line. */
  function Title(content: string): string
  {
    Strip(Drop(SplitLines(content)[0], 2))
  }

  /** Before the loop: the title element when the document starts with `# `, then the content div;
      both flags down. */
  function Start(content: string): State
  {
    var title := if StartsWith(content, "# ") then ["<h1>" + Title(content) + "</h1>"] else [];
    State(title + [DivOpen], false, false)
  }

  function Emit(st: State, part: string): State
  {
    st.(parts := st.parts + [part])
  }

  /** Closes the open list, if any. */
  function CloseList(st: State): State
  {
    if st.inList then st.(parts := st.parts + [ListClose], inList := false) else st
  }

  /** A stripped line that none of the other classes claims. */
  predicate IsPlainText(line: string)
  {
    line != "" && !StartsWith(line, "```") && !StartsWith(line, "## ") && !StartsWith(line, "### ")
    && !StartsWith(line, "#### ") && !StartsWith(line, "- ") && !StartsWith(line, "* ")
    && !StartsWith(line, "|") && !StartsWith(line, "---")
  }

  /** One turn of the loop, on a line already stripped. */
  function Step(st: State, line: string): State
  {
    if StartsWith(line, "# ") && st.parts == [] then st
    else if StartsWith(line, "```") then st.(inCodeBlock := !st.inCodeBlock)
    else if st.inCodeBlock then Emit(st, "<pre>" + line + "</pre>")
    else if StartsWith(line, "## ") then Emit(st, "<h2>" + line[3..] + "</h2>")
    else if StartsWith(line, "### ") then Emit(st, "<h3>" + line[4..] + "</h3>")
    else if StartsWith(line, "#### ") then Emit(st, "<h4>" + line[5..] + "</h4>")
    else if StartsWith(line, "- ") || StartsWith(line, "* ") then
      var withList := if st.inList then st else Emit(st, ListOpen).(inList := true);
      Emit(withList, "<li>" + line[2..] + "</li>")
    else if StartsWith(line, "|") then st
    else if StartsWith(line, "---") then Emit(CloseList(st), "<hr>")
    else if line == "" then Emit(CloseList(st), "<br>")
    else
      var closed := CloseList(st);
      var text := CleanMarkers(line);
      if text != [] then Emit(closed, "<p>" + StripLinks(text) + "</p>") else closed
  }

  /** The loop run over `lines` from `st`, each line stripped before its turn. */
  function Scan(st: State, lines: seq<string>): State
    decreases |lines|
  {
    if lines == [] then st else Step(Scan(st, lines[..|lines| - 1]), Strip(lines[|lines| - 1]))
  }

  /** After the loop: an open list is closed, then the content div. */
  function Finish(st: State): seq<string>
  {
    CloseList(st).parts + [DivClose]
  }

  /** The fragments `markdown_to_html` joins for `content`. */
  function Parts(content: string): seq<string>
  {
    Finish(Scan(Start(content), SplitLines(content)))
  }

  /** The fragment list of `markdown_to_html`, built line by line. */
  method HtmlParts(content: string) returns (parts: seq<string>)
    ensures parts == Parts(content)
    ensures ListsBalanced(parts)
  {
    var lines := SplitLines(content);
    parts := [];
    if StartsWith(content, "# ") {
      var title := Strip(Drop(lines[0], 2));
      parts := parts + ["<h1>" + title + "</h1>"];
    }
    parts := parts + [DivOpen];
    var inCodeBlock, inList := false, false;
    for i := 0 to |lines|
      invariant State(parts, inCodeBlock, inList) == Scan(Start(content), lines[..i])
    {
      assert lines[..i + 1][..i] == lines[..i];
      var line := Strip(lines[i]);
      assert Scan(Start(content), lines[..i + 1]) == Step(State(parts, inCodeBlock, inList), line);
      if StartsWith(line, "# ") && parts == [] {
        continue;
      }
      if StartsWith(line, "```") {
        inCodeBlock := !inCodeBlock;
        continue;
      }
      if inCodeBlock {
        parts := parts + ["<pre>" + line + "</pre>"];
        continue;
      }
      if StartsWith(line, "## ") {
        parts := parts + ["<h2>" + line[3..] + "</h2>"];
      } else if StartsWith(line, "### ") {
        parts := parts + ["<h3>" + line[4..] + "</h3>"];
      } else if StartsWith(line, "#### ") {
        parts := parts + ["<h4>" + line[5..] + "</h4>"];
      } else if StartsWith(line, "- ") || StartsWith(line, "* ") {
        if !inList {
          parts := parts + [ListOpen];
          inList := true;
        }
        parts := parts + ["<li>" + line[2..] + "</li>"];
      } else if StartsWith(line, "|") {
        continue;
      } else if StartsWith(line, "---") {
        if inList {
          parts := parts + [ListClose];
          inList := false;
        }
        parts := parts + ["<hr>"];
      } else if line == "" {
        if inList {
          parts := parts + [ListClose];
          inList := false;
        }
        parts := parts + ["<br>"];
      } else {
        if inList {
          parts := parts + [ListClose];
          inList := false;
        }
        var text := CleanMarkers(line);
        if text != [] {
          text := StripLinks(text);
          parts := parts + ["<p>" + text + "</p>"];
        }
      }
    }
    assert lines[..|lines|] == lines;
    if inList {
      parts := parts + [ListClose];
    }
    parts := parts + [DivClose];
    ListBalance(content);
  }

  /** `markdown_to_html(content)`: the joined fragments inside the fixed page. */
  method MarkdownToHtml(content: string) returns (html: string)
    ensures html == Template.Head + Concat(Parts(content)) + Template.Tail
  {
    var parts := HtmlParts(content);
    html := Template.Head + Concat(parts) + Template.Tail;
  }

  // ---------------------------------------------------------------- growth of the fragment list

  /** A turn keeps what was emitted and adds at most two fragments. */
  lemma StepAppends(st: State, line: string)
    ensures |st.parts| <= |Step(st, line).parts| <= |st.parts| + 2
    ensures Step(st, line).parts[..|st.parts|] == st.parts
  {
  }

  /** Running more lines keeps what the first `k` emitted and adds at most two fragments per line. */
  lemma {:induction false} ScanAppends(st: State, lines: seq<string>, k: nat)
    requires k <= |lines|
    ensures |Scan(st, lines[..k]).parts| <= |Scan(st, lines).parts|
    ensures |Scan(st, lines).parts| <= |Scan(st, lines[..k]).parts| + 2 * (|lines| - k)
    ensures Scan(st, lines).parts[..|Scan(st, lines[..k]).parts|] == Scan(st, lines[..k]).parts
    decreases |lines|
  {
    if k < |lines| {
      var init := lines[..|lines| - 1];
      assert init[..k] == lines[..k];
      ScanAppends(st, init, k);
      StepAppends(Scan(st, init), Strip(lines[|lines| - 1]));
    } else {
      assert lines[..k] == lines;
    }
  }

  /** The loop over one line is one turn on that line, stripped. */
  lemma ScanFirstLine(st: State, lines: seq<string>)
    requires lines != []
    ensures Scan(st, lines[..1]) == Step(st, Strip(lines[0]))
  {
    assert lines[..1][..0] == [];
  }

  /** Every input line contributes at most two fragments; besides them there are at most four:
      the title, the two divs and a final list close. */
  lemma PartsBound(content: string)
    ensures |Parts(content)| <= 2 * |SplitLines(content)| + 4
  {
    var lines := SplitLines(content);
    ScanAppends(Start(content), lines, 0);
    assert lines[..0] == [];
  }

  /** The "skip title line" test at the top of the loop never succeeds: the content div is emitted
      before the loop starts, so the fragment list is never empty. */
  lemma TitleGuardNeverFires(content: string, k: nat)
    requires k < |SplitLines(content)|
    ensures Scan(Start(content), SplitLines(content)[..k]).parts != []
  {
    var lines := SplitLines(content)[..k];
    ScanAppends(Start(content), lines, 0);
    assert lines[..0] == [];
  }

  // ---------------------------------------------------------------- title and frame

  /** A document starting with `# ` has a first line that starts with `# ` too, so the title is that
      line with its marker cut off, stripped. */
  lemma FirstLineHoldsTitle(content: string)
    requires StartsWith(content, "# ")
    ensures StartsWith(SplitLines(content)[0], "# ")
    ensures Title(content) == Strip(SplitLines(content)[0][2..])
  {
    FirstLineKeepsPrefix(content, "# ");
  }

  /** The final fragment list extends what was emitted before the loop and ends with the closing div. */
  lemma PartsExtendStart(content: string)
    ensures |Start(content).parts| < |Parts(content)|
    ensures Parts(content)[..|Start(content).parts|] == Start(content).parts
    ensures Parts(content)[|Parts(content)| - 1] == DivClose
  {
    var lines := SplitLines(content);
    var st := Scan(Start(content), lines);
    ScanAppends(Start(content), lines, 0);
    assert lines[..0] == [];
    assert CloseList(st).parts[..|st.parts|] == st.parts;
  }

  /** The fragments open with the title element exactly when the document starts with `# `, then
      the content div, and always end with the closing div. */
  lemma TitleAndFrame(content: string)
    ensures |Parts(content)| >= 2
    ensures Parts(content)[|Parts(content)| - 1] == DivClose
    ensures StartsWith(content, "# ") ==>
      Parts(content)[0] == "<h1>" + Title(content) + "</h1>" && Parts(content)[1] == DivOpen
    ensures !StartsWith(content, "# ") ==> Parts(content)[0] == DivOpen
    ensures StartsWith(Parts(content)[0], "<h1>") <==> StartsWith(content, "# ")
  {
    PartsExtendStart(content);
    var p := Parts(content);
    var start := Start(content).parts;
    assert p[0] == start[0];
    if StartsWith(content, "# ") {
      var h1 := "<h1>" + Title(content) + "</h1>";
      assert start == [h1, DivOpen];
      assert p[1] == start[1];
      assert h1[..4] == "<h1>";
    } else {
      assert start == [DivOpen];
      assert DivOpen[1] != "<h1>"[1];
    }
  }

  /** The joined fragments open with the title element (when there is one) and the content div and
      close with the closing div. */
  lemma JoinedBodyFrame(content: string)
    ensures StartsWith(content, "# ") ==>
      StartsWith(Concat(Parts(content)), "<h1>" + Title(content) + "</h1>" + DivOpen)
    ensures !StartsWith(content, "# ") ==> StartsWith(Concat(Parts(content)), DivOpen)
    ensures EndsWith(Concat(Parts(content)), DivClose)
  {
    var p := Parts(content);
    var start := Start(content).parts;
    PartsExtendStart(content);
    assert p == start + p[|start|..];
    ConcatAppend(start, p[|start|..]);
    if StartsWith(content, "# ") {
      var h1 := "<h1>" + Title(content) + "</h1>";
      assert start == [h1, DivOpen];
      assert Concat(start) == h1 + DivOpen by {
        assert start[1..] == [DivOpen];
        assert Concat([DivOpen]) == DivOpen + Concat([]);
      }
      var whole := Concat(p);
      var rest := Concat(p[|start|..]);
      assert whole == h1 + DivOpen + rest;
      assert whole[..|h1 + DivOpen|] == h1 + DivOpen;
    } else {
      assert start == [DivOpen];
      assert Concat(start) == DivOpen + Concat([]);
      assert Concat(p)[..|DivOpen|] == DivOpen;
    }
    assert p == p[..|p| - 1] + [DivClose];
    ConcatAppend(p[..|p| - 1], [DivClose]);
    assert Concat([DivClose]) == DivClose + Concat([]);
    var front := Concat(p[..|p| - 1]);
    assert Concat(p) == front + DivClose;
    assert Concat(p)[|Concat(p)| - |DivClose|..] == DivClose;
  }

  // ---------------------------------------------------------------- what each kind of line does

  /** A fence line only flips the code-block flag. */
  lemma FenceFlipsCodeBlock(st: State, line: string)
    requires StartsWith(line, "```")
    ensures Step(st, line) == st.(inCodeBlock := !st.inCodeBlock)
  {
    assert line[0] == '`';
  }

  /** Inside a code block every other line becomes one preformatted fragment of the stripped line; the
      list flag is untouched. */
  lemma CodeLineIsPreformatted(st: State, line: string)
    requires st.parts != [] && st.inCodeBlock && !StartsWith(line, "```")
    ensures Step(st, line) == st.(parts := st.parts + ["<pre>" + line + "</pre>"])
  {
  }

  /** Outside a code block a table row emits nothing and changes nothing. */
  lemma TableRowIgnored(st: State, line: string)
    requires !st.inCodeBlock && StartsWith(line, "|")
    ensures Step(st, line) == st
  {
    assert line[0] == '|';
  }

  /** Outside a code block a header line emits one `hN` element holding the text after its marker and
      neither flag changes; an open list stays open. */
  lemma HeaderElement(st: State, line: string)
    requires !st.inCodeBlock
    ensures StartsWith(line, "## ") ==> Step(st, line) == st.(parts := st.parts + ["<h2>" + line[3..] + "</h2>"])
    ensures StartsWith(line, "### ") ==> Step(st, line) == st.(parts := st.parts + ["<h3>" + line[4..] + "</h3>"])
    ensures StartsWith(line, "#### ") ==> Step(st, line) == st.(parts := st.parts + ["<h4>" + line[5..] + "</h4>"])
  {
    if StartsWith(line, "## ") {
      PrefixesClash(line, "## ", "# ", 1);
      PrefixesClash(line, "## ", "```", 0);
    }
    if StartsWith(line, "### ") {
      PrefixesClash(line, "### ", "# ", 1);
      PrefixesClash(line, "### ", "```", 0);
      PrefixesClash(line, "### ", "## ", 2);
    }
    if StartsWith(line, "#### ") {
      PrefixesClash(line, "#### ", "# ", 1);
      PrefixesClash(line, "#### ", "```", 0);
      PrefixesClash(line, "#### ", "## ", 2);
      PrefixesClash(line, "#### ", "### ", 3);
    }
  }

  /** Outside a code block a list item emits its element, preceded by the list opening only when no
      list is open, and leaves a list open. */
  lemma ListItemElement(st: State, line: string)
    requires !st.inCodeBlock
    requires StartsWith(line, "- ") || StartsWith(line, "* ")
    ensures Step(st, line).parts
      == st.parts + (if st.inList then [] else [ListOpen]) + ["<li>" + line[2..] + "</li>"]
    ensures Step(st, line).inList && !Step(st, line).inCodeBlock
  {
    assert line[0] == '-' || line[0] == '*';
  }

  /** Outside a code block a rule or a blank line closes an open list, then emits `<hr>` or `<br>`;
      no list is open afterwards. */
  lemma RuleAndBlankLine(st: State, line: string)
    requires !st.inCodeBlock
    ensures StartsWith(line, "---") ==>
        Step(st, line) == State(st.parts + (if st.inList then [ListClose] else []) + ["<hr>"], false, false)
    ensures line == "" ==>
        Step(st, line) == State(st.parts + (if st.inList then [ListClose] else []) + ["<br>"], false, false)
  {
    if StartsWith(line, "---") {
      assert line[0] == '-' && line[1] == '-';
    }
  }

  /** Outside a code block plain text closes an open list and emits a paragraph only when the line is
      not empty once its markers are removed; no list is open afterwards. */
  lemma PlainTextParagraph(st: State, line: string)
    requires st.parts != [] && !st.inCodeBlock && IsPlainText(line)
    ensures Step(st, line).parts == st.parts + (if st.inList then [ListClose] else [])
      + (if CleanMarkers(line) != [] then ["<p>" + ParagraphText(line) + "</p>"] else [])
    ensures !Step(st, line).inList && !Step(st, line).inCodeBlock
  {
  }

  /** The stripped title line is plain text whose paragraph text starts with `#`. */
  lemma TitleLineIsPlainText(content: string)
    requires StartsWith(content, "# ")
    ensures IsPlainText(Strip(SplitLines(content)[0]))
    ensures CleanMarkers(Strip(SplitLines(content)[0])) != []
    ensures ParagraphText(Strip(SplitLines(content)[0])) != []
    ensures ParagraphText(Strip(SplitLines(content)[0]))[0] == '#'
  {
    var raw := SplitLines(content)[0];
    FirstLineKeepsPrefix(content, "# ");
    assert raw[0] == '#' && raw[1] == ' ';
    StripKeepsFirst(raw);
    var line := Strip(raw);
    assert line[0] == '#';
    assert StartsWith(line, "#");
    PrefixesClash(line, "#", "```", 0);
    PrefixesClash(line, "#", "- ", 0);
    PrefixesClash(line, "#", "* ", 0);
    PrefixesClash(line, "#", "|", 0);
    PrefixesClash(line, "#", "---", 0);
    if |line| >= 2 {
      assert line[1] == raw[1];
      assert StartsWith(line, "# ");
      PrefixesClash(line, "# ", "## ", 1);
      PrefixesClash(line, "# ", "### ", 1);
      PrefixesClash(line, "# ", "#### ", 1);
    }
    RemoveAllKeepsFirst(line, "**");
    var a := RemoveAll(line, "**");
    RemoveAllKeepsFirst(a, "`");
    var b := RemoveAll(a, "`");
    RemoveAllKeepsFirst(b, "`");
    var c := CleanMarkers(line);
    assert c != [] && c[0] == '#';
    StripLinksKeepsFirst(c);
  }

  /** The title line is not skipped: it is also the first line of the loop, where it is plain text, so
      the fragment after the content div is a paragraph whose text starts with `#`. */
  lemma TitleLineAlsoParagraph(content: string)
    requires StartsWith(content, "# ")
    ensures |Parts(content)| >= 3
    ensures Parts(content)[2] == "<p>" + ParagraphText(Strip(SplitLines(content)[0])) + "</p>"
  {
    var lines := SplitLines(content);
    var line := Strip(lines[0]);
    var st := Start(content);
    TitleLineIsPlainText(content);
    PlainTextParagraph(st, line);
    var first := Step(st, line);
    assert first.parts == st.parts + ["<p>" + ParagraphText(line) + "</p>"];
    ScanFirstLine(st, lines);
    ScanAppends(st, lines, 1);
    var full := Scan(st, lines).parts;
    assert Parts(content)[..|full|] == full;
    assert full[..3] == first.parts;
  }

  /** A title line free of `*`, backticks and `[` becomes the paragraph `<p># Title</p>` word for word. */
  lemma TitleLineVerbatimParagraph(content: string)
    requires StartsWith(content, "# ")
    requires var line := Strip(SplitLines(content)[0]); '*' !in line && '`' !in line && '[' !in line
    ensures |Parts(content)| >= 3
    ensures Parts(content)[2] == "<p>" + Strip(SplitLines(content)[0]) + "</p>"
  {
    TitleLineAlsoParagraph(content);
    ParagraphTextUnchanged(Strip(SplitLines(content)[0]));
  }

  /** Inline cleanup leaves a line with no `*`, backtick or `[` as it is. */
  lemma ParagraphTextUnchanged(line: string)
    requires '*' !in line && '`' !in line && '[' !in line
    ensures ParagraphText(line) == line
  {
    RemoveAbsent(line, "**");
    RemoveAbsent(line, "`");
    StripLinksWithoutBracket(line);
  }

  // ---------------------------------------------------------------- list balance

  /** How a fragment changes the number of open lists. */
  function ListDelta(part: string): int
  {
    if part == ListOpen then 1 else if part == ListClose then -1 else 0
  }

  /** The number of `<ul>` fragments minus the number of `</ul>` fragments. */
  function ListDepth(parts: seq<string>): int
    decreases |parts|
  {
    if parts == [] then 0 else ListDepth(parts[..|parts| - 1]) + ListDelta(parts[|parts| - 1])
  }

  /** Along the fragments never more than one list is open, and none is closed that was not opened. */
  ghost predicate ListsNested(parts: seq<string>)
  {
    forall k :: 0 <= k <= |parts| ==> 0 <= ListDepth(parts[..k]) <= 1
  }

  /** Nested and every list closed at the end. */
  ghost predicate ListsBalanced(parts: seq<string>)
  {
    ListsNested(parts) && ListDepth(parts) == 0
  }

  /** The list flag holds exactly when one more `<ul>` than `</ul>` was emitted. */
  ghost predicate ListFlagInvariant(st: State)
  {
    ListsNested(st.parts) && ListDepth(st.parts) == (if st.inList then 1 else 0)
  }

  lemma EmitKeepsNesting(parts: seq<string>, part: string)
    requires ListsNested(parts) && 0 <= ListDepth(parts) + ListDelta(part) <= 1
    ensures ListDepth(parts + [part]) == ListDepth(parts) + ListDelta(part)
    ensures ListsNested(parts + [part])
  {
    var q := parts + [part];
    assert q[..|parts|] == parts;
    forall k | 0 <= k <= |q| ensures 0 <= ListDepth(q[..k]) <= 1 {
      if k <= |parts| {
        assert q[..k] == parts[..k];
      } else {
        assert q[..k] == q;
      }
    }
  }

  lemma CloseListKeepsInvariant(st: State)
    requires ListFlagInvariant(st)
    ensures ListFlagInvariant(CloseList(st)) && !CloseList(st).inList
  {
    if st.inList {
      EmitKeepsNesting(st.parts, ListClose);
    }
  }

  /** A fragment longer than `</ul>` is neither list tag. */
  lemma LongPartIsNeutral(part: string)
    requires |part| > 5
    ensures ListDelta(part) == 0
  {
  }

  /** Emitting a fragment that is neither list tag keeps the invariant and the flags. */
  lemma EmitNeutralKeepsInvariant(st: State, part: string)
    requires ListFlagInvariant(st) && ListDelta(part) == 0
    ensures ListFlagInvariant(Emit(st, part))
  {
    EmitKeepsNesting(st.parts, part);
  }

  /** Every turn keeps the list flag in step with the emitted fragments. */
  lemma StepKeepsListInvariant(st: State, line: string)
    requires ListFlagInvariant(st)
    ensures ListFlagInvariant(Step(st, line))
  {
    var next := Step(st, line);
    if StartsWith(line, "# ") && st.parts == [] {
      assert next == st;
    } else if StartsWith(line, "```") {
      assert next == st.(inCodeBlock := !st.inCodeBlock);
    } else if st.inCodeBlock {
      var part := "<pre>" + line + "</pre>";
      assert next == Emit(st, part);
      LongPartIsNeutral(part);
      EmitNeutralKeepsInvariant(st, part);
    } else if StartsWith(line, "## ") {
      var part := "<h2>" + line[3..] + "</h2>";
      assert next == Emit(st, part);
      LongPartIsNeutral(part);
      EmitNeutralKeepsInvariant(st, part);
    } else if StartsWith(line, "### ") {
      var part := "<h3>" + line[4..] + "</h3>";
      assert next == Emit(st, part);
      LongPartIsNeutral(part);
      EmitNeutralKeepsInvariant(st, part);
    } else if StartsWith(line, "#### ") {
      var part := "<h4>" + line[5..] + "</h4>";
      assert next == Emit(st, part);
      LongPartIsNeutral(part);
      EmitNeutralKeepsInvariant(st, part);
    } else if StartsWith(line, "- ") || StartsWith(line, "* ") {
      var withList := if st.inList then st else Emit(st, ListOpen).(inList := true);
      if !st.inList {
        EmitKeepsNesting(st.parts, ListOpen);
      }
      assert ListFlagInvariant(withList);
      var part := "<li>" + line[2..] + "</li>";
      assert next == Emit(withList, part);
      LongPartIsNeutral(part);
      EmitNeutralKeepsInvariant(withList, part);
    } else if StartsWith(line, "|") {
      assert next == st;
    } else if StartsWith(line, "---") {
      CloseListKeepsInvariant(st);
      assert next == Emit(CloseList(st), "<hr>");
      assert "<hr>"[1] != ListOpen[1] && "<hr>"[1] != ListClose[1];
      EmitNeutralKeepsInvariant(CloseList(st), "<hr>");
    } else if line == "" {
      CloseListKeepsInvariant(st);
      assert next == Emit(CloseList(st), "<br>");
      assert "<br>"[1] != ListOpen[1] && "<br>"[1] != ListClose[1];
      EmitNeutralKeepsInvariant(CloseList(st), "<br>");
    } else {
      CloseListKeepsInvariant(st);
      var text := CleanMarkers(line);
      if text != [] {
        var part := "<p>" + StripLinks(text) + "</p>";
        assert next == Emit(CloseList(st), part);
        LongPartIsNeutral(part);
        EmitNeutralKeepsInvariant(CloseList(st), part);
      } else {
        assert next == CloseList(st);
      }
    }
  }

  lemma {:induction false} ScanKeepsListInvariant(st: State, lines: seq<string>)
    requires ListFlagInvariant(st)
    ensures ListFlagInvariant(Scan(st, lines))
    decreases |lines|
  {
    if lines != [] {
      ScanKeepsListInvariant(st, lines[..|lines| - 1]);
      StepKeepsListInvariant(Scan(st, lines[..|lines| - 1]), Strip(lines[|lines| - 1]));
    }
  }

  /** Before the loop no list is open and no `<ul>` or `</ul>` has been emitted. */
  lemma StartKeepsListInvariant(content: string)
    ensures ListFlagInvariant(Start(content))
    ensures !Start(content).inList && !Start(content).inCodeBlock
  {
    var title := if StartsWith(content, "# ") then ["<h1>" + Title(content) + "</h1>"] else [];
    var none: seq<string> := [];
    assert ListsNested(none) by {
      assert none[..0] == none;
    }
    if title != [] {
      EmitKeepsNesting(none, title[0]);
      assert none + [title[0]] == title;
    }
    EmitKeepsNesting(title, DivOpen);
  }

  /** At every turn of `markdown_to_html`'s loop, after the first `i` lines, `in_list` is set exactly
      when one more `<ul>` than `</ul>` has been emitted, and no prefix has two lists open. */
  lemma LoopKeepsListInvariant(content: string, i: nat)
    requires i <= |SplitLines(content)|
    ensures ListFlagInvariant(Scan(Start(content), SplitLines(content)[..i]))
  {
    StartKeepsListInvariant(content);
    ScanKeepsListInvariant(Start(content), SplitLines(content)[..i]);
  }

  /** `<ul>` and `</ul>` fragments alternate and every list is closed by the end. */
  lemma ListBalance(content: string)
    ensures ListsBalanced(Parts(content))
  {
    var st := Start(content);
    StartKeepsListInvariant(content);
    var last := Scan(st, SplitLines(content));
    ScanKeepsListInvariant(st, SplitLines(content));
    CloseListKeepsInvariant(last);
    EmitKeepsNesting(CloseList(last).parts, DivClose);
  }

  /** The depth after one more fragment. */
  lemma DepthAfter(parts: seq<string>, k: nat)
    requires k < |parts|
    ensures ListDepth(parts[..k + 1]) == ListDepth(parts[..k]) + ListDelta(parts[k])
  {
    assert parts[..k + 1][..k] == parts[..k];
  }

  /** Without a `</ul>` between them, the depth can only grow. */
  lemma {:induction false} DepthGrowsWithoutClose(parts: seq<string>, a: nat, b: nat)
    requires a <= b <= |parts|
    requires forall k :: a <= k < b ==> parts[k] != ListClose
    ensures ListDepth(parts[..a]) <= ListDepth(parts[..b])
    decreases b - a
  {
    if a < b {
      DepthGrowsWithoutClose(parts, a, b - 1);
      DepthAfter(parts, b - 1);
    }
  }

  /** Between two `<ul>` fragments of a nested list there is always a `</ul>`. */
  lemma ListOpensAlternate(parts: seq<string>, i: nat, j: nat)
    requires ListsNested(parts)
    requires i < j < |parts| && parts[i] == ListOpen && parts[j] == ListOpen
    ensures exists k :: i < k < j && parts[k] == ListClose
  {
    if forall k :: i < k < j ==> parts[k] != ListClose {
      DepthAfter(parts, i);
      DepthGrowsWithoutClose(parts, i + 1, j);
      DepthAfter(parts, j);
      assert false;
    }
  }
}
