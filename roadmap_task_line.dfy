/**
  `parseTaskLine` of lib/roadmap-parser.ts: the task a checkbox line describes, as a specification
  function and as the step-by-step procedure of the source with its `exec` loop over inline fields.
*/
module RoadmapTaskLine {
  import opened JsText
  import opened RoadmapTypes
  import opened RoadmapLines
  import opened RoadmapContent

  /** The task `parseTaskLine` returns for `line`, or `None` when the checkbox pattern fails. */
  function TaskLine(line: string, lineNumber: nat): Option<RoadmapTask>
  {
    match MatchCheckbox(line)
    case None => None
    case Some(m) =>
      var head := SplitTitle(Trim(m.content));
      var meta := ApplyFields(NoMeta, Fields(head.rest));
      var description := Trim(Strip(head.rest));
      Some(RoadmapTask(TaskId(TaskKind, lineNumber), head.title, m.mark == 'x' || m.mark == 'X', false,
                       head.link, meta.start, meta.completion, meta.version,
                       if description == [] then None else Some(description), [], m.indent / 2))
  }

  /** `parseTaskLine` as the source runs it: link or title first, then `exec` until it finds no field. */
  method ParseTaskLine(line: string, lineNumber: nat) returns (r: Option<RoadmapTask>)
    ensures r == TaskLine(line, lineNumber)
  {
    var checkbox := MatchCheckbox(line);
    if checkbox.None? {
      return None;
    }
    var m := checkbox.value;
    var level := m.indent / 2;
    var completed := LowerAscii([m.mark]) == "x";
    assert completed <==> m.mark == 'x' || m.mark == 'X' by {
      assert LowerAscii([m.mark]) == [LowerAscii([m.mark])[0]];
    }
    // The link-or-title step has no loop; it is the function that states it.
    var head := SplitTitle(Trim(m.content));
    var start, completion, version := ReadFields(head.rest);
    var description := Trim(Strip(head.rest));
    r := Some(RoadmapTask(TaskId(TaskKind, lineNumber), head.title, completed, false, head.link, start, completion, version,
                          if description == [] then None else Some(description), [], level));
  }

  /**
    The `exec` loop of `parseTaskLine`: each match found from `lastIndex` on sets the field its
    lower-cased key names, and the search resumes after the match.
  */
  method ReadFields(remaining: string) returns (start: Option<string>, completion: Option<string>, version: Option<string>)
    ensures Meta(start, completion, version) == ApplyFields(NoMeta, Fields(remaining))
  {
    start, completion, version := None, None, None;
    var lastIndex := 0;
    var found := Exec(remaining, lastIndex);
    assert remaining[0..] == remaining;
    while found.Some?
      invariant FoldsFrom(remaining, lastIndex, Meta(start, completion, version), ApplyFields(NoMeta, Fields(remaining)))
      invariant found == Exec(remaining, lastIndex)
      decreases |remaining| - lastIndex
    {
      var p, f := found.value.0, found.value.1;
      ghost var before := Meta(start, completion, version);
      var key := LowerAscii(f.key);
      if key == "start" {
        start := Some(Trim(f.value));
      } else if key == "completion" {
        completion := Some(Trim(f.value));
      } else if key == "version" {
        version := Some(Trim(f.value));
      }
      ghost var from := lastIndex;
      lastIndex := p + f.length;
      ExecStep(remaining, from, p, f, lastIndex, before, Meta(start, completion, version), ApplyFields(NoMeta, Fields(remaining)));
      found := Exec(remaining, lastIndex);
    }
    ExecNoneIsScanEnd(remaining, lastIndex);
  }

  /**
    A line is a task exactly when it is in the checkbox pattern's language. The task gets the id of
    its line, level `floor(indent / 2)`, no children, and is completed exactly when the character
    between the brackets is `x` or `X`.
  */
  lemma TaskLineHeader(line: string, lineNumber: nat, i: nat, j: nat, k: nat)
    requires CheckboxParse(line, i, j, k)
    ensures TaskLine(line, lineNumber).Some?
    ensures var t := TaskLine(line, lineNumber).value;
      && t.id == TaskId(TaskKind, lineNumber) && !t.isCategory && t.children == []
      && t.level == i / 2 && i == LeadingSpaces(line)
      && (t.completed <==> line[j + 1] == 'x' || line[j + 1] == 'X')
  {
    MatchCheckboxIsRegexMatch(line);
  }

  /** Lines outside the checkbox pattern's language are not tasks. */
  lemma NotCheckboxIsNoTask(line: string, lineNumber: nat)
    requires forall i, j, k :: !CheckboxParse(line, i, j, k)
    ensures TaskLine(line, lineNumber).None?
  {
    MatchCheckboxIsRegexMatch(line);
  }

  /** Any other character between the brackets makes the line no task at all. */
  lemma OtherMarkIsNoTask(indent: string, c: char, rest: string, lineNumber: nat)
    requires AllSpaces(indent) && !IsMark(c)
    ensures TaskLine(indent + "- [" + [c] + "]" + rest, lineNumber).None?
  {
    var line := indent + "- [" + [c] + "]" + rest;
    var n := |indent|;
    assert line[n] == '-' && line[n + 1] == ' ' && line[n + 2] == '[' && line[n + 3] == c;
    assert SpacesBetween(line, 0, n) by {
      forall t | 0 <= t < n ensures IsSpace(line[t]) { assert line[t] == indent[t]; }
    }
    SpacesFromExact(line, 0, n);
    SpacesFromExact(line, n + 1, n + 2);
    assert MatchCheckbox(line).None?;
  }

  /**
    A line that ends in `\r` (a CRLF file split on `\n`) is never a category, and is a task only when
    nothing but spaces follows the `]`: `.` refuses the `\r`, which only `\s*` can absorb.
  */
  lemma CarriageReturnLine(line: string, lineNumber: nat)
    requires line != [] && line[|line| - 1] == '\r'
    ensures ParseCategoryLine(line, lineNumber).None?
    ensures TaskLine(line, lineNumber).Some? ==>
      var t := TaskLine(line, lineNumber).value;
      t.title == [] && t.link.None? && t.description.None?
      && t.start.None? && t.completion.None? && t.version.None?
  {
    MatchCategoryIsRegexMatch(line);
    forall i, k ensures !CategoryParse(line, i, k) {
      assert IsLineTerminator(line[|line| - 1]);
    }
    if MatchCheckbox(line).Some? {
      MatchCheckboxIsRegexMatch(line);
      var m := MatchCheckbox(line).value;
      LastOfSuffix(line, m.content);
      assert m.content == [];
      assert Trim([]) == [] by { assert AllSpaces([]); }
      assert IndexOf([], '[', 0) == 0;
      assert Fields([]) == [] && Strip([]) == [];
    }
  }

  lemma LastOfSuffix(s: string, c: string)
    requires |c| <= |s| && c == s[|s| - |c|..]
    ensures c != [] ==> c[|c| - 1] == s[|s| - 1]
  {
  }

  /** A content that starts with `[text](url)` gives that title and link. */
  lemma TaskLineLink(line: string, lineNumber: nat, text: string, url: string, rest: string)
    requires MatchCheckbox(line).Some?
    requires Trim(MatchCheckbox(line).value.content) == "[" + text + "](" + url + ")" + rest
    requires IsLinkText(text) && IsLinkUrl(url)
    ensures TaskLine(line, lineNumber).value.title == text
    ensures TaskLine(line, lineNumber).value.link == Some(url)
  {
    SplitTitleWithLink(text, url, rest);
  }

  /**
    Without a leading link the title is the trimmed text before the first `[` of the trimmed content,
    it holds no `[`, and there is no link.
  */
  lemma TaskLinePlainTitle(line: string, lineNumber: nat)
    requires MatchCheckbox(line).Some?
    requires MatchLeadingLink(Trim(MatchCheckbox(line).value.content)).None?
    ensures TaskLine(line, lineNumber).value.title == Trim(BeforeBracket(Trim(MatchCheckbox(line).value.content)))
    ensures '[' !in TaskLine(line, lineNumber).value.title
    ensures TaskLine(line, lineNumber).value.link.None?
  {
    SplitTitleWithoutLink(Trim(MatchCheckbox(line).value.content));
  }

  /**
    Each of `start`, `completion` and `version` holds the trimmed value of the last field with that
    key, compared without regard to case, and is absent when no field has that key.
  */
  lemma TaskLineFields(line: string, lineNumber: nat)
    requires MatchCheckbox(line).Some?
    ensures var fs := Fields(SplitTitle(Trim(MatchCheckbox(line).value.content)).rest);
      var t := TaskLine(line, lineNumber).value;
      && t.start == LastValue(fs, "start")
      && t.completion == LastValue(fs, "completion")
      && t.version == LastValue(fs, "version")
  {
    var fs := Fields(SplitTitle(Trim(MatchCheckbox(line).value.content)).rest);
    ApplyFieldsIsLastValue(NoMeta, fs);
  }
}
