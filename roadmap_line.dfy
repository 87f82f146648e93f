/**
  The two line patterns of lib/roadmap-parser.ts: the checkbox pattern of `parseTaskLine` and the
  list-item pattern of `parseCategoryLine`. Each regular expression is a hand-written matcher that
  makes the same greedy and backtracking choices as JavaScript's engine, and a lemma relates the
  matcher to the language the expression describes.
*/
module RoadmapLines {
  import opened JsText
  import opened RoadmapTypes

  // ---------------------------------------------------------------------------------------------
  // The checkbox pattern /^(\s*)-\s*\[([ xX])\]\s*(.*)$/
  // ---------------------------------------------------------------------------------------------

  predicate IsMark(c: char)
  {
    c == ' ' || c == 'x' || c == 'X'
  }

  /** The three captures of the checkbox pattern: the indent's length, the mark and the content. */
  datatype CheckboxMatch = CheckboxMatch(indent: nat, mark: char, content: string)

  /**
    `line` is in the language of the checkbox pattern, read with the dash at `i`, the `[` at `j`
    and the content starting at `k`.
  */
  ghost predicate CheckboxParse(line: string, i: int, j: int, k: int)
  {
    && 0 <= i < j && j + 3 <= k <= |line|
    && SpacesBetween(line, 0, i) && line[i] == '-'
    && SpacesBetween(line, i + 1, j) && line[j] == '[' && IsMark(line[j + 1]) && line[j + 2] == ']'
    && SpacesBetween(line, j + 3, k) && NoLineTerminatorFrom(line, k)
  }

  /** The match JavaScript finds: every `\s` run as long as it can be, then `.*` up to the end. */
  function MatchCheckbox(line: string): Option<CheckboxMatch>
  {
    var i := LeadingSpaces(line);
    if i < |line| && line[i] == '-' then
      var j := SpacesFrom(line, i + 1);
      if j + 3 <= |line| && line[j] == '[' && IsMark(line[j + 1]) && line[j + 2] == ']' then
        var k := SpacesFrom(line, j + 3);
        if NoLineTerminatorFrom(line, k) then Some(CheckboxMatch(i, line[j + 1], line[k..])) else None
      else None
    else None
  }

  /**
    The matcher accepts exactly the lines of the pattern's language. Every reading agrees on the
    dash and the bracket, so the indent and the mark are determined by the line; the captured
    content is the rest of the line after the longest run of spaces.
  */
  lemma MatchCheckboxIsRegexMatch(line: string)
    ensures MatchCheckbox(line).Some? <==> exists i, j, k :: CheckboxParse(line, i, j, k)
    ensures MatchCheckbox(line).Some? ==>
      var m := MatchCheckbox(line).value;
      && m.indent == LeadingSpaces(line)
      && (m.content == [] || !IsSpace(m.content[0]))
      && |m.content| <= |line| && m.content == line[|line| - |m.content|..] && NoLineTerminator(m.content)
      && forall i, j, k | CheckboxParse(line, i, j, k) ::
           i == m.indent && line[j + 1] == m.mark && k <= |line| - |m.content|
  {
    if MatchCheckbox(line).Some? {
      var i := LeadingSpaces(line);
      var j := SpacesFrom(line, i + 1);
      var k := SpacesFrom(line, j + 3);
      assert CheckboxParse(line, i, j, k);
    }
    forall i, j, k | CheckboxParse(line, i, j, k)
      ensures MatchCheckbox(line).Some? && MatchCheckbox(line).value.indent == i
      ensures MatchCheckbox(line).value.mark == line[j + 1]
      ensures k <= |line| - |MatchCheckbox(line).value.content|
    {
      CheckboxGreedy(line, i, j, k);
    }
  }

  /** Any reading of the pattern is stretched by the greedy matcher, which then also succeeds. */
  lemma CheckboxGreedy(line: string, i: nat, j: nat, k: nat)
    requires CheckboxParse(line, i, j, k)
    ensures MatchCheckbox(line) == Some(CheckboxMatch(i, line[j + 1], line[SpacesFrom(line, j + 3)..]))
    ensures SpacesFrom(line, j + 3) >= k
  {
    SpacesFromExact(line, 0, i);
    assert LeadingSpaces(line) == i;
    SpacesFromExact(line, i + 1, j);
    SpacesFromAtLeast(line, j + 3, k);
    var k0 := SpacesFrom(line, j + 3);
    assert NoLineTerminatorFrom(line, k0);
  }

  // ---------------------------------------------------------------------------------------------
  // The category pattern /^(\s*)-\s+(?!\[)(.+)$/
  // ---------------------------------------------------------------------------------------------

  /** The two captures of the category pattern: the indent's length and the text. */
  datatype CategoryMatch = CategoryMatch(indent: nat, text: string)

  /** `line` is in the language of the category pattern, read with the dash at `i` and the text from `k`. */
  ghost predicate CategoryParse(line: string, i: int, k: int)
  {
    && 0 <= i && i + 1 < k < |line|
    && SpacesBetween(line, 0, i) && line[i] == '-' && SpacesBetween(line, i + 1, k)
    && line[k] != '[' && NoLineTerminatorFrom(line, k)
  }

  /** What may follow the `\s+` run when it ends just before `k`: `(?!\[)(.+)$`. */
  predicate CategoryTail(line: string, k: nat)
  {
    k < |line| && line[k] != '[' && NoLineTerminatorFrom(line, k)
  }

  /** The backtracking of `\s+`: end the run at `k`, then `k - 1`, ..., down to `lo`; keep the first fit. */
  function BacktrackRun(line: string, lo: nat, k: nat): (r: Option<nat>)
    ensures r.Some? ==> lo <= r.value <= k && CategoryTail(line, r.value)
    ensures r.Some? ==> forall k' :: r.value < k' <= k ==> !CategoryTail(line, k')
    ensures r.None? ==> forall k' :: lo <= k' <= k ==> !CategoryTail(line, k')
    decreases k
  {
    if k < lo then None
    else if CategoryTail(line, k) then Some(k)
    else if k == 0 then None
    else BacktrackRun(line, lo, k - 1)
  }

  /** The match JavaScript finds: the whole leading `\s` run, then the longest `\s+` run that lets the rest match. */
  function MatchCategory(line: string): Option<CategoryMatch>
  {
    var i := LeadingSpaces(line);
    if i < |line| && line[i] == '-' then
      match BacktrackRun(line, i + 2, SpacesFrom(line, i + 1))
      case None => None
      case Some(k) => Some(CategoryMatch(i, line[k..]))
    else None
  }

  /**
    The matcher accepts exactly the lines of the pattern's language, and captures the reading
    whose `\s+` run is the longest one that lets the rest of the line match.
  */
  lemma MatchCategoryIsRegexMatch(line: string)
    ensures MatchCategory(line).Some? <==> exists i, k :: CategoryParse(line, i, k)
    ensures MatchCategory(line).Some? ==>
      var m := MatchCategory(line).value;
      && m.indent == LeadingSpaces(line)
      && |m.text| <= |line| && m.text == line[|line| - |m.text|..]
      && CategoryParse(line, m.indent, |line| - |m.text|)
      && forall i, k | CategoryParse(line, i, k) :: i == m.indent && k <= |line| - |m.text|
  {
    var i := LeadingSpaces(line);
    forall i', k' | CategoryParse(line, i', k')
      ensures i' == i && MatchCategory(line).Some? && k' <= |line| - |MatchCategory(line).value.text|
    {
      SpacesFromExact(line, 0, i');
      var top := SpacesFrom(line, i' + 1);
      SpacesFromAtLeast(line, i' + 1, k');
      assert CategoryTail(line, k');
    }
    if MatchCategory(line).Some? {
      var k := BacktrackRun(line, i + 2, SpacesFrom(line, i + 1)).value;
      assert CategoryParse(line, i, k);
    }
  }

  /** `parseCategoryLine`: a list item that is not a checkbox becomes a category heading. */
  function ParseCategoryLine(line: string, lineNumber: nat): (r: Option<RoadmapTask>)
    ensures r.Some? <==> exists i, k :: CategoryParse(line, i, k)
    ensures r.Some? ==>
      && r.value.id == TaskId(CategoryKind, lineNumber)
      && r.value.isCategory && !r.value.completed
      && r.value.level == LeadingSpaces(line) / 2
      && Trimmed(r.value.title)
      && r.value.link.None? && r.value.start.None? && r.value.completion.None?
      && r.value.version.None? && r.value.description.None? && r.value.children == []
  {
    MatchCategoryIsRegexMatch(line);
    match MatchCategory(line)
    case None => None
    case Some(m) =>
      Some(RoadmapTask(TaskId(CategoryKind, lineNumber), Trim(m.text), false, true,
                       None, None, None, None, None, [], m.indent / 2))
  }

  /** The category title is the trimmed text after the longest space run that the pattern allows. */
  lemma CategoryTitle(line: string, lineNumber: nat, i: nat, k: nat)
    requires CategoryParse(line, i, k)
    requires forall k' | CategoryParse(line, i, k') :: k' <= k
    ensures ParseCategoryLine(line, lineNumber).Some?
    ensures ParseCategoryLine(line, lineNumber).value.title == Trim(line[k..])
  {
    MatchCategoryIsRegexMatch(line);
    var m := MatchCategory(line).value;
    var k0 := |line| - |m.text|;
    assert i == m.indent && k <= k0;
    assert CategoryParse(line, i, k0);
    assert k0 <= k;
    assert m.text == line[k..];
    assert ParseCategoryLine(line, lineNumber).value.title == Trim(m.text);
  }

  /** A dash, exactly one space and a `[` never make a category, whatever follows. */
  lemma OneSpaceBracketIsNoCategory(indent: string, rest: string, lineNumber: nat)
    requires AllSpaces(indent)
    ensures ParseCategoryLine(indent + "- [" + rest, lineNumber).None?
  {
    var line := indent + "- [" + rest;
    var n := |indent|;
    assert line[n] == '-' && line[n + 1] == ' ' && line[n + 2] == '[';
    assert SpacesBetween(line, 0, n) by {
      forall t | 0 <= t < n ensures IsSpace(line[t]) { assert line[t] == indent[t]; }
    }
    SpacesFromExact(line, 0, n);
    SpacesFromExact(line, n + 1, n + 2);
    assert BacktrackRun(line, n + 2, n + 2).None?;
  }

  /** With two spaces the `\s+` run gives one back, so the line is a category titled from the `[` on. */
  lemma TwoSpacesBracketIsCategory(indent: string, rest: string, lineNumber: nat)
    requires AllSpaces(indent) && NoLineTerminator(rest)
    ensures ParseCategoryLine(indent + "-  [" + rest, lineNumber).Some?
    ensures ParseCategoryLine(indent + "-  [" + rest, lineNumber).value.title == Trim("[" + rest)
  {
    var line := indent + "-  [" + rest;
    var n := |indent|;
    assert line[n] == '-' && line[n + 1] == ' ' && line[n + 2] == ' ' && line[n + 3] == '[';
    assert SpacesBetween(line, 0, n) by {
      forall t | 0 <= t < n ensures IsSpace(line[t]) { assert line[t] == indent[t]; }
    }
    assert NoLineTerminatorFrom(line, n + 2) by {
      forall t | n + 2 <= t < |line| ensures !IsLineTerminator(line[t]) {
        if t >= n + 4 { assert line[t] == rest[t - n - 4]; }
      }
    }
    SpacesFromExact(line, 0, n);
    SpacesFromExact(line, n + 1, n + 3);
    assert BacktrackRun(line, n + 2, n + 3) == Some(n + 2);
    assert line[n + 2..] == " " + ("[" + rest) + "";
    TrimIgnoresPadding(" ", "[" + rest, "");
  }
}
