/**
  The statistics of a whole generated roadmap file: every item of a known status is one task, every
  shipped item one completed task, and nothing else in the file (frontmatter, introduction, section
  headers, blank lines, description lines) is a task.
*/
module MigrateStats {
  import opened JsText
  import opened RoadmapTypes
  import opened RoadmapLines
  import opened RoadmapStats
  import opened RoadmapParser
  import opened MigrateRoadmap
  import opened MigrateRoundTrip

  /** The checkbox lines of a text. */
  function TaskCount(s: string): nat
  {
    CountLines(Split(s, '\n'), IsTaskLine)
  }

  /** The checked checkbox lines of a text. */
  function CheckedCount(s: string): nat
  {
    CountLines(Split(s, '\n'), IsCheckedLine)
  }

  /** The shipped items of a list. */
  function ShippedCount(items: seq<RoadmapItem>): nat
  {
    if items == [] then 0 else (if items[0].status == Shipped then 1 else 0) + ShippedCount(items[1..])
  }

  // ---------------------------------------------------------------------------------------------
  // Counting over lines
  // ---------------------------------------------------------------------------------------------

  /** Counts add up over two texts joined by a line break. */
  lemma CountsAround(a: string, b: string)
    ensures TaskCount(a + "\n" + b) == TaskCount(a) + TaskCount(b)
    ensures CheckedCount(a + "\n" + b) == CheckedCount(a) + CheckedCount(b)
  {
    assert a + "\n" + b == a + ['\n'] + b;
    SplitAround(a, '\n', b);
    CountLinesConcat(Split(a, '\n'), Split(b, '\n'), IsTaskLine);
    CountLinesConcat(Split(a, '\n'), Split(b, '\n'), IsCheckedLine);
  }

  /** The empty text is one empty line, which is no task. */
  lemma EmptyCounts()
    ensures TaskCount("") == 0 && CheckedCount("") == 0
  {
    SplitOneLine("");
    assert CountLines([""], IsTaskLine) == CountLines([], IsTaskLine) + 0;
    assert CountLines([""], IsCheckedLine) == CountLines([], IsCheckedLine) + 0;
  }

  /** A line break in front of a text adds an empty line and no task. */
  lemma BreakThen(b: string)
    ensures TaskCount("\n" + b) == TaskCount(b) && CheckedCount("\n" + b) == CheckedCount(b)
  {
    assert "\n" + b == "" + "\n" + b;
    CountsAround("", b);
    EmptyCounts();
  }

  /** A line break after a text adds an empty line and no task. */
  lemma ThenBreak(a: string)
    ensures TaskCount(a + "\n") == TaskCount(a) && CheckedCount(a + "\n") == CheckedCount(a)
  {
    assert a + "\n" == a + "\n" + "";
    CountsAround(a, "");
    EmptyCounts();
  }

  /** A blank line between two texts adds no task. */
  lemma BlankBetween(a: string, b: string)
    ensures TaskCount(a + "\n\n" + b) == TaskCount(a) + TaskCount(b)
    ensures CheckedCount(a + "\n\n" + b) == CheckedCount(a) + CheckedCount(b)
  {
    assert a + "\n\n" + b == a + "\n" + ("\n" + b);
    CountsAround(a, "\n" + b);
    BreakThen(b);
  }

  /** A single line that does not start with a dash, after optional spaces, is no task. */
  lemma PlainLine(s: string)
    requires '\n' !in s && (s == [] || (!IsSpace(s[0]) && s[0] != '-'))
    ensures TaskCount(s) == 0 && CheckedCount(s) == 0
  {
    SplitOneLine(s);
    if s != [] {
      SpacesFromExact(s, 0, 0);
    }
    assert !IsTaskLine(s);
    assert CountLines([s], IsTaskLine) == CountLines([], IsTaskLine) + 0;
    assert CountLines([s], IsCheckedLine) == CountLines([], IsCheckedLine) + 0;
  }

  // ---------------------------------------------------------------------------------------------
  // Items
  // ---------------------------------------------------------------------------------------------

  /** The text of one item holds one task, completed exactly when the item is shipped. */
  lemma ItemCounts(item: RoadmapItem)
    requires Readable(item)
    ensures TaskCount(GenerateCheckboxLine(item)) == 1
    ensures CheckedCount(GenerateCheckboxLine(item)) == if item.status == Shipped then 1 else 0
  {
    var head := HeadLine(item);
    ItemSplit(item);
    HeadMatch(item);
    var lines := Split(GenerateCheckboxLine(item), '\n');
    assert IsTaskLine(head) && (IsCheckedLine(head) <==> item.status == Shipped);
    if Truthy(item.description) {
      var d := "  " + item.description.value;
      DescriptionLine(item.description.value, 1);
      assert lines == [head] + [d];
      CountLinesConcat([head], [d], IsTaskLine);
      CountLinesConcat([head], [d], IsCheckedLine);
      OneLineCounts(head);
      OneLineCounts(d);
    } else {
      OneLineCounts(head);
    }
  }

  /** The count of a single line. */
  lemma OneLineCounts(line: string)
    ensures CountLines([line], IsTaskLine) == if IsTaskLine(line) then 1 else 0
    ensures CountLines([line], IsCheckedLine) == if IsCheckedLine(line) then 1 else 0
  {
    assert [line][..0] == [];
  }

  /**
    The items of a section, all of them shipped or none of them: one task per item, and as many
    completed ones as there are shipped items.
  */
  lemma {:induction false} ItemsCounts(items: seq<RoadmapItem>)
    requires items != [] && forall i :: 0 <= i < |items| ==> Readable(items[i])
    ensures TaskCount(ItemsText(items)) == |items|
    ensures CheckedCount(ItemsText(items)) == ShippedCount(items)
  {
    var first := GenerateCheckboxLine(items[0]);
    ItemCounts(items[0]);
    if |items| == 1 {
      ItemsTextOne(items);
    } else {
      var rest := items[1..];
      ItemsTextCons(items);
      ItemsCounts(rest);
      BlankBetween(first, ItemsText(rest));
    }
  }

  /** The text of a single item is its generated line. */
  lemma ItemsTextOne(items: seq<RoadmapItem>)
    requires |items| == 1
    ensures ItemsText(items) == GenerateCheckboxLine(items[0]) && ShippedCount(items[1..]) == 0
  {
    assert ItemLines(items) == [GenerateCheckboxLine(items[0])];
    assert items[1..] == [];
  }

  /** A list all of whose items are shipped, or none, has all or none of them counted. */
  lemma {:induction false} ShippedCountUniform(items: seq<RoadmapItem>, shipped: bool)
    requires forall i :: 0 <= i < |items| ==> (items[i].status == Shipped) == shipped
    ensures ShippedCount(items) == if shipped then |items| else 0
  {
    if items != [] {
      ShippedCountUniform(items[1..], shipped);
    }
  }

  /** A section holds one task per item, and as many completed ones as shipped items. */
  lemma SectionCounts(header: string, items: seq<RoadmapItem>, tail: string)
    requires '\n' !in header && |header| > 0 && header[0] == '#'
    requires tail == "\n" || tail == "\n\n"
    requires forall i :: 0 <= i < |items| ==> Readable(items[i])
    ensures TaskCount(Section(header, items, tail)) == |items|
    ensures CheckedCount(Section(header, items, tail)) == ShippedCount(items)
  {
    if items == [] {
      EmptyCounts();
    } else {
      ItemsCounts(items);
      HeaderThen(header, ItemsText(items), tail);
    }
  }

  /** A header line, a blank line, a text and one or two line breaks: the text's counts. */
  lemma HeaderThen(header: string, text: string, tail: string)
    requires '\n' !in header && |header| > 0 && header[0] == '#'
    requires tail == "\n" || tail == "\n\n"
    ensures TaskCount(header + "\n\n" + text + tail) == TaskCount(text)
    ensures CheckedCount(header + "\n\n" + text + tail) == CheckedCount(text)
  {
    PlainLine(header);
    assert header + "\n\n" + text + tail == header + "\n\n" + (text + tail);
    BlankBetween(header, text + tail);
    if tail == "\n" {
      ThenBreak(text);
    } else {
      assert text + tail == text + "\n" + "\n";
      ThenBreak(text);
      ThenBreak(text + "\n");
    }
  }

  /** A text ended by a blank line, then more text: the two are counted separately. */
  lemma BlankEndThen(p: string, rest: string)
    ensures TaskCount(p + "\n\n" + rest) == TaskCount(p + "\n\n") + TaskCount(rest)
    ensures CheckedCount(p + "\n\n" + rest) == CheckedCount(p + "\n\n") + CheckedCount(rest)
  {
    assert p + "\n\n" + rest == p + "\n" + ("\n" + rest);
    CountsAround(p, "\n" + rest);
    BreakThen(rest);
    assert p + "\n\n" == p + "\n" + "\n";
    ThenBreak(p);
    ThenBreak(p + "\n");
  }

  /** A section followed by more text is counted separately from it. */
  lemma SectionThen(header: string, items: seq<RoadmapItem>, rest: string)
    requires items != []
    ensures var s := Section(header, items, "\n\n") + rest;
      && TaskCount(s) == TaskCount(Section(header, items, "\n\n")) + TaskCount(rest)
      && CheckedCount(s) == CheckedCount(Section(header, items, "\n\n")) + CheckedCount(rest)
  {
    var p := header + "\n\n" + ItemsText(items);
    assert Section(header, items, "\n\n") == p + "\n\n";
    BlankEndThen(p, rest);
  }

  // ---------------------------------------------------------------------------------------------
  // The whole file
  // ---------------------------------------------------------------------------------------------

  /** The frontmatter and the introduction hold no task. */
  lemma FrontCounts()
    ensures TaskCount(Join(FrontLines, "\n")) == 0 && CheckedCount(Join(FrontLines, "\n")) == 0
  {
    forall i | 0 <= i < |FrontLines| ensures '\n' !in FrontLines[i] {
      FrontLineShape(i);
    }
    SplitJoin(FrontLines, '\n');
    forall i | 0 <= i <= |FrontLines|
      ensures CountLines(FrontLines[..i], IsTaskLine) == 0 && CountLines(FrontLines[..i], IsCheckedLine) == 0
    {
      NoTasksUpTo(i);
    }
    assert FrontLines[..|FrontLines|] == FrontLines;
  }

  /** Each line of the frontmatter is one line that is no task. */
  lemma FrontLineShape(i: nat)
    requires i < |FrontLines|
    ensures '\n' !in FrontLines[i] && !IsTaskLine(FrontLines[i])
  {
    var s := FrontLines[i];
    if i == 0 || i == 3 {
      assert s == "---";
      SpacesFromExact(s, 0, 0);
      SpacesFromExact(s, 1, 1);
    } else if i == 4 || i == 6 || i == 8 {
      assert s == [];
    } else {
      if i == 1 {
        assert s[0] == 't';
      } else if i == 2 {
        DescriptionLineShape();
      } else if i == 5 {
        assert s[0] == '#';
      } else {
        IntroLineShape();
      }
      SpacesFromExact(s, 0, 0);
    }
  }

  /** The description line of the frontmatter is one line starting with `d`. */
  lemma DescriptionLineShape()
    ensures '\n' !in FrontLines[2] && FrontLines[2][0] == 'd'
  {
    DescriptionPieces12();
    DescriptionPieces34();
  }

  lemma DescriptionPieces12()
    ensures '\n' !in "description: \"Task Genius development " && '\n' !in "roadmap - Track features in "
  {
  }

  lemma DescriptionPieces34()
    ensures '\n' !in "development, backlog, and " && '\n' !in "shipped releases\""
  {
  }

  /** The introduction line is one line starting with a Chinese character. */
  lemma IntroLineShape()
    ensures '\n' !in FrontLines[7] && FrontLines[7][0] == '欢'
  {
    assert '\n' !in "欢迎查看 Task Genius 的开发路线图。";
    assert '\n' !in "这里展示了我们正在开发、计划中以及已发布的功能。";
  }

  /** No line among the first `i` of the frontmatter is a task. */
  lemma {:induction false} NoTasksUpTo(i: nat)
    requires i <= |FrontLines|
    ensures CountLines(FrontLines[..i], IsTaskLine) == 0 && CountLines(FrontLines[..i], IsCheckedLine) == 0
  {
    if i > 0 {
      NoTasksUpTo(i - 1);
      FrontLineShape(i - 1);
      assert FrontLines[..i][..i - 1] == FrontLines[..i - 1];
    }
  }

  /** The three headers are single lines starting with `#`. */
  lemma HeadersPlain()
    ensures '\n' !in WorkingOnHeader && |WorkingOnHeader| > 0 && WorkingOnHeader[0] == '#'
    ensures '\n' !in BacklogHeader && |BacklogHeader| > 0 && BacklogHeader[0] == '#'
    ensures '\n' !in ShippedHeader && |ShippedHeader| > 0 && ShippedHeader[0] == '#'
  {
  }

  /** The counts of the generated file are those of its three sections. */
  lemma DocumentCounts(groups: map<string, seq<RoadmapItem>>, shipped: seq<RoadmapItem>)
    requires WorkingOn in groups && Backlog in groups && Shipped in groups
    requires multiset(shipped) == multiset(groups[Shipped])
    ensures var doc := GenerateRoadmapContent(groups, shipped);
      var s1, s2, s3 := Section(WorkingOnHeader, groups[WorkingOn], "\n\n"),
        Section(BacklogHeader, groups[Backlog], "\n\n"), Section(ShippedHeader, shipped, "\n");
      && TaskCount(doc) == TaskCount(s1) + TaskCount(s2) + TaskCount(s3)
      && CheckedCount(doc) == CheckedCount(s1) + CheckedCount(s2) + CheckedCount(s3)
  {
    var w, b := groups[WorkingOn], groups[Backlog];
    var s1, s2, s3 := Section(WorkingOnHeader, w, "\n\n"), Section(BacklogHeader, b, "\n\n"), Section(ShippedHeader, shipped, "\n");
    var front := Join(FrontLines, "\n");
    assert GenerateRoadmapContent(groups, shipped) == front + "\n" + (s1 + s2 + s3);
    CountsAround(front, s1 + s2 + s3);
    FrontCounts();
    SectionsCounts(s1, s2, s3, w, b);
  }

  /**
    The section of one group holds one task per item of the group's status, all completed for the
    shipped group and none for the others.
  */
  lemma GroupSection(items: seq<RoadmapItem>, group: seq<RoadmapItem>, status: string, header: string, tail: string)
    requires IsGroupKey(status)
    requires forall i :: 0 <= i < |items| && IsGroupKey(items[i].status) ==> Readable(items[i])
    requires multiset(group) == multiset(WithStatus(items, status))
    requires '\n' !in header && |header| > 0 && header[0] == '#'
    requires tail == "\n" || tail == "\n\n"
    ensures TaskCount(Section(header, group, tail)) == |WithStatus(items, status)|
    ensures CheckedCount(Section(header, group, tail)) == if status == Shipped then |WithStatus(items, status)| else 0
  {
    GroupMembers(items, group, status);
    ShippedCountUniform(group, status == Shipped);
    SectionCounts(header, group, tail);
    assert |multiset(group)| == |group|;
  }

  /**
    The statistics of the generated roadmap, for groups as `groupByStatus` builds them from `items`
    and a shipped list that holds the shipped group's items: every item of a known status is one
    task, and the completed tasks are the shipped items. Only the items that are written must be
    readable; items of any other status are dropped before anything is written.
  */
  lemma DocumentStats(items: seq<RoadmapItem>, groups: map<string, seq<RoadmapItem>>, shipped: seq<RoadmapItem>)
    requires forall i :: 0 <= i < |items| && IsGroupKey(items[i].status) ==> Readable(items[i])
    requires groups.Keys == EmptyGroups.Keys && forall k :: k in groups ==> groups[k] == WithStatus(items, k)
    requires multiset(shipped) == multiset(groups[Shipped])
    ensures var stats := GetTaskStats(Parsed(GenerateRoadmapContent(groups, shipped)));
      && stats.total + Unknown(items) == |items|
      && stats.completed == |WithStatus(items, Shipped)|
      && stats.incomplete == |WithStatus(items, WorkingOn)| + |WithStatus(items, Backlog)|
  {
    var doc := GenerateRoadmapContent(groups, shipped);
    assert WorkingOn in groups && Backlog in groups && Shipped in groups;
    HeadersPlain();
    GroupSizes(items);
    DocumentCounts(groups, shipped);
    GroupSection(items, groups[WorkingOn], WorkingOn, WorkingOnHeader, "\n\n");
    GroupSection(items, groups[Backlog], Backlog, BacklogHeader, "\n\n");
    GroupSection(items, shipped, Shipped, ShippedHeader, "\n");
    ParsedStats(doc);
  }

  /** The items of one group: each is one of the items, readable, and of the group's status. */
  lemma GroupMembers(items: seq<RoadmapItem>, group: seq<RoadmapItem>, status: string)
    requires IsGroupKey(status)
    requires forall i :: 0 <= i < |items| && IsGroupKey(items[i].status) ==> Readable(items[i])
    requires multiset(group) == multiset(WithStatus(items, status))
    ensures forall i :: 0 <= i < |group| ==> Readable(group[i]) && group[i].status == status
  {
    WithStatusMembers(items, status);
    forall i | 0 <= i < |group| ensures Readable(group[i]) && group[i].status == status {
      assert group[i] in multiset(WithStatus(items, status));
      var j :| 0 <= j < |items| && items[j] == group[i];
    }
  }

  /** The three sections count separately; an empty section is the empty text. */
  lemma SectionsCounts(s1: string, s2: string, s3: string, w: seq<RoadmapItem>, b: seq<RoadmapItem>)
    requires s1 == Section(WorkingOnHeader, w, "\n\n") && s2 == Section(BacklogHeader, b, "\n\n")
    ensures TaskCount(s1 + s2 + s3) == TaskCount(s1) + TaskCount(s2) + TaskCount(s3)
    ensures CheckedCount(s1 + s2 + s3) == CheckedCount(s1) + CheckedCount(s2) + CheckedCount(s3)
  {
    EmptyCounts();
    if s2 == [] {
      assert s2 + s3 == s3;
    } else {
      SectionThen(BacklogHeader, b, s3);
    }
    assert s1 + s2 + s3 == s1 + (s2 + s3);
    if s1 == [] {
      assert s1 + (s2 + s3) == s2 + s3;
    } else {
      SectionThen(WorkingOnHeader, w, s2 + s3);
    }
  }
}
