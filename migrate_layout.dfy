/**
  The layout of the file `generateRoadmapContent` writes (scripts/migrate-roadmap.ts:115-161), line
  by line: the fixed frontmatter and introduction, then the working-on, backlog and shipped sections
  in that order, each present only for a non-empty group, each a header, a blank line, its items
  and a blank line; within a section the items follow one another with one blank line between them.
*/
module MigrateLayout {
  import opened JsText
  import opened MigrateRoadmap
  import opened MigrateRoundTrip
  import opened MigrateStats

  /** The lines of one section: none for an empty group, else header, blank, items, blank. */
  function SectionLines(header: string, items: seq<RoadmapItem>): seq<string>
  {
    if items == [] then [] else [header, ""] + Split(ItemsText(items), '\n') + [""]
  }

  /** The lines of a text with a line break in front of it: an empty line, then its own lines. */
  lemma BreakLines(b: string)
    ensures Split("\n" + b, '\n') == [""] + Split(b, '\n')
  {
    assert "\n" + b == [] + ['\n'] + b;
    SplitAround([], '\n', b);
    SplitOneLine([]);
  }

  /** The lines of a text ended by a line break: its own lines, then an empty line. */
  lemma EndBreakLines(p: string)
    ensures Split(p + "\n", '\n') == Split(p, '\n') + [""]
  {
    assert p + "\n" == p + ['\n'] + [];
    SplitAround(p, '\n', []);
    SplitOneLine([]);
  }

  /** Two texts with a blank line between them: the first one's lines, an empty line, the second one's. */
  lemma BlankLines(p: string, r: string)
    ensures Split(p + "\n\n" + r, '\n') == Split(p, '\n') + [""] + Split(r, '\n')
  {
    assert "\n\n" == "\n" + "\n";
    ConcatAssoc(p, "\n", "\n");
    SplitAround(p + "\n", '\n', r);
    EndBreakLines(p);
  }

  /** A header, a blank line and a text, line by line. */
  lemma HeadLines(header: string, text: string)
    requires '\n' !in header
    ensures Split(header + "\n\n" + text, '\n') == [header, ""] + Split(text, '\n')
  {
    BlankLines(header, text);
    SplitOneLine(header);
  }

  /** A working-on or backlog section in front of the rest of the file. */
  lemma MiddleSectionLines(header: string, items: seq<RoadmapItem>, rest: string)
    requires '\n' !in header
    ensures Split(Section(header, items, "\n\n") + rest, '\n') == SectionLines(header, items) + Split(rest, '\n')
  {
    if items == [] {
      assert Section(header, items, "\n\n") + rest == rest;
    } else {
      var p := header + "\n\n" + ItemsText(items);
      assert Section(header, items, "\n\n") == p + "\n\n";
      assert Section(header, items, "\n\n") + rest == p + "\n\n" + rest;
      BlankLines(p, rest);
      HeadLines(header, ItemsText(items));
    }
  }

  /** The shipped section, which ends the file with a single line break. */
  lemma LastSectionLines(header: string, items: seq<RoadmapItem>)
    requires '\n' !in header
    ensures Split(Section(header, items, "\n"), '\n') == SectionLines(header, items) + (if items == [] then [""] else [])
  {
    if items == [] {
      SplitOneLine([]);
    } else {
      var p := header + "\n\n" + ItemsText(items);
      assert Section(header, items, "\n") == p + "\n";
      EndBreakLines(p);
      HeadLines(header, ItemsText(items));
    }
  }

  /**
    The generated file, line by line: the frontmatter lines, then the working-on, backlog and
    shipped sections in that order, each only when its group is non-empty, and a last empty line
    when the shipped group is empty (the file then ends with the blank line of an earlier part).
  */
  lemma DocumentLines(groups: map<string, seq<RoadmapItem>>, shipped: seq<RoadmapItem>)
    requires WorkingOn in groups && Backlog in groups && Shipped in groups
    requires multiset(shipped) == multiset(groups[Shipped])
    ensures Split(GenerateRoadmapContent(groups, shipped), '\n')
      == FrontLines + SectionLines(WorkingOnHeader, groups[WorkingOn]) + SectionLines(BacklogHeader, groups[Backlog])
         + SectionLines(ShippedHeader, shipped) + (if shipped == [] then [""] else [])
  {
    var s1, s2, s3 := Section(WorkingOnHeader, groups[WorkingOn], "\n\n"),
      Section(BacklogHeader, groups[Backlog], "\n\n"), Section(ShippedHeader, shipped, "\n");
    var l1, l2, l3 := SectionLines(WorkingOnHeader, groups[WorkingOn]), SectionLines(BacklogHeader, groups[Backlog]),
      SectionLines(ShippedHeader, shipped) + (if shipped == [] then [""] else []);
    assert GenerateRoadmapContent(groups, shipped) == Frontmatter + ((s1 + s2) + s3);
    ConcatAssoc(s1, s2, s3);
    HeadersPlain();
    LastSectionLines(ShippedHeader, shipped);
    MiddleSectionLines(BacklogHeader, groups[Backlog], s3);
    MiddleSectionLines(WorkingOnHeader, groups[WorkingOn], s2 + s3);
    assert Split(s1 + (s2 + s3), '\n') == l1 + (l2 + l3);
    FrontThen(s1 + (s2 + s3));
    ConcatAssoc(l1, l2, l3);
    ConcatAssoc(FrontLines, l1 + l2, l3);
    ConcatAssoc(FrontLines, l1, l2);
  }

  /** The frontmatter in front of a text: the frontmatter lines, then the text's lines. */
  lemma FrontThen(x: string)
    ensures Split(Frontmatter + x, '\n') == FrontLines + Split(x, '\n')
  {
    var front := Join(FrontLines, "\n");
    assert Frontmatter + x == front + ['\n'] + x;
    SplitAround(front, '\n', x);
    forall i | 0 <= i < |FrontLines| ensures '\n' !in FrontLines[i] {
      FrontLineShape(i);
    }
    SplitJoin(FrontLines, '\n');
  }

  /**
    Within a section, the lines of the items are those of the first item, an empty line, and the
    lines of the others; a single item gives just its own lines.
  */
  lemma ItemsLines(items: seq<RoadmapItem>)
    requires items != []
    ensures Split(ItemsText(items), '\n') ==
      Split(GenerateCheckboxLine(items[0]), '\n')
      + (if |items| == 1 then [] else [""] + Split(ItemsText(items[1..]), '\n'))
  {
    if |items| == 1 {
      ItemsTextOne(items);
    } else {
      ItemsTextCons(items);
      BlankLines(GenerateCheckboxLine(items[0]), ItemsText(items[1..]));
    }
  }
}
