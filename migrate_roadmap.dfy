/**
  The text-generating half of scripts/migrate-roadmap.ts: the items read from the old one-file-per-item
  roadmap are grouped by status and written out as one checkbox-format roadmap file.
*/
module MigrateRoadmap {
  import opened JsText

  /**
    `RoadmapItem`: the frontmatter of one old roadmap file. The status is whatever text the file
    holds, since nothing checks it against the three statuses the script knows.
  */
  datatype RoadmapItem = RoadmapItem(
    title: string,
    description: Option<string>,
    status: string,
    version: Option<string>,
    date: Option<string>,
    docsUrl: Option<string>,
    fileName: string)

  const WorkingOn: string := "working-on"
  const Backlog: string := "backlog"
  const Shipped: string := "shipped"

  /** The keys of the `groups` record. */
  predicate IsGroupKey(s: string)
  {
    s == WorkingOn || s == Backlog || s == Shipped
  }

  /** JavaScript truthiness of an optional text: present and not empty. */
  predicate Truthy(o: Option<string>)
  {
    o.Some? && o.value != []
  }

  // ---------------------------------------------------------------------------------------------
  // groupByStatus
  // ---------------------------------------------------------------------------------------------

  /** Reference grouping: the items whose status is `status`, in input order. */
  function WithStatus(items: seq<RoadmapItem>, status: string): seq<RoadmapItem>
  {
    if items == [] then []
    else
      var last := items[|items| - 1];
      WithStatus(items[..|items| - 1], status) + (if last.status == status then [last] else [])
  }

  /** The three empty groups `groupByStatus` starts from. */
  const EmptyGroups: map<string, seq<RoadmapItem>> := map[WorkingOn := [], Backlog := [], Shipped := []]

  /**
    `groupByStatus`: each item is appended to the group its status names; items of any other status
    are dropped. The guard tests that the status is one of the record's own keys (see the
    as-written reading `GroupByStatusAsWritten` for what the source's truthiness test does).
  */
  method GroupByStatus(items: seq<RoadmapItem>) returns (groups: map<string, seq<RoadmapItem>>)
    ensures groups.Keys == EmptyGroups.Keys
    ensures forall k :: k in groups ==> groups[k] == WithStatus(items, k)
  {
    groups := EmptyGroups;
    for i := 0 to |items|
      invariant groups.Keys == EmptyGroups.Keys
      invariant forall k :: k in groups ==> groups[k] == WithStatus(items[..i], k)
    {
      var item := items[i];
      if item.status in groups {
        groups := groups[item.status := groups[item.status] + [item]];
      }
      assert items[..i + 1][..i] == items[..i];
    }
    assert items[..|items|] == items;
  }

  /** An item is in the group of `status` exactly when it is one of the items and has that status. */
  lemma {:induction false} WithStatusMembers(items: seq<RoadmapItem>, status: string)
    ensures forall x :: x in WithStatus(items, status) <==> x in items && x.status == status
  {
    if items != [] {
      var front := items[..|items| - 1];
      WithStatusMembers(front, status);
      assert items == front + [items[|items| - 1]];
    }
  }

  /** The number of items whose status is none of the three group keys. */
  function Unknown(items: seq<RoadmapItem>): nat
  {
    if items == [] then 0
    else Unknown(items[..|items| - 1]) + (if IsGroupKey(items[|items| - 1].status) then 0 else 1)
  }

  /**
    The three groups hold every item once except the dropped ones: their sizes add up to the item
    count less the items of unknown status.
  */
  lemma {:induction false} GroupSizes(items: seq<RoadmapItem>)
    ensures |WithStatus(items, WorkingOn)| + |WithStatus(items, Backlog)| + |WithStatus(items, Shipped)|
            + Unknown(items) == |items|
  {
    if items != [] {
      GroupSizes(items[..|items| - 1]);
    }
  }

  /** No item is dropped exactly when every status is one of the three group keys. */
  lemma {:induction false} NoneUnknown(items: seq<RoadmapItem>)
    ensures Unknown(items) == 0 <==> forall i :: 0 <= i < |items| ==> IsGroupKey(items[i].status)
  {
    if items != [] {
      var front := items[..|items| - 1];
      NoneUnknown(front);
      assert forall i :: 0 <= i < |front| ==> front[i] == items[i];
    }
  }

  // ---------------------------------------------------------------------------------------------
  // groupByStatus as written: the truthiness guard on a plain object
  // ---------------------------------------------------------------------------------------------

  /**
    The names a plain JavaScript object inherits from `Object.prototype`. For a record literal,
    `groups[name]` is then a function or the prototype object itself: truthy, and not an array.
  */
  predicate IsPrototypeMember(s: string)
  {
    s in {"constructor", "__proto__", "toString", "toLocaleString", "valueOf", "hasOwnProperty",
          "isPrototypeOf", "propertyIsEnumerable", "__defineGetter__", "__defineSetter__",
          "__lookupGetter__", "__lookupSetter__"}
  }

  /** The outcome of the source's loop: the groups, or the `TypeError` that `.push` throws. */
  datatype Grouping = Grouped(groups: map<string, seq<RoadmapItem>>) | TypeError(status: string)

  /**
    `groupByStatus` as the source writes it: `groups[item.status]` is truthy for the three keys and
    also for every inherited member name, on which `.push` is not a function and throws.
  */
  function GroupByStatusAsWritten(items: seq<RoadmapItem>): (r: Grouping)
    ensures r.Grouped? ==> r.groups.Keys == EmptyGroups.Keys
  {
    if items == [] then Grouped(EmptyGroups)
    else
      var item := items[|items| - 1];
      match GroupByStatusAsWritten(items[..|items| - 1])
      case TypeError(s) => TypeError(s)
      case Grouped(g) =>
        if item.status in g then Grouped(g[item.status := g[item.status] + [item]])
        else if IsPrototypeMember(item.status) then TypeError(item.status)
        else Grouped(g)
  }

  /** Without inherited member names among the statuses, the source's loop gives the reference groups. */
  lemma {:induction false} AsWrittenAgrees(items: seq<RoadmapItem>)
    requires forall i :: 0 <= i < |items| ==> !IsPrototypeMember(items[i].status)
    ensures GroupByStatusAsWritten(items).Grouped?
    ensures forall k :: k in GroupByStatusAsWritten(items).groups ==>
      GroupByStatusAsWritten(items).groups[k] == WithStatus(items, k)
  {
    if items != [] {
      var front := items[..|items| - 1];
      assert forall i :: 0 <= i < |front| ==> front[i] == items[i];
      AsWrittenAgrees(front);
    }
  }

  /**
    An item whose status is `constructor` makes the source's loop throw, where the intended grouping
    drops it and returns three empty groups.
  */
  lemma ConstructorStatusThrows(item: RoadmapItem)
    requires item.status == "constructor"
    ensures GroupByStatusAsWritten([item]) == TypeError("constructor")
    ensures forall k :: k in EmptyGroups ==> WithStatus([item], k) == []
  {
    assert [item][..0] == [];
    assert "constructor" !in EmptyGroups;
  }

  // ---------------------------------------------------------------------------------------------
  // generateCheckboxLine
  // ---------------------------------------------------------------------------------------------

  /** The box: checked exactly for shipped items. */
  function Checkbox(item: RoadmapItem): string
  {
    if item.status == Shipped then "[x]" else "[ ]"
  }

  /** The title, as a Markdown link when there is a documentation link. */
  function TitlePart(item: RoadmapItem): string
  {
    if Truthy(item.docsUrl) then "[" + item.title + "](" + item.docsUrl.value + ")" else item.title
  }

  /** The key the date is written under: the completion date of a shipped item, else its start. */
  function DateKey(item: RoadmapItem): string
  {
    if item.status == Shipped then "completion" else "start"
  }

  /** One inline field, `[key:: value]`. */
  function InlineField(key: string, value: string): string
  {
    "[" + key + ":: " + value + "]"
  }

  /** The inline fields, in order: the date first, then the version. */
  function MetaParts(item: RoadmapItem): seq<string>
  {
    (if Truthy(item.date) then [InlineField(DateKey(item), item.date.value)] else [])
    + (if Truthy(item.version) then [InlineField("version", item.version.value)] else [])
  }

  /**
    The fields joined by single spaces, after one space; nothing at all, not even a space, without
    fields, and never a trailing space.
  */
  function MetaStr(item: RoadmapItem): (r: string)
    ensures r == [] <==> !Truthy(item.date) && !Truthy(item.version)
    ensures r != [] ==> |r| >= 3 && r[0] == ' ' && r[1] == '[' && r[|r| - 1] == ']'
  {
    var parts := MetaParts(item);
    assert |parts| == 1 ==> Join(parts, " ") == parts[0];
    assert |parts| == 2 ==> Join(parts, " ") == parts[0] + " " + parts[1];
    if |parts| > 0 then " " + Join(parts, " ") else ""
  }

  /** The first line written for an item: dash, box, title part and fields. */
  function HeadLine(item: RoadmapItem): string
  {
    "- " + Checkbox(item) + " " + TitlePart(item) + MetaStr(item)
  }

  /** `generateCheckboxLine`: the head line, then the description on a line indented by two spaces. */
  function GenerateCheckboxLine(item: RoadmapItem): (r: string)
    ensures |r| >= 6 && r[0] == '-' && r[1] == ' ' && r[2] == '[' && r[4] == ']' && r[5] == ' '
    ensures r[3] == (if item.status == Shipped then 'x' else ' ')
  {
    var head := HeadLine(item);
    var tail := if Truthy(item.description) then "\n  " + item.description.value else "";
    assert forall t :: 0 <= t < |head| ==> (head + tail)[t] == head[t];
    head + tail
  }

  /** The fields that are written: one per present date or version, the date's key set by the status. */
  lemma MetaPartsContents(item: RoadmapItem)
    ensures |MetaParts(item)| == (if Truthy(item.date) then 1 else 0) + (if Truthy(item.version) then 1 else 0)
    ensures Truthy(item.date) ==>
      MetaParts(item)[0] == InlineField(if item.status == Shipped then "completion" else "start", item.date.value)
    ensures Truthy(item.version) ==> MetaParts(item)[|MetaParts(item)| - 1] == InlineField("version", item.version.value)
  {
  }

  // ---------------------------------------------------------------------------------------------
  // generateRoadmapContent
  // ---------------------------------------------------------------------------------------------

  /** The lines of the fixed frontmatter and introduction, up to the blank line that ends them (long lines in pieces). */
  const FrontLines: seq<string> := [
    "---",
    "title: \"Roadmap\"",
    "description: \"Task Genius development " + "roadmap - Track features in "
      + "development, backlog, and " + "shipped releases\"",
    "---",
    "",
    "# Task Genius Roadmap",
    "",
    "欢迎查看 Task Genius 的开发路线图。" + "这里展示了我们正在开发、计划中以及已发布的功能。",
    ""]

  /** The frontmatter text: its lines, each ended by a line break. */
  const Frontmatter: string := Join(FrontLines, "\n") + "\n"

  const WorkingOnHeader: string := "## \U{1F6A7} 正在开发"
  const BacklogHeader: string := "## \U{1F4CB} 待办事项"
  const ShippedHeader: string := "## \U{2705} 已发布功能"

  /** The generated lines of the items, in order. */
  function ItemLines(items: seq<RoadmapItem>): (r: seq<string>)
    ensures |r| == |items| && forall i :: 0 <= i < |items| ==> r[i] == GenerateCheckboxLine(items[i])
  {
    seq(|items|, i requires 0 <= i < |items| => GenerateCheckboxLine(items[i]))
  }

  /** The items of a section, separated by a blank line. */
  function ItemsText(items: seq<RoadmapItem>): string
  {
    Join(ItemLines(items), "\n\n")
  }

  /** A section: its header, a blank line, its items and `tail`; nothing for an empty group. */
  function Section(header: string, items: seq<RoadmapItem>, tail: string): (r: string)
    ensures r == "" <==> items == []
  {
    if |items| > 0 then header + "\n\n" + ItemsText(items) + tail else ""
  }

  /**
    `generateRoadmapContent`: the frontmatter, then the working-on, backlog and shipped sections.
    `shipped` is the shipped group in the order the date sort leaves it, which is not modelled:
    any order of the group's items is accepted.
  */
  function GenerateRoadmapContent(groups: map<string, seq<RoadmapItem>>, shipped: seq<RoadmapItem>): (r: string)
    requires WorkingOn in groups && Backlog in groups && Shipped in groups
    requires multiset(shipped) == multiset(groups[Shipped])
    ensures |Frontmatter| <= |r| && r[..|Frontmatter|] == Frontmatter
  {
    var sections := Section(WorkingOnHeader, groups[WorkingOn], "\n\n") + Section(BacklogHeader, groups[Backlog], "\n\n")
      + Section(ShippedHeader, shipped, "\n");
    assert (Frontmatter + sections)[..|Frontmatter|] == Frontmatter;
    Frontmatter + sections
  }

  /** Items within a section follow one another with exactly one blank line between them. */
  lemma ItemsTextCons(items: seq<RoadmapItem>)
    requires |items| >= 2
    ensures ItemsText(items) == GenerateCheckboxLine(items[0]) + "\n\n" + ItemsText(items[1..])
  {
    assert ItemLines(items)[1..] == ItemLines(items[1..]);
  }
}
