/**
  What the roadmap parser reads back from the text scripts/migrate-roadmap.ts writes: one item gives
  back one task with the item's completion state, title, link, date, version and description, and
  a whole generated file has as many tasks as grouped items and as many completed ones as shipped
  items.
*/
module MigrateRoundTrip {
  import opened JsText
  import opened RoadmapTypes
  import opened RoadmapLines
  import opened RoadmapContent
  import opened RoadmapTaskLine
  import opened RoadmapStats
  import opened RoadmapForest
  import opened RoadmapTree
  import opened RoadmapSort
  import opened RoadmapParser
  import opened MigrateRoadmap

  /** `s` holds none of the characters that end a line for `.` (stated by membership). */
  predicate OneLine(s: string)
  {
    '\n' !in s && '\r' !in s && '\U{2028}' !in s && '\U{2029}' !in s
  }

  /** A title the parser reads back: one trimmed line without brackets. */
  predicate TitleReadable(title: string)
  {
    title != [] && Trimmed(title) && OneLine(title) && '[' !in title && ']' !in title
  }

  /** A link target, when written, is one line without `)`. */
  predicate LinkReadable(url: Option<string>)
  {
    Truthy(url) ==> ')' !in url.value && OneLine(url.value)
  }

  /** A field value, when written, is one line without `]`. */
  predicate ValueReadable(value: Option<string>)
  {
    Truthy(value) ==> ']' !in value.value && OneLine(value.value)
  }

  /** A description, when written, is one line whose first visible character is not `-`. */
  predicate DescriptionReadable(desc: Option<string>)
  {
    Truthy(desc) ==> '\n' !in desc.value && Trim(desc.value) != [] && Trim(desc.value)[0] != '-'
  }

  /** The items whose texts survive the trip. */
  predicate Readable(item: RoadmapItem)
  {
    && TitleReadable(item.title) && LinkReadable(item.docsUrl)
    && ValueReadable(item.date) && ValueReadable(item.version)
    && DescriptionReadable(item.description)
  }

  /** The optional text an item field becomes when the parser reads it back: trimmed, or absent. */
  function ReadBack(o: Option<string>, written: bool): Option<string>
  {
    if written && Truthy(o) then Some(Trim(o.value)) else None
  }

  /** The task the parser is expected to make of an item written on line `line`. */
  function ItemTask(item: RoadmapItem, line: nat): RoadmapTask
  {
    RoadmapTask(TaskId(TaskKind, line), item.title, item.status == Shipped, false,
                if Truthy(item.docsUrl) then Some(item.docsUrl.value) else None,
                ReadBack(item.date, item.status != Shipped),
                ReadBack(item.date, item.status == Shipped),
                ReadBack(item.version, true),
                ReadBack(item.description, true), [], 0)
  }

  /** The fields of the head line without the space before them. */
  function MetaBody(item: RoadmapItem): string
  {
    Join(MetaParts(item), " ")
  }

  // ---------------------------------------------------------------------------------------------
  // Text facts
  // ---------------------------------------------------------------------------------------------

  lemma OneLineIsNoTerminator(s: string)
    requires OneLine(s)
    ensures NoLineTerminator(s)
  {
    forall t | 0 <= t < |s| ensures !IsLineTerminator(s[t]) {
      assert s[t] in s;
    }
  }

  /** A text without a line break is one line. */
  lemma SplitOneLine(s: string)
    requires '\n' !in s
    ensures Split(s, '\n') == [s]
  {
    assert Join([s], "\n") == s;
    SplitJoin([s], '\n');
  }

  /** Lower-casing leaves a text without capitals as it is. */
  lemma LowerOfLower(s: string)
    requires forall t :: 0 <= t < |s| ==> !('A' <= s[t] <= 'Z')
    ensures LowerAscii(s) == s
  {
    assert forall t :: 0 <= t < |s| ==> LowerAscii(s)[t] == s[t];
  }

  // ---------------------------------------------------------------------------------------------
  // The head line
  // ---------------------------------------------------------------------------------------------

  /** The fields written for an item, spelled out case by case. */
  lemma MetaBodyCases(item: RoadmapItem)
    ensures MetaBody(item) ==
      if Truthy(item.date) && Truthy(item.version) then
        InlineField(DateKey(item), item.date.value) + " " + InlineField("version", item.version.value)
      else if Truthy(item.date) then InlineField(DateKey(item), item.date.value)
      else if Truthy(item.version) then InlineField("version", item.version.value)
      else []
    ensures MetaStr(item) == if MetaBody(item) == [] then [] else " " + MetaBody(item)
  {
    var parts := MetaParts(item);
    if |parts| == 2 {
      assert parts[1..][0] == parts[1];
      assert Join(parts, " ") == parts[0] + " " + parts[1];
    }
  }

  /** A key the script writes: a nonempty word. */
  predicate Word(key: string)
  {
    key != [] && forall t :: 0 <= t < |key| ==> IsWordChar(key[t])
  }

  /** A word is one line. */
  lemma WordOneLine(key: string)
    requires Word(key)
    ensures OneLine(key)
  {
    forall c | c in key ensures IsWordChar(c) {
      var t :| 0 <= t < |key| && key[t] == c;
    }
  }

  /** The three keys the script writes are words. */
  lemma KeysAreWords()
    ensures Word("start") && Word("completion") && Word("version")
  {
  }

  /** A field is one line when its key and value are, and it starts with `[` and ends with `]`. */
  lemma FieldShape(key: string, value: string)
    requires Word(key) && OneLine(value)
    ensures var f := InlineField(key, value);
      OneLine(f) && |f| >= 2 && f[0] == '[' && f[|f| - 1] == ']'
  {
    WordOneLine(key);
  }

  /** Two fields joined by a space. */
  lemma JoinedFields(a: string, b: string)
    requires OneLine(a) && |a| >= 2 && a[0] == '['
    requires OneLine(b) && |b| >= 2 && b[|b| - 1] == ']'
    ensures var s := a + " " + b;
      OneLine(s) && Trimmed(s)
  {
  }

  /** The fields are one line with nothing for `trim` to remove. */
  lemma MetaBodyShape(item: RoadmapItem)
    requires ValueReadable(item.date) && ValueReadable(item.version)
    ensures OneLine(MetaBody(item)) && Trimmed(MetaBody(item))
  {
    MetaBodyCases(item);
    var key := DateKey(item);
    KeysAreWords();
    if Truthy(item.date) && Truthy(item.version) {
      FieldShape(key, item.date.value);
      FieldShape("version", item.version.value);
      JoinedFields(InlineField(key, item.date.value), InlineField("version", item.version.value));
    } else if Truthy(item.date) {
      FieldShape(key, item.date.value);
    } else if Truthy(item.version) {
      FieldShape("version", item.version.value);
    }
  }

  /** The title part and the fields: one line, and nothing for `trim` to remove. */
  lemma ContentShape(item: RoadmapItem)
    requires Readable(item)
    ensures var c := TitlePart(item) + MetaStr(item);
      c != [] && OneLine(c) && Trimmed(c)
  {
    MetaBodyShape(item);
    MetaBodyCases(item);
  }

  /** The checkbox pattern reads indent 0, the box's mark, and the title part with the fields. */
  lemma HeadMatch(item: RoadmapItem)
    requires Readable(item)
    ensures MatchCheckbox(HeadLine(item))
      == Some(CheckboxMatch(0, if item.status == Shipped then 'x' else ' ', TitlePart(item) + MetaStr(item)))
  {
    var c := TitlePart(item) + MetaStr(item);
    ContentShape(item);
    OneLineIsNoTerminator(c);
    assert HeadLine(item) == "- " + Checkbox(item) + " " + c;
    assert !IsSpace(c[0]) && Checkbox(item)[1] == if item.status == Shipped then 'x' else ' ';
    BoxedLine(Checkbox(item), c);
  }

  /** A line of a dash, a three-character box, a space and a one-line text that starts visibly. */
  lemma BoxedLine(box: string, c: string)
    requires |box| == 3 && box[0] == '[' && box[2] == ']' && IsMark(box[1])
    requires c != [] && !IsSpace(c[0]) && NoLineTerminator(c)
    ensures MatchCheckbox("- " + box + " " + c) == Some(CheckboxMatch(0, box[1], c))
  {
    var line := "- " + box + " " + c;
    assert line[0] == '-' && line[1] == ' ' && line[2] == '[' && line[3] == box[1] && line[4] == ']';
    assert line[5] == ' ' && line[6] == c[0];
    SpacesFromExact(line, 1, 2);
    SpacesFromExact(line, 5, 6);
    assert line[6..] == c;
    assert NoLineTerminatorFrom(line, 6) by {
      forall t | 6 <= t < |line| ensures !IsLineTerminator(line[t]) { assert line[t] == c[t - 6]; }
    }
  }

  /** The title step gives back the title and the link, and leaves the fields. */
  lemma HeadSplit(item: RoadmapItem)
    requires Readable(item)
    ensures var c := TitlePart(item) + MetaStr(item);
      Trim(c) == c
      && SplitTitle(c) == Head(item.title, if Truthy(item.docsUrl) then Some(item.docsUrl.value) else None, MetaBody(item))
  {
    var c := TitlePart(item) + MetaStr(item);
    var ms := MetaStr(item);
    var body := MetaBody(item);
    ContentShape(item);
    MetaBodyShape(item);
    MetaBodyCases(item);
    TrimOfTrimmed(c);
    assert Trim(ms) == body by {
      if ms == [] {
        TrimOfTrimmed([]);
      } else {
        PaddedBody(body);
      }
    }
    if Truthy(item.docsUrl) {
      SplitTitleWithLink(item.title, item.docsUrl.value, ms);
    } else {
      PlainTitle(item.title, ms, body);
    }
  }

  /** A space in front of a trimmed text is what `trim` removes. */
  lemma PaddedBody(body: string)
    requires Trimmed(body)
    ensures Trim(" " + body) == body
  {
    assert AllSpaces([]) && AllSpaces(" ");
    TrimPadded(" ", body, []);
    assert " " + body + [] == " " + body;
  }

  /** A title without a link: the title is all before the first `[`, the fields all after it. */
  lemma PlainTitle(t: string, ms: string, body: string)
    requires TitleReadable(t) && Trimmed(body)
    requires ms == [] || (ms == " " + body && |body| >= 1 && body[0] == '[')
    ensures SplitTitle(t + ms) == Head(t, None, Trim(ms))
  {
    var c := t + ms;
    assert c[0] == t[0];
    assert MatchLeadingLink(c).None?;
    if ms == [] {
      assert c == t;
      IndexOfExact(c, '[', 0, |c|);
      TrimOfTrimmed(t);
    } else {
      assert c[|t|] == ' ' && c[|t| + 1] == '[';
      assert forall k :: 0 <= k < |t| ==> c[k] == t[k];
      IndexOfExact(c, '[', 0, |t| + 1);
      assert c[..|t| + 1] == t + " " && c[|t| + 1..] == body;
      assert AllSpaces([]) && AllSpaces(" ");
      TrimPadded([], t, " ");
      assert [] + t + " " == t + " ";
      TrimOfTrimmed(body);
      PaddedBody(body);
    }
  }

  /** One well-formed field in front of `rest` is one match, and `replace` removes all of it. */
  lemma FieldThen(key: string, value: string, rest: string)
    requires Word(key)
    requires value != [] && ']' !in value
    ensures var s := InlineField(key, value) + rest;
      && FieldPrefix(s).Some?
      && Fields(s) == [FieldPrefix(s).value] + Fields(rest)
      && Strip(s) == Strip(rest)
      && FieldPrefix(s).value.key == key && Trim(FieldPrefix(s).value.value) == Trim(value)
  {
    var s := InlineField(key, value) + rest;
    assert s == "[" + key + ":: " + value + "]" + rest;
    FieldPrefixOfField(key, value, rest);
    assert s[|key| + |value| + 5..] == rest;
  }

  /** A space before `rest` is no match and stays in the stripped text. */
  lemma SpaceThen(rest: string)
    ensures Fields(" " + rest) == Fields(rest) && Strip(" " + rest) == " " + Strip(rest)
  {
    assert (" " + rest)[1..] == rest;
  }

  /** The scan finds one match in one field, and `replace` leaves nothing. */
  lemma OneFieldScan(key: string, value: string)
    requires Word(key) && value != [] && ']' !in value
    ensures var fs := Fields(InlineField(key, value));
      |fs| == 1 && fs[0].key == key && Trim(fs[0].value) == Trim(value)
    ensures Strip(InlineField(key, value)) == []
  {
    FieldThen(key, value, []);
    assert InlineField(key, value) + [] == InlineField(key, value);
    assert Fields([]) == [] && Strip([]) == [];
  }

  /** The three field names `parseTaskLine` keeps are written in small letters. */
  lemma NamesAreLower(name: string)
    requires name == "start" || name == "completion" || name == "version"
    ensures forall i :: 0 <= i < |name| ==> 'a' <= name[i] <= 'z'
  {
  }

  /**
    The field loop ignores the case of keys: `[Start:: v]`, `[START:: v]` or any other spelling of
    `start`, `completion` or `version` up to ASCII case, in front of any remainder, sets that field
    to the trimmed value and then reads the remainder, exactly as the small-letter spelling does.
  */
  lemma FieldNameIgnoresCase(m: Meta, key: string, name: string, value: string, rest: string)
    requires name == "start" || name == "completion" || name == "version"
    requires |key| == |name| && forall i :: 0 <= i < |key| ==> key[i] == name[i] || key[i] as int == name[i] as int - 32
    requires value != [] && ']' !in value
    ensures var set1 := if name == "start" then m.(start := Some(Trim(value)))
                        else if name == "completion" then m.(completion := Some(Trim(value)))
                        else m.(version := Some(Trim(value)));
      ApplyFields(m, Fields(InlineField(key, value) + rest)) == ApplyFields(set1, Fields(rest))
    ensures ApplyFields(m, Fields(InlineField(key, value) + rest)) == ApplyFields(m, Fields(InlineField(name, value) + rest))
  {
    NamesAreLower(name);
    assert Word(key) by {
      forall t | 0 <= t < |key| ensures IsWordChar(key[t]) {
        assert 'a' <= name[t] <= 'z';
      }
    }
    KeysAreWords();
    LowerAsciiIs(key, name);
    LowerAsciiIs(name, name);
    FieldThen(key, value, rest);
    FieldThen(name, value, rest);
    var f := FieldPrefix(InlineField(key, value) + rest).value;
    var g := FieldPrefix(InlineField(name, value) + rest).value;
    ApplyFieldsCons(m, f, Fields(rest));
    ApplyFieldsCons(m, g, Fields(rest));
  }

  /**
    A task line with one field whose key spells `start`, `completion` or `version` in any mix of
    small and capital letters (`[START:: v]`, `[Version:: v]`) stores the trimmed value in that
    field, exactly as the small-letter spelling does, and keeps no description.
  */
  lemma TaskFieldKeyCase(mark: char, title: string, key: string, name: string, value: string, n: nat)
    requires IsMark(mark) && TitleReadable(title)
    requires name == "start" || name == "completion" || name == "version"
    requires |key| == |name| && forall i :: 0 <= i < |key| ==> SameIgnoringCase(key[i], name[i])
    requires value != [] && ']' !in value && OneLine(value)
    ensures var v := Some(Trim(value));
      TaskLine("- [" + [mark] + "] " + title + " " + InlineField(key, value), n)
      == Some(RoadmapTask(TaskId(TaskKind, n), title, mark == 'x' || mark == 'X', false, None,
                          if name == "start" then v else None, if name == "completion" then v else None,
                          if name == "version" then v else None, None, [], 0))
  {
    var f := InlineField(key, value);
    var line := "- [" + [mark] + "] " + title + " " + f;
    KeySpellsName(key, name);
    OneFieldLine(mark, title, key, value);
    FieldNameIgnoresCase(NoMeta, key, name, value, []);
    assert f + [] == f;
    assert Fields([]) == [];
    OneFieldScan(key, value);
    ParsedHead(line, n, mark, title + " " + f, title, None, f, ApplyFields(NoMeta, Fields(f)));
  }

  /** A key equal to a field name up to case is a word, differing from the name only by capitals. */
  lemma KeySpellsName(key: string, name: string)
    requires name == "start" || name == "completion" || name == "version"
    requires |key| == |name| && forall i :: 0 <= i < |key| ==> SameIgnoringCase(key[i], name[i])
    ensures Word(key)
    ensures forall i :: 0 <= i < |key| ==> key[i] == name[i] || key[i] as int == name[i] as int - 32
  {
    NamesAreLower(name);
    forall i | 0 <= i < |key| ensures key[i] == name[i] || key[i] as int == name[i] as int - 32 {
      assert SameIgnoringCase(key[i], name[i]);
    }
    forall t | 0 <= t < |key| ensures IsWordChar(key[t]) {
      assert 'a' <= name[t] <= 'z';
    }
  }

  /** A checkbox line with a plain title and one field: the title step leaves just the field. */
  lemma OneFieldLine(mark: char, title: string, key: string, value: string)
    requires IsMark(mark) && TitleReadable(title) && Word(key)
    requires value != [] && ']' !in value && OneLine(value)
    ensures var f := InlineField(key, value);
      var c := title + " " + f;
      && MatchCheckbox("- [" + [mark] + "] " + title + " " + f) == Some(CheckboxMatch(0, mark, c))
      && Trim(c) == c && SplitTitle(c) == Head(title, None, f)
  {
    var f := InlineField(key, value);
    FieldShape(key, value);
    OneFieldBox(mark, title, f);
    OneFieldTitle(title, f);
  }

  /** The checkbox pattern reads the title and the field as the content. */
  lemma OneFieldBox(mark: char, title: string, f: string)
    requires IsMark(mark) && TitleReadable(title)
    requires OneLine(f) && |f| >= 2 && f[0] == '[' && f[|f| - 1] == ']'
    ensures MatchCheckbox("- [" + [mark] + "] " + title + " " + f) == Some(CheckboxMatch(0, mark, title + " " + f))
  {
    var box := "[" + [mark] + "]";
    var c := title + " " + f;
    assert OneLine(c);
    OneLineIsNoTerminator(c);
    assert "- [" + [mark] + "] " + title + " " + f == "- " + box + " " + c;
    BoxedLine(box, c);
  }

  /** The title step on a title and a field: the title, no link, and the field as the rest. */
  lemma OneFieldTitle(title: string, f: string)
    requires TitleReadable(title)
    requires OneLine(f) && |f| >= 2 && f[0] == '[' && f[|f| - 1] == ']'
    ensures Trim(title + " " + f) == title + " " + f && SplitTitle(title + " " + f) == Head(title, None, f)
  {
    var c := title + " " + f;
    assert c == title + (" " + f);
    PlainTitle(title, " " + f, f);
    PaddedBody(f);
    TrimOfTrimmed(c);
  }

  /** The scan finds two matches in two fields, and `replace` leaves the space between them. */
  lemma TwoFieldScan(key: string, value: string, version: string)
    requires Word(key) && value != [] && ']' !in value && version != [] && ']' !in version
    ensures var fs := Fields(InlineField(key, value) + " " + InlineField("version", version));
      && |fs| == 2 && fs[0].key == key && Trim(fs[0].value) == Trim(value)
      && fs[1].key == "version" && Trim(fs[1].value) == Trim(version)
    ensures Strip(InlineField(key, value) + " " + InlineField("version", version)) == " "
  {
    var b := InlineField("version", version);
    assert InlineField(key, value) + " " + b == InlineField(key, value) + (" " + b);
    FieldThen(key, value, " " + b);
    SpaceThen(b);
    KeysAreWords();
    OneFieldScan("version", version);
  }

  /** A match under the key `start` sets the start date. */
  lemma ApplyStart(m: Meta, f: FieldMatch)
    requires f.key == "start"
    ensures ApplyField(m, f) == m.(start := Some(Trim(f.value)))
  {
    LowerOfLower("start");
  }

  /** A match under the key `completion` sets the completion date. */
  lemma ApplyCompletion(m: Meta, f: FieldMatch)
    requires f.key == "completion"
    ensures ApplyField(m, f) == m.(completion := Some(Trim(f.value)))
  {
    LowerOfLower("completion");
  }

  /** A match under the key `version` sets the version. */
  lemma ApplyVersion(m: Meta, f: FieldMatch)
    requires f.key == "version"
    ensures ApplyField(m, f) == m.(version := Some(Trim(f.value)))
  {
    LowerOfLower("version");
  }

  /** The field matches of the written fields, and the fields they store. */
  lemma MetaFields(item: RoadmapItem)
    requires ValueReadable(item.date) && ValueReadable(item.version)
    ensures var m := ApplyFields(NoMeta, Fields(MetaBody(item)));
      && m.start == ReadBack(item.date, item.status != Shipped)
      && m.completion == ReadBack(item.date, item.status == Shipped)
      && m.version == ReadBack(item.version, true)
    ensures Trim(Strip(MetaBody(item))) == []
  {
    MetaBodyCases(item);
    var key := DateKey(item);
    KeysAreWords();
    var fs := Fields(MetaBody(item));
    assert AllSpaces([]) && AllSpaces(" ");
    if Truthy(item.date) && Truthy(item.version) {
      TwoFieldScan(key, item.date.value, item.version.value);
      ApplyTwo(NoMeta, fs);
      ApplyDate(item, NoMeta, fs[0]);
      ApplyVersion(ApplyField(NoMeta, fs[0]), fs[1]);
    } else if Truthy(item.date) {
      OneFieldScan(key, item.date.value);
      ApplyOne(NoMeta, fs);
      ApplyDate(item, NoMeta, fs[0]);
    } else if Truthy(item.version) {
      OneFieldScan("version", item.version.value);
      ApplyOne(NoMeta, fs);
      ApplyVersion(NoMeta, fs[0]);
    } else {
      assert fs == [] && Strip([]) == [];
    }
  }

  /** The fold over one match is that match applied. */
  lemma ApplyOne(m: Meta, fs: seq<FieldMatch>)
    requires |fs| == 1
    ensures ApplyFields(m, fs) == ApplyField(m, fs[0])
  {
    assert fs[1..] == [];
  }

  /** The fold over two matches applies the first, then the second. */
  lemma ApplyTwo(m: Meta, fs: seq<FieldMatch>)
    requires |fs| == 2
    ensures ApplyFields(m, fs) == ApplyField(ApplyField(m, fs[0]), fs[1])
  {
    ApplyOne(ApplyField(m, fs[0]), fs[1..]);
  }

  /** A match under the item's date key sets the date the item's status calls for. */
  lemma ApplyDate(item: RoadmapItem, m: Meta, f: FieldMatch)
    requires f.key == DateKey(item)
    ensures ApplyField(m, f) ==
      if item.status == Shipped then m.(completion := Some(Trim(f.value))) else m.(start := Some(Trim(f.value)))
  {
    if item.status == Shipped {
      ApplyCompletion(m, f);
    } else {
      ApplyStart(m, f);
    }
  }

  /** The head line is the item's task, without the description that the next line brings. */
  lemma HeadTask(item: RoadmapItem, n: nat)
    requires Readable(item)
    ensures TaskLine(HeadLine(item), n) == Some(ItemTask(item, n).(description := None))
  {
    var c := TitlePart(item) + MetaStr(item);
    var link := if Truthy(item.docsUrl) then Some(item.docsUrl.value) else None;
    var body := MetaBody(item);
    HeadMatch(item);
    HeadSplit(item);
    MetaFields(item);
    ParsedHead(HeadLine(item), n, if item.status == Shipped then 'x' else ' ', c, item.title, link, body,
               ApplyFields(NoMeta, Fields(body)));
  }

  /**
    A checkbox line at indent 0 whose content splits into a title, a link and fields that
    `replace` removes completely is a level-0 task without description.
  */
  lemma ParsedHead(line: string, n: nat, mark: char, c: string, title: string, link: Option<string>, rest: string, meta: Meta)
    requires MatchCheckbox(line) == Some(CheckboxMatch(0, mark, c))
    requires Trim(c) == c && SplitTitle(c) == Head(title, link, rest)
    requires ApplyFields(NoMeta, Fields(rest)) == meta && Trim(Strip(rest)) == []
    ensures TaskLine(line, n) == Some(RoadmapTask(TaskId(TaskKind, n), title, mark == 'x' || mark == 'X', false,
                                                  link, meta.start, meta.completion, meta.version, None, [], 0))
  {
  }

  // ---------------------------------------------------------------------------------------------
  // The description line
  // ---------------------------------------------------------------------------------------------

  /**
    The description line, two spaces and the description, is neither a task nor a category and
    continues any level-0 node, whose description becomes the trimmed description.
  */
  lemma DescriptionLine(desc: string, n: nat)
    requires Trim(desc) != [] && Trim(desc)[0] != '-'
    ensures var line := "  " + desc;
      && !IsTaskLine(line) && LineNode(line, n).None?
      && Trim(line) == Trim(desc)
      && forall t: RoadmapTask :: t.level == 0 ==> Continues(t, line)
  {
    var line := "  " + desc;
    assert AllSpaces("  ") && AllSpaces([]);
    TrimIgnoresPadding("  ", desc, []);
    assert "  " + desc + [] == line;
    var i := LeadingSpaces(line);
    assert !AllSpaces(line);
    assert i < |line| && line[i] == Trim(line)[0];
    assert 0 < i by {
      assert IsSpace(line[0]);
    }
  }

  // ---------------------------------------------------------------------------------------------
  // One item
  // ---------------------------------------------------------------------------------------------

  /** The lines of a generated item: the head line, then the description line when there is one. */
  lemma ItemSplit(item: RoadmapItem)
    requires Readable(item)
    ensures Split(GenerateCheckboxLine(item), '\n') ==
      [HeadLine(item)] + (if Truthy(item.description) then ["  " + item.description.value] else [])
  {
    HeadOneLine(item);
    if Truthy(item.description) {
      assert GenerateCheckboxLine(item) == HeadLine(item) + ("\n  " + item.description.value);
      DescribedText(HeadLine(item), item.description.value);
    } else {
      assert GenerateCheckboxLine(item) == HeadLine(item);
      SplitOneLine(HeadLine(item));
    }
  }

  /** A head line, a line break, two spaces and a one-line description are two lines. */
  lemma DescribedText(head: string, desc: string)
    requires '\n' !in head && '\n' !in desc
    ensures Split(head + ("\n  " + desc), '\n') == [head, "  " + desc]
  {
    assert head + ("\n  " + desc) == head + ['\n'] + ("  " + desc);
    TwoLines(head, "  " + desc);
  }

  /** The head line holds no line break. */
  lemma HeadOneLine(item: RoadmapItem)
    requires Readable(item)
    ensures '\n' !in HeadLine(item)
  {
    var c := TitlePart(item) + MetaStr(item);
    ContentShape(item);
    assert HeadLine(item) == "- " + Checkbox(item) + " " + c;
  }

  /** Two texts without line breaks, joined by one, are two lines. */
  lemma TwoLines(a: string, b: string)
    requires '\n' !in a && '\n' !in b
    ensures Split(a + ['\n'] + b, '\n') == [a, b]
  {
    SplitOneLine(a);
    SplitOneLine(b);
    SplitAround(a, '\n', b);
  }

  /** The parser makes exactly one node of a generated item: the item's task. */
  lemma ItemNodes(item: RoadmapItem)
    requires Readable(item)
    ensures var lines := Split(GenerateCheckboxLine(item), '\n');
      Nodes(lines, |lines|) == [ItemTask(item, 0)]
  {
    if Truthy(item.description) {
      DescribedItemNodes(item);
    } else {
      PlainItemNodes(item);
    }
  }

  /** An item without description is one line, which makes the item's task. */
  lemma PlainItemNodes(item: RoadmapItem)
    requires Readable(item) && !Truthy(item.description)
    ensures var lines := Split(GenerateCheckboxLine(item), '\n');
      |lines| == 1 && Nodes(lines, 1) == [ItemTask(item, 0)]
  {
    ItemSplit(item);
    HeadTask(item, 0);
    NodesOne(Split(GenerateCheckboxLine(item), '\n'), ItemTask(item, 0));
  }

  /** An item with a description is two lines, which make the item's task with its description. */
  lemma DescribedItemNodes(item: RoadmapItem)
    requires Readable(item) && Truthy(item.description)
    ensures var lines := Split(GenerateCheckboxLine(item), '\n');
      |lines| == 2 && Nodes(lines, 2) == [ItemTask(item, 0)]
  {
    ItemSplit(item);
    HeadTask(item, 0);
    HeadThenDescription(Split(GenerateCheckboxLine(item), '\n'), HeadLine(item), item.description.value,
                        ItemTask(item, 0).(description := None));
  }

  /** A level-0 task line without description, then a description line: one node with that description. */
  lemma HeadThenDescription(lines: seq<string>, head: string, desc: string, t: RoadmapTask)
    requires lines == [head, "  " + desc] && TaskLine(head, 0) == Some(t)
    requires t.level == 0 && t.description.None?
    requires Trim(desc) != [] && Trim(desc)[0] != '-'
    ensures Nodes(lines, 2) == [t.(description := Some(Trim(desc)))]
  {
    DescriptionLine(desc, 1);
    NodesTwo(lines, t);
  }

  /** One line that makes a node gives that node. */
  lemma NodesOne(lines: seq<string>, t: RoadmapTask)
    requires |lines| == 1 && LineNode(lines[0], 0) == Some(t)
    ensures Nodes(lines, 1) == [t]
  {
    assert Nodes(lines, 0) == [];
  }

  /**
    A node line without description, then a line that is no node and continues it: one node, whose
    description is the second line trimmed.
  */
  lemma NodesTwo(lines: seq<string>, t: RoadmapTask)
    requires |lines| == 2 && LineNode(lines[0], 0) == Some(t) && t.description.None?
    requires LineNode(lines[1], 1).None? && Continues(t, lines[1])
    ensures Nodes(lines, 2) == [t.(description := Some(Trim(lines[1])))]
  {
    NodesOne(lines[..1], t);
    assert Nodes(lines, 1) == Nodes(lines[..1], 1) by {
      assert Nodes(lines, 0) == [] && Nodes(lines[..1], 0) == [];
    }
    assert [t][..0] == [];
  }

  /** Only the empty forest has no nodes. */
  lemma FlattenEmpty(ts: seq<RoadmapTask>)
    ensures |Flatten(ts)| == 0 <==> ts == []
  {
  }

  /** A forest of one childless node is that node. */
  lemma ForestOne(ns: seq<RoadmapTask>)
    requires |ns| == 1 && ns[0].children == []
    ensures Forest(ns) == ns
  {
    var f := Forest(ns);
    ForestPreorder(ns);
    FlattenEmpty(f);
    assert Flatten(f) == [f[0]] + Flatten(f[0].children) + Flatten(f[1..]);
    FlattenEmpty(f[0].children);
    FlattenEmpty(f[1..]);
    assert f == [f[0]];
    assert f[0] == Flatten(f)[0];
  }

  /** Sorting leaves one childless node as it is. */
  lemma SortOne(ns: seq<RoadmapTask>)
    requires |ns| == 1 && ns[0].children == []
    ensures SortTasks(ns) == ns
  {
    var t := ns[0];
    assert ns == [t];
    SortEmpty();
    assert Processed([t])[0] == t;
    assert Processed([t]) == [t];
    GroupsOne(t);
  }

  /** The three groups of a one-node list are that list. */
  lemma GroupsOne(t: RoadmapTask)
    ensures Groups([t]) == [t]
  {
    KeepUniform([t], Rank(t), 0);
    KeepUniform([t], Rank(t), 1);
    KeepUniform([t], Rank(t), 2);
  }

  /** Sorting the empty forest gives the empty forest. */
  lemma SortEmpty()
    ensures SortTasks([]) == []
  {
    assert Processed([]) == [];
    assert Keep([], 0) == [] && Keep([], 1) == [] && Keep([], 2) == [];
  }

  /**
    The round trip of one item: parsing the text `generateCheckboxLine` writes gives exactly one
    task, completed exactly when the item is shipped, with the item's title and link, its date as
    completion date (shipped) or start date (otherwise), its version and its description, the
    three texts trimmed.
  */
  lemma ItemRoundTrip(item: RoadmapItem)
    requires Readable(item)
    ensures Parsed(GenerateCheckboxLine(item)) == [ItemTask(item, 0)]
  {
    ItemNodes(item);
    ForestOne([ItemTask(item, 0)]);
    SortOne([ItemTask(item, 0)]);
  }
}
