/**
  The content of a task line after its checkbox, as `parseTaskLine` in lib/roadmap-parser.ts takes
  it apart: an optional leading `[text](url)` link or a plain title up to the first `[`, then inline
  fields `[key:: value]`, and what is left over as the description.
*/
module RoadmapContent {
  import opened JsText

  // ---------------------------------------------------------------------------------------------
  // The leading link /^\[([^\]]+)\]\(([^)]+)\)/
  // ---------------------------------------------------------------------------------------------

  /** The two captures of the link pattern and the length of the whole match. */
  datatype LinkMatch = LinkMatch(text: string, url: string, length: nat)

  /** Link text of the pattern: one or more characters, none of them `]`. */
  predicate IsLinkText(t: string)
  {
    t != [] && ']' !in t
  }

  /** Link target of the pattern: one or more characters, none of them `)`. */
  predicate IsLinkUrl(u: string)
  {
    u != [] && ')' !in u
  }

  /** The match JavaScript finds: the text runs to the first `]`, the target to the first `)` after it. */
  function MatchLeadingLink(s: string): Option<LinkMatch>
  {
    if |s| > 0 && s[0] == '[' then
      var q := IndexOf(s, ']', 1);
      if 2 <= q && q + 1 < |s| && s[q + 1] == '(' then
        var r := IndexOf(s, ')', q + 2);
        if q + 3 <= r < |s| then Some(LinkMatch(s[1..q], s[q + 2..r], r + 1)) else None
      else None
    else None
  }

  /** A match is a prefix of the form `[text](url)` with text and target as the pattern allows. */
  lemma MatchLeadingLinkSound(s: string)
    requires MatchLeadingLink(s).Some?
    ensures var m := MatchLeadingLink(s).value;
      && IsLinkText(m.text) && IsLinkUrl(m.url)
      && m.length == |m.text| + |m.url| + 4 <= |s|
      && s == "[" + m.text + "](" + m.url + ")" + s[m.length..]
  {
    var m := MatchLeadingLink(s).value;
    var q := IndexOf(s, ']', 1);
    var r := IndexOf(s, ')', q + 2);
    var text, url := s[1..q], s[q + 2..r];
    assert ']' !in text by {
      forall t | 0 <= t < |text| ensures text[t] != ']' { assert text[t] == s[t + 1]; }
    }
    assert ')' !in url by {
      forall t | 0 <= t < |url| ensures url[t] != ')' { assert url[t] == s[t + q + 2]; }
    }
    LinkReassembled(s, q, r);
  }

  /** A text with `[` at 0, `](` at `q` and `)` at `r` is the link built from its pieces. */
  lemma LinkReassembled(s: string, q: nat, r: nat)
    requires 1 <= q && q + 2 <= r < |s| && s[0] == '[' && s[q] == ']' && s[q + 1] == '(' && s[r] == ')'
    ensures s == "[" + s[1..q] + "](" + s[q + 2..r] + ")" + s[r + 1..]
  {
    var a, b, c := s[1..q], s[q + 2..r], s[r + 1..];
    assert s == [s[0]] + a + [s[q], s[q + 1]] + b + [s[r]] + c by {
      assert s == s[..1] + s[1..q] + s[q..q + 2] + s[q + 2..r] + s[r..r + 1] + s[r + 1..];
    }
  }

  /** Every prefix of the form `[text](url)` is matched, with exactly that text and target. */
  lemma MatchLeadingLinkComplete(t: string, u: string, rest: string)
    requires IsLinkText(t) && IsLinkUrl(u)
    ensures MatchLeadingLink("[" + t + "](" + u + ")" + rest) == Some(LinkMatch(t, u, |t| + |u| + 4))
  {
    var s := "[" + t + "](" + u + ")" + rest;
    var q := |t| + 1;
    assert forall j :: 1 <= j < q ==> s[j] == t[j - 1];
    IndexOfExact(s, ']', 1, q);
    assert forall j :: q + 2 <= j < q + 2 + |u| ==> s[j] == u[j - q - 2];
    IndexOfExact(s, ')', q + 2, q + 2 + |u|);
    assert s[1..q] == t;
    assert s[q + 2..q + 2 + |u|] == u;
  }

  // ---------------------------------------------------------------------------------------------
  // Title and link
  // ---------------------------------------------------------------------------------------------

  /** What the head of the content yields: the title, the link, and the text left for fields. */
  datatype Head = Head(title: string, link: Option<string>, rest: string)

  /**
    The title step of `parseTaskLine` on the trimmed content `c`: a leading link gives title and
    link; otherwise `/^([^\[]+)/` takes the text before the first `[` as the title.
  */
  function SplitTitle(c: string): Head
  {
    match MatchLeadingLink(c)
    case Some(m) => Head(m.text, Some(m.url), Trim(c[m.length..]))
    case None =>
      var p := IndexOf(c, '[', 0);
      if p > 0 then Head(Trim(c[..p]), None, Trim(c[p..])) else Head("", None, c)
  }

  /** The longest prefix of `c` without a `[`, defined one character at a time. */
  function BeforeBracket(c: string): (b: string)
    ensures |b| <= |c| && b == c[..|b|]
  {
    if c == [] || c[0] == '[' then [] else [c[0]] + BeforeBracket(c[1..])
  }

  lemma {:induction false} BeforeBracketIsIndexOf(c: string)
    ensures |BeforeBracket(c)| == IndexOf(c, '[', 0)
  {
    if c != [] && c[0] != '[' {
      BeforeBracketIsIndexOf(c[1..]);
      var k := IndexOf(c[1..], '[', 0);
      assert forall j :: 0 <= j < k + 1 ==> (j == 0 || c[j] == c[1..][j - 1]);
      IndexOfExact(c, '[', 0, k + 1);
    }
  }

  /** A content that starts with a well-formed link has that link's text as title. */
  lemma SplitTitleWithLink(t: string, u: string, rest: string)
    requires IsLinkText(t) && IsLinkUrl(u)
    ensures SplitTitle("[" + t + "](" + u + ")" + rest) == Head(t, Some(u), Trim(rest))
  {
    var c := "[" + t + "](" + u + ")" + rest;
    MatchLeadingLinkComplete(t, u, rest);
    assert c[|t| + |u| + 4..] == rest;
  }

  /**
    Without a leading link, the title is the trimmed text before the first `[` (empty when the
    content starts with `[` or is empty), there is no link, and the rest starts at that `[`.
  */
  lemma SplitTitleWithoutLink(c: string)
    requires MatchLeadingLink(c).None?
    ensures var b := BeforeBracket(c);
      && SplitTitle(c).title == Trim(b) && SplitTitle(c).link.None?
      && '[' !in SplitTitle(c).title
      && SplitTitle(c).rest == (if b == [] then c else Trim(c[|b|..]))
  {
    BeforeBracketIsIndexOf(c);
    var p := IndexOf(c, '[', 0);
    if p > 0 {
      var h := SplitTitle(c);
      assert '[' !in c[..p] by {
        forall j | 0 <= j < p ensures c[..p][j] != '[' { assert c[..p][j] == c[j]; }
      }
      var a, z := TrimDecompose(c[..p]);
      assert '[' !in h.title by {
        forall j | 0 <= j < |h.title| ensures h.title[j] != '[' { assert h.title[j] == c[..p][|a| + j]; }
      }
    } else {
      assert Trim([]) == [] by { assert AllSpaces([]); }
    }
  }

  // ---------------------------------------------------------------------------------------------
  // Inline fields /\[(\w+)::\s*([^\]]+)\]/g
  // ---------------------------------------------------------------------------------------------

  /** A match of the field pattern at the start of a text: both captures and the match's length. */
  datatype FieldMatch = FieldMatch(key: string, value: string, length: nat)

  /**
    The text `s` starts with a word of the field pattern, read with `::` at `w`, the value capture
    starting at `v` and the closing `]` at `q`.
  */
  ghost predicate FieldParse(s: string, w: int, v: int, q: int)
  {
    && 1 < w && w + 2 <= v < q < |s|
    && s[0] == '[' && (forall t :: 1 <= t < w ==> IsWordChar(s[t])) && s[w] == ':' && s[w + 1] == ':'
    && SpacesBetween(s, w + 2, v) && (forall t :: v <= t < q ==> s[t] != ']') && s[q] == ']'
  }

  /**
    The match JavaScript finds at the start of `s`: the whole word run as key, the longest space run
    that still leaves one character for the value, and the value up to the first `]`.
  */
  function FieldPrefix(s: string): (r: Option<FieldMatch>)
    ensures r.Some? ==> 0 < r.value.length <= |s|
  {
    if |s| > 0 && s[0] == '[' then
      var w := WordFrom(s, 1);
      if 1 < w && w + 1 < |s| && s[w] == ':' && s[w + 1] == ':' then
        var q := IndexOf(s, ']', w + 2);
        if w + 2 < q < |s| then
          var e := SpacesFrom(s, w + 2);
          var v := if e < q then e else q - 1;
          Some(FieldMatch(s[1..w], s[v..q], q + 1))
        else None
      else None
    else None
  }

  /**
    The matcher accepts exactly the texts that start with a word of the pattern; every reading
    agrees on the key and the closing `]`, and the value capture is the shortest one any reading
    allows, because `\s*` takes as many spaces as it can.
  */
  lemma FieldPrefixIsRegexMatch(s: string)
    ensures FieldPrefix(s).Some? <==> exists w, v, q :: FieldParse(s, w, v, q)
    ensures forall w, v, q | FieldParse(s, w, v, q) ::
      && FieldPrefix(s).Some?
      && FieldPrefix(s).value.key == s[1..w] && FieldPrefix(s).value.length == q + 1
      && 0 < |FieldPrefix(s).value.value| <= q - v
      && FieldPrefix(s).value.value == s[q - |FieldPrefix(s).value.value|..q]
  {
    if FieldPrefix(s).Some? {
      var w := WordFrom(s, 1);
      var q := IndexOf(s, ']', w + 2);
      var e := SpacesFrom(s, w + 2);
      var v := if e < q then e else q - 1;
      assert FieldParse(s, w, v, q);
    }
    forall w, v, q | FieldParse(s, w, v, q)
      ensures FieldPrefix(s).Some? && FieldPrefix(s).value.key == s[1..w]
      ensures FieldPrefix(s).value.length == q + 1
      ensures 0 < |FieldPrefix(s).value.value| <= q - v
      ensures FieldPrefix(s).value.value == s[q - |FieldPrefix(s).value.value|..q]
    {
      FieldReading(s, w, v, q);
    }
  }

  lemma FieldReading(s: string, w: nat, v: nat, q: nat)
    requires FieldParse(s, w, v, q)
    ensures FieldPrefix(s).Some? && FieldPrefix(s).value.key == s[1..w]
    ensures FieldPrefix(s).value.length == q + 1
    ensures 0 < |FieldPrefix(s).value.value| <= q - v
    ensures FieldPrefix(s).value.value == s[q - |FieldPrefix(s).value.value|..q]
  {
    WordFromExact(s, 1, w);
    IndexOfExact(s, ']', w + 2, q);
    SpacesFromAtLeast(s, w + 2, v);
  }

  /** Every `[key:: value]` with a word key and a value without `]` is matched; `value.trim()` is the stored text. */
  lemma FieldPrefixOfField(key: string, value: string, rest: string)
    requires key != [] && forall t :: 0 <= t < |key| ==> IsWordChar(key[t])
    requires value != [] && ']' !in value
    ensures var s := "[" + key + ":: " + value + "]" + rest;
      && FieldPrefix(s).Some?
      && FieldPrefix(s).value.key == key
      && Trim(FieldPrefix(s).value.value) == Trim(value)
      && FieldPrefix(s).value.length == |key| + |value| + 5
  {
    var s := "[" + key + ":: " + value + "]" + rest;
    var w := |key| + 1;
    var q := w + 3 + |value|;
    FieldTextParse(key, value, rest);
    FieldReading(s, w, w + 2, q);
    FieldValueSpaces(s);
    var m := FieldPrefix(s).value;
    var x := s[w + 2..q];
    var n := q - |m.value| - (w + 2);
    assert m.value == x[n..];
    assert AllSpaces(x[..n]) by {
      forall t | 0 <= t < n ensures IsSpace(x[..n][t]) { assert x[..n][t] == s[w + 2 + t]; }
    }
    TrimDropSpaces(x, value, n);
  }

  /** The text of a field reads as the pattern with the key, the `::`, one space and the value. */
  lemma FieldTextParse(key: string, value: string, rest: string)
    requires key != [] && forall t :: 0 <= t < |key| ==> IsWordChar(key[t])
    requires value != [] && ']' !in value
    ensures var s := "[" + key + ":: " + value + "]" + rest;
      var w, q := |key| + 1, |key| + 4 + |value|;
      && FieldParse(s, w, w + 2, q) && s[1..w] == key && s[w + 2..q] == " " + value
  {
    var s := "[" + key + ":: " + value + "]" + rest;
    var w := |key| + 1;
    var q := w + 3 + |value|;
    assert forall t :: 1 <= t < w ==> s[t] == key[t - 1];
    assert forall t :: w + 3 <= t < q ==> s[t] == value[t - w - 3];
    assert s[w] == ':' && s[w + 1] == ':' && s[w + 2] == ' ' && s[q] == ']';
    assert s[1..w] == key;
    assert s[w + 2..q] == " " + value;
  }

  /** The value a match captures starts after the spaces that follow the `::`. */
  lemma FieldValueSpaces(s: string)
    requires FieldPrefix(s).Some?
    ensures var m := FieldPrefix(s).value;
      |m.key| + 3 <= m.length - 1 - |m.value| && SpacesBetween(s, |m.key| + 3, m.length - 1 - |m.value|)
  {
    var w := WordFrom(s, 1);
    var q := IndexOf(s, ']', w + 2);
    var e := SpacesFrom(s, w + 2);
  }

  /** Dropping leading spaces from one space and a value does not change what `trim` gives. */
  lemma TrimDropSpaces(x: string, value: string, n: nat)
    requires x == " " + value && n <= |x| && AllSpaces(x[..n])
    ensures Trim(x[n..]) == Trim(value)
  {
    assert AllSpaces([]) && AllSpaces(" ");
    TrimIgnoresPadding(x[..n], x[n..], []);
    assert x[..n] + x[n..] + [] == x;
    TrimIgnoresPadding(" ", value, []);
    assert " " + value + [] == x;
  }

  /** A value made of spaces only gives one back to `[^\]]+`, so `[key:: ]` stores the empty text. */
  lemma BlankFieldValue(key: string, spaces: string, rest: string)
    requires key != [] && forall t :: 0 <= t < |key| ==> IsWordChar(key[t])
    requires spaces != [] && AllSpaces(spaces)
    ensures var s := "[" + key + "::" + spaces + "]" + rest;
      && FieldPrefix(s).Some? && FieldPrefix(s).value.key == key && Trim(FieldPrefix(s).value.value) == []
  {
    var s := "[" + key + "::" + spaces + "]" + rest;
    var w := |key| + 1;
    var q := w + 2 + |spaces|;
    assert forall t :: 1 <= t < w ==> s[t] == key[t - 1];
    assert forall t :: w + 2 <= t < q ==> s[t] == spaces[t - w - 2];
    assert s[w] == ':' && s[w + 1] == ':' && s[q] == ']';
    assert FieldParse(s, w, q - 1, q);
    FieldReading(s, w, q - 1, q);
    assert s[1..w] == key;
    var m := FieldPrefix(s).value;
    assert AllSpaces(m.value) by {
      forall t | 0 <= t < |m.value| ensures IsSpace(m.value[t]) { assert m.value[t] == s[q - |m.value| + t]; }
    }
  }

  /** `[key::]` with nothing before the `]` is no field at all: the value needs a character. */
  lemma EmptyFieldIsNoMatch(key: string, rest: string)
    requires forall t :: 0 <= t < |key| ==> IsWordChar(key[t])
    ensures FieldPrefix("[" + key + "::]" + rest).None?
  {
    var s := "[" + key + "::]" + rest;
    var w := |key| + 1;
    assert forall t :: 1 <= t < w ==> s[t] == key[t - 1];
    assert s[w] == ':' && s[w + 1] == ':' && s[w + 2] == ']';
    WordFromExact(s, 1, w);
    IndexOfExact(s, ']', w + 2, w + 2);
  }

  /**
    The matches `replace` finds with the global flag, scanning left to right: a match at the
    current position is taken and the scan goes on after it; otherwise the scan moves one character.
  */
  function Fields(s: string): seq<FieldMatch>
    decreases |s|
  {
    if s == [] then []
    else match FieldPrefix(s)
      case Some(f) => [f] + Fields(s[f.length..])
      case None => Fields(s[1..])
  }

  /** `s.replace(pattern, '')`: the text with every match of `Fields(s)` cut out. */
  function Strip(s: string): string
    decreases |s|
  {
    if s == [] then []
    else match FieldPrefix(s)
      case Some(f) => Strip(s[f.length..])
      case None => [s[0]] + Strip(s[1..])
  }

  /** Total length of the matched texts. */
  function MatchedLength(fs: seq<FieldMatch>): nat
  {
    if fs == [] then 0 else fs[0].length + MatchedLength(fs[1..])
  }

  /** Cutting out the matches removes exactly their length. */
  lemma {:induction false} StripLength(s: string)
    ensures |Strip(s)| + MatchedLength(Fields(s)) == |s|
    decreases |s|
  {
    if s != [] {
      match FieldPrefix(s)
      case Some(f) =>
        StripLength(s[f.length..]);
      case None =>
        StripLength(s[1..]);
    }
  }

  /** Text without a `[` holds no match and is kept whole, whatever follows it. */
  lemma {:induction false} StripPlainPrefix(x: string, y: string)
    requires '[' !in x
    ensures Fields(x + y) == Fields(y) && Strip(x + y) == x + Strip(y)
    decreases |x|
  {
    if x != [] {
      var s := x + y;
      assert s[0] == x[0] && x[0] in x;
      assert FieldPrefix(s).None?;
      assert s[1..] == x[1..] + y;
      StripPlainPrefix(x[1..], y);
      assert [x[0]] + (x[1..] + Strip(y)) == x + Strip(y);
    } else {
      assert x + y == y;
    }
  }

  /** The match that starts at position `p` of `s`, if any. */
  function FieldAt(s: string, p: nat): Option<FieldMatch>
    requires p <= |s|
  {
    FieldPrefix(s[p..])
  }

  /**
    `exec` with the global flag: the leftmost match that starts at or after `from`, as its start
    position and the match.
  */
  function Exec(s: string, from: nat): (r: Option<(nat, FieldMatch)>)
    requires from <= |s|
    ensures r.Some? ==> from <= r.value.0 && r.value.0 + r.value.1.length <= |s|
    ensures r.Some? ==> FieldAt(s, r.value.0) == Some(r.value.1)
    ensures r.Some? ==> forall p :: from <= p < r.value.0 ==> FieldAt(s, p).None?
    ensures r.None? ==> forall p :: from <= p <= |s| ==> FieldAt(s, p).None?
    decreases |s| - from
  {
    match FieldAt(s, from)
    case Some(f) => Some((from, f))
    case None => if from == |s| then None else Exec(s, from + 1)
  }

  /** Positions without a match are skipped by the scan and kept by `replace`. */
  lemma {:induction false} ScanSkips(s: string, a: nat, b: nat)
    requires a <= b <= |s|
    requires forall p :: a <= p < b ==> FieldAt(s, p).None?
    ensures Fields(s[a..]) == Fields(s[b..])
    ensures Strip(s[a..]) == s[a..b] + Strip(s[b..])
    decreases b - a
  {
    if a < b {
      ScanSkipsOne(s, a);
      ScanSkips(s, a + 1, b);
      var x, y, z := [s[a]], s[a + 1..b], Strip(s[b..]);
      assert s[a..b] == x + y;
      ConcatAssoc(x, y, z);
    } else {
      assert s[a..b] + Strip(s[b..]) == Strip(s[b..]);
    }
  }

  lemma ScanSkipsOne(s: string, a: nat)
    requires a < |s| && FieldAt(s, a).None?
    ensures Fields(s[a..]) == Fields(s[a + 1..])
    ensures Strip(s[a..]) == [s[a]] + Strip(s[a + 1..])
  {
    var t := s[a..];
    assert FieldPrefix(t).None?;
    assert t[1..] == s[a + 1..];
  }

  /** When `exec` finds no more matches, the scan has none left and `replace` keeps the rest. */
  lemma ExecNoneIsScanEnd(s: string, from: nat)
    requires from <= |s| && Exec(s, from).None?
    ensures Fields(s[from..]) == [] && Strip(s[from..]) == s[from..]
  {
    ScanSkips(s, from, |s|);
    assert s[|s|..] == [];
    assert s[from..|s|] == s[from..];
  }

  /** The next match `exec` returns from any position is the scan's next match from there. */
  lemma ExecSomeIsScanNext(s: string, from: nat, p: nat, f: FieldMatch)
    requires from <= |s| && Exec(s, from) == Some((p, f))
    ensures p + f.length <= |s|
    ensures Fields(s[from..]) == [f] + Fields(s[p + f.length..])
    ensures Strip(s[from..]) == s[from..p] + Strip(s[p + f.length..])
  {
    ScanSkips(s, from, p);
    ScanTakes(s, p, f);
  }

  /** A match at position `p` is the scan's next match from `p`. */
  lemma ScanTakes(s: string, p: nat, f: FieldMatch)
    requires p <= |s| && FieldAt(s, p) == Some(f)
    ensures p + f.length <= |s|
    ensures Fields(s[p..]) == [f] + Fields(s[p + f.length..])
    ensures Strip(s[p..]) == Strip(s[p + f.length..])
  {
    var t := s[p..];
    assert FieldPrefix(t) == Some(f);
    assert t[f.length..] == s[p + f.length..];
  }

  // ---------------------------------------------------------------------------------------------
  // Field values: start, completion and version
  // ---------------------------------------------------------------------------------------------

  /** The three fields `parseTaskLine` keeps. */
  datatype Meta = Meta(start: Option<string>, completion: Option<string>, version: Option<string>)

  const NoMeta := Meta(None, None, None)

  /** One pass of the `exec` loop: the key, lower-cased, picks the field; its value is trimmed. */
  function ApplyField(m: Meta, f: FieldMatch): Meta
  {
    var name := LowerAscii(f.key);
    if name == "start" then m.(start := Some(Trim(f.value)))
    else if name == "completion" then m.(completion := Some(Trim(f.value)))
    else if name == "version" then m.(version := Some(Trim(f.value)))
    else m
  }

  /** The whole `exec` loop over the matches, first to last. */
  function ApplyFields(m: Meta, fs: seq<FieldMatch>): Meta
    decreases |fs|
  {
    if fs == [] then m else ApplyFields(ApplyField(m, fs[0]), fs[1..])
  }

  /** Reference reading: the trimmed value of the last match whose key is `name`, ignoring case. */
  function LastValue(fs: seq<FieldMatch>, name: string): Option<string>
  {
    if fs == [] then None
    else if LowerAscii(fs[|fs| - 1].key) == name then Some(Trim(fs[|fs| - 1].value))
    else LastValue(fs[..|fs| - 1], name)
  }

  lemma ApplyFieldsCons(m: Meta, f: FieldMatch, fs: seq<FieldMatch>)
    ensures ApplyFields(m, [f] + fs) == ApplyFields(ApplyField(m, f), fs)
  {
    assert ([f] + fs)[1..] == fs;
  }

  /** Applying, to `m`, every match the scan finds in `s` from position `from` on gives `target`. */
  predicate FoldsFrom(s: string, from: nat, m: Meta, target: Meta)
  {
    from <= |s| && ApplyFields(m, Fields(s[from..])) == target
  }

  /**
    One pass of the `exec` loop: the fold from `from` on equals the fold, from just after the match
    `exec` finds, of `m` updated by that match.
  */
  lemma ExecStep(s: string, from: nat, p: nat, f: FieldMatch, next: nat, m: Meta, updated: Meta, target: Meta)
    requires FoldsFrom(s, from, m, target) && Exec(s, from) == Some((p, f))
    requires next == p + f.length && updated == ApplyField(m, f)
    ensures from < next
    ensures FoldsFrom(s, next, updated, target)
  {
    ExecSomeIsScanNext(s, from, p, f);
    assert FieldPrefix(s[p..]) == Some(f);
    ApplyFieldsCons(m, f, Fields(s[p + f.length..]));
  }

  /** One more match applies after all the earlier ones. */
  lemma {:induction false} ApplyFieldsSnoc(m: Meta, fs: seq<FieldMatch>, f: FieldMatch)
    ensures ApplyFields(m, fs + [f]) == ApplyField(ApplyFields(m, fs), f)
    decreases |fs|
  {
    if fs != [] {
      assert (fs + [f])[1..] == fs[1..] + [f];
      ApplyFieldsSnoc(ApplyField(m, fs[0]), fs[1..], f);
    }
  }

  /**
    Later matches overwrite earlier ones: each kept field ends up with the value of its last
    occurrence, and a field that never occurs keeps what it had.
  */
  lemma {:induction false} ApplyFieldsIsLastValue(m: Meta, fs: seq<FieldMatch>)
    ensures ApplyFields(m, fs).start == (if LastValue(fs, "start").Some? then LastValue(fs, "start") else m.start)
    ensures ApplyFields(m, fs).completion ==
      (if LastValue(fs, "completion").Some? then LastValue(fs, "completion") else m.completion)
    ensures ApplyFields(m, fs).version ==
      (if LastValue(fs, "version").Some? then LastValue(fs, "version") else m.version)
    decreases |fs|
  {
    if fs != [] {
      var init := fs[..|fs| - 1];
      var f := fs[|fs| - 1];
      assert fs == init + [f];
      ApplyFieldsSnoc(m, init, f);
      ApplyFieldsIsLastValue(m, init);
    }
  }

  /**
    Keys are compared without regard to case: two match lists that differ only in the ASCII letter
    case of their keys store the same fields.
  */
  lemma {:induction false} ApplyFieldsIgnoresKeyCase(m: Meta, fs: seq<FieldMatch>, gs: seq<FieldMatch>)
    requires |fs| == |gs|
    requires forall i :: 0 <= i < |fs| ==> fs[i].value == gs[i].value && |fs[i].key| == |gs[i].key|
    requires forall i, j :: 0 <= i < |fs| && 0 <= j < |fs[i].key| ==> SameIgnoringCase(fs[i].key[j], gs[i].key[j])
    ensures ApplyFields(m, fs) == ApplyFields(m, gs)
    decreases |fs|
  {
    if fs != [] {
      LowerAsciiEqual(fs[0].key, gs[0].key);
      assert ApplyField(m, fs[0]) == ApplyField(m, gs[0]);
      ApplyFieldsIgnoresKeyCase(ApplyField(m, fs[0]), fs[1..], gs[1..]);
    }
  }
}
