/**
  JavaScript string behaviour that the roadmap parser and the migration script rely on:
  the character classes `\s`, `\w` and the line terminators that `.` refuses, `String.prototype.trim`,
  `split` on one character, `Array.prototype.join`, `indexOf` and `Array.prototype.filter`.
  Strings are sequences of Unicode scalar values; JavaScript counts UTF-16 code units instead,
  which agrees on every character these operations look at (all JavaScript whitespace is in the BMP).
*/
module JsText {

  /** `undefined` or a value: the optional fields of the source's records. */
  datatype Option<T> = None | Some(value: T)

  /** The class `\s`, which is also exactly what `trim` removes (WhiteSpace and LineTerminator). */
  predicate IsSpace(c: char)
  {
    || c == '\t' || c == '\n' || c == '\U{000B}' || c == '\U{000C}' || c == '\r' || c == ' '
    || c == '\U{00A0}' || c == '\U{1680}' || ('\U{2000}' <= c <= '\U{200A}')
    || c == '\U{2028}' || c == '\U{2029}' || c == '\U{202F}' || c == '\U{205F}'
    || c == '\U{3000}' || c == '\U{FEFF}'
  }

  /** The characters that `.` does not match. */
  predicate IsLineTerminator(c: char)
  {
    c == '\n' || c == '\r' || c == '\U{2028}' || c == '\U{2029}'
  }

  /** The class `\w`. */
  predicate IsWordChar(c: char)
  {
    ('a' <= c <= 'z') || ('A' <= c <= 'Z') || ('0' <= c <= '9') || c == '_'
  }

  /** Every character of `s` from `a` up to `b` is a `\s` character. */
  predicate SpacesBetween(s: string, a: int, b: int)
  {
    forall t :: a <= t < b && 0 <= t < |s| ==> IsSpace(s[t])
  }

  predicate AllSpaces(s: string)
  {
    SpacesBetween(s, 0, |s|)
  }

  /** No character of `s` from `a` on is a line terminator. */
  predicate NoLineTerminatorFrom(s: string, a: int)
  {
    forall t :: a <= t < |s| && 0 <= t ==> !IsLineTerminator(s[t])
  }

  predicate NoLineTerminator(s: string)
  {
    NoLineTerminatorFrom(s, 0)
  }

  /** Neither end of `s` is a `\s` character: what `trim` leaves behind. */
  predicate Trimmed(s: string)
  {
    s != [] ==> !IsSpace(s[0]) && !IsSpace(s[|s| - 1])
  }

  /** End of the longest run of `\s` characters that starts at `a` (what a greedy `\s*` consumes). */
  function SpacesFrom(s: string, a: nat): (e: nat)
    requires a <= |s|
    ensures a <= e <= |s|
    ensures SpacesBetween(s, a, e)
    ensures e < |s| ==> !IsSpace(s[e])
    decreases |s| - a
  {
    if a == |s| || !IsSpace(s[a]) then a else SpacesFrom(s, a + 1)
  }

  /** A run of spaces that stops at a non-space is the greedy run. */
  lemma SpacesFromExact(s: string, a: nat, b: nat)
    requires a <= b < |s| && !IsSpace(s[b]) && SpacesBetween(s, a, b)
    ensures SpacesFrom(s, a) == b
    decreases b - a
  {
    if a < b {
      SpacesFromExact(s, a + 1, b);
    }
  }

  /** The greedy run covers every run of spaces that starts at the same place. */
  lemma SpacesFromAtLeast(s: string, a: nat, b: nat)
    requires a <= b <= |s| && SpacesBetween(s, a, b)
    ensures SpacesFrom(s, a) >= b
    decreases b - a
  {
    if a < b {
      SpacesFromAtLeast(s, a + 1, b);
    }
  }

  /** Length of the leading `\s` run of `s` (what `^(\s*)` captures). */
  function LeadingSpaces(s: string): (n: nat)
    ensures n <= |s| && SpacesBetween(s, 0, n)
    ensures n < |s| ==> !IsSpace(s[n])
  {
    SpacesFrom(s, 0)
  }

  /** Start of the longest run of `\s` characters that ends just before `b`. */
  function SpacesBefore(s: string, b: nat): (a: nat)
    requires b <= |s|
    ensures a <= b
    ensures SpacesBetween(s, a, b)
    ensures 0 < a ==> !IsSpace(s[a - 1])
  {
    if b == 0 || !IsSpace(s[b - 1]) then b else SpacesBefore(s, b - 1)
  }

  lemma SpacesBeforeExact(s: string, a: nat, b: nat)
    requires 0 < a <= b <= |s| && !IsSpace(s[a - 1]) && SpacesBetween(s, a, b)
    ensures SpacesBefore(s, b) == a
    decreases b - a
  {
    if a < b {
      SpacesBeforeExact(s, a, b - 1);
    }
  }

  /** `s.trim()`: `s` without its leading and trailing `\s` characters. */
  function Trim(s: string): (r: string)
    ensures Trimmed(r)
    ensures AllSpaces(s) <==> r == []
    ensures LeadingSpaces(s) < |s| ==>
      LeadingSpaces(s) < SpacesBefore(s, |s|) && r == s[LeadingSpaces(s)..SpacesBefore(s, |s|)]
  {
    var l := LeadingSpaces(s);
    if l == |s| then []
    else
      assert SpacesBefore(s, |s|) > l by { SpacesBeforeStops(s, l, |s|); }
      s[l..SpacesBefore(s, |s|)]
  }

  /** A backward run of spaces stops after any non-space it meets. */
  lemma SpacesBeforeStops(s: string, l: nat, b: nat)
    requires l < b <= |s| && !IsSpace(s[l])
    ensures SpacesBefore(s, b) > l
  {
    if b - 1 > l && IsSpace(s[b - 1]) {
      SpacesBeforeStops(s, l, b - 1);
    }
  }

  /** The trimmed text is determined by any split into spaces, a trimmed middle and spaces. */
  lemma TrimPadded(a: string, m: string, b: string)
    requires AllSpaces(a) && AllSpaces(b) && Trimmed(m)
    ensures Trim(a + m + b) == m
  {
    var s := a + m + b;
    if m == [] {
      assert AllSpaces(s) by {
        forall t | 0 <= t < |s| ensures IsSpace(s[t]) {
          if t < |a| { assert s[t] == a[t]; } else { assert s[t] == b[t - |a|]; }
        }
      }
    } else {
      assert s[|a|] == m[0];
      assert SpacesBetween(s, 0, |a|) by {
        forall t | 0 <= t < |a| ensures IsSpace(s[t]) { assert s[t] == a[t]; }
      }
      SpacesFromExact(s, 0, |a|);
      assert s[|s| - |b| - 1] == m[|m| - 1];
      assert SpacesBetween(s, |s| - |b|, |s|) by {
        forall t | |s| - |b| <= t < |s| ensures IsSpace(s[t]) { assert s[t] == b[t - |s| + |b|]; }
      }
      SpacesBeforeExact(s, |s| - |b|, |s|);
      assert s[|a|..|s| - |b|] == m;
    }
  }

  /** Every text is its trimmed part with spaces around it. */
  lemma TrimDecompose(s: string) returns (a: string, b: string)
    ensures AllSpaces(a) && AllSpaces(b) && s == a + Trim(s) + b
  {
    var l := LeadingSpaces(s);
    if l == |s| {
      a, b := s, [];
      assert s == a + [] + b;
    } else {
      var r := SpacesBefore(s, |s|);
      a, b := s[..l], s[r..];
      assert s == a + s[l..r] + b;
    }
  }

  lemma AllSpacesConcat(a: string, b: string)
    requires AllSpaces(a) && AllSpaces(b)
    ensures AllSpaces(a + b)
  {
    forall t | 0 <= t < |a + b| ensures IsSpace((a + b)[t]) {
      if t < |a| { assert (a + b)[t] == a[t]; } else { assert (a + b)[t] == b[t - |a|]; }
    }
  }

  /** Spaces added around a text do not change its trimmed part. */
  lemma TrimIgnoresPadding(a: string, s: string, b: string)
    requires AllSpaces(a) && AllSpaces(b)
    ensures Trim(a + s + b) == Trim(s)
  {
    var l, r := TrimDecompose(s);
    var m := Trim(s);
    calc {
      a + s + b;
      a + (l + m + r) + b;
      { assert a + (l + m + r) == (a + l) + m + r; }
      (a + l) + m + r + b;
      { assert (a + l) + m + r + b == (a + l) + m + (r + b); }
      (a + l) + m + (r + b);
    }
    AllSpacesConcat(a, l);
    AllSpacesConcat(r, b);
    TrimPadded(a + l, Trim(s), r + b);
  }

  lemma TrimOfTrimmed(s: string)
    requires Trimmed(s)
    ensures Trim(s) == s
  {
    TrimPadded([], s, []);
    assert [] + s + [] == s;
  }

  /** End of the longest run of `\w` characters that starts at `a`. */
  function WordFrom(s: string, a: nat): (e: nat)
    requires a <= |s|
    ensures a <= e <= |s|
    ensures forall t :: a <= t < e ==> IsWordChar(s[t])
    ensures e < |s| ==> !IsWordChar(s[e])
    decreases |s| - a
  {
    if a == |s| || !IsWordChar(s[a]) then a else WordFrom(s, a + 1)
  }

  lemma WordFromExact(s: string, a: nat, b: nat)
    requires a <= b <= |s|
    requires b < |s| ==> !IsWordChar(s[b])
    requires forall t :: a <= t < b ==> IsWordChar(s[t])
    ensures WordFrom(s, a) == b
    decreases b - a
  {
    if a < b {
      WordFromExact(s, a + 1, b);
    }
  }

  /** Index of the first `c` in `s` at or after `from`, or `|s|` when there is none. */
  function IndexOf(s: string, c: char, from: nat): (k: nat)
    requires from <= |s|
    ensures from <= k <= |s|
    ensures k < |s| ==> s[k] == c
    ensures forall j :: from <= j < k ==> s[j] != c
    decreases |s| - from
  {
    if from == |s| || s[from] == c then from else IndexOf(s, c, from + 1)
  }

  lemma IndexOfExact(s: string, c: char, from: nat, k: nat)
    requires from <= k <= |s|
    requires k < |s| ==> s[k] == c
    requires forall j :: from <= j < k ==> s[j] != c
    ensures IndexOf(s, c, from) == k
    decreases |s| - from
  {
    if from < k {
      IndexOfExact(s, c, from + 1, k);
    }
  }

  /** `s.split(sep)` for a one-character separator. */
  function Split(s: string, sep: char): (parts: seq<string>)
    ensures |parts| >= 1
    ensures forall i :: 0 <= i < |parts| ==> sep !in parts[i]
    decreases |s|
  {
    var k := IndexOf(s, sep, 0);
    if k == |s| then [s] else [s[..k]] + Split(s[k + 1..], sep)
  }

  /** `parts.join(sep)`. */
  function Join(parts: seq<string>, sep: string): string
  {
    if parts == [] then "" else if |parts| == 1 then parts[0] else parts[0] + sep + Join(parts[1..], sep)
  }

  /** Splitting undoes joining with the separator, for parts free of the separator. */
  lemma {:induction false} SplitJoin(parts: seq<string>, sep: char)
    requires |parts| >= 1
    requires forall i :: 0 <= i < |parts| ==> sep !in parts[i]
    ensures Split(Join(parts, [sep]), sep) == parts
  {
    var s := Join(parts, [sep]);
    var p := parts[0];
    if |parts| == 1 {
      assert s == p;
      IndexOfExact(s, sep, 0, |s|);
    } else {
      var rest := Join(parts[1..], [sep]);
      assert s == p + [sep] + rest;
      assert forall j :: 0 <= j < |p| ==> s[j] == p[j];
      IndexOfExact(s, sep, 0, |p|);
      assert s[..|p|] == p;
      assert s[|p| + 1..] == rest;
      SplitJoin(parts[1..], sep);
    }
  }

  /** Joining undoes splitting. */
  lemma {:induction false} JoinSplit(s: string, sep: char)
    ensures Join(Split(s, sep), [sep]) == s
    decreases |s|
  {
    var k := IndexOf(s, sep, 0);
    if k < |s| {
      JoinSplit(s[k + 1..], sep);
      assert s == s[..k] + [sep] + s[k + 1..];
    }
  }

  /** Splitting distributes over a separator placed between two texts. */
  lemma {:induction false} SplitAround(a: string, sep: char, b: string)
    ensures Split(a + [sep] + b, sep) == Split(a, sep) + Split(b, sep)
    decreases |a|
  {
    var k := IndexOf(a, sep, 0);
    if k == |a| {
      SplitAroundLast(a, sep, b);
    } else {
      SplitAroundFirst(a, sep, b, k);
      SplitAround(a[k + 1..], sep, b);
    }
  }

  /** When `a` holds no separator, the one placed after it ends the first part, which is `a`. */
  lemma SplitAroundLast(a: string, sep: char, b: string)
    requires IndexOf(a, sep, 0) == |a|
    ensures Split(a, sep) == [a]
    ensures Split(a + [sep] + b, sep) == [a] + Split(b, sep)
  {
    var s := a + [sep] + b;
    assert forall j :: 0 <= j < |a| ==> s[j] == a[j];
    SplitAt(s, sep, |a|);
    assert s[..|a|] == a;
    assert s[|a| + 1..] == b;
  }

  /** When `a` holds a first separator at `k`, the same first part is cut from `a + [sep] + b`. */
  lemma SplitAroundFirst(a: string, sep: char, b: string, k: nat)
    requires k < |a| && IndexOf(a, sep, 0) == k
    ensures Split(a, sep) == [a[..k]] + Split(a[k + 1..], sep)
    ensures Split(a + [sep] + b, sep) == [a[..k]] + Split(a[k + 1..] + [sep] + b, sep)
  {
    var s := a + [sep] + b;
    assert forall j :: 0 <= j < |a| ==> s[j] == a[j];
    SplitAt(s, sep, k);
    assert s[..k] == a[..k];
    assert s[k + 1..] == a[k + 1..] + [sep] + b;
  }

  /** The first separator, at `k`, ends the first part. */
  lemma SplitAt(s: string, sep: char, k: nat)
    requires k < |s| && s[k] == sep && forall j :: 0 <= j < k ==> s[j] != sep
    ensures Split(s, sep) == [s[..k]] + Split(s[k + 1..], sep)
  {
    IndexOfExact(s, sep, 0, k);
  }

  lemma ConcatAssoc<T>(x: seq<T>, y: seq<T>, z: seq<T>)
    ensures x + (y + z) == (x + y) + z
  {
  }

  /** `s.filter(f)`. */
  function Filter<T>(s: seq<T>, f: T -> bool): (r: seq<T>)
    ensures |r| <= |s|
    ensures forall x :: x in r ==> x in s && f(x)
    ensures forall x :: x in s && f(x) ==> x in r
  {
    if s == [] then [] else (if f(s[0]) then [s[0]] else []) + Filter(s[1..], f)
  }

  lemma {:induction false} FilterConcat<T>(a: seq<T>, b: seq<T>, f: T -> bool)
    ensures Filter(a + b, f) == Filter(a, f) + Filter(b, f)
  {
    if a == [] {
      assert a + b == b;
    } else {
      assert (a + b)[1..] == a[1..] + b;
      FilterConcat(a[1..], b, f);
    }
  }

  /** Lower-cases the ASCII letters of `s` (all `toLowerCase` changes in a `\w+` text). */
  function LowerAscii(s: string): (r: string)
    ensures |r| == |s|
  {
    seq(|s|, i requires 0 <= i < |s| => if 'A' <= s[i] <= 'Z' then s[i] - 'A' + 'a' else s[i])
  }

  /**
    The lower-cased text spells `s` up to letter case and holds no capital letter; these two facts
    fix it character by character.
  */
  lemma LowerAsciiChars(s: string)
    ensures forall i :: 0 <= i < |s| ==> SameIgnoringCase(LowerAscii(s)[i], s[i]) && !('A' <= LowerAscii(s)[i] <= 'Z')
    ensures forall r: string ::
      (|r| == |s| && forall i :: 0 <= i < |s| ==> SameIgnoringCase(r[i], s[i]) && !('A' <= r[i] <= 'Z')) ==> r == LowerAscii(s)
  {
    forall r: string | |r| == |s| && (forall i :: 0 <= i < |s| ==> SameIgnoringCase(r[i], s[i]) && !('A' <= r[i] <= 'Z'))
      ensures r == LowerAscii(s)
    {
      forall i | 0 <= i < |s| ensures r[i] == LowerAscii(s)[i] {
        assert SameIgnoringCase(r[i], s[i]);
      }
    }
  }

  /** Two characters that differ at most in ASCII letter case. */
  predicate SameIgnoringCase(a: char, b: char)
  {
    || a == b
    || ('a' <= a <= 'z' && b as int == a as int - 32)
    || ('a' <= b <= 'z' && a as int == b as int - 32)
  }

  /** Lower-cased texts are equal exactly when the texts agree letter by letter up to ASCII case. */
  lemma LowerAsciiEqual(a: string, b: string)
    ensures LowerAscii(a) == LowerAscii(b) <==>
      |a| == |b| && forall i :: 0 <= i < |a| ==> SameIgnoringCase(a[i], b[i])
  {
    if |a| == |b| {
      if LowerAscii(a) == LowerAscii(b) {
        forall i | 0 <= i < |a| ensures SameIgnoringCase(a[i], b[i]) {
          assert LowerAscii(a)[i] == LowerAscii(b)[i];
        }
      }
      if forall i :: 0 <= i < |a| ==> SameIgnoringCase(a[i], b[i]) {
        forall i | 0 <= i < |a| ensures LowerAscii(a)[i] == LowerAscii(b)[i] {
          assert SameIgnoringCase(a[i], b[i]);
        }
      }
    }
  }

  /**
    A text lower-cases to a lower-case word `name` exactly when it spells `name` with each letter
    either small or capital.
  */
  lemma LowerAsciiIs(key: string, name: string)
    requires forall i :: 0 <= i < |name| ==> 'a' <= name[i] <= 'z'
    ensures LowerAscii(key) == name <==>
      |key| == |name| && forall i :: 0 <= i < |key| ==> key[i] == name[i] || key[i] as int == name[i] as int - 32
  {
    LowerAsciiEqual(key, name);
    assert LowerAscii(name) == name by {
      forall i | 0 <= i < |name| ensures LowerAscii(name)[i] == name[i] {
        assert 'a' <= name[i] <= 'z';
      }
    }
  }
}
