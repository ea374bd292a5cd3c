/** `ini_parse` of the `Aws::Util` helpers: the text of a credentials or
    profile file becomes a map from section name to a map from key to
    value.

    The text is read line by line. Each line is trimmed; a line that then
    starts with `;` is a comment. Elsewhere a `;` right after whitespace
    starts a trailing comment, which is cut off together with that
    whitespace. A `[name]` line makes `name` the current section; a line
    with `=` stores its trimmed key and value under the current section,
    creating the section on its first pair; every other line is ignored. */
module Ini {

  datatype Option<T> = None | Some(value: T)

  type Section = map<string, string>
  type Document = map<string, Section>

  // ---------------------------------------------------------------------
  // Whitespace and trimming.

  /** The whitespace that Ruby's `strip` and the regular-expression class
      `\s` agree on. */
  predicate IsSpace(c: char) {
    c == ' ' || c == '\t' || c == '\n' || c == '\r' || c == '\U{000B}' || c == '\U{000C}'
  }

  predicate AllSpace(s: string) {
    forall i :: 0 <= i < |s| ==> IsSpace(s[i])
  }

  /** Neither end of s is whitespace. */
  predicate IsTrimmed(s: string) {
    s == [] || (!IsSpace(s[0]) && !IsSpace(s[|s| - 1]))
  }

  /** The first position from i on that is not whitespace. */
  function SkipSpaces(s: string, i: nat): (j: nat)
    requires i <= |s|
    ensures i <= j <= |s|
    ensures forall k :: i <= k < j ==> IsSpace(s[k])
    ensures j < |s| ==> !IsSpace(s[j])
    decreases |s| - i
  {
    if i < |s| && IsSpace(s[i]) then SkipSpaces(s, i + 1) else i
  }

  /** The end of s[..j] once trailing whitespace is dropped. */
  function SkipSpacesBack(s: string, j: nat): (i: nat)
    requires j <= |s|
    ensures i <= j
    ensures forall k :: i <= k < j ==> IsSpace(s[k])
    ensures i > 0 ==> !IsSpace(s[i - 1])
    decreases j
  {
    if j > 0 && IsSpace(s[j - 1]) then SkipSpacesBack(s, j - 1) else j
  }

  function TrimEnd(s: string): (r: string)
    ensures |r| <= |s| && r == s[..|r|]
    ensures AllSpace(s[|r|..])
    ensures r == [] || !IsSpace(r[|r| - 1])
  {
    s[..SkipSpacesBack(s, |s|)]
  }

  /** Ruby's `strip`: leading and trailing whitespace removed. */
  function Trim(s: string): (r: string)
    ensures IsTrimmed(r)
    ensures |r| <= |s|
    ensures r == [] <==> AllSpace(s)
  {
    var i := SkipSpaces(s, 0);
    var j := SkipSpacesBack(s, |s|);
    if i < j then s[i..j] else []
  }

  /** Trimming takes off exactly the whitespace padding of a trimmed string. */
  lemma TrimPadded(p: string, m: string, q: string)
    requires AllSpace(p) && AllSpace(q) && IsTrimmed(m)
    ensures Trim(p + m + q) == m
  {
    var s := p + m + q;
    if m == [] {
      assert AllSpace(s) by {
        forall k | 0 <= k < |s|
          ensures IsSpace(s[k])
        {
          if k < |p| {
            assert s[k] == p[k];
          } else {
            assert s[k] == q[k - |p|];
          }
        }
      }
    } else {
      assert s[|p|] == m[0];
      assert s[|p| + |m| - 1] == m[|m| - 1];
      assert SkipSpaces(s, 0) == |p| by {
        assert forall k :: 0 <= k < |p| ==> s[k] == p[k];
      }
      assert SkipSpacesBack(s, |s|) == |p| + |m| by {
        assert forall k :: |p| + |m| <= k < |s| ==> s[k] == q[k - |p| - |m|];
      }
      assert s[|p|..|p| + |m|] == m;
    }
  }

  /** When the leading and the trailing whitespace meet, s is all space. */
  lemma SpacesMeet(s: string)
    requires SkipSpacesBack(s, |s|) <= SkipSpaces(s, 0)
    ensures AllSpace(s)
  {
    var i := SkipSpaces(s, 0);
    var j := SkipSpacesBack(s, |s|);
    forall k | 0 <= k < |s|
      ensures IsSpace(s[k])
    {
      assert k < i || j <= k;
    }
  }

  /** Every string is its trimmed core padded with whitespace. */
  lemma TrimSplits(s: string) returns (p: string, q: string)
    ensures AllSpace(p) && AllSpace(q)
    ensures s == p + Trim(s) + q
  {
    var i := SkipSpaces(s, 0);
    var j := SkipSpacesBack(s, |s|);
    if i < j {
      p, q := s[..i], s[j..];
      assert forall k :: 0 <= k < |p| ==> p[k] == s[k];
      assert forall k :: 0 <= k < |q| ==> q[k] == s[j + k];
      assert p + s[i..j] == s[..j];
      assert s[..j] + q == s;
    } else {
      SpacesMeet(s);
      p, q := s, [];
      assert Trim(s) == [];
    }
  }

  // ---------------------------------------------------------------------
  // Comments.

  /** A comment starts at i: a `;` right after whitespace. */
  predicate CommentAt(s: string, i: nat) {
    0 < i < |s| && s[i] == ';' && IsSpace(s[i - 1])
  }

  predicate NoComment(s: string) {
    forall i :: 0 <= i < |s| ==> !CommentAt(s, i)
  }

  /** The first comment start from i on. */
  function FindComment(s: string, i: nat): (r: Option<nat>)
    requires i <= |s|
    ensures r.Some? ==> i <= r.value < |s| && CommentAt(s, r.value)
    ensures r.Some? ==> forall j :: i <= j < r.value ==> !CommentAt(s, j)
    ensures r.None? ==> forall j :: i <= j < |s| ==> !CommentAt(s, j)
    decreases |s| - i
  {
    if i == |s| then None
    else if CommentAt(s, i) then Some(i)
    else FindComment(s, i + 1)
  }

  /** The line before its first comment, with the whitespace in front of
      the comment and any other trailing whitespace dropped; a line with
      no comment is kept as it is. */
  function StripComment(t: string): (r: string)
    ensures |r| <= |t| && r == t[..|r|]
    ensures NoComment(r)
    ensures NoComment(t) ==> r == t
    ensures IsTrimmed(t) ==> IsTrimmed(r)
  {
    match FindComment(t, 0)
    case None => t
    case Some(i) =>
      var r := TrimEnd(t[..i - 1]);
      assert forall j :: 0 <= j < |r| ==> r[j] == t[j];
      forall j | 0 <= j < |r|
        ensures !CommentAt(r, j)
      {
        assert !CommentAt(t, j);
      }
      r
  }

  // ---------------------------------------------------------------------
  // Lines.

  /** The lines written one after the other, separated by newlines. */
  function JoinLines(ls: seq<string>): string
    requires |ls| > 0
  {
    if |ls| == 1 then ls[0] else ls[0] + "\n" + JoinLines(ls[1..])
  }

  /** The text cut at its newlines: the lines hold no newline, and joining
      them gives back the text. */
  function Lines(text: string): (ls: seq<string>)
    ensures |ls| > 0
    ensures forall i :: 0 <= i < |ls| ==> '\n' !in ls[i]
    ensures JoinLines(ls) == text
    decreases |text|
  {
    match FindChar(text, '\n', 0)
    case None => [text]
    case Some(i) =>
      var first := text[..i];
      assert '\n' !in first by {
        assert forall j :: 0 <= j < i ==> first[j] == text[j];
      }
      var ls := [first] + Lines(text[i + 1..]);
      assert ls[1..] == Lines(text[i + 1..]);
      assert text == first + "\n" + text[i + 1..];
      ls
  }

  /** Cutting joined lines at their newlines gives back the lines. */
  lemma {:induction false} LinesOfJoin(ls: seq<string>)
    requires |ls| > 0
    requires forall i :: 0 <= i < |ls| ==> '\n' !in ls[i]
    ensures Lines(JoinLines(ls)) == ls
    decreases |ls|
  {
    var text := JoinLines(ls);
    if |ls| == 1 {
      assert forall j :: 0 <= j < |text| ==> text[j] != '\n';
    } else {
      var first, rest := ls[0], JoinLines(ls[1..]);
      assert text == first + "\n" + rest;
      assert FindChar(text, '\n', 0) == Some(|first|) by {
        assert '\n' !in first;
        assert text[|first|] == '\n';
        assert forall j :: 0 <= j < |first| ==> text[j] == first[j];
      }
      assert text[..|first|] == first;
      assert text[|first| + 1..] == rest;
      LinesOfJoin(ls[1..]);
      assert [first] + ls[1..] == ls;
    }
  }

  lemma LinesSingle(l: string)
    requires '\n' !in l
    ensures Lines(l) == [l]
  {
    assert forall j :: 0 <= j < |l| ==> l[j] != '\n';
  }

  lemma LinesAppendLast(t: string, l: string)
    requires FindChar(t, '\n', 0).None? && '\n' !in l
    ensures Lines(t + "\n" + l) == Lines(t) + [l]
  {
    assert '\n' !in t by {
      assert forall j :: 0 <= j < |t| ==> t[j] != '\n';
    }
    LinesSingle(t);
    var s := t + "\n" + l;
    assert FindChar(s, '\n', 0) == Some(|t|) by {
      assert forall j :: 0 <= j < |t| ==> s[j] == t[j];
      assert s[|t|] == '\n';
    }
    assert s[..|t|] == t && s[|t| + 1..] == l;
    LinesSingle(l);
  }

  lemma LinesAppendFirst(t: string, i: nat, l: string)
    requires FindChar(t, '\n', 0) == Some(i)
    ensures Lines(t + "\n" + l) == [t[..i]] + Lines(t[i + 1..] + "\n" + l)
  {
    var s := t + "\n" + l;
    assert forall j :: 0 <= j <= i ==> s[j] == t[j];
    assert FindChar(s, '\n', 0) == Some(i);
    assert s[..i] == t[..i];
    assert s[i + 1..] == t[i + 1..] + "\n" + l;
  }

  /** One more line of text is one more line. */
  lemma {:induction false} LinesAppend(t: string, l: string)
    requires '\n' !in l
    ensures Lines(t + "\n" + l) == Lines(t) + [l]
    decreases |t|
  {
    match FindChar(t, '\n', 0)
    case None =>
      LinesAppendLast(t, l);
    case Some(i) =>
      LinesAppendFirst(t, i, l);
      LinesAppend(t[i + 1..], l);
      assert Lines(t) == [t[..i]] + Lines(t[i + 1..]);
  }

  // ---------------------------------------------------------------------
  // What one line says.

  datatype Entry = Header(name: string) | Pair(key: string, value: string) | Ignored

  /** The first position from i on that holds c. */
  function FindChar(s: string, c: char, i: nat): (r: Option<nat>)
    requires i <= |s|
    ensures r.Some? ==> i <= r.value < |s| && s[r.value] == c
    ensures r.Some? ==> forall j :: i <= j < r.value ==> s[j] != c
    ensures r.None? ==> forall j :: i <= j < |s| ==> s[j] != c
    decreases |s| - i
  {
    if i == |s| then None
    else if s[i] == c then Some(i)
    else FindChar(s, c, i + 1)
  }

  /** A section header: a non-empty name in brackets spanning the line. */
  predicate IsHeader(l: string) {
    |l| >= 3 && l[0] == '[' && l[|l| - 1] == ']'
  }

  /** A trimmed line without comment: a header, a pair split at the first
      `=`, or nothing. */
  function EntryOf(l: string): (e: Entry)
    ensures e.Header? ==> e.name != [] && l == "[" + e.name + "]"
    ensures e.Pair? ==> !IsHeader(l) && '=' in l && '=' !in e.key
    ensures e.Pair? ==> IsTrimmed(e.key) && IsTrimmed(e.value)
    ensures e == Ignored <==> !IsHeader(l) && '=' !in l
  {
    if IsHeader(l) then
      assert l == "[" + l[1..|l| - 1] + "]";
      Header(l[1..|l| - 1])
    else
      match FindChar(l, '=', 0)
      case None => Ignored
      case Some(i) =>
        var key := Trim(l[..i]);
        assert '=' !in l[..i] by {
          assert forall j :: 0 <= j < i ==> l[..i][j] == l[j];
        }
        TrimInside(l[..i]);
        Pair(key, Trim(l[i + 1..]))
  }

  /** Trimming only takes characters away. */
  lemma TrimInside(s: string)
    ensures forall c :: c in Trim(s) ==> c in s
  {
    var p, q := TrimSplits(s);
    forall c | c in Trim(s)
      ensures c in s
    {
      var k :| 0 <= k < |Trim(s)| && Trim(s)[k] == c;
      assert s[|p| + k] == c;
    }
  }

  /** `ini_parse` on one line: trimmed, a whole-line comment dropped, a
      trailing comment cut off, then read as a header, a pair or nothing. */
  function Classify(raw: string): (e: Entry)
    ensures AllSpace(raw) ==> e == Ignored
    ensures Trim(raw) != [] && Trim(raw)[0] == ';' ==> e == Ignored
    ensures e.Pair? ==> IsTrimmed(e.key) && IsTrimmed(e.value) && '=' !in e.key
    ensures e.Header? ==> e.name != []
  {
    var t := Trim(raw);
    if |t| > 0 && t[0] == ';' then Ignored
    else EntryOf(StripComment(t))
  }

  // ---------------------------------------------------------------------
  // Shapes of lines and what they are read as.

  lemma SpacesHaveNoComment(g: string)
    requires AllSpace(g)
    ensures NoComment(g) && (g != [] ==> g[0] != ';')
  {
  }

  /** Two comment-free pieces meet without a comment unless the first ends
      in whitespace and the second starts with `;`. */
  lemma NoCommentConcat(a: string, b: string)
    requires NoComment(a) && NoComment(b)
    requires a != [] && b != [] && IsSpace(a[|a| - 1]) ==> b[0] != ';'
    ensures NoComment(a + b)
  {
    var s := a + b;
    forall i | 0 <= i < |s|
      ensures !CommentAt(s, i)
    {
      if i < |a| {
        assert !CommentAt(a, i);
        assert s[i] == a[i] && (i > 0 ==> s[i - 1] == a[i - 1]);
      } else if i > |a| {
        assert !CommentAt(b, i - |a|);
        assert s[i] == b[i - |a|] && s[i - 1] == b[i - |a| - 1];
      } else {
        assert s[i] == b[0];
      }
    }
  }

  /** A trimmed, comment-free line that does not start with `;` is read as
      it stands, whatever whitespace surrounds it. */
  lemma ClassifyBody(indent: string, body: string, pad: string)
    requires AllSpace(indent) && AllSpace(pad)
    requires IsTrimmed(body) && NoComment(body)
    requires body == [] || body[0] != ';'
    ensures Classify(indent + body + pad) == EntryOf(body)
  {
    TrimPadded(indent, body, pad);
  }

  lemma TrimLeft(m: string, q: string)
    requires AllSpace(q) && IsTrimmed(m)
    ensures Trim(m + q) == m
  {
    assert [] + m + q == m + q;
    TrimPadded([], m, q);
  }

  lemma TrimRight(p: string, m: string)
    requires AllSpace(p) && IsTrimmed(m)
    ensures Trim(p + m) == m
  {
    assert p + m + [] == p + m;
    TrimPadded(p, m, []);
  }

  /** A line that is no header is split at its first `=`. */
  lemma SplitAtEquals(left: string, right: string)
    requires '=' !in left && !IsHeader(left + "=" + right)
    ensures EntryOf(left + "=" + right) == Pair(Trim(left), Trim(right))
  {
    var l := left + "=" + right;
    assert FindChar(l, '=', 0) == Some(|left|) by {
      assert forall j :: 0 <= j < |left| ==> l[j] == left[j];
      assert l[|left|] == '=';
    }
    assert l[..|left|] == left;
    assert l[|left| + 1..] == right;
  }

  lemma PairEntry(key: string, gap1: string, gap2: string, value: string)
    requires IsTrimmed(key) && '=' !in key && (key == [] || key[0] != '[')
    requires AllSpace(gap1) && AllSpace(gap2) && IsTrimmed(value)
    ensures EntryOf((key + gap1) + "=" + (gap2 + value)) == Pair(key, value)
  {
    var left := key + gap1;
    var l := left + "=" + (gap2 + value);
    assert !IsHeader(l) by {
      if key != [] {
        assert l[0] == key[0];
      } else if gap1 != [] {
        assert l[0] == gap1[0];
      } else {
        assert l[0] == '=';
      }
    }
    assert '=' !in left by {
      assert forall j :: 0 <= j < |key| ==> left[j] == key[j];
      assert forall j :: |key| <= j < |left| ==> left[j] == gap1[j - |key|];
    }
    SplitAtEquals(left, gap2 + value);
    TrimLeft(key, gap1);
    TrimRight(gap2, value);
  }

  /** The text of `key = value`: the `=` and the whitespace around it. */
  lemma PairBody(key: string, gap1: string, gap2: string, value: string)
    requires AllSpace(gap1) && AllSpace(gap2)
    requires IsTrimmed(key) && NoComment(key) && (key == [] || key[0] != ';')
    requires IsTrimmed(value) && NoComment(value)
    requires gap2 != [] && value != [] ==> value[0] != ';'
    requires key == [] ==> gap1 == []
    requires value == [] ==> gap2 == []
    ensures var body := (key + gap1) + "=" + (gap2 + value);
      IsTrimmed(body) && NoComment(body) && body[0] != ';'
  {
    SpacesHaveNoComment(gap1);
    SpacesHaveNoComment(gap2);
    NoCommentConcat(key, gap1);
    NoCommentConcat(gap2, value);
    NoCommentConcat(key + gap1, "=");
    NoCommentConcat(key + gap1 + "=", gap2 + value);
    var left := key + gap1 + "=";
    var right := gap2 + value;
    var body := left + right;
    assert body[0] == (if key != [] then key[0] else '=');
    if value != [] {
      assert body[|body| - 1] == value[|value| - 1];
    } else {
      assert body[|body| - 1] == '=';
    }
  }

  /** `key = value`, with any whitespace around the key, the `=` and the
      value, is read as that pair: the key and value come back trimmed, and
      a `;` in the value is kept unless whitespace comes before it. */
  lemma PairLine(indent: string, key: string, gap1: string, gap2: string, value: string, pad: string)
    requires AllSpace(indent) && AllSpace(gap1) && AllSpace(gap2) && AllSpace(pad)
    requires IsTrimmed(key) && '=' !in key && NoComment(key)
    requires key == [] || (key[0] != '[' && key[0] != ';')
    requires IsTrimmed(value) && NoComment(value)
    requires gap2 != [] && value != [] ==> value[0] != ';'
    requires key == [] ==> gap1 == []
    requires value == [] ==> gap2 == []
    ensures Classify(indent + ((key + gap1) + "=" + (gap2 + value)) + pad) == Pair(key, value)
  {
    PairBody(key, gap1, gap2, value);
    PairEntry(key, gap1, gap2, value);
    ClassifyBody(indent, (key + gap1) + "=" + (gap2 + value), pad);
  }

  /** `[name]`, with any whitespace around it, makes name the section. */
  lemma HeaderLine(indent: string, name: string, pad: string)
    requires AllSpace(indent) && AllSpace(pad)
    requires name != [] && NoComment(name)
    ensures Classify(indent + ("[" + name + "]") + pad) == Header(name)
  {
    NoCommentConcat("[", name);
    NoCommentConcat("[" + name, "]");
    var body := "[" + name + "]";
    assert body[1..|body| - 1] == name;
    ClassifyBody(indent, body, pad);
  }

  /** A line whose first visible character is `;` is a comment. */
  lemma CommentLine(indent: string, text: string)
    requires AllSpace(indent)
    ensures Classify(indent + ";" + text) == Ignored
  {
    var s := indent + ";" + text;
    var i := SkipSpaces(s, 0);
    assert i == |indent| by {
      assert forall k :: 0 <= k < |indent| ==> s[k] == indent[k];
      assert s[|indent|] == ';';
    }
    assert SkipSpacesBack(s, |s|) > i;
  }

  /** The first comment of a comment-free body followed by whitespace and
      `;` starts at that `;`. */
  lemma CommentAfter(body: string, gap: string, rest: string)
    requires NoComment(body) && AllSpace(gap) && gap != []
    ensures FindComment(body + gap + ";" + rest, 0) == Some(|body| + |gap|)
  {
    var m := body + gap + ";" + rest;
    var k := |body| + |gap|;
    assert forall j :: 0 <= j < |gap| ==> m[|body| + j] == gap[j];
    forall j | 0 <= j < |body|
      ensures !CommentAt(m, j)
    {
      assert !CommentAt(body, j);
      assert m[j] == body[j] && (j > 0 ==> m[j - 1] == body[j - 1]);
    }
    assert m[k] == ';' && m[k - 1] == gap[|gap| - 1];
    assert CommentAt(m, k);
  }

  lemma TrimEndPadded(m: string, q: string)
    requires AllSpace(q) && (m == [] || !IsSpace(m[|m| - 1]))
    ensures TrimEnd(m + q) == m
  {
    var s := m + q;
    assert forall k :: |m| <= k < |s| ==> s[k] == q[k - |m|];
    if m != [] {
      assert s[|m| - 1] == m[|m| - 1];
    }
    assert SkipSpacesBack(s, |s|) == |m|;
    assert s[..|m|] == m;
  }

  /** Stripping a trailing comment leaves the body before it. */
  lemma StripTrailing(body: string, gap: string, rest: string)
    requires AllSpace(gap) && gap != []
    requires IsTrimmed(body) && NoComment(body)
    ensures StripComment(body + gap + ";" + rest) == body
  {
    var m := body + gap + ";" + rest;
    CommentAfter(body, gap, rest);
    var g := gap[..|gap| - 1];
    assert m[..|body| + |gap| - 1] == body + g;
    TrimEndPadded(body, g);
  }

  lemma Regroup(a: string, b: string, c: string, d: string)
    ensures a + (b + (c + d)) == a + (b + c) + d
  {
  }

  /** Trimming a commented line keeps the comment but not the whitespace
      after it. */
  lemma TrimCommented(indent: string, body: string, gap: string, comment: string)
    requires AllSpace(indent) && IsTrimmed(body) && body != []
    ensures Trim(indent + (body + gap + ";" + comment)) == body + gap + ";" + TrimEnd(comment)
  {
    var ce := TrimEnd(comment);
    var cq := comment[|ce|..];
    assert comment == ce + cq;
    var m := body + gap + ";" + ce;
    assert m[0] == body[0];
    assert m[|m| - 1] == (if ce != [] then ce[|ce| - 1] else ';');
    Regroup(indent, body + gap + ";", ce, cq);
    TrimPadded(indent, m, cq);
  }

  /** A trailing comment, started by `;` after whitespace, changes nothing
      about how the line is read. */
  lemma TrailingComment(indent: string, body: string, gap: string, comment: string)
    requires AllSpace(indent) && AllSpace(gap) && gap != []
    requires IsTrimmed(body) && body != [] && NoComment(body)
    ensures Classify(indent + (body + gap + ";" + comment)) == Classify(indent + body)
  {
    TrimCommented(indent, body, gap, comment);
    TrimRight(indent, body);
    var m := body + gap + ";" + TrimEnd(comment);
    assert m[0] == body[0];
    if body[0] != ';' {
      StripTrailing(body, gap, TrimEnd(comment));
    }
  }

  /** A line with no `=` that is not a header is ignored. */
  lemma PlainLine(indent: string, word: string, pad: string)
    requires AllSpace(indent) && AllSpace(pad)
    requires IsTrimmed(word) && NoComment(word) && '=' !in word
    requires word == [] || (word[0] != '[' && word[0] != ';')
    ensures Classify(indent + word + pad) == Ignored
  {
    ClassifyBody(indent, word, pad);
  }

  // ---------------------------------------------------------------------
  // The parse: a fold over the lines with the current section.

  datatype State = State(section: Option<string>, doc: Document)

  /** `doc[n][k] = v`, creating section n on its first key. */
  function Store(doc: Document, n: string, k: string, v: string): (d: Document)
    ensures d.Keys == doc.Keys + {n}
    ensures k in d[n] && d[n][k] == v
  {
    var entries := if n in doc then doc[n] else map[];
    doc[n := entries[k := v]]
  }

  /** A store changes the one lookup it targets and no other. */
  lemma StoreLookup(doc: Document, m: string, key: string, v: string, n: string, k: string)
    ensures Lookup(Store(doc, m, key, v), n, k) == if m == n && key == k then Some(v) else Lookup(doc, n, k)
  {
  }

  /** One line's effect: a header moves to its section, a pair is stored
      under the current section if there is one, anything else is
      dropped. */
  function Step(st: State, e: Entry): (r: State)
    ensures r.section == if e.Header? then Some(e.name) else st.section
    ensures st.doc.Keys <= r.doc.Keys
    ensures !(e.Pair? && st.section.Some?) ==> r.doc == st.doc
  {
    match e
    case Header(n) => State(Some(n), st.doc)
    case Pair(k, v) =>
      if st.section.Some? then State(st.section, Store(st.doc, st.section.value, k, v)) else st
    case Ignored => st
  }

  /** The name of the last header among the lines, if any. */
  function LastHeader(ls: seq<string>): Option<string>
    decreases |ls|
  {
    if ls == [] then None
    else match Classify(ls[|ls| - 1])
      case Header(n) => Some(n)
      case _ => LastHeader(ls[..|ls| - 1])
  }

  /** The state after the lines: the current section is the last header
      seen, and no section in the document is empty. */
  function Run(ls: seq<string>): (st: State)
    ensures st.section == LastHeader(ls)
    ensures forall n :: n in st.doc ==> |st.doc[n]| > 0
    decreases |ls|
  {
    if ls == [] then State(None, map[])
    else Step(Run(ls[..|ls| - 1]), Classify(ls[|ls| - 1]))
  }

  /** Reading one more line is one more step. */
  lemma RunSnoc(ls: seq<string>, l: string)
    ensures Run(ls + [l]) == Step(Run(ls), Classify(l))
  {
    assert (ls + [l])[..|ls|] == ls;
  }

  lemma RunStep(ls: seq<string>, i: nat)
    requires i < |ls|
    ensures Run(ls[..i + 1]) == Step(Run(ls[..i]), Classify(ls[i]))
  {
    assert ls[..i + 1] == ls[..i] + [ls[i]];
    RunSnoc(ls[..i], ls[i]);
  }

  /** The document `ini_parse` returns for a text. */
  function Parse(text: string): (doc: Document)
    ensures forall n :: n in doc ==> |doc[n]| > 0
  {
    Run(Lines(text)).doc
  }

  /** What `ini_parse` does with one line once it is read: move to a new
      section, or store a pair in the current one, creating the section on
      its first key. */
  method ApplyEntry(section: Option<string>, doc: Document, e: Entry)
    returns (section': Option<string>, doc': Document)
    ensures State(section', doc') == Step(State(section, doc), e)
  {
    section', doc' := section, doc;
    match e {
      case Header(name) =>
        section' := Some(name);
      case Pair(key, value) =>
        if section.Some? {
          var entries := if section.value in doc then doc[section.value] else map[];
          doc' := doc[section.value := entries[key := value]];
        }
      case Ignored =>
    }
  }

  /** `ini_parse`: the lines read in order with a current section and a
      document updated in place. */
  method IniParse(text: string) returns (doc: Document)
    ensures doc == Parse(text)
    ensures forall n :: n in doc ==> |doc[n]| > 0
  {
    var lines := Lines(text);
    var section: Option<string> := None;
    doc := map[];
    var i := 0;
    while i < |lines|
      invariant 0 <= i <= |lines|
      invariant State(section, doc) == Run(lines[..i])
    {
      RunStep(lines, i);
      section, doc := ApplyEntry(section, doc, Classify(lines[i]));
      i := i + 1;
    }
    assert lines[..|lines|] == lines;
  }

  // ---------------------------------------------------------------------
  // A reference reading: the document is the log of the pairs, each
  // written to the section of the last header before it, the last write
  // to a key winning.

  datatype Write = Write(section: string, key: string, value: string)

  function Writes(ls: seq<string>): seq<Write>
    decreases |ls|
  {
    if ls == [] then []
    else
      var init := ls[..|ls| - 1];
      match (Classify(ls[|ls| - 1]), LastHeader(init))
      case (Pair(k, v), Some(n)) => Writes(init) + [Write(n, k, v)]
      case _ => Writes(init)
  }

  predicate Targets(ws: seq<Write>, n: string)
    decreases |ws|
  {
    ws != [] && (ws[|ws| - 1].section == n || Targets(ws[..|ws| - 1], n))
  }

  function Latest(ws: seq<Write>, n: string, k: string): Option<string>
    decreases |ws|
  {
    if ws == [] then None
    else if ws[|ws| - 1].section == n && ws[|ws| - 1].key == k then Some(ws[|ws| - 1].value)
    else Latest(ws[..|ws| - 1], n, k)
  }

  function Lookup(doc: Document, n: string, k: string): Option<string> {
    if n in doc && k in doc[n] then Some(doc[n][k]) else None
  }

  /** A section is in the document exactly when some pair was written to
      it. */
  lemma {:induction false} SectionsAreWritten(ls: seq<string>, n: string)
    ensures n in Run(ls).doc <==> Targets(Writes(ls), n)
    decreases |ls|
  {
    if ls != [] {
      SectionsAreWritten(ls[..|ls| - 1], n);
    }
  }

  /** Each key holds the last value written to it in its section. */
  lemma {:induction false} LastWriteWins(ls: seq<string>, n: string, k: string)
    ensures Lookup(Run(ls).doc, n, k) == Latest(Writes(ls), n, k)
    decreases |ls|
  {
    if ls != [] {
      var init := ls[..|ls| - 1];
      LastWriteWins(init, n, k);
      var st := Run(init);
      match Classify(ls[|ls| - 1]) {
        case Pair(key, v) =>
          if st.section.Some? {
            var ws := Writes(ls);
            assert ws[..|ws| - 1] == Writes(init);
            StoreLookup(st.doc, st.section.value, key, v, n, k);
          }
        case Header(_) =>
        case Ignored =>
      }
    }
  }

  /** Lines with no header leave the document empty. */
  lemma {:induction false} NoHeaderNoSections(ls: seq<string>)
    requires forall i :: 0 <= i < |ls| ==> !Classify(ls[i]).Header?
    ensures Run(ls) == State(None, map[])
    decreases |ls|
  {
    if ls != [] {
      NoHeaderNoSections(ls[..|ls| - 1]);
    }
  }

  /** Lines with no pair leave the document empty. */
  lemma {:induction false} NoPairNoSections(ls: seq<string>)
    requires forall i :: 0 <= i < |ls| ==> !Classify(ls[i]).Pair?
    ensures Run(ls).doc == map[]
    decreases |ls|
  {
    if ls != [] {
      NoPairNoSections(ls[..|ls| - 1]);
    }
  }

  /** Lines before the first header are dropped, pairs among them
      included. */
  lemma {:induction false} LeadingLinesIgnored(pre: seq<string>, post: seq<string>)
    requires forall i :: 0 <= i < |pre| ==> !Classify(pre[i]).Header?
    ensures Run(pre + post) == Run(post)
    decreases |post|
  {
    if post == [] {
      assert pre + post == pre;
      NoHeaderNoSections(pre);
    } else {
      LeadingLinesIgnored(pre, post[..|post| - 1]);
      assert (pre + post)[..|pre + post| - 1] == pre + post[..|post| - 1];
    }
  }

  /** Text made only of blank lines and comment lines parses to nothing. */
  lemma CommentsOnly(text: string)
    requires forall l :: l in Lines(text) ==> AllSpace(l) || Trim(l)[0] == ';'
    ensures Parse(text) == map[]
  {
    var ls := Lines(text);
    forall i | 0 <= i < |ls|
      ensures !Classify(ls[i]).Pair?
    {
      assert ls[i] in ls;
    }
    NoPairNoSections(ls);
  }
}
