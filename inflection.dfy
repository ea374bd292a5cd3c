/** The identifier inflection `underscore` of the `Aws::Util` helpers: a
    mixed-case API identifier from a service definition becomes a
    lower-case, underscore-separated name.

    A fixed table of irregular identifiers is consulted first. Any other
    identifier is cut into words at the boundaries of three rules, and the
    words are lower-cased and joined with `_`:
      A. an upper-case/digit run followed by a capitalised word is cut
         before that word's capital (`AWSAccount`: `AWS|Account`);
      B. a lower-case letter or digit followed by a capital starts a new
         word (`FooBar`: `Foo|Bar`, `24MIN`: `24|MIN`);
      C. a lower-case letter followed by a digit starts a new word
         (`Last24`: `Last|24`).
    The rules are judged on the characters of the identifier: a separator
    inserted by one rule never makes two letters or digits adjacent, so
    applying them in the order A, B, C cuts exactly where one of them holds. */
module Inflection {

  predicate IsUpper(c: char) { 'A' <= c <= 'Z' }
  predicate IsLower(c: char) { 'a' <= c <= 'z' }
  predicate IsDigit(c: char) { '0' <= c <= '9' }

  /** ASCII lower-casing of one character. */
  function Lower(c: char): (d: char)
    ensures !IsUpper(d)
    ensures IsUpper(c) ==> IsLower(d)
    ensures !IsUpper(c) ==> d == c
  {
    if IsUpper(c) then (c as int - 'A' as int + 'a' as int) as char else c
  }

  /** The alphabet in both cases, as a reference for `Lower`. */
  const Capitals := "ABCDEFGHIJKLMNOPQRSTUVWXYZ"
  const Smalls := "abcdefghijklmnopqrstuvwxyz"

  /** A capital is lowered to the small letter at its own place in the
      alphabet. */
  lemma LowerByAlphabet(c: char)
    requires IsUpper(c)
    ensures var k := c as int - 'A' as int;
      0 <= k < 26 && Capitals[k] == c && Lower(c) == Smalls[k]
  {
  }

  /** Every character lower-cased, in place. */
  function LowerAll(s: string): (r: string)
    ensures |r| == |s|
    ensures forall i :: 0 <= i < |s| ==> r[i] == Lower(s[i])
    ensures NoUpper(r)
    ensures NoUpper(s) ==> r == s
  {
    seq(|s|, i requires 0 <= i < |s| => Lower(s[i]))
  }

  /** Lower-casing works piece by piece. */
  lemma LowerAllConcat(a: string, b: string)
    ensures LowerAll(a + b) == LowerAll(a) + LowerAll(b)
  {
    var r, t := LowerAll(a + b), LowerAll(a) + LowerAll(b);
    forall i | 0 <= i < |r|
      ensures r[i] == t[i]
    {
      if i < |a| {
        assert (a + b)[i] == a[i];
      } else {
        assert (a + b)[i] == b[i - |a|];
      }
    }
  }

  predicate NoUpper(s: string) {
    forall i :: 0 <= i < |s| ==> !IsUpper(s[i])
  }

  predicate IsAlnum(s: string) {
    forall i :: 0 <= i < |s| ==> IsUpper(s[i]) || IsLower(s[i]) || IsDigit(s[i])
  }

  /** Canonical form: lower-case letters and digits in non-empty words,
      separated by single underscores. */
  predicate IsSnake(s: string) {
    && (forall i :: 0 <= i < |s| ==> IsLower(s[i]) || IsDigit(s[i]) || s[i] == '_')
    && (|s| > 0 ==> s[0] != '_' && s[|s| - 1] != '_')
    && (forall i :: 0 < i < |s| && s[i] == '_' ==> s[i - 1] != '_')
  }

  /** The string with its separators removed. */
  function Unseparated(s: string): string {
    if s == [] then []
    else Unseparated(s[..|s| - 1]) + (if s[|s| - 1] == '_' then [] else [s[|s| - 1]])
  }

  // ---------------------------------------------------------------------
  // The three boundary rules; a boundary at i cuts between s[i-1] and s[i].

  /** Rule A: s[i] is the capital of a word that follows an upper-case or
      digit run, that is, the run s[..i+1] has length at least two and is
      followed by a lower-case letter. */
  predicate AcronymBoundary(s: string, i: nat)
    requires 0 < i < |s|
  {
    (IsUpper(s[i - 1]) || IsDigit(s[i - 1])) && IsUpper(s[i]) && i + 1 < |s| && IsLower(s[i + 1])
  }

  /** Rule B: a capital right after a lower-case letter or a digit. */
  predicate CapitalBoundary(s: string, i: nat)
    requires 0 < i < |s|
  {
    (IsLower(s[i - 1]) || IsDigit(s[i - 1])) && IsUpper(s[i])
  }

  /** Rule C: a digit right after a lower-case letter. */
  predicate DigitBoundary(s: string, i: nat)
    requires 0 < i < |s|
  {
    IsLower(s[i - 1]) && IsDigit(s[i])
  }

  predicate Boundary(s: string, i: nat)
    requires 0 < i < |s|
  {
    AcronymBoundary(s, i) || CapitalBoundary(s, i) || DigitBoundary(s, i)
  }

  /** The positions of s at which some rule cuts. */
  function Cuts(s: string): (cut: seq<bool>)
    ensures |cut| == |s|
    ensures forall i :: 0 < i < |s| ==> (cut[i] <==> Boundary(s, i))
  {
    seq(|s|, i requires 0 <= i < |s| => i > 0 && Boundary(s, i))
  }

  /** Scans s[..n] left to right, emitting every character lower-cased and
      a separator before every cut position but the first. */
  function Separate(s: string, cut: seq<bool>, n: nat): string
    requires n <= |s| == |cut|
  {
    if n == 0 then []
    else Separate(s, cut, n - 1) + (if n - 1 > 0 && cut[n - 1] then "_" else "") + [Lower(s[n - 1])]
  }

  /** The scan never leaves a capital. */
  lemma {:induction false} SeparateNoUpper(s: string, cut: seq<bool>, n: nat)
    requires n <= |s| == |cut|
    ensures NoUpper(Separate(s, cut, n))
    decreases n
  {
    if n > 0 {
      SeparateNoUpper(s, cut, n - 1);
    }
  }

  /** On letters and digits the scan yields canonical form. */
  lemma {:induction false} SeparateIsSnake(s: string, cut: seq<bool>, n: nat)
    requires n <= |s| == |cut|
    ensures IsAlnum(s) ==> IsSnake(Separate(s, cut, n))
    ensures n > 0 ==> |Separate(s, cut, n)| > 0
    decreases n
  {
    if n > 0 {
      SeparateIsSnake(s, cut, n - 1);
      if IsAlnum(s) {
        var sep := if n - 1 > 0 && cut[n - 1] then "_" else "";
        assert Separate(s, cut, n) == Separate(s, cut, n - 1) + sep + [Lower(s[n - 1])];
        SnakeSnoc(Separate(s, cut, n - 1), sep, Lower(s[n - 1]));
      }
    }
  }

  /** Appending a letter or digit, after at most one separator that does
      not come first, keeps canonical form. */
  lemma SnakeSnoc(prefix: string, sep: string, c: char)
    requires IsSnake(prefix)
    requires sep == "" || (sep == "_" && |prefix| > 0)
    requires IsLower(c) || IsDigit(c)
    ensures IsSnake(prefix + sep + [c])
  {
    var r := prefix + sep + [c];
    assert r[|r| - 1] == c;
    assert forall i :: 0 <= i < |prefix| ==> r[i] == prefix[i];
  }

  lemma UnseparatedStep(prefix: string, sep: string, c: char)
    requires sep == "" || sep == "_"
    requires c != '_'
    ensures Unseparated(prefix + sep + [c]) == Unseparated(prefix) + [c]
  {
    assert (prefix + sep + [c])[..|prefix + sep|] == prefix + sep;
    if sep == "_" {
      assert (prefix + sep)[..|prefix|] == prefix;
    } else {
      assert prefix + sep == prefix;
    }
  }

  lemma LowerAllSnoc(s: string, n: nat)
    requires 0 < n <= |s|
    ensures LowerAll(s[..n]) == LowerAll(s[..n - 1]) + [Lower(s[n - 1])]
  {
  }

  /** On letters and digits the scan only inserts separators: removing
      them gives back the lower-cased input. */
  lemma {:induction false} SeparateOnlyInserts(s: string, cut: seq<bool>, n: nat)
    requires n <= |s| == |cut|
    ensures IsAlnum(s) ==> Unseparated(Separate(s, cut, n)) == LowerAll(s[..n])
    decreases n
  {
    if n > 0 && IsAlnum(s) {
      SeparateOnlyInserts(s, cut, n - 1);
      var prefix := Separate(s, cut, n - 1);
      var c := Lower(s[n - 1]);
      var sep := if n - 1 > 0 && cut[n - 1] then "_" else "";
      assert Separate(s, cut, n) == prefix + sep + [c];
      UnseparatedStep(prefix, sep, c);
      LowerAllSnoc(s, n);
      calc {
        Unseparated(Separate(s, cut, n));
        Unseparated(prefix) + [c];
        LowerAll(s[..n - 1]) + [c];
        LowerAll(s[..n]);
      }
    }
  }

  // ---------------------------------------------------------------------
  // The irregular inflections, matched exactly on the whole identifier.

  const Irregular: map<string, string> := map[
    "ETag" := "etag",
    "s3Bucket" := "s3_bucket",
    "s3Key" := "s3_key",
    "Ec2KeyName" := "ec2_key_name",
    "Ec2SubnetId" := "ec2_subnet_id",
    "Ec2VolumeId" := "ec2_volume_id",
    "Ec2InstanceId" := "ec2_instance_id",
    "ElastiCache" := "elasticache",
    "NotificationARNs" := "notification_arns",
    "SentLast24Hours" := "sent_last_24_hours",
    "Max24HourSend" := "max_24_hour_send",
    "AuthenticationCode1" := "authentication_code_1",
    "AuthenticationCode2" := "authentication_code_2",
    "SwapEnvironmentCNAMEs" := "swap_environment_cnames",
    "CachediSCSIVolume" := "cached_iscsi_volume",
    "CachediSCSIVolumeInformation" := "cached_iscsi_volume_information",
    "CachediSCSIVolumes" := "cached_iscsi_volumes",
    "CreateCachediSCSIVolume" := "create_cached_iscsi_volume",
    "CreateCachediSCSIVolumeInput" := "create_cached_iscsi_volume_input",
    "CreateCachediSCSIVolumeOutput" := "create_cached_iscsi_volume_output",
    "CreateStorediSCSIVolume" := "create_stored_iscsi_volume",
    "CreateStorediSCSIVolumeInput" := "create_stored_iscsi_volume_input",
    "CreateStorediSCSIVolumeOutput" := "create_stored_iscsi_volume_output",
    "DescribeCachediSCSIVolumes" := "describe_cached_iscsi_volumes",
    "DescribeCachediSCSIVolumesInput" := "describe_cached_iscsi_volumes_input",
    "DescribeCachediSCSIVolumesOutput" := "describe_cached_iscsi_volumes_output",
    "DescribeStorediSCSIVolumes" := "describe_stored_iscsi_volumes",
    "DescribeStorediSCSIVolumesInput" := "describe_stored_iscsi_volumes_input",
    "DescribeStorediSCSIVolumesOutput" := "describe_stored_iscsi_volumes_output",
    "DeviceiSCSIAttributes" := "device_iscsi_attributes",
    "StorediSCSIVolume" := "stored_iscsi_volume",
    "StorediSCSIVolumeInformation" := "stored_iscsi_volume_information",
    "StorediSCSIVolumes" := "stored_iscsi_volumes",
    "VolumeiSCSIAttributes" := "volume_iscsi_attributes"
  ]

  /** The boundary rules alone: the identifier cut at every boundary and
      lower-cased. Nothing but separators is added, and on letters and
      digits the result is in canonical form. */
  function ByRules(s: string): (r: string)
    ensures NoUpper(r)
    ensures IsAlnum(s) ==> IsSnake(r) && Unseparated(r) == LowerAll(s)
  {
    var cut := Cuts(s);
    SeparateNoUpper(s, cut, |s|);
    SeparateIsSnake(s, cut, |s|);
    SeparateOnlyInserts(s, cut, |s|);
    assert s[..|s|] == s;
    Separate(s, cut, |s|)
  }

  /** `underscore`: the irregular table first, the boundary rules otherwise. */
  function Underscore(s: string): (r: string)
    ensures s in Irregular ==> r == Irregular[s]
    ensures s !in Irregular ==> r == ByRules(s) && NoUpper(r)
    ensures s !in Irregular && IsAlnum(s) ==> IsSnake(r) && Unseparated(r) == LowerAll(s)
  {
    if s in Irregular then Irregular[s] else ByRules(s)
  }

  // ---------------------------------------------------------------------
  // The words the rules were made for, and the theorem that the rules cut
  // a well-formed run of such words exactly between the words.

  /** A capitalised word: a capital followed by lower-case letters (`Foo`). */
  predicate IsTitled(w: string) {
    |w| >= 2 && IsUpper(w[0]) && forall j :: 1 <= j < |w| ==> IsLower(w[j])
  }

  /** An acronym: capitals, then possibly digits (`AWS`, `ID`, `MD5`, `EC2`). */
  predicate IsAcronym(w: string) {
    && |w| >= 1
    && IsUpper(w[0])
    && (forall j :: 0 <= j < |w| ==> IsUpper(w[j]) || IsDigit(w[j]))
    && (forall i, j :: 0 <= i < j < |w| && IsDigit(w[i]) ==> IsDigit(w[j]))
  }

  /** A number: digits only (`24`). */
  predicate IsNumber(w: string) {
    |w| >= 1 && forall j :: 0 <= j < |w| ==> IsDigit(w[j])
  }

  /** A word in lower case (`foo`, the `s` of `s3Key`); only the first word
      of an identifier can be one. */
  predicate IsLowerWord(w: string) {
    |w| >= 1 && forall j :: 0 <= j < |w| ==> IsLower(w[j])
  }

  predicate IsWord(w: string) {
    IsTitled(w) || IsAcronym(w) || IsNumber(w) || IsLowerWord(w)
  }

  /** Neighbours that stay apart: written next to each other, two acronyms,
      a number after an acronym or a number, or a lower-case word after
      anything, read as one word. */
  predicate MayFollow(p: string, w: string) {
    || IsTitled(w)
    || (IsAcronym(w) && !IsAcronym(p))
    || (IsNumber(w) && (IsTitled(p) || IsLowerWord(p)))
  }

  /** A non-empty list of words, each of which may follow its predecessor. */
  predicate IsWordList(ws: seq<string>) {
    && |ws| > 0
    && IsWord(ws[|ws| - 1])
    && (|ws| > 1 ==> IsWordList(ws[..|ws| - 1]) && MayFollow(ws[|ws| - 2], ws[|ws| - 1]))
  }

  /** The words written next to each other. */
  function Concat(ws: seq<string>): string {
    if ws == [] then [] else Concat(ws[..|ws| - 1]) + ws[|ws| - 1]
  }

  /** The words lower-cased and joined with single underscores. */
  function JoinLowered(ws: seq<string>): string
    requires |ws| > 0
  {
    if |ws| == 1 then LowerAll(ws[0])
    else JoinLowered(ws[..|ws| - 1]) + "_" + LowerAll(ws[|ws| - 1])
  }

  /** No rule cuts inside a word that is not followed by a lower-case letter. */
  lemma NoBoundaryInWord(s: string, o: nat, w: string, j: nat)
    requires IsWord(w) && 0 < j < |w|
    requires o + |w| <= |s| && s[o..o + |w|] == w
    requires o + |w| < |s| ==> !IsLower(s[o + |w|])
    ensures !Boundary(s, o + j)
  {
    assert s[o + j] == w[j] && s[o + j - 1] == w[j - 1];
    if j + 1 < |w| {
      assert s[o + j + 1] == w[j + 1];
    }
  }

  /** Some rule cuts between every two neighbouring words that may follow each other. */
  lemma CutBetweenWords(s: string, o: nat, p: string, w: string)
    requires IsWord(p) && IsWord(w) && MayFollow(p, w)
    requires |p| <= o && o + |w| <= |s|
    requires s[o - |p|..o] == p && s[o..o + |w|] == w
    ensures Cuts(s)[o]
  {
    assert s[o - 1] == p[|p| - 1] && s[o] == w[0];
    if |w| > 1 {
      assert s[o + 1] == w[1];
    }
    var last := p[|p| - 1];
    if IsTitled(p) || IsLowerWord(p) {
      assert IsLower(last);
    } else if IsAcronym(p) {
      assert IsUpper(last) || IsDigit(last);
    } else {
      assert IsDigit(last);
    }
  }

  /** No rule cuts anywhere inside a word not followed by a lower-case letter. */
  lemma NoCutInsideWord(s: string, o: nat, w: string)
    requires IsWord(w)
    requires o + |w| <= |s| && s[o..o + |w|] == w
    requires o + |w| < |s| ==> !IsLower(s[o + |w|])
    ensures forall j :: o < j < o + |w| ==> !Cuts(s)[j]
  {
    forall j | o < j < o + |w|
      ensures !Cuts(s)[j]
    {
      NoBoundaryInWord(s, o, w, j - o);
    }
  }

  lemma LowerAllSingle(c: char)
    ensures LowerAll([c]) == [Lower(c)]
  {
    assert LowerAll([c])[0] == Lower([c][0]);
  }

  lemma LowerAllSnocRange(s: string, o: nat, e: nat)
    requires o < e <= |s|
    ensures LowerAll(s[o..e]) == LowerAll(s[o..e - 1]) + [Lower(s[e - 1])]
  {
  }

  /** The scan over a stretch s[o..e] that is cut at its start, unless it
      comes first, and nowhere inside: the stretch lower-cased, after one
      separator. */
  lemma {:induction false} SeparateWord(s: string, cut: seq<bool>, o: nat, e: nat)
    requires o < e <= |s| == |cut|
    requires forall j :: o < j < e ==> !cut[j]
    requires o > 0 ==> cut[o]
    ensures Separate(s, cut, e) == Separate(s, cut, o) + (if o > 0 then "_" else "") + LowerAll(s[o..e])
    decreases e
  {
    var head := Separate(s, cut, o) + (if o > 0 then "_" else "");
    if e == o + 1 {
      assert s[o..e] == [s[o]];
      LowerAllSingle(s[o]);
      assert Separate(s, cut, e) == head + [Lower(s[o])];
    } else {
      SeparateWord(s, cut, o, e - 1);
      LowerAllSnocRange(s, o, e);
      calc {
        Separate(s, cut, e);
        Separate(s, cut, e - 1) + [Lower(s[e - 1])];
        (head + LowerAll(s[o..e - 1])) + [Lower(s[e - 1])];
        head + (LowerAll(s[o..e - 1]) + [Lower(s[e - 1])]);
        head + LowerAll(s[o..e]);
      }
    }
  }

  lemma SplitPrefix(s: string, a: string, b: string)
    requires |a| + |b| <= |s| && s[..|a| + |b|] == a + b
    ensures s[..|a|] == a && s[|a|..|a| + |b|] == b
  {
    assert s[..|a|] == (a + b)[..|a|];
    assert s[|a|..|a| + |b|] == (a + b)[|a|..];
  }

  /** cut marks, in a run of the words ws written from position 0, the
      first character of every word but the first and nothing else. */
  predicate MarksWords(cut: seq<bool>, ws: seq<string>)
    requires |Concat(ws)| <= |cut|
    decreases |ws|
  {
    && |ws| > 0
    && var o, w := |Concat(ws[..|ws| - 1])|, ws[|ws| - 1];
    && |w| > 0
    && (forall j :: o < j < o + |w| ==> !cut[j])
    && (|ws| > 1 ==> cut[o] && MarksWords(cut, ws[..|ws| - 1]))
  }

  /** The scan of a run of words whose starts, and only those, are cut
      yields the words lower-cased and joined by underscores. */
  lemma {:induction false} SeparateWords(s: string, cut: seq<bool>, ws: seq<string>)
    requires |Concat(ws)| <= |s| == |cut| && s[..|Concat(ws)|] == Concat(ws)
    requires MarksWords(cut, ws)
    ensures Separate(s, cut, |Concat(ws)|) == JoinLowered(ws)
    decreases |ws|
  {
    var init, w := ws[..|ws| - 1], ws[|ws| - 1];
    var o := |Concat(init)|;
    SplitPrefix(s, Concat(init), w);
    SeparateWord(s, cut, o, o + |w|);
    if |ws| > 1 {
      SeparateWords(s, cut, init);
    }
  }

  /** The rules cut a well-formed run of words, not followed by a
      lower-case letter, exactly at the starts of its words. */
  lemma {:induction false} WordsAreMarked(s: string, ws: seq<string>)
    requires IsWordList(ws)
    requires |Concat(ws)| <= |s| && s[..|Concat(ws)|] == Concat(ws)
    requires |Concat(ws)| < |s| ==> !IsLower(s[|Concat(ws)|])
    ensures MarksWords(Cuts(s), ws)
    decreases |ws|
  {
    var init, w := ws[..|ws| - 1], ws[|ws| - 1];
    var o := |Concat(init)|;
    SplitPrefix(s, Concat(init), w);
    NoCutInsideWord(s, o, w);
    if |ws| > 1 {
      var p := init[|init| - 1];
      SplitPrefix(s, Concat(init[..|init| - 1]), p);
      assert s[o] == w[0];
      WordsAreMarked(s, init);
      CutBetweenWords(s, o, p, w);
    }
  }

  /** The rules split a run of well-formed words exactly between the words:
      capitalised words, acronyms (digits included), numbers and a leading
      lower-case word each become one lower-case word of the result. */
  lemma ByRulesOfWords(ws: seq<string>)
    requires IsWordList(ws)
    ensures ByRules(Concat(ws)) == JoinLowered(ws)
  {
    var s := Concat(ws);
    assert s[..|s|] == s;
    WordsAreMarked(s, ws);
    SeparateWords(s, Cuts(s), ws);
  }
}
