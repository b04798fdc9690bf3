/** The `<collection,field>,<collection,field>` configuration strings that name the
    cascades of a model field, and the loop that parses them. */
module CascadeConfig {
  // ---- Python's string operations, as the parser uses them ----

  predicate StartsWith(s: string, sep: string) {
    |sep| <= |s| && s[..|sep|] == sep
  }

  /** `s.split(sep)`: cut at every non-overlapping occurrence, leftmost first. */
  function Split(s: string, sep: string): (r: seq<string>)
    requires sep != ""
    ensures r != []
    decreases |s|
  {
    if s == "" then [""]
    else if StartsWith(s, sep) then [""] + Split(s[|sep|..], sep)
    else
      var rest := Split(s[1..], sep);
      [[s[0]] + rest[0]] + rest[1..]
  }

  function StripLeft(s: string, cut: char -> bool): string {
    if s == "" || !cut(s[0]) then s else StripLeft(s[1..], cut)
  }

  function StripRight(s: string, cut: char -> bool): string {
    if s == "" || !cut(s[|s| - 1]) then s else StripRight(s[..|s| - 1], cut)
  }

  /** `s.strip(chars)`. */
  function Strip(s: string, cut: char -> bool): string {
    StripRight(StripLeft(s, cut), cut)
  }

  predicate IsAngle(c: char) {
    c == '<' || c == '>'
  }

  /** The characters `str.strip()` removes. */
  predicate IsSpace(c: char) {
    || '\t' <= c <= '\r' || '\U{1C}' <= c <= ' ' || c == '\U{85}' || c == '\U{A0}' || c == '\U{1680}'
    || '\U{2000}' <= c <= '\U{200A}' || c == '\U{2028}' || c == '\U{2029}' || c == '\U{202F}'
    || c == '\U{205F}' || c == '\U{3000}'
  }

  /** Position of the first comma, or the length when there is none. */
  function CommaAt(s: string): (i: nat)
    ensures i <= |s|
    ensures i < |s| ==> s[i] == ','
    ensures forall j :: 0 <= j < i ==> s[j] != ','
  {
    if s == "" || s[0] == ',' then 0 else 1 + CommaAt(s[1..])
  }

  // ---- the parser ----

  function ParsePiece(piece: string): seq<(string, string)> {
    var config := Strip(Strip(piece, IsAngle), IsSpace);
    var i := CommaAt(config);
    if i == |config| then []
    else [(Strip(config[..i], IsSpace), Strip(config[i + 1..], IsSpace))]
  }

  function ParsePieces(pieces: seq<string>): seq<(string, string)> {
    if pieces == [] then [] else ParsePiece(pieces[0]) + ParsePieces(pieces[1..])
  }

  /** The loop body: a piece without a comma is ignored. */
  method ParseOne(piece: string, configs: seq<(string, string)>) returns (more: seq<(string, string)>)
    ensures more == configs + ParsePiece(piece)
  {
    var config := Strip(Strip(piece, IsAngle), IsSpace);
    var i := CommaAt(config);
    more := configs;
    if i < |config| {
      more := more + [(Strip(config[..i], IsSpace), Strip(config[i + 1..], IsSpace))];
    }
  }

  // ---- what the parser reads from any text ----

  ghost predicate IsAt(s: string, sep: string, i: nat) {
    i + |sep| <= |s| && s[i..i + |sep|] == sep
  }

  lemma IsAtTail(s: string, sep: string, i: nat)
    requires 0 < i && s != ""
    ensures IsAt(s, sep, i) <==> IsAt(s[1..], sep, i - 1)
  {
    if i + |sep| <= |s| {
      assert s[i..i + |sep|] == s[1..][i - 1..i - 1 + |sep|];
    }
  }

  lemma FirstAt(s: string, sep: string, n: nat)
    requires s != "" && !IsAt(s, sep, 0)
    requires forall i :: 0 <= i < n ==> !IsAt(s[1..], sep, i)
    ensures forall i :: 0 <= i <= n ==> !IsAt(s, sep, i)
  {
    forall i | 0 < i <= n
      ensures !IsAt(s, sep, i)
    {
      IsAtTail(s, sep, i);
    }
  }

  lemma SplitStep(s: string, sep: string)
    requires s != "" && sep != ""
    ensures Split(s, sep) ==
      if IsAt(s, sep, 0) then [""] + Split(s[|sep|..], sep)
      else [[s[0]] + Split(s[1..], sep)[0]] + Split(s[1..], sep)[1..]
  {
  }

  /** Where s does not start with the separator, its first piece is one character longer
      than that of its tail. */
  lemma SplitLater(s: string, sep: string, rest: seq<string>)
    requires s != "" && sep != "" && rest != [] && !IsAt(s, sep, 0)
    requires |rest| == 1 ==> rest[0] == s[1..] && forall i :: 0 <= i <= |s[1..]| ==> !IsAt(s[1..], sep, i)
    requires |rest| > 1 ==>
      && IsAt(s[1..], sep, |rest[0]|) && s[1..][..|rest[0]|] == rest[0]
      && forall i :: 0 <= i < |rest[0]| ==> !IsAt(s[1..], sep, i)
    ensures |rest| == 1 ==> [s[0]] + rest[0] == s && forall i :: 0 <= i <= |s| ==> !IsAt(s, sep, i)
    ensures |rest| > 1 ==>
      var first := [s[0]] + rest[0];
      && IsAt(s, sep, |first|) && s[..|first|] == first
      && (forall i :: 0 <= i < |first| ==> !IsAt(s, sep, i))
      && s[|first| + |sep|..] == s[1..][|rest[0]| + |sep|..]
  {
    if |rest| == 1 {
      FirstAt(s, sep, |s|);
    } else {
      FirstAt(s, sep, |rest[0]|);
      IsAtTail(s, sep, |rest[0]| + 1);
    }
  }

  /** The first piece ends at the leftmost separator, and the rest is split likewise. */
  lemma {:induction false} SplitMeans(s: string, sep: string)
    requires sep != ""
    ensures |Split(s, sep)| == 1 ==> Split(s, sep) == [s] && forall i :: 0 <= i <= |s| ==> !IsAt(s, sep, i)
    ensures |Split(s, sep)| > 1 ==>
      var first := Split(s, sep)[0];
      && IsAt(s, sep, |first|) && s[..|first|] == first
      && (forall i :: 0 <= i < |first| ==> !IsAt(s, sep, i))
      && Split(s, sep)[1..] == Split(s[|first| + |sep|..], sep)
    decreases |s|
  {
    if s != "" {
      SplitStep(s, sep);
      hide Split;
      if !IsAt(s, sep, 0) {
        SplitMeans(s[1..], sep);
        SplitLater(s, sep, Split(s[1..], sep));
      }
    } else {
      assert s[..] == "";
    }
  }

  ghost predicate All(s: string, p: char -> bool) {
    forall i :: 0 <= i < |s| ==> p(s[i])
  }

  /** t is s without the characters to cut at either end. */
  ghost predicate Trims(s: string, t: string, cut: char -> bool) {
    && (t == "" || (!cut(t[0]) && !cut(t[|t| - 1])))
    && exists left, right :: s == left + t + right && All(left, cut) && All(right, cut)
  }

  lemma {:induction false} StripLeftMeans(s: string, cut: char -> bool) returns (left: string)
    ensures s == left + StripLeft(s, cut) && All(left, cut)
    ensures StripLeft(s, cut) == "" || !cut(StripLeft(s, cut)[0])
  {
    left := "";
    if s != "" && cut(s[0]) {
      var more := StripLeftMeans(s[1..], cut);
      left := [s[0]] + more;
    }
  }

  lemma {:induction false} StripRightMeans(s: string, cut: char -> bool) returns (right: string)
    ensures s == StripRight(s, cut) + right && All(right, cut)
    ensures StripRight(s, cut) == "" || !cut(StripRight(s, cut)[|StripRight(s, cut)| - 1])
  {
    right := "";
    if s != "" && cut(s[|s| - 1]) {
      var more := StripRightMeans(s[..|s| - 1], cut);
      right := more + [s[|s| - 1]];
    }
  }

  lemma StripTrims(s: string, cut: char -> bool)
    ensures Trims(s, Strip(s, cut), cut)
  {
    hide StripLeft, StripRight;
    var left := StripLeftMeans(s, cut);
    var t := StripLeft(s, cut);
    var right := StripRightMeans(t, cut);
    var core := StripRight(t, cut);
    assert t == core + right;
    assert core != "" ==> core[0] == t[0];
    assert s == left + core + right;
  }

  lemma TrimKeepsCommas(s: string, t: string, cut: char -> bool)
    requires Trims(s, t, cut) && !cut(',')
    ensures ',' in s <==> ',' in t
  {
    var left, right :| s == left + t + right && All(left, cut) && All(right, cut);
    assert ',' !in left && ',' !in right;
  }

  lemma CutAround(s: string, i: nat)
    requires i < |s|
    ensures s == s[..i] + [s[i]] + s[i + 1..]
  {
  }

  lemma CutAtComma(config: string)
    ensures CommaAt(config) < |config| <==> ',' in config
    ensures CommaAt(config) < |config| ==>
      config == config[..CommaAt(config)] + "," + config[CommaAt(config) + 1..] && ',' !in config[..CommaAt(config)]
  {
    var i := CommaAt(config);
    if i < |config| {
      CutAround(config, i);
    }
  }

  lemma NoCommaCut()
    ensures !IsAngle(',') && !IsSpace(',')
  {
  }

  /** A piece without a comma is ignored. Any other piece is trimmed of angle brackets
      and then of whitespace, cut at its first comma, and its two halves are trimmed. */
  lemma PieceMeans(piece: string) returns (inner: string, config: string, key: string, field: string)
    ensures ',' !in piece ==> ParsePiece(piece) == []
    ensures ',' in piece ==>
      && Trims(piece, inner, IsAngle) && Trims(inner, config, IsSpace)
      && config == key + "," + field && ',' !in key
      && |ParsePiece(piece)| == 1
      && Trims(key, ParsePiece(piece)[0].0, IsSpace) && Trims(field, ParsePiece(piece)[0].1, IsSpace)
  {
    hide Strip, CommaAt, IsSpace, IsAngle, Trims;
    inner := Strip(piece, IsAngle);
    config := Strip(inner, IsSpace);
    StripTrims(piece, IsAngle);
    StripTrims(inner, IsSpace);
    NoCommaCut();
    TrimKeepsCommas(piece, inner, IsAngle);
    TrimKeepsCommas(inner, config, IsSpace);
    CutAtComma(config);
    key, field := "", "";
    if ',' in piece {
      key, field := config[..CommaAt(config)], config[CommaAt(config) + 1..];
      StripTrims(key, IsSpace);
      StripTrims(field, IsSpace);
    }
  }

  // ---- printing, and the round trip ----

  function PrintPair(p: (string, string)): string {
    p.0 + "," + p.1
  }

  /** The text between the outer angle brackets. */
  function PrintInner(pairs: seq<(string, string)>): string
    requires pairs != []
  {
    if |pairs| == 1 then PrintPair(pairs[0]) else PrintPair(pairs[0]) + ">,<" + PrintInner(pairs[1..])
  }

  function Print(pairs: seq<(string, string)>): string
    requires pairs != []
  {
    "<" + PrintInner(pairs) + ">"
  }

  ghost predicate CleanEnds(s: string) {
    s != "" && !IsSpace(s[0]) && !IsSpace(s[|s| - 1])
  }

  /** A non-empty key without angle brackets, commas or surrounding whitespace, and a
      field likewise (which may contain commas). */
  ghost predicate Clean(p: (string, string)) {
    && CleanEnds(p.0) && CleanEnds(p.1)
    && (forall i :: 0 <= i < |p.0| ==> !IsAngle(p.0[i]) && p.0[i] != ',')
    && (forall i :: 0 <= i < |p.1| ==> !IsAngle(p.1[i]))
  }

  ghost predicate AllClean(pairs: seq<(string, string)>) {
    pairs != [] && forall i :: 0 <= i < |pairs| ==> Clean(pairs[i])
  }

  lemma {:induction false} SplitFirst(a: string, rest: string)
    requires forall i :: 0 <= i < |a| ==> a[i] != '>'
    ensures Split(a + ">,<" + rest, ">,<") == [a] + Split(rest, ">,<")
  {
    var s := a + ">,<" + rest;
    if a == "" {
      assert s[..3] == ">,<" && s[3..] == rest;
    } else {
      assert s[1..] == a[1..] + ">,<" + rest;
      SplitFirst(a[1..], rest);
      assert s[..3][0] == a[0];
      assert [a[0]] + a[1..] == a;
    }
  }

  /** Text without `>` before its last character has nothing to split. */
  lemma {:induction false} SplitNone(s: string)
    requires forall i :: 0 <= i < |s| - 1 ==> s[i] != '>'
    ensures Split(s, ">,<") == [s]
  {
    if s != "" {
      assert |s| >= 3 ==> s[..3][0] == s[0];
      SplitNone(s[1..]);
      assert [s[0]] + s[1..] == s;
    }
  }

  lemma StripClean(s: string)
    requires CleanEnds(s)
    ensures Strip(s, IsSpace) == s
  {
  }

  lemma {:induction false} StripAngles(left: string, s: string, right: string)
    requires s != "" && !IsAngle(s[0]) && !IsAngle(s[|s| - 1])
    requires left == "" || left == "<"
    requires right == "" || right == ">"
    ensures Strip(left + s + right, IsAngle) == s
  {
    var t := left + s + right;
    assert StripLeft(s + right, IsAngle) == s + right;
    if left == "<" {
      assert t[0] == '<' && t[1..] == s + right;
    } else {
      assert t == s + right;
    }
    if right == ">" {
      assert (s + right)[..|s + right| - 1] == s;
    } else {
      assert s + right == s;
    }
    assert StripRight(s, IsAngle) == s;
  }

  lemma {:induction false} FirstComma(a: string, b: string)
    requires forall i :: 0 <= i < |a| ==> a[i] != ','
    ensures CommaAt(a + "," + b) == |a|
  {
    if a != "" {
      assert (a + "," + b)[1..] == a[1..] + "," + b;
      FirstComma(a[1..], b);
    }
  }

  lemma PieceReads(p: (string, string), left: string, right: string)
    requires Clean(p) && (left == "" || left == "<") && (right == "" || right == ">")
    ensures ParsePiece(left + PrintPair(p) + right) == [p]
  {
    var s := PrintPair(p);
    assert s[0] == p.0[0] && s[|s| - 1] == p.1[|p.1| - 1];
    StripAngles(left, s, right);
    StripClean(s);
    FirstComma(p.0, p.1);
    hide CommaAt, Strip, IsSpace;
    assert s[..|p.0|] == p.0 && s[|p.0| + 1..] == p.1;
    StripClean(p.0);
    StripClean(p.1);
  }

  lemma PairHasNoClose(p: (string, string), left: string)
    requires Clean(p) && (left == "" || left == "<")
    ensures forall i :: 0 <= i < |left + PrintPair(p)| ==> (left + PrintPair(p))[i] != '>'
  {
    var s := left + PrintPair(p);
    forall i | 0 <= i < |s|
      ensures s[i] != '>'
    {
      var j := i - |left|;
      if j >= 0 {
        assert s[i] == PrintPair(p)[j];
        assert j > |p.0| ==> s[i] == p.1[j - |p.0| - 1];
      }
    }
  }

  lemma {:induction false} InnerReads(pairs: seq<(string, string)>, left: string)
    requires AllClean(pairs)
    requires left == "" || left == "<"
    ensures ParsePieces(Split(left + PrintInner(pairs) + ">", ">,<")) == pairs
    decreases |pairs|
  {
    hide ParsePiece, Split, PrintPair, Clean;
    var p := pairs[0];
    var head := left + PrintPair(p);
    PairHasNoClose(p, left);
    if |pairs| == 1 {
      var s := head + ">";
      assert s == left + PrintInner(pairs) + ">";
      SplitNone(s);
      PieceReads(p, left, ">");
      assert [s][1..] == [];
      assert pairs == [p];
    } else {
      var rest := PrintInner(pairs[1..]) + ">";
      assert left + PrintInner(pairs) + ">" == head + ">,<" + rest;
      SplitFirst(head, rest);
      assert "" + rest == rest;
      assert "" + PrintInner(pairs[1..]) + ">" == rest;
      InnerReads(pairs[1..], "");
      var pieces := Split(rest, ">,<");
      assert ([head] + pieces)[1..] == pieces;
      assert head + "" == head;
      PieceReads(p, left, "");
      assert [p] + pairs[1..] == pairs;
    }
  }

  /** Main result: parsing undoes printing, for every non-empty list of clean pairs. */
  lemma ParseUndoesPrint(pairs: seq<(string, string)>)
    requires AllClean(pairs)
    ensures ParsePieces(Split(Print(pairs), ">,<")) == pairs
  {
    InnerReads(pairs, "<");
  }

  lemma PrintedIsRead(text: string)
    ensures forall pairs :: AllClean(pairs) && text == Print(pairs) ==> ParsePieces(Split(text, ">,<")) == pairs
  {
    forall pairs | AllClean(pairs) && text == Print(pairs)
      ensures ParsePieces(Split(text, ">,<")) == pairs
    {
      ParseUndoesPrint(pairs);
    }
  }

  /** The parsing loop of both deletes: it reads back every printed list. */
  method ParseCascades(text: string) returns (configs: seq<(string, string)>)
    ensures configs == ParsePieces(Split(text, ">,<"))
    ensures forall pairs :: AllClean(pairs) && text == Print(pairs) ==> configs == pairs
  {
    PrintedIsRead(text);
    hide ParsePiece, Print, AllClean, Split;
    configs := [];
    var pieces := Split(text, ">,<");
    for n := 0 to |pieces|
      invariant configs + ParsePieces(pieces[n..]) == ParsePieces(pieces)
    {
      ghost var before := configs;
      configs := ParseOne(pieces[n], configs);
      assert pieces[n..][1..] == pieces[n + 1..];
      assert configs + ParsePieces(pieces[n + 1..]) == before + ParsePieces(pieces[n..]);
    }
  }
}
