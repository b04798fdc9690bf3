/** A reader that undoes the canonical printer, so the printed text determines the value. */
module JsonReader {
  import opened TextOrder
  import opened Json

  // ---- the reader ----

  function HexValue(c: char): nat {
    if '0' <= c <= '9' then (c - '0') as nat
    else if 'a' <= c <= 'f' then 10 + (c - 'a') as nat
    else 16
  }

  /** Control characters that section 7 of RFC 8259 gives a two-character escape. */
  predicate HasShortEscape(c: char) {
    c == '\n' || c == '\r' || c == '\t' || c == '\U{08}' || c == '\U{0C}'
  }

  /** Strict: a \u escape is read only where no shorter one exists. */
  function ReadEscape(s: string): Option<(char, string)> {
    if |s| == 0 then None
    else if s[0] == '"' then Some(('"', s[1..]))
    else if s[0] == '\\' then Some(('\\', s[1..]))
    else if s[0] == 'n' then Some(('\n', s[1..]))
    else if s[0] == 'r' then Some(('\r', s[1..]))
    else if s[0] == 't' then Some(('\t', s[1..]))
    else if s[0] == 'b' then Some(('\U{08}', s[1..]))
    else if s[0] == 'f' then Some(('\U{0C}', s[1..]))
    else if |s| >= 5 && s[0] == 'u' && s[1] == '0' && s[2] == '0' && HexValue(s[3]) < 2 && HexValue(s[4]) < 16 then
      var c := (16 * HexValue(s[3]) + HexValue(s[4])) as char;
      if HasShortEscape(c) then None else Some((c, s[5..]))
    else None
  }

  /** Reads the inside of a string literal up to its closing quote. */
  function ReadChars(s: string): (r: Option<(string, string)>)
    ensures r.Some? ==> |r.value.1| < |s|
    decreases |s|
  {
    if |s| == 0 then None
    else if s[0] == '"' then Some(("", s[1..]))
    else
      var head := if s[0] == '\\' then ReadEscape(s[1..]) else Some((s[0], s[1..]));
      match head
      case None => None
      case Some((c, rest)) =>
        match ReadChars(rest)
        case None => None
        case Some((t, rest')) => Some(([c] + t, rest'))
  }

  /** Length of the scalar token at the head of s. */
  function TokenLength(s: string): (n: nat)
    ensures n <= |s|
  {
    if s == "" || IsDelimiter(s[0]) then 0 else 1 + TokenLength(s[1..])
  }

  function ReadScalar(t: string): Json {
    if t == "null" then Null
    else if t == "true" then Bool(true)
    else if t == "false" then Bool(false)
    else match ReadInt(t)
      case Some(n) => Int(n)
      case None => Float(t)
  }

  function ReadValue(s: string): (r: Option<(Json, string)>)
    ensures r.Some? ==> |r.value.1| < |s|
    decreases |s|, 0
  {
    if |s| == 0 then None
    else if s[0] == '"' then
      match ReadChars(s[1..]) case None => None case Some((t, rest)) => Some((Str(t), rest))
    else if s[0] == '[' then
      match ReadItems(s[1..], true) case None => None case Some((items, rest)) => Some((Arr(items), rest))
    else if s[0] == '{' then
      match ReadMembers(s[1..], true) case None => None case Some((ms, rest)) => Some((Obj(ms), rest))
    else
      var n := TokenLength(s);
      if n == 0 then None else Some((ReadScalar(s[..n]), s[n..]))
  }

  function ReadItems(s: string, first: bool): (r: Option<(seq<Json>, string)>)
    ensures r.Some? ==> |r.value.1| < |s|
    decreases |s|, 1
  {
    if |s| == 0 then None
    else if s[0] == ']' then Some(([], s[1..]))
    else if !first && s[0] != ',' then None
    else
      match ReadValue(if first then s else s[1..])
      case None => None
      case Some((v, rest)) =>
        match ReadItems(rest, false)
        case None => None
        case Some((vs, rest')) => Some(([v] + vs, rest'))
  }

  function ReadMembers(s: string, first: bool): (r: Option<(seq<Entry<Json>>, string)>)
    ensures r.Some? ==> |r.value.1| < |s|
    decreases |s|, 1
  {
    if |s| == 0 then None
    else if s[0] == '}' then Some(([], s[1..]))
    else if !first && s[0] != ',' then None
    else
      match ReadMember(if first then s else s[1..])
      case None => None
      case Some((m, rest)) =>
        match ReadMembers(rest, false)
        case None => None
        case Some((ms, rest')) => Some(([m] + ms, rest'))
  }

  /** Reads `"key":value`. */
  function ReadMember(s: string): (r: Option<(Entry<Json>, string)>)
    ensures r.Some? ==> |r.value.1| < |s|
    decreases |s|, 0
  {
    if |s| == 0 || s[0] != '"' then None
    else
      match ReadChars(s[1..])
      case None => None
      case Some((k, colon)) =>
        if |colon| == 0 || colon[0] != ':' then None
        else
          match ReadValue(colon[1..])
          case None => None
          case Some((v, rest)) => Some((Entry(k, v), rest))
  }

  // ---- the round trip ----

  lemma HexReads(d: nat)
    requires d < 16
    ensures HexValue(HexDigit(d)) == d
  {
  }

  /** The control characters without a short escape. */
  lemma UnicodeEscape(c: char)
    requires |EscapeChar(c)| > 2
    ensures c < ' ' && c as nat / 16 < 2 && !HasShortEscape(c)
    ensures EscapeChar(c) == ['\\', 'u', '0', '0', HexDigit(c as nat / 16), HexDigit(c as nat % 16)]
  {
    hide HexDigit;
  }

  lemma ReadUnicodeEscape(c: char, rest: string)
    requires |EscapeChar(c)| > 2
    ensures var s := EscapeChar(c) + rest; s[0] == '\\' && ReadEscape(s[1..]) == Some((c, rest))
  {
    var s := EscapeChar(c) + rest;
    var d, u := c as nat / 16, c as nat % 16;
    UnicodeEscape(c);
    hide EscapeChar, HasShortEscape;
    HexReads(d);
    HexReads(u);
    hide HexValue, HexDigit;
    assert (16 * d + u) as char == c;
    assert s[1..] == ['u', '0', '0', HexDigit(d), HexDigit(u)] + rest;
    assert s[1..][5..] == rest;
  }

  lemma ReadShortEscape(c: char, rest: string)
    requires |EscapeChar(c)| == 2
    ensures var s := EscapeChar(c) + rest; s[0] == '\\' && ReadEscape(s[1..]) == Some((c, rest))
  {
    var s := EscapeChar(c) + rest;
    assert s[1..] == [EscapeChar(c)[1]] + rest;
    assert s[1..][1..] == rest;
  }

  lemma ReadEscapedChar(c: char, rest: string)
    ensures var s := EscapeChar(c) + rest;
      && s[0] != '"'
      && (if s[0] == '\\' then ReadEscape(s[1..]) == Some((c, rest)) else s[0] == c && s[1..] == rest)
  {
    hide ReadEscape;
    if |EscapeChar(c)| == 1 {
      assert EscapeChar(c) == [c] && ([c] + rest)[1..] == rest;
    } else if |EscapeChar(c)| == 2 {
      ReadShortEscape(c, rest);
    } else {
      ReadUnicodeEscape(c, rest);
    }
  }

  lemma {:induction false} ReadEmittedChars(t: string, rest: string)
    ensures ReadChars(EmitChars(t, "\"" + rest)) == Some((t, rest))
  {
    if t == "" {
      assert ("\"" + rest)[1..] == rest;
    } else {
      ReadEmittedChars(t[1..], rest);
      ReadEscapedChar(t[0], EmitChars(t[1..], "\"" + rest));
      assert [t[0]] + t[1..] == t;
    }
  }

  lemma ReadEmittedString(t: string, rest: string)
    ensures EmitString(t, rest)[0] == '"'
    ensures ReadChars(EmitString(t, rest)[1..]) == Some((t, rest))
  {
    ReadEmittedChars(t, rest);
    assert EmitString(t, rest)[1..] == EmitChars(t, "\"" + rest);
  }

  lemma {:induction false} TokenEnds(t: string, rest: string)
    requires forall i :: 0 <= i < |t| ==> !IsDelimiter(t[i])
    requires rest == "" || IsDelimiter(rest[0])
    ensures TokenLength(t + rest) == |t|
  {
    if t == "" {
      assert t + rest == rest;
    } else {
      assert (t + rest)[1..] == t[1..] + rest;
      TokenEnds(t[1..], rest);
    }
  }

  ghost predicate IsScalarText(t: string) {
    && t != "" && t[0] != '"' && t[0] != '[' && t[0] != '{'
    && forall i :: 0 <= i < |t| ==> !IsDelimiter(t[i])
  }

  function ScalarText(v: Json): string
    requires v.Null? || v.Bool? || v.Int? || v.Float?
  {
    match v
    case Null => "null"
    case Bool(b) => if b then "true" else "false"
    case Int(n) => IntText(n)
    case Float(t) => t
  }

  lemma NumberReads(t: string, n: int)
    requires t != "" && forall i :: 0 <= i < |t| ==> t[i] == '-' || IsDigit(t[i])
    requires ReadInt(t) == Some(n)
    ensures IsScalarText(t) && ReadScalar(t) == Int(n)
  {
    hide ReadInt;
    assert t[0] == '-' || IsDigit(t[0]);
    assert t != "null" && t != "true" && t != "false";
  }

  lemma ScalarTextReads(v: Json)
    requires Wf(v) && (v.Null? || v.Bool? || v.Int? || v.Float?)
    ensures IsScalarText(ScalarText(v)) && ReadScalar(ScalarText(v)) == v
  {
    match v
    case Int(n) =>
      ReadIntText(n);
      IntTextChars(n);
      hide IntText, ReadInt, ReadScalar;
      NumberReads(IntText(n), n);
    case _ =>
  }

  /** A printed value never starts with a closing bracket or a comma. */
  lemma EmitHead(v: Json, rest: string)
    requires Wf(v)
    ensures Emit(v, rest) != "" && !IsDelimiter(Emit(v, rest)[0])
  {
    if v.Null? || v.Bool? || v.Int? || v.Float? {
      ScalarTextReads(v);
    }
  }

  lemma ReadToken(t: string, rest: string)
    requires IsScalarText(t) && (rest == "" || IsDelimiter(rest[0]))
    ensures ReadValue(t + rest) == Some((ReadScalar(t), rest))
  {
    hide ReadScalar;
    var s := t + rest;
    TokenEnds(t, rest);
    hide TokenLength;
    assert s[0] == t[0] && s[..|t|] == t && s[|t|..] == rest;
  }

  lemma {:induction false} ReadEmitted(v: Json, rest: string)
    requires Wf(v)
    requires rest == "" || IsDelimiter(rest[0])
    ensures ReadValue(Emit(v, rest)) == Some((v, rest))
    decreases v, 1
  {
    hide ReadScalar, ReadChars, TokenLength;
    var s := Emit(v, rest);
    match v
    case Str(t) =>
      ReadEmittedString(t, rest);
    case Arr(items) =>
      assert s[1..] == EmitItems(items, true, "]" + rest);
      ReadEmittedItems(items, true, rest);
    case Obj(members) =>
      assert s[1..] == EmitMembers(members, true, "}" + rest);
      ReadEmittedMembers(members, true, rest);
    case _ =>
      ScalarTextReads(v);
      assert s == ScalarText(v) + rest;
      ReadToken(ScalarText(v), rest);
  }

  lemma {:induction false} ReadEmittedItems(items: seq<Json>, first: bool, rest: string)
    requires forall i :: 0 <= i < |items| ==> Wf(items[i])
    ensures EmitItems(items, first, "]" + rest) != ""
    ensures !first ==> IsDelimiter(EmitItems(items, first, "]" + rest)[0])
    ensures ReadItems(EmitItems(items, first, "]" + rest), first) == Some((items, rest))
    decreases items, 0
  {
    if items == [] {
      assert ("]" + rest)[1..] == rest;
    } else {
      var more := EmitItems(items[1..], false, "]" + rest);
      var s := EmitItems(items, first, "]" + rest);
      ReadEmittedItems(items[1..], false, rest);
      EmitHead(items[0], more);
      ReadEmitted(items[0], more);
      assert (if first then s else s[1..]) == Emit(items[0], more);
      assert [items[0]] + items[1..] == items;
    }
  }

  lemma {:induction false} ReadEmittedMembers(members: seq<Entry<Json>>, first: bool, rest: string)
    requires forall i :: 0 <= i < |members| ==> Wf(members[i].value)
    ensures EmitMembers(members, first, "}" + rest) != ""
    ensures !first ==> IsDelimiter(EmitMembers(members, first, "}" + rest)[0])
    ensures ReadMembers(EmitMembers(members, first, "}" + rest), first) == Some((members, rest))
    decreases members, 0
  {
    if members == [] {
      assert ("}" + rest)[1..] == rest;
    } else {
      var more := EmitMembers(members[1..], false, "}" + rest);
      var s := EmitMembers(members, first, "}" + rest);
      var m := members[0];
      ReadEmittedMembers(members[1..], false, rest);
      ReadEmitted(m.value, more);
      ReadEmittedString(m.key, ":" + Emit(m.value, more));
      assert (":" + Emit(m.value, more))[1..] == Emit(m.value, more);
      assert (if first then s else s[1..]) == EmitString(m.key, ":" + Emit(m.value, more));
      assert Entry(m.key, m.value) == m;
      assert [members[0]] + members[1..] == members;
    }
  }
}
