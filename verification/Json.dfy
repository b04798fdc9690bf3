/** JSON values, the canonical printer of the audit chain, and what it means for
    two values to be equal up to dict order, with JSON types kept. */
module Json {
  import opened TextOrder

  /** A Python value that `json.dumps` accepts, with string keys. A float enters
      as its `repr` text. An object keeps its members in insertion order. */
  datatype Json =
    | Null
    | Bool(b: bool)
    | Int(n: int)
    | Float(text: string)
    | Str(s: string)
    | Arr(items: seq<Json>)
    | Obj(members: seq<Entry<Json>>)

  datatype Option<+T> = None | Some(value: T)

  // ---- integers ----

  function Digit(d: nat): char
    requires d < 10
  {
    "0123456789"[d]
  }

  predicate IsDigit(c: char) {
    '0' <= c <= '9'
  }

  function Decimal(n: nat): (r: string)
    ensures |r| > 0 && forall i :: 0 <= i < |r| ==> IsDigit(r[i])
  {
    if n < 10 then [Digit(n)] else Decimal(n / 10) + [Digit(n % 10)]
  }

  function IntText(n: int): string {
    if n < 0 then "-" + Decimal(-n) else Decimal(n)
  }

  function ReadNat(t: string): Option<int> {
    if t == "" then None
    else if !IsDigit(t[|t| - 1]) then None
    else if |t| == 1 then Some((t[0] - '0') as nat)
    else match ReadNat(t[..|t| - 1])
      case None => None
      case Some(q) => Some(10 * q + (t[|t| - 1] - '0') as nat)
  }

  function ReadInt(t: string): Option<int> {
    if t != "" && t[0] == '-' then
      match ReadNat(t[1..]) case None => None case Some(n) => Some(-n)
    else ReadNat(t)
  }

  lemma {:induction false} ReadDecimal(n: nat)
    ensures ReadNat(Decimal(n)) == Some(n)
  {
    if n >= 10 {
      ReadDecimal(n / 10);
      assert Decimal(n)[..|Decimal(n)| - 1] == Decimal(n / 10);
    }
  }

  lemma ReadIntText(n: int)
    ensures ReadInt(IntText(n)) == Some(n)
  {
    var digits := Decimal(if n < 0 then -n else n);
    ReadDecimal(if n < 0 then -n else n);
    var t := IntText(n);
    if n < 0 {
      assert t == ['-'] + digits;
      assert t[0] == '-' && t[1..] == digits;
    } else {
      assert t == digits && IsDigit(t[0]);
    }
  }

  lemma IntTextChars(n: int)
    ensures IntText(n) != "" && forall i :: 0 <= i < |IntText(n)| ==> IntText(n)[i] == '-' || IsDigit(IntText(n)[i])
  {
    hide Decimal;
    var digits := Decimal(if n < 0 then -n else n);
    if n < 0 {
      assert forall i :: 1 <= i < |IntText(n)| ==> IntText(n)[i] == digits[i - 1];
    }
  }

  function Pow10(w: nat): nat {
    if w == 0 then 1 else 10 * Pow10(w - 1)
  }

  /** Decimal text of n, zero-padded to w digits. */
  function Pad(n: nat, w: nat): (r: string)
    ensures |r| == w
  {
    if w == 0 then "" else Pad(n / 10, w - 1) + [Digit(n % 10)]
  }

  lemma {:induction false} PadInjective(n: nat, m: nat, w: nat)
    requires n < Pow10(w) && m < Pow10(w)
    requires Pad(n, w) == Pad(m, w)
    ensures n == m
  {
    if w > 0 {
      assert Pad(n, w)[..w - 1] == Pad(n / 10, w - 1) && Pad(m, w)[..w - 1] == Pad(m / 10, w - 1);
      assert Digit(n % 10) == Pad(n, w)[w - 1] == Pad(m, w)[w - 1] == Digit(m % 10);
      PadInjective(n / 10, m / 10, w - 1);
    }
  }

  predicate AllDigits(t: string) {
    t != "" && forall i :: 0 <= i < |t| ==> '0' <= t[i] <= '9'
  }

  lemma DigitReads(d: nat)
    requires d < 10
    ensures IsDigit(Digit(d)) && (Digit(d) - '0') as nat == d
  {
  }

  lemma DigitPrints(c: char)
    requires IsDigit(c)
    ensures (c - '0') as nat < 10 && Digit((c - '0') as nat) == c
  {
  }

  lemma PadStep(q: nat, d: nat, w: nat)
    requires d < 10
    ensures Pad(10 * q + d, w + 1) == Pad(q, w) + [Digit(d)]
  {
    hide Digit;
    assert (10 * q + d) / 10 == q && (10 * q + d) % 10 == d;
  }

  lemma PadOne(d: nat)
    requires d < 10
    ensures Pad(d, 1) == [Digit(d)]
  {
    hide Digit;
    PadStep(0, d, 0);
    assert Pad(0, 0) == "" && "" + [Digit(d)] == [Digit(d)];
  }

  /** Exactly the digit strings are numbers, and padding the number to their length gives
      them back. */
  lemma {:induction false} ReadNatIff(t: string)
    ensures ReadNat(t).Some? <==> AllDigits(t)
    ensures ReadNat(t).Some? ==> ReadNat(t).value >= 0 && Pad(ReadNat(t).value, |t|) == t
  {
    hide Digit, Pad;
    if |t| >= 1 && IsDigit(t[|t| - 1]) {
      var (init, c) := (t[..|t| - 1], t[|t| - 1]);
      assert t == init + [c];
      DigitPrints(c);
      if |t| == 1 {
        PadOne((c - '0') as nat);
      } else {
        ReadNatIff(init);
        if ReadNat(init).Some? {
          PadStep(ReadNat(init).value, (c - '0') as nat, |t| - 1);
        }
      }
    }
  }

  /** Decimal positions: a digit appended makes ten times the number plus the digit. */
  lemma ReadNatSnoc(t: string, c: char)
    requires AllDigits(t) && '0' <= c <= '9'
    ensures ReadNat([c]) == Some(c as int - '0' as int)
    ensures ReadNat(t).Some? && ReadNat(t + [c]) == Some(10 * ReadNat(t).value + (c as int - '0' as int))
  {
    ReadNatIff(t);
    assert (t + [c])[..|t + [c]| - 1] == t;
  }

  lemma {:induction false} ReadPad(n: nat, w: nat)
    requires n < Pow10(w) && w > 0
    ensures ReadNat(Pad(n, w)) == Some(n)
  {
    hide Digit;
    DigitReads(n % 10);
    if w == 1 {
      PadOne(n);
    } else {
      ReadPad(n / 10, w - 1);
      PadStep(n / 10, n % 10, w - 1);
      assert n == 10 * (n / 10) + n % 10;
      hide Pad;
      assert Pad(n, w)[..w - 1] == Pad(n / 10, w - 1);
    }
  }

  /** No decimal text starts with a zero but that of 0. */
  lemma {:induction false} NoLeadingZero(n: nat)
    ensures Decimal(n)[0] == '0' <==> n == 0
  {
    if n >= 10 {
      NoLeadingZero(n / 10);
    }
  }

  // ---- well-formedness: dict keys are distinct, float texts are number tokens ----

  predicate IsDelimiter(c: char) {
    c == ',' || c == ']' || c == '}'
  }

  predicate FloatToken(t: string) {
    && t != "" && t != "null" && t != "true" && t != "false"
    && t[0] != '"' && t[0] != '[' && t[0] != '{'
    && (forall i :: 0 <= i < |t| ==> !IsDelimiter(t[i]) && t[i] != '|')
    && ReadInt(t).None?
  }

  ghost predicate Wf(v: Json) {
    match v
    case Float(t) => FloatToken(t)
    case Arr(items) => forall i :: 0 <= i < |items| ==> Wf(items[i])
    case Obj(members) =>
      && DistinctKeys(members)
      && forall i :: 0 <= i < |members| ==> Wf(members[i].value)
    case _ => true
  }

  ghost function KeySet<V>(members: seq<Entry<V>>): set<string> {
    set i | 0 <= i < |members| :: members[i].key
  }

  /** Equal up to dict order: lists element by element, dicts key by key in any order.
      JSON types are kept, so that `1`, `1.0` and `true` differ. */
  ghost predicate Same(v: Json, w: Json) {
    match (v, w)
    case (Arr(a), Arr(b)) => |a| == |b| && forall i :: 0 <= i < |a| ==> Same(a[i], b[i])
    case (Obj(a), Obj(b)) =>
      && KeySet(a) == KeySet(b)
      && forall i, j :: 0 <= i < |a| && 0 <= j < |b| && a[i].key == b[j].key ==> Same(a[i].value, b[j].value)
    case (_, _) => v == w
  }

  // ---- the printer; `rest` is the text that follows ----

  function HexDigit(d: nat): char
    requires d < 16
  {
    "0123456789abcdef"[d]
  }

  /** The escapes of `json.dumps(ensure_ascii=False)`: quote, backslash, the five
      short escapes, and \u00XX in lower-case hex for the other control characters. */
  function EscapeChar(c: char): string {
    if c == '"' then "\\\""
    else if c == '\\' then "\\\\"
    else if c == '\n' then "\\n"
    else if c == '\r' then "\\r"
    else if c == '\t' then "\\t"
    else if c == '\U{08}' then "\\b"
    else if c == '\U{0C}' then "\\f"
    else if c < ' ' then "\\u00" + [HexDigit(c as nat / 16), HexDigit(c as nat % 16)]
    else [c]
  }

  function EmitChars(s: string, rest: string): string {
    if s == "" then rest else EscapeChar(s[0]) + EmitChars(s[1..], rest)
  }

  function EmitString(s: string, rest: string): string {
    "\"" + EmitChars(s, "\"" + rest)
  }

  function Emit(v: Json, rest: string): string
    decreases v, 1
  {
    match v
    case Null => "null" + rest
    case Bool(b) => (if b then "true" else "false") + rest
    case Int(n) => IntText(n) + rest
    case Float(t) => t + rest
    case Str(s) => EmitString(s, rest)
    case Arr(items) => "[" + EmitItems(items, true, "]" + rest)
    case Obj(members) => "{" + EmitMembers(members, true, "}" + rest)
  }

  function EmitItems(items: seq<Json>, first: bool, rest: string): string
    decreases items, 0
  {
    if items == [] then rest
    else (if first then "" else ",") + Emit(items[0], EmitItems(items[1..], false, rest))
  }

  function EmitMembers(members: seq<Entry<Json>>, first: bool, rest: string): string
    decreases members, 0
  {
    if members == [] then rest
    else
      (if first then "" else ",")
      + EmitString(members[0].key, ":" + Emit(members[0].value, EmitMembers(members[1..], false, rest)))
  }

  // ---- sort_keys: every object, at every depth, has its members sorted by key ----

  function SortKeys(v: Json): Json
    decreases v, 1
  {
    match v
    case Arr(items) => Arr(SortItems(items))
    case Obj(members) => Obj(Sort(SortMembers(members)))
    case _ => v
  }

  function SortItems(items: seq<Json>): (r: seq<Json>)
    ensures |r| == |items|
    ensures forall i :: 0 <= i < |items| ==> r[i] == SortKeys(items[i])
    decreases items, 0
  {
    if items == [] then [] else [SortKeys(items[0])] + SortItems(items[1..])
  }

  function SortMembers(members: seq<Entry<Json>>): (r: seq<Entry<Json>>)
    ensures |r| == |members|
    ensures forall i :: 0 <= i < |members| ==> r[i] == Entry(members[i].key, SortKeys(members[i].value))
    decreases members, 0
  {
    if members == [] then []
    else [Entry(members[0].key, SortKeys(members[0].value))] + SortMembers(members[1..])
  }

  /** `json.dumps(v, sort_keys=True, separators=(",", ":"), ensure_ascii=False)`. */
  function Canonical(v: Json): string {
    Emit(SortKeys(v), "")
  }
}
