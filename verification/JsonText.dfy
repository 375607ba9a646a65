/**
 The text that Go's json.MarshalIndent(v, "", "  ") produces, and its size in bytes.

 A value is rendered as section 4 to section 7 of RFC 8259 prescribe, on several lines
 with two spaces for each level of nesting, empty arrays and objects on one line, and
 with Go's additional escapes for '<', '>', '&', U+2028 and U+2029.
 */
module JsonText {
  import opened Wrappers
  import opened Text

  datatype Json =
    | Null
    | Bool(b: bool)
    | Num(n: nat)
    | Str(s: string)
    | Arr(items: seq<Json>)
    | Obj(fields: seq<Field>)

  datatype Field = Field(key: string, value: Json)

  // ----- Members of an object --------------------------------------------

  /** The value under a key of a parsed object, if there. */
  function Get(fields: seq<Field>, key: string): Option<Json> {
    if fields == [] then None
    else if fields[|fields| - 1].key == key then Some(fields[|fields| - 1].value)
    else Get(fields[..|fields| - 1], key)
  }

  lemma GetConcat(a: seq<Field>, b: seq<Field>, key: string)
    ensures Get(a + b, key) == if Get(b, key).Some? then Get(b, key) else Get(a, key)
    decreases |b|
  {
    if b == [] {
      assert a + b == a;
    } else {
      var n := |b| - 1;
      assert (a + b)[..|a + b| - 1] == a + b[..n];
      GetConcat(a, b[..n], key);
    }
  }

  lemma GetLast(before: seq<Field>, last: Field, key: string)
    ensures Get(before + [last], key) == if last.key == key then Some(last.value) else Get(before, key)
  {
    assert (before + [last])[..|before|] == before;
  }

  lemma GetOfOne(f: Field, key: string)
    ensures Get([f], key) == if f.key == key then Some(f.value) else None
  {
    assert [f][..0] == [];
  }

  lemma {:induction false} GetNone(fields: seq<Field>, key: string)
    ensures Get(fields, key).None? <==> forall i :: 0 <= i < |fields| ==> fields[i].key != key
  {
    if fields == [] {
    } else {
      var n := |fields| - 1;
      GetNone(fields[..n], key);
      assert forall i :: 0 <= i < n ==> fields[..n][i] == fields[i];
    }
  }

  /** The i-th member is the last one of its key. */
  ghost predicate IsLastOf(fields: seq<Field>, i: nat, key: string) {
    i < |fields| && fields[i].key == key && forall j :: i < j < |fields| ==> fields[j].key != key
  }

  /** Among members of the same key the last one counts. */
  lemma {:induction false} GetMeaning(fields: seq<Field>, key: string, value: Json)
    ensures Get(fields, key) == Some(value) <==>
            exists i: nat :: IsLastOf(fields, i, key) && fields[i].value == value
  {
    if fields == [] {
    } else {
      var n := |fields| - 1;
      if fields[n].key == key {
        assert IsLastOf(fields, n, key);
      } else {
        GetMeaning(fields[..n], key, value);
        if i: nat :| IsLastOf(fields[..n], i, key) && fields[..n][i].value == value {
          assert IsLastOf(fields, i, key);
        }
        if i: nat :| IsLastOf(fields, i, key) && fields[i].value == value {
          assert IsLastOf(fields[..n], i, key);
        }
      }
    }
  }

  // ----- The rendered text ----------------------------------------------

  function HexDigit(d: nat): char
    requires d < 16
  {
    if d < 10 then ('0' as int + d) as char else ('a' as int + (d - 10)) as char
  }

  /** The six-byte escape of a code point below 0x10000. */
  function UnicodeEscape(code: nat): (s: string)
    requires code < 0x1_0000
    ensures |s| == 6 && forall i :: 0 <= i < |s| ==> s[i] < '\U{0080}'
  {
    ['\\', 'u', HexDigit(code / 0x1000), HexDigit(code / 0x100 % 0x10),
     HexDigit(code / 0x10 % 0x10), HexDigit(code % 0x10)]
  }

  predicate HasShortEscape(c: char) {
    c == '"' || c == '\\' || c == '\U{0008}' || c == '\U{000c}' || c == '\n' || c == '\r' || c == '\t'
  }

  predicate HasUnicodeEscape(c: char) {
    !HasShortEscape(c) &&
    (c < ' ' || c == '<' || c == '>' || c == '&' || c == '\U{2028}' || c == '\U{2029}')
  }

  function ShortEscape(c: char): (s: string)
    requires HasShortEscape(c)
    ensures |s| == 2 && s[0] < '\U{0080}' && s[1] < '\U{0080}'
  {
    ['\\',
     match c
     case '"' => '"'
     case '\\' => '\\'
     case '\U{0008}' => 'b'
     case '\U{000c}' => 'f'
     case '\n' => 'n'
     case '\r' => 'r'
     case _ => 't']
  }

  function EscapedChar(c: char): string {
    if HasShortEscape(c) then ShortEscape(c)
    else if HasUnicodeEscape(c) then UnicodeEscape(c as int)
    else [c]
  }

  function Escaped(s: string): string {
    if s == "" then "" else Escaped(s[..|s| - 1]) + EscapedChar(s[|s| - 1])
  }

  function Quoted(s: string): string {
    "\"" + Escaped(s) + "\""
  }

  function Indent(depth: nat): string {
    if depth == 0 then "" else Indent(depth - 1) + "  "
  }

  function LineBreak(depth: nat): string {
    "\n" + Indent(depth)
  }

  function Render(v: Json, depth: nat): string
    decreases v
  {
    match v
    case Null => "null"
    case Bool(b) => if b then "true" else "false"
    case Num(n) => Decimal(n)
    case Str(s) => Quoted(s)
    case Arr(items) =>
      if items == [] then "[]"
      else "[" + ArrayBody(items, depth + 1) + LineBreak(depth) + "]"
    case Obj(fields) =>
      if fields == [] then "{}"
      else "{" + ObjectBody(fields, depth + 1) + LineBreak(depth) + "}"
  }

  function Comma(position: nat): string {
    if position == 0 then "" else ","
  }

  function ArrayBody(items: seq<Json>, depth: nat): string
    decreases items
  {
    if items == [] then ""
    else
      var n := |items| - 1;
      ArrayBody(items[..n], depth) + Comma(n) + LineBreak(depth) + Render(items[n], depth)
  }

  function ObjectBody(fields: seq<Field>, depth: nat): string
    decreases fields
  {
    if fields == [] then ""
    else
      var n := |fields| - 1;
      ObjectBody(fields[..n], depth) + Comma(n) + LineBreak(depth) +
      Quoted(fields[n].key) + ": " + Render(fields[n].value, depth)
  }

  // ----- Its size in bytes ----------------------------------------------

  function EscapedCharBytes(c: char): nat {
    if HasShortEscape(c) then 2
    else if HasUnicodeEscape(c) then 6
    else CharBytes(c)
  }

  function EscapedBytes(s: string): nat {
    if s == "" then 0 else EscapedBytes(s[..|s| - 1]) + EscapedCharBytes(s[|s| - 1])
  }

  function Size(v: Json, depth: nat): nat
    decreases v
  {
    match v
    case Null => 4
    case Bool(b) => if b then 4 else 5
    case Num(n) => |Decimal(n)|
    case Str(s) => EscapedBytes(s) + 2
    case Arr(items) => if items == [] then 2 else ElementsSize(items, depth + 1) + 2 * depth + 3
    case Obj(fields) => if fields == [] then 2 else MembersSize(fields, depth + 1) + 2 * depth + 3
  }

  function ElementsSize(items: seq<Json>, depth: nat): nat
    decreases items
  {
    if items == [] then 0
    else
      var n := |items| - 1;
      ElementsSize(items[..n], depth) + (if n == 0 then 0 else 1) + 2 * depth + 1 + Size(items[n], depth)
  }

  function MembersSize(fields: seq<Field>, depth: nat): nat
    decreases fields
  {
    if fields == [] then 0
    else
      var n := |fields| - 1;
      MembersSize(fields[..n], depth) + (if n == 0 then 0 else 1) + 2 * depth + 1 +
      EscapedBytes(fields[n].key) + 4 + Size(fields[n].value, depth)
  }

  lemma {:induction false} EscapedSize(s: string)
    ensures ByteLen(Escaped(s)) == EscapedBytes(s)
  {
    if s == "" {
    } else {
      var n := |s| - 1;
      EscapedSize(s[..n]);
      ByteLenConcat(Escaped(s[..n]), EscapedChar(s[n]));
      if HasShortEscape(s[n]) || HasUnicodeEscape(s[n]) {
        ByteLenAscii(EscapedChar(s[n]));
      } else {
        assert EscapedChar(s[n])[..0] == "";
      }
    }
  }

  lemma QuotedSize(s: string)
    ensures ByteLen(Quoted(s)) == EscapedBytes(s) + 2
  {
    EscapedSize(s);
    ByteLenConcat("\"" + Escaped(s), "\"");
    ByteLenConcat("\"", Escaped(s));
    ByteLenAscii("\"");
  }

  lemma {:induction false} LineSize(depth: nat)
    ensures ByteLen(LineBreak(depth)) == 2 * depth + 1
  {
    ByteLenConcat("\n", Indent(depth));
    ByteLenAscii("\n");
    if depth > 0 {
      LineSize(depth - 1);
      ByteLenConcat("\n", Indent(depth - 1));
      ByteLenConcat(Indent(depth - 1), "  ");
      ByteLenAscii("  ");
    } else {
      ByteLenAscii("");
    }
  }

  lemma CommaSize(position: nat)
    ensures ByteLen(Comma(position)) == if position == 0 then 0 else 1
  {
    ByteLenAscii(Comma(position));
  }

  lemma LiteralSizes()
    ensures ByteLen("null") == 4 && ByteLen("true") == 4 && ByteLen("false") == 5
    ensures ByteLen("[]") == 2 && ByteLen("{}") == 2
  {
    ByteLenAscii("null");
    ByteLenAscii("true");
    ByteLenAscii("false");
    ByteLenAscii("[]");
    ByteLenAscii("{}");
  }

  /** The arithmetic size is the UTF-8 length of the rendered text. */
  lemma {:induction false} SizeIsByteLength(v: Json, depth: nat)
    ensures ByteLen(Render(v, depth)) == Size(v, depth)
    decreases v, 1
  {
    match v
    case Null => LiteralSizes();
    case Bool(b) => LiteralSizes();
    case Num(n) => ByteLenAscii(Decimal(n));
    case Str(s) => QuotedSize(s);
    case Arr(items) => ArraySizeIsByteLength(v, depth);
    case Obj(fields) => ObjectSizeIsByteLength(v, depth);
  }

  lemma BracketedSize(open: string, body: string, depth: nat, close: string)
    requires |open| == 1 && open[0] < '\U{0080}' && |close| == 1 && close[0] < '\U{0080}'
    ensures ByteLen(open + body + LineBreak(depth) + close) == ByteLen(body) + 2 * depth + 3
  {
    ByteLenConcat(open + body + LineBreak(depth), close);
    ByteLenConcat(open + body, LineBreak(depth));
    ByteLenConcat(open, body);
    LineSize(depth);
    ByteLenAscii(open);
    ByteLenAscii(close);
  }

  lemma {:induction false} ArraySizeIsByteLength(v: Json, depth: nat)
    requires v.Arr?
    ensures ByteLen(Render(v, depth)) == Size(v, depth)
    decreases v, 0
  {
    if v.items == [] {
      LiteralSizes();
    } else {
      ElementsSizeIsByteLength(v.items, depth + 1);
      BracketedSize("[", ArrayBody(v.items, depth + 1), depth, "]");
    }
  }

  lemma {:induction false} ObjectSizeIsByteLength(v: Json, depth: nat)
    requires v.Obj?
    ensures ByteLen(Render(v, depth)) == Size(v, depth)
    decreases v, 0
  {
    if v.fields == [] {
      LiteralSizes();
    } else {
      MembersSizeIsByteLength(v.fields, depth + 1);
      BracketedSize("{", ObjectBody(v.fields, depth + 1), depth, "}");
    }
  }

  lemma {:induction false} ElementsSizeIsByteLength(items: seq<Json>, depth: nat)
    ensures ByteLen(ArrayBody(items, depth)) == ElementsSize(items, depth)
    decreases items
  {
    if items == [] {
    } else {
      var n := |items| - 1;
      var before := ArrayBody(items[..n], depth);
      ElementsSizeIsByteLength(items[..n], depth);
      SizeIsByteLength(items[n], depth);
      ByteLenConcat(before + Comma(n) + LineBreak(depth), Render(items[n], depth));
      ByteLenConcat(before + Comma(n), LineBreak(depth));
      ByteLenConcat(before, Comma(n));
      LineSize(depth);
      CommaSize(n);
    }
  }

  lemma ConcatSizes(a: string, b: string, c: string, d: string, e: string, f: string)
    ensures ByteLen(a + b + c + d + e + f) ==
            ByteLen(a) + ByteLen(b) + ByteLen(c) + ByteLen(d) + ByteLen(e) + ByteLen(f)
  {
    ByteLenConcat(a + b + c + d + e, f);
    ByteLenConcat(a + b + c + d, e);
    ByteLenConcat(a + b + c, d);
    ByteLenConcat(a + b, c);
    ByteLenConcat(a, b);
  }

  lemma ColonSize()
    ensures ByteLen(": ") == 2
  {
    ByteLenAscii(": ");
  }

  lemma {:induction false} MembersSizeIsByteLength(fields: seq<Field>, depth: nat)
    ensures ByteLen(ObjectBody(fields, depth)) == MembersSize(fields, depth)
    decreases fields
  {
    if fields == [] {
    } else {
      var n := |fields| - 1;
      MembersSizeIsByteLength(fields[..n], depth);
      SizeIsByteLength(fields[n].value, depth);
      ConcatSizes(ObjectBody(fields[..n], depth), Comma(n), LineBreak(depth), Quoted(fields[n].key), ": ",
                  Render(fields[n].value, depth));
      LineSize(depth);
      CommaSize(n);
      QuotedSize(fields[n].key);
      ColonSize();
    }
  }

  // ----- Order on sizes -------------------------------------------------

  /** Cutting a string at a code point never makes its encoding longer. */
  lemma {:induction false} EscapedBytesPrefix(s: string, m: nat, n: nat)
    requires m <= n <= |s|
    ensures EscapedBytes(s[..m]) <= EscapedBytes(s[..n])
    decreases n
  {
    if m < n {
      assert s[..n][..n - 1] == s[..n - 1];
      EscapedBytesPrefix(s, m, n - 1);
    }
  }

  /** Dropping trailing elements never makes an array's body longer. */
  lemma {:induction false} ElementsSizePrefix(items: seq<Json>, m: nat, n: nat, depth: nat)
    requires m <= n <= |items|
    ensures ElementsSize(items[..m], depth) <= ElementsSize(items[..n], depth)
    decreases n
  {
    if m < n {
      assert items[..n][..n - 1] == items[..n - 1];
      ElementsSizePrefix(items, m, n - 1, depth);
    }
  }

  /** ... and so never the array itself, the one-line empty form included. */
  lemma ArrayPrefixNoLarger(items: seq<Json>, m: nat, n: nat, depth: nat)
    requires m <= n <= |items|
    ensures Size(Arr(items[..m]), depth) <= Size(Arr(items[..n]), depth)
  {
    ElementsSizePrefix(items, m, n, depth + 1);
  }

  lemma {:induction false} ElementsSizePointwise(a: seq<Json>, b: seq<Json>, depth: nat)
    requires |a| == |b|
    requires forall i :: 0 <= i < |a| ==> Size(a[i], depth) <= Size(b[i], depth)
    ensures ElementsSize(a, depth) <= ElementsSize(b, depth)
  {
    if a == [] {
    } else {
      ElementsSizePointwise(a[..|a| - 1], b[..|b| - 1], depth);
    }
  }

  lemma ArrayPointwiseNoLarger(a: seq<Json>, b: seq<Json>, depth: nat)
    requires |a| == |b|
    requires forall i :: 0 <= i < |a| ==> Size(a[i], depth + 1) <= Size(b[i], depth + 1)
    ensures Size(Arr(a), depth) <= Size(Arr(b), depth)
  {
    ElementsSizePointwise(a, b, depth + 1);
  }

  lemma {:induction false} MembersSizePointwise(a: seq<Field>, b: seq<Field>, depth: nat)
    requires |a| == |b|
    requires forall i :: 0 <= i < |a| ==> a[i].key == b[i].key && Size(a[i].value, depth) <= Size(b[i].value, depth)
    ensures MembersSize(a, depth) <= MembersSize(b, depth)
  {
    if a == [] {
    } else {
      MembersSizePointwise(a[..|a| - 1], b[..|b| - 1], depth);
    }
  }

  /** Replacing an object's values by ones of no larger size keeps it no larger. */
  lemma ObjectPointwiseNoLarger(a: seq<Field>, b: seq<Field>, depth: nat)
    requires |a| == |b|
    requires forall i :: 0 <= i < |a| ==>
                           a[i].key == b[i].key && Size(a[i].value, depth + 1) <= Size(b[i].value, depth + 1)
    ensures Size(Obj(a), depth) <= Size(Obj(b), depth)
  {
    MembersSizePointwise(a, b, depth + 1);
  }

  lemma MembersSizeAppend(fields: seq<Field>, last: Field, depth: nat)
    ensures MembersSize(fields + [last], depth) ==
            MembersSize(fields, depth) + (if fields == [] then 0 else 1) + 2 * depth + 1 +
            EscapedBytes(last.key) + 4 + Size(last.value, depth)
  {
    assert (fields + [last])[..|fields|] == fields;
  }

  /** Replacing one value changes the size by the difference of the two values. */
  lemma {:induction false} MembersSizeReplace(fields: seq<Field>, i: nat, value: Json, depth: nat)
    requires i < |fields|
    ensures MembersSize(fields[i := fields[i].(value := value)], depth) + Size(fields[i].value, depth) ==
            MembersSize(fields, depth) + Size(value, depth)
  {
    var n := |fields| - 1;
    var replaced := fields[i := fields[i].(value := value)];
    if i == n {
      assert replaced[..n] == fields[..n];
    } else {
      assert replaced[..n] == fields[..n][i := fields[i].(value := value)];
      MembersSizeReplace(fields[..n], i, value, depth);
    }
  }

  /** The same for one element of an array's body. */
  lemma {:induction false} ElementsSizeReplace(items: seq<Json>, i: nat, value: Json, depth: nat)
    requires i < |items|
    ensures ElementsSize(items[i := value], depth) + Size(items[i], depth) ==
            ElementsSize(items, depth) + Size(value, depth)
  {
    var n := |items| - 1;
    if i == n {
      assert items[i := value][..n] == items[..n];
    } else {
      assert items[i := value][..n] == items[..n][i := value];
      ElementsSizeReplace(items[..n], i, value, depth);
    }
  }

  lemma OneMemberNoLarger(key: string, a: Json, b: Json, depth: nat)
    requires Size(a, depth + 1) <= Size(b, depth + 1)
    ensures Size(Obj([Field(key, a)]), depth) <= Size(Obj([Field(key, b)]), depth)
  {
    MembersSizePointwise([Field(key, a)], [Field(key, b)], depth + 1);
  }

  /** Appending a member always adds bytes. */
  lemma ObjectExtensionLarger(fields: seq<Field>, last: Field, depth: nat)
    ensures Size(Obj(fields), depth) < Size(Obj(fields + [last]), depth)
  {
    MembersSizeAppend(fields, last, depth + 1);
  }

  lemma ExtendedMemberLarger(key: string, a: Json, b: Json, last: Field, depth: nat)
    requires Size(a, depth + 1) <= Size(b, depth + 1)
    ensures Size(Obj([Field(key, a)]), depth) < Size(Obj([Field(key, b)] + [last]), depth)
  {
    OneMemberNoLarger(key, a, b, depth);
    ObjectExtensionLarger([Field(key, b)], last, depth);
  }

  /** An object is longer than any one of its values. */
  lemma {:induction false} MemberWithinObject(fields: seq<Field>, i: nat, depth: nat)
    requires i < |fields|
    ensures Size(fields[i].value, depth) < MembersSize(fields, depth)
  {
    var n := |fields| - 1;
    if i < n {
      MemberWithinObject(fields[..n], i, depth);
    }
  }

  /** ... and an array longer than any one of its elements. */
  lemma {:induction false} ElementWithinArray(items: seq<Json>, i: nat, depth: nat)
    requires i < |items|
    ensures Size(items[i], depth) < ElementsSize(items, depth)
  {
    var n := |items| - 1;
    if i < n {
      ElementWithinArray(items[..n], i, depth);
    }
  }

  /** Every code point takes at least one byte in the encoding. */
  lemma {:induction false} EscapedBytesAtLeast(s: string)
    ensures |s| <= EscapedBytes(s)
  {
    if s == "" {
    } else {
      EscapedBytesAtLeast(s[..|s| - 1]);
    }
  }

  /** ASCII text without characters to escape takes exactly one byte for each. */
  lemma {:induction false} EscapedPlain(s: string)
    requires forall i :: 0 <= i < |s| ==> 'a' <= s[i] <= 'z' || s[i] == '_'
    ensures EscapedBytes(s) == |s|
  {
    if s == "" {
    } else {
      EscapedPlain(s[..|s| - 1]);
    }
  }
}
