/**
 Unique readability: a rendered document determines the value it was rendered from, so
 a file that holds the text of a payload holds the payload.
 */
module JsonReading {
  import opened Wrappers
  import opened Text
  import opened JsonText

  // ----- Strings --------------------------------------------------------

  lemma ConcatAssociative(a: string, b: string, c: string)
    ensures a + b + c == a + (b + c)
  {
  }

  lemma {:induction false} EscapedFront(c: char, s: string)
    ensures Escaped([c] + s) == EscapedChar(c) + Escaped(s)
  {
    hide EscapedChar;
    var all := [c] + s;
    if s == "" {
      assert all[..0] == "" && all == [c];
    } else {
      var n := |s| - 1;
      assert all[..|all| - 1] == [c] + s[..n];
      EscapedFront(c, s[..n]);
      ConcatAssociative(EscapedChar(c), Escaped(s[..n]), EscapedChar(s[n]));
    }
  }

  // ----- What the escapes mean --------------------------------------------

  function FromHex(c: char): Option<nat> {
    if '0' <= c <= '9' then Some(c as int - '0' as int)
    else if 'a' <= c <= 'f' then Some(c as int - 'a' as int + 10)
    else if 'A' <= c <= 'F' then Some(c as int - 'A' as int + 10)
    else None
  }

  /** The code unit of four hexadecimal digits. */
  function FromHex4(t: string): Option<nat>
    requires |t| == 4
  {
    var a, b, c, d := FromHex(t[0]), FromHex(t[1]), FromHex(t[2]), FromHex(t[3]);
    if a.None? || b.None? || c.None? || d.None? then None
    else Some(((a.value * 0x10 + b.value) * 0x10 + c.value) * 0x10 + d.value)
  }

  /** What a two-character escape stands for, in the table of section 7 of RFC 8259. */
  function Unescaped(c: char): Option<char> {
    match c
    case '"' => Some('"')
    case '\\' => Some('\\')
    case '/' => Some('/')
    case 'b' => Some('\U{0008}')
    case 'f' => Some('\U{000c}')
    case 'n' => Some('\n')
    case 'r' => Some('\r')
    case 't' => Some('\t')
    case _ => None
  }

  /** Reads what stands between two quotes as that section prescribes; no surrogates. */
  function ReadString(t: string): Option<string> {
    if t == "" then Some("")
    else if t[0] == '"' || t[0] < ' ' then None
    else if t[0] != '\\' then
      match ReadString(t[1..]) case None => None case Some(rest) => Some([t[0]] + rest)
    else if |t| >= 6 && t[1] == 'u' then
      var code := FromHex4(t[2..6]);
      if code.None? || code.value >= 0x1_0000 || 0xd800 <= code.value < 0xe000 then None
      else match ReadString(t[6..]) case None => None case Some(rest) => Some([code.value as char] + rest)
    else if |t| >= 2 then
      match Unescaped(t[1])
      case None => None
      case Some(c) => match ReadString(t[2..]) case None => None case Some(rest) => Some([c] + rest)
    else None
  }

  lemma LastDigit(n: nat, before: nat, digit: nat)
    requires before == n / 0x10 && digit == n % 0x10
    ensures before * 0x10 + digit == n
  {
  }

  lemma FourDigits(code: nat)
    requires code < 0x1_0000
    ensures ((code / 0x1000 * 0x10 + code / 0x100 % 0x10) * 0x10 + code / 0x10 % 0x10) * 0x10 + code % 0x10 == code
  {
    LastDigit(code, code / 0x10, code % 0x10);
    LastDigit(code / 0x10, code / 0x100, code / 0x10 % 0x10);
    LastDigit(code / 0x100, code / 0x1000, code / 0x100 % 0x10);
  }

  lemma HexDigitReadsBack(d: nat)
    requires d < 16
    ensures FromHex(HexDigit(d)) == Some(d)
  {
  }

  lemma HexReadsBack(code: nat)
    requires code < 0x1_0000
    ensures FromHex4(UnicodeEscape(code)[2..6]) == Some(code)
  {
    var t := UnicodeEscape(code)[2..6];
    assert t[0] == HexDigit(code / 0x1000) && t[1] == HexDigit(code / 0x100 % 0x10);
    assert t[2] == HexDigit(code / 0x10 % 0x10) && t[3] == HexDigit(code % 0x10);
    hide HexDigit, FromHex;
    HexDigitReadsBack(code / 0x1000);
    HexDigitReadsBack(code / 0x100 % 0x10);
    HexDigitReadsBack(code / 0x10 % 0x10);
    HexDigitReadsBack(code % 0x10);
    FourDigits(code);
  }

  lemma ReadOneChar(c: char, t: string, rest: string)
    requires ReadString(t) == Some(rest)
    ensures ReadString(EscapedChar(c) + t) == Some([c] + rest)
  {
    var all := EscapedChar(c) + t;
    if HasShortEscape(c) {
      assert all[2..] == t && all[0] == '\\' && all[1] == ShortEscape(c)[1] != 'u';
    } else if HasUnicodeEscape(c) {
      HexReadsBack(c as int);
      assert all[6..] == t && all[2..6] == UnicodeEscape(c as int)[2..6];
      assert all[0] == '\\' && all[1] == 'u';
    } else {
      assert all[1..] == t;
    }
  }

  lemma NothingEscaped()
    ensures Escaped("") == "" && ReadString("") == Some("")
  {
  }

  /** A reader of JSON gets every string back from its escaped form. */
  lemma {:induction false} EscapedReadsBack(s: string)
    ensures ReadString(Escaped(s)) == Some(s)
  {
    hide Escaped, EscapedChar, ReadString;
    if s == "" {
      NothingEscaped();
    } else {
      EscapedReadsBack(s[1..]);
      EscapedFront(s[0], s[1..]);
      assert [s[0]] + s[1..] == s;
      ReadOneChar(s[0], Escaped(s[1..]), s[1..]);
    }
  }

  /** What Go escapes besides what it must: the characters that HTML and JavaScript treat apart. */
  predicate IsUnsafe(c: char) {
    c < ' ' || c == '<' || c == '>' || c == '&' || c == '\U{2028}' || c == '\U{2029}'
  }

  lemma OneCharIsSafe(c: char)
    ensures forall i :: 0 <= i < |EscapedChar(c)| ==> !IsUnsafe(EscapedChar(c)[i])
    ensures !IsUnsafe(c) && c != '"' && c != '\\' ==> EscapedChar(c) == [c]
  {
  }

  /** No unsafe character is left, and all others but the quote and the backslash are. */
  lemma {:induction false} EscapedIsSafe(s: string)
    ensures forall i :: 0 <= i < |Escaped(s)| ==> !IsUnsafe(Escaped(s)[i])
    ensures (forall i :: 0 <= i < |s| ==> !IsUnsafe(s[i]) && s[i] != '"' && s[i] != '\\') ==> Escaped(s) == s
  {
    hide EscapedChar, IsUnsafe;
    if s == "" {
    } else {
      var n := |s| - 1;
      EscapedIsSafe(s[..n]);
      OneCharIsSafe(s[n]);
      assert s == s[..n] + [s[n]];
      assert forall i :: 0 <= i < n ==> s[..n][i] == s[i];
    }
  }

  // ----- One text for one string ----------------------------------------

  lemma HexDigitInjective(a: nat, b: nat)
    requires a < 16 && b < 16 && HexDigit(a) == HexDigit(b)
    ensures a == b
  {
  }

  lemma SameQuotientAndDigit(a: nat, b: nat)
    requires a / 0x10 == b / 0x10 && a % 0x10 == b % 0x10
    ensures a == b
  {
  }

  lemma UnicodeEscapeInjective(a: nat, b: nat)
    requires a < 0x1_0000 && b < 0x1_0000 && UnicodeEscape(a) == UnicodeEscape(b)
    ensures a == b
  {
    hide HexDigit;
    var u, v := UnicodeEscape(a), UnicodeEscape(b);
    assert u[2] == v[2] && u[3] == v[3] && u[4] == v[4] && u[5] == v[5];
    HexDigitInjective(a / 0x1000, b / 0x1000);
    HexDigitInjective(a / 0x100 % 0x10, b / 0x100 % 0x10);
    HexDigitInjective(a / 0x10 % 0x10, b / 0x10 % 0x10);
    HexDigitInjective(a % 0x10, b % 0x10);
    SameQuotientAndDigit(a / 0x100, b / 0x100);
    SameQuotientAndDigit(a / 0x10, b / 0x10);
    SameQuotientAndDigit(a, b);
  }

  /** No encoded character is a proper prefix of another one's encoding. */
  lemma EscapedCharUnique(a: char, b: char, x: string, y: string)
    requires EscapedChar(a) + x == EscapedChar(b) + y
    ensures a == b && x == y
  {
    var u, v := EscapedChar(a) + x, EscapedChar(b) + y;
    assert u[0] == v[0];
    if HasShortEscape(a) || HasUnicodeEscape(a) {
      assert u[0] == '\\';
      assert HasShortEscape(b) || HasUnicodeEscape(b);
      assert u[1] == v[1];
      if HasShortEscape(a) {
        assert u[1] == ShortEscape(a)[1] != 'u';
        assert HasShortEscape(b) && v[1] == ShortEscape(b)[1];
        assert x == u[2..] && y == v[2..];
      } else {
        assert u[1] == 'u';
        assert HasUnicodeEscape(b);
        assert UnicodeEscape(a as int) == u[..6] && UnicodeEscape(b as int) == v[..6];
        UnicodeEscapeInjective(a as int, b as int);
        assert x == u[6..] && y == v[6..];
      }
    } else {
      assert u[0] == a;
      assert !HasShortEscape(b) && !HasUnicodeEscape(b);
      assert x == u[1..] && y == v[1..];
    }
  }

  lemma NoQuoteInside(c: char, x: string)
    ensures (EscapedChar(c) + x)[0] != '"'
  {
  }

  lemma EscapedFirst(s: string, x: string)
    requires s != ""
    ensures Escaped(s) + x == EscapedChar(s[0]) + (Escaped(s[1..]) + x)
  {
    hide Escaped, EscapedChar;
    EscapedFront(s[0], s[1..]);
    assert [s[0]] + s[1..] == s;
    ConcatAssociative(EscapedChar(s[0]), Escaped(s[1..]), x);
  }

  /** Only a closing quote starts with one. */
  lemma QuoteFirst(s: string, x: string)
    ensures (Escaped(s) + ("\"" + x))[..1] == "\"" <==> s == ""
  {
    hide EscapedChar;
    if s != "" {
      EscapedFirst(s, "\"" + x);
      NoQuoteInside(s[0], Escaped(s[1..]) + ("\"" + x));
    }
  }

  lemma SameLength(a: string, b: string, x: string, y: string)
    requires a + x == b + y && |a| == |b|
    ensures a == b && x == y
  {
    assert a == (a + x)[..|a|] && b == (b + y)[..|b|];
    assert x == (a + x)[|a|..] && y == (b + y)[|b|..];
  }

  /** A closing quote ends a string at one place only. */
  lemma {:induction false} EscapedUnique(s: string, t: string, x: string, y: string)
    requires Escaped(s) + ("\"" + x) == Escaped(t) + ("\"" + y)
    ensures s == t && x == y
  {
    hide EscapedChar;
    QuoteFirst(s, x);
    QuoteFirst(t, y);
    if s == "" {
      SameLength("", "", "\"" + x, "\"" + y);
      SameLength("\"", "\"", x, y);
    } else {
      EscapedFirst(s, "\"" + x);
      EscapedFirst(t, "\"" + y);
      EscapedCharUnique(s[0], t[0], Escaped(s[1..]) + ("\"" + x), Escaped(t[1..]) + ("\"" + y));
      EscapedUnique(s[1..], t[1..], x, y);
      assert s == [s[0]] + s[1..] && t == [t[0]] + t[1..];
    }
  }

  lemma QuotedText(e: string, x: string)
    ensures "\"" + e + "\"" + x == "\"" + (e + ("\"" + x))
  {
  }

  lemma QuotedUnique(s: string, t: string, x: string, y: string)
    requires Quoted(s) + x == Quoted(t) + y
    ensures s == t && x == y
  {
    hide Escaped;
    var u, v := Escaped(s) + ("\"" + x), Escaped(t) + ("\"" + y);
    QuotedText(Escaped(s), x);
    QuotedText(Escaped(t), y);
    SameLength("\"", "\"", u, v);
    EscapedUnique(s, t, x, y);
  }

  // ----- Numbers --------------------------------------------------------

  /** What can follow a value inside a document: its end, a comma or a line break. */
  predicate Stops(x: string) {
    x == "" || x[0] == ',' || x[0] == '\n'
  }

  /** Two texts that can be told apart, or are the same, whatever follows them. */
  ghost predicate Apart(s: string, t: string) {
    forall p, q :: s + p == t + q && Stops(p) && Stops(q) ==> s == t && p == q
  }

  lemma DigitFollows(a: string, b: string, x: string, y: string)
    requires a + x == b + y && |a| < |b| && forall i :: 0 <= i < |b| ==> '0' <= b[i] <= '9'
    ensures !Stops(x)
  {
    assert (a + x)[|a|] == (b + y)[|a|];
  }

  lemma DecimalUnique(m: nat, n: nat, x: string, y: string)
    requires Decimal(m) + x == Decimal(n) + y && Stops(x) && Stops(y)
    ensures m == n && x == y
  {
    hide Decimal, Stops;
    var a, b := Decimal(m), Decimal(n);
    if |a| < |b| {
      DigitFollows(a, b, x, y);
    } else if |b| < |a| {
      DigitFollows(b, a, y, x);
    } else {
      SameLength(a, b, x, y);
      DecimalInjective(m, n);
    }
  }

  // ----- Lists of texts -------------------------------------------------

  /** The lines between two brackets: a comma before each but the first. */
  function Lines(texts: seq<string>, depth: nat): string {
    if texts == [] then ""
    else
      var n := |texts| - 1;
      Lines(texts[..n], depth) + Comma(n) + LineBreak(depth) + texts[n]
  }

  function Bracketed(open: char, texts: seq<string>, depth: nat, close: char): string {
    if texts == [] then [open] + [close]
    else [open] + Lines(texts, depth + 1) + LineBreak(depth) + [close]
  }

  /** The lines after the first. */
  function More(texts: seq<string>, line: string): string {
    if texts == [] then "" else "," + line + (texts[0] + More(texts[1..], line))
  }

  lemma MoreBackText(a: string, b: string, c: string, line: string, last: string)
    ensures a + (b + (c + "," + line + last)) == a + (b + c) + "," + line + last
  {
  }

  lemma {:induction false} MoreBack(texts: seq<string>, last: string, line: string)
    ensures More(texts + [last], line) == More(texts, line) + "," + line + last
  {
    if texts == [] {
      assert texts + [last] == [last] && [last][1..] == [];
    } else {
      MoreBack(texts[1..], last, line);
      assert (texts + [last])[1..] == texts[1..] + [last];
      MoreBackText("," + line, texts[0], More(texts[1..], line), line, last);
    }
  }

  lemma {:induction false} LinesFront(texts: seq<string>, depth: nat)
    requires texts != []
    ensures Lines(texts, depth) == LineBreak(depth) + (texts[0] + More(texts[1..], LineBreak(depth)))
  {
    hide LineBreak;
    var n := |texts| - 1;
    var line := LineBreak(depth);
    if n == 0 {
      assert texts[..0] == [] && texts[1..] == [];
      assert Lines(texts, depth) == "" + "" + line + texts[0];
    } else {
      LinesFront(texts[..n], depth);
      MoreBack(texts[1..n], texts[n], line);
      assert texts[..n][1..] == texts[1..n] && texts[1..] == texts[1..n] + [texts[n]];
      MoreBackText(line, texts[0], More(texts[1..n], line), line, texts[n]);
    }
  }

  lemma MoreTextParts(a: string, b: string, c: string, rest: string)
    ensures a + (b + c) + rest == a + (b + (c + rest))
  {
  }

  lemma MoreText(texts: seq<string>, line: string, rest: string)
    requires texts != []
    ensures More(texts, line) + rest == "," + line + (texts[0] + (More(texts[1..], line) + rest))
  {
    MoreTextParts("," + line, texts[0], More(texts[1..], line), rest);
  }

  lemma MoreStarts(texts: seq<string>, line: string, rest: string)
    requires rest != "" && rest[0] == '\n'
    ensures var all := More(texts, line) + rest; all != "" && all[0] == if texts == [] then '\n' else ','
    ensures Stops(More(texts, line) + rest)
  {
  }

  lemma ToldApart(s: string, t: string, p: string, q: string)
    requires Apart(s, t) && s + p == t + q && Stops(p) && Stops(q)
    ensures s == t && p == q
  {
  }

  /** Lists that can be told apart element by element can be told apart. */
  lemma {:induction false} MoreUnique(a: seq<string>, b: seq<string>, line: string, p: string, q: string)
    requires forall s, t :: s in a && t in b ==> Apart(s, t)
    requires p != "" && p[0] == '\n' && q != "" && q[0] == '\n'
    requires More(a, line) + p == More(b, line) + q
    ensures a == b && p == q
  {
    hide Apart, Stops;
    MoreStarts(a, line, p);
    MoreStarts(b, line, q);
    if a == [] {
      assert "" + p == p && "" + q == q;
    } else {
      MoreText(a, line, p);
      MoreText(b, line, q);
      var restA, restB := More(a[1..], line) + p, More(b[1..], line) + q;
      SameLength("," + line, "," + line, a[0] + restA, b[0] + restB);
      MoreStarts(a[1..], line, p);
      MoreStarts(b[1..], line, q);
      ToldApart(a[0], b[0], restA, restB);
      MoreUnique(a[1..], b[1..], line, p, q);
      assert a == [a[0]] + a[1..] && b == [b[0]] + b[1..];
    }
  }

  lemma BracketedParts(a: string, b: string, c: string, d: string, e: string, f: string, x: string)
    ensures a + (b + (c + d)) + e + f + x == (a + b) + (c + (d + (e + f + x)))
  {
  }

  lemma BracketedText(open: char, texts: seq<string>, depth: nat, close: char, x: string)
    requires texts != []
    ensures Bracketed(open, texts, depth, close) + x ==
            ([open] + LineBreak(depth + 1)) +
            (texts[0] + (More(texts[1..], LineBreak(depth + 1)) + (LineBreak(depth) + [close] + x)))
  {
    hide Lines, More, LineBreak;
    LinesFront(texts, depth + 1);
    BracketedParts([open], LineBreak(depth + 1), texts[0], More(texts[1..], LineBreak(depth + 1)),
                   LineBreak(depth), [close], x);
  }

  /** Whether a list is empty shows right behind its bracket. */
  lemma BracketedSecond(open: char, texts: seq<string>, depth: nat, close: char, x: string)
    ensures var all := Bracketed(open, texts, depth, close) + x;
            |all| >= 2 && all[1] == if texts == [] then close else '\n'
  {
    if texts != [] {
      BracketedText(open, texts, depth, close, x);
    }
  }

  lemma BracketedUnique(open: char, a: seq<string>, b: seq<string>, depth: nat, close: char, x: string, y: string)
    requires close != '\n'
    requires forall s, t :: s in a && t in b ==> Apart(s, t)
    requires Bracketed(open, a, depth, close) + x == Bracketed(open, b, depth, close) + y
    ensures a == b && x == y
  {
    hide Apart, Stops, Lines;
    BracketedSecond(open, a, depth, close, x);
    BracketedSecond(open, b, depth, close, y);
    if a == [] {
      SameLength([open] + [close], [open] + [close], x, y);
    } else {
      BracketedText(open, a, depth, close, x);
      BracketedText(open, b, depth, close, y);
      var line, p, q := LineBreak(depth + 1), LineBreak(depth) + [close] + x, LineBreak(depth) + [close] + y;
      var restA, restB := More(a[1..], line) + p, More(b[1..], line) + q;
      SameLength([open] + line, [open] + line, a[0] + restA, b[0] + restB);
      MoreStarts(a[1..], line, p);
      MoreStarts(b[1..], line, q);
      ToldApart(a[0], b[0], restA, restB);
      MoreUnique(a[1..], b[1..], line, p, q);
      SameLength(LineBreak(depth) + [close], LineBreak(depth) + [close], x, y);
      assert a == [a[0]] + a[1..] && b == [b[0]] + b[1..];
    }
  }

  // ----- Values ---------------------------------------------------------

  function ElementTexts(items: seq<Json>, depth: nat): (texts: seq<string>)
    ensures |texts| == |items|
  {
    seq(|items|, i requires 0 <= i < |items| => Render(items[i], depth))
  }

  function MemberText(f: Field, depth: nat): string {
    Quoted(f.key) + ": " + Render(f.value, depth)
  }

  function MemberTexts(fields: seq<Field>, depth: nat): (texts: seq<string>)
    ensures |texts| == |fields|
  {
    seq(|fields|, i requires 0 <= i < |fields| => MemberText(fields[i], depth))
  }

  lemma {:induction false} ElementsAreLines(items: seq<Json>, depth: nat)
    ensures ArrayBody(items, depth) == Lines(ElementTexts(items, depth), depth)
  {
    hide Render, LineBreak;
    if items == [] {
    } else {
      var n := |items| - 1;
      ElementsAreLines(items[..n], depth);
      assert ElementTexts(items, depth)[..n] == ElementTexts(items[..n], depth);
    }
  }

  lemma MemberParts(a: string, b: string, c: string, key: string, value: string)
    ensures a + b + c + key + ": " + value == a + b + c + (key + ": " + value)
  {
  }

  lemma {:induction false} MembersAreLines(fields: seq<Field>, depth: nat)
    ensures ObjectBody(fields, depth) == Lines(MemberTexts(fields, depth), depth)
  {
    hide Render, LineBreak, Quoted, Comma;
    if fields == [] {
    } else {
      var n := |fields| - 1;
      MembersAreLines(fields[..n], depth);
      assert MemberTexts(fields, depth)[..n] == MemberTexts(fields[..n], depth);
      MemberParts(ObjectBody(fields[..n], depth), Comma(n), LineBreak(depth),
                  Quoted(fields[n].key), Render(fields[n].value, depth));
    }
  }

  lemma ArrayText(items: seq<Json>, depth: nat)
    ensures Render(Arr(items), depth) == Bracketed('[', ElementTexts(items, depth + 1), depth, ']')
  {
    hide ArrayBody, Lines, LineBreak;
    ElementsAreLines(items, depth + 1);
  }

  lemma ObjectText(fields: seq<Field>, depth: nat)
    ensures Render(Obj(fields), depth) == Bracketed('{', MemberTexts(fields, depth + 1), depth, '}')
  {
    hide ObjectBody, Lines, LineBreak;
    MembersAreLines(fields, depth + 1);
  }

  /** The first character of a value tells its kind. */
  lemma FirstChar(v: Json, depth: nat, x: string)
    ensures Render(v, depth) != ""
    ensures var c := (Render(v, depth) + x)[0];
            match v
            case Null => c == 'n'
            case Bool(b) => c == if b then 't' else 'f'
            case Num(_) => '0' <= c <= '9'
            case Str(_) => c == '"'
            case Arr(_) => c == '['
            case Obj(_) => c == '{'
  {
  }

  /** Two documents with the same text, up to what follows them, are the same value. */
  lemma {:induction false} RenderUnique(u: Json, v: Json, depth: nat, x: string, y: string)
    requires Render(u, depth) + x == Render(v, depth) + y && Stops(x) && Stops(y)
    ensures u == v && x == y
    decreases u, 1
  {
    hide ArrayBody, ObjectBody, Quoted, Decimal, LineBreak;
    FirstChar(u, depth, x);
    FirstChar(v, depth, y);
    match u
    case Null => SameLength(Render(u, depth), Render(v, depth), x, y);
    case Bool(_) => SameLength(Render(u, depth), Render(v, depth), x, y);
    case Num(m) => DecimalUnique(m, v.n, x, y);
    case Str(s) => QuotedUnique(s, v.s, x, y);
    case Arr(_) => ArrayUnique(u, v, depth, x, y);
    case Obj(_) => ObjectUnique(u, v, depth, x, y);
  }

  lemma NothingStops()
    ensures Stops("")
  {
  }

  lemma {:induction false} ArrayUnique(u: Json, v: Json, depth: nat, x: string, y: string)
    requires u.Arr? && v.Arr?
    requires Render(u, depth) + x == Render(v, depth) + y
    ensures u == v && x == y
    decreases u, 0
  {
    hide Render, Lines, Stops;
    var a, b := ElementTexts(u.items, depth + 1), ElementTexts(v.items, depth + 1);
    forall s, t | s in a && t in b ensures Apart(s, t) {
      var i :| 0 <= i < |a| && a[i] == s;
      var j :| 0 <= j < |b| && b[j] == t;
      forall p, q | s + p == t + q && Stops(p) && Stops(q) ensures s == t && p == q {
        RenderUnique(u.items[i], v.items[j], depth + 1, p, q);
      }
    }
    ArrayText(u.items, depth);
    ArrayText(v.items, depth);
    BracketedUnique('[', a, b, depth, ']', x, y);
    forall i | 0 <= i < |u.items| ensures u.items[i] == v.items[i] {
      assert a[i] == b[i];
      NothingStops();
      RenderUnique(u.items[i], v.items[i], depth + 1, "", "");
    }
  }

  lemma MemberShape(key: string, value: string, p: string)
    ensures key + ": " + value + p == key + (": " + (value + p))
  {
  }

  lemma {:induction false} MemberUnique(a: Field, b: Field, depth: nat, x: string, y: string)
    requires MemberText(a, depth) + x == MemberText(b, depth) + y && Stops(x) && Stops(y)
    ensures a == b && x == y
    decreases a, 0
  {
    hide Render, Quoted, Stops;
    var u, v := Render(a.value, depth) + x, Render(b.value, depth) + y;
    MemberShape(Quoted(a.key), Render(a.value, depth), x);
    MemberShape(Quoted(b.key), Render(b.value, depth), y);
    QuotedUnique(a.key, b.key, ": " + u, ": " + v);
    SameLength(": ", ": ", u, v);
    RenderUnique(a.value, b.value, depth, x, y);
  }

  lemma {:induction false} ObjectUnique(u: Json, v: Json, depth: nat, x: string, y: string)
    requires u.Obj? && v.Obj?
    requires Render(u, depth) + x == Render(v, depth) + y
    ensures u == v && x == y
    decreases u, 0
  {
    hide Render, Lines, Stops, MemberText;
    var a, b := MemberTexts(u.fields, depth + 1), MemberTexts(v.fields, depth + 1);
    forall s, t | s in a && t in b ensures Apart(s, t) {
      var i :| 0 <= i < |a| && a[i] == s;
      var j :| 0 <= j < |b| && b[j] == t;
      forall p, q | s + p == t + q && Stops(p) && Stops(q) ensures s == t && p == q {
        MemberUnique(u.fields[i], v.fields[j], depth + 1, p, q);
      }
    }
    ObjectText(u.fields, depth);
    ObjectText(v.fields, depth);
    BracketedUnique('{', a, b, depth, '}', x, y);
    forall i | 0 <= i < |u.fields| ensures u.fields[i] == v.fields[i] {
      assert a[i] == b[i];
      NothingStops();
      MemberUnique(u.fields[i], v.fields[i], depth + 1, "", "");
    }
  }

  /** A document is determined by its text. */
  lemma TextDeterminesValue(u: Json, v: Json)
    requires Render(u, 0) == Render(v, 0)
    ensures u == v
  {
    hide Render;
    NothingStops();
    RenderUnique(u, v, 0, "", "");
  }

  // ----- The layout -----------------------------------------------------

  lemma TwoElements(a: Json, b: Json, depth: nat)
    ensures ArrayBody([a, b], depth) ==
            LineBreak(depth) + Render(a, depth) + "," + LineBreak(depth) + Render(b, depth)
  {
    hide LineBreak, Render;
    var one, two := [a], [a, b];
    assert one[..0] == [] && two[..1] == one;
    assert ArrayBody(one[..0], depth) == "";
    assert ArrayBody(one, depth) == "" + "" + LineBreak(depth) + Render(a, depth);
  }

  lemma TwoMembers(a: Field, b: Field, depth: nat)
    ensures ObjectBody([a, b], depth) ==
            LineBreak(depth) + MemberText(a, depth) + "," + LineBreak(depth) + MemberText(b, depth)
  {
    hide LineBreak, Render, Quoted;
    var one, two := [a], [a, b];
    assert one[..0] == [] && two[..1] == one;
    assert ObjectBody(one[..0], depth) == "";
    assert ObjectBody(one, depth) == LineBreak(depth) + MemberText(a, depth);
  }

  lemma Breaks()
    ensures LineBreak(0) == "\n" && LineBreak(1) == "\n  " && LineBreak(2) == "\n    "
  {
    assert Indent(0) == "" && Indent(1) == "  " && Indent(2) == "    ";
  }

  lemma PlainKeys()
    ensures Quoted("a") == "\"a\"" && Quoted("b") == "\"b\""
  {
    EscapedIsSafe("a");
    EscapedIsSafe("b");
  }

  lemma InnerArray()
    ensures Render(Arr([Num(7), Bool(true)]), 1) == "[\n    7,\n    true\n  ]"
  {
    hide LineBreak, ArrayBody;
    TwoElements(Num(7), Bool(true), 2);
    Breaks();
    DecimalExamples();
  }

  lemma TwoMemberTexts()
    ensures MemberText(Field("a", Arr([Num(7), Bool(true)])), 1) == "\"a\": [\n    7,\n    true\n  ]"
    ensures MemberText(Field("b", Arr([])), 1) == "\"b\": []"
  {
    hide LineBreak, ArrayBody, Quoted;
    InnerArray();
    PlainKeys();
    assert Render(Arr([]), 1) == "[]";
  }

  lemma ObjectOfTwo(a: Field, b: Field, x: string, y: string)
    requires x == MemberText(a, 1) && y == MemberText(b, 1)
    ensures Render(Obj([a, b]), 0) == "{\n  " + x + ",\n  " + y + "\n}"
  {
    hide LineBreak, ObjectBody, MemberText;
    TwoMembers(a, b, 1);
    Breaks();
  }

  /** Two spaces for a level, a line for an element or member, nothing inside empty brackets. */
  lemma LayoutExample()
    ensures Render(Obj([Field("a", Arr([Num(7), Bool(true)])), Field("b", Arr([]))]), 0) ==
            "{\n  \"a\": [\n    7,\n    true\n  ],\n  \"b\": []\n}"
  {
    hide Render, MemberText;
    TwoMemberTexts();
    ObjectOfTwo(Field("a", Arr([Num(7), Bool(true)])), Field("b", Arr([])),
                "\"a\": [\n    7,\n    true\n  ]", "\"b\": []");
  }
}
