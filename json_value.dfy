/**
 * The JSON-like values that extraction records, metadata dictionaries and
 * fact properties are made of, with the Python operations the source applies
 * to them: truthiness, `dict.get`, `repr()` and `str()`.
 */
module JsonValue {
  import opened Text

  /** A Python value as produced by `json.loads`, without floats. */
  datatype Value =
    | Str(s: string)
    | Num(n: int)
    | Bool(b: bool)
    | Null
    | Arr(items: seq<Value>)
    | Obj(fields: map<string, Value>)

  type Dict = map<string, Value>

  /** The empty (false) value of the same type as `v`. */
  function EmptyOf(v: Value): (e: Value)
    ensures e.Str? == v.Str? && e.Num? == v.Num? && e.Bool? == v.Bool?
    ensures e.Null? == v.Null? && e.Arr? == v.Arr? && e.Obj? == v.Obj?
  {
    match v
    case Str(_) => Str([])
    case Num(_) => Num(0)
    case Bool(_) => Bool(false)
    case Null => Null
    case Arr(_) => Arr([])
    case Obj(_) => Obj(map[])
  }

  /** Python truthiness (`if v:` / `v or w`). */
  predicate Truthy(v: Value): (r: bool)
    ensures r <==> v != EmptyOf(v)
    ensures v.Str? ==> (r <==> PyStr(v) != [])
  {
    match v
    case Str(s) => s != []
    case Num(n) => n != 0
    case Bool(b) => b
    case Null => false
    case Arr(xs) => xs != []
    case Obj(m) => m != map[]
  }

  /** Python's `d.get(k, default)`. */
  function Get(d: Dict, k: string, default: Value): (r: Value)
    ensures k in d ==> r == d[k]
    ensures k !in d ==> r == default
  {
    if k in d then d[k] else default
  }

  // ------------------------------------------------------- string literals

  /**
   * How `repr` writes one character of a string quoted with `q`: a backslash
   * before the quote and the backslash, `\t`, `\n`, `\r`, `\xhh` for the other
   * control characters, DEL and the non-printable Latin-1 characters, and
   * the character itself otherwise.
   */
  function EscapeChar(c: char, q: char): (r: string)
    ensures 1 <= |r| <= 4
    ensures r[0] != '\\' <==> r == [c]
  {
    if c == '\\' || c == q then ['\\', c]
    else if c == '\t' then "\\t"
    else if c == '\n' then "\\n"
    else if c == '\r' then "\\r"
    else if c < ' ' || ('\U{7F}' <= c <= '\U{A0}') || c == '\U{AD}' then
      ['\\', 'x', HexDigit((c as int) / 16), HexDigit((c as int) % 16)]
    else [c]
  }

  function Escape(s: string, q: char): (r: string)
    ensures |r| >= |s|
  {
    if s == [] then [] else EscapeChar(s[0], q) + Escape(s[1..], q)
  }

  /** The quote `repr` picks: a double quote only for a string with a single quote and no double quote. */
  function Quote(s: string): (q: char)
    ensures q == '\'' || q == '"'
    ensures q == '"' <==> '\'' in s && '"' !in s
  {
    if '\'' in s && '"' !in s then '"' else '\''
  }

  /** What Python's parser makes of the escapes inside a quoted literal. */
  function Unescape(e: string): string
    decreases |e|
  {
    if e == [] then []
    else if e[0] != '\\' || |e| == 1 then [e[0]] + Unescape(e[1..])
    else if e[1] == 't' then "\t" + Unescape(e[2..])
    else if e[1] == 'n' then "\n" + Unescape(e[2..])
    else if e[1] == 'r' then "\r" + Unescape(e[2..])
    else if e[1] == 'x' && |e| >= 4 then
      [(16 * HexValue(e[2]) + HexValue(e[3])) as char] + Unescape(e[4..])
    else [e[1]] + Unescape(e[2..])
  }

  lemma UnescapeEscapeChar(c: char, q: char, rest: string)
    requires q == '\'' || q == '"'
    ensures Unescape(EscapeChar(c, q) + rest) == [c] + Unescape(rest)
  {
    var e := EscapeChar(c, q) + rest;
    if |EscapeChar(c, q)| == 4 {
      var n := c as int;
      assert e[4..] == rest;
      assert HexValue(e[2]) == n / 16 && HexValue(e[3]) == n % 16;
    } else if |EscapeChar(c, q)| == 2 {
      assert e[2..] == rest;
    } else {
      assert e[1..] == rest;
    }
  }

  /** Reading back what `repr` wrote gives the original characters. */
  lemma {:induction false} UnescapeEscape(s: string, q: char)
    requires q == '\'' || q == '"'
    ensures Unescape(Escape(s, q)) == s
  {
    if s != [] {
      UnescapeEscapeChar(s[0], q, Escape(s[1..], q));
      UnescapeEscape(s[1..], q);
      assert s == [s[0]] + s[1..];
    }
  }

  /** Python's `repr(s)` for a string. */
  function StrRepr(s: string): (r: string)
    ensures |r| >= |s| + 2
    ensures r[0] == r[|r| - 1] == Quote(s)
    ensures Unescape(r[1..|r| - 1]) == s
  {
    UnescapeEscape(s, Quote(s));
    var r := [Quote(s)] + Escape(s, Quote(s)) + [Quote(s)];
    assert r[1..|r| - 1] == Escape(s, Quote(s));
    r
  }

  /** Distinct strings have distinct representations. */
  lemma StrReprInjective(s: string, t: string)
    requires StrRepr(s) == StrRepr(t)
    ensures s == t
  {
    var r := StrRepr(s);
    assert Unescape(r[1..|r| - 1]) == s;
  }

  // -------------------------------------------------------------- str/repr

  /** Python's `repr(v)`, as it appears inside the `str()` of a list or a dict. */
  function Repr(v: Value): (r: string)
    decreases v, 1
    ensures v.Str? ==> r == StrRepr(v.s)
    ensures !v.Str? ==> r == PyStr(v)
  {
    match v
    case Str(s) => StrRepr(s)
    case _ => PyStr(v)
  }

  /**
   * Python's `str(v)`: a string is itself, an integer its decimal form, a
   * list `repr` of each element between brackets and a dict `repr` of each
   * key and value between braces, the pairs in ascending key order.
   */
  function PyStr(v: Value): (r: string)
    decreases v, 0
    ensures v.Str? ==> r == v.s
    ensures v.Num? ==> r == IntToString(v.n)
    ensures v.Arr? ==> |r| >= 2 && r[0] == '[' && r[|r| - 1] == ']'
    ensures v.Obj? ==> |r| >= 2 && r[0] == '{' && r[|r| - 1] == '}'
  {
    match v
    case Str(s) => s
    case Num(n) => IntToString(n)
    case Bool(b) => if b then "True" else "False"
    case Null => "None"
    case Arr(xs) => "[" + Join(", ", seq(|xs|, k requires 0 <= k < |xs| => Repr(xs[k]))) + "]"
    case Obj(m) =>
      var ks := Sorted(m.Keys);
      "{" + Join(", ", seq(|ks|, k requires 0 <= k < |ks| => StrRepr(ks[k]) + ": " + Repr(m[ks[k]]))) + "}"
  }

  /** A one-entry dict prints as Python prints it. */
  lemma PyStrOneEntry(k: string, x: Value)
    ensures PyStr(Obj(map[k := x])) == "{" + StrRepr(k) + ": " + Repr(x) + "}"
  {
    var ks := Sorted(map[k := x].Keys);
    assert |ks| == 1 && ks[0] == k;
  }

  /** `str({"n": 1})` is `{'n': 1}`. */
  lemma PyStrDictExample()
    ensures PyStr(Obj(map["n" := Num(1)])) == "{'n': 1}"
  {
    PyStrOneEntry("n", Num(1));
    assert EscapeChar('n', '\'') == "n";
    assert Escape("n", '\'') == "n";
    assert StrRepr("n") == "'n'";
    assert IntToString(1) == "1";
  }

  /** `repr('a\'b"c')` keeps the single quote and escapes the inner one. */
  lemma ReprBothQuotesExample()
    ensures Repr(Str("a'b\"c")) == "'a\\'b\"c'"
  {
    var s := "a'b\"c";
    var q := '\'';
    assert s[1] == q && s[3] == '"';
    assert Quote(s) == q;
    assert Escape("c", q) == "c";
    assert Escape("\"c", q) == "\"c";
    assert Escape("b\"c", q) == "b\"c";
    assert Escape("'b\"c", q) == "\\'b\"c";
    assert Escape(s, q) == "a\\'b\"c";
  }
}
