/** The part of JavaScript's value semantics the core relies on: the primitive
    values that flow through configuration objects, points and buffer entries,
    `typeof`, truthiness (`if (x)`, `x || d`), `String.prototype.trim`,
    `toLowerCase` and the `String(...)` / `Number(...)` conversions. */
module Js {

  import opened Outcomes

  /** A JavaScript value as seen by the core. `Object` stands for every
      non-null object (arrays, buffers, functions, plain objects). Numbers are
      unbounded reals: NaN and the infinities are not part of the model. */
  datatype Prim =
    | Undefined
    | Null
    | Num(n: real)
    | Str(s: string)
    | Bool(b: bool)
    | Object

  /** A plain object of tag values (`measurement.tags`). */
  type Tags = map<string, Prim>

  /** `typeof p`. Note that `typeof null` is "object". */
  function TypeOf(p: Prim): (t: string)
    ensures t in {"undefined", "object", "number", "string", "boolean"}
    ensures t == "undefined" <==> p == Undefined
  {
    match p
    case Undefined => "undefined"
    case Null => "object"
    case Num(_) => "number"
    case Str(_) => "string"
    case Bool(_) => "boolean"
    case Object => "object"
  }

  /** JavaScript truthiness: false, 0, "", null and undefined are falsy. */
  predicate Truthy(p: Prim) {
    match p
    case Undefined => false
    case Null => false
    case Num(n) => n != 0.0
    case Str(s) => s != ""
    case Bool(b) => b
    case Object => true
  }

  /** `x === null || x === undefined` (the same as `x == null`). */
  predicate IsNullish(p: Prim) {
    p == Null || p == Undefined
  }

  /** `a || b`. */
  function Or(a: Prim, b: Prim): (r: Prim)
    ensures Truthy(a) ==> r == a
    ensures !Truthy(a) ==> r == b
  {
    if Truthy(a) then a else b
  }

  /** `Some(x)` when `x` is truthy: an optional setting that is copied only
      when it is set, as `if (x) { o.f = x; }` does. */
  function IfTruthy(x: Prim): (r: Option<Prim>)
    ensures r.Some? <==> Truthy(x)
    ensures r.Some? ==> r.value == x
  {
    if Truthy(x) then Some(x) else None
  }

  /** The characters `trim` removes: the WhiteSpace and LineTerminator
      code points of ECMA-262 (tab, vertical tab, form feed, space, no-break
      space, the byte order mark, every other space separator, and the four
      line terminators). */
  predicate IsJsWhitespace(c: char) {
    || c == '\t' || c == '\n' || c == '\U{B}' || c == '\U{C}' || c == '\r'
    || c == ' ' || c == '\U{A0}' || c == '\U{1680}'
    || ('\U{2000}' <= c <= '\U{200A}')
    || c == '\U{2028}' || c == '\U{2029}' || c == '\U{202F}' || c == '\U{205F}'
    || c == '\U{3000}' || c == '\U{FEFF}'
  }

  /** `s.trim() === ""`: every character of `s` is white space. */
  predicate IsBlank(s: string) {
    forall k :: 0 <= k < |s| ==> IsJsWhitespace(s[k])
  }

  /** `s` without its leading white space: what is dropped is blank, and
      what is kept does not start with white space. */
  function TrimStart(s: string): (r: string)
    ensures |r| <= |s| && r == s[|s| - |r|..]
    ensures IsBlank(s[..|s| - |r|])
    ensures r == [] || !IsJsWhitespace(r[0])
  {
    if s == [] || !IsJsWhitespace(s[0]) then s
    else
      var t := TrimStart(s[1..]);
      assert s[..|s| - |t|] == [s[0]] + s[1..][..|s| - 1 - |t|];
      t
  }

  /** `s` without its trailing white space: what is dropped is blank, and
      what is kept does not end with white space. */
  function TrimEnd(s: string): (r: string)
    ensures |r| <= |s| && r == s[..|r|]
    ensures IsBlank(s[|r|..])
    ensures r == [] || !IsJsWhitespace(r[|r| - 1])
  {
    if s == [] || !IsJsWhitespace(s[|s| - 1]) then s
    else
      var t := TrimEnd(s[..|s| - 1]);
      assert s[|t|..] == s[..|s| - 1][|t|..] + [s[|s| - 1]];
      t
  }

  /** `r` is the slice of `s` from `i` with only white space before and
      after it. */
  predicate BlankAround(s: string, r: string, i: nat) {
    && i + |r| <= |s|
    && r == s[i..i + |r|]
    && IsBlank(s[..i])
    && IsBlank(s[i + |r|..])
  }

  /** `String.prototype.trim`: the result has only white space on either
      side of it in `s`, and neither starts nor ends with white space. */
  function Trim(s: string): (r: string)
    ensures exists i: nat :: BlankAround(s, r, i)
    ensures r == [] || (!IsJsWhitespace(r[0]) && !IsJsWhitespace(r[|r| - 1]))
  {
    var t := TrimStart(s);
    var r := TrimEnd(t);
    TrimAround(s, t, r);
    r
  }

  lemma TrimAround(s: string, t: string, r: string)
    requires |t| <= |s| && t == s[|s| - |t|..] && IsBlank(s[..|s| - |t|])
    requires |r| <= |t| && r == t[..|r|] && IsBlank(t[|r|..])
    ensures BlankAround(s, r, |s| - |t|)
  {
    var i := |s| - |t|;
    assert s[i + |r|..] == t[|r|..];
  }

  lemma {:induction false} TrimStartEmptyIffBlank(s: string)
    ensures TrimStart(s) == [] <==> IsBlank(s)
  {
    if s != [] {
      BlankFirst(s);
      if IsJsWhitespace(s[0]) {
        TrimStartEmptyIffBlank(s[1..]);
      }
    }
  }

  lemma {:induction false} TrimEndEmptyIffBlank(s: string)
    ensures TrimEnd(s) == [] <==> IsBlank(s)
  {
    if s != [] {
      BlankLast(s);
      if IsJsWhitespace(s[|s| - 1]) {
        TrimEndEmptyIffBlank(s[..|s| - 1]);
      }
    }
  }

  lemma BlankFirst(s: string)
    requires s != []
    ensures IsBlank(s) <==> IsJsWhitespace(s[0]) && IsBlank(s[1..])
  {
    if IsJsWhitespace(s[0]) && IsBlank(s[1..]) {
      forall k | 0 < k < |s| ensures IsJsWhitespace(s[k]) {
        assert s[k] == s[1..][k - 1];
      }
    }
    if IsBlank(s) {
      forall k | 0 <= k < |s| - 1 ensures IsJsWhitespace(s[1..][k]) {
        assert s[1..][k] == s[k + 1];
      }
    }
  }

  lemma BlankLast(s: string)
    requires s != []
    ensures IsBlank(s) <==> IsJsWhitespace(s[|s| - 1]) && IsBlank(s[..|s| - 1])
  {
    var t := s[..|s| - 1];
    if IsJsWhitespace(s[|s| - 1]) && IsBlank(t) {
      forall k | 0 <= k < |s| - 1 ensures IsJsWhitespace(s[k]) {
        assert s[k] == t[k];
      }
    }
    if IsBlank(s) {
      forall k | 0 <= k < |t| ensures IsJsWhitespace(t[k]) {
        assert t[k] == s[k];
      }
    }
  }

  /** `s.trim() === ""` holds exactly when every character of `s` is white
      space, which is how the core's blank checks are stated here. */
  lemma TrimEmptyIffBlank(s: string)
    ensures Trim(s) == "" <==> IsBlank(s)
  {
    var t := TrimStart(s);
    TrimStartEmptyIffBlank(s);
    TrimEndEmptyIffBlank(t);
    if t != [] {
      assert !IsJsWhitespace(t[0]);
      assert !IsBlank(t);
    }
  }

  /** The property names a plain object `{}` inherits from
      `Object.prototype`, for which `name in {}` holds although no own
      property of that name exists. */
  predicate IsObjectPrototypeName(name: string) {
    name in {"constructor", "__proto__", "hasOwnProperty", "isPrototypeOf",
             "propertyIsEnumerable", "toString", "toLocaleString", "valueOf",
             "__defineGetter__", "__defineSetter__", "__lookupGetter__", "__lookupSetter__"}
  }

  /** Whether `s` holds the character `c` (`s.indexOf(c) > -1`). */
  predicate HasChar(s: string, c: char) {
    exists k :: 0 <= k < |s| && s[k] == c
  }

  /** `toLowerCase` restricted to ASCII letters. This is exact for the only
      use the core makes of it, a comparison with "true" and "false": no
      non-ASCII character lower-cases to one of their letters. */
  function ToLowerAscii(s: string): (r: string)
    ensures |r| == |s|
    ensures forall k :: 0 <= k < |s| ==>
      r[k] == if 'A' <= s[k] <= 'Z' then (s[k] as int + 32) as char else s[k]
  {
    if s == [] then []
    else
      var c := s[0];
      [if 'A' <= c <= 'Z' then (c as int + 32) as char else c] + ToLowerAscii(s[1..])
  }

  /** `String(p)`. How a number is printed is a parameter (`numText`): the
      core never depends on the exact digits. */
  function ToStr(p: Prim, numText: real -> string): (r: string)
    ensures p.Str? ==> r == p.s
  {
    match p
    case Undefined => "undefined"
    case Null => "null"
    case Num(n) => numText(n)
    case Str(s) => s
    case Bool(b) => if b then "true" else "false"
    case Object => "[object Object]"
  }

  /** `Number(p)`, with `None` standing for NaN. Parsing a string is a
      parameter (`parse`); the other cases follow ECMA-262's ToNumber. */
  function ToNumber(p: Prim, parse: string -> Option<real>): (r: Option<real>)
    ensures p.Num? ==> r == Some(p.n)
  {
    match p
    case Undefined => None
    case Null => Some(0.0)
    case Num(n) => Some(n)
    case Str(s) => parse(s)
    case Bool(b) => Some(if b then 1.0 else 0.0)
    case Object => None
  }
}
