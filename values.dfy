/** Configuration values as the validators see them (Python 2 objects parsed from YAML),
    and the text helpers the diagnostics are built from. */
module Values {

  datatype Option<+T> = None | Some(value: T)

  datatype Result<+T, +E> = Ok(value: T) | Err(error: E)

  /** A parsed configuration value. Mapping keys are text; a float is kept only by its
      printed form, since no validator computes with floats. */
  datatype Value =
    | VNone
    | VBool(b: bool)
    | VInt(i: int)
    | VFloat(text: string)
    | VStr(s: string)
    | VList(items: seq<Value>)
    | VDict(entries: seq<Entry>)

  datatype Entry = Entry(key: string, value: Value)

  /** What the model does not interpret itself: regular-expression compilation and
      matching (`re.compile`, `regexp.match`, anchored at the start of the text), and the
      Python text form of a list or a mapping inside a message. */
  datatype Oracle = Oracle(
    matches: (string, string) -> bool,   // (pattern, text)
    compiles: string -> bool,
    render: Value -> string)

  /** `sys.maxint` of a 64-bit CPython 2: larger integers are `long`, not `int`. */
  const MaxInt: int := 0x7FFF_FFFF_FFFF_FFFF

  /** `isinstance(v, int)`: booleans are ints in Python; a `long` is not. */
  predicate IsInt(v: Value) {
    v.VBool? || (v.VInt? && -MaxInt - 1 <= v.i <= MaxInt)
  }

  /** `isinstance(v, (int, float, long))`. */
  predicate IsNumber(v: Value) {
    v.VBool? || v.VInt? || v.VFloat?
  }

  /** `isinstance(v, (basestring, int, float))`. */
  predicate IsScalar(v: Value) {
    v.VStr? || v.VFloat? || IsInt(v)
  }

  /** `bool(s)` for an optional text: absent and empty texts are false. */
  predicate Truthy(m: Option<string>) {
    m.Some? && m.value != ""
  }

  function Digit(n: nat): char
    requires n < 10
  {
    "0123456789"[n]
  }

  /** Decimal digits of a natural number, most significant first. */
  function NatToString(n: nat): (s: string)
    ensures |s| >= 1
    ensures forall i :: 0 <= i < |s| ==> '0' <= s[i] <= '9'
    ensures n >= 10 ==> s[0] != '0'
  {
    if n < 10 then [Digit(n)] else NatToString(n / 10) + [Digit(n % 10)]
  }

  /** The number a string of decimal digits denotes, most significant digit first. */
  function DigitsValue(s: string): nat
    requires forall i :: 0 <= i < |s| ==> '0' <= s[i] <= '9'
  {
    if s == [] then 0 else 10 * DigitsValue(s[..|s| - 1]) + (s[|s| - 1] as int - '0' as int)
  }

  lemma DigitValue(k: nat)
    requires k < 10
    ensures Digit(k) as int - '0' as int == k
  {
  }

  /** The digits `NatToString` writes denote the number it was given. */
  lemma {:induction false} NatToStringValue(n: nat)
    ensures DigitsValue(NatToString(n)) == n
  {
    var s := NatToString(n);
    if n < 10 {
      DigitValue(n);
      assert s[..0] == [];
    } else {
      NatToStringValue(n / 10);
      DigitValue(n % 10);
      assert s[..|s| - 1] == NatToString(n / 10);
    }
  }

  /** `'%i' % n` and `unicode(n)` for an integer. */
  function IntToString(n: int): string {
    if n < 0 then "-" + NatToString(-n) else NatToString(n)
  }

  /** `unicode(v)` / `'%s' % v`. */
  function Show(o: Oracle, v: Value): string {
    match v
    case VNone => "None"
    case VBool(b) => if b then "True" else "False"
    case VInt(i) => IntToString(i)
    case VFloat(t) => t
    case VStr(s) => s
    case VList(_) => o.render(v)
    case VDict(_) => o.render(v)
  }

  function ShowAll(o: Oracle, vs: seq<Value>): (r: seq<string>)
    ensures |r| == |vs|
    ensures forall i :: 0 <= i < |vs| ==> r[i] == Show(o, vs[i])
  {
    if vs == [] then [] else [Show(o, vs[0])] + ShowAll(o, vs[1..])
  }

  function LowerChar(c: char): char {
    if 'A' <= c <= 'Z' then (c as int + 32) as char else c
  }

  /** `text.lower()`, for the ASCII letters. */
  function Lower(s: string): (r: string)
    ensures |r| == |s|
    ensures forall i :: 0 <= i < |s| ==> r[i] == LowerChar(s[i])
  {
    if s == [] then [] else [LowerChar(s[0])] + Lower(s[1..])
  }

  /** Lower-casing twice is lower-casing once. */
  lemma LowerIdempotent(s: string)
    ensures Lower(Lower(s)) == Lower(s)
  {
  }

  /** `sep.join(xs)`. */
  function Join(sep: string, xs: seq<string>): string {
    if xs == [] then ""
    else if |xs| == 1 then xs[0]
    else xs[0] + sep + Join(sep, xs[1..])
  }

  /** Joining one more string appends the separator and that string. */
  lemma {:induction false} JoinSnoc(sep: string, xs: seq<string>, y: string)
    requires xs != []
    ensures Join(sep, xs + [y]) == Join(sep, xs) + sep + y
    decreases |xs|
  {
    var ys := xs + [y];
    assert ys[0] == xs[0] && ys[1..] == xs[1..] + [y];
    if |xs| > 1 {
      JoinSnoc(sep, xs[1..], y);
    }
  }

  /** Python's ordering of unicode strings: code point by code point, a proper prefix
      first. */
  predicate LexLeq(a: string, b: string) {
    if a == [] then true
    else if b == [] then false
    else if a[0] != b[0] then a[0] < b[0]
    else LexLeq(a[1..], b[1..])
  }

  lemma LexLeqTotal(a: string, b: string)
    ensures LexLeq(a, b) || LexLeq(b, a)
  {
  }

  predicate Sorted(xs: seq<string>) {
    forall i :: 0 <= i < |xs| - 1 ==> LexLeq(xs[i], xs[i + 1])
  }

  function Insert(x: string, xs: seq<string>): (r: seq<string>)
    requires Sorted(xs)
    ensures Sorted(r)
    ensures multiset(r) == multiset(xs) + multiset{x}
    ensures |r| == |xs| + 1
    ensures r[0] == x || (xs != [] && r[0] == xs[0])
  {
    if xs == [] then [x]
    else if LexLeq(x, xs[0]) then [x] + xs
    else
      LexLeqTotal(x, xs[0]);
      var rest := Insert(x, xs[1..]);
      assert xs == [xs[0]] + xs[1..];
      [xs[0]] + rest
  }

  /** `sorted(xs)`. */
  function SortStrings(xs: seq<string>): (r: seq<string>)
    ensures Sorted(r)
    ensures multiset(r) == multiset(xs)
  {
    if xs == [] then []
    else
      assert xs == [xs[0]] + xs[1..];
      Insert(xs[0], SortStrings(xs[1..]))
  }

  // ---------------------------------------------------------------------------
  // string.Template(t).safe_substitute(key=k)

  predicate IdentStart(c: char) {
    c == '_' || 'a' <= c <= 'z' || 'A' <= c <= 'Z'
  }

  predicate IdentChar(c: char) {
    IdentStart(c) || '0' <= c <= '9'
  }

  /** Length of the longest run of identifier characters at the start of `s`. */
  function IdentLength(s: string): (n: nat)
    ensures n <= |s|
    ensures forall i :: 0 <= i < n ==> IdentChar(s[i])
    ensures n < |s| ==> !IdentChar(s[n])
  {
    if s == [] || !IdentChar(s[0]) then 0 else 1 + IdentLength(s[1..])
  }

  /** `Template(t).safe_substitute(key=k)`: `$key` and `${key}` become `k`, `$$` becomes
      `$`, and every other `$` is left as it stands. */
  function SafeSubstitute(t: string, k: string): string
    decreases |t|
  {
    if t == [] then []
    else if t[0] != '$' then [t[0]] + SafeSubstitute(t[1..], k)
    else if |t| >= 2 && t[1] == '$' then "$" + SafeSubstitute(t[2..], k)
    else if |t| >= 2 && IdentStart(t[1]) then
      var n := IdentLength(t[1..]);
      (if t[1..1 + n] == "key" then k else t[..1 + n]) + SafeSubstitute(t[1 + n..], k)
    else if |t| >= 3 && t[1] == '{' && IdentStart(t[2]) && 2 + IdentLength(t[2..]) < |t|
            && t[2 + IdentLength(t[2..])] == '}' then
      var n := IdentLength(t[2..]);
      (if t[2..2 + n] == "key" then k else t[..3 + n]) + SafeSubstitute(t[3 + n..], k)
    else "$" + SafeSubstitute(t[1..], k)
  }

  /** Text without a `$` passes through unchanged. */
  lemma {:induction false} SafeSubstitutePlain(a: string, rest: string, k: string)
    requires '$' !in a
    ensures SafeSubstitute(a + rest, k) == a + SafeSubstitute(rest, k)
    decreases |a|
  {
    if a != [] {
      var t := a + rest;
      assert t[0] == a[0] && t[1..] == a[1..] + rest;
      assert a[0] in a;
      assert SafeSubstitute(t, k) == [a[0]] + SafeSubstitute(a[1..] + rest, k);
      SafeSubstitutePlain(a[1..], rest, k);
      var x := SafeSubstitute(rest, k);
      assert a == [a[0]] + a[1..];
      assert [a[0]] + (a[1..] + x) == ([a[0]] + a[1..]) + x;
    } else {
      assert a + rest == rest;
    }
  }

  /** `${key}` is replaced by the key. */
  lemma SafeSubstituteBraced(rest: string, k: string)
    ensures SafeSubstitute("${key}" + rest, k) == k + SafeSubstitute(rest, k)
  {
    var t := "${key}" + rest;
    assert t[2..] == "key}" + rest;
    assert IdentLength("}" + rest) == 0;
    assert ("y}" + rest)[1..] == "}" + rest;
    assert IdentLength("y}" + rest) == 1;
    assert ("ey}" + rest)[1..] == "y}" + rest;
    assert IdentLength("ey}" + rest) == 2;
    assert ("key}" + rest)[1..] == "ey}" + rest;
    assert IdentLength(t[2..]) == 3;
    assert t[2..5] == "key";
    assert t[6..] == rest;
  }

  /** `$key`, not followed by an identifier character, is replaced by the key. */
  lemma SafeSubstituteNamed(rest: string, k: string)
    requires rest == [] || !IdentChar(rest[0])
    ensures SafeSubstitute("$key" + rest, k) == k + SafeSubstitute(rest, k)
  {
    var t := "$key" + rest;
    assert t[1..] == "key" + rest;
    assert IdentLength(rest) == 0;
    assert ("y" + rest)[1..] == rest;
    assert IdentLength("y" + rest) == 1;
    assert ("ey" + rest)[1..] == "y" + rest;
    assert IdentLength("ey" + rest) == 2;
    assert ("key" + rest)[1..] == "ey" + rest;
    assert IdentLength(t[1..]) == 3;
    assert t[1..4] == "key";
    assert t[4..] == rest;
  }

  /** Concatenation regroups; stated once so that callers need not rediscover it. */
  lemma AppendAssoc<T>(a: seq<T>, b: seq<T>, c: seq<T>)
    ensures (a + b) + c == a + (b + c)
  {
  }
}
