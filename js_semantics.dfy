/** The pieces of JavaScript's semantics that the todo service leans on:
    the values a parsed JSON request body can hold, truthiness (`!v`), and
    `String.prototype.trim`. */
module JsSemantics {

  /** A value read from a parsed JSON request body. `Undefined` is a property
      that is not there. `Other` stands for numbers, arrays and objects, with
      the truthiness JavaScript gives them: every array and object is truthy,
      a number is falsy exactly when it is 0 or NaN. */
  datatype JsValue = Undefined | Null | Bool(b: bool) | Str(s: string) | Other(truthy: bool)

  /** `!v`: the falsy values are undefined, null, false, "", 0 and NaN.
      The only falsy string is blank, so for strings the `!title` test in
      `createTodo` is subsumed by its blank-after-trim test. */
  predicate IsFalsy(v: JsValue)
    ensures v.Str? && IsFalsy(v) ==> AllWhitespace(v.s)
    ensures v == Undefined || v == Null ==> IsFalsy(v)
  {
    match v
    case Undefined => true
    case Null => true
    case Bool(b) => !b
    case Str(s) => s == ""
    case Other(truthy) => !truthy
  }

  /** The code points that `trim` strips: the WhiteSpace and LineTerminator
      productions of ECMA-262 (tab, vertical tab, form feed, space, no-break
      space, byte order mark, the Unicode space separators, and line feed,
      carriage return, line and paragraph separators). */
  predicate IsJsWhitespace(c: char) {
    || c == '\t' || c == '\n' || c == '\U{000B}' || c == '\U{000C}' || c == '\r'
    || c == ' ' || c == '\U{00A0}' || c == '\U{1680}'
    || ('\U{2000}' <= c <= '\U{200A}')
    || c == '\U{2028}' || c == '\U{2029}' || c == '\U{202F}' || c == '\U{205F}'
    || c == '\U{3000}' || c == '\U{FEFF}'
  }

  /** Every character of `s` is whitespace (the empty string included),
      checked front to back. */
  predicate AllWhitespace(s: string)
    decreases |s|
  {
    s == [] || (IsJsWhitespace(s[0]) && AllWhitespace(s[1..]))
  }

  /** `AllWhitespace` says of every position that it holds whitespace. */
  lemma {:induction false} AllWhitespaceAt(s: string)
    ensures AllWhitespace(s) <==> forall i :: 0 <= i < |s| ==> IsJsWhitespace(s[i])
    decreases |s|
  {
    if s != [] {
      AllWhitespaceAt(s[1..]);
      assert forall i :: 1 <= i < |s| ==> s[1..][i - 1] == s[i];
    }
  }

  /** A concatenation is all whitespace exactly when both parts are. */
  lemma {:induction false} AllWhitespaceConcat(a: string, b: string)
    ensures AllWhitespace(a + b) <==> AllWhitespace(a) && AllWhitespace(b)
    decreases |a|
  {
    if a != [] {
      assert (a + b)[1..] == a[1..] + b;
      AllWhitespaceConcat(a[1..], b);
    } else {
      assert a + b == b;
    }
  }

  /** `s` has no whitespace at either end. */
  predicate NoOuterWhitespace(s: string) {
    s == [] || (!IsJsWhitespace(s[0]) && !IsJsWhitespace(s[|s| - 1]))
  }

  /** `String.prototype.trim`: strips whitespace from the front and from
      the back until neither end is whitespace. The result has no
      whitespace at either end, and it is empty exactly when `s` is all
      whitespace. */
  function Trim(s: string): (r: string)
    ensures |r| <= |s|
    ensures NoOuterWhitespace(r)
    ensures r == [] <==> AllWhitespace(s)
    decreases |s|
  {
    if s == [] then []
    else if IsJsWhitespace(s[0]) then Trim(s[1..])
    else if IsJsWhitespace(s[|s| - 1]) then
      assert s[..|s| - 1][0] == s[0];
      Trim(s[..|s| - 1])
    else s
  }

  /** How many whitespace characters `s` starts with. */
  function LeadingWhitespace(s: string): (n: nat)
    ensures n <= |s|
    decreases |s|
  {
    if s != [] && IsJsWhitespace(s[0]) then 1 + LeadingWhitespace(s[1..]) else 0
  }

  /** `r` is the piece of `s` starting at `i`, and what lies before and
      after it in `s` is whitespace. */
  predicate IsTrimCut(s: string, i: int, r: string) {
    && 0 <= i && i + |r| <= |s| && r == s[i..i + |r|]
    && AllWhitespace(s[..i]) && AllWhitespace(s[i + |r|..])
  }

  /** `trim` only cuts whitespace off the two ends: its result is the piece
      of `s` that starts after the leading whitespace, and what follows it
      is whitespace too. */
  lemma {:induction false} TrimIsInfix(s: string)
    ensures IsTrimCut(s, LeadingWhitespace(s), Trim(s))
    decreases |s|
  {
    if s == [] {
      assert s[..0] == [];
    } else if IsJsWhitespace(s[0]) {
      TrimIsInfix(s[1..]);
      InfixDropFront(s, LeadingWhitespace(s[1..]), Trim(s[1..]));
    } else if IsJsWhitespace(s[|s| - 1]) {
      TrimIsInfix(s[..|s| - 1]);
      assert s[..|s| - 1][0] == s[0];
      InfixDropBack(s, 0, Trim(s[..|s| - 1]));
    } else {
      assert s[..0] == [] && s[|s|..] == [];
    }
  }

  /** A cut of `s[1..]` is a cut of `s` one place further on, when `s[0]`
      is whitespace. */
  lemma InfixDropFront(s: string, i: int, r: string)
    requires s != [] && IsJsWhitespace(s[0])
    requires IsTrimCut(s[1..], i, r)
    ensures IsTrimCut(s, i + 1, r)
  {
    assert s[..i + 1][1..] == s[1..][..i];
    assert s[i + 1 + |r|..] == s[1..][i + |r|..];
  }

  /** A cut of `s` without its last character is a cut of `s`, when that
      character is whitespace. */
  lemma InfixDropBack(s: string, i: int, r: string)
    requires s != [] && IsJsWhitespace(s[|s| - 1])
    requires IsTrimCut(s[..|s| - 1], i, r)
    ensures IsTrimCut(s, i, r)
  {
    assert s[..i] == s[..|s| - 1][..i];
    assert s[i + |r|..] == s[..|s| - 1][i + |r|..] + [s[|s| - 1]];
    AllWhitespaceConcat(s[..|s| - 1][i + |r|..], [s[|s| - 1]]);
  }

  /** A position preceded only by whitespace and holding a character that
      is not whitespace is where the leading whitespace ends. */
  lemma {:induction false} LeadingWhitespaceAt(s: string, i: int)
    requires 0 <= i < |s| && AllWhitespace(s[..i]) && !IsJsWhitespace(s[i])
    ensures LeadingWhitespace(s) == i
    decreases i
  {
    if i > 0 {
      assert s[..i][0] == s[0];
      assert s[..i][1..] == s[1..][..i - 1];
      LeadingWhitespaceAt(s[1..], i - 1);
    }
  }

  /** `trim` is the only way to cut `s` into whitespace, a non-empty piece
      with no whitespace at its ends, and whitespace: any such piece is what
      `trim` returns. */
  lemma TrimUnique(s: string, i: int, r: string)
    requires IsTrimCut(s, i, r) && r != [] && NoOuterWhitespace(r)
    ensures LeadingWhitespace(s) == i && Trim(s) == r
  {
    assert s[i] == r[0];
    LeadingWhitespaceAt(s, i);
    TrimIsInfix(s);
    var t := Trim(s);
    AllWhitespaceAt(s);
    assert t != [];
    WhitespaceAfterCut(s, i, r);
    WhitespaceAfterCut(s, i, t);
    assert s[i + |t| - 1] == t[|t| - 1] && s[i + |r| - 1] == r[|r| - 1];
  }

  /** Everything after a cut is whitespace, position by position. */
  lemma WhitespaceAfterCut(s: string, i: int, r: string)
    requires IsTrimCut(s, i, r)
    ensures forall j :: i + |r| <= j < |s| ==> IsJsWhitespace(s[j])
  {
    AllWhitespaceAt(s[i + |r|..]);
    forall j | i + |r| <= j < |s| ensures IsJsWhitespace(s[j]) {
      assert s[i + |r|..][j - i - |r|] == s[j];
    }
  }

  /** Trimming a string that has no whitespace at either end gives it back. */
  lemma {:induction false} TrimNoOuterWhitespace(s: string)
    requires NoOuterWhitespace(s)
    ensures Trim(s) == s
  {
  }

  /** `trim` is idempotent. */
  lemma TrimIdempotent(s: string)
    ensures Trim(Trim(s)) == Trim(s)
  {
    TrimNoOuterWhitespace(Trim(s));
  }
}
