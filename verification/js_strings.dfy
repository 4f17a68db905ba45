/**
  The few JavaScript string built-ins the components rely on, stated over
  `seq<char>`: ASCII letter classes, `toLowerCase` (ASCII part), `trim`,
  `includes` and `Array.prototype.join`.
 */
module JsStrings {

  predicate IsAsciiUpper(c: char) { 'A' <= c <= 'Z' }

  predicate IsAsciiLower(c: char) { 'a' <= c <= 'z' }

  predicate IsAsciiLetter(c: char) { IsAsciiUpper(c) || IsAsciiLower(c) }

  predicate IsAsciiDigit(c: char) { '0' <= c <= '9' }

  /** `toLowerCase` on one character, restricted to the ASCII range. */
  function ToLowerChar(c: char): char
  {
    if IsAsciiUpper(c) then (c as int + 32) as char else c
  }

  /** `s.toLowerCase()`, ASCII case folding only. */
  function Lower(s: string): (r: string)
    ensures |r| == |s|
    ensures forall i | 0 <= i < |s| :: r[i] == ToLowerChar(s[i])
    ensures forall i | 0 <= i < |r| :: !IsAsciiUpper(r[i])
  {
    seq(|s|, i requires 0 <= i < |s| => ToLowerChar(s[i]))
  }

  /** Folding case twice is folding it once. */
  lemma LowerIdempotent(s: string)
    ensures Lower(Lower(s)) == Lower(s)
  {
  }

  /**
    The characters `String.prototype.trim` removes: the WhiteSpace and
    LineTerminator productions of ECMA-262 (section 12.2 and 12.3), i.e.
    TAB, VT, FF, SP, NBSP, ZWNBSP, every Unicode space separator, LF, CR,
    LS and PS.
   */
  predicate IsJsWhitespace(c: char)
  {
    || c == '\t' || c == '\n' || c == '\U{0B}' || c == '\U{0C}' || c == '\r' || c == ' '
    || c == '\U{A0}' || c == '\U{1680}' || ('\U{2000}' <= c <= '\U{200A}')
    || c == '\U{2028}' || c == '\U{2029}' || c == '\U{202F}' || c == '\U{205F}'
    || c == '\U{3000}' || c == '\U{FEFF}'
  }

  predicate AllWhitespace(s: string)
  {
    forall i | 0 <= i < |s| :: IsJsWhitespace(s[i])
  }

  /** Drops the leading whitespace: the result is the longest suffix that does not start with whitespace. */
  function TrimStart(s: string): (r: string)
    ensures |r| <= |s| && r == s[|s| - |r|..]
    ensures AllWhitespace(s[..|s| - |r|])
    ensures r == [] || !IsJsWhitespace(r[0])
    decreases |s|
  {
    if |s| > 0 && IsJsWhitespace(s[0]) then TrimStart(s[1..]) else s
  }

  /** Drops the trailing whitespace: the result is the longest prefix that does not end with whitespace. */
  function TrimEnd(s: string): (r: string)
    ensures |r| <= |s| && r == s[..|r|]
    ensures AllWhitespace(s[|r|..])
    ensures r == [] || !IsJsWhitespace(r[|r| - 1])
    decreases |s|
  {
    if |s| > 0 && IsJsWhitespace(s[|s| - 1]) then TrimEnd(s[..|s| - 1]) else s
  }

  /** `s.trim()`. */
  function Trim(s: string): string
  {
    TrimEnd(TrimStart(s))
  }

  /** `!s.trim()`: the trimmed string is the (falsy) empty string. */
  predicate IsBlank(s: string)
  {
    Trim(s) == ""
  }

  /** A string trims to nothing exactly when every character of it is whitespace. */
  lemma BlankIffAllWhitespace(s: string)
    ensures IsBlank(s) <==> AllWhitespace(s)
  {
    var t := TrimStart(s);
    var k := |s| - |t|;
    if IsBlank(s) {
      assert AllWhitespace(t[0..]);
      forall i | 0 <= i < |s|
        ensures IsJsWhitespace(s[i])
      {
        if i < k {
          assert s[i] == s[..k][i];
        }
      }
    }
  }

  /** `needle` occurs in `hay` starting at index `i`. */
  ghost predicate OccursAt(hay: string, needle: string, i: int)
  {
    0 <= i && i + |needle| <= |hay| && hay[i..i + |needle|] == needle
  }

  /** `hay.includes(needle)`, searching left to right. */
  function Includes(hay: string, needle: string): bool
    decreases |hay|
  {
    if needle <= hay then true
    else if |hay| == 0 then false
    else Includes(hay[1..], needle)
  }

  /** Dropping the first character shifts every occurrence one place to the left. */
  lemma OccursShift(hay: string, needle: string, i: int)
    requires |hay| > 0 && 0 <= i
    ensures OccursAt(hay[1..], needle, i) <==> OccursAt(hay, needle, i + 1)
  {
    if i + |needle| <= |hay| - 1 {
      assert hay[1..][i..i + |needle|] == hay[i + 1..i + 1 + |needle|];
    }
  }

  /** The search finds the needle exactly when it occurs at some index. */
  lemma {:induction false} IncludesIffOccurs(hay: string, needle: string)
    ensures Includes(hay, needle) <==> exists i :: OccursAt(hay, needle, i)
    decreases |hay|
  {
    if needle <= hay {
      assert OccursAt(hay, needle, 0);
    } else if |hay| > 0 {
      IncludesIffOccurs(hay[1..], needle);
      if Includes(hay[1..], needle) {
        var i :| OccursAt(hay[1..], needle, i);
        OccursShift(hay, needle, i);
      }
      if exists i :: OccursAt(hay, needle, i) {
        var i :| OccursAt(hay, needle, i);
        if i > 0 {
          OccursShift(hay, needle, i - 1);
        }
      }
    }
  }

  /** An array element as `Array.prototype.join` sees it: `null`/`undefined`, or a value with its string conversion. */
  datatype JsValue = Nullish | Text(text: string)

  /** ToString of an element as `join` applies it: null and undefined become the empty string. */
  function Render(v: JsValue): string
  {
    match v
    case Nullish => ""
    case Text(t) => t
  }

  function RenderAll(vs: seq<JsValue>): (r: seq<string>)
    ensures |r| == |vs|
  {
    seq(|vs|, i requires 0 <= i < |vs| => Render(vs[i]))
  }

  /** `xs.join(sep)` on strings, element first, separator between neighbours. */
  function Join(xs: seq<string>, sep: string): string
    decreases |xs|
  {
    if |xs| == 0 then ""
    else if |xs| == 1 then xs[0]
    else xs[0] + sep + Join(xs[1..], sep)
  }

  /** Appending one element to a non-empty list appends the separator and that element. */
  lemma {:induction false} JoinSnoc(xs: seq<string>, x: string, sep: string)
    requires |xs| > 0
    ensures Join(xs + [x], sep) == Join(xs, sep) + sep + x
    decreases |xs|
  {
    if |xs| == 1 {
      assert (xs + [x])[1..] == [x];
    } else {
      assert (xs + [x])[1..] == xs[1..] + [x];
      JoinSnoc(xs[1..], x, sep);
    }
  }

  /** Joined length: every element once, and one separator between each pair of neighbours. */
  lemma {:induction false} JoinLength(xs: seq<string>, sep: string)
    requires |xs| > 0
    ensures |Join(xs, sep)| == TotalLength(xs) + (|xs| - 1) * |sep|
    decreases |xs|
  {
    if |xs| > 1 {
      JoinLength(xs[1..], sep);
    }
  }

  function TotalLength(xs: seq<string>): nat
  {
    if |xs| == 0 then 0 else |xs[0]| + TotalLength(xs[1..])
  }

  /**
    `Array.prototype.join` the way section 23.1.3.18 of ECMA-262 defines it:
    a left-to-right loop that appends the separator before every element but
    the first, and the element's string (empty for null and undefined).
   */
  method JoinValues(vs: seq<JsValue>, sep: string) returns (r: string)
    ensures r == Join(RenderAll(vs), sep)
  {
    ghost var rendered := RenderAll(vs);
    r := "";
    var k := 0;
    while k < |vs|
      invariant 0 <= k <= |vs|
      invariant r == Join(rendered[..k], sep)
    {
      if k > 0 {
        JoinSnoc(rendered[..k], rendered[k], sep);
        r := r + sep;
      }
      assert rendered[..k + 1] == rendered[..k] + [rendered[k]];
      r := r + Render(vs[k]);
      k := k + 1;
    }
    assert rendered[..|vs|] == rendered;
  }
}
