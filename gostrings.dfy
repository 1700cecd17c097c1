/**
 * The pieces of Go's `strings` and `strconv` packages the tag parser calls:
 * `strings.TrimSpace`, `strings.Split` and `strconv.Unquote` on a
 * double-quoted literal, together with the inverse operations used to state
 * round trips (`Join`, `Quote`).
 */
module GoStrings {
  import opened Wrappers

  /** `unicode.IsSpace`: the white-space characters of the Unicode standard. */
  predicate IsSpace(c: char) {
    || c == '\t' || c == '\n' || c == '\U{000B}' || c == '\U{000C}' || c == '\r' || c == ' '
    || c == '\U{0085}' || c == '\U{00A0}' || c == '\U{1680}'
    || ('\U{2000}' <= c <= '\U{200A}')
    || c == '\U{2028}' || c == '\U{2029}' || c == '\U{202F}' || c == '\U{205F}' || c == '\U{3000}'
  }

  /** Every character of `s` from position `lo` up to `hi` is white space. */
  predicate SpaceBetween(s: string, lo: nat, hi: nat)
    requires lo <= hi <= |s|
  {
    forall i | lo <= i < hi :: IsSpace(s[i])
  }

  /** Neither end of `s` is white space. */
  predicate Trimmed(s: string) {
    s == [] || (!IsSpace(s[0]) && !IsSpace(s[|s| - 1]))
  }

  /** The end of the run of white space in `s` that starts at `i`. */
  function SpaceEnd(s: string, i: nat): (j: nat)
    requires i <= |s|
    ensures i <= j <= |s| && SpaceBetween(s, i, j)
    ensures j < |s| ==> !IsSpace(s[j])
    decreases |s| - i
  {
    if i < |s| && IsSpace(s[i]) then SpaceEnd(s, i + 1) else i
  }

  /** The start of the run of white space in `s` that ends at `j`. */
  function SpaceStart(s: string, j: nat): (i: nat)
    requires j <= |s|
    ensures i <= j && SpaceBetween(s, i, j)
    ensures i > 0 ==> !IsSpace(s[i - 1])
  {
    if j > 0 && IsSpace(s[j - 1]) then SpaceStart(s, j - 1) else j
  }

  /** `s` without its leading white space. */
  function TrimLeft(s: string): (r: string)
    ensures |r| <= |s| && r == s[|s| - |r|..]
    ensures SpaceBetween(s, 0, |s| - |r|)
    ensures r == [] || !IsSpace(r[0])
  {
    s[SpaceEnd(s, 0)..]
  }

  /** `s` without its trailing white space. */
  function TrimRight(s: string): (r: string)
    ensures |r| <= |s| && r == s[..|r|]
    ensures SpaceBetween(s, |r|, |s|)
    ensures r == [] || !IsSpace(r[|r| - 1])
  {
    s[..SpaceStart(s, |s|)]
  }

  /** `strings.TrimSpace`: `s` without leading and trailing white space. */
  function TrimSpace(s: string): (r: string)
    ensures Trimmed(r)
    ensures |r| <= |s|
  {
    TrimRight(TrimLeft(s))
  }

  /** White space in a suffix of `s` is white space in `s`, shifted by where the suffix starts. */
  lemma SpaceBetweenShift(s: string, a: nat, lo: nat, hi: nat)
    requires lo <= hi && a + hi <= |s|
    ensures SpaceBetween(s[a..], lo, hi) <==> SpaceBetween(s, a + lo, a + hi)
  {
    assert forall i | lo <= i < hi :: s[a..][i] == s[a + i];
  }

  /**
   * `TrimSpace` removes white space and nothing else: its result is a slice
   * of `s`, and every character of `s` before or after that slice is white
   * space.
   */
  lemma TrimSpaceSlice(s: string)
    ensures var a := |s| - |TrimLeft(s)|;
      && a + |TrimSpace(s)| <= |s|
      && TrimSpace(s) == s[a..a + |TrimSpace(s)|]
      && SpaceBetween(s, 0, a)
      && SpaceBetween(s, a + |TrimSpace(s)|, |s|)
  {
    var l := TrimLeft(s);
    var a := |s| - |l|;
    var r := TrimRight(l);
    assert TrimSpace(s) == r;
    assert r == s[a..a + |r|] by { assert l == s[a..] && r == l[..|r|]; }
    assert SpaceBetween(s, a + |r|, |s|) by { SpaceBetweenShift(s, a, |r|, |l|); }
  }

  /** Dropping exactly the leading white space before a non-space (or the end) is `TrimLeft`. */
  lemma TrimLeftAt(s: string, a: nat)
    requires a <= |s| && SpaceBetween(s, 0, a) && (a < |s| ==> !IsSpace(s[a]))
    ensures TrimLeft(s) == s[a..]
  {
    assert SpaceEnd(s, 0) == a;
  }

  /** Dropping exactly the trailing white space after a non-space (or the start) is `TrimRight`. */
  lemma TrimRightAt(s: string, b: nat)
    requires b <= |s| && SpaceBetween(s, b, |s|) && (b > 0 ==> !IsSpace(s[b - 1]))
    ensures TrimRight(s) == s[..b]
  {
    assert SpaceStart(s, |s|) == b;
  }

  /**
   * The result of `TrimSpace` is the only trimmed slice of `s` with nothing
   * but white space around it.
   */
  lemma TrimSpaceUnique(s: string, a: nat, b: nat)
    requires a <= b <= |s|
    requires SpaceBetween(s, 0, a) && SpaceBetween(s, b, |s|)
    requires Trimmed(s[a..b])
    ensures TrimSpace(s) == s[a..b]
  {
    if a == b {
      TrimLeftAt(s, |s|);
    } else {
      assert s[a] == s[a..b][0];
      TrimLeftAt(s, a);
      assert s[b - 1] == s[a..b][b - a - 1];
      SpaceBetweenShift(s, a, b - a, |s| - a);
      TrimRightAt(s[a..], b - a);
      assert s[a..][..b - a] == s[a..b];
    }
  }

  /** Trimming a string with no white space at either end changes nothing. */
  lemma TrimSpaceOfTrimmed(s: string)
    requires Trimmed(s)
    ensures TrimSpace(s) == s
  {
  }

  /** `strings.Split(s, string(sep))`: the pieces between separators, at least one. */
  function Split(s: string, sep: char): (r: seq<string>)
    ensures |r| >= 1
    ensures forall i | 0 <= i < |r| :: sep !in r[i]
  {
    if s == [] then [[]]
    else
      var rest := Split(s[1..], sep);
      if s[0] == sep then [[]] + rest else [[s[0]] + rest[0]] + rest[1..]
  }

  /** `strings.Join(ps, string(sep))` for a non-empty list of pieces. */
  function Join(ps: seq<string>, sep: char): string
    requires |ps| >= 1
  {
    if |ps| == 1 then ps[0] else ps[0] + [sep] + Join(ps[1..], sep)
  }

  /** Splitting and joining again gives back the string. */
  lemma {:induction false} JoinSplit(s: string, sep: char)
    ensures Join(Split(s, sep), sep) == s
  {
    if s != [] {
      var rest := Split(s[1..], sep);
      JoinSplit(s[1..], sep);
      if s[0] != sep {
        if |rest| == 1 {
        } else {
          assert ([[s[0]] + rest[0]] + rest[1..])[1..] == rest[1..];
        }
      }
    }
  }

  /** A piece free of separators followed by a separator splits off as one piece. */
  lemma {:induction false} SplitPiece(p: string, sep: char, tail: string)
    requires sep !in p
    ensures Split(p + [sep] + tail, sep) == [p] + Split(tail, sep)
    ensures Split(p, sep) == [p]
  {
    if p != [] {
      SplitPiece(p[1..], sep, tail);
      assert (p + [sep] + tail)[1..] == p[1..] + [sep] + tail;
      assert [p[0]] + p[1..] == p;
    } else {
      assert p + [sep] + tail == [sep] + tail;
    }
  }

  /** Joining pieces free of separators and splitting again gives back the pieces. */
  lemma {:induction false} SplitJoin(ps: seq<string>, sep: char)
    requires |ps| >= 1
    requires forall i | 0 <= i < |ps| :: sep !in ps[i]
    ensures Split(Join(ps, sep), sep) == ps
  {
    SplitPiece(ps[0], sep, []);
    if |ps| > 1 {
      SplitJoin(ps[1..], sep);
      SplitPiece(ps[0], sep, Join(ps[1..], sep));
      assert [ps[0]] + ps[1..] == ps;
    }
  }

  predicate IsOctal(c: char) { '0' <= c <= '7' }

  predicate IsHex(c: char) { '0' <= c <= '9' || 'a' <= c <= 'f' || 'A' <= c <= 'F' }

  function HexDigit(c: char): (d: nat)
    requires IsHex(c)
    ensures d < 16
  {
    if '0' <= c <= '9' then c as int - '0' as int
    else if 'a' <= c <= 'f' then c as int - 'a' as int + 10
    else c as int - 'A' as int + 10
  }

  /** The number written by the hexadecimal digits `s`. */
  function HexValue(s: string): nat
    requires forall i | 0 <= i < |s| :: IsHex(s[i])
  {
    if s == [] then 0 else HexValue(s[..|s| - 1]) * 16 + HexDigit(s[|s| - 1])
  }

  /** `utf8.ValidRune`: a code point that is not a surrogate and not above U+10FFFF. */
  predicate ValidRune(v: int) {
    0 <= v < 0xD800 || 0xE000 <= v < 0x11_0000
  }

  /**
   * `strconv.UnquoteChar` after a backslash, inside a double-quoted literal:
   * the character denoted by the escape at the start of `t` and how many
   * characters of `t` the escape spans.
   */
  function EscapedChar(t: string): (r: Option<(char, nat)>)
    ensures r.Some? ==> 1 <= r.value.1 <= |t|
  {
    if t == [] then None
    else
      var c := t[0];
      if c == 'a' then Some(('\U{0007}', 1))
      else if c == 'b' then Some(('\U{0008}', 1))
      else if c == 'f' then Some(('\U{000C}', 1))
      else if c == 'n' then Some(('\n', 1))
      else if c == 'r' then Some(('\r', 1))
      else if c == 't' then Some(('\t', 1))
      else if c == 'v' then Some(('\U{000B}', 1))
      else if c == '\\' then Some(('\\', 1))
      else if c == '"' then Some(('"', 1))
      else if c == 'x' || c == 'u' || c == 'U' then
        var n := if c == 'x' then 2 else if c == 'u' then 4 else 8;
        if |t| < 1 + n || exists i | 1 <= i <= n :: !IsHex(t[i]) then None
        else
          var v := HexValue(t[1..1 + n]);
          if !ValidRune(v) then None else Some((v as char, 1 + n))
      else if IsOctal(c) then
        if |t| < 3 || !IsOctal(t[1]) || !IsOctal(t[2]) then None
        else
          var v := (c as int - '0' as int) * 64 + (t[1] as int - '0' as int) * 8 + (t[2] as int - '0' as int);
          if v > 255 then None else Some((v as char, 3))
      else None
  }

  /**
   * The characters denoted by the inside of a double-quoted Go literal, or
   * `None` when that inside is not legal: a raw quote or newline, or a
   * malformed escape.
   */
  function Unescape(b: string): (r: Option<string>)
    decreases |b|
  {
    if b == [] then Some([])
    else if b[0] == '"' || b[0] == '\n' then None
    else if b[0] == '\\' then
      match EscapedChar(b[1..])
      case None => None
      case Some((c, n)) =>
        match Unescape(b[1 + n..])
        case None => None
        case Some(rest) => Some([c] + rest)
    else
      match Unescape(b[1..])
      case None => None
      case Some(rest) => Some([b[0]] + rest)
  }

  /** `strconv.Unquote` on a literal that starts with a double quote. */
  function Unquote(q: string): Option<string> {
    if |q| < 2 || q[0] != '"' || q[|q| - 1] != '"' then None
    else Unescape(q[1..|q| - 1])
  }

  /** The escaped form of one character inside a double-quoted literal. */
  function EscapeChar(c: char): string {
    if c == '\\' then "\\\\" else if c == '"' then "\\\"" else if c == '\n' then "\\n" else [c]
  }

  /** The inside of a double-quoted literal denoting `s` (as `strconv.Quote` writes it for these three characters). */
  function Escape(s: string): string {
    if s == [] then [] else EscapeChar(s[0]) + Escape(s[1..])
  }

  /** `strconv.Quote` for the characters it must escape. */
  function Quote(s: string): string {
    ['"'] + Escape(s) + ['"']
  }

  /** A string without backslashes, quotes or newlines is its own escaped form. */
  lemma {:induction false} EscapePlain(s: string)
    requires forall i | 0 <= i < |s| :: s[i] != '\\' && s[i] != '"' && s[i] != '\n'
    ensures Escape(s) == s
  {
    if s != [] {
      EscapePlain(s[1..]);
      assert [s[0]] + s[1..] == s;
    }
  }

  /** Unescaping one escaped character in front of an unescapable rest. */
  lemma UnescapeEscapeChar(c: char, rest: string, u: string)
    requires Unescape(rest) == Some(u)
    ensures Unescape(EscapeChar(c) + rest) == Some([c] + u)
  {
    var b := EscapeChar(c) + rest;
    if c == '\\' || c == '"' || c == '\n' {
      assert b[0] == '\\';
      assert b[1..][0] == (if c == '\n' then 'n' else c);
      assert EscapedChar(b[1..]) == Some((c, 1));
      assert b[2..] == rest;
    } else {
      assert b[0] == c;
      assert b[1..] == rest;
    }
  }

  /** Unescaping the escaped form of a string gives back the string. */
  lemma {:induction false} UnescapeEscape(s: string)
    ensures Unescape(Escape(s)) == Some(s)
  {
    if s != [] {
      UnescapeEscape(s[1..]);
      UnescapeEscapeChar(s[0], Escape(s[1..]), s[1..]);
      assert [s[0]] + s[1..] == s;
    }
  }

  /** `strconv.Unquote(strconv.Quote(s)) == s`. */
  lemma UnquoteQuote(s: string)
    ensures Unquote(Quote(s)) == Some(s)
  {
    var q := Quote(s);
    assert q[1..|q| - 1] == Escape(s);
    UnescapeEscape(s);
  }
}
