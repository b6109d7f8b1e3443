/**
 * The Python string operations the installer relies on, over strings as
 * sequences of Unicode scalar values: `str.strip()`, `str.lower()`,
 * `str.startswith`, the `in` substring test, `str.split(sep)`,
 * `sep.join(xs)` and `repr` of a list of strings.
 */
module Text {

  datatype Option<+T> = None | Some(value: T)

  // ---------------------------------------------------------------------------
  // Whitespace and str.strip()
  // ---------------------------------------------------------------------------

  /** The characters for which Python's `str.isspace()` holds; `strip()` removes these. */
  predicate IsSpace(c: char) {
    || ('\t' <= c <= '\r')
    || ('\U{1C}' <= c <= '\U{1F}')
    || c == ' '
    || c == '\U{85}'
    || c == '\U{A0}'
    || c == '\U{1680}'
    || ('\U{2000}' <= c <= '\U{200A}')
    || c == '\U{2028}'
    || c == '\U{2029}'
    || c == '\U{202F}'
    || c == '\U{205F}'
    || c == '\U{3000}'
  }

  predicate AllSpace(s: string) {
    forall i :: 0 <= i < |s| ==> IsSpace(s[i])
  }

  /** `s.lstrip()`: the suffix of `s` left after dropping its leading whitespace. */
  function TrimLeft(s: string): (r: string)
    ensures |r| <= |s| && r == s[|s| - |r|..]
    ensures AllSpace(s[..|s| - |r|])
    ensures r == [] || !IsSpace(r[0])
    decreases |s|
  {
    if s != [] && IsSpace(s[0]) then
      var r := TrimLeft(s[1..]);
      assert s[..|s| - |r|] == [s[0]] + s[1..][..|s| - 1 - |r|];
      r
    else
      s
  }

  /** `s.rstrip()`: the prefix of `s` left after dropping its trailing whitespace. */
  function TrimRight(s: string): (r: string)
    ensures |r| <= |s| && r == s[..|r|]
    ensures AllSpace(s[|r|..])
    ensures r == [] || !IsSpace(r[|r| - 1])
    decreases |s|
  {
    if s != [] && IsSpace(s[|s| - 1]) then
      var r := TrimRight(s[..|s| - 1]);
      assert s[|r|..] == s[..|s| - 1][|r|..] + [s[|s| - 1]];
      r
    else
      s
  }

  /** `s.strip()`: empty exactly when `s` is all whitespace, otherwise it begins and ends with a non-space. */
  function Strip(s: string): (r: string)
    ensures |r| <= |s|
    ensures r == [] <==> AllSpace(s)
    ensures r != [] ==> !IsSpace(r[0]) && !IsSpace(r[|r| - 1])
  {
    var t := TrimLeft(s);
    var r := TrimRight(t);
    assert r == [] && AllSpace(t) ==> AllSpace(s) by {
      if r == [] && AllSpace(t) {
        assert s == s[..|s| - |t|] + t;
      }
    }
    assert AllSpace(s) ==> t == [];
    r
  }

  /** Where `Strip(s)` starts inside `s`. */
  function StripStart(s: string): nat {
    |s| - |TrimLeft(s)|
  }

  /** `Strip(s)` is the slice of `s` between two runs of whitespace. */
  lemma StripSlice(s: string)
    ensures StripStart(s) + |Strip(s)| <= |s|
    ensures Strip(s) == s[StripStart(s)..StripStart(s) + |Strip(s)|]
    ensures AllSpace(s[..StripStart(s)])
    ensures AllSpace(s[StripStart(s) + |Strip(s)|..])
  {
    var t := TrimLeft(s);
    var a := StripStart(s);
    var r := Strip(s);
    assert t == s[a..];
    assert r == t[..|r|];
    assert s[a + |r|..] == t[|r|..];
  }

  /** `lstrip` is pinned down by where the first non-space character is. */
  lemma TrimLeftIs(s: string, n: nat)
    requires n <= |s| && AllSpace(s[..n]) && (n < |s| ==> !IsSpace(s[n]))
    ensures TrimLeft(s) == s[n..]
  {
    var m := |s| - |TrimLeft(s)|;
    forall i | 0 <= i < n ensures IsSpace(s[i]) {
      assert s[..n][i] == s[i];
    }
    forall i | 0 <= i < m ensures IsSpace(s[i]) {
      assert s[..m][i] == s[i];
    }
  }

  /** `rstrip` is pinned down by where the last non-space character is. */
  lemma {:induction false} TrimRightIs(s: string, n: nat)
    requires n <= |s| && AllSpace(s[n..]) && (0 < n ==> !IsSpace(s[n - 1]))
    ensures TrimRight(s) == s[..n]
    decreases |s|
  {
    if n < |s| {
      var t := s[..|s| - 1];
      assert s[n..][|s| - 1 - n] == s[|s| - 1];
      assert t[n..] == s[n..][..|s| - 1 - n];
      TrimRightIs(t, n);
    }
  }

  /** Surrounding whitespace is what `strip` removes: text that neither starts nor ends with a space comes back whole. */
  lemma StripPadded(w1: string, t: string, w2: string)
    requires AllSpace(w1) && AllSpace(w2)
    requires t == [] || (!IsSpace(t[0]) && !IsSpace(t[|t| - 1]))
    ensures Strip(w1 + t + w2) == t
  {
    var s := w1 + t + w2;
    if t == [] {
      assert AllSpace(s) by {
        assert s == w1 + w2;
      }
    } else {
      assert s[..|w1|] == w1;
      assert s[|w1|] == t[0];
      TrimLeftIs(s, |w1|);
      var u := s[|w1|..];
      assert u == t + w2;
      assert u[|t|..] == w2;
      assert u[|t| - 1] == t[|t| - 1];
      TrimRightIs(u, |t|);
      assert u[..|t|] == t;
    }
  }

  /** `Strip(s)` is a substring of `s`. */
  lemma StripInside(s: string)
    ensures Contains(s, Strip(s))
  {
    StripSlice(s);
    assert OccursAt(s, Strip(s), StripStart(s));
  }

  /** A string is its own strip exactly when it is empty or neither end is whitespace. */
  lemma StripFixedPoint(s: string)
    ensures Strip(s) == s <==> s == [] || (!IsSpace(s[0]) && !IsSpace(s[|s| - 1]))
  {
    if s != [] && !IsSpace(s[0]) && !IsSpace(s[|s| - 1]) {
      assert TrimLeft(s) == s;
      assert TrimRight(s) == s;
    }
  }

  /** Stripping twice is stripping once. */
  lemma StripIdempotent(s: string)
    ensures Strip(Strip(s)) == Strip(s)
  {
    StripFixedPoint(Strip(s));
  }

  // ---------------------------------------------------------------------------
  // str.lower()
  // ---------------------------------------------------------------------------

  /** Lower-casing of one character, ASCII letters only. */
  function LowerChar(c: char): char {
    if 'A' <= c <= 'Z' then (c as int + 32) as char else c
  }

  /** `s.lower()`, restricted to ASCII letters. */
  function Lower(s: string): (r: string)
    ensures |r| == |s|
    ensures forall i :: 0 <= i < |s| ==> r[i] == LowerChar(s[i])
  {
    seq(|s|, i requires 0 <= i < |s| => LowerChar(s[i]))
  }

  predicate IsAsciiUpper(c: char) {
    'A' <= c <= 'Z'
  }

  /** Two characters are the same letter up to ASCII case: equal, or one is the capital of the other. */
  predicate SameLetterIgnoringCase(a: char, b: char) {
    || a == b
    || (IsAsciiUpper(a) && b as int == a as int + 32)
    || (IsAsciiUpper(b) && a as int == b as int + 32)
  }

  predicate SameIgnoringAsciiCase(a: string, b: string) {
    |a| == |b| && forall i :: 0 <= i < |a| ==> SameLetterIgnoringCase(a[i], b[i])
  }

  /** `lower()` leaves no capital A-Z, lowers each capital by 32 code points, and keeps every other character. */
  lemma LowerResult(s: string, i: int)
    requires 0 <= i < |s|
    ensures !IsAsciiUpper(Lower(s)[i])
    ensures IsAsciiUpper(s[i]) ==> Lower(s)[i] as int == s[i] as int + 32
    ensures !IsAsciiUpper(s[i]) ==> Lower(s)[i] == s[i]
  {
  }

  /** Lowering twice is lowering once. */
  lemma LowerIdempotent(s: string)
    ensures Lower(Lower(s)) == Lower(s)
  {
    forall i | 0 <= i < |s| ensures Lower(Lower(s))[i] == Lower(s)[i] {
      LowerResult(s, i);
    }
  }

  /** Two strings lower to the same text exactly when they agree up to ASCII case. */
  lemma LowerEqualIff(a: string, b: string)
    ensures Lower(a) == Lower(b) <==> SameIgnoringAsciiCase(a, b)
  {
    if Lower(a) == Lower(b) {
      forall i | 0 <= i < |a| ensures SameLetterIgnoringCase(a[i], b[i]) {
        assert LowerChar(a[i]) == Lower(a)[i] == Lower(b)[i] == LowerChar(b[i]);
      }
    }
    if SameIgnoringAsciiCase(a, b) {
      forall i | 0 <= i < |a| ensures Lower(a)[i] == Lower(b)[i] {
        assert SameLetterIgnoringCase(a[i], b[i]);
      }
    }
  }

  lemma LowerSlice(s: string, i: int, j: int)
    requires 0 <= i <= j <= |s|
    ensures Lower(s)[i..j] == Lower(s[i..j])
  {
  }

  /** Lower-casing keeps every occurrence of a substring where it was. */
  lemma LowerKeepsOccurrence(hay: string, needle: string, i: int)
    requires OccursAt(hay, needle, i)
    ensures OccursAt(Lower(hay), Lower(needle), i)
  {
    LowerSlice(hay, i, i + |needle|);
  }

  // ---------------------------------------------------------------------------
  // Substrings: startswith, `in`, the first occurrence
  // ---------------------------------------------------------------------------

  /** `p` occurs in `s` starting at index `i`. */
  predicate OccursAt(s: string, p: string, i: int) {
    0 <= i && i + |p| <= |s| && s[i..i + |p|] == p
  }

  /** `s.startswith(p)`. */
  predicate StartsWith(s: string, p: string) {
    |p| <= |s| && s[..|p|] == p
  }

  /** Occurrences in `s` past its first character are the occurrences in `s[1..]`, shifted by one. */
  lemma OccursShift(s: string, p: string)
    requires s != []
    ensures forall i {:trigger OccursAt(s, p, i)} :: 1 <= i ==> (OccursAt(s, p, i) <==> OccursAt(s[1..], p, i - 1))
    ensures forall i {:trigger OccursAt(s[1..], p, i)} :: 0 <= i ==> (OccursAt(s[1..], p, i) <==> OccursAt(s, p, i + 1))
  {
    forall i | 0 <= i ensures OccursAt(s[1..], p, i) <==> OccursAt(s, p, i + 1) {
      OccursShiftAt(s, p, i);
    }
    forall i | 1 <= i ensures OccursAt(s, p, i) <==> OccursAt(s[1..], p, i - 1) {
      OccursShiftAt(s, p, i - 1);
    }
  }

  lemma OccursShiftAt(s: string, p: string, i: int)
    requires s != [] && 0 <= i
    ensures OccursAt(s[1..], p, i) <==> OccursAt(s, p, i + 1)
  {
    if 0 <= i && i + 1 + |p| <= |s| {
      assert s[1..][i..i + |p|] == s[i + 1..i + 1 + |p|];
    }
  }

  /** Python's `needle in hay`; the empty string occurs in every string. */
  function Contains(hay: string, needle: string): (b: bool)
    ensures b <==> exists i :: OccursAt(hay, needle, i)
    decreases |hay|
  {
    if |needle| > |hay| then
      false
    else if hay[..|needle|] == needle then
      assert OccursAt(hay, needle, 0);
      true
    else
      OccursShift(hay, needle);
      Contains(hay[1..], needle)
  }

  /** `needle in hay` is transitive: a substring of a substring is a substring. */
  lemma ContainsTransitive(a: string, b: string, c: string)
    requires Contains(a, b) && Contains(b, c)
    ensures Contains(a, c)
  {
    var i :| OccursAt(a, b, i);
    var j :| OccursAt(b, c, j);
    assert forall k :: 0 <= k < |c| ==> c[k] == b[j + k] == a[i + j + k];
    assert OccursAt(a, c, i + j);
  }

  /** The first index at which the non-empty `p` occurs in `s`, if any. */
  function Find(s: string, p: string): (r: Option<nat>)
    requires p != []
    ensures r.Some? ==> OccursAt(s, p, r.value)
    ensures r.Some? ==> forall j :: 0 <= j < r.value ==> !OccursAt(s, p, j)
    ensures r.None? ==> forall j :: !OccursAt(s, p, j)
    decreases |s|
  {
    if |s| < |p| then
      None
    else if s[..|p|] == p then
      Some(0)
    else
      OccursShift(s, p);
      match Find(s[1..], p)
      case None => None
      case Some(i) => Some(i + 1)
  }

  /** An occurrence with none before it is the one `Find` reports. */
  lemma FindIs(s: string, p: string, i: nat)
    requires p != []
    requires OccursAt(s, p, i)
    requires forall j :: 0 <= j < i ==> !OccursAt(s, p, j)
    ensures Find(s, p) == Some(i)
  {
  }

  /** Occurrences inside a prefix are the occurrences that end within it. */
  lemma OccursInPrefix(s: string, p: string, n: nat, j: int)
    requires n <= |s|
    ensures OccursAt(s[..n], p, j) <==> OccursAt(s, p, j) && j + |p| <= n
  {
    if 0 <= j && j + |p| <= n {
      assert s[..n][j..j + |p|] == s[j..j + |p|];
    }
  }

  predicate NoneBefore(t: string, p: string, k: int) {
    forall j :: 0 <= j < k ==> !OccursAt(t, p, j)
  }

  /** The text of `t` before the first occurrence of the non-empty `p`, or all of `t`. */
  function Before(t: string, p: string): (r: string)
    requires p != []
    ensures |r| <= |t| && r == t[..|r|]
    ensures NoneBefore(t, p, |r|)
    ensures |r| < |t| ==> OccursAt(t, p, |r|)
  {
    match Find(t, p)
    case None => t
    case Some(i) => t[..i]
  }

  /** `Before` is pinned down by its contract: the prefix up to the first occurrence. */
  lemma BeforeIs(t: string, p: string, n: nat)
    requires p != [] && n <= |t|
    requires NoneBefore(t, p, n)
    requires n < |t| ==> OccursAt(t, p, n)
    ensures Before(t, p) == t[..n]
  {

  }

  /** An occurrence that ends inside a prefix is an occurrence in the prefix. */
  lemma OccursInPrefixAt(s: string, p: string, n: nat, j: nat)
    requires n <= |s| && OccursAt(s, p, j) && j + |p| <= n
    ensures OccursAt(s[..n], p, j)
  {
    OccursInPrefix(s, p, n, j);
  }

  /** A prefix has no occurrence before `m` when the whole string has none. */
  lemma PrefixNoneBefore(s: string, p: string, n: nat, m: int)
    requires n <= |s| && NoneBefore(s, p, m)
    ensures NoneBefore(s[..n], p, m)
  {
    forall j | 0 <= j < m ensures !OccursAt(s[..n], p, j) {
      OccursInPrefix(s, p, n, j);
    }
  }

  /** A prefix of length `n` holds no occurrence of `p` when none begins before `n - |p| + 1`. */
  lemma PrefixClear(s: string, p: string, n: nat)
    requires n <= |s| && NoneBefore(s, p, n - |p| + 1)
    ensures NoneBefore(s[..n], p, n)
  {
    forall j | 0 <= j < n ensures !OccursAt(s[..n], p, j) {
      OccursInPrefix(s, p, n, j);
    }
  }

  // ---------------------------------------------------------------------------
  // str.split(sep) and sep.join(xs)
  // ---------------------------------------------------------------------------

  /** `s.split(sep)` for a non-empty separator: the pieces between non-overlapping occurrences, left to right. */
  function Split(s: string, sep: string): (pieces: seq<string>)
    requires sep != []
    ensures |pieces| >= 1
    decreases |s|
  {
    match Find(s, sep)
    case None => [s]
    case Some(i) => [s[..i]] + Split(s[i + |sep|..], sep)
  }

  /** `s.split(sep)[0]` is the text before the first occurrence of `sep`. */
  lemma SplitHead(s: string, sep: string)
    requires sep != []
    ensures Split(s, sep)[0] == Before(s, sep)
  {
  }

  /** `sep.join(xs)`. */
  function Join(xs: seq<string>, sep: string): string
    decreases |xs|
  {
    if xs == [] then []
    else if |xs| == 1 then xs[0]
    else xs[0] + sep + Join(xs[1..], sep)
  }

  /** Joining the pieces of a split with the same separator gives back the string. */
  lemma {:induction false} JoinSplit(s: string, sep: string)
    requires sep != []
    ensures Join(Split(s, sep), sep) == s
    decreases |s|
  {
    var f := Find(s, sep);
    if f.Some? {
      var i := f.value;
      var rest := s[i + |sep|..];
      assert Split(s, sep) == [s[..i]] + Split(rest, sep);
      JoinSplit(rest, sep);
      JoinCons(s[..i], Split(rest, sep), sep);
      Around(s, i, |sep|);
    } else {
      assert Split(s, sep) == [s];
    }
  }

  /** A string is the text before a slice, the slice, and the text after it. */
  lemma Around(s: string, i: nat, n: nat)
    requires i + n <= |s|
    ensures s == s[..i] + s[i..i + n] + s[i + n..]
  {
  }

  lemma JoinCons(x: string, xs: seq<string>, sep: string)
    requires xs != []
    ensures Join([x] + xs, sep) == x + sep + Join(xs, sep)
  {
    assert ([x] + xs)[1..] == xs;
  }

  lemma JoinAppend(xs: seq<string>, ys: seq<string>, sep: string)
    requires xs != [] && ys != []
    ensures Join(xs + ys, sep) == Join(xs, sep) + sep + Join(ys, sep)
    decreases |xs|
  {
    if |xs| == 1 {
      assert (xs + ys)[1..] == ys;
    } else {
      assert (xs + ys)[1..] == xs[1..] + ys;
      JoinAppend(xs[1..], ys, sep);
    }
  }

  /** The first occurrence of a one-character separator after a piece free of it is right after that piece. */
  lemma FindAfterPiece(x: string, sep: string, rest: string)
    requires |sep| == 1 && sep[0] !in x
    ensures Find(x + sep + rest, sep) == Some(|x|)
  {
    var s := x + sep + rest;
    assert s[|x|..|x| + 1] == sep;
    forall j | 0 <= j < |x| ensures !OccursAt(s, sep, j) {
      assert s[j] == x[j];
    }
    FindIs(s, sep, |x|);
  }

  /** Splitting a join on a one-character separator that no element contains gives back the elements. */
  lemma {:induction false} SplitJoin(xs: seq<string>, sep: string)
    requires |sep| == 1 && xs != []
    requires forall k :: 0 <= k < |xs| ==> sep[0] !in xs[k]
    ensures Split(Join(xs, sep), sep) == xs
    decreases |xs|
  {
    if |xs| == 1 {
      var x := xs[0];
      forall j ensures !OccursAt(x, sep, j) {
        if 0 <= j < |x| {
          assert x[j..j + 1][0] == x[j];
        }
      }
      assert Find(x, sep).None?;
    } else {
      var x := xs[0];
      var rest := Join(xs[1..], sep);
      FindAfterPiece(x, sep, rest);
      var s := x + sep + rest;
      assert s[..|x|] == x;
      assert s[|x| + 1..] == rest;
      SplitJoin(xs[1..], sep);
      assert xs == [x] + xs[1..];
    }
  }

  // ---------------------------------------------------------------------------
  // repr() of a list of strings, as Python prints it in an f-string
  // ---------------------------------------------------------------------------

  function HexDigit(d: nat): char
    requires d < 16
  {
    if d < 10 then ('0' as int + d) as char else ('a' as int + d - 10) as char
  }

  predicate IsHexDigit(c: char) {
    ('0' <= c <= '9') || ('a' <= c <= 'f')
  }

  function HexValue(c: char): (d: nat)
    requires IsHexDigit(c)
    ensures d < 16
  {
    if c <= '9' then c as int - '0' as int else c as int - 'a' as int + 10
  }

  /** Characters `repr` writes as `\xhh`: the C0 controls other than tab, newline and return, and U+007F to U+00A0. */
  predicate IsHexEscaped(c: char) {
    (c < ' ' && c != '\t' && c != '\n' && c != '\r') || ('\U{7F}' <= c <= '\U{A0}')
  }

  /** The quote `repr` puts around `s`: double quotes only when `s` has a single quote and no double quote. */
  function QuoteFor(s: string): char {
    if '\'' in s && '"' !in s then '"' else '\''
  }

  /** How `repr` writes one character of a string quoted with `q`. */
  function EscapeChar(c: char, q: char): string {
    if c == '\\' || c == q then ['\\', c]
    else if c == '\t' then "\\t"
    else if c == '\n' then "\\n"
    else if c == '\r' then "\\r"
    else if IsHexEscaped(c) then ['\\', 'x', HexDigit(c as int / 16), HexDigit(c as int % 16)]
    else [c]
  }

  function Escape(s: string, q: char): string
    decreases |s|
  {
    if s == [] then [] else EscapeChar(s[0], q) + Escape(s[1..], q)
  }

  /** `repr(s)` for a string `s`. */
  function ReprStr(s: string): string {
    var q := QuoteFor(s);
    [q] + Escape(s, q) + [q]
  }

  function ReprAll(xs: seq<string>): (rs: seq<string>)
    ensures |rs| == |xs|
    ensures forall k :: 0 <= k < |xs| ==> rs[k] == ReprStr(xs[k])
  {
    seq(|xs|, k requires 0 <= k < |xs| => ReprStr(xs[k]))
  }

  /** `repr(xs)` (and so `f"{xs}"`) for a list of strings. */
  function ReprList(xs: seq<string>): string {
    "[" + Join(ReprAll(xs), ", ") + "]"
  }

  /** The repr of an empty list, and of a list of one string. */
  lemma ReprListShort(x: string)
    ensures ReprList([]) == "[]"
    ensures ReprList([x]) == "[" + ReprStr(x) + "]"
  {
    assert ReprAll([x]) == [ReprStr(x)];
  }

  /** The repr of a list grows element by element: its closing `]` gives way to `, `, the new element's repr and `]`. */
  lemma ReprListSnoc(xs: seq<string>, y: string)
    requires xs != []
    ensures var r := ReprList(xs);
      |r| >= 2 && ReprList(xs + [y]) == r[..|r| - 1] + ", " + ReprStr(y) + "]"
  {
    var rs := ReprAll(xs);
    assert ReprAll(xs + [y]) == rs + [ReprStr(y)];
    JoinAppend(rs, [ReprStr(y)], ", ");
    var r := ReprList(xs);
    assert r == "[" + Join(rs, ", ") + "]";
    assert r[..|r| - 1] == "[" + Join(rs, ", ");
  }

  function Prepend(c: char, r: Option<string>): Option<string> {
    match r
    case None => None
    case Some(t) => Some([c] + t)
  }

  /** Reads back the body of a Python string literal written with the escapes `repr` uses. */
  function Unescape(t: string): Option<string>
    decreases |t|
  {
    if t == [] then Some([])
    else if t[0] != '\\' then Prepend(t[0], Unescape(t[1..]))
    else if |t| < 2 then None
    else if t[1] == '\\' || t[1] == '\'' || t[1] == '"' then Prepend(t[1], Unescape(t[2..]))
    else if t[1] == 't' then Prepend('\t', Unescape(t[2..]))
    else if t[1] == 'n' then Prepend('\n', Unescape(t[2..]))
    else if t[1] == 'r' then Prepend('\r', Unescape(t[2..]))
    else if t[1] == 'x' && |t| >= 4 && IsHexDigit(t[2]) && IsHexDigit(t[3]) then
      Prepend((HexValue(t[2]) * 16 + HexValue(t[3])) as char, Unescape(t[4..]))
    else None
  }

  lemma HexRoundTrip(d: nat)
    requires d < 16
    ensures IsHexDigit(HexDigit(d)) && HexValue(HexDigit(d)) == d
  {
  }

  /** Reading back one escaped character followed by more text yields that character first. */
  lemma UnescapeChar(c: char, q: char, rest: string)
    requires q == '\'' || q == '"'
    ensures Unescape(EscapeChar(c, q) + rest) == Prepend(c, Unescape(rest))
  {
    var e := EscapeChar(c, q);
    var t := e + rest;
    if c == '\\' || c == q {
      assert t[2..] == rest;
    } else if c == '\t' || c == '\n' || c == '\r' {
      assert t[2..] == rest;
    } else if IsHexEscaped(c) {
      var hi, lo := c as int / 16, c as int % 16;
      HexRoundTrip(hi);
      HexRoundTrip(lo);
      assert t[4..] == rest;
      assert (HexValue(t[2]) * 16 + HexValue(t[3])) as char == c;
    } else {
      assert t[1..] == rest;
    }
  }

  /** `repr`'s escaping loses nothing: reading the literal back gives the original string. */
  lemma {:induction false} UnescapeEscape(s: string, q: char)
    requires q == '\'' || q == '"'
    ensures Unescape(Escape(s, q)) == Some(s)
    decreases |s|
  {
    if s != [] {
      assert Escape(s, q) == EscapeChar(s[0], q) + Escape(s[1..], q);
      UnescapeChar(s[0], q, Escape(s[1..], q));
      UnescapeEscape(s[1..], q);
      assert [s[0]] + s[1..] == s;
    } else {
      assert Escape(s, q) == [];
    }
  }

  /** The body of `repr(s)` between its quotes reads back as `s`. */
  lemma ReprStrRoundTrip(s: string)
    ensures var r := ReprStr(s);
      && |r| >= 2 && r[0] == r[|r| - 1] == QuoteFor(s)
      && Unescape(r[1..|r| - 1]) == Some(s)
  {
    var q := QuoteFor(s);
    var r := ReprStr(s);
    assert r[1..|r| - 1] == Escape(s, q);
    UnescapeEscape(s, q);
  }
}
