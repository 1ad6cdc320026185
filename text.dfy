/**
 * The string operations the assembler's line parser relies on: Python's
 * `str.strip()`, `str.split()`, `str.split('\n')`, `str.upper()`, the
 * `'#'` cut and `int()` on a decimal token.
 */
module Text {
  import opened Wrappers
  import opened Seqs

  /** Python's `str.isspace` for one character. */
  predicate IsSpace(c: char)
  {
    || c == ' ' || '\t' <= c <= '\r' || '\U{1c}' <= c <= '\U{1f}'
    || c == '\U{85}' || c == '\U{a0}' || c == '\U{1680}' || '\U{2000}' <= c <= '\U{200a}'
    || c == '\U{2028}' || c == '\U{2029}' || c == '\U{202f}' || c == '\U{205f}' || c == '\U{3000}'
  }

  predicate AllSpace(s: string)
  {
    forall i :: 0 <= i < |s| ==> IsSpace(s[i])
  }

  predicate NoSpace(s: string)
  {
    forall i :: 0 <= i < |s| ==> !IsSpace(s[i])
  }

  /** Neither end of `s` is whitespace. */
  predicate Trimmed(s: string)
  {
    s == [] || (!IsSpace(s[0]) && !IsSpace(s[|s| - 1]))
  }

  function StripLeft(s: string): (r: string)
    ensures |r| <= |s|
    ensures r == [] || !IsSpace(r[0])
  {
    if s != [] && IsSpace(s[0]) then StripLeft(s[1..]) else s
  }

  /** `StripLeft` removes a whitespace prefix and nothing else. */
  lemma {:induction false} StripLeftShape(s: string)
    ensures StripLeft(s) == s[|s| - |StripLeft(s)|..]
    ensures AllSpace(s[..|s| - |StripLeft(s)|])
  {
    if s != [] && IsSpace(s[0]) {
      StripLeftShape(s[1..]);
    }
  }

  function StripRight(s: string): (r: string)
    ensures |r| <= |s|
    ensures r == [] || !IsSpace(r[|r| - 1])
  {
    if s != [] && IsSpace(s[|s| - 1]) then StripRight(s[..|s| - 1]) else s
  }

  /** `StripRight` removes a whitespace suffix and nothing else. */
  lemma {:induction false} StripRightShape(s: string)
    ensures StripRight(s) == s[..|StripRight(s)|]
    ensures AllSpace(s[|StripRight(s)|..])
  {
    if s != [] && IsSpace(s[|s| - 1]) {
      StripRightShape(s[..|s| - 1]);
    }
  }

  /** `s.strip()`: `s` without its leading and trailing whitespace. */
  function Strip(s: string): (r: string)
    ensures Trimmed(r)
  {
    StripRightShape(StripLeft(s));
    StripRight(StripLeft(s))
  }

  /** Stripping undoes any whitespace padding around an already trimmed string. */
  lemma {:induction false} StripPadded(pre: string, s: string, post: string)
    requires AllSpace(pre) && AllSpace(post) && Trimmed(s)
    ensures Strip(pre + s + post) == s
  {
    assert pre + s + post == pre + (s + post);
    if s == [] {
      assert AllSpace(pre + post);
      StripLeftPadded(pre + post, []);
      assert pre + post + [] == pre + s + post;
    } else {
      StripLeftPadded(pre, s + post);
      StripRightPadded(s, post);
    }
  }

  /** Whitespace padding never changes what a string strips to. */
  lemma StripAround(pre: string, s: string, post: string)
    requires AllSpace(pre) && AllSpace(post)
    ensures Strip(pre + s + post) == Strip(s)
  {
    var l := StripLeft(s);
    var lr := StripRight(l);
    StripLeftShape(s);
    StripRightShape(l);
    var left, right := s[..|s| - |l|], l[|lr|..];
    assert s == left + l;
    assert l == lr + right;
    assert AllSpace(pre + left);
    assert AllSpace(right + post);
    StripPadded(pre + left, lr, right + post);
    StripPadded(left, lr, right);
    ConcatAssoc(left, lr, right);
    Regroup(pre, left, lr, right, post);
  }

  lemma {:induction false} StripLeftPadded(pre: string, s: string)
    requires AllSpace(pre) && (s == [] || !IsSpace(s[0]))
    ensures StripLeft(pre + s) == s
  {
    if pre != [] {
      assert (pre + s)[1..] == pre[1..] + s;
      StripLeftPadded(pre[1..], s);
    }
  }

  lemma {:induction false} StripRightPadded(s: string, post: string)
    requires AllSpace(post) && (s == [] || !IsSpace(s[|s| - 1]))
    ensures StripRight(s + post) == s
  {
    if post != [] {
      assert (s + post)[..|s + post| - 1] == s + post[..|post| - 1];
      StripRightPadded(s, post[..|post| - 1]);
    } else {
      assert s + post == s;
    }
  }

  /** A line strips to nothing exactly when it is all whitespace. */
  lemma StripEmpty(s: string)
    ensures Strip(s) == [] <==> AllSpace(s)
  {
    if AllSpace(s) {
      StripPadded(s, [], []);
      assert s + [] + [] == s;
    } else {
      var l := StripLeft(s);
      StripLeftShape(s);
      StripRightShape(l);
      var m := |s| - |l|;
      assert forall i :: m <= i < |s| ==> s[i] == l[i - m];
    }
  }

  /** The longest whitespace-free prefix of `s`. */
  function Word(s: string): (r: string)
    ensures |r| <= |s|
  {
    if s == [] || IsSpace(s[0]) then [] else [s[0]] + Word(s[1..])
  }

  /** `s.split()`: the maximal runs of non-whitespace characters, in order. */
  function Split(s: string): (r: seq<string>)
    decreases |s|
  {
    var t := StripLeft(s);
    if t == [] then []
    else
      var w := Word(t);
      [w] + Split(t[|w|..])
  }

  /** `sep.join(ws)`. */
  function Join(ws: seq<string>, sep: string): string
  {
    if |ws| == 0 then []
    else if |ws| == 1 then ws[0]
    else ws[0] + sep + Join(ws[1..], sep)
  }

  /** Single-space joining is undone by `split()` for non-empty words without whitespace. */
  lemma {:induction false} SplitJoin(ws: seq<string>)
    requires forall k :: 0 <= k < |ws| ==> ws[k] != [] && NoSpace(ws[k])
    ensures Split(Join(ws, " ")) == ws
  {
    if |ws| == 1 {
      WordOf(ws[0], []);
      assert ws[0] + [] == ws[0];
      StripLeftPadded([], ws[0]);
      assert [] + ws[0] == ws[0];
    } else if |ws| > 1 {
      var s := Join(ws, " ");
      var rest := Join(ws[1..], " ");
      assert s == ws[0] + (" " + rest);
      StripLeftPadded([], s);
      assert [] + s == s;
      WordOf(ws[0], " " + rest);
      assert s[|ws[0]|..] == " " + rest;
      SplitJoin(ws[1..]);
      SplitSpaceFirst(" ", rest);
      assert Split(s) == [ws[0]] + Split(" " + rest);
    }
  }

  lemma {:induction false} WordOf(w: string, rest: string)
    requires NoSpace(w) && (rest == [] || IsSpace(rest[0]))
    ensures Word(w + rest) == w
  {
    if w != [] {
      assert (w + rest)[1..] == w[1..] + rest;
      WordOf(w[1..], rest);
    } else {
      assert w + rest == rest;
    }
  }

  /** Leading whitespace does not change the words. */
  lemma SplitSpaceFirst(pre: string, s: string)
    requires AllSpace(pre)
    ensures Split(pre + s) == Split(s)
  {
    StripLeftBoth(pre, s);
  }

  lemma {:induction false} StripLeftBoth(pre: string, s: string)
    requires AllSpace(pre)
    ensures StripLeft(pre + s) == StripLeft(s)
  {
    if pre != [] {
      assert (pre + s)[1..] == pre[1..] + s;
      StripLeftBoth(pre[1..], s);
    } else {
      assert pre + s == s;
    }
  }

  /** `s.split(sep)` for one separator character: always at least one piece. */
  function SplitOn(s: string, sep: char): (r: seq<string>)
    ensures |r| >= 1
  {
    if s == [] then [[]]
    else
      var rest := SplitOn(s[1..], sep);
      if s[0] == sep then [[]] + rest
      else [[s[0]] + rest[0]] + rest[1..]
  }

  /** Joining the pieces back with the separator restores the string. */
  lemma {:induction false} SplitOnJoin(s: string, sep: char)
    ensures Join(SplitOn(s, sep), [sep]) == s
  {
    if s != [] {
      var rest := SplitOn(s[1..], sep);
      SplitOnJoin(s[1..], sep);
      if s[0] == sep {
        assert SplitOn(s, sep) == [[]] + rest;
        assert ([[]] + rest)[1..] == rest;
        assert s == [] + [sep] + Join(rest, [sep]);
      } else {
        JoinFirst([s[0]], rest, [sep]);
      }
    }
  }

  /** A piece free of the separator, followed by the separator, splits off as the first piece. */
  lemma {:induction false} SplitOnPiece(a: string, b: string, sep: char)
    requires sep !in a
    ensures SplitOn(a + [sep] + b, sep) == [a] + SplitOn(b, sep)
  {
    var s := a + [sep] + b;
    if a == [] {
      assert s == [sep] + b && s[1..] == b;
    } else {
      assert s[1..] == a[1..] + [sep] + b;
      SplitOnPiece(a[1..], b, sep);
      assert [a[0]] + a[1..] == a;
    }
  }

  /** A string free of the separator is a single piece. */
  lemma {:induction false} SplitOnWhole(a: string, sep: char)
    requires sep !in a
    ensures SplitOn(a, sep) == [a]
  {
    if a != [] {
      SplitOnWhole(a[1..], sep);
      assert [a[0]] + a[1..] == a;
    }
  }

  /** Splitting undoes joining when no piece contains the separator. */
  lemma {:induction false} JoinSplitOn(ws: seq<string>, sep: char)
    requires |ws| >= 1
    requires forall k :: 0 <= k < |ws| ==> sep !in ws[k]
    ensures SplitOn(Join(ws, [sep]), sep) == ws
  {
    if |ws| == 1 {
      SplitOnWhole(ws[0], sep);
    } else {
      JoinSplitOn(ws[1..], sep);
      SplitOnPiece(ws[0], Join(ws[1..], [sep]), sep);
      assert [ws[0]] + ws[1..] == ws;
    }
  }

  lemma JoinFirst(c: string, ws: seq<string>, sep: string)
    requires |ws| >= 1
    ensures Join([c + ws[0]] + ws[1..], sep) == c + Join(ws, sep)
  {
    var v := [c + ws[0]] + ws[1..];
    assert v[1..] == ws[1..];
  }

  /** `s[:s.index('#')]` when `'#' in s`, else `s`. */
  function BeforeHash(s: string): string
  {
    if s == [] || s[0] == '#' then [] else [s[0]] + BeforeHash(s[1..])
  }

  /** Everything from the first `#` on is dropped, and a line without `#` is kept whole. */
  lemma {:induction false} BeforeHashComment(code: string, comment: string)
    requires '#' !in code
    ensures BeforeHash(code + "#" + comment) == code
    ensures BeforeHash(code) == code
  {
    if code != [] {
      assert (code + "#" + comment)[1..] == code[1..] + "#" + comment;
      BeforeHashComment(code[1..], comment);
    } else {
      assert code + "#" + comment == "#" + comment;
    }
  }

  function UpperChar(c: char): char
  {
    if 'a' <= c <= 'z' then (c as int - 32) as char else c
  }

  /** `s.upper()` on ASCII letters. */
  function Upper(s: string): (r: string)
    ensures |r| == |s|
  {
    if s == [] then [] else [UpperChar(s[0])] + Upper(s[1..])
  }

  lemma {:induction false} UpperAt(s: string)
    ensures forall i :: 0 <= i < |s| ==> Upper(s)[i] == UpperChar(s[i])
  {
    if s != [] {
      UpperAt(s[1..]);
    }
  }

  /** Every character is an ASCII letter or `_`. */
  predicate Identifier(s: string)
  {
    forall k :: 0 <= k < |s| ==> 'A' <= s[k] <= 'Z' || 'a' <= s[k] <= 'z' || s[k] == '_'
  }

  lemma IdentifierNoSpace(s: string)
    requires Identifier(s)
    ensures NoSpace(s) && '#' !in s
  {
    forall k | 0 <= k < |s|
      ensures !IsSpace(s[k]) && s[k] != '#'
    {
      var c := s[k];
      assert 'A' <= c <= 'Z' || 'a' <= c <= 'z' || c == '_';
    }
  }

  /** A string without lower-case ASCII letters is its own upper case. */
  lemma UpperFixed(s: string)
    requires forall k :: 0 <= k < |s| ==> !('a' <= s[k] <= 'z')
    ensures Upper(s) == s
  {
  }

  predicate IsDigit(c: char)
  {
    '0' <= c <= '9'
  }

  /** A decimal literal as `int()` accepts it: digits with single `_`s between them. */
  predicate DecimalLiteral(s: string)
  {
    && |s| > 0 && IsDigit(s[0]) && IsDigit(s[|s| - 1])
    && (forall i :: 0 <= i < |s| ==> IsDigit(s[i]) || s[i] == '_')
    && (forall i :: 0 < i < |s| ==> s[i - 1] == '_' ==> s[i] != '_')
  }

  /** The value of the digits of `s`, underscores skipped. */
  function DigitsValue(s: string): nat
  {
    if s == [] then 0
    else if IsDigit(s[|s| - 1]) then 10 * DigitsValue(s[..|s| - 1]) + (s[|s| - 1] as int - '0' as int)
    else DigitsValue(s[..|s| - 1])
  }

  /** `int(token)` in base 10: an optional sign, then a decimal literal. */
  function ParseInt(token: string): Option<int>
  {
    var negative := token != [] && token[0] == '-';
    var digits := if token != [] && (token[0] == '-' || token[0] == '+') then token[1..] else token;
    if !DecimalLiteral(digits) then None
    else Some(if negative then -(DigitsValue(digits) as int) else DigitsValue(digits))
  }

  function DigitChar(d: nat): char
    requires d < 10
  {
    ('0' as int + d) as char
  }

  /** `str(n)` for a natural number. */
  function NatToString(n: nat): (r: string)
    ensures DecimalLiteral(r)
    ensures forall i :: 0 <= i < |r| ==> IsDigit(r[i])
    ensures DigitsValue(r) == n
  {
    if n < 10 then [DigitChar(n)]
    else
      var r := NatToString(n / 10) + [DigitChar(n % 10)];
      assert r[..|r| - 1] == NatToString(n / 10);
      r
  }

  /** A numeral is a non-empty word without whitespace or `#`. */
  lemma NumeralWord(n: nat)
    ensures NatToString(n) != [] && NoSpace(NatToString(n)) && '#' !in NatToString(n)
  {
    var r := NatToString(n);
    forall k | 0 <= k < |r|
      ensures !IsSpace(r[k]) && r[k] != '#'
    {
      assert IsDigit(r[k]);
    }
  }

  /** `str(z)` for any integer. */
  function IntToString(z: int): string
  {
    if z < 0 then "-" + NatToString(-z) else NatToString(z)
  }

  /** `int(str(z)) == z`. */
  lemma ParseIntToString(z: int)
    ensures ParseInt(IntToString(z)) == Some(z)
  {
    if z < 0 {
      assert ("-" + NatToString(-z))[1..] == NatToString(-z);
    }
  }
}
