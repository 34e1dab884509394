/** The JavaScript string operations the dashboard relies on: `toLowerCase`, `trim`,
    `includes`, `split` on one character, `join`, and number-to-string conversion. */
module Text {

  // ---------------------------------------------------------------------------
  // Case folding (ASCII letters only)
  // ---------------------------------------------------------------------------

  predicate IsAsciiUpper(c: char) { 'A' <= c <= 'Z' }

  predicate IsAsciiLower(c: char) { 'a' <= c <= 'z' }

  function LowerChar(c: char): char {
    if IsAsciiUpper(c) then (c as int + 32) as char else c
  }

  function UpperChar(c: char): char {
    if IsAsciiLower(c) then (c as int - 32) as char else c
  }

  /** `String.prototype.toLowerCase`, restricted to the ASCII letters. */
  function ToLower(s: string): (r: string)
    ensures |r| == |s|
    ensures forall i :: 0 <= i < |s| ==> r[i] == LowerChar(s[i])
    ensures forall i :: 0 <= i < |r| ==> !IsAsciiUpper(r[i])
  {
    seq(|s|, i requires 0 <= i < |s| => LowerChar(s[i]))
  }

  /** Lower-casing an already lower-cased string changes nothing. */
  lemma ToLowerIdempotent(s: string)
    ensures ToLower(ToLower(s)) == ToLower(s)
  {
  }

  /** The first character upper-cased, the rest unchanged. */
  function Capitalize(s: string): (r: string)
    ensures |r| == |s|
  {
    if |s| == 0 then "" else [UpperChar(s[0])] + s[1..]
  }

  /** Capitalising a text that starts with a lower-case letter changes it. */
  lemma CapitalizeChangesLower(s: string)
    requires |s| > 0 && IsAsciiLower(s[0])
    ensures Capitalize(s) != s
  {
    assert Capitalize(s)[0] != s[0];
  }

  /** `t` is `s` with its first character upper-cased. */
  lemma CapitalizeIs(s: string, t: string)
    requires |s| > 0 && |t| == |s| && t[0] == UpperChar(s[0]) && t[1..] == s[1..]
    ensures Capitalize(s) == t
  {
    assert t == [t[0]] + t[1..];
  }

  // ---------------------------------------------------------------------------
  // Trimming
  // ---------------------------------------------------------------------------

  /** The characters `String.prototype.trim` strips: the ECMAScript WhiteSpace and
      LineTerminator code points of the Basic Multilingual Plane. */
  predicate IsWhitespace(c: char) {
    || c == '\t' || c == '\n' || c == '\U{000B}' || c == '\U{000C}' || c == '\r' || c == ' '
    || c == '\U{00A0}' || c == '\U{1680}' || ('\U{2000}' <= c <= '\U{200A}')
    || c == '\U{2028}' || c == '\U{2029}' || c == '\U{202F}' || c == '\U{205F}'
    || c == '\U{3000}' || c == '\U{FEFF}'
  }

  predicate AllWhitespace(s: string) {
    forall i :: 0 <= i < |s| ==> IsWhitespace(s[i])
  }

  /** The number of whitespace characters `s` starts with. */
  function LeadingSpace(s: string): (n: nat)
    ensures n <= |s|
    ensures forall i :: 0 <= i < n ==> IsWhitespace(s[i])
    ensures n < |s| ==> !IsWhitespace(s[n])
    decreases |s|
  {
    if |s| > 0 && IsWhitespace(s[0]) then 1 + LeadingSpace(s[1..]) else 0
  }

  /** The position where the whitespace `s` ends with begins. */
  function TrailingSpaceStart(s: string): (m: nat)
    ensures m <= |s|
    ensures forall i :: m <= i < |s| ==> IsWhitespace(s[i])
    ensures m > 0 ==> !IsWhitespace(s[m - 1])
    decreases |s|
  {
    if |s| > 0 && IsWhitespace(s[|s| - 1]) then TrailingSpaceStart(s[..|s| - 1]) else |s|
  }

  /** `r` is what is left of `s` once its first `n` characters and everything from
      position `m` on, all of them whitespace, are cut away. */
  predicate StripsEnds(s: string, r: string, n: int, m: int) {
    0 <= n <= m <= |s| && r == s[n..m] && AllWhitespace(s[..n]) && AllWhitespace(s[m..])
  }

  /** `String.prototype.trim`: `s` without its leading and trailing whitespace. Only
      whitespace is cut, and what is left neither starts nor ends with any, which
      determines the result. */
  function Trim(s: string): (r: string)
    ensures exists n, m :: StripsEnds(s, r, n, m)
    ensures r == "" <==> AllWhitespace(s)
    ensures r != "" ==> !IsWhitespace(r[0]) && !IsWhitespace(r[|r| - 1])
    ensures Contains(s, r)
  {
    var n := LeadingSpace(s);
    if n == |s| then
      assert StripsEnds(s, "", |s|, |s|);
      ""
    else
      var m := TrailingSpaceStart(s);
      assert n < m;
      assert s[n..m][0] == s[n] && s[n..m][m - n - 1] == s[m - 1];
      ContainsIffOccurrence(s, s[n..m]);
      assert OccursAt(s, s[n..m], n);
      assert StripsEnds(s, s[n..m], n, m);
      s[n..m]
  }

  /** Any way of cutting whitespace from the ends of `s` that leaves no whitespace at
      either end of what remains gives `Trim(s)`. */
  lemma TrimUnique(s: string, t: string, n: int, m: int)
    requires StripsEnds(s, t, n, m)
    requires t != "" ==> !IsWhitespace(t[0]) && !IsWhitespace(t[|t| - 1])
    ensures t == Trim(s)
  {
    var r := Trim(s);
    var n', m' :| StripsEnds(s, r, n', m');
    if t == "" {
      BlankWhenNothingLeft(s, n, m);
    } else {
      assert s[n] == t[0];
      assert !AllWhitespace(s);
      StripsAgree(s, t, n, m, r, n', m');
    }
  }

  /** Cutting whitespace from both ends and leaving nothing means the text is blank. */
  lemma BlankWhenNothingLeft(s: string, n: int, m: int)
    requires StripsEnds(s, "", n, m)
    ensures AllWhitespace(s)
  {
    forall i | 0 <= i < |s| ensures IsWhitespace(s[i]) {
      if i < n { assert s[..n][i] == s[i]; } else { assert s[m..][i - m] == s[i]; }
    }
  }

  /** Two cuts of whitespace from the ends that both leave a text without whitespace at
      either end cut at the same places. */
  lemma StripsAgree(s: string, t: string, n: int, m: int, u: string, n': int, m': int)
    requires StripsEnds(s, t, n, m) && t != "" && !IsWhitespace(t[0]) && !IsWhitespace(t[|t| - 1])
    requires StripsEnds(s, u, n', m') && u != "" && !IsWhitespace(u[0]) && !IsWhitespace(u[|u| - 1])
    ensures n == n' && m == m' && t == u
  {
    assert s[n] == t[0] && s[m - 1] == t[|t| - 1];
    assert s[n'] == u[0] && s[m' - 1] == u[|u| - 1];
    WhitespacePrefixBefore(s, n, n');
    WhitespacePrefixBefore(s, n', n);
    WhitespaceSuffixAfter(s, m, m' - 1);
    WhitespaceSuffixAfter(s, m', m - 1);
  }

  /** A non-whitespace character lies at or after the end of a whitespace prefix. */
  lemma WhitespacePrefixBefore(s: string, n: int, k: int)
    requires 0 <= n <= |s| && AllWhitespace(s[..n])
    requires 0 <= k < |s| && !IsWhitespace(s[k])
    ensures n <= k
  {
  }

  /** A non-whitespace character lies before the start of a whitespace suffix. */
  lemma WhitespaceSuffixAfter(s: string, m: int, k: int)
    requires 0 <= m <= |s| && AllWhitespace(s[m..])
    requires 0 <= k < |s| && !IsWhitespace(s[k])
    ensures k < m
  {
  }

  // ---------------------------------------------------------------------------
  // Substring search
  // ---------------------------------------------------------------------------

  /** `hay.includes(needle)`: `needle` occurs in `hay` as a contiguous block. */
  predicate Contains(hay: string, needle: string)
    decreases |hay|
  {
    needle <= hay || (|hay| > 0 && Contains(hay[1..], needle))
  }

  /** `needle` occurs in `hay` starting at position `i`. */
  predicate OccursAt(hay: string, needle: string, i: nat) {
    i + |needle| <= |hay| && hay[i..i + |needle|] == needle
  }

  /** `Contains` agrees with the positional definition of an occurrence. */
  lemma {:induction false} ContainsIffOccurrence(hay: string, needle: string)
    ensures Contains(hay, needle) <==> exists i: nat :: OccursAt(hay, needle, i)
    decreases |hay|
  {
    if needle <= hay {
      assert OccursAt(hay, needle, 0);
    } else if |hay| == 0 {
    } else {
      ContainsIffOccurrence(hay[1..], needle);
      if Contains(hay[1..], needle) {
        var i: nat :| OccursAt(hay[1..], needle, i);
        TailSlice(hay, i + 1, |needle|);
        assert OccursAt(hay, needle, i + 1);
      } else {
        forall i: nat ensures !OccursAt(hay, needle, i) {
          if i == 0 {
            assert !(needle <= hay);
          } else if i + |needle| <= |hay| {
            TailSlice(hay, i, |needle|);
            assert !OccursAt(hay[1..], needle, i - 1);
          }
        }
      }
    }
  }

  /** A block of `s` starting after its first character is the same block of `s[1..]`. */
  lemma TailSlice(s: string, i: nat, k: nat)
    requires 1 <= i && i + k <= |s|
    ensures s[i..i + k] == s[1..][i - 1..i - 1 + k]
  {
    var a := s[i..i + k];
    var b := s[1..][i - 1..i - 1 + k];
    forall j | 0 <= j < k ensures a[j] == b[j] {
      assert s[1..][i - 1 + j] == s[i + j];
    }
  }

  // ---------------------------------------------------------------------------
  // Splitting and joining
  // ---------------------------------------------------------------------------

  /** Index of the first `c` in `s`, or `|s|` when there is none. */
  function IndexOf(s: string, c: char): (i: nat)
    ensures i <= |s|
    ensures i < |s| ==> s[i] == c
    ensures c !in s[..i]
    ensures i == |s| <==> c !in s
    decreases |s|
  {
    if |s| == 0 then 0
    else if s[0] == c then 0
    else
      var j := IndexOf(s[1..], c);
      assert s[..j + 1] == [s[0]] + s[1..][..j];
      j + 1
  }

  /** `s.split(sep)` for a one-character separator: the maximal runs between separators,
      so there is always at least one (possibly empty) part. */
  function Split(s: string, sep: char): (parts: seq<string>)
    ensures |parts| >= 1
    ensures forall i :: 0 <= i < |parts| ==> sep !in parts[i]
    decreases |s|
  {
    if |s| == 0 then [""]
    else
      var rest := Split(s[1..], sep);
      if s[0] == sep then [""] + rest
      else [[s[0]] + rest[0]] + rest[1..]
  }

  /** `parts.join(sep)`. */
  function Join(parts: seq<string>, sep: string): string
    decreases |parts|
  {
    if |parts| == 0 then ""
    else if |parts| == 1 then parts[0]
    else parts[0] + sep + Join(parts[1..], sep)
  }

  /** Joining the parts of a split with the same separator restores the string. */
  lemma {:induction false} JoinSplit(s: string, sep: char)
    ensures Join(Split(s, sep), [sep]) == s
    decreases |s|
  {
    if |s| > 0 {
      var rest := Split(s[1..], sep);
      JoinSplit(s[1..], sep);
      if s[0] == sep {
        assert Split(s, sep) == [""] + rest;
        assert ([""] + rest)[1..] == rest;
      } else {
        var parts := [[s[0]] + rest[0]] + rest[1..];
        assert Split(s, sep) == parts;
        if |rest| == 1 {
          assert parts == [[s[0]] + rest[0]];
        } else {
          assert parts[1..] == rest[1..];
          assert Join(rest, [sep]) == rest[0] + [sep] + Join(rest[1..], [sep]);
        }
      }
    }
  }

  /** Splitting a separator-free string yields that string alone. */
  lemma {:induction false} SplitNoSeparator(s: string, sep: char)
    requires sep !in s
    ensures Split(s, sep) == [s]
    decreases |s|
  {
    if |s| > 0 {
      SplitNoSeparator(s[1..], sep);
      assert [s[0]] + s[1..] == s;
    }
  }

  /** Splitting at a first separator: the part before it comes first, then the parts of
      what follows it. */
  lemma {:induction false} SplitAtFirst(a: string, sep: char, b: string)
    requires sep !in a
    ensures Split(a + [sep] + b, sep) == [a] + Split(b, sep)
    decreases |a|
  {
    var s := a + [sep] + b;
    if |a| == 0 {
      assert s[1..] == b;
    } else {
      assert s[1..] == a[1..] + [sep] + b;
      SplitAtFirst(a[1..], sep, b);
      assert [a[0]] + a[1..] == a;
    }
  }

  /** Three words joined by single spaces split back into those words. */
  lemma SplitThreeWords(a: string, b: string, c: string)
    requires ' ' !in a && ' ' !in b && ' ' !in c
    ensures Split(a + " " + b + " " + c, ' ') == [a, b, c]
  {
    SplitNoSeparator(c, ' ');
    SplitAtFirst(b, ' ', c);
    SplitAtFirst(a, ' ', b + [' '] + c);
    assert a + " " + b + " " + c == a + [' '] + (b + [' '] + c);
  }

  /** The first part of a split is the text before the first separator, and the remaining
      parts are the split of the text after it. */
  lemma SplitHeadTail(s: string, sep: char)
    ensures Split(s, sep)[0] == s[..IndexOf(s, sep)]
    ensures sep in s ==> Split(s, sep)[1..] == Split(s[IndexOf(s, sep) + 1..], sep)
    ensures sep !in s ==> Split(s, sep) == [s]
  {
    if sep in s {
      SplitAtIndex(s, sep);
    } else {
      SplitNoSeparator(s, sep);
    }
  }

  /** A string with a separator splits into the text before its first separator and the
      parts of the text after it. */
  lemma SplitAtIndex(s: string, sep: char)
    requires sep in s
    ensures Split(s, sep) == [s[..IndexOf(s, sep)]] + Split(s[IndexOf(s, sep) + 1..], sep)
  {
    var i := IndexOf(s, sep);
    Around(s, i);
    SplitAtFirst(s[..i], sep, s[i + 1..]);
  }

  /** A string is the text before position `i`, the character there, and the rest. */
  lemma Around(s: string, i: nat)
    requires i < |s|
    ensures s == s[..i] + [s[i]] + s[i + 1..]
  {
  }

  /** Splitting the join of separator-free parts recovers exactly those parts. */
  lemma {:induction false} SplitJoin(parts: seq<string>, sep: char)
    requires |parts| >= 1
    requires forall i :: 0 <= i < |parts| ==> sep !in parts[i]
    ensures Split(Join(parts, [sep]), sep) == parts
    decreases |parts|
  {
    if |parts| == 1 {
      SplitNoSeparator(parts[0], sep);
    } else {
      SplitJoin(parts[1..], sep);
      SplitAtFirst(parts[0], sep, Join(parts[1..], [sep]));
      assert [parts[0]] + parts[1..] == parts;
    }
  }

  /** Each part with `pad` written before it. */
  function Prefixed(pad: string, parts: seq<string>): (r: seq<string>)
    ensures |r| == |parts|
    ensures forall i :: 0 <= i < |parts| ==> r[i] == pad + parts[i]
  {
    seq(|parts|, i requires 0 <= i < |parts| => pad + parts[i])
  }

  /** Text written before the first part of a join is written before the whole join. */
  lemma JoinPadFirst(pad: string, x: string, rest: seq<string>, sep: string)
    ensures Join([pad + x] + rest, sep) == pad + Join([x] + rest, sep)
  {
    if |rest| > 0 {
      assert ([pad + x] + rest)[1..] == rest && ([x] + rest)[1..] == rest;
    }
  }

  /** Joining with a one-character separator followed by `pad` is joining with the
      character alone once every part but the first carries `pad` in front. */
  lemma {:induction false} JoinPadded(parts: seq<string>, c: char, pad: string)
    requires |parts| >= 1
    ensures Join(parts, [c] + pad) == Join([parts[0]] + Prefixed(pad, parts[1..]), [c])
    decreases |parts|
  {
    if |parts| >= 2 {
      var rest := parts[1..];
      JoinPadded(rest, c, pad);
      assert Prefixed(pad, rest) == [pad + rest[0]] + Prefixed(pad, rest[1..]);
      JoinPadFirst(pad, rest[0], Prefixed(pad, rest[1..]), [c]);
      assert ([parts[0]] + Prefixed(pad, rest))[1..] == Prefixed(pad, rest);
    }
  }

  // ---------------------------------------------------------------------------
  // Number to string
  // ---------------------------------------------------------------------------

  predicate IsDigit(c: char) { '0' <= c <= '9' }

  function DigitChar(d: nat): (c: char)
    requires d < 10
    ensures IsDigit(c)
  {
    ('0' as int + d) as char
  }

  function DigitValue(c: char): nat
    requires IsDigit(c)
  {
    c as int - '0' as int
  }

  /** The decimal notation of a non-negative integer, as JavaScript prints it:
      digits only, and no leading zero. */
  function NatToString(n: nat): (r: string)
    ensures |r| >= 1
    ensures forall i :: 0 <= i < |r| ==> IsDigit(r[i])
    ensures r[0] == '0' ==> n == 0
    decreases n
  {
    if n < 10 then [DigitChar(n)] else NatToString(n / 10) + [DigitChar(n % 10)]
  }

  /** Reads a string of decimal digits back as a number: the reference inverse of
      `NatToString`. */
  function ParseDigits(s: string): nat
    requires forall i :: 0 <= i < |s| ==> IsDigit(s[i])
    decreases |s|
  {
    if |s| == 0 then 0 else ParseDigits(s[..|s| - 1]) * 10 + DigitValue(s[|s| - 1])
  }

  /** Printing a number and reading it back yields the number. */
  lemma {:induction false} ParseNatToString(n: nat)
    ensures ParseDigits(NatToString(n)) == n
    decreases n
  {
    if n >= 10 {
      ParseNatToString(n / 10);
      var r := NatToString(n);
      assert r[..|r| - 1] == NatToString(n / 10);
    }
  }

  /** `String(n)` for an integer: a minus sign before the magnitude when negative. */
  function IntToString(n: int): (r: string)
    ensures |r| >= 1
    ensures ' ' !in r
    ensures r[0] == '-' <==> n < 0
    ensures r[if n < 0 then 1 else 0..] == NatToString(if n < 0 then -n else n)
  {
    if n < 0 then "-" + NatToString(-n) else NatToString(n)
  }

  /** Reading a printed integer back, a leading minus sign negating the digits after it,
      yields the integer. */
  lemma ParseIntToString(n: int)
    ensures var r := IntToString(n);
      && (r[0] == '-' <==> n < 0)
      && (forall i :: (if n < 0 then 1 else 0) <= i < |r| ==> IsDigit(r[i]))
      && (if r[0] == '-' then 0 - ParseDigits(r[1..]) as int else ParseDigits(r)) == n
  {
    var r := IntToString(n);
    if n < 0 {
      ParseNatToString(-n);
      assert r[1..] == NatToString(-n);
    } else {
      ParseNatToString(n);
    }
  }

  /** Left-pads `s` with `c` up to `width` characters (date-fns year padding). */
  function PadLeft(s: string, width: nat, c: char): (r: string)
    ensures |r| == if |s| >= width then |s| else width
    ensures r[|r| - |s|..] == s
    ensures forall i :: 0 <= i < |r| - |s| ==> r[i] == c
    decreases width - |s|
  {
    if |s| >= width then s else PadLeft([c] + s, width, c)
  }
}
