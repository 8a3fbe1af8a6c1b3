/**
 * The string primitives of the JavaScript runtime that the portal relies on:
 * `String.prototype.trim`, `startsWith`, `toUpperCase`, `split('\n')`,
 * `replace(/:/g, '')` and `Number.prototype.toString` on non-negative integers.
 * Strings are sequences of Unicode scalar values.
 */
module Text {

  /** The ECMAScript WhiteSpace and LineTerminator code points: exactly what `trim` removes. */
  predicate IsWhitespace(c: char) {
    || c == '\t' || c == '\n' || c == '\U{B}' || c == '\U{C}' || c == '\r' || c == ' '
    || c == '\U{A0}' || c == '\U{1680}' || ('\U{2000}' <= c <= '\U{200A}')
    || c == '\U{2028}' || c == '\U{2029}' || c == '\U{202F}' || c == '\U{205F}'
    || c == '\U{3000}' || c == '\U{FEFF}'
  }

  /** The ECMAScript LineTerminator code points: what the regular-expression `.` does not match. */
  predicate IsLineTerminator(c: char) {
    c == '\n' || c == '\r' || c == '\U{2028}' || c == '\U{2029}'
  }

  predicate StartsWith(s: string, prefix: string) {
    |prefix| <= |s| && s[..|prefix|] == prefix
  }

  /** Drops the leading whitespace of `s`. */
  function TrimStart(s: string): (r: string)
    ensures |r| <= |s| && r == s[|s| - |r|..]
    ensures r != [] ==> !IsWhitespace(r[0])
  {
    if s != [] && IsWhitespace(s[0]) then TrimStart(s[1..]) else s
  }

  lemma {:induction false} TrimStartDropsWhitespace(s: string)
    ensures forall i :: 0 <= i < |s| - |TrimStart(s)| ==> IsWhitespace(s[i])
  {
    if s != [] && IsWhitespace(s[0]) {
      var t := s[1..];
      TrimStartDropsWhitespace(t);
      assert TrimStart(s) == TrimStart(t);
      forall i | 1 <= i < |s| - |TrimStart(s)| ensures IsWhitespace(s[i]) {
        assert s[i] == t[i - 1];
      }
    }
  }

  /** Drops the trailing whitespace of `s`. */
  function TrimEnd(s: string): (r: string)
    ensures |r| <= |s| && r == s[..|r|]
    ensures r != [] ==> !IsWhitespace(r[|r| - 1])
  {
    if s != [] && IsWhitespace(s[|s| - 1]) then TrimEnd(s[..|s| - 1]) else s
  }

  lemma {:induction false} TrimEndDropsWhitespace(s: string)
    ensures forall i :: |TrimEnd(s)| <= i < |s| ==> IsWhitespace(s[i])
  {
    if s != [] && IsWhitespace(s[|s| - 1]) {
      TrimEndDropsWhitespace(s[..|s| - 1]);
    }
  }

  /**
   * `s.trim()`: the part of `s` between its leading and its trailing whitespace.
   * The result starts and ends with a non-whitespace character.
   */
  function Trim(s: string): (r: string)
    ensures |r| <= |s|
    ensures r != [] ==> !IsWhitespace(r[0]) && !IsWhitespace(r[|r| - 1])
  {
    TrimEnd(TrimStart(s))
  }

  /**
   * What `trim` removes is whitespace and only whitespace: the result is the
   * piece of `s` after its leading whitespace, and everything around it is
   * whitespace.
   */
  lemma TrimRemovesOnlyWhitespace(s: string)
    ensures var k, r := |s| - |TrimStart(s)|, Trim(s);
      && k + |r| <= |s| && r == s[k..k + |r|]
      && (forall i :: 0 <= i < k ==> IsWhitespace(s[i]))
      && (forall i :: k + |r| <= i < |s| ==> IsWhitespace(s[i]))
  {
    TrimIsSlice(s);
    TrimStartDropsWhitespace(s);
    TrimDropsTrailing(s);
  }

  lemma TrimIsSlice(s: string)
    ensures var k, r := |s| - |TrimStart(s)|, Trim(s);
      k + |r| <= |s| && r == s[k..k + |r|]
  {
    var t := TrimStart(s);
    var k, r := |s| - |t|, TrimEnd(t);
    assert t == s[k..] && r == t[..|r|];
    assert s[k..][..|r|] == s[k..k + |r|];
  }

  lemma TrimDropsTrailing(s: string)
    ensures var k, r := |s| - |TrimStart(s)|, Trim(s);
      forall i :: k + |r| <= i < |s| ==> IsWhitespace(s[i])
  {
    var t := TrimStart(s);
    var k, r := |s| - |t|, TrimEnd(t);
    TrimEndDropsWhitespace(t);
    forall i | k + |r| <= i < |s| ensures IsWhitespace(s[i]) {
      assert s[i] == t[i - k] && |r| <= i - k < |t|;
    }
  }

  /** `trim` gives the empty string exactly for all-whitespace text. */
  lemma TrimEmptyIffWhitespace(s: string)
    ensures Trim(s) == [] <==> forall i :: 0 <= i < |s| ==> IsWhitespace(s[i])
  {
    TrimRemovesOnlyWhitespace(s);
    var k := |s| - |TrimStart(s)|;
    if Trim(s) != [] {
      assert Trim(s)[0] == s[k];
    }
  }

  /** Trimming a string that already begins and ends with non-whitespace changes nothing. */
  lemma TrimOfTrimmed(s: string)
    requires s != [] ==> !IsWhitespace(s[0]) && !IsWhitespace(s[|s| - 1])
    ensures Trim(s) == s
  {
  }

  /** `trim` is idempotent. */
  lemma TrimIdempotent(s: string)
    ensures Trim(Trim(s)) == Trim(s)
  {
    TrimOfTrimmed(Trim(s));
  }

  /** A string whose last character is not whitespace keeps at least that character. */
  lemma TrimKeepsLast(s: string)
    requires s != [] && !IsWhitespace(s[|s| - 1])
    ensures Trim(s) != []
  {
    TrimEmptyIffWhitespace(s);
  }

  /** `toUpperCase` on one character; only the ASCII letters a-z have a mapping here. */
  function UpperChar(c: char): (u: char)
    ensures !('a' <= u <= 'z')
    ensures u == c || ('a' <= c <= 'z' && u as int == c as int - 32)
  {
    if 'a' <= c <= 'z' then (c as int - 32) as char else c
  }

  /** `s.toUpperCase()`, character by character. */
  function ToUpper(s: string): (r: string)
    ensures |r| == |s|
    ensures forall i :: 0 <= i < |s| ==> r[i] == UpperChar(s[i])
  {
    if s == [] then [] else [UpperChar(s[0])] + ToUpper(s[1..])
  }

  /** `s.replace(/:/g, '')`. */
  function RemoveColons(s: string): (r: string)
    ensures ':' !in r
    ensures |r| <= |s|
    ensures forall c :: c in r ==> c in s
  {
    if s == [] then [] else (if s[0] == ':' then [] else [s[0]]) + RemoveColons(s[1..])
  }

  /** Removing colons keeps every other character, as many times as it occurs. */
  lemma {:induction false} RemoveColonsKeepsOthers(s: string)
    ensures multiset(RemoveColons(s)) == multiset(s)[':' := 0]
  {
    if s != [] {
      assert s == [s[0]] + s[1..];
      RemoveColonsKeepsOthers(s[1..]);
    }
  }

  /** Removing colons works piece by piece, so the characters kept stay in their order. */
  lemma {:induction false} RemoveColonsAppend(a: string, b: string)
    ensures RemoveColons(a + b) == RemoveColons(a) + RemoveColons(b)
  {
    if a != [] {
      assert (a + b)[0] == a[0] && (a + b)[1..] == a[1..] + b;
      RemoveColonsAppend(a[1..], b);
      var head := if a[0] == ':' then [] else [a[0]];
      calc {
        RemoveColons(a + b);
        head + RemoveColons(a[1..] + b);
        head + (RemoveColons(a[1..]) + RemoveColons(b));
        (head + RemoveColons(a[1..])) + RemoveColons(b);
        RemoveColons(a) + RemoveColons(b);
      }
    } else {
      assert a + b == b;
    }
  }

  /** Removing colons leaves a colon-free string unchanged, so it is idempotent. */
  lemma {:induction false} RemoveColonsOfColonFree(s: string)
    requires ':' !in s
    ensures RemoveColons(s) == s
  {
    if s != [] {
      RemoveColonsOfColonFree(s[1..]);
    }
  }

  /** Upper-casing and removing colons can be done in either order. */
  lemma {:induction false} UpperCommutesWithRemoveColons(s: string)
    ensures ToUpper(RemoveColons(s)) == RemoveColons(ToUpper(s))
  {
    if s != [] {
      UpperCommutesWithRemoveColons(s[1..]);
      assert ToUpper(s)[1..] == ToUpper(s[1..]);
      var head := if s[0] == ':' then [] else [s[0]];
      assert RemoveColons(s) == head + RemoveColons(s[1..]);
      ToUpperAppend(head, RemoveColons(s[1..]));
    }
  }

  /** Upper-casing twice is upper-casing once. */
  lemma {:induction false} ToUpperIdempotent(s: string)
    ensures ToUpper(ToUpper(s)) == ToUpper(s)
  {
    if s != [] {
      ToUpperIdempotent(s[1..]);
      assert ToUpper(s)[1..] == ToUpper(s[1..]);
    }
  }

  lemma ToUpperAppend(a: string, b: string)
    ensures ToUpper(a + b) == ToUpper(a) + ToUpper(b)
  {
  }

  /** `lines.join('\n')`, the inverse of `SplitLines`. */
  function JoinLines(lines: seq<string>): string {
    if lines == [] then []
    else if |lines| == 1 then lines[0]
    else lines[0] + "\n" + JoinLines(lines[1..])
  }

  /**
   * `s.split('\n')`: the pieces between newline characters, in order. There is
   * always at least one piece (the empty text gives one empty line), and no
   * piece contains a newline.
   */
  function SplitLines(s: string): (lines: seq<string>)
    ensures |lines| >= 1
    ensures forall i :: 0 <= i < |lines| ==> '\n' !in lines[i]
  {
    if s == [] then [[]]
    else
      var rest := SplitLines(s[1..]);
      if s[0] == '\n' then [[]] + rest else [[s[0]] + rest[0]] + rest[1..]
  }

  /** Joining the pieces back with newlines gives the original text. */
  lemma {:induction false} JoinSplit(s: string)
    ensures JoinLines(SplitLines(s)) == s
  {
    if s != [] {
      var rest := SplitLines(s[1..]);
      JoinSplit(s[1..]);
      if |rest| > 1 {
        assert rest == [rest[0]] + rest[1..];
      }
    }
  }

  lemma {:induction false} SplitNewlineFreePrefix(a: string, t: string)
    requires '\n' !in a
    ensures SplitLines(a + t) == [a + SplitLines(t)[0]] + SplitLines(t)[1..]
  {
    if a != [] {
      assert (a + t)[0] == a[0] && (a + t)[1..] == a[1..] + t;
      SplitNewlineFreePrefix(a[1..], t);
      assert a[0] != '\n' by { assert a[0] in a; }
      var rest := SplitLines(a[1..] + t);
      assert rest[0] == a[1..] + SplitLines(t)[0] && rest[1..] == SplitLines(t)[1..];
      assert SplitLines(a + t) == [[a[0]] + rest[0]] + rest[1..];
      assert [a[0]] + (a[1..] + SplitLines(t)[0]) == a + SplitLines(t)[0];
    } else {
      assert a + t == t;
      assert a + SplitLines(t)[0] == SplitLines(t)[0];
      assert SplitLines(t) == [SplitLines(t)[0]] + SplitLines(t)[1..];
    }
  }

  /** Splitting newline-free lines joined with newlines gives those lines back. */
  lemma {:induction false} SplitJoin(lines: seq<string>)
    requires |lines| >= 1
    requires forall i :: 0 <= i < |lines| ==> '\n' !in lines[i]
    ensures SplitLines(JoinLines(lines)) == lines
  {
    if |lines| == 1 {
      SplitNewlineFreePrefix(lines[0], []);
      assert lines[0] + [] == lines[0];
    } else {
      var tail := JoinLines(lines[1..]);
      SplitJoin(lines[1..]);
      assert lines[0] + "\n" + tail == lines[0] + ("\n" + tail);
      SplitNewlineFreePrefix(lines[0], "\n" + tail);
      assert ("\n" + tail)[1..] == tail;
      assert lines[0] + [] == lines[0];
    }
  }

  function DigitChar(d: nat): (c: char)
    requires d < 10
    ensures '0' <= c <= '9'
  {
    ('0' as int + d) as char
  }

  predicate IsDecimal(s: string) {
    forall i :: 0 <= i < |s| ==> '0' <= s[i] <= '9'
  }

  /** `n.toString()` for a non-negative integer: its decimal digits, without leading zeros. */
  function NatToString(n: nat): (r: string)
    ensures r != [] && IsDecimal(r)
    ensures (r[0] == '0') == (n == 0)
  {
    if n < 10 then [DigitChar(n)] else NatToString(n / 10) + [DigitChar(n % 10)]
  }

  /** The value of a string of decimal digits (what `parseInt` gives for it). */
  function DecimalValue(s: string): nat
    requires IsDecimal(s)
  {
    if s == [] then 0 else DecimalValue(s[..|s| - 1]) * 10 + (s[|s| - 1] as int - '0' as int)
  }

  /** The decimal text of `n` reads back as `n`. */
  lemma {:induction false} DecimalValueOfNatToString(n: nat)
    ensures DecimalValue(NatToString(n)) == n
  {
    var r := NatToString(n);
    if n >= 10 {
      DecimalValueOfNatToString(n / 10);
      assert r[..|r| - 1] == NatToString(n / 10);
    }
  }

  /** Distinct numbers have distinct decimal texts. */
  lemma NatToStringInjective(m: nat, n: nat)
    requires NatToString(m) == NatToString(n)
    ensures m == n
  {
    DecimalValueOfNatToString(m);
    DecimalValueOfNatToString(n);
  }
}
