/**
 * The JavaScript string built-ins the modelled code relies on:
 * `trim`, `split('\n')`, `substring(0, n)` and `Number.prototype.toString`
 * on a non-negative integer. `startsWith(p)` is Dafny's sequence prefix `p <= s`
 * and `substring(2)` on a string of length at least 2 is `s[2..]`.
 */
module JsStrings {

  /** The ECMAScript WhiteSpace and LineTerminator code points: what `trim` strips. */
  predicate IsWhitespace(c: char) {
    var n := c as int;
    (0x09 <= n <= 0x0D) || n == 0x20 || n == 0xA0 || n == 0x1680
    || (0x2000 <= n <= 0x200A) || n == 0x2028 || n == 0x2029 || n == 0x202F
    || n == 0x205F || n == 0x3000 || n == 0xFEFF
  }

  /** Neither end of `s` is whitespace. */
  predicate IsTrimmed(s: string) {
    s == [] || (!IsWhitespace(s[0]) && !IsWhitespace(s[|s| - 1]))
  }

  /** `s` with its leading whitespace removed (see TrimStartSpec). */
  function TrimStart(s: string): string {
    if s != [] && IsWhitespace(s[0]) then TrimStart(s[1..]) else s
  }

  /** TrimStart keeps a suffix of `s`, drops only whitespace, and leaves no whitespace in front. */
  lemma {:induction false} TrimStartSpec(s: string)
    ensures var r := TrimStart(s);
      |r| <= |s| && r == s[|s| - |r|..]
      && (forall k :: 0 <= k < |s| - |r| ==> IsWhitespace(s[k]))
      && (r == [] || !IsWhitespace(r[0]))
  {
    if s != [] && IsWhitespace(s[0]) {
      TrimStartSpec(s[1..]);
      var r := TrimStart(s);
      assert r == TrimStart(s[1..]);
      forall k | 0 <= k < |s| - |r|
        ensures IsWhitespace(s[k])
      {
        if k > 0 {
          assert s[k] == s[1..][k - 1];
        }
      }
    }
  }

  /** `s` with its trailing whitespace removed (see TrimEndSpec). */
  function TrimEnd(s: string): string {
    if s != [] && IsWhitespace(s[|s| - 1]) then TrimEnd(s[..|s| - 1]) else s
  }

  /** TrimEnd keeps a prefix of `s`, drops only whitespace, and leaves no whitespace at the end. */
  lemma {:induction false} TrimEndSpec(s: string)
    ensures var r := TrimEnd(s);
      |r| <= |s| && r == s[..|r|]
      && (forall k :: |r| <= k < |s| ==> IsWhitespace(s[k]))
      && (r == [] || !IsWhitespace(r[|r| - 1]))
  {
    if s != [] && IsWhitespace(s[|s| - 1]) {
      var s' := s[..|s| - 1];
      TrimEndSpec(s');
      var r := TrimEnd(s);
      assert r == TrimEnd(s');
      assert r == s'[..|r|] == s[..|r|];
      forall k | |r| <= k < |s|
        ensures IsWhitespace(s[k])
      {
        if k < |s| - 1 {
          assert s[k] == s'[k];
        }
      }
    }
  }

  /** `String.prototype.trim`: TrimStart then TrimEnd (see TrimSpec). */
  function Trim(s: string): string {
    TrimEnd(TrimStart(s))
  }

  /**
   * The result of `trim` is trimmed and no longer than its input, and a string
   * that is already trimmed comes back unchanged, so trimming twice is
   * trimming once.
   */
  lemma TrimSpec(s: string)
    ensures IsTrimmed(Trim(s))
    ensures |Trim(s)| <= |s|
    ensures IsTrimmed(s) ==> Trim(s) == s
  {
    var t := TrimStart(s);
    var r := TrimEnd(t);
    TrimStartSpec(s);
    TrimEndSpec(t);
    assert r == [] || r[0] == t[0];
    if IsTrimmed(s) {
      TrimStartOfTrimmed(s);
      TrimEndOfTrimmed(s);
    }
  }

  /** TrimStart leaves a string that does not start with whitespace unchanged. */
  lemma TrimStartOfTrimmed(s: string)
    requires IsTrimmed(s)
    ensures TrimStart(s) == s
  {
    if s != [] {
      assert !IsWhitespace(s[0]);
    }
  }

  /** TrimEnd leaves a string that does not end in whitespace unchanged. */
  lemma TrimEndOfTrimmed(s: string)
    requires IsTrimmed(s)
    ensures TrimEnd(s) == s
  {
    if s != [] {
      assert !IsWhitespace(s[|s| - 1]);
    }
  }

  /** A single blank in front of a trimmed string is removed by `trim`. */
  lemma TrimAfterBlank(s: string)
    requires IsTrimmed(s)
    ensures Trim(" " + s) == s
  {
    TrimStartAfterBlank(s);
    TrimStartOfTrimmed(s);
    TrimEndOfTrimmed(s);
  }

  lemma TrimStartAfterBlank(s: string)
    ensures TrimStart(" " + s) == TrimStart(s)
  {
    var t := " " + s;
    assert IsWhitespace(t[0]);
    assert t[1..] == s;
  }

  /**
   * `String.prototype.split('\n')` on a string: at least one piece, no piece
   * contains a line feed (see JoinSplit for the round trip).
   */
  function Split(s: string): (lines: seq<string>)
    ensures |lines| >= 1
    ensures forall k :: 0 <= k < |lines| ==> '\n' !in lines[k]
  {
    if s == [] then [""]
    else
      var rest := Split(s[1..]);
      if s[0] == '\n' then [""] + rest else [[s[0]] + rest[0]] + rest[1..]
  }

  /** `Array.prototype.join('\n')`: the inverse of Split. */
  function Join(lines: seq<string>): string
    requires |lines| >= 1
  {
    if |lines| == 1 then lines[0] else lines[0] + "\n" + Join(lines[1..])
  }

  /** Joining the pieces of a split gives back the original text. */
  lemma {:induction false} JoinSplit(s: string)
    ensures Join(Split(s)) == s
  {
    if s != [] {
      var rest := Split(s[1..]);
      JoinSplit(s[1..]);
      if s[0] == '\n' {
        assert ([""] + rest)[1..] == rest;
      } else if |rest| > 1 {
        var lines := [[s[0]] + rest[0]] + rest[1..];
        assert lines[1..] == rest[1..];
        assert Join(rest) == rest[0] + "\n" + Join(rest[1..]);
      }
    }
  }

  /** A text without line feeds is one piece. */
  lemma {:induction false} SplitSingle(s: string)
    requires '\n' !in s
    ensures Split(s) == [s]
  {
    if s != [] {
      SplitSingle(s[1..]);
      assert [s[0]] + s[1..] == s;
    }
  }

  /** The text before the first line feed is the first piece; the rest is split on its own. */
  lemma {:induction false} SplitAtNewline(a: string, b: string)
    requires '\n' !in a
    ensures Split(a + "\n" + b) == [a] + Split(b)
  {
    var s := a + "\n" + b;
    if a == [] {
      assert s[1..] == b;
    } else {
      assert s[1..] == a[1..] + "\n" + b;
      SplitAtNewline(a[1..], b);
      assert [a[0]] + a[1..] == a;
    }
  }

  /** Splitting lines that were joined gives back the lines. */
  lemma {:induction false} SplitJoin(lines: seq<string>)
    requires |lines| >= 1
    requires forall k :: 0 <= k < |lines| ==> '\n' !in lines[k]
    ensures Split(Join(lines)) == lines
  {
    if |lines| == 1 {
      SplitSingle(lines[0]);
    } else {
      SplitJoin(lines[1..]);
      SplitAtNewline(lines[0], Join(lines[1..]));
      assert [lines[0]] + lines[1..] == lines;
    }
  }

  function Min(a: nat, b: nat): nat {
    if a <= b then a else b
  }

  /** `s.substring(0, n)`: the first `n` characters, or all of `s` when it is shorter. */
  function Take(s: string, n: nat): (r: string)
    ensures r <= s
    ensures |r| == Min(n, |s|)
  {
    s[..Min(n, |s|)]
  }

  /** The character of a decimal digit. */
  function DigitChar(d: nat): (c: char)
    requires d < 10
    ensures '0' <= c <= '9'
  {
    ('0' as int + d) as char
  }

  /**
   * `n.toString()` for a non-negative integer: a non-empty string of decimal
   * digits; different numbers give different strings (DecimalStringInjective).
   */
  function DecimalString(n: nat): (r: string)
    ensures |r| >= 1
    ensures forall k :: 0 <= k < |r| ==> '0' <= r[k] <= '9'
    ensures n >= 10 <==> |r| >= 2
  {
    if n < 10 then [DigitChar(n)] else DecimalString(n / 10) + [DigitChar(n % 10)]
  }

  lemma {:induction false} DecimalStringInjective(a: nat, b: nat)
    requires DecimalString(a) == DecimalString(b)
    ensures a == b
  {
    var ra, rb := DecimalString(a), DecimalString(b);
    if a >= 10 && b >= 10 {
      assert ra[|ra| - 1] == DigitChar(a % 10);
      assert rb[|rb| - 1] == DigitChar(b % 10);
      assert ra[..|ra| - 1] == DecimalString(a / 10);
      assert rb[..|rb| - 1] == DecimalString(b / 10);
      DecimalStringInjective(a / 10, b / 10);
    } else if a < 10 && b < 10 {
      assert ra[0] == DigitChar(a) && rb[0] == DigitChar(b);
    }
  }
}
