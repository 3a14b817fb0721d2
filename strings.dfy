/**
 * The few pieces of Rust's `str` API the template engine relies on:
 * `char::is_whitespace`, `str::trim`, `str::lines`, `[&str]::join`,
 * `str::split` and `str::replace`, together with the facts about them that
 * the rest of the model uses.
 */
module Strings {

  /** Unicode's White_Space property, which `char::is_whitespace` and `str::trim` use. */
  predicate IsWhitespace(c: char) {
    var n := c as int;
    (0x09 <= n <= 0x0D) || n == 0x20 || n == 0x85 || n == 0xA0 || n == 0x1680
    || (0x2000 <= n <= 0x200A) || n == 0x2028 || n == 0x2029 || n == 0x202F
    || n == 0x205F || n == 0x3000
  }

  /** Neither the first nor the last character is whitespace. */
  predicate IsTrimmed(s: string) {
    s == [] || (!IsWhitespace(s[0]) && !IsWhitespace(s[|s| - 1]))
  }

  predicate AllWhitespace(s: string) {
    forall i :: 0 <= i < |s| ==> IsWhitespace(s[i])
  }

  /** `str::trim_start`: the longest suffix that does not start with whitespace. */
  function TrimStart(s: string): (r: string)
    ensures |r| <= |s| && r == s[|s| - |r|..]
    ensures AllWhitespace(s[..|s| - |r|])
    ensures r == [] || !IsWhitespace(r[0])
  {
    if s != [] && IsWhitespace(s[0]) then
      var r := TrimStart(s[1..]);
      DropFront(s, r);
      r
    else s
  }

  lemma DropFront(s: string, r: string)
    requires s != [] && IsWhitespace(s[0]) && |r| < |s|
    requires r == s[1..][|s| - 1 - |r|..] && AllWhitespace(s[1..][..|s| - 1 - |r|])
    ensures r == s[|s| - |r|..] && AllWhitespace(s[..|s| - |r|])
  {
    assert s[..|s| - |r|] == [s[0]] + s[1..][..|s| - 1 - |r|];
  }

  /** `str::trim_end`: the longest prefix that does not end with whitespace. */
  function TrimEnd(s: string): (r: string)
    ensures |r| <= |s| && r == s[..|r|]
    ensures AllWhitespace(s[|r|..])
    ensures r == [] || !IsWhitespace(r[|r| - 1])
  {
    if s != [] && IsWhitespace(s[|s| - 1]) then
      var r := TrimEnd(s[..|s| - 1]);
      DropBack(s, r);
      r
    else s
  }

  lemma DropBack(s: string, r: string)
    requires s != [] && IsWhitespace(s[|s| - 1]) && |r| < |s|
    requires r == s[..|s| - 1][..|r|] && AllWhitespace(s[..|s| - 1][|r|..])
    ensures r == s[..|r|] && AllWhitespace(s[|r|..])
  {
    assert s[|r|..] == s[..|s| - 1][|r|..] + [s[|s| - 1]];
  }

  /** `str::trim`: leading and trailing whitespace removed, nothing else touched. */
  function Trim(s: string): (r: string)
    ensures IsTrimmed(r)
    ensures IsTrimmed(s) ==> r == s
    ensures r == [] <==> AllWhitespace(s)
    ensures |r| <= |s|
    ensures exists i :: Surrounded(s, i, r)
  {
    TrimEmpty(s);
    TrimSlice(s);
    TrimEnd(TrimStart(s))
  }

  /** `r` sits in `s` at index `i` with only whitespace before and after it. */
  predicate Surrounded(s: string, i: nat, r: string) {
    && i + |r| <= |s| && r == s[i..i + |r|]
    && AllWhitespace(s[..i]) && AllWhitespace(s[i + |r|..])
  }

  /** The trimmed text is the input between its leading and trailing whitespace. */
  lemma TrimSlice(s: string)
    ensures Surrounded(s, |s| - |TrimStart(s)|, TrimEnd(TrimStart(s)))
  {
    Surround(s, TrimStart(s), TrimEnd(TrimStart(s)));
  }

  /** A prefix `r` of a suffix `t` of `s`, with whitespace cut off on both sides. */
  lemma Surround(s: string, t: string, r: string)
    requires |t| <= |s| && t == s[|s| - |t|..] && AllWhitespace(s[..|s| - |t|])
    requires |r| <= |t| && r == t[..|r|] && AllWhitespace(t[|r|..])
    ensures Surrounded(s, |s| - |t|, r)
  {
    var i := |s| - |t|;
    assert r == s[i..i + |r|];
    assert s[i + |r|..] == t[|r|..];
  }

  lemma TrimEmpty(s: string)
    ensures TrimEnd(TrimStart(s)) == [] <==> AllWhitespace(s)
  {
    var t := TrimStart(s);
    var k := |s| - |t|;
    if TrimEnd(t) == [] {
      assert t == [] && k == |s|;
      forall i | 0 <= i < |s| ensures IsWhitespace(s[i]) {
        assert s[i] == s[..k][i];
      }
    } else {
      assert t != [] && t[0] == s[k];
    }
  }

  /** Index of the first occurrence of `c` in `s`, or `|s|` when there is none. */
  function IndexOf(s: string, c: char): (i: nat)
    ensures i <= |s|
    ensures c !in s[..i]
    ensures i < |s| ==> s[i] == c
    ensures i == |s| <==> c !in s
  {
    if s == [] then 0
    else if s[0] == c then 0
    else
      var j := IndexOf(s[1..], c);
      assert s[..j + 1] == [s[0]] + s[1..][..j];
      j + 1
  }

  lemma IndexOfAfter(a: string, c: char, b: string)
    requires c !in a
    ensures IndexOf(a + [c] + b, c) == |a|
  {
    var s := a + [c] + b;
    var i := IndexOf(s, c);
    assert s[|a|] == c;
    assert s[..|a|] == a;
  }

  /** A line as `str::lines` yields it: a final carriage return is dropped. */
  function StripCR(line: string): string {
    if line != [] && line[|line| - 1] == '\r' then line[..|line| - 1] else line
  }

  /**
   * `str::lines`: the text split after every line feed, with the line feed and
   * a carriage return right before it removed; an empty text has no lines and
   * a final line feed does not start an empty last line.
   */
  function Lines(s: string): (r: seq<string>)
    ensures r == [] <==> s == []
    ensures forall k :: 0 <= k < |r| ==> '\n' !in r[k]
    decreases |s|
  {
    if s == [] then []
    else
      var i := IndexOf(s, '\n');
      if i == |s| then [s]
      else
        var rest := Lines(s[i + 1..]);
        assert forall k :: 0 < k < |[StripCR(s[..i])] + rest| ==> ([StripCR(s[..i])] + rest)[k] == rest[k - 1];
        [StripCR(s[..i])] + rest
  }

  /** `[&str]::join`: the parts with `sep` between each two neighbours. */
  function Join(parts: seq<string>, sep: string): string {
    if parts == [] then []
    else if |parts| == 1 then parts[0]
    else parts[0] + sep + Join(parts[1..], sep)
  }

  /** `str::split` on one character: the pieces between the occurrences of `c`. */
  function Split(s: string, c: char): (r: seq<string>)
    ensures |r| > 0
    ensures forall k :: 0 <= k < |r| ==> c !in r[k]
    decreases |s|
  {
    var i := IndexOf(s, c);
    if i == |s| then [s]
    else
      var rest := Split(s[i + 1..], c);
      assert forall k :: 0 < k < |[s[..i]] + rest| ==> ([s[..i]] + rest)[k] == rest[k - 1];
      [s[..i]] + rest
  }

  /** Splitting on `c` undoes joining with `c` when no part contains `c`. */
  lemma {:induction false} SplitJoin(parts: seq<string>, c: char)
    requires |parts| > 0
    requires forall k :: 0 <= k < |parts| ==> c !in parts[k]
    ensures Split(Join(parts, [c]), c) == parts
  {
    if |parts| > 1 {
      var tail := Join(parts[1..], [c]);
      assert Join(parts, [c]) == parts[0] + [c] + tail;
      SplitCons(parts[0], c, tail);
      SplitJoin(parts[1..], c);
      assert parts == [parts[0]] + parts[1..];
    }
  }

  /** Splitting stops at the first `c`. */
  lemma SplitCons(head: string, c: char, tail: string)
    requires c !in head
    ensures Split(head + [c] + tail, c) == [head] + Split(tail, c)
  {
    var s := head + [c] + tail;
    IndexOfAfter(head, c, tail);
    assert s[..|head|] == head;
    assert s[|head| + 1..] == tail;
  }

  /** A character in neither the parts nor the separator is not in the joined text. */
  lemma {:induction false} JoinAvoids(parts: seq<string>, sep: string, c: char)
    requires c !in sep
    requires forall k :: 0 <= k < |parts| ==> c !in parts[k]
    ensures c !in Join(parts, sep)
    decreases |parts|
  {
    if |parts| > 1 {
      JoinAvoids(parts[1..], sep, c);
    }
  }

  lemma JoinCons(x: string, rest: seq<string>, sep: string)
    requires rest != []
    ensures Join([x] + rest, sep) == x + sep + Join(rest, sep)
  {
    assert ([x] + rest)[1..] == rest;
  }

  /** Joining the lines again with line feeds gives the text back when it has
      no carriage return and does not end in a line feed. */
  lemma {:induction false} JoinLines(s: string)
    requires '\r' !in s
    requires s == [] || s[|s| - 1] != '\n'
    ensures Join(Lines(s), "\n") == s
    decreases |s|
  {
    if s != [] {
      var i := IndexOf(s, '\n');
      if i < |s| {
        var line, rest := s[..i], s[i + 1..];
        assert s == line + "\n" + rest;
        assert rest != [];
        assert rest[|rest| - 1] == s[|s| - 1];
        assert '\r' !in rest && '\r' !in line;
        assert StripCR(line) == line;
        JoinLines(rest);
        assert Lines(s) == [line] + Lines(rest);
        JoinCons(line, Lines(rest), "\n");
      }
    }
  }

  /** The lines of a first line, a line feed and more text. */
  lemma LinesCons(line: string, rest: string)
    requires '\n' !in line
    requires line == [] || line[|line| - 1] != '\r'
    ensures Lines(line + "\n" + rest) == [line] + Lines(rest)
  {
    var s := line + "\n" + rest;
    IndexOfAfter(line, '\n', rest);
    assert s[..|line|] == line;
    assert s[|line| + 1..] == rest;
  }

  /** A carriage return right before the line feed is not part of the line. */
  lemma LinesCRLF(line: string, rest: string)
    requires '\n' !in line
    ensures Lines(line + "\r\n" + rest) == [line] + Lines(rest)
  {
    var s := line + "\r\n" + rest;
    assert s == (line + "\r") + "\n" + rest;
    IndexOfAfter(line + "\r", '\n', rest);
    assert s[..|line| + 1] == line + "\r";
    assert s[|line| + 2..] == rest;
    assert StripCR(line + "\r") == line by {
      assert (line + "\r")[..|line|] == line;
    }
  }

  /** `pat` occurs somewhere in `s`. */
  predicate Contains(s: string, pat: string)
    decreases |s|
  {
    pat <= s || (s != [] && Contains(s[1..], pat))
  }

  /** `str::replace`: every non-overlapping occurrence of `pat`, taken from the
      left, replaced by `val`. */
  function ReplaceAll(s: string, pat: string, val: string): (r: string)
    requires pat != []
    ensures val == pat ==> r == s
    decreases |s|
  {
    if pat <= s then
      assert s == pat + s[|pat|..];
      val + ReplaceAll(s[|pat|..], pat, val)
    else if s == [] then []
    else [s[0]] + ReplaceAll(s[1..], pat, val)
  }

  /** Replacing a pattern that does not occur changes nothing. */
  lemma {:induction false} ReplaceAbsent(s: string, pat: string, val: string)
    requires pat != []
    requires !Contains(s, pat)
    ensures ReplaceAll(s, pat, val) == s
    decreases |s|
  {
    if s != [] {
      ReplaceAbsent(s[1..], pat, val);
      assert s == [s[0]] + s[1..];
    }
  }

  /** Text without the pattern's first character passes through unchanged and
      replacement continues after it. */
  lemma {:induction false} ReplaceSkip(a: string, b: string, pat: string, val: string)
    requires pat != []
    requires pat[0] !in a
    ensures ReplaceAll(a + b, pat, val) == a + ReplaceAll(b, pat, val)
    decreases |a|
  {
    if a != [] {
      assert !(pat <= a + b) by { assert (a + b)[0] == a[0]; }
      assert (a + b)[1..] == a[1..] + b;
      assert pat[0] !in a[1..];
      ReplaceSkip(a[1..], b, pat, val);
      assert a == [a[0]] + a[1..];
    } else {
      assert a + b == b;
    }
  }

  /** An occurrence at the front is replaced and replacement continues after it. */
  lemma ReplaceFront(pat: string, b: string, val: string)
    requires pat != []
    ensures ReplaceAll(pat + b, pat, val) == val + ReplaceAll(b, pat, val)
  {
    assert pat <= pat + b;
    assert (pat + b)[|pat|..] == b;
  }

  /** Where the pattern does not start, the first character is kept and the
      scan goes on at the next one. */
  lemma ReplaceStep(s: string, pat: string, val: string)
    requires pat != [] && s != [] && !(pat <= s)
    ensures ReplaceAll(s, pat, val) == [s[0]] + ReplaceAll(s[1..], pat, val)
  {
  }

  function DigitChar(d: nat): (c: char)
    requires d < 10
    ensures '0' <= c <= '9' && DigitValue(c) == d
  {
    ('0' as int + d) as char
  }

  /** The value of a decimal digit character. */
  function DigitValue(c: char): int {
    c as int - '0' as int
  }

  /** `format!("{}", n)` for a natural number: its decimal digits. */
  function Decimal(n: nat): (r: string)
    ensures r != []
    ensures forall k :: 0 <= k < |r| ==> '0' <= r[k] <= '9'
  {
    if n < 10 then [DigitChar(n)] else Decimal(n / 10) + [DigitChar(n % 10)]
  }

  /** The number a string of decimal digits denotes, most significant digit first. */
  function DecimalValue(s: string): nat
    requires forall k :: 0 <= k < |s| ==> '0' <= s[k] <= '9'
  {
    if s == [] then 0 else 10 * DecimalValue(s[..|s| - 1]) + DigitValue(s[|s| - 1])
  }

  /** The digits written for `n` read back as `n`, and the first digit is `0`
      only for zero itself (no leading zeros). */
  lemma {:induction false} DecimalRoundTrip(n: nat)
    ensures DecimalValue(Decimal(n)) == n
    ensures Decimal(n)[0] == '0' <==> n == 0
    decreases n
  {
    var r := Decimal(n);
    if n < 10 {
      assert r[..0] == [];
    } else {
      DecimalRoundTrip(n / 10);
      assert r[..|r| - 1] == Decimal(n / 10);
      assert r[0] == Decimal(n / 10)[0];
    }
  }
}
