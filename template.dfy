/**
 * Issue templates (`src/lib.rs`): the placeholder scanner, the template-file
 * parser, the strict parameter check and placeholder substitution.
 */
module Template {
  import opened Wrappers
  import opened Strings

  /** An issue's title, body and labels; `{name}` marks a placeholder. */
  datatype IssueTemplate = IssueTemplate(title: string, body: string, labels: seq<string>)

  /** Template text embedded at build time: first line the title, the rest the body. */
  datatype TemplateFile = TemplateFile(content: string, labels: seq<string>)

  /**
   * The parameter map, as (key, value) pairs in the order the map yields them.
   * The source's hash map fixes no order, so every property proved below
   * holds for whichever order it happens to use.
   */
  type Params = seq<(string, string)>

  function Keys(ps: Params): set<string> {
    set k | 0 <= k < |ps| :: ps[k].0
  }

  const EmptyFile := "Template file is empty"
  const NoTitle := "Template must have a title on the first line"

  // ---------------------------------------------------------------------------
  // TemplateFile::parse

  /** `TemplateFile::parse`. */
  function Parse(f: TemplateFile): (r: Result<IssueTemplate, string>)
    ensures r == Err(EmptyFile) <==> f.content == []
    ensures r == Err(NoTitle) <==> f.content != [] && AllWhitespace(Lines(f.content)[0])
    ensures r.Err? ==> r == Err(EmptyFile) || r == Err(NoTitle)
    ensures r.Ok? ==> && r.value.labels == f.labels
                      && r.value.title != [] && IsTrimmed(r.value.title)
                      && '\n' !in r.value.title && IsTrimmed(r.value.body)
  {
    var lines := Lines(f.content);
    if lines == [] then Err(EmptyFile)
    else
      var title := Trim(lines[0]);
      if title == [] then Err(NoTitle)
      else
        var body := if |lines| > 1 then Trim(Join(lines[1..], "\n")) else "";
        Ok(IssueTemplate(title, body, f.labels))
  }

  /**
   * A title line, a line feed and a body parse back to that title and body:
   * the parser is the inverse of writing a template out as a file.
   */
  lemma ParseRoundTrip(t: IssueTemplate)
    requires t.title != [] && IsTrimmed(t.title) && '\n' !in t.title
    requires IsTrimmed(t.body) && '\r' !in t.body
    ensures Parse(TemplateFile(t.title + "\n" + t.body, t.labels)) == Ok(t)
  {
    var content := t.title + "\n" + t.body;
    assert IsWhitespace('\r') && IsWhitespace('\n');
    LinesCons(t.title, t.body);
    var lines := Lines(content);
    assert lines == [t.title] + Lines(t.body);
    assert Trim(lines[0]) == t.title;
    if t.body != [] {
      JoinLines(t.body);
      assert lines[1..] == Lines(t.body);
      assert Trim(Join(lines[1..], "\n")) == t.body;
    } else {
      assert |lines| == 1;
    }
  }

  // ---------------------------------------------------------------------------
  // extract_placeholders

  /** A character a placeholder name may hold (`is_alphanumeric() || == '_'`, ASCII only). */
  predicate IsNameChar(c: char) {
    ('a' <= c <= 'z') || ('A' <= c <= 'Z') || ('0' <= c <= '9') || c == '_'
  }

  predicate IsName(n: string) {
    n != [] && forall k :: 0 <= k < |n| ==> IsNameChar(n[k])
  }

  /**
   * What the inner loop reads after a `{` that stands just before index `j`:
   * the name characters it collected, the index just after the character that
   * stopped it (or the end of the text) and whether that character was `}`.
   */
  datatype Token = Token(name: string, end: nat, closed: bool)

  function ReadName(s: string, j: nat): (t: Token)
    requires j <= |s|
    ensures j <= t.end <= |s|
    ensures j < |s| ==> j < t.end
    ensures forall m {:trigger IsNameChar(s[m])} :: j <= m < t.end - 1 ==> IsNameChar(s[m])
    ensures t.closed <==> j < t.end && s[t.end - 1] == '}'
    ensures t.end < |s| ==> j < t.end && !IsNameChar(s[t.end - 1])
    ensures t.closed ==> t.name == s[j..t.end - 1]
    decreases |s| - j
  {
    if j == |s| then Token([], j, false)
    else if s[j] == '}' then Token([], j + 1, true)
    else if IsNameChar(s[j]) then
      var t := ReadName(s, j + 1);
      assert t.closed ==> s[j..t.end - 1] == [s[j]] + s[j + 1..t.end - 1];
      Token([s[j]] + t.name, t.end, t.closed)
    else Token([], j + 1, false)
  }

  /** Every well-formed, non-empty name the scanner meets from index `i` on, in
      order and with repetitions. */
  function ScanFrom(s: string, i: nat): (r: seq<string>)
    requires i <= |s|
    ensures forall k :: 0 <= k < |r| ==> IsName(r[k])
    decreases |s| - i
  {
    if i == |s| then []
    else if s[i] != '{' then ScanFrom(s, i + 1)
    else
      var t := ReadName(s, i + 1);
      var rest := ScanFrom(s, t.end);
      var found := if t.closed && t.name != [] then [t.name] else [];
      assert forall k :: 0 <= k < |found + rest| ==>
        (found + rest)[k] == if k < |found| then found[k] else rest[k - |found|];
      found + rest
  }

  function Scan(s: string): seq<string> {
    ScanFrom(s, 0)
  }

  /** The elements of `xs` at their first occurrence: each kept once, in first-occurrence order. */
  function Firsts<T(==)>(xs: seq<T>): seq<T> {
    if xs == [] then []
    else
      var init := xs[..|xs| - 1];
      Firsts(init) + (if xs[|xs| - 1] in init then [] else [xs[|xs| - 1]])
  }

  /** The placeholders `extract_placeholders` returns for `content`. */
  function Placeholders(content: string): seq<string> {
    Firsts(Scan(content))
  }

  predicate NoDuplicates<T(==)>(xs: seq<T>) {
    forall i, j :: 0 <= i < j < |xs| ==> xs[i] != xs[j]
  }

  /** Index of the first occurrence of `x` in `xs`. */
  function FirstIndex<T(==)>(xs: seq<T>, x: T): (i: nat)
    requires x in xs
    ensures i < |xs| && xs[i] == x
    ensures forall k :: 0 <= k < i ==> xs[k] != x
  {
    if xs[0] == x then 0
    else 1 + FirstIndex(xs[1..], x)
  }

  lemma {:induction false} FirstsMembers<T>(xs: seq<T>)
    ensures forall x :: x in Firsts(xs) <==> x in xs
    decreases |xs|
  {
    if xs != [] {
      var init := xs[..|xs| - 1];
      FirstsMembers(init);
      assert xs == init + [xs[|xs| - 1]];
    }
  }

  lemma {:induction false} FirstsNoDuplicates<T>(xs: seq<T>)
    ensures NoDuplicates(Firsts(xs))
    decreases |xs|
  {
    if xs != [] {
      var init := xs[..|xs| - 1];
      var last := xs[|xs| - 1];
      FirstsNoDuplicates(init);
      FirstsMembers(init);
      var f := Firsts(init);
      if last !in init {
        assert forall i :: 0 <= i < |f| ==> (f + [last])[i] == f[i] != last;
      } else {
        assert f + [] == f;
      }
    }
  }

  /** The elements of `r` all occur in `xs`, in the order of their first occurrences there. */
  predicate InFirstOrder<T(==)>(xs: seq<T>, r: seq<T>) {
    && (forall k :: 0 <= k < |r| ==> r[k] in xs)
    && forall i, j :: 0 <= i < j < |r| ==> FirstIndex(xs, r[i]) < FirstIndex(xs, r[j])
  }

  /** `Firsts` keeps the order in which elements first occur. */
  lemma {:induction false} FirstsOrder<T>(xs: seq<T>)
    ensures InFirstOrder(xs, Firsts(xs))
    decreases |xs|
  {
    if xs != [] {
      FirstsOrder(xs[..|xs| - 1]);
      OrderSnoc(xs, Firsts(xs[..|xs| - 1]), Firsts(xs));
    }
  }

  /** Appending an element not seen before keeps first-occurrence order. */
  lemma OrderSnoc<T>(xs: seq<T>, f: seq<T>, r: seq<T>)
    requires xs != [] && InFirstOrder(xs[..|xs| - 1], f)
    requires r == f + (if xs[|xs| - 1] in xs[..|xs| - 1] then [] else [xs[|xs| - 1]])
    ensures InFirstOrder(xs, r)
  {
    forall k | 0 <= k < |r| ensures r[k] in xs {
      if k < |f| {
        assert r[k] == f[k] && f[k] in xs[..|xs| - 1];
      }
    }
    forall i, j | 0 <= i < j < |r|
      ensures FirstIndex(xs, r[i]) < FirstIndex(xs, r[j])
    {
      OrderPair(xs, f, r, i, j);
    }
  }

  lemma OrderPair<T>(xs: seq<T>, f: seq<T>, r: seq<T>, i: nat, j: nat)
    requires xs != [] && i < j < |r|
    requires r == f + (if xs[|xs| - 1] in xs[..|xs| - 1] then [] else [xs[|xs| - 1]])
    requires f[i] in xs[..|xs| - 1]
    requires j < |f| ==> (f[j] in xs[..|xs| - 1] &&
      FirstIndex(xs[..|xs| - 1], f[i]) < FirstIndex(xs[..|xs| - 1], f[j]))
    ensures r[i] in xs && r[j] in xs && FirstIndex(xs, r[i]) < FirstIndex(xs, r[j])
  {
    var init := xs[..|xs| - 1];
    assert r[i] == f[i];
    FirstIndexInit(xs, f[i]);
    if j < |f| {
      assert r[j] == f[j];
      FirstIndexInit(xs, f[j]);
    } else {
      assert r[j] == xs[|xs| - 1] && r[j] !in init;
      assert forall m :: 0 <= m < |xs| - 1 ==> xs[m] == init[m];
      FirstIndexUnique(xs, r[j], |xs| - 1);
    }
  }

  /** An element already in all but the last place is first found there. */
  lemma FirstIndexInit<T>(xs: seq<T>, x: T)
    requires xs != [] && x in xs[..|xs| - 1]
    ensures x in xs && FirstIndex(xs, x) == FirstIndex(xs[..|xs| - 1], x)
  {
    var init := xs[..|xs| - 1];
    var k := FirstIndex(init, x);
    assert xs[k] == init[k] == x;
    assert forall m :: 0 <= m < k ==> xs[m] == init[m];
    FirstIndexUnique(xs, x, k);
  }

  lemma FirstIndexUnique<T>(xs: seq<T>, x: T, k: nat)
    requires k < |xs| && xs[k] == x && forall m :: 0 <= m < k ==> xs[m] != x
    ensures FirstIndex(xs, x) == k
  {
  }

  /** `extract_placeholders` as written: an outer pass over the characters and,
      after each `{`, an inner pass collecting the name. */
  method ExtractPlaceholders(content: string) returns (placeholders: seq<string>)
    ensures placeholders == Placeholders(content)
    ensures NoDuplicates(placeholders)
    ensures forall k :: 0 <= k < |placeholders| ==> IsName(placeholders[k])
    ensures forall p :: p in placeholders <==> p in Scan(content)
  {
    placeholders := [];
    ghost var seen: seq<string> := [];
    var i := 0;
    while i < |content|
      invariant 0 <= i <= |content|
      invariant seen + ScanFrom(content, i) == Scan(content)
      invariant placeholders == Firsts(seen)
    {
      ghost var at := i;
      var ch := content[i];
      i := i + 1;
      if ch == '{' {
        var placeholder, foundEnd;
        placeholder, foundEnd, i := ReadPlaceholder(content, i);
        var isNew := foundEnd && placeholder != [] && placeholder !in placeholders;
        ScanOpen(content, at, seen, placeholder, foundEnd, i);
        if foundEnd && placeholder != [] {
          FirstsSnoc(seen, placeholder);
          seen := seen + [placeholder];
        }
        if isNew {
          placeholders := placeholders + [placeholder];
        }
      }
    }
    assert seen + [] == seen;
    PlaceholdersProperties(content);
  }

  /**
   * The inner loop of `extract_placeholders`, run after a `{` that stands just
   * before `start`: it collects name characters until a `}`, a character that
   * cannot be part of a name (which empties the name) or the end of the text.
   */
  method ReadPlaceholder(content: string, start: nat) returns (placeholder: string, foundEnd: bool, i: nat)
    requires start <= |content|
    ensures var t := ReadName(content, start);
      t.end == i && t.closed == foundEnd && (foundEnd ==> t.name == placeholder)
  {
    placeholder := "";
    foundEnd := false;
    i := start;
    ghost var t := ReadName(content, start);
    while i < |content|
      invariant start <= i <= |content|
      invariant t == Prefixed(placeholder, ReadName(content, i))
    {
      var inner := content[i];
      ReadNameStep(content, i);
      i := i + 1;
      if inner == '}' {
        foundEnd := true;
        break;
      } else if IsNameChar(inner) {
        placeholder := placeholder + [inner];
      } else {
        placeholder := "";
        break;
      }
    }
  }

  /** A token with `p` put in front of its name. */
  function Prefixed(p: string, t: Token): Token {
    Token(p + t.name, t.end, t.closed)
  }

  /** One step of the inner loop. */
  lemma ReadNameStep(s: string, i: nat)
    requires i < |s|
    ensures s[i] == '}' ==> ReadName(s, i) == Token([], i + 1, true)
    ensures s[i] != '}' && !IsNameChar(s[i]) ==> ReadName(s, i) == Token([], i + 1, false)
    ensures s[i] != '}' && IsNameChar(s[i]) ==>
      forall p :: Prefixed(p, ReadName(s, i)) == Prefixed(p + [s[i]], ReadName(s, i + 1))
  {
    if s[i] != '}' && IsNameChar(s[i]) {
      forall p ensures Prefixed(p, ReadName(s, i)) == Prefixed(p + [s[i]], ReadName(s, i + 1)) {
        assert p + ([s[i]] + ReadName(s, i + 1).name) == (p + [s[i]]) + ReadName(s, i + 1).name;
      }
    }
  }

  /** One step of the outer loop at a `{`. */
  lemma ScanOpen(s: string, at: nat, seen: seq<string>, name: string, closed: bool, next: nat)
    requires at < |s| && s[at] == '{'
    requires var t := ReadName(s, at + 1);
      t.end == next && t.closed == closed && (closed ==> t.name == name)
    requires seen + ScanFrom(s, at) == Scan(s)
    ensures next <= |s|
    ensures (if closed && name != [] then seen + [name] else seen) + ScanFrom(s, next) == Scan(s)
  {
    var t := ReadName(s, at + 1);
    var found := if closed && name != [] then [name] else [];
    assert found == if t.closed && t.name != [] then [t.name] else [];
    ScanBrace(s, at);
    Regroup(seen, found, ScanFrom(s, next), Scan(s));
  }

  lemma Regroup<T>(a: seq<T>, b: seq<T>, c: seq<T>, whole: seq<T>)
    requires a + (b + c) == whole
    ensures (a + b) + c == whole
  {
  }

  /** At a `{` the scanner reads a name and resumes where reading stopped. */
  lemma ScanBrace(s: string, i: nat)
    requires i < |s| && s[i] == '{'
    ensures var t := ReadName(s, i + 1);
      ScanFrom(s, i) == (if t.closed && t.name != [] then [t.name] else []) + ScanFrom(s, t.end)
  {
  }

  lemma FirstsSnoc<T>(xs: seq<T>, x: T)
    ensures Firsts(xs + [x]) == Firsts(xs) + (if x in Firsts(xs) then [] else [x])
  {
    assert (xs + [x])[..|xs|] == xs;
    FirstsMembers(xs);
  }

  /** A name character is put in front of what is read after it. */
  lemma ReadNameCons(s: string, j: nat)
    requires j < |s| && IsNameChar(s[j])
    ensures var u := ReadName(s, j + 1);
      ReadName(s, j) == Token([s[j]] + u.name, u.end, u.closed)
  {
    assert s[j] != '}';
  }

  /** Reading name characters up to index `k` only prefixes them to what is read from `k`. */
  lemma {:induction false} ReadNameChars(s: string, j: nat, k: nat)
    requires j <= k <= |s|
    requires forall m :: j <= m < k ==> IsNameChar(s[m])
    ensures var t := ReadName(s, k);
      ReadName(s, j) == Token(s[j..k] + t.name, t.end, t.closed)
    decreases k - j
  {
    if j < k {
      ReadNameChars(s, j + 1, k);
      ReadNameCons(s, j);
      var t := ReadName(s, k);
      assert [s[j]] + (s[j + 1..k] + t.name) == s[j..k] + t.name by {
        assert s[j..k] == [s[j]] + s[j + 1..k];
      }
    }
  }

  /** A well-formed `{name}` contributes its name and scanning resumes after the `}`. */
  lemma ScanPlaceholder(s: string, i: nat, k: nat)
    requires i < k < |s| && s[i] == '{' && s[k] == '}'
    requires forall m :: i < m < k ==> IsNameChar(s[m])
    ensures ScanFrom(s, i) == (if k == i + 1 then [] else [s[i + 1..k]]) + ScanFrom(s, k + 1)
  {
    ReadNameChars(s, i + 1, k);
    assert s[i + 1..k] + [] == s[i + 1..k];
  }

  /**
   * A `{` whose name is cut short by a character that is neither a name
   * character nor `}` contributes nothing, and scanning resumes after that
   * character (not after the `{`).
   */
  lemma ScanAborted(s: string, i: nat, k: nat)
    requires i < k < |s| && s[i] == '{' && s[k] != '}' && !IsNameChar(s[k])
    requires forall m :: i < m < k ==> IsNameChar(s[m])
    ensures ScanFrom(s, i) == ScanFrom(s, k + 1)
  {
    ReadNameChars(s, i + 1, k);
  }

  /** A `{` never closed before the end of the text contributes nothing. */
  lemma ScanUnterminated(s: string, i: nat)
    requires i < |s| && s[i] == '{'
    requires forall m :: i < m < |s| ==> IsNameChar(s[m])
    ensures ScanFrom(s, i) == []
  {
    ReadNameChars(s, i + 1, |s|);
  }

  /** The extracted names: no duplicates, each a name, exactly those the text
      holds, in the order they first occur. */
  lemma PlaceholdersProperties(content: string)
    ensures NoDuplicates(Placeholders(content))
    ensures forall k :: 0 <= k < |Placeholders(content)| ==> IsName(Placeholders(content)[k])
    ensures forall p :: p in Placeholders(content) <==> p in Scan(content)
    ensures InFirstOrder(Scan(content), Placeholders(content))
  {
    var r, xs := Placeholders(content), Scan(content);
    FirstsNoDuplicates(xs);
    FirstsMembers(xs);
    FirstsOrder(xs);
    forall k | 0 <= k < |r| ensures IsName(r[k]) {
      assert r[k] in xs;
      var j :| 0 <= j < |xs| && xs[j] == r[k];
    }
  }

  // Examples of the scanner's rules.

  lemma ExampleSpaceInBraces()
    ensures Placeholders("{a b}") == []
  {
    var s := "{a b}";
    ScanAborted(s, 0, 2);
    assert ScanFrom(s, 3) == [];
  }

  lemma ExampleEmptyBraces()
    ensures Placeholders("{}") == []
  {
    ScanPlaceholder("{}", 0, 1);
    assert Scan("{}") == [];
  }

  lemma ExampleRepeated()
    ensures Placeholders("{a}{b}{a}") == ["a", "b"]
  {
    assert "{" + "a" + "}" + ("{" + "b" + "}" + ("{" + "a" + "}" + "")) == "{a}{b}{a}";
    RepeatedPieces();
  }

  lemma RepeatedPieces()
    ensures Placeholders("{" + "a" + "}" + ("{" + "b" + "}" + ("{" + "a" + "}" + ""))) == ["a", "b"]
  {
    var s1 := "{" + "a" + "}" + "";
    var s2 := "{" + "b" + "}" + s1;
    var s3 := "{" + "a" + "}" + s2;
    assert Scan("") == [];
    ScanBraced("a", "");
    ScanBraced("b", s1);
    ScanBraced("a", s2);
    assert Scan(s3) == ["a", "b", "a"];
    FirstsABA();
  }

  lemma FirstsABA()
    ensures Firsts(["a", "b", "a"]) == ["a", "b"]
  {
    var xs := ["a", "b", "a"];
    assert xs[..2] == ["a", "b"] && xs[..2][..1] == ["a"] && xs[..2][..1][..0] == [];
    assert "a" != "b";
    assert Firsts(["a"]) == ["a"];
    assert Firsts(["a", "b"]) == ["a", "b"];
  }

  /** Reading a name does not depend on the text before it. */
  lemma {:induction false} ReadNameShift(p: string, q: string, j: nat)
    requires j <= |q|
    ensures var t := ReadName(q, j);
      ReadName(p + q, |p| + j) == Token(t.name, |p| + t.end, t.closed)
    decreases |q| - j
  {
    if j < |q| {
      assert (p + q)[|p| + j] == q[j];
      if q[j] != '}' && IsNameChar(q[j]) {
        ReadNameShift(p, q, j + 1);
        ReadNameCons(q, j);
        ReadNameCons(p + q, |p| + j);
        assert |p| + j + 1 == |p| + (j + 1);
      }
    }
  }

  /** Scanning does not depend on the text before the starting point. */
  lemma {:induction false} ScanShift(p: string, q: string, i: nat)
    requires i <= |q|
    ensures ScanFrom(p + q, |p| + i) == ScanFrom(q, i)
    decreases |q| - i, 1
  {
    if i < |q| {
      assert (p + q)[|p| + i] == q[i];
      if q[i] != '{' {
        ScanShift(p, q, i + 1);
      } else {
        ScanShiftBrace(p, q, i);
      }
    }
  }

  /** The step of `ScanShift` at a `{`: the name is read the same way in both texts. */
  lemma {:induction false} ScanShiftBrace(p: string, q: string, i: nat)
    requires i < |q| && q[i] == '{'
    ensures ScanFrom(p + q, |p| + i) == ScanFrom(q, i)
    decreases |q| - i, 0
  {
    assert (p + q)[|p| + i] == '{';
    var t := ReadName(q, i + 1);
    ReadNameShift(p, q, i + 1);
    assert ReadName(p + q, |p| + i + 1) == Token(t.name, |p| + t.end, t.closed);
    ScanShift(p, q, t.end);
  }

  /** A text opening with `{name}` yields that name, then whatever the rest yields. */
  lemma ScanBraced(name: string, rest: string)
    requires IsName(name)
    ensures Scan("{" + name + "}" + rest) == [name] + Scan(rest)
  {
    var p := "{" + name + "}";
    var s := p + rest;
    BracedText(name, rest);
    ScanPlaceholder(s, 0, |name| + 1);
    ScanShift(p, rest, 0);
    assert ScanFrom(s, |name| + 2) == Scan(rest);
    assert ScanFrom(s, 0) == [name] + ScanFrom(s, |name| + 2);
  }

  /** Text holding no `{` contributes no names. */
  lemma ScanPlain(a: string, rest: string)
    requires '{' !in a
    ensures Scan(a + rest) == Scan(rest)
  {
    var s := a + rest;
    assert forall m :: 0 <= m < |a| ==> s[m] == a[m];
    ScanSkip(s, 0, |a|);
    ScanShift(a, rest, 0);
  }

  lemma {:induction false} ScanSkip(s: string, i: nat, j: nat)
    requires i <= j <= |s|
    requires forall m :: i <= m < j ==> s[m] != '{'
    ensures ScanFrom(s, i) == ScanFrom(s, j)
    decreases j - i
  {
    if i < j {
      ScanSkip(s, i + 1, j);
    }
  }

  /** Where the characters of `{name}` sit in a text that opens with it. */
  lemma BracedText(name: string, rest: string)
    requires IsName(name)
    ensures var s := "{" + name + "}" + rest;
      && |name| + 1 < |s| && s[0] == '{' && s[|name| + 1] == '}'
      && (forall m :: 0 < m < |name| + 1 ==> IsNameChar(s[m]))
      && s[1..|name| + 1] == name
  {
    var s := "{" + name + "}" + rest;
    forall m | 0 < m < |name| + 1 ensures IsNameChar(s[m]) {
      assert s[m] == name[m - 1];
    }
  }

  lemma ExampleResumeAfterAbort()
    ensures Placeholders("{a {b}") == ["b"]
  {
    var s := "{a {b}";
    ScanAborted(s, 0, 2);
    ScanPlaceholder(s, 3, 5);
    assert s[4..5] == "b";
    assert ScanFrom(s, 3) == ["b"];
  }

  lemma ExampleBraceAborts()
    ensures Placeholders("{a{b}") == []
  {
    var s := "{a{b}";
    ScanAborted(s, 0, 2);
    assert ScanFrom(s, 3) == [];
  }

  // ---------------------------------------------------------------------------
  // TemplateFile::validate_params

  /** The first placeholder, in scan order, that is not a key. */
  function FirstMissing(phs: seq<string>, keys: set<string>): (r: Option<string>)
    ensures r.None? <==> forall k :: 0 <= k < |phs| ==> phs[k] in keys
    ensures r.Some? ==> exists i :: 0 <= i < |phs| && phs[i] == r.value && r.value !in keys
  {
    if phs == [] then None
    else if phs[0] !in keys then Some(phs[0])
    else
      var r := FirstMissing(phs[1..], keys);
      assert forall k :: 0 < k < |phs| ==> phs[k] == phs[1..][k - 1];
      r
  }

  /** The first key, in the map's order, that is not a placeholder. */
  function FirstUnused(ps: Params, phs: seq<string>): (r: Option<string>)
    ensures r.None? <==> forall k :: 0 <= k < |ps| ==> ps[k].0 in phs
    ensures r.Some? ==> r.value in Keys(ps) && r.value !in phs
  {
    if ps == [] then None
    else if ps[0].0 !in phs then Some(ps[0].0)
    else
      var r := FirstUnused(ps[1..], phs);
      assert forall k :: 0 < k < |ps| ==> ps[k] == ps[1..][k - 1];
      assert r.Some? ==> r.value in Keys(ps) by {
        if r.Some? { var k :| 0 <= k < |ps[1..]| && ps[1..][k].0 == r.value; assert ps[k + 1].0 == r.value; }
      }
      r
  }

  /** `TemplateFile::validate_params`. */
  function Validate(f: TemplateFile, ps: Params): (r: Result<(), string>)
    ensures r.Ok? <==> (set p | p in Placeholders(f.content)) == Keys(ps)
  {
    var phs := Placeholders(f.content);
    match FirstMissing(phs, Keys(ps))
    case Some(p) => Err("Missing required parameter: " + p)
    case None =>
      match FirstUnused(ps, phs)
      case Some(k) => Err("Unused parameter: " + k)
      case None =>
        assert (set p | p in phs) == Keys(ps) by {
          forall p | p in phs ensures p in Keys(ps) { var i :| 0 <= i < |phs| && phs[i] == p; }
          forall p | p in Keys(ps) ensures p in phs { var i :| 0 <= i < |ps| && ps[i].0 == p; }
        }
        Ok(())
  }

  /** A placeholder without a value is reported first: the first such in scan order. */
  lemma ValidateReportsMissing(f: TemplateFile, ps: Params, i: nat)
    requires var phs := Placeholders(f.content);
      i < |phs| && phs[i] !in Keys(ps) && forall j :: 0 <= j < i ==> phs[j] in Keys(ps)
    ensures Validate(f, ps) == Err("Missing required parameter: " + Placeholders(f.content)[i])
  {
    var phs := Placeholders(f.content);
    FirstMissingIs(phs, Keys(ps), i);
  }

  lemma {:induction false} FirstMissingIs(phs: seq<string>, keys: set<string>, i: nat)
    requires i < |phs| && phs[i] !in keys && forall j :: 0 <= j < i ==> phs[j] in keys
    ensures FirstMissing(phs, keys) == Some(phs[i])
  {
    if i > 0 {
      FirstMissingIs(phs[1..], keys, i - 1);
    }
  }

  /** With every placeholder supplied, the first extra key in the map's order is reported. */
  lemma ValidateReportsUnused(f: TemplateFile, ps: Params, i: nat)
    requires var phs := Placeholders(f.content);
      && (forall p :: p in phs ==> p in Keys(ps))
      && i < |ps| && ps[i].0 !in phs && forall j :: 0 <= j < i ==> ps[j].0 in phs
    ensures Validate(f, ps) == Err("Unused parameter: " + ps[i].0)
  {
    var phs := Placeholders(f.content);
    FirstUnusedIs(ps, phs, i);
    assert FirstMissing(phs, Keys(ps)).None? by {
      forall k | 0 <= k < |phs| ensures phs[k] in Keys(ps) { assert phs[k] in phs; }
    }
  }

  lemma {:induction false} FirstUnusedIs(ps: Params, phs: seq<string>, i: nat)
    requires i < |ps| && ps[i].0 !in phs && forall j :: 0 <= j < i ==> ps[j].0 in phs
    ensures FirstUnused(ps, phs) == Some(ps[i].0)
  {
    if i > 0 {
      FirstUnusedIs(ps[1..], phs, i - 1);
    }
  }

  // ---------------------------------------------------------------------------
  // IssueTemplate::fill_params

  function Pattern(key: string): (p: string)
    ensures p != [] && p[0] == '{'
  {
    "{" + key + "}"
  }

  /** Each key's `{key}` replaced in turn, in the map's order. */
  function FillText(text: string, ps: Params): string
    decreases |ps|
  {
    if ps == [] then text
    else FillText(ReplaceAll(text, Pattern(ps[0].0), ps[0].1), ps[1..])
  }

  /** `IssueTemplate::fill_params`, as a value. */
  function Fill(t: IssueTemplate, ps: Params): IssueTemplate {
    IssueTemplate(FillText(t.title, ps), FillText(t.body, ps), t.labels)
  }

  /** `IssueTemplate::fill_params` as written: one loop over the map,
      reassigning the title and the body. */
  method FillParams(t: IssueTemplate, ps: Params) returns (r: IssueTemplate)
    ensures r == Fill(t, ps)
    ensures r.labels == t.labels
  {
    var filledTitle := t.title;
    var filledBody := t.body;
    for i := 0 to |ps|
      invariant FillText(filledTitle, ps[i..]) == FillText(t.title, ps)
      invariant FillText(filledBody, ps[i..]) == FillText(t.body, ps)
    {
      var (key, value) := ps[i];
      var placeholder := Pattern(key);
      assert ps[i..][1..] == ps[i + 1..];
      filledTitle := ReplaceAll(filledTitle, placeholder, value);
      filledBody := ReplaceAll(filledBody, placeholder, value);
    }
    r := IssueTemplate(filledTitle, filledBody, t.labels);
  }

  /** Text in which no key's `{key}` occurs is left as it is (in particular
      with no parameters at all). */
  lemma {:induction false} FillUnchanged(text: string, ps: Params)
    requires forall k :: 0 <= k < |ps| ==> !Contains(text, Pattern(ps[k].0))
    ensures FillText(text, ps) == text
    decreases |ps|
  {
    if ps != [] {
      ReplaceAbsent(text, Pattern(ps[0].0), ps[0].1);
      assert forall k :: 0 < k < |ps| ==> ps[k] == ps[1..][k - 1];
      FillUnchanged(text, ps[1..]);
    }
  }

  /** Text without any `{` is not touched by any replacement. */
  lemma NoBraceNotContains(s: string, pat: string)
    requires pat != [] && pat[0] == '{' && '{' !in s
    ensures !Contains(s, pat)
    decreases |s|
  {
    if s != [] {
      NoBraceNotContains(s[1..], pat);
    }
  }

  /**
   * Text holding one placeholder after brace-free text: that placeholder gets
   * its value and the other keys, whose values hold no `{`, change nothing.
   */
  lemma FillOne(prefix: string, key: string, val: string, others: Params)
    requires '{' !in prefix && '{' !in val
    ensures FillText(prefix + Pattern(key), [(key, val)] + others) == prefix + val
  {
    var pat := Pattern(key);
    assert prefix + pat == prefix + (pat + []);
    ReplaceSkip(prefix, pat + [], pat, val);
    ReplaceFront(pat, [], val);
    assert prefix + (val + []) == prefix + val;
    assert '{' !in prefix + val;
    forall k | 0 <= k < |others| ensures !Contains(prefix + val, Pattern(others[k].0)) {
      NoBraceNotContains(prefix + val, Pattern(others[k].0));
    }
    FillUnchanged(prefix + val, others);
    assert ([(key, val)] + others)[1..] == others;
  }

  /** The substitution example. */
  lemma FillExample()
    ensures FillText("Application Crash: {error_type}",
                     [("error_type", "NullPointerException"), ("function", "calc"), ("line", "42")])
         == "Application Crash: NullPointerException"
  {
    FillExamplePieces();
    CrashTitlePieces();
  }

  lemma FillExamplePieces()
    ensures FillText("Application Crash: " + Pattern("error_type"),
                     [("error_type", "NullPointerException")] + [("function", "calc"), ("line", "42")])
         == "Application Crash: " + "NullPointerException"
  {
    FillOne("Application Crash: ", "error_type", "NullPointerException", [("function", "calc"), ("line", "42")]);
  }

  lemma CrashTitlePieces()
    ensures "Application Crash: " + Pattern("error_type") == "Application Crash: {error_type}"
    ensures [("error_type", "NullPointerException")] + [("function", "calc"), ("line", "42")]
         == [("error_type", "NullPointerException"), ("function", "calc"), ("line", "42")]
    ensures "Application Crash: " + "NullPointerException" == "Application Crash: NullPointerException"
  {
  }

  // Filling in general: a text seen as literal runs and placeholders.

  /** A run of literal text, or a `{key}` placeholder. */
  datatype Piece = Lit(text: string) | Hole(key: string)

  function RenderPiece(x: Piece): string {
    match x
    case Lit(t) => t
    case Hole(k) => Pattern(k)
  }

  /** The text the pieces spell out. */
  function Render(p: seq<Piece>): string {
    if p == [] then [] else RenderPiece(p[0]) + Render(p[1..])
  }

  /** Literal runs hold no `{` and every placeholder is a name. */
  predicate Clean(p: seq<Piece>) {
    forall i :: 0 <= i < |p| ==>
      (p[i].Lit? ==> '{' !in p[i].text) && (p[i].Hole? ==> IsName(p[i].key))
  }

  /** Every key is a name and no value holds a `{`. */
  predicate CleanParams(ps: Params) {
    forall i :: 0 <= i < |ps| ==> IsName(ps[i].0) && '{' !in ps[i].1
  }

  /** The value the parameters give `key`, if any. */
  function ValueOf(ps: Params, key: string): (r: Option<string>)
    ensures r.Some? <==> key in Keys(ps)
    ensures r.Some? ==> exists i :: 0 <= i < |ps| && ps[i] == (key, r.value)
  {
    if ps == [] then None
    else if ps[0].0 == key then Some(ps[0].1)
    else
      var r := ValueOf(ps[1..], key);
      assert Keys(ps) == {ps[0].0} + Keys(ps[1..]) by {
        forall k | k in Keys(ps) ensures k in {ps[0].0} + Keys(ps[1..]) {
          var i :| 0 <= i < |ps| && ps[i].0 == k;
          if i > 0 { assert ps[1..][i - 1] == ps[i]; }
        }
      }
      if r.Some? then
        var i :| 0 <= i < |ps[1..]| && ps[1..][i] == (key, r.value);
        assert ps[i + 1] == (key, r.value);
        r
      else r
  }

  /** A placeholder whose key has a value becomes that value; the rest stay. */
  function ResolvePiece(x: Piece, ps: Params): Piece {
    match x
    case Lit(_) => x
    case Hole(k) => if ValueOf(ps, k).Some? then Lit(ValueOf(ps, k).value) else x
  }

  function Resolve(p: seq<Piece>, ps: Params): (r: seq<Piece>)
    ensures |r| == |p|
  {
    if p == [] then [] else [ResolvePiece(p[0], ps)] + Resolve(p[1..], ps)
  }

  /** `{key}` does not start at another name's placeholder. */
  lemma OtherPattern(k1: string, k2: string, b: string)
    requires IsName(k1) && IsName(k2) && k1 != k2
    ensures !(Pattern(k1) <= Pattern(k2) + b)
  {
    var s, pat := Pattern(k2) + b, Pattern(k1);
    assert s[|k2| + 1] == '}' && pat[|k1| + 1] == '}';
    if |k1| < |k2| {
      assert s[|k1| + 1] == k2[|k1|] && IsNameChar(k2[|k1|]);
      assert pat[|k1| + 1] != s[|k1| + 1];
    } else if |k1| > |k2| {
      assert pat[|k2| + 1] == k1[|k2|] && IsNameChar(k1[|k2|]);
      assert pat[|k2| + 1] != s[|k2| + 1];
    } else {
      var m :| 0 <= m < |k1| && k1[m] != k2[m];
      assert pat[m + 1] == k1[m] && s[m + 1] == k2[m];
    }
  }

  /** Replacing one name's placeholder steps over another name's placeholder. */
  lemma ReplaceOther(k1: string, k2: string, b: string, v: string)
    requires IsName(k1) && IsName(k2) && k1 != k2
    ensures ReplaceAll(Pattern(k2) + b, Pattern(k1), v) == Pattern(k2) + ReplaceAll(b, Pattern(k1), v)
  {
    var s, pat := Pattern(k2) + b, Pattern(k1);
    OtherPattern(k1, k2, b);
    ReplaceStep(s, pat, v);
    var tail := k2 + "}";
    assert s[1..] == tail + b;
    assert '{' !in tail by {
      forall m | 0 <= m < |tail| ensures tail[m] != '{' {
        if m < |k2| { assert tail[m] == k2[m] && IsNameChar(k2[m]); }
      }
    }
    ReplaceSkip(tail, b, pat, v);
    assert [s[0]] + (tail + ReplaceAll(b, pat, v)) == Pattern(k2) + ReplaceAll(b, pat, v);
  }

  /** One replacement on clean pieces resolves that key's placeholders, wherever
      and however often they occur, and leaves everything else alone. */
  lemma {:induction false} ReplacePieces(p: seq<Piece>, k: string, v: string)
    requires Clean(p) && IsName(k) && '{' !in v
    ensures ReplaceAll(Render(p), Pattern(k), v) == Render(Resolve(p, [(k, v)]))
    decreases |p|
  {
    if p == [] {
      assert Render(p) == [];
    } else {
      var pat, rest := Pattern(k), p[1..];
      assert Clean(rest) by {
        forall i | 0 <= i < |rest| ensures rest[i] == p[i + 1] { }
      }
      ReplacePieces(rest, k, v);
      assert Render(p) == RenderPiece(p[0]) + Render(rest);
      var q := Resolve(p, [(k, v)]);
      assert q == [ResolvePiece(p[0], [(k, v)])] + Resolve(rest, [(k, v)]);
      assert q[1..] == Resolve(rest, [(k, v)]);
      match p[0]
      case Lit(t) =>
        assert '{' !in t;
        assert pat[0] == '{';
        ReplaceSkip(t, Render(rest), pat, v);
      case Hole(k2) =>
        if k2 == k {
          assert ValueOf([(k, v)], k2) == Some(v);
          ReplaceFront(pat, Render(rest), v);
        } else {
          assert ValueOf([(k, v)], k2) == None;
          ReplaceOther(k, k2, Render(rest), v);
        }
    }
  }

  lemma {:induction false} ResolveClean(p: seq<Piece>, ps: Params)
    requires Clean(p) && CleanParams(ps)
    ensures Clean(Resolve(p, ps))
  {
    var r := Resolve(p, ps);
    forall i | 0 <= i < |r|
      ensures (r[i].Lit? ==> '{' !in r[i].text) && (r[i].Hole? ==> IsName(r[i].key))
    {
      ResolveAt(p, ps, i);
      if p[i].Hole? && ValueOf(ps, p[i].key).Some? {
        var o := ValueOf(ps, p[i].key);
        var j :| 0 <= j < |ps| && ps[j] == (p[i].key, o.value);
      }
    }
  }

  lemma {:induction false} ResolveAt(p: seq<Piece>, ps: Params, i: nat)
    requires i < |p|
    ensures Resolve(p, ps)[i] == ResolvePiece(p[i], ps)
    decreases i
  {
    if i > 0 {
      ResolveAt(p[1..], ps, i - 1);
    }
  }

  lemma {:induction false} ResolveNone(p: seq<Piece>)
    ensures Resolve(p, []) == p
  {
    var r := Resolve(p, []);
    forall i | 0 <= i < |p| ensures r[i] == p[i] {
      ResolveAt(p, [], i);
    }
  }

  /** Resolving by one pair and then by the rest is resolving by all of them,
      the first pair winning for its key. */
  lemma {:induction false} ResolveTwice(p: seq<Piece>, ps: Params)
    requires ps != []
    ensures Resolve(Resolve(p, [ps[0]]), ps[1..]) == Resolve(p, ps)
  {
    var q := Resolve(p, [ps[0]]);
    var r := Resolve(q, ps[1..]);
    forall i | 0 <= i < |p| ensures r[i] == Resolve(p, ps)[i] {
      ResolveAt(p, [ps[0]], i);
      ResolveAt(q, ps[1..], i);
      ResolveAt(p, ps, i);
    }
  }

  /**
   * `fill_params` on a clean text: every placeholder with a key gets the value
   * the parameters give it, every other placeholder and all literal text stay,
   * whatever order the map yields its pairs in.
   */
  lemma {:induction false} FillPieces(p: seq<Piece>, ps: Params)
    requires Clean(p) && CleanParams(ps)
    ensures FillText(Render(p), ps) == Render(Resolve(p, ps))
    decreases |ps|
  {
    if ps == [] {
      ResolveNone(p);
    } else {
      var (k, v) := ps[0];
      ReplacePieces(p, k, v);
      var q := Resolve(p, [(k, v)]);
      ResolveClean(p, [(k, v)]);
      assert CleanParams(ps[1..]) by {
        forall i | 0 <= i < |ps[1..]| ensures ps[1..][i] == ps[i + 1] { }
      }
      FillPieces(q, ps[1..]);
      ResolveTwice(p, ps);
    }
  }

  /** A placeholder in the middle of brace-free text gets its value. */
  lemma FillMid(a: string, key: string, b: string, ps: Params, v: string)
    requires '{' !in a && '{' !in b && IsName(key) && CleanParams(ps)
    requires ValueOf(ps, key) == Some(v)
    ensures FillText(a + Pattern(key) + b, ps) == a + v + b
  {
    var p := [Lit(a), Hole(key), Lit(b)];
    assert a + Pattern(key) + b == Render(p) by { ThreeRender(Lit(a), Hole(key), Lit(b)); }
    assert Clean(p);
    FillPieces(p, ps);
    assert Resolve(p, ps) == [Lit(a), Lit(v), Lit(b)] by {
      ResolveAt(p, ps, 0);
      ResolveAt(p, ps, 1);
      ResolveAt(p, ps, 2);
    }
    ThreeRender(Lit(a), Lit(v), Lit(b));
  }

  lemma ThreeRender(x: Piece, y: Piece, z: Piece)
    ensures Render([x, y, z]) == RenderPiece(x) + RenderPiece(y) + RenderPiece(z)
  {
    RenderCons(z, []);
    RenderCons(y, [z]);
    RenderCons(x, [y, z]);
    assert [z] == [z] + [] && [y, z] == [y] + [z] && [x, y, z] == [x] + [y, z];
    assert Render([]) == [];
  }

  lemma RenderCons(x: Piece, q: seq<Piece>)
    ensures Render([x] + q) == RenderPiece(x) + Render(q)
  {
    assert ([x] + q)[1..] == q;
  }

  /** The performance template's title, with its key second in the map. */
  lemma FillExampleMid()
    ensures FillText("Performance Issue: {operation} is too slow",
                     [("expected", "100"), ("operation", "save")])
         == "Performance Issue: save is too slow"
  {
    PerformanceTitlePieces();
    PerformanceTitleFilled();
    PerformanceTitleBraceFree();
    PerformanceValue();
    FillMid("Performance Issue: ", "operation", " is too slow",
            [("expected", "100"), ("operation", "save")], "save");
  }

  lemma PerformanceTitlePieces()
    ensures "Performance Issue: " + Pattern("operation") + " is too slow"
         == "Performance Issue: {operation} is too slow"
  {
    assert Pattern("operation") == "{operation}";
  }

  lemma PerformanceTitleFilled()
    ensures "Performance Issue: " + "save" + " is too slow" == "Performance Issue: save is too slow"
  {
  }

  lemma PerformanceTitleBraceFree()
    ensures '{' !in "Performance Issue: " && '{' !in " is too slow"
  {
  }

  lemma PerformanceValue()
    ensures IsName("operation")
    ensures CleanParams([("expected", "100"), ("operation", "save")])
    ensures ValueOf([("expected", "100"), ("operation", "save")], "operation") == Some("save")
  {
    var ps := [("expected", "100"), ("operation", "save")];
    assert "expected" != "operation" by { assert "expected"[0] != "operation"[0]; }
    assert ps[1..] == [("operation", "save")];
    assert IsName("expected") && IsName("operation");
  }

  // ---------------------------------------------------------------------------
  // IssueTemplate::from_template_file

  /** `IssueTemplate::from_template_file`: validate, then parse, then fill. */
  function FromTemplateFile(f: TemplateFile, ps: Params): (r: Result<IssueTemplate, string>)
    ensures Validate(f, ps).Err? ==> r == Err(Validate(f, ps).error)
    ensures Validate(f, ps).Ok? && Parse(f).Err? ==> r == Err(Parse(f).error)
    ensures r.Ok? <==> Validate(f, ps).Ok? && Parse(f).Ok?
    ensures r.Ok? ==> r.value.labels == f.labels
    ensures r.Ok? ==> r.value == Fill(Parse(f).value, ps)
  {
    match Validate(f, ps)
    case Err(e) => Err(e)
    case Ok(_) =>
      match Parse(f)
      case Err(e) => Err(e)
      case Ok(t) => Ok(Fill(t, ps))
  }

  /**
   * A two-line file using its one placeholder twice: it validates against the
   * one key, parses into title and body, and both get the value.
   */
  lemma ExampleFromFile(labels: seq<string>)
    ensures FromTemplateFile(TemplateFile("Crash {x}\nAt {x}", labels), [("x", "y")])
         == Ok(IssueTemplate("Crash y", "At y", labels))
  {
    var t := IssueTemplate("Crash {x}", "At {x}", labels);
    FilePlaceholders();
    FileParse(labels);
    FromFileOne(TemplateFile("Crash {x}\nAt {x}", labels), "x", "y", t);
    FileFill();
  }

  /** A file whose only placeholder is the only key fills what it parses to. */
  lemma FromFileOne(f: TemplateFile, k: string, v: string, t: IssueTemplate)
    requires Placeholders(f.content) == [k] && Parse(f) == Ok(t)
    ensures FromTemplateFile(f, [(k, v)]) == Ok(Fill(t, [(k, v)]))
  {
    var ps := [(k, v)];
    assert Keys(ps) == {k} by {
      forall q | q in Keys(ps) ensures q == k { var i :| 0 <= i < |ps| && ps[i].0 == q; }
      assert ps[0].0 == k;
    }
    assert (set p | p in Placeholders(f.content)) == {k};
    assert Validate(f, ps).Ok?;
  }

  lemma FilePlaceholders()
    ensures Placeholders("Crash {x}\nAt {x}") == ["x"]
  {
    FileTextPieces();
    FileScanPieces();
    FirstsTwice("x");
  }

  lemma FileTextPieces()
    ensures "Crash " + ("{" + "x" + "}" + ("\nAt " + ("{" + "x" + "}" + ""))) == "Crash {x}\nAt {x}"
  {
  }

  lemma FileScanPieces()
    ensures Scan("Crash " + ("{" + "x" + "}" + ("\nAt " + ("{" + "x" + "}" + "")))) == ["x", "x"]
  {
    var s1 := "{" + "x" + "}" + "";
    var s2 := "\nAt " + s1;
    var s3 := "{" + "x" + "}" + s2;
    assert IsName("x");
    assert Scan("") == [];
    ScanBraced("x", "");
    ScanPlain("\nAt ", s1);
    ScanBraced("x", s2);
    ScanPlain("Crash ", s3);
  }

  lemma FirstsTwice<T>(x: T)
    ensures Firsts([x, x]) == [x]
  {
    var xs := [x, x];
    assert [x][..0] == [];
    assert Firsts([x]) == [x];
    assert xs[..1] == [x];
  }

  lemma FileParse(labels: seq<string>)
    ensures Parse(TemplateFile("Crash {x}\nAt {x}", labels)) == Ok(IssueTemplate("Crash {x}", "At {x}", labels))
  {
    FileLines();
    ParseRoundTrip(IssueTemplate("Crash {x}", "At {x}", labels));
  }

  lemma FileLines()
    ensures "Crash {x}" + "\n" + "At {x}" == "Crash {x}\nAt {x}"
    ensures IsTrimmed("Crash {x}") && '\n' !in "Crash {x}"
    ensures IsTrimmed("At {x}") && '\r' !in "At {x}"
  {
  }

  lemma FileFill()
    ensures FillText("Crash {x}", [("x", "y")]) == "Crash y"
    ensures FillText("At {x}", [("x", "y")]) == "At y"
  {
    var ps := [("x", "y")];
    assert IsName("x") && CleanParams(ps) && ValueOf(ps, "x") == Some("y");
    assert "Crash " + Pattern("x") + "" == "Crash {x}" && "Crash " + "y" + "" == "Crash y";
    FillMid("Crash ", "x", "", ps, "y");
    assert "At " + Pattern("x") + "" == "At {x}" && "At " + "y" + "" == "At y";
    FillMid("At ", "x", "", ps, "y");
  }

  /** Validation comes before parsing: an empty file given any parameter
      reports its first key as unused rather than the file as empty. */
  lemma ValidationBeforeParse(labels: seq<string>, ps: Params)
    requires ps != []
    ensures FromTemplateFile(TemplateFile("", labels), ps) == Err("Unused parameter: " + ps[0].0)
  {
    var f := TemplateFile("", labels);
    assert Scan(f.content) == [];
    assert Placeholders(f.content) == [];
    ValidateReportsUnused(f, ps, 0);
  }
}
