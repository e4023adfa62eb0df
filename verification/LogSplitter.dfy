/**
 * Splitting a hardware log into top-level { ... } fragments by counting braces.
 * The log is a sequence of objects with anything but braces in between.
 */
module LogSplitter {
  import opened Basics

  /** The splitter after some characters: brace depth, the fragment being collected, and the finished ones. */
  datatype Scanner = Scanner(depth: int, open: Option<string>, done: seq<string>)

  function Append(open: Option<string>, c: char): Option<string> {
    if open.Some? then Some(open.value + [c]) else None
  }

  function Feed(st: Scanner, c: char): Scanner {
    if c == '{' then
      Scanner(st.depth + 1, if st.depth == 0 then Some("{") else Append(st.open, c), st.done)
    else if c == '}' then
      var open := Append(st.open, c);
      if st.depth - 1 == 0 && open.Some? then Scanner(0, None, st.done + [open.value])
      else Scanner(st.depth - 1, open, st.done)
    else st.(open := Append(st.open, c))
  }

  function FeedAll(st: Scanner, s: string): Scanner {
    if s == [] then st else Feed(FeedAll(st, s[..|s| - 1]), s[|s| - 1])
  }

  const START: Scanner := Scanner(0, None, [])

  /** The fragments handed to the JSON step. */
  function Fragments(text: string): seq<string> {
    FeedAll(START, text).done
  }

  /** The loop of the tool: `start` is an index, -1 when no fragment is open. */
  method Split(text: string) returns (fragments: seq<string>)
    ensures fragments == Fragments(text)
  {
    fragments := [];
    var depth, start := 0, -1;
    for i := 0 to |text|
      invariant -1 <= start < i || (start == -1 && i == 0)
      invariant FeedAll(START, text[..i])
             == Scanner(depth, if start >= 0 then Some(text[start..i]) else None, fragments)
    {
      assert text[..i + 1][..i] == text[..i];
      assert start >= 0 ==> text[start..i + 1] == text[start..i] + [text[i]];
      if text[i] == '{' {
        if depth == 0 {
          start := i;
          assert text[start..i + 1] == "{";
        }
        depth := depth + 1;
      } else if text[i] == '}' {
        depth := depth - 1;
        if depth == 0 && start >= 0 {
          fragments := fragments + [text[start..i + 1]];
          start := -1;
        }
      }
    }
    assert text[..|text|] == text;
  }

  lemma {:induction false} FeedAppend(st: Scanner, a: string, b: string)
    ensures FeedAll(st, a + b) == FeedAll(FeedAll(st, a), b)
  {
    if b == [] {
      assert a + b == a;
    } else {
      var n := |b| - 1;
      FeedAppend(st, a, b[..n]);
      assert (a + b)[..|a + b| - 1] == a + b[..n];
    }
  }

  // Separators and objects ------------------------------------------------------------

  predicate BraceFree(s: string) {
    forall i :: 0 <= i < |s| ==> s[i] != '{' && s[i] != '}'
  }

  function Delta(c: char): int {
    if c == '{' then 1 else if c == '}' then -1 else 0
  }

  function Depth(s: string): int {
    if s == [] then 0 else Depth(s[..|s| - 1]) + Delta(s[|s| - 1])
  }

  /** A fragment: it opens with a brace that only its last character closes. */
  ghost predicate IsObject(f: string) {
    && |f| >= 2 && f[0] == '{' && Depth(f) == 0
    && forall n :: 1 <= n < |f| ==> Depth(f[..n]) >= 1
  }

  lemma {:induction false} SeparatorIsSkipped(done: seq<string>, s: string)
    requires BraceFree(s)
    ensures FeedAll(Scanner(0, None, done), s) == Scanner(0, None, done)
  {
    if s != [] {
      SeparatorIsSkipped(done, s[..|s| - 1]);
    }
  }

  /** Inside an object everything is collected. */
  lemma {:induction false} ObjectIsCollected(done: seq<string>, f: string, n: nat)
    requires IsObject(f) && 1 <= n < |f|
    ensures FeedAll(Scanner(0, None, done), f[..n]) == Scanner(Depth(f[..n]), Some(f[..n]), done)
  {
    assert f[..n][..n - 1] == f[..n - 1];
    if n > 1 {
      ObjectIsCollected(done, f, n - 1);
      assert Depth(f[..n - 1]) >= 1 && Depth(f[..n]) >= 1;
      assert f[..n] == f[..n - 1] + [f[n - 1]];
    } else {
      assert f[..1] == "{" && f[..1][..0] == [];
      assert FeedAll(Scanner(0, None, done), []) == Scanner(0, None, done);
    }
  }

  lemma ObjectIsEmitted(done: seq<string>, f: string)
    requires IsObject(f)
    ensures FeedAll(Scanner(0, None, done), f) == Scanner(0, None, done + [f])
  {
    var n := |f| - 1;
    ObjectIsCollected(done, f, n);
    assert f[..n] + [f[n]] == f;
    assert Depth(f) == Depth(f[..n]) + Delta(f[n]);
  }

  // Splitting inverts printing ----------------------------------------------------------

  /** `objects[i]` preceded by `gaps[i]`, then a last gap. */
  function Printed(gaps: seq<string>, objects: seq<string>, last: string): string
    requires |gaps| == |objects|
  {
    PrintedUpTo(gaps, objects, |objects|) + last
  }

  function PrintedUpTo(gaps: seq<string>, objects: seq<string>, n: nat): string
    requires |gaps| == |objects| && n <= |objects|
  {
    if n == 0 then "" else PrintedUpTo(gaps, objects, n - 1) + (gaps[n - 1] + objects[n - 1])
  }

  lemma NextObject(front: string, done: seq<string>, gap: string, f: string)
    requires FeedAll(START, front) == Scanner(0, None, done) && BraceFree(gap) && IsObject(f)
    ensures FeedAll(START, front + (gap + f)) == Scanner(0, None, done + [f])
  {
    FeedAppend(START, front, gap + f);
    FeedAppend(Scanner(0, None, done), gap, f);
    SeparatorIsSkipped(done, gap);
    ObjectIsEmitted(done, f);
  }

  lemma {:induction false} SplitUpTo(gaps: seq<string>, objects: seq<string>, n: nat)
    requires |gaps| == |objects| && n <= |objects|
    requires forall i :: 0 <= i < |gaps| ==> BraceFree(gaps[i]) && IsObject(objects[i])
    ensures FeedAll(START, PrintedUpTo(gaps, objects, n)) == Scanner(0, None, objects[..n])
  {
    if n > 0 {
      SplitUpTo(gaps, objects, n - 1);
      NextObject(PrintedUpTo(gaps, objects, n - 1), objects[..n - 1], gaps[n - 1], objects[n - 1]);
      assert objects[..n] == objects[..n - 1] + [objects[n - 1]];
    }
  }

  /** Any list of objects with brace-free text around them comes back unchanged and in order. */
  lemma SplitInvertsPrinting(gaps: seq<string>, objects: seq<string>, last: string)
    requires |gaps| == |objects| && BraceFree(last)
    requires forall i :: 0 <= i < |gaps| ==> BraceFree(gaps[i]) && IsObject(objects[i])
    ensures Fragments(Printed(gaps, objects, last)) == objects
  {
    SplitUpTo(gaps, objects, |objects|);
    FeedAppend(START, PrintedUpTo(gaps, objects, |objects|), last);
    SeparatorIsSkipped(objects, last);
    assert objects[..|objects|] == objects;
  }

  /** The scanner counts braces, and nothing is open at depth 0 or below. */
  lemma {:induction false} ScannerDepth(s: string)
    ensures var st := FeedAll(START, s); st.depth == Depth(s) && (st.depth <= 0 ==> st.open.None?)
  {
    if s != [] {
      ScannerDepth(s[..|s| - 1]);
    }
  }

  /** Fed from another depth than 0, the first `n` characters of an object only yield shorter fragments. */
  lemma {:induction false} MisalignedObject(st: Scanner, f: string, n: nat)
    requires IsObject(f) && n <= |f| && st.depth != 0 && (st.depth < 0 ==> st.open.None?)
    ensures FeedAll(st, f[..n]).depth == st.depth + Depth(f[..n])
    ensures st.depth > 0 ==> FeedAll(st, f[..n]).done == st.done
    ensures st.depth < 0 ==> ShorterThan(FeedAll(st, f[..n]), |st.done|, n)
  {
    if n > 0 {
      MisalignedObject(st, f, n - 1);
      assert f[..n][..n - 1] == f[..n - 1];
      assert n < |f| ==> Depth(f[..n]) >= 1;
      assert f[..|f|] == f;
    }
  }

  /** What was collected or handed over after the first `from` fragments is shorter than `n`. */
  ghost predicate ShorterThan(st: Scanner, from: nat, n: nat) {
    && (st.open.Some? ==> |st.open.value| < n)
    && from <= |st.done|
    && forall i :: from <= i < |st.done| ==> |st.done[i]| < n
  }

  /** After any text, an object comes back as the next fragment exactly when the braces before it balance. */
  lemma ObjectSplitExactly(before: string, f: string)
    requires IsObject(f)
    ensures Fragments(before + f) == Fragments(before) + [f] <==> Depth(before) == 0
  {
    var st := FeedAll(START, before);
    FeedAppend(START, before, f);
    ScannerDepth(before);
    if st.depth == 0 {
      ObjectIsEmitted(st.done, f);
    } else {
      MisalignedObject(st, f, |f|);
      assert f[..|f|] == f;
      assert (st.done + [f])[|st.done|] == f;
    }
  }

  /** One character more. */
  lemma OneMore(st: Scanner, s: string, c: char)
    ensures FeedAll(st, s + [c]) == Feed(FeedAll(st, s), c) && Depth(s + [c]) == Depth(s) + Delta(c)
  {
    assert (s + [c])[..|s|] == s;
  }

  lemma NestedBraces()
    ensures IsObject("{{}}")
  {
    var f := "{{}}";
    assert f[..0] == [] && f[..1] == f[..0] + ['{'] && f[..2] == f[..1] + ['{'] && f[..3] == f[..2] + ['}'];
    assert f == f[..3] + ['}'];
    OneMore(START, f[..0], '{');
    OneMore(START, f[..1], '{');
    OneMore(START, f[..2], '}');
    OneMore(START, f[..3], '}');
  }

  /** A stray closing brace before the objects makes the splitter hand over their insides instead. */
  lemma StrayBraceShiftsDepth()
    ensures IsObject("{{}}") && Fragments("}" + "{{}}") == ["{}"]
  {
    NestedBraces();
    var s0 := [] + ['}'];
    var s1 := s0 + ['{'];
    var s2 := s1 + ['{'];
    var s3 := s2 + ['}'];
    OneMore(START, [], '}');
    OneMore(START, s0, '{');
    OneMore(START, s1, '{');
    OneMore(START, s2, '}');
    OneMore(START, s3, '}');
    assert "{" + ['}'] == "{}";
    assert FeedAll(START, s3) == Scanner(0, None, ["{}"]);
    assert "}" + "{{}}" == s3 + ['}'];
  }

  // Nested objects print as fragments -----------------------------------------------------

  /** The brace structure of a printed value: plain text and nested objects. */
  datatype Piece = Plain(text: string) | Nested(parts: seq<Piece>)

  predicate PlainTextIsBraceFree(p: Piece) {
    match p
    case Plain(text) => BraceFree(text)
    case Nested(parts) => forall i :: 0 <= i < |parts| ==> PlainTextIsBraceFree(parts[i])
  }

  function Print(p: Piece): string {
    match p
    case Plain(text) => text
    case Nested(parts) => "{" + PrintAll(parts) + "}"
  }

  function PrintAll(parts: seq<Piece>): string {
    if parts == [] then "" else Print(parts[0]) + PrintAll(parts[1..])
  }

  /** The depth stays non-negative and returns to where it was. */
  ghost predicate Level(s: string) {
    Depth(s) == 0 && forall n :: 0 <= n <= |s| ==> Depth(s[..n]) >= 0
  }

  lemma {:induction false} DepthAppend(a: string, b: string)
    ensures Depth(a + b) == Depth(a) + Depth(b)
  {
    if b == [] {
      assert a + b == a;
    } else {
      var n := |b| - 1;
      DepthAppend(a, b[..n]);
      assert (a + b)[..|a + b| - 1] == a + b[..n];
    }
  }

  lemma LevelAppend(a: string, b: string)
    requires Level(a) && Level(b)
    ensures Level(a + b)
  {
    DepthAppend(a, b);
    forall n | 0 <= n <= |a + b|
      ensures Depth((a + b)[..n]) >= 0
    {
      if n <= |a| {
        assert (a + b)[..n] == a[..n];
      } else {
        assert (a + b)[..n] == a + b[..n - |a|];
        DepthAppend(a, b[..n - |a|]);
      }
    }
  }

  lemma {:induction false} PlainDepth(s: string)
    requires BraceFree(s)
    ensures Depth(s) == 0
  {
    if s != [] {
      PlainDepth(s[..|s| - 1]);
    }
  }

  lemma BracesMakeObject(s: string)
    requires Level(s)
    ensures IsObject("{" + s + "}")
  {
    var f := "{" + s + "}";
    assert f[..|f| - 1] == "{" + s;
    assert Depth("{") == 1 by {
      assert "{"[..0] == "";
    }
    DepthAppend("{", s);
    forall n | 1 <= n < |f|
      ensures Depth(f[..n]) >= 1
    {
      assert f[..n] == "{" + s[..n - 1];
      DepthAppend("{", s[..n - 1]);
    }
  }

  lemma ObjectIsLevel(f: string)
    requires IsObject(f)
    ensures Level(f)
  {
    assert f[..|f|] == f && f[..0] == [];
  }

  lemma {:induction false} PrintIsLevel(p: Piece)
    requires PlainTextIsBraceFree(p)
    ensures Level(Print(p))
    ensures p.Nested? ==> IsObject(Print(p))
    decreases p, 1
  {
    match p
    case Plain(text) =>
      forall n | 0 <= n <= |text|
        ensures Depth(text[..n]) >= 0
      {
        PlainDepth(text[..n]);
      }
      PlainDepth(text);
    case Nested(parts) =>
      PrintAllIsLevel(parts);
      BracesMakeObject(PrintAll(parts));
      ObjectIsLevel(Print(p));
  }

  lemma {:induction false} PrintAllIsLevel(parts: seq<Piece>)
    requires forall i :: 0 <= i < |parts| ==> PlainTextIsBraceFree(parts[i])
    ensures Level(PrintAll(parts))
    decreases parts, 0
  {
    if parts == [] {
      assert ""[..0] == "";
    } else {
      PrintIsLevel(parts[0]);
      PrintAllIsLevel(parts[1..]);
      LevelAppend(Print(parts[0]), PrintAll(parts[1..]));
    }
  }
}
