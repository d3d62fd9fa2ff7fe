/**
 The function map of tools/funcmap.cc and its cache file: function names with their
 numbers, written one name a line and read back with fgets.
 */
module FuncMap {

  // fgets is given FUNC_NAME_MAX bytes and reads one less (funcmap.h:17)
  const LINE_MAX: nat := 255

  const UINT_MAX: nat := 0xFFFF_FFFF

  // What a char pointer gives: no NUL inside.
  type CStr = s: string | '\0' !in s

  // initSkipList (lines 24-33)
  predicate Skipped(f: CStr) { f == "_init" || f == "_fini" || f == "__popcountdi2" || f == "__do_global_dtors_aux" }

  // -------------------------------------------------------------- specification

  function Added(funcs: seq<CStr>, f: CStr): seq<CStr> {
    if f in funcs || Skipped(f) then funcs else funcs + [f]
  }

  function AddedAll(funcs: seq<CStr>, names: seq<string>): seq<CStr> {
    if names == [] then funcs else Added(AddedAll(funcs, names[..|names| - 1]), CString(names[|names| - 1]))
  }

  function CacheText(funcs: seq<CStr>): CStr {
    if funcs == [] then "" else funcs[0] + "\n" + CacheText(funcs[1..])
  }

  // How many characters fgets takes: through the first newline, at most max.
  function Span(text: string, max: nat): (n: nat)
    ensures n <= |text| && n <= max
  {
    if max == 0 || text == "" then 0 else if text[0] == '\n' then 1 else 1 + Span(text[1..], max - 1)
  }

  // fgets met the end of the file.
  predicate AtEnd(text: string) {
    var n := Span(text, LINE_MAX);
    n < LINE_MAX && (n == 0 || text[n - 1] != '\n')
  }

  // The characters before the first NUL.
  function CString(s: string): (c: CStr) {
    if s == "" || s[0] == '\0' then "" else [s[0]] + CString(s[1..])
  }

  function Stripped(s: CStr): CStr
    requires s != ""
  {
    if s[|s| - 1] == '\n' then s[..|s| - 1] else s
  }

  // The buffer after fgets: unchanged when nothing could be read.
  function Buffer(text: string, str: CStr): CStr {
    var n := Span(text, LINE_MAX);
    if n == 0 then str else CString(text[..n])
  }

  // Loading ends with the names, or at an empty buffer, whose last character lies before it (line 143).
  datatype Outcome = Loaded(funcs: seq<CStr>) | OutOfBounds

  // The loop of loadFromCache (lines 140-146) from a file position, buffer and map.
  function LoadedFrom(text: string, str: CStr, eof: bool, funcs: seq<CStr>): Outcome
    decreases |text|, !eof
  {
    if eof then Loaded(funcs)
    else
      var line := Buffer(text, str);
      if line == "" then OutOfBounds
      else
        var name := Stripped(line);
        LoadedFrom(text[Span(text, LINE_MAX)..], name, AtEnd(text), Added(funcs, name))
  }

  // ------------------------------------------------------- what adding names does

  /** CString is the longest prefix without NUL. */
  lemma {:induction false} CStringIs(s: string)
    ensures CString(s) <= s && (|CString(s)| < |s| ==> s[|CString(s)|] == '\0')
  {
    if s != "" { CStringIs(s[1..]); }
  }

  // The name occurs among these.
  ghost predicate Occurs(names: seq<string>, f: CStr) { exists k :: 0 <= k < |names| && CString(names[k]) == f }

  lemma OccursLast(names: seq<string>, f: CStr)
    requires names != []
    ensures Occurs(names, f) <==> Occurs(names[..|names| - 1], f) || CString(names[|names| - 1]) == f
  {
    var n := |names| - 1;
    if Occurs(names[..n], f) {
      var k :| 0 <= k < n && CString(names[..n][k]) == f;
      assert CString(names[k]) == f;
    }
    if k :| 0 <= k < |names| && CString(names[k]) == f {
      if k < n { assert CString(names[..n][k]) == f; }
    }
  }

  /** Adding names adds exactly those that are not skipped. */
  lemma {:induction false} AddedAllMembers(funcs: seq<CStr>, names: seq<string>, f: CStr)
    ensures f in AddedAll(funcs, names) <==> f in funcs || (!Skipped(f) && Occurs(names, f))
  {
    if names != [] {
      AddedAllMembers(funcs, names[..|names| - 1], f);
      OccursLast(names, f);
    }
  }

  // Where a name occurs first.
  function FirstAt(names: seq<string>, f: CStr): (k: nat)
    ensures k <= |names| && (k < |names| ==> CString(names[k]) == f)
    ensures forall j | 0 <= j < k :: CString(names[j]) != f
  {
    if names == [] || CString(names[0]) == f then 0 else 1 + FirstAt(names[1..], f)
  }

  lemma FirstAtPrefix(names: seq<string>, f: CStr)
    requires names != [] && Occurs(names[..|names| - 1], f)
    ensures FirstAt(names, f) == FirstAt(names[..|names| - 1], f) < |names| - 1
  {
    var n := |names| - 1;
    var k :| 0 <= k < n && CString(names[..n][k]) == f;
    var a, b := FirstAt(names, f), FirstAt(names[..n], f);
    assert CString(names[k]) == f && b <= k;
    assert CString(names[b]) == CString(names[..n][b]);
    assert a < n ==> CString(names[..n][a]) == CString(names[a]);
  }

  lemma FirstAtLast(names: seq<string>, f: CStr)
    requires names != [] && !Occurs(names[..|names| - 1], f) && CString(names[|names| - 1]) == f
    ensures FirstAt(names, f) == |names| - 1
  {
    var n := |names| - 1;
    forall j | 0 <= j < n
      ensures CString(names[j]) != f
    {
      assert names[..n][j] == names[j];
    }
  }

  // The first names keep their numbers, and the others are numbered by first occurrence.
  ghost predicate Numbered(funcs: seq<CStr>, names: seq<string>, r: seq<CStr>) {
    && funcs <= r
    && (forall k | |funcs| <= k < |r| :: Occurs(names, r[k]))
    && forall j, k | |funcs| <= j < k < |r| :: FirstAt(names, r[j]) < FirstAt(names, r[k])
  }

  /** Adding names keeps the numbers already given and gives the new ones in the order of first occurrence. */
  lemma {:induction false} AddedAllNumbers(funcs: seq<CStr>, names: seq<string>)
    ensures Numbered(funcs, names, AddedAll(funcs, names))
  {
    if names != [] {
      var n := |names| - 1;
      AddedAllNumbers(funcs, names[..n]);
      NumberedStep(funcs, names, AddedAll(funcs, names[..n]));
    }
  }

  lemma NumberedStep(funcs: seq<CStr>, names: seq<string>, r: seq<CStr>)
    requires names != [] && Numbered(funcs, names[..|names| - 1], r) && r == AddedAll(funcs, names[..|names| - 1])
    ensures Numbered(funcs, names, AddedAll(funcs, names))
  {
    var n := |names| - 1;
    var f := CString(names[n]);
    forall k | |funcs| <= k < |r|
      ensures Occurs(names, r[k]) && FirstAt(names, r[k]) == FirstAt(names[..n], r[k]) < n
    {
      OccursLast(names, r[k]);
      FirstAtPrefix(names, r[k]);
    }
    if f !in r && !Skipped(f) {
      AddedAllMembers(funcs, names[..n], f);
      OccursLast(names, f);
      FirstAtLast(names, f);
    }
  }

  // ------------------------------------------------------------------- lines

  lemma {:induction false} SpanOfLine(f: string, rest: string, max: nat)
    requires '\n' !in f && |f| < max
    ensures Span(f + "\n" + rest, max) == |f| + 1
  {
    var text := f + "\n" + rest;
    if f != "" {
      assert text[1..] == f[1..] + "\n" + rest;
      SpanOfLine(f[1..], rest, max - 1);
    } else {
      assert text[0] == '\n';
    }
  }

  lemma {:induction false} SpanOfLong(f: string, rest: string, max: nat)
    requires '\n' !in f && |f| >= max
    ensures Span(f + rest, max) == max
  {
    if max > 0 {
      assert (f + rest)[1..] == f[1..] + rest;
      SpanOfLong(f[1..], rest, max - 1);
    }
  }

  lemma {:induction false} CStringSame(s: string)
    requires '\0' !in s
    ensures CString(s) == s
  {
    if s != "" { CStringSame(s[1..]); }
  }

  lemma {:induction false} CStringShort(s: string)
    ensures |CString(s)| <= |s|
  {
    if s != "" { CStringShort(s[1..]); }
  }

  // One line that fits, read whole.
  lemma ReadsLine(f: CStr, rest: string, str: CStr)
    requires '\n' !in f && |f| < LINE_MAX
    ensures var text := f + "\n" + rest;
            && Buffer(text, str) == f + "\n" && Stripped(f + "\n") == f && !AtEnd(text)
            && text[Span(text, LINE_MAX)..] == rest
  {
    var text := f + "\n" + rest;
    SpanOfLine(f, rest, LINE_MAX);
    assert text[..|f| + 1] == f + "\n";
    CStringSame(f + "\n");
  }

  lemma LoadsLine(f: CStr, rest: string, str: CStr, names: seq<CStr>)
    requires '\n' !in f && |f| < LINE_MAX
    ensures LoadedFrom(f + "\n" + rest, str, false, names) == LoadedFrom(rest, f, false, Added(names, f))
  {
    ReadsLine(f, rest, str);
  }

  lemma JoinLine(f: string, rest: string, line: string)
    requires line == "" + "\n" + rest
    ensures f + "\n" + rest == f + line
  {}

  // A name that fills the buffer is read without its newline, which is then read as an empty name.
  lemma LoadsFull(f: CStr, rest: string, str: CStr, names: seq<CStr>)
    requires '\n' !in f && |f| == LINE_MAX
    ensures LoadedFrom(f + "\n" + rest, str, false, names) == LoadedFrom(rest, "", false, Added(Added(names, f), ""))
  {
    var line := "" + "\n" + rest;
    JoinLine(f, rest, line);
    LoadsPiece(f, line, str, names);
    LoadsLine("", rest, f, Added(names, f));
  }

  // -------------------------------------------------------- what any file loads

  // The names read from a line: pieces of 255 characters and the rest, which may be empty if a newline ends it.
  function Pieces(line: CStr, closed: bool): seq<CStr> {
    if |line| >= LINE_MAX then [line[..LINE_MAX]] + Pieces(line[LINE_MAX..], closed)
    else if line == "" && !closed then []
    else [line]
  }

  function AllPieces(lines: seq<CStr>, tail: CStr): seq<CStr> {
    if lines == [] then Pieces(tail, false) else Pieces(lines[0], true) + AllPieces(lines[1..], tail)
  }

  // What the loader makes of these names; the last one, or else the buffer, is found again at the end of the file.
  function LoadedNames(funcs: seq<CStr>, str: CStr, names: seq<CStr>): Outcome {
    var last := if names == [] then str else names[|names| - 1];
    if last == "" then OutOfBounds else Loaded(AddedAll(funcs, names))
  }

  // The buffer holds the name that was added last, or none yet.
  ghost predicate BufferOk(funcs: seq<CStr>, str: CStr) { '\n' !in str && (str == "" || Added(funcs, str) == funcs) }

  lemma {:induction false} AddedAllJoin(funcs: seq<CStr>, a: seq<CStr>, b: seq<CStr>)
    ensures AddedAll(funcs, a + b) == AddedAll(AddedAll(funcs, a), b)
  {
    if b == [] {
      assert a + b == a;
    } else {
      var n := |b| - 1;
      assert (a + b)[..|a| + n] == a + b[..n] && (a + b)[|a| + n] == b[n];
      AddedAllJoin(funcs, a, b[..n]);
    }
  }

  lemma AddedAllOne(funcs: seq<CStr>, f: CStr)
    ensures AddedAll(funcs, [f]) == Added(funcs, f)
  {
    CStringSame(f);
    assert [f][..0] == [];
    assert AddedAll(funcs, []) == funcs;
  }

  // One more name in front.
  lemma LoadedFirst(funcs: seq<CStr>, str: CStr, f: CStr, names: seq<CStr>)
    ensures LoadedNames(funcs, str, [f] + names) == LoadedNames(Added(funcs, f), f, names)
  {
    AddedAllJoin(funcs, [f], names);
    AddedAllOne(funcs, f);
  }

  // A full buffer, whatever follows.
  lemma LoadsPiece(f: CStr, rest: string, str: CStr, funcs: seq<CStr>)
    requires '\n' !in f && |f| == LINE_MAX
    ensures LoadedFrom(f + rest, str, false, funcs) == LoadedFrom(rest, f, false, Added(funcs, f))
  {
    var text := f + rest;
    SpanOfLong(f, rest, LINE_MAX);
    assert text[..|f|] == f && text[|f|..] == rest;
    CStringSame(f);
    assert f[|f| - 1] in f;
    assert Stripped(f) == f && !AtEnd(text);
  }

  // The last line of a file that does not end in a newline.
  lemma LoadsTail(f: CStr, str: CStr, funcs: seq<CStr>)
    requires '\n' !in f && 0 < |f| < LINE_MAX
    ensures LoadedFrom(f, str, false, funcs) == Loaded(Added(funcs, f))
  {
    SpanOfTail(f, LINE_MAX);
    assert f[..|f|] == f;
    CStringSame(f);
    assert f[|f| - 1] in f;
    assert Stripped(f) == f && AtEnd(f);
    assert LoadedFrom("", f, true, Added(funcs, f)) == Loaded(Added(funcs, f));
  }

  lemma {:induction false} SpanOfTail(f: string, max: nat)
    requires '\n' !in f && |f| < max
    ensures Span(f, max) == |f|
  {
    if f != "" { SpanOfTail(f[1..], max - 1); }
  }

  lemma AtEndOfFile(str: CStr, funcs: seq<CStr>)
    requires BufferOk(funcs, str)
    ensures LoadedFrom("", str, false, funcs) == LoadedNames(funcs, str, [])
  {
    if str != "" {
      assert str[|str| - 1] in str;
      assert Stripped(str) == str && AtEnd("");
      assert LoadedFrom("", str, true, funcs) == Loaded(funcs);
    }
  }

  lemma {:induction false} LoadsOpenLine(t: CStr, str: CStr, funcs: seq<CStr>)
    requires '\n' !in t && BufferOk(funcs, str)
    ensures LoadedFrom(t, str, false, funcs) == LoadedNames(funcs, str, Pieces(t, false))
    decreases |t|
  {
    if |t| >= LINE_MAX {
      var f, rest := t[..LINE_MAX], t[LINE_MAX..];
      assert t == f + rest;
      LoadsPiece(f, rest, str, funcs);
      LoadsOpenLine(rest, f, Added(funcs, f));
      LoadedFirst(funcs, str, f, Pieces(rest, false));
    } else if t == "" {
      AtEndOfFile(str, funcs);
    } else {
      LoadsTail(t, str, funcs);
      AddedAllOne(funcs, t);
    }
  }

  // From whatever buffer and map, the rest of the file loads these names.
  ghost predicate LoadsAs(rest: string, names: seq<CStr>) {
    forall b: CStr, fs | BufferOk(fs, b) :: LoadsFrom(rest, names, b, fs)
  }

  ghost predicate LoadsFrom(rest: string, names: seq<CStr>, b: CStr, fs: seq<CStr>) {
    LoadedFrom(rest, b, false, fs) == LoadedNames(fs, b, names)
  }

  lemma LoadsLast(line: CStr, rest: string, str: CStr, funcs: seq<CStr>, names: seq<CStr>)
    requires '\n' !in line && |line| < LINE_MAX && BufferOk(funcs, str) && LoadsAs(rest, names)
    ensures LoadsFrom(line + "\n" + rest, [line] + names, str, funcs)
  {
    LoadsLine(line, rest, str, funcs);
    assert LoadsFrom(rest, names, line, Added(funcs, line));
    LoadedFirst(funcs, str, line, names);
  }

  lemma LoadsFirst(f: CStr, rest: string, str: CStr, funcs: seq<CStr>, names: seq<CStr>)
    requires '\n' !in f && |f| == LINE_MAX && LoadsFrom(rest, names, f, Added(funcs, f))
    ensures LoadsFrom(f + rest, [f] + names, str, funcs)
  {
    LoadsPiece(f, rest, str, funcs);
    LoadedFirst(funcs, str, f, names);
  }

  lemma PiecesStep(line: CStr, closed: bool, f: CStr, more: CStr, names: seq<CStr>, rest: string)
    requires |line| >= LINE_MAX && f == line[..LINE_MAX] && more == line[LINE_MAX..]
    ensures Pieces(line, closed) + names == [f] + (Pieces(more, closed) + names)
    ensures line + "\n" + rest == f + (more + "\n" + rest)
  {}

  // A line with its newline, before the rest of the file.
  lemma {:induction false} LoadsClosedLine(line: CStr, rest: string, str: CStr, funcs: seq<CStr>, names: seq<CStr>)
    requires '\n' !in line && BufferOk(funcs, str) && LoadsAs(rest, names)
    ensures LoadsFrom(line + "\n" + rest, Pieces(line, true) + names, str, funcs)
    decreases |line|
  {
    if |line| >= LINE_MAX {
      var f, more := line[..LINE_MAX], line[LINE_MAX..];
      PiecesStep(line, true, f, more, names, rest);
      LoadsClosedLine(more, rest, f, Added(funcs, f), names);
      LoadsFirst(f, more + "\n" + rest, str, funcs, Pieces(more, true) + names);
    } else {
      LoadsLast(line, rest, str, funcs, names);
    }
  }

  ghost predicate NoBreaks(lines: seq<CStr>) { forall k | 0 <= k < |lines| :: '\n' !in lines[k] }

  lemma {:induction false} LoadsLines(lines: seq<CStr>, tail: CStr, str: CStr, funcs: seq<CStr>)
    requires NoBreaks(lines) && '\n' !in tail && BufferOk(funcs, str)
    ensures LoadedFrom(CacheText(lines) + tail, str, false, funcs) == LoadedNames(funcs, str, AllPieces(lines, tail))
    decreases |lines|
  {
    if lines == [] {
      assert "" + tail == tail;
      LoadsOpenLine(tail, str, funcs);
    } else {
      var rest := CacheText(lines[1..]) + tail;
      forall b: CStr, fs | BufferOk(fs, b)
        ensures LoadsFrom(rest, AllPieces(lines[1..], tail), b, fs)
      {
        LoadsLines(lines[1..], tail, b, fs);
      }
      assert CacheText(lines) + tail == lines[0] + "\n" + rest;
      LoadsClosedLine(lines[0], rest, str, funcs, AllPieces(lines[1..], tail));
    }
  }

  /** Every text without NUL is lines and a last line without a newline. */
  lemma {:induction false} TextIsLines(text: CStr) returns (lines: seq<CStr>, tail: CStr)
    ensures text == CacheText(lines) + tail && NoBreaks(lines) && '\n' !in tail
  {
    if text == "" {
      lines, tail := [], "";
    } else {
      var c, rest := text[0], text[1..];
      lines, tail := TextIsLines(rest);
      if c == '\n' {
        lines := [""] + lines;
      } else if lines == [] {
        tail := [c] + tail;
      } else {
        lines := [[c] + lines[0]] + lines[1..];
      }
    }
  }

  /** What loadFromCache makes of any file of lines: the names are the lines, cut after every 255 characters; an empty
      name at the end, or no name, takes it out of bounds. */
  lemma LoadsAnyFile(lines: seq<CStr>, tail: CStr, funcs: seq<CStr>)
    requires NoBreaks(lines) && '\n' !in tail
    ensures var names := AllPieces(lines, tail);
      LoadedFrom(CacheText(lines) + tail, "", false, funcs) ==
        if names == [] || names[|names| - 1] == "" then OutOfBounds else Loaded(AddedAll(funcs, names))
  {
    LoadsLines(lines, tail, "", funcs);
  }

  // ---------------------------------------------------------------- round trip

  // The names of a map: all different, none skipped.
  ghost predicate Names(funcs: seq<CStr>) {
    && (forall i, j | 0 <= i < j < |funcs| :: funcs[i] != funcs[j])
    && forall i | 0 <= i < |funcs| :: !Skipped(funcs[i])
  }

  // Every name stands on a line of its own that fits the buffer, but perhaps for the newline.
  ghost predicate Lines(funcs: seq<CStr>) {
    forall i | 0 <= i < |funcs| :: '\n' !in funcs[i] && |funcs[i]| <= 255
  }

  // An empty name is among the names up to the one after i.
  ghost predicate EmptyBy(funcs: seq<CStr>, i: nat) { exists j: nat :: j < |funcs| && j <= i + 1 && funcs[j] == "" }

  /** Every name is a line of at most 255 characters; the last has at least one and at most 254; and a name of 255
      comes after an empty name or right before it. */
  ghost predicate Reloads(funcs: seq<CStr>) {
    && Lines(funcs)
    && funcs != [] && 1 <= |funcs[|funcs| - 1]| <= 254
    && forall i | 0 <= i < |funcs| && |funcs[i]| == 255 :: EmptyBy(funcs, i)
  }

  lemma TextStep(funcs: seq<CStr>, k: nat)
    requires k < |funcs|
    ensures CacheText(funcs[k..]) == funcs[k] + "\n" + CacheText(funcs[k + 1..])
  {
    assert funcs[k..][0] == funcs[k] && funcs[k..][1..] == funcs[k + 1..];
  }

  // The pass after the last line finds the last name again in the buffer.
  lemma ExtraPass(funcs: seq<CStr>, f: CStr)
    requires f != "" && '\n' !in f && f in funcs
    ensures LoadedFrom("", f, false, funcs) == Loaded(funcs)
  {
    assert f[|f| - 1] in f;
    assert Buffer("", f) == f && Stripped(f) == f && AtEnd("");
    assert LoadedFrom("", f, true, funcs) == Loaded(funcs);
  }

  // The names loaded before line k: those of the lines before it, and perhaps already an empty name on it.
  ghost predicate LoadedBy(funcs: seq<CStr>, k: nat, names: seq<CStr>) {
    k <= |funcs| && (names == funcs[..k] || (k < |funcs| && funcs[k] == "" && names == funcs[..k + 1]))
  }

  lemma NewName(funcs: seq<CStr>, k: nat)
    requires Names(funcs) && k < |funcs|
    ensures Added(funcs[..k], funcs[k]) == funcs[..k + 1] && Added(funcs[..k + 1], funcs[k]) == funcs[..k + 1]
  {
    assert funcs[k] !in funcs[..k];
    assert funcs[..k + 1] == funcs[..k] + [funcs[k]];
  }

  lemma FullLine(funcs: seq<CStr>, k: nat, names: seq<CStr>)
    requires Names(funcs) && Reloads(funcs) && k < |funcs| && |funcs[k]| == LINE_MAX && LoadedBy(funcs, k, names)
    ensures LoadedBy(funcs, k + 1, Added(Added(names, funcs[k]), "")) && k + 1 < |funcs|
  {
    NewName(funcs, k);
    assert EmptyBy(funcs, k);
    var j: nat :| j < |funcs| && j <= k + 1 && funcs[j] == "";
    if j <= k { assert funcs[..k + 1][j] == ""; } else { NewName(funcs, k + 1); }
  }

  lemma {:induction false} LoadsNames(funcs: seq<CStr>, k: nat, str: CStr, names: seq<CStr>)
    requires Names(funcs) && Reloads(funcs) && LoadedBy(funcs, k, names)
    requires k == |funcs| ==> str == funcs[k - 1]
    ensures LoadedFrom(CacheText(funcs[k..]), str, false, names) == Loaded(funcs)
    decreases |funcs| - k
  {
    if k == |funcs| {
      assert funcs[k..] == [] && funcs[..k] == funcs;
      ExtraPass(funcs, str);
    } else {
      var f, rest := funcs[k], CacheText(funcs[k + 1..]);
      TextStep(funcs, k);
      NewName(funcs, k);
      if |f| < LINE_MAX {
        LoadsLine(f, rest, str, names);
        LoadsNames(funcs, k + 1, f, Added(names, f));
      } else {
        LoadsFull(f, rest, str, names);
        FullLine(funcs, k, names);
        LoadsNames(funcs, k + 1, "", Added(Added(names, f), ""));
      }
    }
  }

  lemma {:induction false} SpanNoBreak(text: string, max: nat, i: nat)
    requires i + 1 < Span(text, max)
    ensures text[i] != '\n'
  {
    if i > 0 { SpanNoBreak(text[1..], max - 1, i - 1); }
  }

  lemma {:induction false} CStringPrefix(s: string)
    ensures CString(s) <= s
  {
    if s != "" { CStringPrefix(s[1..]); }
  }

  lemma BufferLine(text: string, str: CStr)
    requires '\n' !in str && |str| <= LINE_MAX && Buffer(text, str) != ""
    ensures '\n' !in Stripped(Buffer(text, str)) && |Stripped(Buffer(text, str))| <= LINE_MAX
  {
    var n, line := Span(text, LINE_MAX), Buffer(text, str);
    CStringPrefix(text[..n]);
    forall i | 0 <= i < |Stripped(line)|
      ensures Stripped(line)[i] != '\n'
    {
      if n > 0 && i + 1 < |line| {
        SpanNoBreak(text, LINE_MAX, i);
      } else if n == 0 {
        assert str[i] in str;
      }
    }
  }

  // Names already in the map stay in place; the others are lines.
  lemma {:induction false} LoadedKeeps(text: string, str: CStr, eof: bool, funcs: seq<CStr>)
    requires '\n' !in str && |str| <= LINE_MAX && Lines(funcs)
    ensures var r := LoadedFrom(text, str, eof, funcs); r.Loaded? ==> funcs <= r.funcs && Lines(r.funcs)
    decreases |text|, !eof
  {
    if !eof {
      var line := Buffer(text, str);
      if line != "" {
        BufferLine(text, str);
        LoadedKeeps(text[Span(text, LINE_MAX)..], Stripped(line), AtEnd(text), Added(funcs, Stripped(line)));
      }
    }
  }

  // With a last name that is empty, or full, the pass after the last line finds an empty buffer.
  lemma {:induction false} BadLast(funcs: seq<CStr>, k: nat, str: CStr, names: seq<CStr>)
    requires Lines(funcs) && k < |funcs| && !(1 <= |funcs[|funcs| - 1]| <= 254)
    ensures LoadedFrom(CacheText(funcs[k..]), str, false, names) == OutOfBounds
    decreases |funcs| - k
  {
    var f, rest := funcs[k], CacheText(funcs[k + 1..]);
    TextStep(funcs, k);
    if |f| < LINE_MAX { LoadsLine(f, rest, str, names); } else { LoadsFull(f, rest, str, names); }
    if k + 1 < |funcs| {
      if |f| < LINE_MAX {
        BadLast(funcs, k + 1, f, Added(names, f));
      } else {
        BadLast(funcs, k + 1, "", Added(Added(names, f), ""));
      }
    } else {
      assert funcs[k + 1..] == [];
    }
  }

  // The first full name, with no empty one up to the one after it, is followed by an empty name.
  lemma {:induction false} FullLeavesEmpty(funcs: seq<CStr>, k: nat, i: nat, str: CStr)
    requires Names(funcs) && Lines(funcs) && k <= i < |funcs| && |funcs[i]| == 255 && !EmptyBy(funcs, i)
    requires '\n' !in str && |str| <= LINE_MAX && forall j | 0 <= j < i :: |funcs[j]| < 255
    ensures var r := LoadedFrom(CacheText(funcs[k..]), str, false, funcs[..k]);
            r.Loaded? ==> funcs[..i + 1] + [""] <= r.funcs
    decreases |funcs| - k
  {
    var f, rest := funcs[k], CacheText(funcs[k + 1..]);
    TextStep(funcs, k);
    NewName(funcs, k);
    if k < i {
      LoadsLine(f, rest, str, funcs[..k]);
      FullLeavesEmpty(funcs, k + 1, i, f);
    } else {
      LoadsFull(f, rest, str, funcs[..k]);
      assert "" !in funcs[..k + 1];
      LoadedKeeps(rest, "", false, funcs[..k + 1] + [""]);
    }
  }

  lemma {:induction false} FirstFull(funcs: seq<CStr>, i: nat) returns (m: nat)
    requires Lines(funcs) && i < |funcs| && |funcs[i]| == 255
    ensures m <= i && |funcs[m]| == 255 && forall j | 0 <= j < m :: |funcs[j]| < 255
  {
    m := 0;
    while |funcs[m]| < 255
      invariant m <= i && forall j | 0 <= j < m :: |funcs[j]| < 255
      decreases i - m
    {
      m := m + 1;
    }
  }

  lemma FullNotReloaded(funcs: seq<CStr>, i: nat)
    requires Names(funcs) && Lines(funcs) && i < |funcs| && |funcs[i]| == 255 && !EmptyBy(funcs, i)
    ensures LoadedFrom(CacheText(funcs), "", false, []) != Loaded(funcs)
  {
    var m := FirstFull(funcs, i);
    assert funcs[0..] == funcs && funcs[..0] == [];
    FullLeavesEmpty(funcs, 0, m, "");
    NoEmptyAfter(funcs, m);
  }

  lemma NoEmptyAfter(funcs: seq<CStr>, m: nat)
    requires m < |funcs| && !EmptyBy(funcs, m)
    ensures !(funcs[..m + 1] + [""] <= funcs)
  {
    var p := funcs[..m + 1] + [""];
    assert p[m + 1] == "";
  }

  /** Loading the cache that was written gives back the same names in the same order exactly in that case; without
      an empty name, exactly when there are names and each is a line of at most 254 characters. */
  lemma CacheRoundTripIff(funcs: seq<CStr>)
    requires Names(funcs)
    ensures LoadedFrom(CacheText(funcs), "", false, []) == Loaded(funcs) <==> Reloads(funcs)
    ensures "" !in funcs ==>
              (Reloads(funcs) <==> funcs != [] && forall i | 0 <= i < |funcs| :: '\n' !in funcs[i] && |funcs[i]| <= 254)
  {
    assert funcs[0..] == funcs && funcs[..0] == [];
    if Reloads(funcs) {
      LoadsNames(funcs, 0, "", []);
    } else if !Lines(funcs) {
      LoadedKeeps(CacheText(funcs), "", false, []);
    } else if funcs == [] {
      assert LoadedFrom("", "", false, []) == OutOfBounds;
    } else if !(1 <= |funcs[|funcs| - 1]| <= 254) {
      BadLast(funcs, 0, "", []);
    } else {
      var i :| 0 <= i < |funcs| && |funcs[i]| == 255 && !EmptyBy(funcs, i);
      FullNotReloaded(funcs, i);
    }
  }

  lemma LoadsFullThen(fs: seq<CStr>, str: CStr, names: seq<CStr>)
    requires |fs| == 2 && Lines(fs) && |fs[0]| == 255 && 1 <= |fs[1]| <= 254 && !Skipped(fs[1])
    ensures LoadedFrom(CacheText(fs), str, false, names) == Loaded(Added(Added(Added(names, fs[0]), ""), fs[1]))
  {
    TextStep(fs, 0);
    TextStep(fs, 1);
    assert fs[0..] == fs && fs[2..] == [];
    var names' := Added(Added(names, fs[0]), "");
    LoadsFull(fs[0], CacheText(fs[1..]), str, names);
    LoadsLine(fs[1], "", "", names');
    ExtraPass(Added(names', fs[1]), fs[1]);
  }

  /** The case happens: a name of 255 characters comes back with an empty name after it. */
  lemma FullNameGainsEmpty(f: CStr, g: CStr)
    requires '\n' !in f && |f| == 255 && '\n' !in g && 1 <= |g| <= 254 && !Skipped(g)
    ensures LoadedFrom(CacheText([f, g]), "", false, []) == Loaded([f, "", g])
  {
    LoadsFullThen([f, g], "", []);
    AddedNew([], f);
    AddedNew([f], "");
    AddedNew([f, ""], g);
  }

  lemma AddedNew(funcs: seq<CStr>, f: CStr)
    requires f !in funcs && !Skipped(f)
    ensures Added(funcs, f) == funcs + [f]
  {}

  /** The case happens: a lone empty name takes the loader out of bounds. */
  lemma EmptyNameOutOfBounds()
    ensures LoadedFrom(CacheText([""]), "", false, []) == OutOfBounds
  {
    BadLast([""], 0, "", []);
    assert [""][0..] == [""];
  }

  // --------------------------------------------------------------------- class

  datatype CacheState = Cached | Update | NoElf | CacheError

  class Map {
    var funcs: seq<CStr>
    var funcIndices: map<CStr, nat>

    // The two fields are inverse to each other, and no skipped name is in them.
    ghost predicate Valid()
      reads this
    {
      && Names(funcs)
      && (forall i | 0 <= i < |funcs| :: funcs[i] in funcIndices && funcIndices[funcs[i]] == i)
      && (forall f | f in funcIndices :: funcIndices[f] < |funcs| && funcs[funcIndices[f]] == f)
    }

    constructor ()
      ensures Valid() && funcs == []
    {
      funcs, funcIndices := [], map[];
    }

    /** addFunction (lines 104-123) */
    method AddFunction(func: CStr)
      requires Valid()
      modifies this
      ensures Valid() && funcs == Added(old(funcs), func)
    {
      if func in funcIndices {
        return;
      }
      if Skipped(func) {
        return;
      }
      var index := |funcs|;
      funcs := funcs + [func];
      funcIndices := funcIndices[func := index];
    }

    // The loops over procedures of loadFromELF (lines 223-240) on the list of their names.
    method AddAll(names: seq<string>)
      requires Valid()
      modifies this
      ensures Valid() && funcs == AddedAll(old(funcs), names)
    {
      var i := 0;
      while i < |names|
        invariant 0 <= i <= |names| && Valid() && funcs == AddedAll(old(funcs), names[..i])
      {
        assert names[..i + 1][..i] == names[..i];
        AddFunction(CString(names[i]));
        i := i + 1;
      }
      assert names[..i] == names;
    }

    /** loadFromCache (lines 125-148) on the text of the file */
    method LoadFromCache(text: string) returns (r: Outcome)
      requires Valid()
      modifies this
      ensures Valid() && r == LoadedFrom(text, "", false, old(funcs))
      ensures r.Loaded? ==> funcs == r.funcs
    {
      var str: CStr, rest, eof := "", text, false;
      while !eof
        invariant Valid() && LoadedFrom(rest, str, eof, funcs) == LoadedFrom(text, "", false, old(funcs))
        decreases |rest|, !eof
      {
        str := Buffer(rest, str);
        if str == "" {
          return OutOfBounds;
        }
        str := Stripped(str);
        AddFunction(str);
        rest, eof := rest[Span(rest, LINE_MAX)..], AtEnd(rest);
      }
      r := Loaded(funcs);
    }

    /** updateCache (lines 196-198) */
    method UpdateCache() returns (text: CStr)
      ensures text == CacheText(funcs)
    {
      text := "";
      var i := 0;
      while i < |funcs|
        invariant 0 <= i <= |funcs| && text + CacheText(funcs[i..]) == CacheText(funcs)
      {
        TextStep(funcs, i);
        text := text + funcs[i] + "\n";
        i := i + 1;
      }
    }

    /** getFunctionID (lines 274-282) */
    method GetFunctionID(func: CStr) returns (id: nat)
      requires Valid() && |funcs| <= UINT_MAX
      ensures func in funcs ==> id < |funcs| && funcs[id] == func
      ensures id == UINT_MAX <==> func !in funcs
    {
      if func !in funcIndices {
        return UINT_MAX;
      }
      id := funcIndices[func];
    }

    /** load (lines 250-272) given the state of the cache, the names in the ELF file and the cache text */
    method Load(force: bool, state: CacheState, names: seq<string>, cache: string)
      returns (ok: bool, cache': string, r: Outcome)
      requires Valid()
      modifies this
      ensures Valid()
      ensures force || state.Update? ==>
                ok && r == Loaded(funcs) && funcs == AddedAll(old(funcs), names) && cache' == CacheText(funcs)
      ensures !force && state.Cached? ==>
                ok == r.Loaded? && r == LoadedFrom(cache, "", false, old(funcs)) && cache' == cache
      ensures !force && (state.NoElf? || state.CacheError?) ==> !ok && funcs == old(funcs) && cache' == cache
      ensures r.Loaded? ==> funcs == r.funcs
    {
      cache' := cache;
      if force || state.Update? {
        AddAll(names);
        cache' := UpdateCache();
        return true, cache', Loaded(funcs);
      }
      if state.Cached? {
        r := LoadFromCache(cache);
        return r.Loaded?, cache, r;
      }
      return false, cache, Loaded(funcs);
    }
  }

  /** Two maps with the same names give every name the same number. */
  lemma SameIds(a: Map, b: Map)
    requires a.Valid() && b.Valid() && a.funcs == b.funcs
    ensures a.funcIndices == b.funcIndices
  {
    forall f | f in a.funcIndices
      ensures f in b.funcIndices && b.funcIndices[f] == a.funcIndices[f]
    {
      assert a.funcs[a.funcIndices[f]] == f;
    }
    forall f | f in b.funcIndices
      ensures f in a.funcIndices
    {
      assert b.funcs[b.funcIndices[f]] == f;
    }
  }

  /** A map built from the ELF file numbers its names by first occurrence and leaves out exactly the skipped ones; it
      and one loaded from the cache it wrote agree on every number exactly when the names reload. */
  method BuildThenReload(names: seq<string>) returns (built: Map, reloaded: Map, r: Outcome)
    ensures built.Valid() && reloaded.Valid()
    ensures Numbered([], names, built.funcs) && forall f :: f in built.funcs <==> !Skipped(f) && Occurs(names, f)
    ensures r.Loaded? && reloaded.funcIndices == built.funcIndices <==> Reloads(built.funcs)
  {
    built := new Map();
    var ok, cache, first := built.Load(true, Update, names, "");
    AddedAllNumbers([], names);
    forall f: CStr
      ensures f in built.funcs <==> !Skipped(f) && Occurs(names, f)
    {
      AddedAllMembers([], names, f);
    }
    reloaded := new Map();
    ok, cache, r := reloaded.Load(false, Cached, names, cache);
    CacheRoundTripIff(built.funcs);
    if r == Loaded(built.funcs) {
      SameIds(built, reloaded);
    } else if r.Loaded? && reloaded.funcIndices == built.funcIndices {
      SameNames(built, reloaded);
    }
  }

  lemma NotLonger(a: Map, b: Map)
    requires a.Valid() && b.Valid() && a.funcIndices == b.funcIndices
    ensures |a.funcs| <= |b.funcs|
  {
    if a.funcs != [] {
      var last := |a.funcs| - 1;
      assert a.funcIndices[a.funcs[last]] == last;
    }
  }

  lemma SameNames(a: Map, b: Map)
    requires a.Valid() && b.Valid() && a.funcIndices == b.funcIndices
    ensures a.funcs == b.funcs
  {
    NotLonger(a, b);
    NotLonger(b, a);
    forall i | 0 <= i < |a.funcs|
      ensures b.funcs[i] == a.funcs[i]
    {
      assert a.funcIndices[a.funcs[i]] == i;
    }
  }
}
