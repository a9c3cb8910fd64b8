/** `resolved` of tools/merge_tests_append.py: a diff3 merge whose empty-base conflicts are joined, each side whole. */
module MergeDriver {
  import opened Lists

  datatype Line = Line(text: string)

  /** An item a block of lines defines: its keyword and its name. */
  datatype Item = Item(kind: string, name: string)

  /** What a merge is made of: a line of text, or a conflict with its four marker lines. */
  datatype Chunk =
    | Text(line: Line)
    | Conflict(left: Line, ours: seq<Line>, bar: Line, base: seq<Line>, split: Line, theirs: seq<Line>, right: Line)

  datatype Merge = Refused | Joined(lines: seq<Line>)

  const NEWLINE := Line("\n")

  // Markers

  predicate StartsWith(line: Line, marker: string) {
    marker <= line.text
  }

  predicate Opens(line: Line) {
    StartsWith(line, "<<<<<<< ")
  }

  predicate Bars(line: Line) {
    StartsWith(line, "||||||| ")
  }

  predicate Splits(line: Line) {
    StartsWith(line, "=======")
  }

  predicate Closes(line: Line) {
    StartsWith(line, ">>>>>>> ")
  }

  /** The marker and anything after it, or nothing. */
  lemma StartsWithIff(line: Line, marker: string)
    ensures StartsWith(line, marker) <==> exists rest :: line.text == marker + rest
  {
    if StartsWith(line, marker) { assert line.text == marker + line.text[|marker|..]; }
  }

  /** Up to its marker no line of a part looks like the marker. */
  ghost predicate Plain(s: seq<Line>, marks: Line -> bool) {
    forall i :: 0 <= i < |s| ==> !marks(s[i])
  }

  ghost predicate Marked(c: Chunk) {
    match c
    case Text(line) => !Opens(line)
    case Conflict(left, ours, bar, base, split, theirs, right) =>
      && Opens(left) && Bars(bar) && Splits(split) && Closes(right)
      && Plain(ours, Bars) && Plain(base, Splits) && Plain(theirs, Closes)
  }

  ghost predicate AllMarked(cs: seq<Chunk>) {
    forall c :: c in cs ==> Marked(c)
  }

  // The diff3 form

  /** A part, the marker that ends it, and the rest. */
  function Part(part: seq<Line>, marker: Line, rest: seq<Line>): seq<Line> {
    part + ([marker] + rest)
  }

  /** A chunk, before the rest of the file. */
  function Render(c: Chunk, rest: seq<Line>): seq<Line> {
    match c
    case Text(line) => [line] + rest
    case Conflict(left, ours, bar, base, split, theirs, right) =>
      [left] + Part(ours, bar, Part(base, split, Part(theirs, right, rest)))
  }

  function RenderBefore(cs: seq<Chunk>, rest: seq<Line>): seq<Line> {
    if cs == [] then rest else Render(cs[0], RenderBefore(cs[1..], rest))
  }

  function RenderAll(cs: seq<Chunk>): seq<Line> {
    RenderBefore(cs, [])
  }

  // What joining comes to

  /** Nothing in the base, and no item that both sides define. */
  predicate Joinable(c: Chunk, defined: seq<Line> -> set<Item>) {
    c.Text? || (c.base == [] && defined(c.ours) * defined(c.theirs) == {})
  }

  ghost predicate AllJoinable(cs: seq<Chunk>, defined: seq<Line> -> set<Item>) {
    forall c :: c in cs ==> Joinable(c, defined)
  }

  predicate EndsLine(line: Line) {
    line.text != [] && line.text[|line.text| - 1] == '\n'
  }

  /** All of ours, a newline where its last line has none, all of theirs. */
  function Both(ours: seq<Line>, theirs: seq<Line>): seq<Line> {
    ours + (if ours != [] && !EndsLine(ours[|ours| - 1]) then [NEWLINE] else []) + theirs
  }

  function Join(c: Chunk): seq<Line> {
    if c.Text? then [c.line] else Both(c.ours, c.theirs)
  }

  function JoinAll(cs: seq<Chunk>): seq<Line> {
    if cs == [] then [] else JoinAll(cs[..|cs| - 1]) + Join(cs[|cs| - 1])
  }

  /** There is a last line, and no newline ends it. */
  ghost predicate Unended(s: seq<Line>) {
    s != [] && !exists before: string :: s[|s| - 1].text == before + "\n"
  }

  lemma EndsLineIs(line: Line)
    ensures EndsLine(line) <==> exists before: string :: line.text == before + "\n"
  {
    if EndsLine(line) {
      assert line.text == line.text[..|line.text| - 1] + "\n";
    }
  }

  /**
   * A joined conflict starts with all of ours and ends with all of theirs; between them is one line, a newline, exactly
   * when ours has a last line that no newline ends, and otherwise nothing.
   */
  lemma ConflictJoined(c: Chunk)
    requires c.Conflict?
    ensures var between := if Unended(c.ours) then [Line("\n")] else [];
            && |Join(c)| == |c.ours| + |between| + |c.theirs|
            && Join(c)[..|c.ours|] == c.ours
            && Join(c)[|c.ours|..|c.ours| + |between|] == between
            && Join(c)[|c.ours| + |between|..] == c.theirs
  {
    if c.ours != [] { EndsLineIs(c.ours[|c.ours| - 1]); }
  }

  // One side's whole file

  function Ours(cs: seq<Chunk>): seq<Line> {
    if cs == [] then [] else
      var c := cs[|cs| - 1];
      Ours(cs[..|cs| - 1]) + if c.Text? then [c.line] else c.ours
  }

  function Theirs(cs: seq<Chunk>): seq<Line> {
    if cs == [] then [] else
      var c := cs[|cs| - 1];
      Theirs(cs[..|cs| - 1]) + if c.Text? then [c.line] else c.theirs
  }

  lemma BothHolds(ours: seq<Line>, theirs: seq<Line>)
    ensures Subsequence(ours, Both(ours, theirs)) && Subsequence(theirs, Both(ours, theirs))
  {
    var ours' := Both(ours, theirs)[..|Both(ours, theirs)| - |theirs|];
    CutOut(Both(ours, theirs), |ours|, |Both(ours, theirs)|);
    assert Both(ours, theirs)[..|ours|] + Both(ours, theirs)[|Both(ours, theirs)|..] == ours;
    CutOut(Both(ours, theirs), 0, |ours'|);
    assert Both(ours, theirs)[..0] + Both(ours, theirs)[|ours'|..] == theirs;
  }

  /** Either side's whole file is in the joined one, in order. */
  lemma {:induction false} SidesKept(cs: seq<Chunk>)
    ensures Subsequence(Ours(cs), JoinAll(cs)) && Subsequence(Theirs(cs), JoinAll(cs))
    decreases |cs|
  {
    if cs == [] {
    } else {
      var front, c := cs[..|cs| - 1], cs[|cs| - 1];
      SidesKept(front);
      if c.Text? {
        SubsequenceWhole([c.line]);
        SubsequenceConcat(Ours(front), JoinAll(front), [c.line], [c.line]);
        SubsequenceConcat(Theirs(front), JoinAll(front), [c.line], [c.line]);
      } else {
        BothHolds(c.ours, c.theirs);
        SubsequenceConcat(Ours(front), JoinAll(front), c.ours, Join(c));
        SubsequenceConcat(Theirs(front), JoinAll(front), c.theirs, Join(c));
      }
    }
  }

  // The form is read in one way

  lemma PartPrefix(s: seq<Line>, m: Line, u: seq<Line>, t: seq<Line>, n: Line, v: seq<Line>, marks: Line -> bool)
    requires Plain(s, marks) && Plain(t, marks) && marks(m) && marks(n) && Part(s, m, u) == Part(t, n, v)
    ensures s == t && m == n && u == v
  {
    var w := Part(s, m, u);
    assert w[|s|] == m && w[|t|] == n;
    assert forall i :: 0 <= i < |s| ==> w[i] == s[i];
    assert forall i :: 0 <= i < |t| ==> w[i] == t[i];
    assert |s| == |t|;
    assert s == w[..|s|] && t == w[..|t|] && u == w[|s| + 1..] && v == w[|t| + 1..];
  }

  lemma PartMissing(s: seq<Line>, t: seq<Line>, n: Line, v: seq<Line>, marks: Line -> bool)
    requires Plain(s, marks) && marks(n)
    ensures s != Part(t, n, v)
  {
    assert Part(t, n, v)[|t|] == n;
  }

  lemma ConsSame(a: Line, s: seq<Line>, b: Line, t: seq<Line>)
    requires [a] + s == [b] + t
    ensures a == b && s == t
  {
    assert ([a] + s)[0] == a && ([b] + t)[0] == b;
    assert ([a] + s)[1..] == s && ([b] + t)[1..] == t;
  }

  lemma ChunkPrefix(c: Chunk, x: seq<Line>, d: Chunk, y: seq<Line>)
    requires Marked(c) && Marked(d) && Render(c, x) == Render(d, y)
    ensures c == d && x == y
  {
    hide Part, Plain, StartsWith;
    if c.Text? && d.Text? {
      ConsSame(c.line, x, d.line, y);
    } else if c.Text? {
      ConsSame(c.line, x, d.left, Part(d.ours, d.bar, Part(d.base, d.split, Part(d.theirs, d.right, y))));
    } else if d.Text? {
      ConsSame(c.left, Part(c.ours, c.bar, Part(c.base, c.split, Part(c.theirs, c.right, x))), d.line, y);
    } else {
      var c3, d3 := Part(c.theirs, c.right, x), Part(d.theirs, d.right, y);
      var c2, d2 := Part(c.base, c.split, c3), Part(d.base, d.split, d3);
      ConsSame(c.left, Part(c.ours, c.bar, c2), d.left, Part(d.ours, d.bar, d2));
      PartPrefix(c.ours, c.bar, c2, d.ours, d.bar, d2, Bars);
      PartPrefix(c.base, c.split, c3, d.base, d.split, d3, Splits);
      PartPrefix(c.theirs, c.right, x, d.theirs, d.right, y, Closes);
    }
  }

  /** A file that starts with some chunks has those chunks first, however it goes on. */
  lemma {:induction false} ChunksPrefix(a: seq<Chunk>, rest: seq<Line>, b: seq<Chunk>)
    requires AllMarked(a) && AllMarked(b) && RenderBefore(a, rest) == RenderAll(b)
    ensures a <= b && rest == RenderAll(b[|a|..])
    decreases |a|
  {
    hide Render, Marked;
    if a == [] {
      assert b[0..] == b;
    } else {
      RenderSome(a[0], RenderBefore(a[1..], rest));
      assert b != [];
      ChunkPrefix(a[0], RenderBefore(a[1..], rest), b[0], RenderAll(b[1..]));
      ChunksPrefix(a[1..], rest, b[1..]);
      assert b[1..][|a[1..]|..] == b[|a|..];
      assert a == [a[0]] + a[1..] && b == [b[0]] + b[1..];
    }
  }

  lemma RenderSome(c: Chunk, rest: seq<Line>)
    ensures Render(c, rest) != []
  {
  }

  lemma RenderNothing(cs: seq<Chunk>)
    ensures RenderAll(cs) == [] ==> cs == []
  {
    if cs != [] { RenderSome(cs[0], RenderAll(cs[1..])); }
  }

  /** The chunks of a file. */
  ghost predicate Reads(lines: seq<Line>, cs: seq<Chunk>) {
    AllMarked(cs) && lines == RenderAll(cs)
  }

  lemma ReadOnce(lines: seq<Line>, a: seq<Chunk>, b: seq<Chunk>)
    requires Reads(lines, a) && Reads(lines, b)
    ensures a == b
  {
    ChunksPrefix(a, [], b);
    RenderNothing(b[|a|..]);
    assert b == a + b[|a|..];
  }

  // The state machine

  datatype State = InText | InOurs | InBase | InTheirs

  /** A conflict that has begun and not ended. */
  datatype Begun =
    | Nothing
    | WithOurs(left: Line, ours: seq<Line>)
    | WithBase(left: Line, ours: seq<Line>, bar: Line, base: seq<Line>)
    | WithTheirs(left: Line, ours: seq<Line>, bar: Line, base: seq<Line>, split: Line, theirs: seq<Line>)

  ghost function RenderBegun(p: Begun): seq<Line> {
    match p
    case Nothing => []
    case WithOurs(left, ours) => [left] + ours
    case WithBase(left, ours, bar, base) => [left] + Part(ours, bar, base)
    case WithTheirs(left, ours, bar, base, split, theirs) => [left] + Part(ours, bar, Part(base, split, theirs))
  }

  ghost predicate BegunMarked(p: Begun) {
    match p
    case Nothing => true
    case WithOurs(left, ours) => Opens(left) && Plain(ours, Bars)
    case WithBase(left, ours, bar, base) => Opens(left) && Plain(ours, Bars) && Bars(bar) && Plain(base, Splits)
    case WithTheirs(left, ours, bar, base, split, theirs) =>
      Opens(left) && Plain(ours, Bars) && Bars(bar) && Plain(base, Splits) && Splits(split) && Plain(theirs, Closes)
  }

  ghost predicate Tracks(state: State, ours: seq<Line>, base: seq<Line>, theirs: seq<Line>, p: Begun) {
    match p
    case Nothing => state == InText
    case WithOurs(_, o) => state == InOurs && ours == o && base == [] && theirs == []
    case WithBase(_, o, _, b) => state == InBase && ours == o && base == b && theirs == []
    case WithTheirs(_, o, _, b, _, t) => state == InTheirs && ours == o && base == b && theirs == t
  }

  /** A file whose last conflict has begun and not ended is no list of chunks. */
  lemma BegunIsNoFile(p: Begun, cs: seq<Chunk>)
    requires BegunMarked(p) && AllMarked(cs) && RenderBegun(p) == RenderAll(cs)
    ensures p.Nothing?
  {
    hide Part, Plain, StartsWith;
    if !p.Nothing? {
      var after := if p.WithOurs? then p.ours else if p.WithBase? then Part(p.ours, p.bar, p.base)
                   else Part(p.ours, p.bar, Part(p.base, p.split, p.theirs));
      assert RenderBegun(p) == [p.left] + after;
      assert cs != [];
      var c, rest := cs[0], RenderAll(cs[1..]);
      assert Marked(c);
      if c.Text? {
        ConsSame(p.left, after, c.line, rest);
      } else {
        var c3 := Part(c.theirs, c.right, rest);
        var c2 := Part(c.base, c.split, c3);
        ConsSame(p.left, after, c.left, Part(c.ours, c.bar, c2));
        match p
        case WithOurs(_, ours) => PartMissing(ours, c.ours, c.bar, c2, Bars);
        case WithBase(_, ours, bar, base) =>
          PartPrefix(ours, bar, base, c.ours, c.bar, c2, Bars);
          PartMissing(base, c.base, c.split, c3, Splits);
        case WithTheirs(_, ours, bar, base, split, theirs) =>
          PartPrefix(ours, bar, Part(base, split, theirs), c.ours, c.bar, c2, Bars);
          PartPrefix(base, split, theirs, c.base, c.split, c3, Splits);
          PartMissing(theirs, c.theirs, c.right, rest, Closes);
      }
    }
  }

  lemma {:induction false} RenderLast(cs: seq<Chunk>, c: Chunk, rest: seq<Line>)
    ensures RenderBefore(cs + [c], rest) == RenderBefore(cs, Render(c, rest))
    decreases |cs|
  {
    hide Render;
    if cs == [] {
      assert cs + [c] == [c] && [c][1..] == [];
    } else {
      RenderLast(cs[1..], c, rest);
      assert (cs + [c])[1..] == cs[1..] + [c];
    }
  }

  lemma RenderLonger(c: Chunk, rest: seq<Line>, more: seq<Line>)
    ensures Render(c, rest) + more == Render(c, rest + more)
  {
  }

  lemma {:induction false} RenderMore(cs: seq<Chunk>, rest: seq<Line>, more: seq<Line>)
    ensures RenderBefore(cs, rest) + more == RenderBefore(cs, rest + more)
    decreases |cs|
  {
    hide Render;
    if cs == [] {
    } else {
      RenderMore(cs[1..], rest, more);
      RenderLonger(cs[0], RenderBefore(cs[1..], rest), more);
    }
  }

  /** What the loop has read: whole chunks, all of them joined, and perhaps the beginning of a conflict. */
  ghost predicate Read(read: seq<Line>, cs: seq<Chunk>, p: Begun, defined: seq<Line> -> set<Item>) {
    && AllMarked(cs) && AllJoinable(cs, defined) && BegunMarked(p)
    && read == RenderBefore(cs, RenderBegun(p))
  }

  lemma ReadInside(read: seq<Line>, line: Line, cs: seq<Chunk>, p: Begun, p': Begun, defined: seq<Line> -> set<Item>)
    requires Read(read, cs, p, defined) && BegunMarked(p') && RenderBegun(p') == RenderBegun(p) + [line]
    ensures Read(read + [line], cs, p', defined)
  {
    RenderMore(cs, RenderBegun(p), [line]);
  }

  lemma ReadChunk(read: seq<Line>, line: Line, cs: seq<Chunk>, p: Begun, c: Chunk, defined: seq<Line> -> set<Item>)
    requires Read(read, cs, p, defined) && Marked(c) && Render(c, []) == RenderBegun(p) + [line]
    ensures AllMarked(cs + [c]) && read + [line] == RenderAll(cs + [c])
    ensures Joinable(c, defined) ==> Read(read + [line], cs + [c], Nothing, defined)
  {
    RenderMore(cs, RenderBegun(p), [line]);
    RenderLast(cs, c, []);
  }

  ghost predicate JoinsTo(lines: seq<Line>, defined: seq<Line> -> set<Item>, cs: seq<Chunk>, out: seq<Line>) {
    Reads(lines, cs) && AllJoinable(cs, defined) && out == JoinAll(cs)
  }

  lemma LastIn(cs: seq<Chunk>, c: Chunk, all: seq<Chunk>)
    requires cs + [c] <= all
    ensures c in all
  {
    assert all[|cs|] == (cs + [c])[|cs|];
  }

  /** A file that starts with a conflict that cannot be joined is refused whatever follows. */
  lemma OneRefuses(lines: seq<Line>, k: nat, cs: seq<Chunk>, c: Chunk, defined: seq<Line> -> set<Item>)
    requires k <= |lines| && AllMarked(cs + [c]) && lines[..k] == RenderAll(cs + [c]) && !Joinable(c, defined)
    ensures !exists all, out :: JoinsTo(lines, defined, all, out)
  {
    forall all, out
      ensures !JoinsTo(lines, defined, all, out)
    {
      if JoinsTo(lines, defined, all, out) {
        RenderMore(cs + [c], [], lines[k..]);
        assert lines == lines[..k] + lines[k..] && [] + lines[k..] == lines[k..];
        ChunksPrefix(cs + [c], lines[k..], all);
        LastIn(cs, c, all);
      }
    }
  }

  lemma BegunRefuses(lines: seq<Line>, cs: seq<Chunk>, p: Begun, defined: seq<Line> -> set<Item>)
    requires Read(lines, cs, p, defined) && !p.Nothing?
    ensures !exists all, out :: JoinsTo(lines, defined, all, out)
  {
    forall all, out
      ensures !JoinsTo(lines, defined, all, out)
    {
      if JoinsTo(lines, defined, all, out) {
        ChunksPrefix(cs, RenderBegun(p), all);
        BegunIsNoFile(p, all[|cs|..]);
      }
    }
  }

  lemma ReadNothing(lines: seq<Line>, defined: seq<Line> -> set<Item>)
    ensures Read(lines[..0], [], Nothing, defined)
  {
  }

  lemma ReadWhole(lines: seq<Line>, cs: seq<Chunk>, defined: seq<Line> -> set<Item>)
    requires Read(lines, cs, Nothing, defined)
    ensures JoinsTo(lines, defined, cs, JoinAll(cs))
  {
  }

  /** The chunk that `line` completes. */
  ghost function Completed(p: Begun, line: Line): Chunk {
    if p.WithTheirs? then Conflict(p.left, p.ours, p.bar, p.base, p.split, p.theirs, line) else Text(line)
  }

  ghost predicate Completes(p: Begun, line: Line) {
    (p.Nothing? && !Opens(line)) || (p.WithTheirs? && Closes(line))
  }

  /** The conflict begun, one line on. */
  ghost function After(p: Begun, line: Line): Begun {
    match p
    case Nothing => WithOurs(line, [])
    case WithOurs(left, ours) =>
      if Bars(line) then WithBase(left, ours, line, []) else WithOurs(left, ours + [line])
    case WithBase(left, ours, bar, base) =>
      if Splits(line) then WithTheirs(left, ours, bar, base, line, []) else WithBase(left, ours, bar, base + [line])
    case WithTheirs(left, ours, bar, base, split, theirs) =>
      WithTheirs(left, ours, bar, base, split, theirs + [line])
  }

  lemma PartMore(part: seq<Line>, marker: Line, rest: seq<Line>, more: seq<Line>)
    ensures Part(part, marker, rest) + more == Part(part, marker, rest + more)
  {
  }

  lemma PartNothing(part: seq<Line>, marker: Line)
    ensures Part(part, marker, []) == part + [marker]
  {
  }

  lemma AfterMarked(p: Begun, line: Line)
    requires BegunMarked(p) && !Completes(p, line)
    ensures BegunMarked(After(p, line)) && RenderBegun(After(p, line)) == RenderBegun(p) + [line]
  {
    hide StartsWith, Part;
    PartNothing([], line);
    match p
    case Nothing =>
    case WithOurs(left, ours) =>
      PartNothing(ours, line);
    case WithBase(left, ours, bar, base) =>
      PartNothing(base, line);
      PartMore(ours, bar, base, [line]);
    case WithTheirs(left, ours, bar, base, split, theirs) =>
      PartMore(base, split, theirs, [line]);
      PartMore(ours, bar, Part(base, split, theirs), [line]);
  }

  lemma CompletedMarked(p: Begun, line: Line)
    requires BegunMarked(p) && Completes(p, line)
    ensures Marked(Completed(p, line)) && Render(Completed(p, line), []) == RenderBegun(p) + [line]
  {
  }

  /** One more line either completes a chunk or carries a conflict on. */
  lemma Extended(read: seq<Line>, line: Line, cs: seq<Chunk>, p: Begun, defined: seq<Line> -> set<Item>)
    requires Read(read, cs, p, defined)
    ensures !Completes(p, line) ==> Read(read + [line], cs, After(p, line), defined)
    ensures Completes(p, line) ==>
      AllMarked(cs + [Completed(p, line)]) && read + [line] == RenderAll(cs + [Completed(p, line)])
    ensures Completes(p, line) && Joinable(Completed(p, line), defined) ==>
      Read(read + [line], cs + [Completed(p, line)], Nothing, defined)
  {
    if Completes(p, line) {
      CompletedMarked(p, line);
      ReadChunk(read, line, cs, p, Completed(p, line), defined);
    } else {
      AfterMarked(p, line);
      ReadInside(read, line, cs, p, After(p, line), defined);
    }
  }

  /**
   * The merge driver reads every file: the answer is the joined chunks when the file is chunks that can all be
   * joined, and a refusal exactly when it is not.
   */
  method Resolved(lines: seq<Line>, defined: seq<Line> -> set<Item>) returns (r: Merge)
    ensures r.Joined? ==> exists cs :: JoinsTo(lines, defined, cs, r.lines)
    ensures r.Refused? ==> !exists cs, out :: JoinsTo(lines, defined, cs, out)
  {
    hide Plain, StartsWith, Opens, Bars, Splits, Closes, Both, RenderBefore, AllMarked, AllJoinable, Part, JoinsTo,
      Read;
    var out: seq<Line> := [];
    var state, ours: seq<Line>, base: seq<Line>, theirs: seq<Line> := InText, [], [], [];
    ghost var cs: seq<Chunk> := [];
    ghost var p := Nothing;
    ReadNothing(lines, defined);
    for k := 0 to |lines|
      invariant Read(lines[..k], cs, p, defined) && Tracks(state, ours, base, theirs, p)
      invariant out == JoinAll(cs)
    {
      var line := lines[k];
      assert lines[..k + 1] == lines[..k] + [line];
      ghost var p' := After(p, line);
      Extended(lines[..k], line, cs, p, defined);
      if state == InText && Opens(line) {
        state, ours, base, theirs := InOurs, [], [], [];
        p := p';
      } else if state == InOurs && Bars(line) {
        state := InBase;
        p := p';
      } else if state == InBase && Splits(line) {
        state := InTheirs;
        p := p';
      } else if state == InTheirs && Closes(line) {
        ghost var c := Conflict(p.left, ours, p.bar, base, p.split, theirs, line);
        if base != [] || defined(ours) * defined(theirs) != {} {
          OneRefuses(lines, k + 1, cs, c, defined);
          return Refused;
        }
        out := out + Both(ours, theirs);
        state := InText;
        assert (cs + [c])[..|cs|] == cs;
        cs, p := cs + [c], Nothing;
      } else if state == InOurs {
        ours := ours + [line];
        p := p';
      } else if state == InBase {
        base := base + [line];
        p := p';
      } else if state == InTheirs {
        theirs := theirs + [line];
        p := p';
      } else {
        out := out + [line];
        assert (cs + [Text(line)])[..|cs|] == cs;
        cs := cs + [Text(line)];
      }
    }
    assert lines[..|lines|] == lines;
    if state != InText {
      BegunRefuses(lines, cs, p, defined);
      return Refused;
    }
    ReadWhole(lines, cs, defined);
    return Joined(out);
  }

  // A file

  const MERGED: seq<Line> := [
    Line("use x;\n"),
    Line("<<<<<<< a.rs\n"),
    Line("fn a() {}"),
    Line("||||||| b.rs\n"),
    Line("=======\n"),
    Line("fn b() {}\n"),
    Line(">>>>>>> c.rs\n")]

  lemma TwoChunks(first: Chunk, second: Chunk)
    ensures RenderAll([first, second]) == Render(first, Render(second, []))
    ensures JoinAll([first, second]) == Join(first) + Join(second)
  {
    hide Render, Join;
    var cs := [first, second];
    assert cs[1..] == [second] && [second][1..] == [] && cs[..1] == [first] && [first][..0] == [];
    assert RenderBefore([second], []) == Render(second, []);
    assert JoinAll([first]) == Join(first);
  }

  /** A line of text, and a conflict of one line against one line. */
  lemma ShortFile(a: Line, left: Line, ours: Line, bar: Line, split: Line, theirs: Line, right: Line)
    ensures var cs := [Text(a), Conflict(left, [ours], bar, [], split, [theirs], right)];
            && RenderAll(cs) == [a, left, ours, bar, split, theirs, right]
            && JoinAll(cs) == [a] + Both([ours], [theirs])
  {
    hide RenderBefore, JoinAll, Both;
    TwoChunks(Text(a), Conflict(left, [ours], bar, [], split, [theirs], right));
    assert Part([], split, Part([theirs], right, [])) == [split, theirs, right];
    assert Part([ours], bar, [split, theirs, right]) == [ours, bar, split, theirs, right];
  }

  /** Both sides inserted a function at one place; the first one's last line has no newline. */
  lemma InsertionsJoined(defined: seq<Line> -> set<Item>)
    requires defined([Line("fn a() {}")]) * defined([Line("fn b() {}\n")]) == {}
    ensures exists cs ::
      JoinsTo(MERGED, defined, cs, [Line("use x;\n"), Line("fn a() {}"), Line("\n"), Line("fn b() {}\n")])
  {
    var conflict := Conflict(MERGED[1], [MERGED[2]], MERGED[3], [], MERGED[4], [MERGED[5]], MERGED[6]);
    var cs := [Text(MERGED[0]), conflict];
    MarkersOf();
    assert Both([MERGED[2]], [MERGED[5]]) == [MERGED[2], NEWLINE, MERGED[5]];
    hide Opens, Bars, Splits, Closes, StartsWith, RenderBefore, JoinAll, Both;
    ShortFile(MERGED[0], MERGED[1], MERGED[2], MERGED[3], MERGED[4], MERGED[5], MERGED[6]);
    assert Plain([MERGED[2]], Bars) && Plain([], Splits) && Plain([MERGED[5]], Closes);
    assert Marked(cs[0]) && Marked(cs[1]);
    var out := [Line("use x;\n"), Line("fn a() {}"), Line("\n"), Line("fn b() {}\n")];
    assert [MERGED[0]] + [MERGED[2], NEWLINE, MERGED[5]] == out;
    assert JoinsTo(MERGED, defined, cs, out);
  }

  lemma MarkersOf()
    ensures !Opens(MERGED[0]) && Opens(MERGED[1]) && Bars(MERGED[3]) && Splits(MERGED[4]) && Closes(MERGED[6])
    ensures !Bars(MERGED[2]) && !Closes(MERGED[5])
  {
    assert MERGED[0].text[0] == 'u' && MERGED[2].text[0] == 'f' && MERGED[5].text[0] == 'f';
    assert MERGED[1].text[..8] == "<<<<<<< " && MERGED[3].text[..8] == "||||||| ";
    assert MERGED[4].text[..7] == "=======" && MERGED[6].text[..8] == ">>>>>>> ";
  }
}
