/**
 * LIDATA blocks as the TIS OMF Specification 1.1 defines them, and what `iterated` and `expanded` of tools/sizes.py
 * make of them: the length of the expansion, without the expansion.
 */
module IteratedData {
  import opened Lists
  import opened Omf

  /** A repeat count over content bytes, or over nested blocks. */
  datatype Tree = Leaf(repeat: nat, content: seq<Byte>) | Node(repeat: nat, blocks: Forest)

  /** A block, and more blocks. */
  datatype Forest = One(tree: Tree) | More(tree: Tree, rest: Forest)

  function Count(f: Forest): nat {
    if f.One? then 1 else 1 + Count(f.rest)
  }

  // What a block stands for

  function Times(n: nat, s: seq<Byte>): (r: seq<Byte>)
    ensures |r| == n * |s|
  {
    if n == 0 then [] else s + Times(n - 1, s)
  }

  function Expansion(t: Tree): seq<Byte> {
    match t
    case Leaf(repeat, content) => Times(repeat, content)
    case Node(repeat, blocks) => Times(repeat, ExpansionOf(blocks))
  }

  function ExpansionOf(f: Forest): seq<Byte> {
    if f.One? then Expansion(f.tree) else Expansion(f.tree) + ExpansionOf(f.rest)
  }

  // How a block is written

  function Limit(n: nat): (l: nat)
    ensures l > 0
  {
    if n == 0 then 1 else 256 * Limit(n - 1)
  }

  /** The `n` low bytes of `v`, lowest first. */
  function Digits(v: nat, n: nat): (s: seq<Byte>)
    ensures |s| == n
  {
    if n == 0 then [] else [v % 256] + Digits(v / 256, n - 1)
  }

  /** The counts fit their fields. */
  ghost predicate Fits(t: Tree, wide: bool) {
    && t.repeat < Limit(Width(wide))
    && match t
       case Leaf(_, content) => |content| < 256
       case Node(_, blocks) => Count(blocks) < Limit(2) && AllFit(blocks, wide)
  }

  ghost predicate AllFit(f: Forest, wide: bool) {
    Fits(f.tree, wide) && (f.More? ==> AllFit(f.rest, wide))
  }

  function Written(t: Tree, wide: bool): seq<Byte> {
    match t
    case Leaf(repeat, content) => Digits(repeat, Width(wide)) + Digits(0, 2) + Digits(|content|, 1) + content
    case Node(repeat, blocks) => Digits(repeat, Width(wide)) + Digits(Count(blocks), 2) + WrittenAll(blocks, wide)
  }

  function WrittenAll(f: Forest, wide: bool): seq<Byte> {
    if f.One? then Written(f.tree, wide) else Written(f.tree, wide) + WrittenAll(f.rest, wide)
  }

  /** The counts before a leaf's length or a node's blocks take four bytes, six in the wide form. */
  lemma WrittenSize(t: Tree, wide: bool)
    ensures |Written(t, wide)| == (if wide then 6 else 4)
      + match t case Leaf(_, content) => 1 + |content| case Node(_, blocks) => |WrittenAll(blocks, wide)|
  {
  }

  // Fields

  lemma {:induction false} LittleOfDigits(v: nat, n: nat)
    requires v < Limit(n)
    ensures Little(Digits(v, n)) == v
  {
    if n == 0 {
    } else {
      LittleOfDigits(v / 256, n - 1);
      assert Digits(v, n)[1..] == Digits(v / 256, n - 1);
    }
  }

  lemma {:induction false} DigitsOfLittle(s: seq<Byte>)
    ensures Little(s) < Limit(|s|) && Digits(Little(s), |s|) == s
    decreases |s|
  {
    if s == [] {
    } else {
      DigitsOfLittle(s[1..]);
      assert s == [s[0]] + s[1..];
    }
  }

  /** `s` is what `body` holds at `at`. */
  ghost predicate At(body: seq<Byte>, at: nat, s: seq<Byte>) {
    at + |s| <= |body| && body[at..at + |s|] == s
  }

  lemma AtParts(body: seq<Byte>, at: nat, s: seq<Byte>, t: seq<Byte>)
    ensures At(body, at, s + t) <==> At(body, at, s) && At(body, at + |s|, t)
  {
    if at + |s| + |t| <= |body| {
      var w := body[at..at + |s| + |t|];
      assert body[at..at + |s|] == w[..|s|] && body[at + |s|..at + |s| + |t|] == w[|s|..];
      assert w == w[..|s|] + w[|s|..];
      assert (s + t)[..|s|] == s && (s + t)[|s|..] == t;
      assert body[at..at + |s + t|] == w;
    }
  }

  lemma FieldAt(body: seq<Byte>, at: nat, v: nat, n: nat)
    requires v < Limit(n) && At(body, at, Digits(v, n))
    ensures Little(Slice(body, at, at + n)) == v
  {
    LittleOfDigits(v, n);
    if n > 0 { assert Slice(body, at, at + n) == body[at..at + n]; }
  }

  // Reading what was written

  /** The head of a block, and where its inside starts. */
  lemma HeadAt(body: seq<Byte>, at: nat, repeat: nat, count: nat, inside: seq<Byte>, wide: bool)
    requires repeat < Limit(Width(wide)) && count < Limit(2)
    requires At(body, at, Digits(repeat, Width(wide)) + Digits(count, 2) + inside)
    ensures RepeatAt(body, at, wide) == repeat && CountAt(body, at, wide) == count
    ensures At(body, at + Width(wide) + 2, inside)
  {
    AtParts(body, at, Digits(repeat, Width(wide)) + Digits(count, 2), inside);
    AtParts(body, at, Digits(repeat, Width(wide)), Digits(count, 2));
    FieldAt(body, at, repeat, Width(wide));
    FieldAt(body, at + Width(wide), count, 2);
  }

  lemma LengthAt(body: seq<Byte>, at: nat, content: seq<Byte>)
    requires |content| < 256 && At(body, at, Digits(|content|, 1) + content)
    ensures at < |body| && body[at] == |content|
  {
    OneDigit(|content|);
    AtParts(body, at, Digits(|content|, 1), content);
    hide Digits;
    assert body[at] == body[at..at + 1][0];
  }

  lemma OneDigit(v: nat)
    requires v < 256
    ensures Digits(v, 1) == [v]
  {
    assert Digits(v / 256, 0) == [];
  }

  /** `iterated` on a block: the length of its expansion and its exact end, whatever surrounds it. */
  lemma {:induction false} BlockIsLength(t: Tree, body: seq<Byte>, at: nat, wide: bool)
    requires Fits(t, wide) && At(body, at, Written(t, wide))
    ensures Block(body, at, wide) == Sized(|Expansion(t)|, at + |Written(t, wide)|)
    decreases t
  {
    hide At, Many, Limit, Digits, RepeatAt, CountAt, AllFit, WrittenAll, ExpansionOf;
    match t
    case Leaf(repeat, content) =>
      var inside := Digits(|content|, 1) + content;
      assert Written(t, wide) == Digits(repeat, Width(wide)) + Digits(0, 2) + inside;
      HeadAt(body, at, repeat, 0, inside, wide);
      LengthAt(body, at + Width(wide) + 2, content);
    case Node(repeat, blocks) =>
      HeadAt(body, at, repeat, Count(blocks), WrittenAll(blocks, wide), wide);
      ManyIsLength(blocks, body, at + Width(wide) + 2, wide);
  }

  lemma {:induction false} ManyIsLength(f: Forest, body: seq<Byte>, at: nat, wide: bool)
    requires AllFit(f, wide) && At(body, at, WrittenAll(f, wide))
    ensures Many(body, at, Count(f), wide) == Sized(|ExpansionOf(f)|, at + |WrittenAll(f, wide)|)
    decreases f
  {
    hide At, Block, Many, Fits, Expansion, Written;
    var next := at + |Written(f.tree, wide)|;
    if f.More? { AtParts(body, at, Written(f.tree, wide), WrittenAll(f.rest, wide)); }
    BlockIsLength(f.tree, body, at, wide);
    ManyStep(body, at, Count(f), wide);
    if f.One? {
      ManyStep(body, next, 0, wide);
    } else {
      ManyIsLength(f.rest, body, next, wide);
    }
  }

  /** `expanded` on a record: the sum over its blocks. */
  lemma {:induction false} RecordIsLength(f: Forest, body: seq<Byte>, at: nat, wide: bool)
    requires AllFit(f, wide) && At(body, at, WrittenAll(f, wide)) && at + |WrittenAll(f, wide)| == |body|
    ensures Blocks(body, at, wide) == Sized(|ExpansionOf(f)|, |body|)
    decreases f
  {
    hide At, Block, Many, Fits, Expansion, Written;
    if f.More? { AtParts(body, at, Written(f.tree, wide), WrittenAll(f.rest, wide)); }
    BlockIsLength(f.tree, body, at, wide);
    if f.More? { RecordIsLength(f.rest, body, at + |Written(f.tree, wide)|, wide); }
  }

  // Whatever is read was written

  lemma SliceAt(body: seq<Byte>, from: nat, to: nat)
    requires from <= to <= |body|
    ensures At(body, from, Digits(Little(Slice(body, from, to)), to - from))
    ensures Little(Slice(body, from, to)) < Limit(to - from)
  {
    DigitsOfLittle(Slice(body, from, to));
    assert Slice(body, from, to) == body[from..to];
  }

  lemma HeadOf(body: seq<Byte>, at: nat, inside: seq<Byte>, wide: bool)
    requires At(body, at + Width(wide) + 2, inside)
    ensures At(body, at, Digits(RepeatAt(body, at, wide), Width(wide)) + Digits(CountAt(body, at, wide), 2) + inside)
    ensures RepeatAt(body, at, wide) < Limit(Width(wide)) && CountAt(body, at, wide) < Limit(2)
  {
    var w := Width(wide);
    SliceAt(body, at, at + w);
    SliceAt(body, at + w, at + w + 2);
    var repeat, count := Digits(RepeatAt(body, at, wide), w), Digits(CountAt(body, at, wide), 2);
    AtParts(body, at, repeat, count);
    AtParts(body, at, repeat + count, inside);
  }

  /** Where no blocks are counted, the block is a leaf. */
  lemma LeafOf(body: seq<Byte>, at: nat, wide: bool) returns (t: Tree)
    requires Block(body, at, wide).Sized? && Block(body, at, wide).end <= |body| && CountAt(body, at, wide) == 0
    ensures Fits(t, wide) && At(body, at, Written(t, wide))
  {
    var inside := at + Width(wide) + 2;
    LeafRead(body, at, wide);
    LeafInside(body, inside);
    var content := body[inside + 1..inside + 1 + body[inside]];
    hide Block, Many, RepeatAt, CountAt, Limit, At, Digits;
    HeadOf(body, at, Digits(body[inside], 1) + content, wide);
    t := Leaf(RepeatAt(body, at, wide), content);
    WrittenLeaf(t.repeat, content, wide);
  }

  lemma LeafRead(body: seq<Byte>, at: nat, wide: bool)
    requires Block(body, at, wide).Sized? && Block(body, at, wide).end <= |body| && CountAt(body, at, wide) == 0
    ensures at + Width(wide) + 2 < |body|
    ensures at + Width(wide) + 2 + 1 + body[at + Width(wide) + 2] <= |body|
  {
    hide RepeatAt, CountAt, Many;
  }

  lemma WrittenLeaf(repeat: nat, content: seq<Byte>, wide: bool)
    requires |content| < 256
    ensures Written(Leaf(repeat, content), wide)
         == Digits(repeat, Width(wide)) + Digits(0, 2) + (Digits(|content|, 1) + content)
  {
    hide Digits;
    Associates(Digits(repeat, Width(wide)) + Digits(0, 2), Digits(|content|, 1), content);
  }

  lemma LeafInside(body: seq<Byte>, at: nat)
    requires at < |body| && at + 1 + body[at] <= |body|
    ensures At(body, at, Digits(body[at], 1) + body[at + 1..at + 1 + body[at]])
  {
    OneDigit(body[at]);
    assert [body[at]] == body[at..at + 1];
    AtParts(body, at, Digits(body[at], 1), body[at + 1..at + 1 + body[at]]);
  }

  /** A block that `iterated` reads and that ends inside the body is some block's serialization. */
  lemma {:induction false} TreeOf(body: seq<Byte>, at: nat, wide: bool) returns (t: Tree)
    requires Block(body, at, wide).Sized? && Block(body, at, wide).end <= |body|
    ensures Fits(t, wide) && At(body, at, Written(t, wide))
    decreases Left(body, at), 0, 0
  {
    hide Many, RepeatAt, CountAt, Limit, At, Digits, AllFit, WrittenAll;
    if CountAt(body, at, wide) == 0 {
      t := LeafOf(body, at, wide);
    } else {
      OnwardWhileCounted(body, at, wide);
      var blocks := ForestOf(body, at + Width(wide) + 2, CountAt(body, at, wide), wide);
      t := Node(RepeatAt(body, at, wide), blocks);
      HeadOf(body, at, WrittenAll(blocks, wide), wide);
    }
  }

  lemma {:induction false} ForestOf(body: seq<Byte>, at: nat, count: nat, wide: bool) returns (f: Forest)
    requires count > 0 && Many(body, at, count, wide).Sized? && Many(body, at, count, wide).end <= |body|
    ensures AllFit(f, wide) && At(body, at, WrittenAll(f, wide)) && Count(f) == count
    decreases Left(body, at), 1, count
  {
    hide Block, Many, Fits, At, Written;
    ManyStep(body, at, count, wide);
    var next := Block(body, at, wide).end;
    ManyStep(body, next, count - 1, wide);
    var first := TreeOf(body, at, wide);
    if count == 1 {
      f := One(first);
    } else {
      BlockIsLength(first, body, at, wide);
      var rest := ForestOf(body, next, count - 1, wide);
      f := More(first, rest);
      AtParts(body, at, Written(first, wide), WrittenAll(rest, wide));
    }
  }

  // Where a body is not cut short

  /** Whether every leaf met has its length and its content inside the body, and where the last of them ends. */
  datatype Extent = CutOff | EndsAt(end: nat)

  function Inside(body: seq<Byte>, at: nat, wide: bool): (e: Extent)
    ensures e.EndsAt? ==> at < |body| && at < e.end <= |body|
    decreases Left(body, at), 0, 0
  {
    var inside := at + Width(wide) + 2;
    if CountAt(body, at, wide) == 0 then
      if inside < |body| && inside + 1 + body[inside] <= |body| then EndsAt(inside + 1 + body[inside]) else CutOff
    else
      OnwardWhileCounted(body, at, wide);
      AllInside(body, inside, CountAt(body, at, wide), wide)
  }

  /** `count` blocks, one after the other. */
  function AllInside(body: seq<Byte>, at: nat, count: nat, wide: bool): (e: Extent)
    ensures e.EndsAt? ==> at <= e.end <= |body|
    decreases Left(body, at), 1, count
  {
    if count == 0 then (if at <= |body| then EndsAt(at) else CutOff) else
      match Inside(body, at, wide)
      case CutOff => CutOff
      case EndsAt(next) => AllInside(body, next, count - 1, wide)
  }

  /** Every leaf of every block up to the end of the record. */
  predicate RecordInside(body: seq<Byte>, at: nat, wide: bool)
    decreases Left(body, at)
  {
    at == |body| ||
      match Inside(body, at, wide)
      case CutOff => false
      case EndsAt(next) => RecordInside(body, next, wide)
  }

  /** `iterated` answers, and inside the body, exactly where every leaf is inside; it ends where they do. */
  lemma {:induction false} InsideIff(body: seq<Byte>, at: nat, wide: bool)
    ensures Inside(body, at, wide).EndsAt? <==> Block(body, at, wide).Sized? && Block(body, at, wide).end <= |body|
    ensures Inside(body, at, wide).EndsAt? ==> Inside(body, at, wide).end == Block(body, at, wide).end
    decreases Left(body, at), 0, 0
  {
    hide Many, AllInside, CountAt, RepeatAt;
    if CountAt(body, at, wide) == 0 {
    } else {
      OnwardWhileCounted(body, at, wide);
      AllInsideIff(body, at + Width(wide) + 2, CountAt(body, at, wide), wide);
    }
  }

  lemma {:induction false} AllInsideIff(body: seq<Byte>, at: nat, count: nat, wide: bool)
    ensures AllInside(body, at, count, wide).EndsAt? <==>
      Many(body, at, count, wide).Sized? && Many(body, at, count, wide).end <= |body|
    ensures AllInside(body, at, count, wide).EndsAt? ==>
      AllInside(body, at, count, wide).end == Many(body, at, count, wide).end
    decreases Left(body, at), 1, count
  {
    ManyStep(body, at, count, wide);
    hide Many, Block, Inside;
    if count == 0 {
    } else {
      InsideIff(body, at, wide);
      if Block(body, at, wide).Sized? {
        AllInsideIff(body, Block(body, at, wide).end, count - 1, wide);
      }
    }
  }

  lemma {:induction false} RecordInsideIff(body: seq<Byte>, at: nat, wide: bool)
    requires at <= |body|
    ensures RecordInside(body, at, wide) <==> Blocks(body, at, wide).Sized? && Blocks(body, at, wide).end == |body|
    decreases Left(body, at)
  {
    hide Block, Inside;
    if at == |body| {
    } else {
      InsideIff(body, at, wide);
      if Inside(body, at, wide).EndsAt? {
        RecordInsideIff(body, Inside(body, at, wide).end, wide);
      }
    }
  }

  // The answers are those of what is written

  ghost predicate HasBlock(body: seq<Byte>, at: nat, wide: bool, size: nat, end: nat) {
    exists t ::
      && Fits(t, wide) && At(body, at, Written(t, wide))
      && size == |Expansion(t)| && end == at + |Written(t, wide)|
  }

  /**
   * A block is written in the body exactly where every leaf met lies inside it, up to where the last one ends, and
   * `iterated` then answers with the length of that block's expansion and that end.
   */
  lemma BlockReadIffWritten(body: seq<Byte>, at: nat, wide: bool, size: nat, end: nat)
    ensures HasBlock(body, at, wide, size, end) <==>
      Inside(body, at, wide) == EndsAt(end) && Block(body, at, wide) == Sized(size, end)
  {
    InsideIff(body, at, wide);
    hide Inside;
    if Block(body, at, wide) == Sized(size, end) && end <= |body| {
      var t := TreeOf(body, at, wide);
      BlockIsLength(t, body, at, wide);
    }
    if HasBlock(body, at, wide, size, end) {
      var t :| Fits(t, wide) && At(body, at, Written(t, wide)) && size == |Expansion(t)|
        && end == at + |Written(t, wide)|;
      BlockIsLength(t, body, at, wide);
    }
  }

  /** A record that `expanded` reads to its exact end is a list of written blocks. */
  lemma {:induction false} RecordOf(body: seq<Byte>, at: nat, wide: bool) returns (f: Forest)
    requires at < |body| && Blocks(body, at, wide).Sized? && Blocks(body, at, wide).end == |body|
    ensures AllFit(f, wide) && At(body, at, WrittenAll(f, wide)) && at + |WrittenAll(f, wide)| == |body|
    decreases Left(body, at)
  {
    hide Block, Fits, At, Written;
    var next := Block(body, at, wide).end;
    var first := TreeOf(body, at, wide);
    BlockIsLength(first, body, at, wide);
    if next == |body| {
      f := One(first);
    } else {
      var rest := RecordOf(body, next, wide);
      f := More(first, rest);
      AtParts(body, at, Written(first, wide), WrittenAll(rest, wide));
    }
  }

  ghost predicate HoldsBlocks(body: seq<Byte>, at: nat, wide: bool, size: nat) {
    exists f ::
      && AllFit(f, wide) && At(body, at, WrittenAll(f, wide))
      && at + |WrittenAll(f, wide)| == |body| && size == |ExpansionOf(f)|
  }

  /** Written blocks fill the record exactly when every leaf is inside, and `expanded` then answers with their sum. */
  lemma RecordReadIffWritten(body: seq<Byte>, at: nat, wide: bool, size: nat)
    requires at < |body|
    ensures HoldsBlocks(body, at, wide, size) <==>
      RecordInside(body, at, wide) && Blocks(body, at, wide) == Sized(size, |body|)
  {
    RecordInsideIff(body, at, wide);
    hide RecordInside;
    if Blocks(body, at, wide) == Sized(size, |body|) {
      var f := RecordOf(body, at, wide);
      RecordIsLength(f, body, at, wide);
    }
    if HoldsBlocks(body, at, wide, size) {
      var f :| AllFit(f, wide) && At(body, at, WrittenAll(f, wide)) && at + |WrittenAll(f, wide)| == |body|
        && size == |ExpansionOf(f)|;
      RecordIsLength(f, body, at, wide);
    }
  }

  /** Past the end it does not notice: content that the body cuts short counts in full. */
  lemma CutShortCountsInFull()
    ensures Block([3, 0, 0, 0, 5, 7], 0, false) == Sized(15, 10)
    ensures !HasBlock([3, 0, 0, 0, 5, 7], 0, false, 15, 10)
  {
    var body: seq<Byte> := [3, 0, 0, 0, 5, 7];
    assert Slice(body, 0, 2) == [3, 0] && Slice(body, 2, 4) == [0, 0];
    assert Little([3, 0]) == 3 by { assert [3, 0][1..] == [0]; assert Little([0]) == 0; }
    assert Little([0, 0]) == 0 by { assert [0, 0][1..] == [0]; assert Little([0]) == 0; }
  }
}
