/**
 * The OMF readers of tools/sizes.py: indices, the size an LIDATA block expands to, and the records of an object
 * file, on any bytes whatever. A slice past the end is short, as Python's is; an index past the end is `Crash`.
 */
module Omf {

  type Byte = x: int | 0 <= x < 256

  datatype Outcome = Crash | Sized(size: nat, end: nat)

  /** `int.from_bytes(s, "little")`. */
  function Little(s: seq<Byte>): nat {
    if s == [] then 0 else s[0] + 256 * Little(s[1..])
  }

  /** `body[from : to]`. */
  function Slice(body: seq<Byte>, from: nat, to: nat): (s: seq<Byte>)
    requires from <= to
    ensures |s| <= to - from
  {
    if |body| <= from then [] else if |body| < to then body[from..] else body[from..to]
  }

  function Width(wide: bool): nat {
    if wide then 4 else 2
  }

  function Left(body: seq<Byte>, at: nat): nat {
    if at <= |body| then |body| - at else 0
  }

  /** The repeat count at `at`. */
  function RepeatAt(body: seq<Byte>, at: nat, wide: bool): nat {
    Little(Slice(body, at, at + Width(wide)))
  }

  /** The count of nested blocks after the repeat count. */
  function CountAt(body: seq<Byte>, at: nat, wide: bool): nat {
    Little(Slice(body, at + Width(wide), at + Width(wide) + 2))
  }

  /** `o` after a stretch that came to `size`. */
  function Plus(size: nat, o: Outcome): Outcome {
    if o.Crash? then Crash else Sized(size + o.size, o.end)
  }

  /** `o`, its bytes `repeat` times over. */
  function Scaled(repeat: nat, o: Outcome): Outcome {
    if o.Crash? then Crash else Sized(repeat * o.size, o.end)
  }

  /** What reading the block at `at` comes to: the bytes it expands to and where it ends, always further on. */
  function Block(body: seq<Byte>, at: nat, wide: bool): (r: Outcome)
    ensures r.Sized? ==> at < |body| && at < r.end
    decreases Left(body, at), 0, 0
  {
    var inside := at + Width(wide) + 2;
    if CountAt(body, at, wide) == 0 then
      if inside < |body| then Sized(RepeatAt(body, at, wide) * body[inside], inside + 1 + body[inside]) else Crash
    else
      Scaled(RepeatAt(body, at, wide), Many(body, inside, CountAt(body, at, wide), wide))
  }

  /** `count` blocks, one after the other. */
  function Many(body: seq<Byte>, at: nat, count: nat, wide: bool): (r: Outcome)
    ensures r.Sized? ==> at <= r.end && (count > 0 ==> at < |body|)
    decreases Left(body, at), 1, count
  {
    if count == 0 then Sized(0, at) else
      match Block(body, at, wide)
      case Crash => Crash
      case Sized(first, next) => Plus(first, Many(body, next, count - 1, wide))
  }

  /** Blocks up to the end of the record. */
  function Blocks(body: seq<Byte>, at: nat, wide: bool): (r: Outcome)
    ensures r.Sized? ==> |body| <= r.end
    decreases Left(body, at)
  {
    if at >= |body| then Sized(0, at) else
      match Block(body, at, wide)
      case Crash => Crash
      case Sized(first, next) => Plus(first, Blocks(body, next, wide))
  }

  /** Only a block that starts inside the body has nested blocks. */
  lemma OnwardWhileCounted(body: seq<Byte>, at: nat, wide: bool)
    requires CountAt(body, at, wide) > 0
    ensures at + Width(wide) < |body|
  {
  }

  lemma ManyStep(body: seq<Byte>, at: nat, count: nat, wide: bool)
    ensures count == 0 ==> Many(body, at, count, wide) == Sized(0, at)
    ensures count > 0 && Block(body, at, wide).Crash? ==> Many(body, at, count, wide) == Crash
    ensures count > 0 && Block(body, at, wide).Sized? ==>
      Many(body, at, count, wide)
      == Plus(Block(body, at, wide).size, Many(body, Block(body, at, wide).end, count - 1, wide))
  {
  }

  method Iterated(body: seq<Byte>, start: nat, wide: bool) returns (r: Outcome)
    ensures r == Block(body, start, wide)
    decreases Left(body, start)
  {
    hide Little, Slice, Many;
    var at := start;
    var repeat := Little(Slice(body, at, at + Width(wide)));
    at := at + Width(wide);
    var blocks := Little(Slice(body, at, at + 2));
    at := at + 2;
    if blocks == 0 {
      if at >= |body| { return Crash; }
      return Sized(repeat * body[at], at + 1 + body[at]);
    }
    OnwardWhileCounted(body, start, wide);
    var inner: nat := 0;
    ghost var first := at;
    ghost var all := Many(body, first, blocks, wide);
    assert Block(body, start, wide) == Scaled(repeat, all);
    hide Block;
    for k := 0 to blocks
      invariant start < first <= at
      invariant all == Plus(inner, Many(body, at, blocks - k, wide))
    {
      ManyStep(body, at, blocks - k, wide);
      var one := Iterated(body, at, wide);
      if one.Crash? { return Crash; }
      inner, at := inner + one.size, one.end;
    }
    ManyStep(body, at, 0, wide);
    return Sized(repeat * inner, at);
  }

  method Expanded(body: seq<Byte>, start: nat, wide: bool) returns (r: Outcome)
    ensures r == Blocks(body, start, wide)
  {
    var total: nat, at: nat := 0, start;
    while at < |body|
      invariant Blocks(body, start, wide) == Plus(total, Blocks(body, at, wide))
      decreases Left(body, at)
    {
      var one := Iterated(body, at, wide);
      if one.Crash? { return Crash; }
      total, at := total + one.size, one.end;
    }
    return Sized(total, at);
  }
}
