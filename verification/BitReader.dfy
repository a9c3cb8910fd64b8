/** `Reader` of tools/jpeg_reference.py: entropy-coded data read bit by bit. */
module BitReader {
  import opened Bits

  /** What a read gives; it fails at the end of the data and at a marker. */
  datatype Read = Failed | Got(value: int)

  /** The first byte of the bits from `at` on, and where the others start. */
  lemma DataStarts(data: seq<int>, at: nat)
    requires forall i :: 0 <= i < |data| ==> 0 <= data[i] < 256
    ensures at >= |data| ==> DataBits(data, at) == []
    ensures at < |data| && data[at] != 0xFF ==> DataBits(data, at) == Low(data[at], 8) + DataBits(data, at + 1)
    ensures at < |data| && data[at] == 0xFF ==>
              if at + 1 < |data| && data[at + 1] == 0
                then DataBits(data, at) == Low(data[at], 8) + DataBits(data, at + 2)
              else DataBits(data, at) == []
  {
  }

  lemma {:induction false} LowAreBits(c: nat, n: nat)
    ensures AreBits(Low(c, n))
  {
    if n == 0 {
    } else {
      LowAreBits(c / 2, n - 1);
    }
  }

  lemma {:induction false} DataAreBits(data: seq<int>, at: nat)
    requires forall i :: 0 <= i < |data| ==> 0 <= data[i] < 256
    ensures AreBits(DataBits(data, at))
    decreases |data| - at
  {
    if at >= |data| {
    } else {
      LowAreBits(data[at], 8);
      DataAreBits(data, at + 1);
      if at + 1 < |data| { DataAreBits(data, at + 2); }
    }
  }

  lemma TakeBit(c: nat, n: nat, rest: Bits)
    requires n > 0
    ensures (Low(c, n) + rest)[0] == c / Pow2(n - 1) % 2 && (Low(c, n) + rest)[1..] == Low(c, n - 1) + rest
  {
    LowFirst(c, n);
  }

  class Reader {
    const data: seq<int>
    var at: nat
    var bits: nat
    var count: nat

    ghost predicate Valid()
      reads this
    {
      (forall i :: 0 <= i < |data| ==> 0 <= data[i] < 256) && bits < 256 && count <= 8
    }

    /** The bits still to be read. */
    ghost function Remaining(): Bits
      requires Valid()
      reads this
    {
      Low(bits, count) + DataBits(data, at)
    }

    lemma RemainingAreBits()
      requires Valid()
      ensures AreBits(Remaining())
    {
      LowAreBits(bits, count);
      DataAreBits(data, at);
    }

    constructor (data: seq<int>)
      requires forall i :: 0 <= i < |data| ==> 0 <= data[i] < 256
      ensures Valid() && this.data == data && Remaining() == DataBits(data, 0)
    {
      this.data := data;
      at, bits, count := 0, 0, 0;
      new;
      assert Low(bits, count) + DataBits(data, at) == DataBits(data, at);
    }

    method Byte() returns (r: Read)
      modifies this`at
      ensures at == old(at) + 1
      ensures r == if old(at) < |data| then Got(data[old(at)]) else Failed
    {
      at := at + 1;
      r := if at - 1 < |data| then Got(data[at - 1]) else Failed;
    }

    /** The next data byte becomes the current one; what remains is the same, eight bits of it current. */
    method Refill() returns (ok: bool)
      requires Valid() && count == 0
      modifies this
      ensures ok <==> old(Remaining()) != []
      ensures ok ==> Valid() && count == 8 && Remaining() == old(Remaining())
    {
      DataStarts(data, at);
      assert Remaining() == DataBits(data, at);
      hide DataBits, Low;
      var first := Byte();
      if first.Failed? { return false; }
      bits := first.value;
      if bits == 0xFF {
        var second := Byte();
        if second.Failed? || second.value != 0 { return false; }
      }
      count := 8;
      ok := true;
    }

    /** Fails exactly when no bit remains, else gives the first one and keeps the rest. */
    method Bit() returns (r: Read)
      requires Valid()
      modifies this
      ensures r.Failed? <==> old(Remaining()) == []
      ensures r.Got? ==> Valid() && r.value == old(Remaining())[0] && Remaining() == old(Remaining())[1..]
    {
      hide DataBits, Low;
      if count == 0 {
        var ok := Refill();
        if !ok { return Failed; }
      }
      TakeBit(bits, count, DataBits(data, at));
      count := count - 1;
      r := Got(bits / Pow2(count) % 2);
    }

    /** Fails exactly when fewer than `n` bits remain, else gives the number the first `n` denote. */
    method Receive(n: nat) returns (r: Read)
      requires Valid()
      modifies this
      ensures r.Failed? <==> |old(Remaining())| < n
      ensures r.Got? ==> Valid() && r.value == Value(old(Remaining())[..n]) && Remaining() == old(Remaining())[n..]
    {
      var v := 0;
      ghost var was := Remaining();
      for i := 0 to n
        invariant Valid() && i <= |was|
        invariant v == Value(was[..i]) && Remaining() == was[i..]
      {
        var bit := Bit();
        if bit.Failed? { return Failed; }
        assert was[..i + 1][..i] == was[..i];
        v := v * 2 + bit.value;
      }
      r := Got(v);
    }
  }
}
