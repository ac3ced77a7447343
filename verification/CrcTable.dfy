/** The 256-entry lookup table, filled on first use, and the checksum loop over it. */
module CrcTable {
  import opened Words
  import opened Crc32

  lemma {:induction false} SmallNumber(n: nat, k: nat, m: nat)
    requires n < Pow2(k) && k <= m
    ensures BitsOf(n, m) == BitsOf(n, k) + Zeros(m - k)
    decreases k
  {
    if k == 0 {
      ZeroBits(m);
      assert BitsOf(n, k) + Zeros(m) == Zeros(m);
    } else {
      SmallNumber(n / 2, k - 1, m - 1);
    }
  }

  lemma {:induction false} ZeroBits(m: nat)
    ensures BitsOf(0, m) == Zeros(m)
  {
    if m > 0 {
      ZeroBits(m - 1);
      assert [false] + Zeros(m - 1) == Zeros(m);
    }
  }

  /** The division of one byte value, bit by bit. */
  method TableEntry(i: nat) returns (crc: Word)
    requires i < 256
    ensures crc == ByteStep(BitsOf(i, 32))
  {
    crc := BitsOf(i, 32);
    for j := 0 to 8
      invariant Steps(crc, 8 - j) == ByteStep(BitsOf(i, 32))
    {
      crc := BitStep(crc);
    }
  }

  ghost predicate EntryOk(t: seq<Word>, i: nat) { i < |t| && t[i] == ByteStep(BitsOf(i, 32)) }

  /** The first `n` entries are in place. */
  ghost predicate Filled(t: seq<Word>, n: nat) {
    forall i: nat {:trigger EntryOk(t, i)} :: i < n ==> EntryOk(t, i)
  }

  lemma FilledNext(t: seq<Word>, n: nat, w: Word)
    requires n < |t| && Filled(t, n) && w == ByteStep(BitsOf(n, 32))
    ensures Filled(t[n := w], n + 1)
  {
    var t' := t[n := w];
    forall i: nat | i < n + 1 ensures EntryOk(t', i) {
      if i < n { assert EntryOk(t, i); }
    }
  }

  lemma RunNext(c: Word, data: seq<Byte>, i: nat)
    requires i < |data|
    ensures Run(c, data[..i + 1]) == ByteStep(Xor(Run(c, data[..i]), ByteWord(data[i])))
  {
    assert data[..i + 1][..i] == data[..i];
  }

  class Table {
    const table: array<Word>
    var ready: bool

    ghost predicate Valid()
      reads this, table
    {
      table.Length == 256 && (ready ==> Filled(table[..], 256))
    }

    constructor ()
      ensures Valid() && !ready && fresh(table)
    {
      table := new Word[256](_ => Zeros(32));
      ready := false;
    }

    method Init()
      requires Valid()
      modifies this, table
      ensures Valid() && ready
    {
      if ready { return; }
      for i := 0 to 256
        invariant Filled(table[..], i)
      {
        var crc := TableEntry(i);
        FilledNext(table[..], i, crc);
        ghost var next := table[..][i := crc];
        table[i] := crc;
        assert table[..] == next;
      }
      ready := true;
    }

    /** The table entry of a low byte is that byte divided through. */
    lemma LookupIsStep(x: Word)
      requires Valid() && ready
      ensures Value(x[..8]) < 256 && table[Value(x[..8])] == ByteStep(Low(x))
    {
      Pow2Values();
      ValueRange(x[..8]);
      assert EntryOk(table[..], Value(x[..8]));
      SmallNumber(Value(x[..8]), 8, 32);
      BitsOfValue(x[..8]);
    }

    /** The checksum of a buffer is the bit-at-a-time division of it. */
    method Compute(data: seq<Byte>) returns (crc: Word)
      requires Valid()
      modifies this, table
      ensures Valid() && ready && crc == Crc(data) == ReferenceCrc(data)
    {
      Init();
      crc := ONES;
      for i := 0 to |data|
        invariant Valid() && ready && crc == Run(ONES, data[..i])
      {
        RunNext(ONES, data, i);
        var x := Xor(crc, ByteWord(data[i]));
        LookupIsStep(x);
        TableStep(crc, data[i]);
        crc := Xor(table[Value(x[..8])], Shift8(crc));
      }
      assert data[..|data|] == data;
      crc := Xor(crc, ONES);
      CrcIsReference(data);
    }
  }
}
