/** The growable byte buffer of a section: set_data, insert_data and append_data. */
module SectionData {
  import opened Bits
  import opened ElfFile

  /** raw inserted into s at position pos. */
  function Inserted(s: seq<byte>, pos: nat, raw: seq<byte>): seq<byte>
    requires pos <= |s|
  {
    s[..pos] + raw + s[pos..]
  }

  /** Inserted, byte by byte. */
  lemma IsInserted(t: seq<byte>, s: seq<byte>, pos: nat, raw: seq<byte>)
    requires pos <= |s| && |t| == |s| + |raw|
    requires forall i :: 0 <= i < pos ==> t[i] == s[i]
    requires forall i :: 0 <= i < |raw| ==> t[pos + i] == raw[i]
    requires forall i :: pos <= i < |s| ==> t[i + |raw|] == s[i]
    ensures t == Inserted(s, pos, raw)
  {
    var r := Inserted(s, pos, raw);
    forall i | 0 <= i < |t| ensures t[i] == r[i] {
      if pos <= i < pos + |raw| {
        assert t[pos + (i - pos)] == raw[i - pos];
      } else if pos + |raw| <= i {
        assert t[(i - |raw|) + |raw|] == s[i - |raw|];
      }
    }
  }

  /** The buffer's next capacity, were it not for its 32-bit field. */
  function Grown(size: nat, capacity: nat, n: nat): nat {
    if size + n < capacity then capacity else 2 * (capacity + n)
  }

  /** After an insertion of n bytes the capacity, as it is computed in 32 bits, covers the contents.
      Otherwise the insertion writes behind the buffer that it has allocated. */
  predicate CapacityCovers(size: nat, capacity: nat, n: nat) { size + n <= W(Grown(size, capacity, n)) }

  /** A buffer of 4 bytes holds 2 and 1 more; for 3 and 1 more it becomes one of 10, for 4 and 2 more of 12. */
  lemma GrowthInNumbers()
    ensures Grown(2, 4, 1) == 4 && Grown(3, 4, 1) == 10 && Grown(4, 4, 2) == 12
  {
  }

  /** It does while buffer and insertion together stay below 2 GiB, and for a full buffer (a section as it is
      loaded) only then. */
  lemma CoversExactly(size: nat, capacity: nat, n: nat)
    requires size <= capacity
    ensures capacity + n < 0x8000_0000 ==> CapacityCovers(size, capacity, n)
    ensures size == capacity && capacity + n < 0x1_0000_0000 ==>
              (CapacityCovers(size, capacity, n) <==> capacity + n < 0x8000_0000)
  {
    var c := capacity + n;
    if 0x8000_0000 <= c < 0x1_0000_0000 { assert W(2 * c) == 2 * c - 0x1_0000_0000; }
  }

  /** How many bytes an insertion of n bytes at pos copies or moves. */
  function MoveCost(size: nat, capacity: nat, pos: nat, n: nat): nat
    requires pos <= size
  {
    if size + n < capacity then (size - pos) + n else size + n
  }

  class SectionBuffer {
    const kind: word
    var data: array<byte>
    var dataSize: nat
    var size: nat

    /** The capacity is a 32-bit number that does not exceed what is allocated. */
    ghost predicate Allocated()
      reads this
    {
      dataSize <= data.Length && dataSize < 0x1_0000_0000
    }

    /** Nor does the size exceed the capacity. */
    ghost predicate Valid()
      reads this
    {
      Allocated() && size <= dataSize
    }

    /** The bytes of the section. */
    function Contents(): (s: seq<byte>)
      requires Valid()
      reads this, data
      ensures |s| == size
    {
      data[..size]
    }

    predicate HasRoom(n: nat)
      reads this
    {
      CapacityCovers(size, dataSize, n)
    }

    constructor (kind: word)
      ensures this.kind == kind && Valid() && fresh(data) && size == 0 && dataSize == 0
    {
      this.kind := kind;
      data := new byte[0];
      dataSize, size := 0, 0;
    }

    /** std::copy_backward within the buffer: data[first..last] to the n bytes further up. */
    method MoveUp(first: nat, last: nat, n: nat) returns (ghost moved: nat)
      requires first <= last && last + n <= data.Length
      modifies data
      ensures forall i :: first <= i < last ==> data[i + n] == old(data[i])
      ensures forall i :: 0 <= i < first || last + n <= i < data.Length ==> data[i] == old(data[i])
      ensures moved == last - first
    {
      var k := last;
      moved := 0;
      while k > first
        invariant first <= k <= last && moved == last - k
        invariant forall i :: k <= i < last ==> data[i + n] == old(data[i])
        invariant forall i :: 0 <= i < k || last + n <= i < data.Length ==> data[i] == old(data[i])
      {
        k := k - 1;
        data[k + n] := data[k];
        moved := moved + 1;
      }
    }

    /** std::copy of raw into the buffer at pos. */
    method Write(pos: nat, raw: seq<byte>) returns (ghost moved: nat)
      requires pos + |raw| <= data.Length
      modifies data
      ensures forall k :: 0 <= k < |raw| ==> data[pos + k] == raw[k]
      ensures forall i :: 0 <= i < pos || pos + |raw| <= i < data.Length ==> data[i] == old(data[i])
      ensures moved == |raw|
    {
      moved := CopyBytes(data, pos, raw);
    }

    /** set_data; the size of a NOBITS section becomes that of its buffer. */
    method SetData(raw: seq<byte>)
      requires Allocated() && |raw| < 0x1_0000_0000
      modifies this
      ensures Valid() && (fresh(data) || data == old(data))
      ensures kind != SHT_NOBITS ==> Contents() == raw
      ensures kind == SHT_NOBITS ==> size == dataSize == old(dataSize) && data == old(data)
    {
      if kind != SHT_NOBITS {
        data := new byte[|raw|](i requires 0 <= i < |raw| => raw[i]);
        dataSize := |raw|;
      }
      size := dataSize;
    }

    /** insert_data. It fails, by writing outside the new buffer, exactly when the capacity does not cover the
        contents; a NOBITS section is left alone. `moved` counts the bytes copied. */
    method InsertData(pos: nat, raw: seq<byte>) returns (ok: bool, ghost moved: nat)
      requires Allocated() && (kind != SHT_NOBITS ==> Valid() && pos <= size)
      modifies this, data
      ensures Allocated() && (fresh(data) || data == old(data))
      ensures ok <==> kind == SHT_NOBITS || old(CapacityCovers(size, dataSize, |raw|))
      ensures kind != SHT_NOBITS ==> Valid()
      ensures ok && kind != SHT_NOBITS ==>
                && Contents() == Inserted(old(Contents()), pos, raw)
                && dataSize == W(Grown(old(size), old(dataSize), |raw|))
                && moved == MoveCost(old(size), old(dataSize), pos, |raw|)
      ensures kind == SHT_NOBITS ==>
                size == old(size) && dataSize == old(dataSize) && data == old(data) && data[..] == old(data[..])
                    && moved == 0
    {
      ok, moved := true, 0;
      if kind != SHT_NOBITS {
        if size + |raw| < dataSize {
          moved := InsertInPlace(pos, raw);
        } else if size + |raw| <= W(2 * (dataSize + |raw|)) {
          moved := InsertIntoNew(pos, raw, W(2 * (dataSize + |raw|)));
        } else {
          ok := false;
        }
      }
    }

    method InsertInPlace(pos: nat, raw: seq<byte>) returns (ghost moved: nat)
      requires Valid() && pos <= size && size + |raw| < dataSize
      modifies this`size, data
      ensures Valid() && data == old(data)
      ensures Contents() == Inserted(old(Contents()), pos, raw)
      ensures moved == old(size) - pos + |raw|
    {
      hide Inserted;
      ghost var was := Contents();
      moved := MoveUp(pos, size, |raw|);
      ghost var shifted := data[..];
      ghost var more := Write(pos, raw);
      moved := moved + more;
      size := size + |raw|;
      forall i | pos <= i < |was| ensures data[i + |raw|] == was[i] {
        assert shifted[i + |raw|] == was[i];
      }
      IsInserted(data[..size], was, pos, raw);
    }

    /** The three copies into a new buffer. */
    method InsertIntoNew(pos: nat, raw: seq<byte>, capacity: nat) returns (ghost moved: nat)
      requires Valid() && pos <= size && size + |raw| <= capacity < 0x1_0000_0000
      modifies this
      ensures Valid() && fresh(data) && dataSize == capacity
      ensures Contents() == Inserted(old(Contents()), pos, raw)
      ensures moved == old(size) + |raw|
    {
      hide Inserted;
      var newData := new byte[capacity];
      ghost var was := Contents();
      ghost var first := CopyBytes(newData, 0, data[..pos]);
      ghost var second := CopyBytes(newData, pos, raw);
      ghost var third := CopyBytes(newData, pos + |raw|, data[pos..size]);
      moved := first + second + third;
      ghost var result := newData[..size + |raw|];
      forall i | pos <= i < |was| ensures result[i + |raw|] == was[i] {
        assert newData[pos + |raw| + (i - pos)] == data[pos..size][i - pos];
      }
      IsInserted(result, was, pos, raw);
      data, dataSize := newData, capacity;
      size := size + |raw|;
      assert Contents() == result;
    }

    /** append_data. */
    method AppendData(raw: seq<byte>) returns (ok: bool, ghost moved: nat)
      requires Allocated() && (kind != SHT_NOBITS ==> Valid())
      modifies this, data
      ensures Allocated() && (fresh(data) || data == old(data))
      ensures ok <==> kind == SHT_NOBITS || old(CapacityCovers(size, dataSize, |raw|))
      ensures kind != SHT_NOBITS ==> Valid()
      ensures ok && kind != SHT_NOBITS ==>
                && Contents() == old(Contents()) + raw
                && dataSize == W(Grown(old(size), old(dataSize), |raw|))
                && moved == MoveCost(old(size), old(dataSize), old(size), |raw|)
      ensures kind == SHT_NOBITS ==>
                size == old(size) && dataSize == old(dataSize) && data == old(data) && data[..] == old(data[..])
                    && moved == 0
    {
      ok, moved := InsertData(size, raw);
    }
  }

  /** std::copy of bytes into an array. */
  method CopyBytes(a: array<byte>, at: nat, bytes: seq<byte>) returns (ghost moved: nat)
    requires at + |bytes| <= a.Length
    modifies a
    ensures forall k :: 0 <= k < |bytes| ==> a[at + k] == bytes[k]
    ensures forall i :: 0 <= i < at || at + |bytes| <= i < a.Length ==> a[i] == old(a[i])
    ensures moved == |bytes|
  {
    moved := 0;
    for k := 0 to |bytes|
      invariant moved == k
      invariant forall i :: 0 <= i < k ==> a[at + i] == bytes[i]
      invariant forall i :: 0 <= i < at || at + k <= i < a.Length ==> a[i] == old(a[i])
    {
      a[at + k] := bytes[k];
      moved := moved + 1;
    }
  }

  // ----- the cost of a run of appends -----

  /** The strings one after the other. */
  function Joined(raws: seq<seq<byte>>): seq<byte> {
    if raws == [] then [] else Joined(raws[..|raws| - 1]) + raws[|raws| - 1]
  }

  lemma {:induction false} JoinedGrows(raws: seq<seq<byte>>, k: nat)
    requires k <= |raws|
    ensures |Joined(raws[..k])| <= |Joined(raws)|
    decreases |raws|
  {
    if k < |raws| {
      assert raws[..|raws| - 1][..k] == raws[..k];
      JoinedGrows(raws[..|raws| - 1], k);
    } else {
      assert raws[..k] == raws;
    }
  }

  /** Any run of append_data on an empty section, below 1 GiB, moves at most three bytes for each byte that
      ends up in it. `paid` is what old contents have been copied so far; it stays within the capacity and
      within twice the size, because the capacity doubles. */
  method AppendAll(section: SectionBuffer, raws: seq<seq<byte>>) returns (ghost total: nat)
    requires section.Valid() && section.kind != SHT_NOBITS && section.size == section.dataSize == 0
    requires |Joined(raws)| < 0x4000_0000
    modifies section, section.data
    ensures section.Valid() && section.Contents() == Joined(raws)
    ensures total <= 3 * |Joined(raws)|
  {
    total := 0;
    ghost var paid := 0;
    for i := 0 to |raws|
      invariant section.Valid() && (fresh(section.data) || section.data == old(section.data))
      invariant section.Contents() == Joined(raws[..i])
      invariant section.dataSize <= 4 * section.size
      invariant paid <= section.dataSize && paid <= 2 * section.size && total == paid + section.size
    {
      JoinedGrows(raws, i + 1);
      assert raws[..i + 1][..i] == raws[..i];
      AppendFits(section.size, section.dataSize, |raws[i]|);
      ghost var size := section.size;
      ghost var moved;
      var ok;
      ok, moved := section.AppendData(raws[i]);
      paid := paid + (moved - |raws[i]|);
      total := total + moved;
    }
    assert raws[..|raws|] == raws;
  }

  lemma AppendFits(size: nat, capacity: nat, n: nat)
    requires size <= capacity <= 4 * size && size + n < 0x4000_0000
    ensures CapacityCovers(size, capacity, n) && W(Grown(size, capacity, n)) == Grown(size, capacity, n)
    ensures Grown(size, capacity, n) <= 4 * (size + n)
    ensures MoveCost(size, capacity, size, n) >= n
  {
  }
}
