/** Records of equal size in a byte buffer: symbol and relocation entries in their sections. */
module Records {
  import opened Bits
  import opened SectionData

  /** The number of whole records. */
  function Count(s: seq<byte>, size: nat): nat
    requires size > 0
  {
    |s| / size
  }

  /** Record i lies within the contents. */
  lemma Inside(s: seq<byte>, size: nat, i: nat)
    requires size > 0 && i < Count(s, size)
    ensures i * size + size <= |s|
  {
    After(i, Count(s, size), size);
    assert Count(s, size) * size <= |s|;
  }

  lemma {:induction false} After(i: nat, k: nat, size: nat)
    requires i < k
    ensures i * size + size <= k * size
  {
    assert k * size == (k - 1) * size + size;
    if i < k - 1 { After(i, k - 1, size); }
  }

  function Record(s: seq<byte>, size: nat, i: nat): (r: seq<byte>)
    requires size > 0 && i < Count(s, size)
    ensures |r| == size
  {
    Inside(s, size, i);
    s[i * size..i * size + size]
  }

  /** The contents with record i replaced. */
  function Replaced(s: seq<byte>, size: nat, i: nat, bs: seq<byte>): (r: seq<byte>)
    requires size > 0 && i < Count(s, size) && |bs| == size
    ensures |r| == |s|
  {
    Inside(s, size, i);
    s[..i * size] + bs + s[i * size + size..]
  }

  /** Replacing a record changes that record and no other. */
  lemma RecordOfReplaced(s: seq<byte>, size: nat, i: nat, bs: seq<byte>, k: nat)
    requires size > 0 && i < Count(s, size) && |bs| == size && k < Count(s, size)
    ensures Record(Replaced(s, size, i, bs), size, k) == if k == i then bs else Record(s, size, k)
  {
    var r, a, b := Replaced(s, size, i, bs), i * size, k * size;
    Inside(s, size, i);
    Inside(s, size, k);
    if k < i {
      After(k, i, size);
      assert r[b..b + size] == s[b..b + size];
    } else if i < k {
      After(i, k, size);
      assert r[b..b + size] == s[b..b + size];
    } else {
      assert r[a..a + size] == bs;
    }
  }

  /** The contents with bs in place of what was at `at`. */
  function Overwritten(s: seq<byte>, at: nat, bs: seq<byte>): seq<byte>
    requires at + |bs| <= |s|
  {
    s[..at] + bs + s[at + |bs|..]
  }

  method ReadBytes(section: SectionBuffer, at: nat, n: nat) returns (bs: seq<byte>)
    requires section.Valid() && at + n <= section.size
    ensures bs == section.Contents()[at..at + n]
  {
    bs := section.data[at..at + n];
    assert bs == section.Contents()[at..at + n];
  }

  method WriteBytes(section: SectionBuffer, at: nat, bs: seq<byte>)
    requires section.Valid() && at + |bs| <= section.size
    modifies section.data
    ensures section.Contents() == Overwritten(old(section.Contents()), at, bs)
  {
    ghost var r := Overwritten(section.Contents(), at, bs);
    ghost var moved := section.Write(at, bs);
    forall k | 0 <= k < |r| ensures section.data[k] == r[k] {
      if at <= k < at + |bs| { assert section.data[at + (k - at)] == bs[k - at]; }
    }
    assert section.Contents() == r;
  }

  method ReadRecord(section: SectionBuffer, size: nat, i: nat) returns (bs: seq<byte>)
    requires section.Valid() && size > 0 && i < Count(section.Contents(), size)
    ensures bs == Record(section.Contents(), size, i)
  {
    Inside(section.Contents(), size, i);
    bs := ReadBytes(section, i * size, size);
  }

  method WriteRecord(section: SectionBuffer, size: nat, i: nat, bs: seq<byte>)
    requires section.Valid() && size > 0 && i < Count(section.Contents(), size) && |bs| == size
    modifies section.data
    ensures section.Contents() == Replaced(old(section.Contents()), size, i, bs)
  {
    Inside(section.Contents(), size, i);
    WriteBytes(section, i * size, bs);
  }
}
