/** The string table accessor: strings are appended with their terminating NUL and read back by offset. */
module StringTable {
  import opened Bits
  import opened Wrappers
  import opened Hashing
  import opened ElfFile
  import opened SectionData

  /** The contents after adding str to a table with contents s, and the offset returned. */
  function Added(s: seq<byte>, str: Name): (r: (seq<byte>, nat))
    ensures r.1 == if s == [] then 1 else |s|
    ensures |r.0| == r.1 + |str| + 1
  {
    var base := if s == [] then [0] else s;
    (base + str + [0], |base|)
  }

  /** The string at an offset; None without a NUL behind it. */
  function StringAt(s: seq<byte>, index: nat): Option<Name> {
    if index < |s| then
      var str := CString(s[index..]);
      if |str| < |s| - index then Some(str) else None
    else None
  }

  /** What was added is read back at the returned offset, and every string that could be read before is
      still there. */
  lemma AddedReadsBack(s: seq<byte>, str: Name, index: nat)
    requires 0 !in str
    ensures StringAt(Added(s, str).0, Added(s, str).1) == Some(str)
    ensures StringAt(s, index).Some? ==> StringAt(Added(s, str).0, index) == StringAt(s, index)
    ensures s == [] ==> StringAt(Added(s, str).0, 0) == Some([])
  {
    var (t, at) := Added(s, str);
    assert t[at..] == str + [0];
    CStringEnds(str, []);
    assert str + [0] + [] == str + [0];
    if s == [] {
      assert t[0..] == [] + [0] + (str + [0]);
      CStringEnds([], str + [0]);
    }
    if StringAt(s, index).Some? {
      assert s + (str + [0]) == t;
      Extends(s, str + [0], index);
    }
  }

  lemma {:induction false} CStringEnds(str: Name, rest: seq<byte>)
    requires 0 !in str
    ensures CString(str + [0] + rest) == str
  {
    if str != [] {
      assert (str + [0] + rest)[1..] == str[1..] + [0] + rest;
      CStringEnds(str[1..], rest);
    }
  }

  /** Bytes appended behind a terminated string do not change it. */
  lemma Extends(s: seq<byte>, more: seq<byte>, index: nat)
    ensures StringAt(s, index).Some? ==> StringAt(s + more, index) == StringAt(s, index)
  {
    if StringAt(s, index).Some? {
      var str := CString(s[index..]);
      var rest := s[index..][|str| + 1..];
      assert s[index..] == str + [0] + rest;
      assert (s + more)[index..] == str + [0] + (rest + more);
      CStringEnds(str, rest + more);
    }
  }

  /** A run of additions: the final contents and the offsets returned. */
  function AddedAll(s: seq<byte>, strs: seq<Name>): (r: (seq<byte>, seq<nat>))
    ensures |r.1| == |strs|
    decreases |strs|
  {
    if strs == [] then (s, [])
    else
      var (t, at) := Added(s, strs[0]);
      var (u, ats) := AddedAll(t, strs[1..]);
      (u, [at] + ats)
  }

  /** After any run of additions every string is found at the offset its own addition returned. */
  lemma {:induction false} AllReadBack(s: seq<byte>, strs: seq<Name>, k: nat)
    requires (forall i :: 0 <= i < |strs| ==> 0 !in strs[i]) && k < |strs|
    ensures StringAt(AddedAll(s, strs).0, AddedAll(s, strs).1[k]) == Some(strs[k])
    decreases |strs|
  {
    var (t, at) := Added(s, strs[0]);
    AddedReadsBack(s, strs[0], 0);
    if k == 0 {
      KeptByAll(t, strs[1..], at);
    } else {
      AllReadBack(t, strs[1..], k - 1);
    }
  }

  lemma {:induction false} KeptByAll(s: seq<byte>, strs: seq<Name>, index: nat)
    requires (forall i :: 0 <= i < |strs| ==> 0 !in strs[i]) && StringAt(s, index).Some?
    ensures StringAt(AddedAll(s, strs).0, index) == StringAt(s, index)
    decreases |strs|
  {
    if strs != [] {
      AddedReadsBack(s, strs[0], index);
      KeptByAll(Added(s, strs[0]).0, strs[1..], index);
    }
  }

  /** add_string; the section must hold bytes and have room. */
  method AddString(section: SectionBuffer, str: Name) returns (currentPosition: word)
    requires section.Valid() && section.kind != SHT_NOBITS
    requires 0 !in str
    requires if section.size > 0 then section.HasRoom(|str| + 1)
             else section.HasRoom(1) && CapacityCovers(1, W(Grown(0, section.dataSize, 1)), |str| + 1)
    modifies section, section.data
    ensures section.Valid() && (fresh(section.data) || section.data == old(section.data))
    ensures (section.Contents(), currentPosition) == Added(old(section.Contents()), str)
  {
    currentPosition := section.size;
    ghost var moved;
    var ok;
    if currentPosition == 0 {
      ok, moved := section.AppendData([0]);
      currentPosition := currentPosition + 1;
    }
    ghost var base := section.Contents();
    assert base == if old(section.Contents()) == [] then [0] else old(section.Contents());
    ok, moved := section.AppendData(str + [0]);
    assert base + (str + [0]) == base + str + [0];
  }

  /** get_string: the offset is checked, and so is that a NUL ends the string inside the section. */
  method GetString(section: SectionBuffer, index: word) returns (r: Option<Name>)
    requires section.Valid()
    ensures r == StringAt(section.Contents(), index)
  {
    if index < section.size {
      var n := 0;
      ghost var s := section.Contents()[index..];
      while index + n < section.size && section.data[index + n] != 0
        invariant n <= |CString(s)| && index + n <= section.size
      {
        assert s[n] == section.data[index + n];
        n := n + 1;
      }
      assert n == |CString(s)| by {
        if n < |s| { assert s[n] == section.data[index + n]; }
      }
      assert section.data[index..index + n] == s[..n];
      if n < section.size - index { return Some(section.data[index..index + n]); }
    }
    r := None;
  }
}
