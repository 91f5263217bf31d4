/**
 * A file behind the platform calls.  Every call may fail; a write may be short, but makes
 * progress.  `Pread` returns all the bytes there are in its range; `PreadSome` may return fewer.
 */
module Files {
  import opened Bytes

  const MAX_FILE_SIZE: nat := 0x7FFF_FFFF_FFFF_FFFF

  function Zeros(n: nat): (s: seq<byte>)
    ensures |s| == n
  {
    seq(n, i => 0)
  }

  /** The bytes of `file` in `[from, to)`, as far as it reaches. */
  function Slice(file: seq<byte>, from: nat, to: nat): seq<byte>
    requires from <= to
  {
    if from >= |file| then [] else if to <= |file| then file[from..to] else file[from..]
  }

  /** The file after `data` reached it at `offset`; a gap behind the old end reads as zeros. */
  function Spliced(file: seq<byte>, offset: nat, data: seq<byte>): seq<byte> {
    if data == [] then file
    else
      var end := offset + |data|;
      (if offset <= |file| then file[..offset] else file + Zeros(offset - |file|))
      + data
      + (if end <= |file| then file[end..] else [])
  }

  lemma SplicedInside(file: seq<byte>, offset: nat, data: seq<byte>)
    requires offset <= |file|
    ensures |Spliced(file, offset, data)| == if offset + |data| <= |file| then |file| else offset + |data|
    ensures Spliced(file, offset, data)[..offset] == file[..offset]
    ensures Spliced(file, offset, data)[offset..offset + |data|] == data
    ensures Spliced(file, offset, data)[..offset + |data|] == file[..offset] + data
  {
  }

  /** A byte of the file after a write: from the data, from before, or from the gap. */
  lemma SplicedAt(file: seq<byte>, offset: nat, data: seq<byte>, i: nat)
    ensures data != [] ==>
      |Spliced(file, offset, data)| == if offset + |data| <= |file| then |file| else offset + |data|
    ensures i < |Spliced(file, offset, data)| ==>
      Spliced(file, offset, data)[i] ==
        if offset <= i < offset + |data| then data[i - offset] else if i < |file| then file[i] else 0
  {
  }

  /** A write finished in two pieces is the write. */
  lemma SplicedTwice(file: seq<byte>, offset: nat, a: seq<byte>, b: seq<byte>)
    ensures Spliced(Spliced(file, offset, a), offset + |a|, b) == Spliced(file, offset, a + b)
  {
    if a == [] {
      assert a + b == b;
    } else if b == [] {
      assert a + b == a;
    } else {
      hide Spliced;
      var once := Spliced(file, offset, a);
      var twice, whole := Spliced(once, offset + |a|, b), Spliced(file, offset, a + b);
      SplicedAt(file, offset, a, 0);
      SplicedAt(once, offset + |a|, b, 0);
      SplicedAt(file, offset, a + b, 0);
      forall i: nat | i < |whole|
        ensures twice[i] == whole[i]
      {
        SplicedAt(file, offset, a, i);
        SplicedAt(once, offset + |a|, b, i);
        SplicedAt(file, offset, a + b, i);
      }
    }
  }

  class File {
    var bytes: seq<byte>
    const reliable: bool   // no call on this file fails

    ghost predicate Valid()
      reads this
    {
      |bytes| <= MAX_FILE_SIZE
    }

    constructor (bytes: seq<byte>, reliable: bool)
      requires |bytes| <= MAX_FILE_SIZE
      ensures Valid() && this.bytes == bytes && this.reliable == reliable
    {
      this.bytes, this.reliable := bytes, reliable;
    }

    method Open() returns (r: int)
      ensures reliable ==> r == 0
    {
      var fails: bool := *;
      r := if fails && !reliable then -1 else 0;
    }

    method Size() returns (n: int)
      ensures n == -1 || n == |bytes|
      ensures reliable ==> n == |bytes|
    {
      var fails: bool := *;
      n := if fails && !reliable then -1 else |bytes|;
    }

    method Pread(count: nat, offset: nat) returns (n: int, data: seq<byte>)
      ensures n < 0 || (n == |data| && data == Slice(bytes, offset, offset + count))
      ensures reliable ==> n >= 0
    {
      var fails: bool := *;
      if fails && !reliable {
        n, data := -1, [];
      } else {
        data := Slice(bytes, offset, offset + count);
        n := |data|;
      }
    }

    method PreadSome(count: nat, offset: nat) returns (n: int, data: seq<byte>)
      ensures n < 0 || (0 <= n <= count && data == Slice(bytes, offset, offset + n) && n == |data|)
      ensures n == 0 && count > 0 ==> |bytes| <= offset
      ensures reliable ==> n >= 0
    {
      var fails: bool := *;
      if fails && !reliable {
        n, data := -1, [];
      } else {
        data := Slice(bytes, offset, offset + count);
        if data != [] {
          var m :| 0 < m <= |data|;
          data := data[..m];
        }
        n := |data|;
      }
    }

    method Pwrite(data: seq<byte>, offset: nat) returns (n: int)
      requires Valid() && data != []
      modifies this
      ensures Valid()
      ensures n < 0 ==> bytes == old(bytes)
      ensures n >= 0 ==> 0 < n <= |data| && bytes == Spliced(old(bytes), offset, data[..n])
      ensures reliable && offset + |data| <= MAX_FILE_SIZE ==> n > 0
    {
      var fails: bool := *;
      var m :| 0 < m <= |data|;
      if (fails && !reliable) || offset + m > MAX_FILE_SIZE {
        n := -1;
      } else {
        n := m;
        bytes := Spliced(bytes, offset, data[..m]);
      }
    }

    method Fsync() returns (r: int)
      ensures reliable ==> r == 0
    {
      var fails: bool := *;
      r := if fails && !reliable then -1 else 0;
    }

    method Ftruncate(size: nat) returns (r: int)
      requires Valid() && size <= |bytes|
      modifies this
      ensures Valid()
      ensures bytes == if r == 0 then old(bytes)[..size] else old(bytes)
      ensures reliable ==> r == 0
    {
      var fails: bool := *;
      if fails && !reliable {
        r := -1;
      } else {
        bytes := bytes[..size];
        r := 0;
      }
    }
  }
}
