/**
 * `std::io::Cursor` over a byte vector, as the codec and the credential
 * reader use it: a buffer and a position. Reads take bytes from the
 * position onwards; writes overwrite from the position and extend the
 * buffer past its end.
 */
module Io {
  import opened Ints
  import opened Wrappers
  import opened Errors

  /** The buffer after writing `bytes` at `pos`: overwritten there, extended past the end. */
  function Overwrite(data: seq<Byte>, pos: nat, bytes: seq<Byte>): (r: seq<Byte>)
    requires pos <= |data|
    ensures |r| == if pos + |bytes| < |data| then |data| else pos + |bytes|
    ensures r[..pos] == data[..pos] && r[pos..pos + |bytes|] == bytes
    ensures pos + |bytes| < |data| ==> r[pos + |bytes|..] == data[pos + |bytes|..]
  {
    data[..pos] + bytes + (if pos + |bytes| < |data| then data[pos + |bytes|..] else [])
  }

  /** Writing at the end of the buffer appends. */
  lemma OverwriteAtEnd(data: seq<Byte>, bytes: seq<Byte>)
    ensures Overwrite(data, |data|, bytes) == data + bytes
  {
    assert data[..|data|] == data;
  }

  /** The first `n` chunks of `cs`, one after another. */
  function Concat(cs: seq<seq<Byte>>, n: nat): seq<Byte>
    requires n <= |cs|
  {
    if n == 0 then [] else Concat(cs, n - 1) + cs[n - 1]
  }

  /** All of `cs`, one chunk after another. */
  function Join(cs: seq<seq<Byte>>): seq<Byte>
  {
    if cs == [] then [] else cs[0] + Join(cs[1..])
  }

  lemma {:induction false} JoinSnoc(cs: seq<seq<Byte>>, c: seq<Byte>)
    ensures Join(cs + [c]) == Join(cs) + c
  {
    if cs != [] {
      assert (cs + [c])[1..] == cs[1..] + [c];
      JoinSnoc(cs[1..], c);
    }
  }

  lemma {:induction false} ConcatIsJoin(cs: seq<seq<Byte>>, n: nat)
    requires n <= |cs|
    ensures Concat(cs, n) == Join(cs[..n])
  {
    if n > 0 {
      ConcatIsJoin(cs, n - 1);
      assert cs[..n] == cs[..n - 1] + [cs[n - 1]];
      JoinSnoc(cs[..n - 1], cs[n - 1]);
    }
  }

  class Cursor {
    var data: seq<Byte>
    var pos: nat

    ghost predicate Valid()
      reads this
    {
      pos <= |data|
    }

    constructor (data: seq<Byte>)
      ensures Valid() && this.data == data && pos == 0
    {
      this.data := data;
      pos := 0;
    }

    /** The bytes not yet read. */
    function Remaining(): seq<Byte>
      reads this
      requires Valid()
    {
      data[pos..]
    }

    /** `read_u8`: the next byte, or `UnexpectedEof` at the end. */
    method ReadU8() returns (r: Result<Byte, ErrorKind>)
      requires Valid()
      modifies this`pos
      ensures Valid()
      ensures old(pos) < |data| ==> r == Ok(data[old(pos)]) && pos == old(pos) + 1
      ensures old(pos) == |data| ==> r == Err(UnexpectedEof) && pos == old(pos)
    {
      if pos < |data| {
        r := Ok(data[pos]);
        pos := pos + 1;
      } else {
        r := Err(UnexpectedEof);
      }
    }

    /** `read_exact` into a buffer of `n` bytes; when fewer remain, nothing is consumed. */
    method ReadExact(n: nat) returns (r: Result<seq<Byte>, ErrorKind>)
      requires Valid()
      modifies this`pos
      ensures Valid()
      ensures old(pos) + n <= |data| ==> r == Ok(data[old(pos)..old(pos) + n]) && pos == old(pos) + n
      ensures old(pos) + n > |data| ==> r == Err(UnexpectedEof) && pos == old(pos)
    {
      if pos + n <= |data| {
        r := Ok(data[pos..pos + n]);
        pos := pos + n;
      } else {
        r := Err(UnexpectedEof);
      }
    }

    /** `read_u32::<LittleEndian>`: four bytes, least significant first. */
    method ReadU32Le() returns (r: Result<U32, ErrorKind>)
      requires Valid()
      modifies this`pos
      ensures Valid()
      ensures old(pos) + 4 <= |data| ==> r == Ok(LeToU32(data[old(pos)..])) && pos == old(pos) + 4
      ensures old(pos) + 4 > |data| ==> r == Err(UnexpectedEof)
    {
      var bytes :- ReadExact(4);
      r := Ok(LeToU32(bytes));
    }

    /** `write_all`: overwrite from the position, growing the buffer as needed. */
    method WriteAll(bytes: seq<Byte>)
      requires Valid()
      modifies this
      ensures Valid() && pos == old(pos) + |bytes|
      ensures data == Overwrite(old(data), old(pos), bytes)
      ensures old(pos) == |old(data)| ==> data == old(data) + bytes
    {
      OverwriteAtEnd(data, bytes);
      data := Overwrite(data, pos, bytes);
      pos := pos + |bytes|;
    }

    /** A sequence of `write_all` calls at the end of the buffer. */
    method WriteChunks(cs: seq<seq<Byte>>)
      requires Valid() && pos == |data|
      modifies this
      ensures Valid() && data == old(data) + Join(cs) && pos == |data|
    {
      ghost var start := data;
      var i := 0;
      while i < |cs|
        invariant 0 <= i <= |cs|
        invariant Valid() && pos == |data|
        invariant data == start + Concat(cs, i)
      {
        WriteAll(cs[i]);
        i := i + 1;
      }
      ConcatIsJoin(cs, |cs|);
      assert cs[..|cs|] == cs;
    }

    /** `write_u8`. */
    method WriteU8(b: Byte)
      requires Valid()
      modifies this
      ensures Valid() && pos == old(pos) + 1
      ensures data == Overwrite(old(data), old(pos), [b])
      ensures old(pos) == |old(data)| ==> data == old(data) + [b]
    {
      WriteAll([b]);
    }

    /** `write_u32::<LittleEndian>`. */
    method WriteU32Le(n: U32)
      requires Valid()
      modifies this
      ensures Valid() && pos == old(pos) + 4
      ensures data == Overwrite(old(data), old(pos), U32ToLe(n))
      ensures old(pos) == |old(data)| ==> data == old(data) + U32ToLe(n)
    {
      WriteAll(U32ToLe(n));
    }

    /** `set_position`, within the buffer. */
    method SetPosition(p: nat)
      requires Valid() && p <= |data|
      modifies this`pos
      ensures Valid() && pos == p
    {
      pos := p;
    }
  }
}
