/** The in-memory reader of types/bytes_seeker.go. */
module BytesReader {
  import opened Wrappers
  import opened Text

  datatype SeekError = InvalidWhence | NegativePosition

  const SEEK_START := 0
  const SEEK_CURRENT := 1
  const SEEK_END := 2

  /** Where a seek lands: relative to start, position or end, refused below 0, clamped at the end. */
  function SeekTarget(pos: int, len: nat, offset: int, whence: int): Result<int, SeekError> {
    var target :=
      if whence == SEEK_START then Some(offset)
      else if whence == SEEK_CURRENT then Some(pos + offset)
      else if whence == SEEK_END then Some(len + offset)
      else None;
    if target.None? then Err(InvalidWhence)
    else if target.value < 0 then Err(NegativePosition)
    else if target.value > len then Ok(len)
    else Ok(target.value)
  }

  /**
   * 0, 1 and 2 count from the start, the position and the end; below the start is refused, beyond the
   * end is the end.
   */
  lemma {:induction false} SeekLands(pos: int, len: nat, offset: int, whence: int)
    ensures whence !in {0, 1, 2} ==> SeekTarget(pos, len, offset, whence) == Err(InvalidWhence)
    ensures whence in {0, 1, 2} ==>
              var target := (if whence == 0 then 0 else if whence == 1 then pos else len) + offset;
              && (target < 0 ==> SeekTarget(pos, len, offset, whence) == Err(NegativePosition))
              && (0 <= target <= len ==> SeekTarget(pos, len, offset, whence) == Ok(target))
              && (target > len ==> SeekTarget(pos, len, offset, whence) == Ok(len))
  {
  }

  class BytesSeeker {
    var data: Bytes
    var pos: int

    ghost predicate Valid()
      reads this
    {
      0 <= pos <= |data|
    }

    /** The bytes that reads still return. */
    function Unread(): Bytes
      requires Valid()
      reads this
    {
      data[pos..]
    }

    constructor (data: Bytes)
      ensures Valid() && this.data == data && Unread() == data
    {
      this.data := data;
      this.pos := 0;
    }

    method Write(p: Bytes) returns (n: nat)
      requires Valid()
      modifies this`data
      ensures Valid() && n == |p|
      ensures data == old(data) + p && Unread() == old(Unread()) + p
    {
      data := data + p;
      return |p|;
    }

    /** Fills the buffer as far as the unread bytes go; zero bytes only at the end. */
    method Read(p: array<Byte>) returns (n: nat, eof: bool)
      requires Valid()
      modifies this`pos, p
      ensures Valid() && n <= p.Length && n <= |old(Unread())|
      ensures n == p.Length || n == |old(Unread())|
      ensures p[..n] + Unread() == old(Unread())
      ensures p[n..] == old(p[..])[n..]
      ensures eof <==> old(Unread()) == []
    {
      if pos >= |data| {
        return 0, true;
      }
      n := if p.Length <= |data| - pos then p.Length else |data| - pos;
      forall i | 0 <= i < n {
        p[i] := data[pos + i];
      }
      assert p[..n] == data[pos..pos + n];
      pos := pos + n;
      return n, false;
    }

    method Seek(offset: int, whence: int) returns (r: Result<int, SeekError>)
      requires Valid()
      modifies this`pos
      ensures Valid()
      ensures r == SeekTarget(old(pos), |data|, offset, whence)
      ensures pos == if r.Ok? then r.value else old(pos)
    {
      var newPos;
      if whence == SEEK_START {
        newPos := offset;
      } else if whence == SEEK_CURRENT {
        newPos := pos + offset;
      } else if whence == SEEK_END {
        newPos := |data| + offset;
      } else {
        return Err(InvalidWhence);
      }
      if newPos < 0 {
        return Err(NegativePosition);
      }
      if newPos > |data| {
        newPos := |data|;
      }
      pos := newPos;
      return Ok(newPos);
    }
  }
}
