/** The carry-over buffer that the HTTP pump and the TCP socket share: a fixed array, a fill
    count, and the "append at the end, move the rest down" discipline of
    `buffer_`/`len_` (httpbase.cc) and `inbuf_`/`inpos_`, `outbuf_`/`outpos_` (asynctcpsocket.cc). */
module CarryBuffers {

  class CarryBuffer<T(0)> {
    const data: array<T>
    var len: nat

    ghost predicate Valid()
      reads this
    {
      len <= data.Length
    }

    function Contents(): (s: seq<T>)
      requires Valid()
      reads this, data
    {
      data[..len]
    }

    constructor (capacity: nat)
      ensures Valid() && fresh(data) && data.Length == capacity && Contents() == []
    {
      data := new T[capacity];
      len := 0;
    }

    method Clear()
      modifies this
      ensures Valid() && Contents() == []
    {
      len := 0;
    }

    method Append(s: seq<T>)
      requires Valid() && len + |s| <= data.Length
      modifies this, data
      ensures Valid() && Contents() == old(Contents()) + s
    {
      for i := 0 to |s|
        invariant len == old(len)
        invariant data[..len] == old(data[..len])
        invariant data[len..len + i] == s[..i]
      {
        data[len + i] := s[i];
      }
      len := len + |s|;
    }

    /** Drops the first `n` elements: the `memmove` after a partial read or write. */
    method Shift(n: nat)
      requires Valid() && n <= len
      modifies this, data
      ensures Valid() && Contents() == old(Contents())[n..]
    {
      var rest := len - n;
      for i := 0 to rest
        invariant len == old(len)
        invariant forall j :: 0 <= j < i ==> data[j] == old(data[n + j])
        invariant forall j :: i <= j < data.Length ==> data[j] == old(data[j])
      {
        data[i] := data[n + i];
      }
      len := rest;
    }
  }
}
