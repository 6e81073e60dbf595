/**
 * The growable output buffer (`marker_buffer_t`, marker.h:48-52; marker.c:101-180).
 *
 * The character store is an array whose length is the buffer's capacity. The
 * logical contents are `data[..size]`, always followed by a NUL terminator, so
 * `size < capacity` holds at all times. Capacity starts at the requested value
 * (4096 when 0 is requested) and only ever grows by doubling.
 */
module OutputBuffer {
  import opened Options
  import Configuration

  /** `c` doubled `k` times. */
  function Doubled(c: nat, k: nat): (r: nat)
    ensures r >= c
  {
    if k == 0 then c else 2 * Doubled(c, k - 1)
  }

  class Buffer {
    var data: array<char>
    var size: nat
    /** The capacity the buffer was created with. */
    ghost const initialCapacity: nat
    /** How many times the capacity has been doubled since creation. */
    ghost var doublings: nat
    ghost var Repr: set<object>

    ghost predicate Valid()
      reads this, Repr
    {
      && Repr == {this, data}
      && 0 < initialCapacity
      && data.Length == Doubled(initialCapacity, doublings)
      && size < data.Length
      && data[size] == '\0'
    }

    function Capacity(): nat
      reads this
    {
      data.Length
    }

    /** The text accumulated so far, without its terminator. */
    function Contents(): seq<char>
      reads this, Repr
      requires Valid()
    {
      data[..size]
    }

    /** `marker_buffer_new` (marker.c:102-121), with allocation assumed to succeed. */
    constructor (initialCapacity: nat)
      ensures Valid() && fresh(Repr)
      ensures Contents() == []
      ensures Capacity() == (if initialCapacity == 0 then Configuration.DefaultBufferSize else initialCapacity)
      ensures this.initialCapacity == Capacity() && doublings == 0
    {
      var cap := if initialCapacity == 0 then Configuration.DefaultBufferSize else initialCapacity;
      var a := new char[cap];
      a[0] := '\0';
      data := a;
      size := 0;
      this.initialCapacity := cap;
      doublings := 0;
      Repr := {this, a};
    }

    /**
     * `buffer_ensure_capacity` (marker.c:136-155): keeps the capacity when it
     * already suffices, and otherwise doubles it until it reaches `needed`,
     * keeping the contents.
     */
    method EnsureCapacity(needed: nat)
      requires Valid()
      modifies Repr
      ensures Valid() && fresh(Repr - old(Repr))
      ensures Contents() == old(Contents())
      ensures Capacity() >= needed && Capacity() >= old(Capacity())
      ensures old(Capacity()) >= needed ==> Capacity() == old(Capacity())
      ensures old(Capacity()) < needed ==> Capacity() < 2 * needed
      ensures doublings >= old(doublings)
    {
      if data.Length >= needed {
        return;
      }
      var newCapacity := data.Length;
      ghost var k: nat := 0;
      while newCapacity < needed
        invariant newCapacity == Doubled(initialCapacity, doublings + k)
        invariant newCapacity >= data.Length
        invariant k > 0 ==> newCapacity < 2 * needed
        decreases needed - newCapacity
      {
        newCapacity := newCapacity * 2;
        k := k + 1;
      }
      var newData := new char[newCapacity];
      forall i | 0 <= i < data.Length {
        newData[i] := data[i];
      }
      data := newData;
      doublings := doublings + k;
      Repr := {this, newData};
    }

    /**
     * `buffer_append` (marker.c:157-172), which `buffer_append_str` and
     * `buffer_append_char` call with a whole string or a single character:
     * the new contents are the old ones followed by `text`. Appending nothing
     * changes nothing.
     */
    method Append(text: seq<char>)
      requires Valid()
      modifies Repr
      ensures Valid() && fresh(Repr - old(Repr))
      ensures Contents() == old(Contents()) + text
      ensures Capacity() >= old(Capacity()) && doublings >= old(doublings)
      ensures text == [] ==> Capacity() == old(Capacity()) && data == old(data)
    {
      if |text| == 0 {
        return;
      }
      EnsureCapacity(size + |text| + 1);
      forall i | 0 <= i < |text| {
        data[size + i] := text[i];
      }
      size := size + |text|;
      data[size] := '\0';
    }
  }

  /** `marker_buffer_size`: the length without the terminator, 0 for a NULL buffer. */
  function BufferSize(b: Buffer?): (n: nat)
    reads b, if b != null then b.Repr else {}
    requires b != null ==> b.Valid()
    ensures b == null ==> n == 0
    ensures b != null ==> n == |b.Contents()|
  {
    if b == null then 0 else b.size
  }

  /** `marker_buffer_data`: the NUL-terminated text, or NULL for a NULL buffer. */
  function BufferData(b: Buffer?): (r: Option<seq<char>>)
    reads b, if b != null then b.Repr else {}
    requires b != null ==> b.Valid()
    ensures b == null <==> r.None?
    ensures b != null ==> r.value == b.Contents() + ['\0']
  {
    if b == null then None else Some(b.data[..b.size + 1])
  }
}
