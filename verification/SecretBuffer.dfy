/** The buffer for serialized secrets, which doubles when it is full. */
module SecretBuffer {

  const INITIAL := 32

  function Power(k: nat): (p: nat)
    ensures p > 0
  {
    if k == 0 then 1 else 2 * Power(k - 1)
  }

  class SecretStringBuffer {
    var data: array<char>
    var size: nat
    /** How many characters reallocations have copied so far. */
    ghost var copied: nat

    ghost predicate Valid()
      reads this
    {
      size <= data.Length && 0 < data.Length
    }

    function Contents(): (r: string)
      requires Valid()
      reads this, data
    {
      data[..size]
    }

    constructor ()
      ensures Valid() && fresh(data) && Contents() == [] && data.Length == INITIAL && copied == 0
    {
      data := new char[INITIAL];
      size, copied := 0, 0;
    }

    /** Grows to just what is asked for, never shrinks, keeps the contents. */
    method Reserve(count: nat)
      requires Valid()
      modifies this
      ensures Valid() && Contents() == old(Contents()) && size == old(size)
      ensures if count > old(data.Length) then fresh(data) && data.Length == count && copied == old(copied) + size
              else data == old(data) && copied == old(copied)
    {
      if count > data.Length {
        var newData := new char[count];
        for i := 0 to size
          invariant newData[..i] == data[..i]
          modifies newData
        {
          newData[i] := data[i];
        }
        copied := copied + size;
        data := newData;
      }
    }

    method Put(c: char)
      requires Valid()
      modifies this, data
      ensures Valid() && Contents() == old(Contents()) + [c] && size == old(size) + 1
      ensures data == old(data) || fresh(data)
      ensures if old(size) < old(data.Length) then data == old(data) && copied == old(copied)
              else data.Length == 2 * old(data.Length) && copied == old(copied) + old(size)
    {
      if size == data.Length {
        Reserve(2 * size);
      }
      data[size] := c;
      size := size + 1;
    }

    /** Room for `count` characters which the caller is to write. */
    method Push(count: nat) returns (start: nat)
      requires Valid()
      modifies this
      ensures Valid() && start == old(size) && size == old(size) + count
      ensures Contents()[..start] == old(Contents()) && (data == old(data) || fresh(data))
    {
      Reserve(size + count);
      start := size;
      ghost var before := Contents();
      size := size + count;
      assert Contents()[..start] == before;
    }

    method Pop(count: nat)
      requires Valid() && count <= size
      modifies this
      ensures Valid() && data == old(data) && Contents() == old(Contents()[..size - count])
    {
      size := size - count;
    }

    method Clear()
      modifies this
      ensures Valid() && fresh(data) && Contents() == [] && data.Length == INITIAL && copied == old(copied)
    {
      data := new char[INITIAL];
      size := 0;
    }
  }

  /** What every run of Put calls keeps: after k doublings 32 * (2^k - 1) characters have
      been copied, and more than half of the buffer is in use. */
  ghost predicate Doubled(size: nat, capacity: nat, copied: nat, k: nat) {
    capacity == INITIAL * Power(k) && copied == capacity - INITIAL && (k > 0 ==> 2 * size > capacity)
  }

  lemma PutKeepsDoubled(size: nat, capacity: nat, copied: nat, k: nat)
    requires Doubled(size, capacity, copied, k) && size <= capacity
    ensures if size < capacity then Doubled(size + 1, capacity, copied, k)
            else Doubled(size + 1, 2 * capacity, copied + size, k + 1)
  {
  }

  /** Writing a text into a new buffer copies at most twice its length, over all
      reallocations together. */
  method WriteAll(text: string) returns (buffer: SecretStringBuffer)
    ensures fresh(buffer) && buffer.Valid() && buffer.Contents() == text
    ensures buffer.copied <= 2 * |text| && exists k: nat :: buffer.data.Length == INITIAL * Power(k)
  {
    buffer := new SecretStringBuffer();
    ghost var k: nat := 0;
    for n := 0 to |text|
      invariant fresh(buffer) && buffer.Valid() && fresh(buffer.data) && buffer.Contents() == text[..n]
                && buffer.size == n
      invariant Doubled(n, buffer.data.Length, buffer.copied, k)
    {
      PutKeepsDoubled(n, buffer.data.Length, buffer.copied, k);
      if n == buffer.data.Length {
        k := k + 1;
      }
      buffer.Put(text[n]);
    }
    assert text[..|text|] == text;
  }
}
