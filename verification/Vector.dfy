/** The growable array that directories and files are made of. */
module Vector {

  predicate IsPowerOfTwo(n: nat) {
    n == 1 || (n > 1 && n % 2 == 0 && IsPowerOfTwo(n / 2))
  }

  class Vector<T(0)> {
    var data: array<T>        // its length is m_capacity
    var size: nat             // m_size
    const zero: T             // the element whose bytes are all zero
    ghost var peak: nat       // the largest size so far
    ghost var copied: nat     // elements copied by all reallocations so far

    /**
     Capacity is 0 or a power of two of at least 2 and at most twice the peak size n, and all
     reallocations together have copied at most 2n - 2 elements.
     */
    ghost predicate Valid()
      reads this
    {
      && size <= data.Length && size <= peak
      && if data.Length == 0 then copied == 0
         else data.Length >= 2 && IsPowerOfTwo(data.Length) && copied + 2 <= data.Length <= 2 * peak
    }

    ghost function Contents(): seq<T>
      requires size <= data.Length
      reads this, data
    {
      data[..size]
    }

    constructor (zeroElement: T)
      ensures Valid() && fresh(data) && Contents() == [] && zero == zeroElement && peak == 0
    {
      data := new T[0];
      size, zero, peak, copied := 0, zeroElement, 0, 0;
    }

    /** What growing by one reallocation keeps, whatever size is aimed at. */
    ghost predicate Growing()
      reads this
    {
      && size <= data.Length
      && if data.Length == 0 then copied == 0
         else data.Length >= 2 && IsPowerOfTwo(data.Length) && copied + 2 <= data.Length
    }

    /** `reallocate(m_capacity == 0 ? 2 : m_capacity * 2)` */
    method Grow()
      requires Growing()
      modifies this`data, this`copied
      ensures Growing() && fresh(data) && Contents() == old(Contents())
      ensures data.Length == if old(data.Length) == 0 then 2 else 2 * old(data.Length)
      ensures copied == old(copied) + size
    {
      var newCapacity := if data.Length == 0 then 2 else data.Length * 2;
      var newData := new T[newCapacity];
      var i := 0;
      while i < size
        invariant 0 <= i <= size && size == old(size) && data == old(data) && copied == old(copied) && fresh(newData)
        invariant newData[..i] == data[..i]
        invariant data[..] == old(data[..])
      {
        newData[i] := data[i];
        i := i + 1;
      }
      assert newCapacity / 2 == if data.Length == 0 then 1 else data.Length;
      copied := copied + size;
      data := newData;
    }

    method PushBack(value: T)
      requires Valid()
      modifies this, data
      ensures Valid() && (data == old(data) || fresh(data))
      ensures Contents() == old(Contents()) + [value]
      ensures if old(size) < old(data.Length) then data == old(data) && copied == old(copied)
              else data.Length == (if old(size) == 0 then 2 else 2 * old(size)) && copied == old(copied) + old(size)
      ensures peak == if old(peak) <= old(size) then old(size) + 1 else old(peak)
    {
      if size >= data.Length {
        Grow();
      }
      data[size] := value;
      size := size + 1;
      if peak < size {
        peak := size;
      }
    }

    method PopBack()
      requires Valid()
      modifies this`size
      ensures Valid()
      ensures Contents() == if old(size) == 0 then [] else old(Contents())[..old(size) - 1]
    {
      if size > 0 {
        size := size - 1;
      }
    }

    method Resize(newSize: nat)
      requires Valid()
      modifies this, data
      ensures Valid() && (data == old(data) || fresh(data))
      ensures size == if old(size) >= newSize then old(size) else newSize
      ensures Contents() == old(Contents()) + seq(size - old(size), _ => zero)
      ensures newSize <= old(data.Length) ==> data == old(data)
      ensures newSize > old(data.Length) ==> newSize <= data.Length && (data.Length < 2 * newSize || data.Length == 2)
      ensures peak == if old(peak) < size then size else old(peak)
    {
      if size >= newSize {
        return;
      }
      while data.Length < newSize
        invariant Growing() && (data == old(data) || fresh(data))
        invariant size == old(size) && peak == old(peak) && Contents() == old(Contents())
        invariant data.Length <= 2 * peak || data.Length <= 2 * newSize
        invariant data == old(data) || (old(data.Length) < newSize && (data.Length < 2 * newSize || data.Length == 2))
        decreases newSize - data.Length
      {
        Grow();
      }
      forall k | size <= k < newSize {
        data[k] := zero;
      }
      size := newSize;
      if peak < size {
        peak := size;
      }
    }
  }
}
