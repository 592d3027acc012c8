/** The vector of object pointers behind the imap cache: `len` of `size` slots are in use. */
module Vec {
  const VEC_DEFAULT_SIZE: nat := 8
  const VEC_MAX_SZ: nat := 512

  class Vector {
    var size: nat
    var len: nat
    var data: array<nat>

    ghost predicate Valid()
      reads this, data
    {
      len <= size == data.Length
    }

    ghost function Contents(): seq<nat>
      requires Valid()
      reads this, data
    {
      data[..len]
    }

    /** vec_new */
    constructor (sz: nat)
      ensures Valid() && fresh(data) && size == sz && len == 0 && Contents() == []
    {
      size, len := sz, 0;
      data := new nat[sz];
    }

    /** vec_append: the caller knows that there is room. */
    method Append(x: nat)
      requires Valid() && len < size
      modifies this`len, data
      ensures Valid() && Contents() == old(Contents()) + [x]
    {
      data[len] := x;
      len := len + 1;
    }

    /** vec_append_safe: more room is made first when the vector is full. */
    method AppendSafe(x: nat)
      requires Valid()
      modifies this, data
      ensures Valid() && Contents() == old(Contents()) + [x]
      ensures data == old(data) || fresh(data)
      ensures old(len) == old(size) ==> size == old(size) + Extra(old(size))
    {
      if len == size {
        var sz := size;
        size := if sz >= VEC_DEFAULT_SIZE then (if sz <= VEC_MAX_SZ then sz * 2 else sz + VEC_MAX_SZ)
                else VEC_DEFAULT_SIZE;
        var tmp := new nat[size];
        forall i | 0 <= i < len {
          tmp[i] := data[i];
        }
        data := tmp;
        assert data[..len] == old(data[..len]);
      }
      Append(x);
    }

    static function Extra(sz: nat): (e: nat)
      ensures e > 0
    {
      if sz >= VEC_DEFAULT_SIZE then (if sz <= VEC_MAX_SZ then sz else VEC_MAX_SZ) else VEC_DEFAULT_SIZE - sz
    }

    /** vec_copy */
    method Copy() returns (v: Vector)
      requires Valid()
      ensures fresh(v) && fresh(v.data) && v.Valid() && v.Contents() == Contents() && v.size == size
    {
      v := new Vector(size);
      v.len := len;
      forall i | 0 <= i < len {
        v.data[i] := data[i];
      }
      assert v.data[..len] == data[..len];
    }
  }
}
