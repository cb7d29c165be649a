/**
 Go slices: a window of a backing array that `append` writes into in place as
 long as there is spare capacity, so that slices can come to share elements.
 */
module GoSlice {
  /** `len` elements of the backing array from `off` on, with room for `cap`. */
  datatype Slice<T> = Slice(data: array<T>, off: nat, len: nat, cap: nat)

  ghost predicate Valid<T>(s: Slice<T>) {
    s.len <= s.cap && s.off + s.cap <= s.data.Length
  }

  /** The elements a holder of the slice can see. */
  ghost function View<T>(s: Slice<T>): seq<T>
    requires Valid(s)
    reads s.data
  {
    s.data[s.off..s.off + s.len]
  }

  method Nil<T(0)>() returns (s: Slice<T>)
    ensures Valid(s) && View(s) == [] && fresh(s.data)
  {
    var data := new T[0];
    s := Slice(data, 0, 0, 0);
  }

  /** `append(s, x)`; how far a full slice grows is Go's choice. */
  method Append<T(0)>(s: Slice<T>, x: T) returns (r: Slice<T>)
    requires Valid(s)
    modifies s.data
    ensures Valid(r) && View(r) == old(View(s)) + [x]
    ensures View(s) == old(View(s))
    ensures s.len < s.cap ==>
              r == s.(len := s.len + 1) && s.data[..] == old(s.data[..])[s.off + s.len := x]
    ensures s.len == s.cap ==> fresh(r.data) && s.data[..] == old(s.data[..])
  {
    if s.len < s.cap {
      s.data[s.off + s.len] := x;
      r := s.(len := s.len + 1);
    } else {
      var growth: nat :| growth >= 0;
      var data := new T[s.len + 1 + growth];
      forall i | 0 <= i < s.len {
        data[i] := s.data[s.off + i];
      }
      data[s.len] := x;
      r := Slice(data, 0, s.len + 1, data.Length);
    }
  }

  /** Two slices grown from one base both stay right exactly when they hold the same element or share nothing. */
  method AppendTwice<T(0,==)>(base: Slice<T>, x: T, y: T) returns (r: Slice<T>, s: Slice<T>)
    requires Valid(base)
    modifies base.data
    ensures Valid(r) && Valid(s) && View(base) == old(View(base))
    ensures View(s) == old(View(base)) + [y]
    ensures View(r) == old(View(base)) + [x] <==> x == y || base.len == base.cap
  {
    r := Append(base, x);
    assert View(r)[base.len] == x;
    s := Append(base, y);
    if base.len < base.cap {
      assert View(r)[base.len] == y;
      assert (old(View(base)) + [x])[base.len] == x;
      assert View(r) == old(View(base)) + [y];
    }
  }
}
