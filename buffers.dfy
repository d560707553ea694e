/** `FArray_t`, the growable length-prefixed buffer of src/include/helper.h
    and its older revision in helper.h.  The buffer is modelled by the
    items it holds (the first `_num` cells) and its capacity `_bnum`: cells
    past `_num` are never read by any operation, so their stale contents are
    not part of the state.  A binary stream is a sequence of cells, the
    size prefix followed by the items. */
module Buffers {
  import opened Wrappers

  /** One field of a binary stream: the `size_t` size prefix or one item. */
  datatype Cell<T> = Count(n: nat) | Item(x: T)

  /** What `write` emits: the size, then exactly that many items. */
  function Encode<T>(xs: seq<T>): (s: seq<Cell<T>>)
    ensures |s| == |xs| + 1 && s[0] == Count(|xs|)
    ensures forall i :: 0 <= i < |xs| ==> s[i + 1] == Item(xs[i])
  {
    [Count(|xs|)] + seq(|xs|, i requires 0 <= i < |xs| => Item(xs[i]))
  }

  /** What `read` takes from a stream: the size prefix and that many items,
      with the rest of the stream; `None` when the stream does not start
      with a size followed by at least that many items. */
  function Decode<T>(s: seq<Cell<T>>): (r: Option<(seq<T>, seq<Cell<T>>)>)
    ensures r.Some? <==> |s| > 0 && s[0].Count? && s[0].n < |s| && forall i :: 1 <= i <= s[0].n ==> s[i].Item?
    ensures r.Some? ==> |r.value.0| == s[0].n && r.value.1 == s[s[0].n + 1..]
    ensures r.Some? ==> forall i :: 0 <= i < |r.value.0| ==> s[i + 1] == Item(r.value.0[i])
  {
    if |s| > 0 && s[0].Count? && s[0].n < |s| && forall i :: 1 <= i <= s[0].n ==> s[i].Item? then
      var n := s[0].n;
      Some((seq(n, i requires 0 <= i < n => s[i + 1].x), s[n + 1..]))
    else
      None
  }

  /** Read-after-write restores the items and leaves the rest of the
      stream (src/include/helper.h:157-175, helper.h:129-144). */
  lemma DecodeInvertsEncode<T>(xs: seq<T>, tail: seq<Cell<T>>)
    ensures Decode(Encode(xs) + tail) == Some((xs, tail))
  {
    var s := Encode(xs) + tail;
    assert s[0] == Count(|xs|);
    assert forall i :: 1 <= i <= |xs| ==> s[i] == Item(xs[i - 1]);
    var r := Decode(s);
    assert r.Some?;
    assert r.value.0 == xs;
    assert s[|xs| + 1..] == tail;
  }

  /** The capacity after a push at full size: the current revision grows by
      `extend_num` (src/include/helper.h:135-140, 183-190). */
  function GrownCapacity(size: nat, cap: nat, extendNum: nat): (c: nat)
    ensures size < cap ==> c == cap
    ensures size == cap ==> c == cap + extendNum
  {
    if size == cap then cap + extendNum else cap
  }

  /** `FArray_t` of src/include/helper.h. */
  class FArray<T> {
    var items: seq<T>
    var cap: nat
    var extendNum: nat
    /** `_l` holds whatever the memory held: it was never assigned. */
    var wild: bool

    /** Every item lies inside the allocated buffer, pushing at full size
        makes room for at least one more item, and the buffer pointer was
        assigned. */
    predicate Valid()
      reads this
    {
      |items| <= cap && extendNum > 0 && !wild
    }

    /** `FArray_t(extend_num)`: empty, with no buffer. */
    constructor(extendNum: nat)
      requires extendNum > 0
      ensures Valid() && items == [] && cap == 0 && this.extendNum == extendNum
    {
      items := [];
      cap := 0;
      this.extendNum := extendNum;
      wild := false;
    }

    /** `FArray_t()`: the default growth step, 16 (src/include/helper.h:97). */
    constructor Default()
      ensures Valid() && items == [] && cap == 0 && extendNum == 16
    {
      items := [];
      cap := 0;
      extendNum := 16;
      wild := false;
    }

    /** The copy constructor as written: same capacity, size and items, but
        `_l` is assigned only when the capacity is positive, so a copy of a
        buffer that never allocated keeps an unassigned pointer
        (src/include/helper.h:104-113). */
    constructor CopyAsWritten(o: FArray<T>)
      requires o.Valid()
      ensures items == o.items && cap == o.cap && extendNum == o.extendNum
      ensures wild <==> o.cap == 0
    {
      items := o.items;
      cap := o.cap;
      extendNum := o.extendNum;
      wild := o.cap == 0;
    }

    /** The copy constructor as evidently intended: an empty copy has no
        buffer, like a new object. */
    constructor Copy(o: FArray<T>)
      requires o.Valid()
      ensures Valid() && items == o.items && cap == o.cap && extendNum == o.extendNum
    {
      items := o.items;
      cap := o.cap;
      extendNum := o.extendNum;
      wild := false;
    }

    /** `_release`, run by the destructor: frees `_l` when it is not null and
        leaves the object empty.  Returns whether the pointer freed was one
        that was never assigned (src/include/helper.h:192-197). */
    method Release() returns (freedWild: bool)
      modifies this
      ensures freedWild <==> old(wild)
      ensures items == [] && cap == 0 && !wild && extendNum == old(extendNum)
    {
      freedWild := wild;
      items := [];
      cap := 0;
      wild := false;
    }

    /** `size()`. */
    function Size(): nat
      reads this
    {
      |items|
    }

    /** `operator=`: takes the other buffer's size, items and growth step,
        and reallocates only when its own capacity is the smaller one. */
    method Assign(o: FArray<T>)
      requires Valid() && o.Valid()
      modifies this
      ensures Valid() && items == old(o.items) && extendNum == old(o.extendNum)
      ensures cap == if old(cap) < old(o.cap) then old(o.cap) else old(cap)
    {
      var oItems, oCap := o.items, o.cap;
      extendNum := o.extendNum;
      items := oItems;
      if cap < oCap {
        cap := oCap;
      }
    }

    /** `push_back`: grows the buffer when it is full, stores the item at
        the old size; the earlier items are unchanged. */
    method PushBack(x: T)
      requires Valid()
      modifies this
      ensures Valid() && items == old(items) + [x] && extendNum == old(extendNum)
      ensures cap == GrownCapacity(old(|items|), old(cap), extendNum)
    {
      if |items| == cap {
        cap := cap + extendNum;
      }
      items := items + [x];
    }

    /** `clear`: no items, capacity kept. */
    method Clear()
      requires Valid()
      modifies this
      ensures Valid() && items == [] && cap == old(cap) && extendNum == old(extendNum)
    {
      items := [];
    }

    /** `operator[]`: the item at `idx`, or the exception text when `idx` is
        not below the size. */
    function At(idx: nat): (r: Result<T>)
      reads this
      ensures r.Success? <==> idx < |items|
      ensures r.Success? ==> r.value == items[idx]
      ensures r.Failure? ==> r.error == "index out of range."
    {
      if idx >= |items| then Failure("index out of range.") else Success(items[idx])
    }

    /** `write`. */
    function Write(): (s: seq<Cell<T>>)
      reads this
      ensures Decode(s) == Some((items, []))
    {
      DecodeInvertsEncode(items, []);
      assert Encode(items) + [] == Encode(items);
      Encode(items)
    }

    /** `read`: the size from the prefix, a larger buffer when the prefix
        exceeds the capacity (the old one is freed first), then the items.
        Returns the rest of the stream; on a stream without a complete
        prefix and items the object is left as it was. */
    method Read(s: seq<Cell<T>>) returns (ok: bool, rest: seq<Cell<T>>)
      requires Valid()
      modifies this
      ensures Valid() && extendNum == old(extendNum)
      ensures ok <==> Decode(s).Some?
      ensures ok ==> items == Decode(s).value.0 && rest == Decode(s).value.1
      ensures ok ==> cap == if old(cap) < |items| then |items| else old(cap)
      ensures !ok ==> items == old(items) && cap == old(cap) && rest == s
    {
      var d := Decode(s);
      if d.None? {
        return false, s;
      }
      ok := true;
      items := d.value.0;
      rest := d.value.1;
      if |items| > cap {
        cap := |items|;
      }
    }
  }

  /** Copying a buffer that never grew and then destroying the copy frees
      a pointer that was never assigned. */
  method EmptyCopyFreesWild() returns (freedWild: bool)
    ensures freedWild
  {
    var a := new FArray<int>.Default();
    var b := new FArray<int>.CopyAsWritten(a);
    freedWild := b.Release();
  }

  /** With the intended copy, destroying any copy frees only pointers that
      were assigned. */
  method CopyReleasesOwnBuffer<T>(o: FArray<T>) returns (freedWild: bool)
    requires o.Valid()
    ensures !freedWild
  {
    var b := new FArray<T>.Copy(o);
    freedWild := b.Release();
  }

  /** Writing a buffer and reading the stream back into any buffer restores
      the items. */
  method WriteThenRead<T>(a: FArray<T>, b: FArray<T>, tail: seq<Cell<T>>) returns (rest: seq<Cell<T>>)
    requires a.Valid() && b.Valid()
    modifies b
    ensures b.Valid() && b.items == old(a.items) && rest == tail
  {
    var s := a.Write();
    DecodeInvertsEncode(a.items, tail);
    assert s + tail == Encode(a.items) + tail;
    var ok;
    ok, rest := b.Read(s + tail);
  }

  /** The value of `_magic_check` set by the older constructor. */
  const Magic: nat := 0xDEAD_BEEF

  /** `FArray_t` of helper.h: growth step 512 by default, a magic word that
      guards freeing, and `read` that reallocates in place. */
  class LegacyFArray<T> {
    var items: seq<T>
    var cap: nat
    var extendNum: nat
    var magic: nat
    /** `free` calls made on this object's buffers. */
    var frees: nat

    predicate Valid()
      reads this
    {
      |items| <= cap && extendNum > 0
    }

    /** `FArray_t(extend_num=512)` (helper.h:77-83). */
    constructor(extendNum: nat)
      requires extendNum > 0
      ensures Valid() && items == [] && cap == 0 && this.extendNum == extendNum
      ensures magic == Magic && frees == 0
    {
      items := [];
      cap := 0;
      this.extendNum := extendNum;
      magic := Magic;
      frees := 0;
    }

    /** `FArray_t()`: the default growth step, 512 (helper.h:77). */
    constructor Default()
      ensures Valid() && items == [] && cap == 0 && extendNum == 512
      ensures magic == Magic && frees == 0
    {
      items := [];
      cap := 0;
      extendNum := 512;
      magic := Magic;
      frees := 0;
    }

    /** `_release`: frees the buffer only when the magic word is intact and a
        buffer exists, and always leaves the object empty. */
    method Release() returns (freed: bool)
      modifies this
      ensures freed <==> old(magic) == Magic && old(cap) > 0
      ensures frees == old(frees) + (if freed then 1 else 0)
      ensures items == [] && cap == 0 && magic == old(magic) && extendNum == old(extendNum)
    {
      freed := magic == Magic && cap > 0;
      if freed {
        frees := frees + 1;
      }
      items := [];
      cap := 0;
    }

    /** `operator=`: releases its own buffer, then takes the other's
        capacity, size, items and growth step (helper.h:89-100).  Assigning
        an array to itself reads those back after the release, so it is left
        empty. */
    method Assign(o: LegacyFArray<T>)
      requires o.Valid()
      modifies this
      ensures Valid() && magic == old(magic) && extendNum == old(o.extendNum)
      ensures o != this ==> items == old(o.items) && cap == old(o.cap)
      ensures o == this ==> items == [] && cap == 0
      ensures frees == old(frees) + (if old(magic) == Magic && old(cap) > 0 then 1 else 0)
    {
      var _ := Release();
      cap := o.cap;
      items := o.items;
      extendNum := o.extendNum;
    }

    /** The copy constructor runs `operator=` on an object whose magic word
        is whatever the memory held (`junk`, and a buffer pointer `junkBuffer`),
        so its release frees nothing unless that happens to be the magic value (helper.h:85-87). */
    constructor Copy(o: LegacyFArray<T>, junk: nat, junkBuffer: bool)
      requires o.Valid()
      ensures Valid() && items == o.items && cap == o.cap && extendNum == o.extendNum
      ensures magic == junk && frees == (if junk == Magic && junkBuffer then 1 else 0)
    {
      magic := junk;
      frees := if junk == Magic && junkBuffer then 1 else 0;
      items := o.items;
      cap := o.cap;
      extendNum := o.extendNum;
    }

    /** `push_back` (helper.h:107-112, 153-160). */
    method PushBack(x: T)
      requires Valid()
      modifies this
      ensures Valid() && items == old(items) + [x]
      ensures cap == GrownCapacity(old(|items|), old(cap), extendNum)
      ensures extendNum == old(extendNum) && magic == old(magic) && frees == old(frees)
    {
      if |items| == cap {
        cap := cap + extendNum;
      }
      items := items + [x];
    }

    /** `clear` (helper.h:114). */
    method Clear()
      requires Valid()
      modifies this
      ensures Valid() && items == [] && cap == old(cap)
      ensures extendNum == old(extendNum) && magic == old(magic) && frees == old(frees)
    {
      items := [];
    }

    /** `operator[]` (helper.h:116-127). */
    function At(idx: nat): (r: Result<T>)
      reads this
      ensures r.Success? <==> idx < |items|
      ensures r.Success? ==> r.value == items[idx]
      ensures r.Failure? ==> r.error == "index out of range."
    {
      if idx >= |items| then Failure("index out of range.") else Success(items[idx])
    }

    /** `write` (helper.h:141-144). */
    function Write(): (s: seq<Cell<T>>)
      reads this
      ensures Decode(s) == Some((items, []))
    {
      DecodeInvertsEncode(items, []);
      assert Encode(items) + [] == Encode(items);
      Encode(items)
    }

    /** `read`: `realloc` to exactly the prefix size when it exceeds the
        capacity, nothing freed (helper.h:129-139). */
    method Read(s: seq<Cell<T>>) returns (ok: bool, rest: seq<Cell<T>>)
      requires Valid()
      modifies this
      ensures Valid() && extendNum == old(extendNum) && magic == old(magic) && frees == old(frees)
      ensures ok <==> Decode(s).Some?
      ensures ok ==> items == Decode(s).value.0 && rest == Decode(s).value.1
      ensures ok ==> cap == if old(cap) < |items| then |items| else old(cap)
      ensures !ok ==> items == old(items) && cap == old(cap) && rest == s
    {
      var d := Decode(s);
      if d.None? {
        return false, s;
      }
      ok := true;
      items := d.value.0;
      rest := d.value.1;
      if |items| > cap {
        cap := |items|;
      }
    }
  }
}
